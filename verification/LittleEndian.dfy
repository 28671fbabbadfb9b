/** Little-endian integers and reading a buffer at a position. */
module LittleEndian {
  import opened Wrappers
  import opened Power

  lemma Pow256Values()
    ensures Pow(0x100, 1) == 0x100 && Pow(0x100, 2) == 0x1_0000 && Pow(0x100, 4) == 0x1_0000_0000
    ensures Pow(0x100, 8) == 0x1_0000_0000_0000_0000
  {
    assert Pow(0x100, 2) == 0x100 * Pow(0x100, 1);
    assert Pow(0x100, 3) == 0x100 * Pow(0x100, 2);
    assert Pow(0x100, 4) == 0x100 * Pow(0x100, 3);
    assert Pow(0x100, 5) == 0x100 * Pow(0x100, 4);
    assert Pow(0x100, 6) == 0x100 * Pow(0x100, 5);
    assert Pow(0x100, 7) == 0x100 * Pow(0x100, 6);
    assert Pow(0x100, 8) == 0x100 * Pow(0x100, 7);
  }

  /** The low `n` bytes of `v`, least significant first. */
  function Le(v: nat, n: nat): (b: bytes)
    ensures |b| == n
  {
    if n == 0 then [] else [v % 0x100] + Le(v / 0x100, n - 1)
  }

  function FromLe(b: bytes): nat {
    if b == [] then 0 else b[0] + 0x100 * FromLe(b[1..])
  }

  lemma {:induction false} FromLeBound(b: bytes)
    ensures FromLe(b) < Pow(0x100, |b|)
  {
    if b != [] { FromLeBound(b[1..]); }
  }

  lemma {:induction false} LeRoundTrip(v: nat, n: nat)
    requires v < Pow(0x100, n)
    ensures FromLe(Le(v, n)) == v
  {
    if n > 0 {
      LeRoundTrip(v / 0x100, n - 1);
      assert Le(v, n)[1..] == Le(v / 0x100, n - 1);
    }
  }

  lemma {:induction false} FromLeRoundTrip(b: bytes)
    ensures Le(FromLe(b), |b|) == b
  {
    if b != [] {
      FromLeRoundTrip(b[1..]);
      assert FromLe(b) % 0x100 == b[0] && FromLe(b) / 0x100 == FromLe(b[1..]);
    }
  }

  /** `s` stands at position `pos` of `buf`. */
  predicate At(buf: bytes, pos: nat, s: bytes) {
    pos + |s| <= |buf| && buf[pos..pos + |s|] == s
  }

  lemma AtConcat(buf: bytes, pos: nat, a: bytes, b: bytes)
    ensures At(buf, pos, a + b) <==> At(buf, pos, a) && At(buf, pos + |a|, b)
  {
    if pos + |a| + |b| <= |buf| {
      var s := buf[pos..pos + |a| + |b|];
      assert s[..|a|] == buf[pos..pos + |a|] && s[|a|..] == buf[pos + |a|..pos + |a| + |b|];
      assert s == s[..|a|] + s[|a|..];
      assert (a + b)[..|a|] == a && (a + b)[|a|..] == b;
    }
  }

  lemma AtWhole(buf: bytes)
    ensures At(buf, 0, buf)
  {
  }
}
