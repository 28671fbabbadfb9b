/** The names of store keys: different keys have different names, and every name can stand before a `=` in the
    file (crates/mat-controller/src/group_settings.rs, crates/mat-controller/src/kvs.rs). */
module KeyNames {
  import opened TextLines
  import opened GroupStore

  function DigitChar(d: nat): char
    requires d < 16
  {
    "0123456789abcdef"[d]
  }

  /** A number in decimal or hexadecimal, without leading zeros. */
  function Digits(n: nat, base: nat): string
    requires base == 10 || base == 16
    decreases n
  {
    if n < base then [DigitChar(n)] else Digits(n / base, base) + [DigitChar(n % base)]
  }

  lemma {:induction false} DigitsInjective(a: nat, b: nat, base: nat)
    requires (base == 10 || base == 16) && Digits(a, base) == Digits(b, base)
    ensures a == b
    decreases a
  {
    DigitsNonEmpty(a / base, base);
    DigitsNonEmpty(b / base, base);
    var s, t := Digits(a, base), Digits(b, base);
    if a >= base && b >= base {
      assert s[..|s| - 1] == Digits(a / base, base) && t[..|t| - 1] == Digits(b / base, base);
      DigitsInjective(a / base, b / base, base);
      DigitCharInjective(s[|s| - 1], a % base, b % base);
      assert base == 10 ==> a == 10 * (a / 10) + a % 10 && b == 10 * (b / 10) + b % 10;
      assert base == 16 ==> a == 16 * (a / 16) + a % 16 && b == 16 * (b / 16) + b % 16;
    } else if a < base && b < base {
      DigitCharInjective(s[0], a, b);
    }
  }

  lemma DigitCharInjective(c: char, a: nat, b: nat)
    requires a < 16 && b < 16 && DigitChar(a) == c == DigitChar(b)
    ensures a == b
  {
  }

  lemma DigitsNonEmpty(n: nat, base: nat)
    requires base == 10 || base == 16
    ensures |Digits(n, base)| > 0
  {
  }

  predicate IsDigit(c: char) { '0' <= c <= '9' || 'a' <= c <= 'f' }

  lemma {:induction false} DigitsAreDigits(n: nat, base: nat)
    requires base == 10 || base == 16
    ensures forall k :: 0 <= k < |Digits(n, base)| ==> IsDigit(Digits(n, base)[k])
    decreases n
  {
    if n >= base { DigitsAreDigits(n / base, base); }
  }

  function SlotName(s: EpochSlot): string {
    match s
    case Current => "ipk-epoch"
    case Pending => "ipk-epoch-next"
    case Previous => "ipk-epoch-prev"
  }

  /** The parts of a name between slashes. */
  function Parts(k: Key): seq<string> {
    match k
    case ListKey => ["g", "gfl"]
    case FabricKey(x) => ["f", Digits(x, 10), "g"]
    case GroupKey(f, g) => ["f", Digits(f, 10), "g", Digits(g, 16)]
    case MapKey(f, id) => ["f", Digits(f, 10), "gk", Digits(id, 16)]
    case KeysetKey(f, ks) => ["f", Digits(f, 10), "k", Digits(ks, 16)]
    case EpochKey(f, s) => ["mat", "f", Digits(f, 10), SlotName(s)]
  }

  function Name(k: Key): string { Join(Parts(k), '/') }

  predicate PartChar(c: char) { IsDigit(c) || 'g' <= c <= 'z' || c == '-' }

  lemma PartsAreWords(k: Key)
    ensures forall j :: 0 <= j < |Parts(k)| ==>
              |Parts(k)[j]| > 0 && forall l :: 0 <= l < |Parts(k)[j]| ==> PartChar(Parts(k)[j][l])
  {
    hide Digits;
    match k
    case ListKey =>
    case FabricKey(x) => Word(x, 10);
    case GroupKey(f, g) => Word(f, 10); Word(g, 16);
    case MapKey(f, id) => Word(f, 10); Word(id, 16);
    case KeysetKey(f, ks) => Word(f, 10); Word(ks, 16);
    case EpochKey(f, s) => Word(f, 10);
  }

  lemma Word(n: nat, base: nat)
    requires base == 10 || base == 16
    ensures |Digits(n, base)| > 0 && forall l :: 0 <= l < |Digits(n, base)| ==> PartChar(Digits(n, base)[l])
  {
    DigitsNonEmpty(n, base);
    DigitsAreDigits(n, base);
  }

  lemma PartsInjective(a: Key, b: Key)
    requires Parts(a) == Parts(b)
    ensures a == b
  {
    hide Digits;
    var p, q := Parts(a), Parts(b);
    assert p[0] == q[0] && |p| == |q|;
    assert |p| > 2 ==> p[2] == q[2];
    match a
    case ListKey =>
    case FabricKey(x) => DigitsInjective(x, b.index, 10);
    case GroupKey(f, g) => DigitsInjective(f, b.fab, 10); DigitsInjective(g, b.gid, 16);
    case MapKey(f, id) => DigitsInjective(f, b.fab, 10); DigitsInjective(id, b.id, 16);
    case KeysetKey(f, ks) => DigitsInjective(f, b.fab, 10); DigitsInjective(ks, b.ksid, 16);
    case EpochKey(f, s) =>
      assert p[3] == q[3] && |p[3]| == |q[3]|;
      DigitsInjective(f, b.fab, 10);
      if s != b.slot { SlotNamesDiffer(s, b.slot); }
  }

  lemma SlotNamesDiffer(s: EpochSlot, t: EpochSlot)
    requires s != t
    ensures SlotName(s) != SlotName(t)
  {
    var a, b := "ipk-epoch-next", "ipk-epoch-prev";
    assert a[10] != b[10];
  }

  /** Different keys have different names. */
  lemma NamesInjective(a: Key, b: Key)
    requires Name(a) == Name(b)
    ensures a == b
  {
    hide Parts, Join, Split;
    PartsFree(a);
    PartsFree(b);
    SplitJoin(Parts(a), '/');
    SplitJoin(Parts(b), '/');
    PartsInjective(a, b);
  }

  lemma PartsFree(k: Key)
    ensures Parts(k) != [] && forall j :: 0 <= j < |Parts(k)| ==> Free(Parts(k)[j], '/')
  {
    PartsAreWords(k);
    hide Digits;
  }

  predicate NameChar(c: char) { PartChar(c) || c == '/' }

  lemma {:induction false} JoinChars(ls: seq<string>)
    requires ls != []
    requires forall j :: 0 <= j < |ls| ==>
               |ls[j]| > 0 && forall l :: 0 <= l < |ls[j]| ==> PartChar(ls[j][l])
    ensures var t := Join(ls, '/');
            |t| > 0 && forall l :: 0 <= l < |t| ==> NameChar(t[l])
    decreases |ls|
  {
    if |ls| > 1 { JoinChars(ls[1..]); }
  }

  /** Names are made of lower-case letters, digits, dashes and slashes only. */
  lemma NameChars(k: Key)
    ensures |Name(k)| > 0 && forall l :: 0 <= l < |Name(k)| ==> NameChar(Name(k)[l])
  {
    hide Digits, PartChar, Join;
    PartsAreWords(k);
    JoinChars(Parts(k));
  }
}
