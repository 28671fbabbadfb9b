/** The check digit of manual pairing codes (crates/mat-controller/src/setup_code.rs). */
module Verhoeff {
  type Digit = n: nat | n < 10

  const D: seq<seq<nat>> := [
    [0, 1, 2, 3, 4, 5, 6, 7, 8, 9],
    [1, 2, 3, 4, 0, 6, 7, 8, 9, 5],
    [2, 3, 4, 0, 1, 7, 8, 9, 5, 6],
    [3, 4, 0, 1, 2, 8, 9, 5, 6, 7],
    [4, 0, 1, 2, 3, 9, 5, 6, 7, 8],
    [5, 9, 8, 7, 6, 0, 4, 3, 2, 1],
    [6, 5, 9, 8, 7, 1, 0, 4, 3, 2],
    [7, 6, 5, 9, 8, 2, 1, 0, 4, 3],
    [8, 7, 6, 5, 9, 3, 2, 1, 0, 4],
    [9, 8, 7, 6, 5, 4, 3, 2, 1, 0]]

  const P: seq<seq<nat>> := [
    [0, 1, 2, 3, 4, 5, 6, 7, 8, 9],
    [1, 5, 7, 6, 2, 8, 3, 0, 9, 4],
    [5, 8, 0, 3, 7, 9, 6, 1, 4, 2],
    [8, 9, 1, 6, 0, 4, 3, 5, 2, 7],
    [9, 4, 5, 3, 1, 2, 6, 8, 7, 0],
    [4, 2, 8, 6, 5, 7, 3, 9, 0, 1],
    [2, 7, 9, 3, 8, 0, 6, 4, 1, 5],
    [7, 0, 4, 6, 9, 1, 3, 2, 5, 8]]

  const INV: seq<nat> := [0, 4, 3, 2, 1, 5, 6, 7, 8, 9]

  // ---------------------------------------------------------------- the tables are a group and a permutation

  /** A number from -4 to 9 modulo 5. */
  function Mod5(n: int): nat
    requires -5 <= n < 10
    ensures Mod5(n) < 5
  {
    if n < 0 then n + 5 else if n < 5 then n else n - 5
  }

  /** The symmetries of a pentagon: 0 to 4 are rotations, 5 to 9 reflections. */
  function Times(a: Digit, b: Digit): Digit {
    if a < 5 then (if b < 5 then Mod5(a + b) else 5 + Mod5(a + b - 5))
    else (if b < 5 then 5 + Mod5(a - 5 - b) else Mod5(a - b))
  }

  /** One step of the permutation. */
  function Perm(a: Digit): Digit {
    if a == 0 then 1 else if a == 1 then 5 else if a == 2 then 7 else if a == 3 then 6 else if a == 4 then 2
    else if a == 5 then 8 else if a == 6 then 3 else if a == 7 then 0 else if a == 8 then 9 else 4
  }

  function PermN(n: nat, a: Digit): Digit { if n == 0 then a else Perm(PermN(n - 1, a)) }

  function Inverse(a: Digit): Digit { if a == 0 || a >= 5 then a else 5 - a }

  lemma RowIs(a: Digit, row: seq<nat>)
    requires D[a] == row && |row| == 10
    requires row[0] == Times(a, 0) && row[1] == Times(a, 1) && row[2] == Times(a, 2) && row[3] == Times(a, 3)
    requires row[4] == Times(a, 4) && row[5] == Times(a, 5) && row[6] == Times(a, 6) && row[7] == Times(a, 7)
    requires row[8] == Times(a, 8) && row[9] == Times(a, 9)
    ensures |D[a]| == 10 && forall b: Digit :: D[a][b] == Times(a, b)
  {
    hide Times;
  }

  lemma TableD(a: Digit)
    ensures |D| == 10 && |D[a]| == 10 && forall b: Digit :: D[a][b] == Times(a, b)
  {
    if a == 0 { RowIs(0, [0, 1, 2, 3, 4, 5, 6, 7, 8, 9]); }
    else if a == 1 { RowIs(1, [1, 2, 3, 4, 0, 6, 7, 8, 9, 5]); }
    else if a == 2 { RowIs(2, [2, 3, 4, 0, 1, 7, 8, 9, 5, 6]); }
    else if a == 3 { RowIs(3, [3, 4, 0, 1, 2, 8, 9, 5, 6, 7]); }
    else if a == 4 { RowIs(4, [4, 0, 1, 2, 3, 9, 5, 6, 7, 8]); }
    else if a == 5 { RowIs(5, [5, 9, 8, 7, 6, 0, 4, 3, 2, 1]); }
    else if a == 6 { RowIs(6, [6, 5, 9, 8, 7, 1, 0, 4, 3, 2]); }
    else if a == 7 { RowIs(7, [7, 6, 5, 9, 8, 2, 1, 0, 4, 3]); }
    else if a == 8 { RowIs(8, [8, 7, 6, 5, 9, 3, 2, 1, 0, 4]); }
    else { RowIs(9, [9, 8, 7, 6, 5, 4, 3, 2, 1, 0]); }
  }

  /** A row of the permutation table, by its ten entries. */
  ghost predicate PermRow(i: nat, row: seq<nat>)
    requires i < 8
  {
    P[i] == row && |row| == 10 && forall a: Digit :: row[a] == PermN(i, a)
  }

  lemma NextRow(i: nat, row: seq<nat>, next: seq<nat>)
    requires i < 7 && PermRow(i, row) && P[i + 1] == next && |next| == 10
    requires forall a: Digit :: row[a] < 10
    requires next[0] == Perm(row[0]) && next[1] == Perm(row[1]) && next[2] == Perm(row[2]) && next[3] == Perm(row[3])
    requires next[4] == Perm(row[4]) && next[5] == Perm(row[5]) && next[6] == Perm(row[6]) && next[7] == Perm(row[7])
    requires next[8] == Perm(row[8]) && next[9] == Perm(row[9])
    ensures PermRow(i + 1, next) && forall a: Digit :: next[a] < 10
  {
    hide Perm;
    forall a: Digit
      ensures next[a] == PermN(i + 1, a)
    {
      assert row[a] == PermN(i, a);
    }
  }

  lemma PermRows()
    ensures |P| == 8
    ensures PermRow(0, P[0]) && PermRow(1, P[1]) && PermRow(2, P[2]) && PermRow(3, P[3])
    ensures PermRow(4, P[4]) && PermRow(5, P[5]) && PermRow(6, P[6]) && PermRow(7, P[7])
  {
    var r0, r1 := [0, 1, 2, 3, 4, 5, 6, 7, 8, 9], [1, 5, 7, 6, 2, 8, 3, 0, 9, 4];
    var r2, r3 := [5, 8, 0, 3, 7, 9, 6, 1, 4, 2], [8, 9, 1, 6, 0, 4, 3, 5, 2, 7];
    var r4, r5 := [9, 4, 5, 3, 1, 2, 6, 8, 7, 0], [4, 2, 8, 6, 5, 7, 3, 9, 0, 1];
    var r6, r7 := [2, 7, 9, 3, 8, 0, 6, 4, 1, 5], [7, 0, 4, 6, 9, 1, 3, 2, 5, 8];
    assert PermRow(0, r0);
    hide PermRow, PermN;
    NextRow(0, r0, r1); NextRow(1, r1, r2); NextRow(2, r2, r3); NextRow(3, r3, r4);
    NextRow(4, r4, r5); NextRow(5, r5, r6); NextRow(6, r6, r7);
  }

  lemma LastRow(a: Digit)
    ensures |P| == 8 && |P[7]| == 10 && 0 <= P[7][a] < 10 && Perm(P[7][a]) == a
  {
  }

  lemma TableP(i: nat, a: Digit)
    requires i < 8
    ensures |P| == 8 && |P[i]| == 10 && P[i][a] == PermN(i, a)
    ensures PermN(8, a) == a
  {
    PermRows();
    LastRow(a);
    EightSteps(a);
    hide PermRow, PermN, Perm;
    RowEntries(i, P[i], a);
    RowEntries(7, P[7], a);
  }

  lemma EightSteps(a: Digit)
    ensures PermN(8, a) == Perm(PermN(7, a))
  {
    hide Perm;
  }

  lemma RowEntries(i: nat, row: seq<nat>, a: Digit)
    requires i < 8 && PermRow(i, row)
    ensures |row| == 10 && row[a] == PermN(i, a)
  {
  }

  lemma TableInv(a: Digit)
    ensures |INV| == 10 && INV[a] == Inverse(a)
  {
  }

  lemma RotationsAssociate(a: Digit, b: Digit, c: Digit)
    requires a < 5
    ensures Times(Times(a, b), c) == Times(a, Times(b, c))
  {
  }

  lemma ReflectionsAssociate(a: Digit, b: Digit, c: Digit)
    requires a >= 5
    ensures Times(Times(a, b), c) == Times(a, Times(b, c))
  {
  }

  lemma TimesAssociates(a: Digit, b: Digit, c: Digit)
    ensures Times(Times(a, b), c) == Times(a, Times(b, c))
  {
    hide Times;
    if a < 5 { RotationsAssociate(a, b, c); } else { ReflectionsAssociate(a, b, c); }
  }

  lemma TimesUnits(a: Digit, b: Digit)
    ensures Times(0, a) == a && Times(a, 0) == a
    ensures Times(Inverse(a), a) == 0
    ensures Times(b, a) == 0 ==> b == Inverse(a)
  {
  }

  lemma TimesCancels(a: Digit, b: Digit, c: Digit)
    ensures Times(a, b) == Times(a, c) ==> b == c
    ensures Times(b, a) == Times(c, a) ==> b == c
  {
  }

  lemma PermCancels(a: Digit, b: Digit)
    ensures Perm(a) == Perm(b) ==> a == b
  {
  }

  /** The reason for the permutation: swapping two different digits changes their product. */
  lemma SwapShows(x: Digit, y: Digit)
    requires x != y
    ensures Times(x, Perm(y)) != Times(y, Perm(x))
  {
  }

  // ---------------------------------------------------------------- the check digit

  lemma {:induction false} PermPeriod(n: nat, a: Digit)
    ensures PermN(n, a) == PermN(n % 8, a)
    decreases n
  {
    hide Perm, PermN;
    if n >= 8 {
      PermPeriod(n - 8, a);
      PermShift(n - 8, a);
      TableP(0, a);
    }
  }

  /** Applying the permutation some more times. */
  lemma {:induction false} PermShift(n: nat, a: Digit)
    ensures PermN(n + 8, a) == PermN(n, PermN(8, a))
  {
    hide Perm;
    if n > 0 { PermShift(n - 1, a); }
  }

  lemma {:induction false} PermNCancels(n: nat, a: Digit, b: Digit)
    ensures PermN(n, a) == PermN(n, b) ==> a == b
  {
    hide Perm;
    if n > 0 {
      PermNCancels(n - 1, a, b);
      PermCancels(PermN(n - 1, a), PermN(n - 1, b));
    }
  }

  /** The product of the digits from the right, each permuted by its position; the last one has position `k`. */
  function Fold(ds: seq<Digit>, k: nat): Digit {
    if ds == [] then 0 else Times(Fold(ds[1..], k), PermN(k + |ds| - 1, ds[0]))
  }

  function CheckDigit(payload: seq<Digit>): Digit { Inverse(Fold(payload, 1)) }

  method VerhoeffCheckDigit(payload: seq<Digit>) returns (r: Digit)
    ensures r == CheckDigit(payload)
  {
    hide Times, PermN, Inverse;
    var c: Digit := 0;
    var n := |payload|;
    assert payload[n..] == [];
    for i := 0 to n
      invariant c == Fold(payload[n - i..], 1)
    {
      var d := payload[n - 1 - i];
      assert payload[n - 1 - i..] == [d] + payload[n - i..];
      assert ([d] + payload[n - i..])[1..] == payload[n - i..];
      TableP((i + 1) % 8, d);
      PermPeriod(i + 1, d);
      TableD(c);
      c := D[c][P[(i + 1) % 8][d]];
    }
    assert payload[0..] == payload;
    TableInv(c);
    r := INV[c];
  }

  /** The last digit is the check digit of the others. */
  predicate Valid(ds: seq<Digit>)
    requires ds != []
  {
    ds[|ds| - 1] == CheckDigit(ds[..|ds| - 1])
  }

  lemma {:induction false} FoldSnoc(ds: seq<Digit>, e: Digit, k: nat)
    ensures Fold(ds + [e], k) == Times(PermN(k, e), Fold(ds, k + 1))
  {
    hide Times, PermN;
    if ds == [] {
      assert [] + [e] == [e] && [e][1..] == [];
      TimesUnits(PermN(k, e), 0);
    } else {
      assert (ds + [e])[1..] == ds[1..] + [e];
      FoldSnoc(ds[1..], e, k);
      TimesAssociates(PermN(k, e), Fold(ds[1..], k + 1), PermN(k + |ds|, ds[0]));
    }
  }

  /** A number is valid exactly when the product of all its digits is 0. */
  lemma ValidIff(ds: seq<Digit>)
    requires ds != []
    ensures Valid(ds) <==> Fold(ds, 0) == 0
  {
    hide Times, Inverse, Fold;
    var front, e := ds[..|ds| - 1], ds[|ds| - 1];
    FoldSnoc(front, e, 0);
    assert front + [e] == ds;
    TimesUnits(Fold(front, 1), e);
  }

  /** Digits in front do not hide a difference. */
  lemma {:induction false} FrontShows(front: seq<Digit>, a: seq<Digit>, b: seq<Digit>, k: nat)
    requires |a| == |b| && Fold(a, k) != Fold(b, k)
    ensures Fold(front + a, k) != Fold(front + b, k)
  {
    hide Times, PermN;
    if front == [] {
      assert [] + a == a && [] + b == b;
    } else {
      FrontShows(front[1..], a, b, k);
      assert (front + a)[1..] == front[1..] + a && (front + b)[1..] == front[1..] + b;
      TimesCancels(PermN(k + |front + a| - 1, front[0]), Fold(front[1..] + a, k), Fold(front[1..] + b, k));
    }
  }

  lemma FoldCons(x: Digit, ds: seq<Digit>, k: nat)
    ensures Fold([x] + ds, k) == Times(Fold(ds, k), PermN(k + |ds|, x))
  {
    hide Times, PermN;
    assert ([x] + ds)[1..] == ds;
  }

  /** Changing any one digit of a valid number, of whatever length, makes it invalid; the check digit included. */
  lemma ChangeShows(ds: seq<Digit>, j: nat, x: Digit)
    requires j < |ds| && x != ds[j] && Valid(ds)
    ensures !Valid(ds[j := x])
  {
    hide Times, PermN, Fold, Valid;
    var front, back := ds[..j], ds[j + 1..];
    ValidIff(ds);
    ValidIff(ds[j := x]);
    FoldCons(ds[j], back, 0);
    FoldCons(x, back, 0);
    PermNCancels(|back|, ds[j], x);
    TimesCancels(Fold(back, 0), PermN(|back|, ds[j]), PermN(|back|, x));
    FrontShows(front, [ds[j]] + back, [x] + back, 0);
    assert front + ([ds[j]] + back) == ds;
    assert front + ([x] + back) == ds[j := x];
  }

  /** Swapping two different neighbours of a valid number, of whatever length, makes it invalid; the check digit
      included. */
  lemma SwapOfNeighboursShows(ds: seq<Digit>, j: nat)
    requires j + 1 < |ds| && ds[j] != ds[j + 1] && Valid(ds)
    ensures !Valid(ds[j := ds[j + 1]][j + 1 := ds[j]])
  {
    hide Times, PermN, Fold, Valid, Perm;
    var front, back, x, y := ds[..j], ds[j + 2..], ds[j], ds[j + 1];
    var swapped := ds[j := y][j + 1 := x];
    ValidIff(ds);
    ValidIff(swapped);
    PairShows(x, y, back);
    FrontShows(front, [x] + ([y] + back), [y] + ([x] + back), 0);
    assert front + ([x] + ([y] + back)) == ds;
    assert front + ([y] + ([x] + back)) == swapped;
  }

  lemma PairShows(x: Digit, y: Digit, back: seq<Digit>)
    requires x != y
    ensures Fold([x] + ([y] + back), 0) != Fold([y] + ([x] + back), 0)
  {
    hide Times, Fold, Perm;
    var n := |back|;
    FoldCons(y, back, 0);
    FoldCons(x, back, 0);
    FoldCons(x, [y] + back, 0);
    FoldCons(y, [x] + back, 0);
    var f, u, v := Fold(back, 0), PermN(n, x), PermN(n, y);
    PermNCancels(n, x, y);
    TimesAssociates(f, v, Perm(u));
    TimesAssociates(f, u, Perm(v));
    SwapShows(u, v);
    TimesCancels(f, Times(v, Perm(u)), Times(u, Perm(v)));
  }
}
