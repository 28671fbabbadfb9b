/** Message counters and the replay window (crates/mat-controller/src/counter.rs), section 4.5 of the Matter Core
    Specification. */
module ReplayWindow {
  import opened Wrappers

  // ---------------------------------------------------------------- bits of a word

  /** The value of a small word. */
  function ToInt(x: bv32): nat { x as int }

  predicate Small(x: bv32) { x < 32 }

  predicate Leq(x: bv32, y: bv32) { x <= y }

  function Minus(x: bv32, y: bv32): bv32 { x - y }

  /** A shift amount as a word. */
  function Nth(i: nat): (r: bv32)
    requires i < 32
    ensures ToInt(r) == i && Small(r)
  {
    var r := if i == 0 then 0 else Nth(i - 1) + 1;
    SmallBv(r);
    r
  }

  function LeftAt(b: bv32, d: bv32): bv32
    requires Small(d)
  {
    b << d
  }

  function OneAt(k: bv32): bv32
    requires Small(k)
  {
    1 << k
  }

  predicate BitAt(b: bv32, i: bv32)
    requires Small(i)
  {
    (b >> i) & 1 == 1
  }

  function Left(b: bv32, d: nat): bv32
    requires d < 32
  {
    LeftAt(b, Nth(d))
  }

  /** The word with bit `k` only. */
  function One(k: nat): bv32
    requires k < 32
  {
    OneAt(Nth(k))
  }

  function Or(a: bv32, b: bv32): bv32 { a | b }

  predicate Meets(a: bv32, b: bv32) { a & b != 0 }

  predicate Bit(b: bv32, i: nat)
    requires i < 32
  {
    BitAt(b, Nth(i))
  }

  lemma SmallBv(x: bv32)
    requires x as int < 32
    ensures x < 32
  {
  }

  lemma MinusInt(x: bv32, y: bv32)
    requires Leq(y, x) && Small(x)
    ensures ToInt(Minus(x, y)) == ToInt(x) - ToInt(y)
  {
  }

  lemma MinusSmall(x: bv32, y: bv32)
    requires Leq(y, x) && Small(x)
    ensures Small(Minus(x, y))
  {
  }

  lemma SameBv(x: bv32, y: bv32)
    requires Small(x) && Small(y) && ToInt(x) == ToInt(y)
    ensures x == y
  {
  }

  lemma LeqInt(x: bv32, y: bv32)
    requires Small(x) && Small(y)
    ensures Leq(x, y) <==> ToInt(x) <= ToInt(y)
  {
  }

  lemma NthSub(i: nat, d: nat)
    requires d <= i < 32
    ensures Leq(Nth(d), Nth(i)) && Minus(Nth(i), Nth(d)) == Nth(i - d)
  {
    hide *;
    LeqInt(Nth(d), Nth(i));
    MinusInt(Nth(i), Nth(d));
    MinusSmall(Nth(i), Nth(d));
    SameBv(Minus(Nth(i), Nth(d)), Nth(i - d));
  }

  predicate Follows(d: bv32, e: bv32) { d == e + 1 && d < 32 }

  lemma NthFollows(d: nat)
    requires 1 <= d < 32
    ensures Follows(Nth(d), Nth(d - 1))
  {
  }

  lemma ZeroAt(i: bv32)
    requires Small(i)
    ensures !BitAt(0, i)
  {
  }

  lemma ShiftedAt(b: bv32, d: bv32, e: bv32, i: bv32)
    requires Small(d) && Small(e) && Small(i) && Follows(d, e)
    ensures Leq(d, i) ==> Small(Minus(i, d))
    ensures BitAt(Or(LeftAt(b, d), OneAt(e)), i) <==> i == e || (Leq(d, i) && BitAt(b, Minus(i, d)))
  {
  }

  lemma MeetsAt(b: bv32, k: bv32)
    requires Small(k)
    ensures Meets(b, OneAt(k)) <==> BitAt(b, k)
  {
  }

  lemma OrAt(b: bv32, k: bv32, i: bv32)
    requires Small(k) && Small(i)
    ensures BitAt(Or(b, OneAt(k)), i) <==> BitAt(b, i) || i == k
  {
  }

  lemma ZeroBits(i: nat)
    requires i < 32
    ensures !Bit(0, i)
  {
    hide BitAt, Small, ToInt;
    ZeroAt(Nth(i));
  }

  lemma ShiftedBits(b: bv32, d: nat, i: nat)
    requires 1 <= d <= 31 && i < 32
    ensures Bit(Or(Left(b, d), One(d - 1)), i) <==> i == d - 1 || (i >= d && Bit(b, i - d))
  {
    hide Nth, BitAt, Small, ToInt, Or, LeftAt, OneAt, Minus, Leq, Follows;
    NthFollows(d);
    LeqInt(Nth(d), Nth(i));
    if i >= d { NthSub(i, d); }
    ShiftedAt(b, Nth(d), Nth(d - 1), Nth(i));
  }

  lemma MaskedBit(b: bv32, k: nat, i: nat)
    requires k < 32 && i < 32
    ensures Meets(b, One(k)) <==> Bit(b, k)
    ensures Bit(Or(b, One(k)), i) <==> Bit(b, i) || i == k
  {
    hide Nth, BitAt, Small, ToInt, Or, OneAt, Meets;
    MeetsAt(b, Nth(k));
    OrAt(b, Nth(k), Nth(i));
  }

  // ---------------------------------------------------------------- the window

  /** The window: the largest counter, and for each offset 1 to 32 below it a bit that says it was seen. */
  datatype Window = Window(max: uint32, bitmap: bv32, empty: bool)

  /** The counter `o` below the largest is marked as seen. */
  predicate Marked(w: Window, o: nat)
    requires 1 <= o <= 32
  {
    Bit(w.bitmap, o - 1)
  }

  function Advanced(bitmap: bv32, delta: nat): bv32
    requires delta > 0
  {
    if delta >= 32 then 0 else Or(Left(bitmap, delta), One(delta - 1))
  }

  /** Whether a counter is fresh, and the window after it was looked at. */
  function Check(w: Window, c: uint32): (Window, bool) {
    if w.empty then (Window(c, 0, false), true)
    else if c > w.max then (Window(c, Advanced(w.bitmap, c - w.max), false), true)
    else if c == w.max || w.max - c > 32 then (w, false)
    else
      var bit := One(w.max - c - 1);
      if Meets(w.bitmap, bit) then (w, false) else (w.(bitmap := Or(w.bitmap, bit)), true)
  }

  class RxWindow {
    var max: uint32
    var bitmap: bv32
    var empty: bool

    constructor ()
      ensures State() == Window(0, 0, true)
    {
      max, bitmap, empty := 0, 0, true;
    }

    function State(): Window
      reads this
    {
      Window(max, bitmap, empty)
    }

    method CheckAndCommit(counter: uint32) returns (ok: bool)
      modifies this
      ensures (State(), ok) == Check(old(State()), counter)
    {
      hide Left, Or, Meets, One;
      if empty {
        empty := false;
        max := counter;
        bitmap := 0;
        return true;
      }
      if counter > max {
        var delta: nat := counter - max;
        bitmap := if delta >= 32 then 0 else Or(Left(bitmap, delta), One(delta - 1));
        max := counter;
        return true;
      }
      if counter == max { return false; }
      var offset: nat := max - counter;
      if offset > 32 { return false; }
      var bit := One(offset - 1);
      if Meets(bitmap, bit) { return false; }
      bitmap := Or(bitmap, bit);
      return true;
    }
  }

  // ---------------------------------------------------------------- what was accepted

  /** How often each counter was accepted. `lost` says that the last advance was by exactly 32 and the former
      largest counter, now 32 below, has not been accepted again since. */
  datatype History = History(hits: multiset<int>, lost: bool)

  ghost function Record(w: Window, h: History, c: uint32): History {
    if !Check(w, c).1 then h
    else
      History(h.hits + multiset{c},
              if w.empty then false
              else if c > w.max then c - w.max == 32
              else h.lost && w.max - c != 32)
  }

  /** The marks are exact, but for the lost counter. */
  ghost predicate Exact(w: Window, h: History) {
    forall o: nat :: 1 <= o <= 32 ==> (Marked(w, o) <==> w.max - o in h.hits && !(h.lost && o == 32))
  }

  /** What was accepted is at most the largest counter, which was accepted once; nothing was accepted more than
      twice; the lost counter was accepted once; and the marks are exact but for it. */
  ghost predicate Refines(w: Window, h: History) {
    if w.empty then h == History(multiset{}, false)
    else
      && h.hits[w.max] == 1
      && (forall c: int :: c > w.max || c < 0 ==> h.hits[c] == 0)
      && (forall c: int :: h.hits[c] <= 2)
      && (h.lost ==> h.hits[w.max - 32] == 1)
      && Exact(w, h)
  }

  /** A counter is accepted exactly if it is the first one, or above the largest, or at most 32 below it and not
      accepted before; the one exception is the lost counter, accepted a second time. */
  lemma AcceptedIff(w: Window, h: History, c: uint32)
    requires Refines(w, h)
    ensures Check(w, c).1 <==>
            || w.empty || c > w.max
            || (c < w.max && w.max - c <= 32 && (c !in h.hits || (h.lost && w.max - c == 32)))
  {
    hide Bit, Advanced, Or, Meets, One;
    if !w.empty && c < w.max && w.max - c <= 32 {
      var o: nat := w.max - c;
      MaskedBit(w.bitmap, o - 1, 0);
      assert Marked(w, o) <==> w.max - o in h.hits && !(h.lost && o == 32);
    }
  }

  lemma AdvanceExact(w: Window, h: History, c: uint32)
    requires Refines(w, h) && !w.empty && c > w.max
    ensures Exact(Check(w, c).0, Record(w, h, c))
  {
    hide Bit, Or, Meets, One, Left;
    var d: nat := c - w.max;
    var h' := Record(w, h, c);
    forall o: nat | 1 <= o <= 32
      ensures Marked(Check(w, c).0, o) <==> c - o in h'.hits && !(h'.lost && o == 32)
    {
      assert c - o in h'.hits <==> c - o in h.hits;
      if d <= 31 {
        ShiftedBits(w.bitmap, d, o - 1);
        if o > d { assert Marked(w, o - d) <==> w.max - (o - d) in h.hits && !(h.lost && o - d == 32); }
      } else {
        ZeroBits(o - 1);
      }
    }
  }

  lemma LateExact(w: Window, h: History, c: uint32)
    requires Refines(w, h) && !w.empty && c <= w.max && Check(w, c).1
    ensures Exact(Check(w, c).0, Record(w, h, c))
  {
    hide Bit, Advanced, Or, Meets, One;
    var k: nat := w.max - c;
    forall o: nat | 1 <= o <= 32
      ensures Marked(Check(w, c).0, o) <==>
              w.max - o in Record(w, h, c).hits && !(Record(w, h, c).lost && o == 32)
    {
      MaskedBit(w.bitmap, k - 1, o - 1);
      assert Marked(w, o) <==> w.max - o in h.hits && !(h.lost && o == 32);
    }
  }

  lemma FirstExact(w: Window, h: History, c: uint32)
    requires w.empty && h == History(multiset{}, false)
    ensures Exact(Check(w, c).0, Record(w, h, c))
  {
    hide Bit, Advanced, Or, Meets, One;
    forall o: nat | 1 <= o <= 32
      ensures !Marked(Check(w, c).0, o)
    {
      ZeroBits(o - 1);
    }
  }

  /** Looking at a counter keeps the window a refinement of what was accepted. */
  lemma StepRefines(w: Window, h: History, c: uint32)
    requires Refines(w, h)
    ensures Refines(Check(w, c).0, Record(w, h, c))
  {
    hide Exact, Advanced, Or, Meets, One;
    if w.empty {
      FirstExact(w, h, c);
    } else if c > w.max {
      AdvanceExact(w, h, c);
    } else if Check(w, c).1 {
      AcceptedIff(w, h, c);
      LateExact(w, h, c);
    }
  }

  /** No counter is ever accepted a third time, and a second time only as the lost one. */
  lemma SecondTimeOnlyLost(w: Window, h: History, c: uint32)
    requires Refines(w, h) && Check(w, c).1 && c in h.hits
    ensures h.lost && w.max - c == 32 && h.hits[c] == 1
    ensures !Record(w, h, c).lost && Record(w, h, c).hits[c] == 2
  {
    AcceptedIff(w, h, c);
    hide Exact, Advanced, Or, Meets, One;
  }

  // ---------------------------------------------------------------- whole histories

  /** The window and the record after a sequence of counters. */
  ghost function After(cs: seq<uint32>): (r: (Window, History)) {
    if cs == [] then (Window(0, 0, true), History(multiset{}, false))
    else
      var (w, h) := After(cs[..|cs| - 1]);
      (Check(w, cs[|cs| - 1]).0, Record(w, h, cs[|cs| - 1]))
  }

  /** In every history the window refines what was accepted; no counter is accepted more than twice. */
  lemma {:induction false} HistoriesRefine(cs: seq<uint32>)
    ensures Refines(After(cs).0, After(cs).1)
    ensures forall c: int :: After(cs).1.hits[c] <= 2
  {
    hide Refines, Check, Record;
    if cs == [] {
      StartRefines();
    } else {
      var (w, h) := After(cs[..|cs| - 1]);
      HistoriesRefine(cs[..|cs| - 1]);
      StepRefines(w, h, cs[|cs| - 1]);
    }
    AtMostTwice(After(cs).0, After(cs).1);
  }

  lemma StartRefines()
    ensures Refines(Window(0, 0, true), History(multiset{}, false))
  {
  }

  lemma AtMostTwice(w: Window, h: History)
    requires Refines(w, h)
    ensures forall c: int :: h.hits[c] <= 2
  {
    hide Exact;
  }

  /** The exception does occur: after any counter and one exactly 32 above it, the first is accepted again, and
      then no more. */
  lemma LostCounterReturns(c: uint32)
    requires c + 32 < 0x1_0000_0000
    ensures var w := Check(Check(Window(0, 0, true), c).0, c + 32).0;
            Check(w, c).1 && !Check(Check(w, c).0, c).1
  {
    var w1, h1 := Check(Window(0, 0, true), c).0, History(multiset{c}, false);
    StartRefines();
    StepRefines(Window(0, 0, true), History(multiset{}, false), c);
    assert multiset{} + multiset{c} == multiset{c};
    StepRefines(w1, h1, c + 32);
    var w2, h2 := Check(w1, c + 32).0, Record(w1, h1, c + 32);
    AcceptedIff(w2, h2, c);
    StepRefines(w2, h2, c);
    AcceptedIff(Check(w2, c).0, Record(w2, h2, c), c);
    hide Refines, Advanced, Or, Meets, One;
  }

  // ---------------------------------------------------------------- outgoing counters

  /** The counter of outgoing messages. */
  class TxCounter {
    var value: uint32

    constructor (start: uint32)
      ensures value == start
    {
      value := start;
    }

    method Next() returns (v: uint32)
      modifies this
      ensures v == old(value) && value == (old(value) + 1) % 0x1_0000_0000
    {
      v := value;
      value := (value + 1) % 0x1_0000_0000;
    }
  }
}
