/** The persisted group message counter (crates/mat-controller/src/group.rs): the file is always ahead of what was
    handed out. */
module GroupCounter {
  import opened Wrappers

  const EPOCH: uint32 := 4096

  /** The result of `u32::wrapping_add` */
  function Wrap32(n: nat): uint32
    requires n < 0x2_0000_0000
  {
    if n < 0x1_0000_0000 then n else n - 0x1_0000_0000
  }

  /** How replacing the file ends: installed, failed before the rename, or reported as failed although the new
      contents are there. */
  datatype Outcome = Installed | NotInstalled | InstalledButFailed

  class CounterFile {
    /** The number in the file, 0 while there is no file. */
    var value: uint32

    constructor (value: uint32)
      ensures this.value == value
    {
      this.value := value;
    }

    method Replace(v: uint32, o: Outcome) returns (ok: bool)
      modifies this
      ensures ok == o.Installed? && value == (if o.NotInstalled? then old(value) else v)
    {
      if !o.NotInstalled? { value := v; }
      return o.Installed?;
    }
  }

  /** The counter as a running program holds it. */
  datatype Proc = Proc(next: uint32, ceiling: uint32)

  class PersistedGroupCounter {
    var next: uint32
    var ceiling: uint32
    const file: CounterFile

    constructor (file: CounterFile, start: uint32)
      ensures this.file == file && State() == Proc(start, start)
    {
      this.file, next, ceiling := file, start, start;
    }

    function State(): Proc
      reads this
    {
      Proc(next, ceiling)
    }

    method Persist(c: uint32, o: Outcome) returns (ok: bool)
      modifies this, file
      ensures ok == o.Installed? && next == old(next)
      ensures ceiling == (if ok then c else old(ceiling))
      ensures file.value == if o.NotInstalled? then old(file.value) else c
    {
      ok := file.Replace(c, o);
      if ok { ceiling := c; }
    }

    /** The counter to send with. */
    method Next(o: Outcome) returns (v: Option<uint32>)
      modifies this, file
      ensures (file.value, State(), v) == NextStep(old(file.value), old(State()), o)
    {
      if next == ceiling {
        var ok := Persist(Wrap32(ceiling + EPOCH), o);
        if !ok { return None; }
      }
      v := Some(next);
      next := Wrap32(next + 1);
    }

    /** Skips as far as a restart would; the old and the new next counter. */
    method Jump(o: Outcome) returns (r: Option<(uint32, uint32)>)
      modifies this, file
      ensures (file.value, State(), r.Some?) == JumpStep(old(file.value), old(State()), o)
      ensures r.Some? ==> r.value == (old(next), next)
    {
      var from := next;
      var to := Wrap32(ceiling + EPOCH);
      var ok := Persist(Wrap32(to + EPOCH), o);
      if !ok { return None; }
      next := to;
      return Some((from, to));
    }
  }

  /** Opens the counter ahead of the file and of the other program's counter. A file that another program holds, or that
      cannot be read as a number, refuses the start and stays as it is. */
  method Load(file: CounterFile, gdc: uint32, readable: bool, o: Outcome) returns (c: Option<PersistedGroupCounter>)
    modifies file
    ensures !readable ==> c.None? && file.value == old(file.value)
    ensures readable ==>
              && file.value == LoadStep(old(file.value), gdc, o).0
              && c.Some? == LoadStep(old(file.value), gdc, o).1.Some?
    ensures c.Some? ==> fresh(c.value) && c.value.file == file
                        && Some(c.value.State()) == LoadStep(old(file.value), gdc, o).1
  {
    if !readable { return None; }
    var start := Wrap32(Max(file.value, gdc) + EPOCH);
    var counter := new PersistedGroupCounter(file, start);
    var ok := counter.Persist(Wrap32(start + EPOCH), o);
    if !ok { return None; }
    return Some(counter);
  }

  function Max(a: uint32, b: uint32): uint32 { if a < b then b else a }

  // ---------------------------------------------------------------- the steps as functions

  function NextStep(disk: uint32, p: Proc, o: Outcome): (uint32, Proc, Option<uint32>) {
    if p.next != p.ceiling then (disk, p.(next := Wrap32(p.next + 1)), Some(p.next))
    else
      var c := Wrap32(p.ceiling + EPOCH);
      if o.Installed? then (c, Proc(Wrap32(p.next + 1), c), Some(p.next))
      else (if o.NotInstalled? then disk else c, p, None)
  }

  function JumpStep(disk: uint32, p: Proc, o: Outcome): (uint32, Proc, bool) {
    var to := Wrap32(p.ceiling + EPOCH);
    var c := Wrap32(to + EPOCH);
    if o.Installed? then (c, Proc(to, c), true) else (if o.NotInstalled? then disk else c, p, false)
  }

  function LoadStep(disk: uint32, gdc: uint32, o: Outcome): (uint32, Option<Proc>) {
    var start := Wrap32(Max(disk, gdc) + EPOCH);
    var c := Wrap32(start + EPOCH);
    if o.Installed? then (c, Some(Proc(start, c))) else (if o.NotInstalled? then disk else c, None)
  }

  // ---------------------------------------------------------------- headroom

  /** Going on to the next window moves the ceiling up exactly if it does not wrap. */
  lemma NextHeadroom(disk: uint32, p: Proc)
    requires p.next == p.ceiling
    ensures p.ceiling < NextStep(disk, p, Installed).0 <==> p.ceiling + EPOCH < 0x1_0000_0000
  {
  }

  /** A jump lands above the old ceiling and below the new one exactly if two windows fit. */
  lemma JumpHeadroom(disk: uint32, p: Proc)
    ensures var (d, q, _) := JumpStep(disk, p, Installed);
            p.ceiling < q.next <= q.ceiling <==> p.ceiling + 2 * EPOCH < 0x1_0000_0000
  {
  }

  /** A start is above both counters and below its ceiling exactly if two windows fit above them. */
  lemma LoadHeadroom(disk: uint32, gdc: uint32)
    ensures var q := LoadStep(disk, gdc, Installed).1.value;
            Max(disk, gdc) < q.next <= q.ceiling <==> Max(disk, gdc) + 2 * EPOCH < 0x1_0000_0000
  {
  }

  // ---------------------------------------------------------------- whole runs

  /** The file, the running program if there is one, and every counter handed out so far. */
  datatype World = World(disk: uint32, proc: Option<Proc>, issued: seq<uint32>)

  datatype Op = LoadOp(gdc: uint32, o: Outcome) | NextOp(o: Outcome) | JumpOp(o: Outcome) | Crash

  /** An operation; loading while a program holds the lock, and using a counter that is not loaded, do nothing, as does
      loading from a file that cannot be read. */
  function Do(w: World, op: Op): World {
    match op
    case Crash => w.(proc := None)
    case LoadOp(gdc, o) =>
      if w.proc.Some? then w
      else
        var r := LoadStep(w.disk, gdc, o);
        w.(disk := r.0, proc := r.1)
    case NextOp(o) =>
      if w.proc.None? then w
      else
        var r := NextStep(w.disk, w.proc.value, o);
        World(r.0, Some(r.1), if r.2.Some? then w.issued + [r.2.value] else w.issued)
    case JumpOp(o) =>
      if w.proc.None? then w
      else
        var r := JumpStep(w.disk, w.proc.value, o);
        World(r.0, Some(r.1), w.issued)
  }

  /** The numbers the operation writes do not wrap. */
  predicate Room(w: World, op: Op) {
    match op
    case Crash => true
    case LoadOp(gdc, _) => w.proc.Some? || Max(w.disk, gdc) + 2 * EPOCH < 0x1_0000_0000
    case NextOp(_) =>
      w.proc.Some? && w.proc.value.next == w.proc.value.ceiling ==> w.proc.value.ceiling + EPOCH < 0x1_0000_0000
    case JumpOp(_) => w.proc.Some? ==> w.proc.value.ceiling + 2 * EPOCH < 0x1_0000_0000
  }

  ghost predicate Increasing(s: seq<uint32>) { forall j, k :: 0 <= j < k < |s| ==> s[j] < s[k] }

  /** What was handed out is increasing and below the file; a running program is between the two. */
  ghost predicate Ahead(w: World) {
    && Increasing(w.issued)
    && (forall k :: 0 <= k < |w.issued| ==> w.issued[k] < w.disk)
    && (w.proc.Some? ==>
          && w.proc.value.next <= w.proc.value.ceiling <= w.disk
          && forall k :: 0 <= k < |w.issued| ==> w.issued[k] < w.proc.value.next)
  }

  lemma IssueNext(w: World, o: Outcome)
    requires Ahead(w) && w.proc.Some? && Room(w, NextOp(o))
    ensures Ahead(Do(w, NextOp(o)))
  {
    var (d, p, v) := NextStep(w.disk, w.proc.value, o);
    hide NextStep;
    assert d >= p.ceiling >= p.next && (v.Some? ==> v == Some(w.proc.value.next) && p.next == v.value + 1) by {
      NextBounds(w.disk, w.proc.value, o);
    }
    assert v.None? ==> p.next == w.proc.value.next by { NextBounds(w.disk, w.proc.value, o); }
  }

  lemma NextBounds(disk: uint32, p: Proc, o: Outcome)
    requires p.next <= p.ceiling <= disk
    requires p.next == p.ceiling ==> p.ceiling + EPOCH < 0x1_0000_0000
    ensures var (d, q, v) := NextStep(disk, p, o);
            && d >= q.ceiling >= q.next
            && if v.Some? then v == Some(p.next) && q.next == p.next + 1 else q.next == p.next
  {
  }

  lemma DoKeepsAhead(w: World, op: Op)
    requires Ahead(w) && Room(w, op)
    ensures Ahead(Do(w, op))
  {
    if op.NextOp? && w.proc.Some? { IssueNext(w, op.o); }
    hide NextStep;
  }

  ghost function Run(w: World, ops: seq<Op>): World {
    if ops == [] then w else Do(Run(w, ops[..|ops| - 1]), ops[|ops| - 1])
  }

  ghost predicate RoomAlong(w: World, ops: seq<Op>) {
    forall k :: 0 <= k < |ops| ==> Room(Run(w, ops[..k]), ops[k])
  }

  /** Over any mix of starts, sends, jumps and crashes, with writes that fail at any point, the counters handed
      out keep increasing. */
  lemma {:induction false} RunsIncrease(w: World, ops: seq<Op>)
    requires Ahead(w) && RoomAlong(w, ops)
    ensures Ahead(Run(w, ops)) && Increasing(Run(w, ops).issued)
  {
    hide Do, Room;
    if ops != [] {
      var n := |ops| - 1;
      assert forall k :: 0 <= k < n ==> ops[..n][..k] == ops[..k];
      RunsIncrease(w, ops[..n]);
      DoKeepsAhead(Run(w, ops[..n]), ops[n]);
    }
  }

  /** Every number that is handed out is one below the file, so a crash at any point cannot bring it back. */
  lemma CrashAnywhere(w: World, ops: seq<Op>, gdc: uint32, k: nat)
    requires Ahead(w) && RoomAlong(w, ops)
    requires Max(Run(w, ops).disk, gdc) + 2 * EPOCH < 0x1_0000_0000
    requires k < |Run(w, ops).issued|
    ensures var again := Do(Do(Run(w, ops), Crash), LoadOp(gdc, Installed));
            Run(w, ops).issued[k] + EPOCH < again.proc.value.next
  {
    RunsIncrease(w, ops);
    hide Run, Increasing;
  }

  // ---------------------------------------------------------------- without headroom

  /** At the end of the range the next window, and a jump, start again at 0. */
  lemma WindowsWrap(disk: uint32)
    ensures var p := Proc(0xFFFF_F000, 0xFFFF_F000);
            && NextStep(disk, p, Installed) == (0, Proc(0xFFFF_F001, 0), Some(0xFFFF_F000))
            && JumpStep(disk, p, Installed) == (0x1000, Proc(0, 0x1000), true)
  {
  }

  /** A program that starts with one window left hands out a counter above its file; after a crash it goes on far below:
      counters handed out are not increasing any more. */
  lemma WrapGoesBack(w: World)
    requires w == World(0xFFFF_E000, None, [])
    ensures var ops := [LoadOp(0, Installed), NextOp(Installed), Crash, LoadOp(0, Installed), NextOp(Installed)];
            Ahead(w) && Run(w, ops).issued == [0xFFFF_F000, 0x1000] && !Increasing(Run(w, ops).issued)
  {
    hide Run, Do, Increasing;
    var load, next := LoadOp(0, Installed), NextOp(Installed);
    RunOfFive(w, load, next, Crash, load, next);
    WrappedSteps(w);
    NotIncreasing(0xFFFF_F000, 0x1000);
    NothingIsIncreasing();
  }

  lemma WrappedSteps(w: World)
    requires w == World(0xFFFF_E000, None, [])
    ensures var load, next := LoadOp(0, Installed), NextOp(Installed);
            var crashed := Do(Do(Do(w, load), next), Crash);
            crashed == World(0, None, [0xFFFF_F000]) && Do(Do(crashed, load), next).issued == [0xFFFF_F000, 0x1000]
  {
    var load, next := LoadOp(0, Installed), NextOp(Installed);
    assert Do(w, load) == World(0, Some(Proc(0xFFFF_F000, 0)), []);
    assert Do(World(0, None, [0xFFFF_F000]), load) == World(0x2000, Some(Proc(0x1000, 0x2000)), [0xFFFF_F000]);
  }

  lemma RunOfFive(w: World, a: Op, b: Op, c: Op, d: Op, e: Op)
    ensures Run(w, [a, b, c, d, e]) == Do(Do(Do(Do(Do(w, a), b), c), d), e)
  {
    hide Do;
    RunSnoc(w, [], a);
    RunSnoc(w, [a], b);
    RunSnoc(w, [a, b], c);
    RunSnoc(w, [a, b, c], d);
    RunSnoc(w, [a, b, c, d], e);
    hide Run;
    assert [] + [a] == [a] && [a] + [b] == [a, b] && [a, b] + [c] == [a, b, c];
    assert [a, b, c] + [d] == [a, b, c, d] && [a, b, c, d] + [e] == [a, b, c, d, e];
  }

  lemma RunSnoc(w: World, ops: seq<Op>, op: Op)
    ensures Run(w, ops + [op]) == Do(Run(w, ops), op)
    ensures Run(w, []) == w
  {
    assert (ops + [op])[..|ops|] == ops;
  }

  lemma NotIncreasing(a: uint32, b: uint32)
    requires a >= b
    ensures !Increasing([a, b])
  {
    var s := [a, b];
    assert s[0] >= s[1];
  }

  lemma NothingIsIncreasing()
    ensures Increasing([])
  {
  }
}
