/** Rotation of the identity protection key: keyset 0 of a fabric follows its current epoch key
    (crates/mat-controller/src/group_settings.rs). */
module IpkRotation {
  import opened Wrappers
  import opened KeysetRecord
  import opened KeysetReader
  import opened GroupStore
  import opened GroupEditor
  import opened GroupTables
  import opened GroupSettings

  function Pend(i: uint8): Key { EpochKey(i, Pending) }

  /** Writes the pending epoch key; the same key again changes nothing, another one is refused. */
  method BeginIpkRotation(file: KvsFile, idx: uint8, next: Key16, env: Env) returns (r: Result<(), GroupError>)
    modifies file
    ensures r.Err? ==> file.disk == old(file.disk)
    ensures r.Ok? <==>
            env.opens && (Blob(old(file.disk), Pend(idx)) == Some(next)
                          || (Pend(idx) !in old(file.disk) && env.commits))
    ensures r.Ok? ==> file.disk == old(file.disk)[Pend(idx) := Data(next)]
  {
    if !env.opens { return Err(Io); }
    var read := ReadCell(file.disk, Pend(idx), Undecodable(Pend(idx)));
    if read.Err? { return Err(read.error); }
    if read.value.Some? {
      if read.value.value == next {
        assert file.disk == file.disk[Pend(idx) := Data(next)];
        return Ok(());
      }
      return Err(Corrupt(Pend(idx)));
    }
    r := file.Commit(file.disk[Pend(idx) := Data(next)], env);
  }

  /** The store after the pending key `next` became current. */
  function Committed(m: Store, i: uint8, record: bytes, cur: Key16, next: Key16): Store {
    m[KeysetKey(i, 0) := Data(record)][EpochKey(i, Current) := Data(next)][EpochKey(i, Previous) := Data(cur)]
    - {Pend(i)}
  }

  /** Makes the pending key current: rewrites the first slot of keyset 0 and moves the epoch keys along. */
  method CommitIpkRotation(
    file: KvsFile, idx: uint8, cfid: bytes, cur: Key16, next: Key16, c: Crypto, env: Env)
    returns (r: Result<(), GroupError>)
    modifies file
    ensures r.Err? ==> file.disk == old(file.disk)
    ensures r.Ok? <==>
            && env.opens && env.commits && Blob(old(file.disk), Pend(idx)) == Some(next)
            && Blob(old(file.disk), KeysetKey(idx, 0)).Some?
            && KeysetWithSlot0(Blob(old(file.disk), KeysetKey(idx, 0)).value, SlotOf(c, next, cfid)).Some?
    ensures r.Ok? ==>
              file.disk == Committed(
                old(file.disk), idx,
                KeysetWithSlot0(Blob(old(file.disk), KeysetKey(idx, 0)).value, SlotOf(c, next, cfid)).value, cur, next)
  {
    hide KeysetWithSlot0;
    if !env.opens { return Err(Io); }
    var m := file.disk;
    var pending := ReadCell(m, Pend(idx), Undecodable(Pend(idx)));
    if pending.Err? { return Err(pending.error); }
    if pending.value != Some(next) { return Err(Corrupt(Pend(idx))); }
    var k0 := KeysetKey(idx, IPK_KEYSET_ID);
    var blob := ReadCell(m, k0, Undecodable(k0));
    if blob.Err? { return Err(blob.error); }
    if blob.value.None? { return Err(Corrupt(k0)); }
    var rewritten := KeysetWithSlot0(blob.value.value, SlotOf(c, next, cfid));
    if rewritten.None? { return Err(Corrupt(k0)); }
    m := m[k0 := Data(rewritten.value)];
    m := m[EpochKey(idx, Current) := Data(next)];
    m := m[EpochKey(idx, Previous) := Data(cur)];
    m := m - {Pend(idx)};
    r := file.Commit(m, env);
  }

  /** Drops the pending key; tells whether there was one. */
  method AbortIpkRotation(file: KvsFile, idx: uint8, env: Env) returns (r: Result<bool, GroupError>)
    modifies file
    ensures r.Err? ==> file.disk == old(file.disk)
    ensures r.Ok? ==> file.disk == old(file.disk) - {Pend(idx)} && r.value == (Pend(idx) in old(file.disk))
    ensures r.Ok? <==>
            env.opens && (Pend(idx) !in old(file.disk) || (Blob(old(file.disk), Pend(idx)).Some? && env.commits))
  {
    if !env.opens { return Err(Io); }
    var read := ReadCell(file.disk, Pend(idx), Undecodable(Pend(idx)));
    if read.Err? { return Err(read.error); }
    if read.value.None? {
      assert file.disk == file.disk - {Pend(idx)};
      return Ok(false);
    }
    var committed := file.Commit(file.disk - {Pend(idx)}, env);
    if committed.Err? { return Err(committed.error); }
    return Ok(true);
  }

  // ---------------------------------------------------------------- whole runs

  /** Keyset 0 of fabric `i` holds the key derived from the current epoch key. */
  ghost predicate InStep(m: Store, i: uint8, c: Crypto, cfid: bytes, epoch: Key16) {
    && Blob(m, EpochKey(i, Current)) == Some(epoch)
    && SlotZero(m, i) == Some(Entry(c.derive(epoch, cfid), Some(c.sessionId(c.derive(epoch, cfid)))))
  }

  /** Operations on fabric `i`; table edits are provisioning and removal. */
  datatype IpkOp = TableEdit | Begin(next: Key16) | Commit(cur: Key16, next: Key16) | Abort

  /** What one operation does to the store: the postconditions of the methods, with failures as no change. */
  ghost predicate IpkStep(m: Store, i: uint8, c: Crypto, cfid: bytes, op: IpkOp, m': Store) {
    match op
    case TableEdit => OthersUntouched(m, m', i) && SlotZero(m', i) == SlotZero(m, i)
    case Begin(next) => m' == m || m' == m[Pend(i) := Data(next)]
    case Commit(cur, next) => m' == m || CommitHappens(m, i, c, cfid, cur, next, m')
    case Abort => m' == m || m' == m - {Pend(i)}
  }

  ghost predicate CommitHappens(
    m: Store, i: uint8, c: Crypto, cfid: bytes, cur: Key16, next: Key16, m': Store)
  {
    && Blob(m, Pend(i)) == Some(next) && Blob(m, KeysetKey(i, 0)).Some?
    && var b := KeysetWithSlot0(Blob(m, KeysetKey(i, 0)).value, SlotOf(c, next, cfid));
       b.Some? && m' == Committed(m, i, b.value, cur, next)
  }

  /** The current epoch key after a step: a commit of the pending key replaces it, nothing else does. */
  ghost function EpochAfter(m: Store, i: uint8, op: IpkOp, m': Store, epoch: Key16): Key16 {
    if op.Commit? && m' != m then op.next else epoch
  }

  /** The commands that write to the store of a fabric. */
  datatype Request =
    | ProvisionGroup(w: ProvisionWrite) | DropGroup(gid: uint16)
    | BeginRotation(next: Key16) | CommitRotation(cur: Key16, next: Key16) | AbortRotation

  function Effect(q: Request): IpkOp {
    match q
    case ProvisionGroup(_) => TableEdit
    case DropGroup(_) => TableEdit
    case BeginRotation(next) => Begin(next)
    case CommitRotation(cur, next) => Commit(cur, next)
    case AbortRotation => Abort
  }

  /** The edits of a commit, in order. */
  ghost function CommitEdits(m: Store, i: uint8, cfid: bytes, cur: Key16, next: Key16, c: Crypto): seq<Edit> {
    var b := Blob(m, KeysetKey(i, 0));
    var record := if b.None? then None else KeysetWithSlot0(b.value, SlotOf(c, next, cfid));
    if record.None? then []
    else [Put(KeysetKey(i, 0), record.value), Put(EpochKey(i, Current), next), Put(EpochKey(i, Previous), cur), Erase(Pend(i))]
  }

  lemma CommitIsEdits(m: Store, i: uint8, cfid: bytes, cur: Key16, next: Key16, c: Crypto)
    requires Blob(m, KeysetKey(i, 0)).Some?
    requires KeysetWithSlot0(Blob(m, KeysetKey(i, 0)).value, SlotOf(c, next, cfid)).Some?
    ensures var es := CommitEdits(m, i, cfid, cur, next, c);
            && Storable(es)
            && Applied(m, es)
               == Committed(m, i, KeysetWithSlot0(Blob(m, KeysetKey(i, 0)).value, SlotOf(c, next, cfid)).value, cur, next)
  {
    hide KeysetWithSlot0, SlotOf;
    var es := CommitEdits(m, i, cfid, cur, next, c);
    AppliedSnoc(m, [], es[0]);
    AppliedSnoc(m, [es[0]], es[1]);
    AppliedSnoc(m, [es[0], es[1]], es[2]);
    AppliedSnoc(m, [es[0], es[1], es[2]], es[3]);
    assert [] + [es[0]] == [es[0]] && [es[0]] + [es[1]] == [es[0], es[1]];
    assert [es[0], es[1]] + [es[2]] == [es[0], es[1], es[2]] && [es[0], es[1], es[2]] + [es[3]] == es;
    NoEdits(m);
    hide Applied;
  }

  lemma OneEdit(m: Store, e: Edit)
    requires e.Put? ==> e.blob != []
    ensures Applied(m, [e]) == ApplyOne(m, e) && Storable([e])
  {
    AppliedSnoc(m, [], e);
    NoEdits(m);
    assert [] + [e] == [e];
  }

  /** Every command is a step, made by edits of the store; one that fails changes nothing. */
  method Perform(file: KvsFile, idx: uint8, cfid: bytes, q: Request, c: Crypto, env: Env)
    returns (ok: bool, ghost edits: seq<Edit>)
    modifies file
    ensures IpkStep(old(file.disk), idx, c, cfid, Effect(q), file.disk)
    ensures file.disk == Applied(old(file.disk), edits) && Storable(edits)
    ensures !ok ==> file.disk == old(file.disk) && edits == []
  {
    hide SlotZero, KeysetWithSlot0, Committed, Provision, Remove, OnDisk, Lists, Registered, Applied, Storable;
    hide CommitEdits, SlotOf, OthersUntouched;
    edits := [];
    NoEdits(file.disk);
    match q
    case ProvisionGroup(w) =>
      var r, es := WriteGroupProvision(file, idx, cfid, w, c, env, EmptyView(), []);
      ok, edits := r.Ok?, if r.Ok? then es else [];
    case DropGroup(gid) =>
      var r, es := RemoveGroup(file, idx, gid, env, EmptyView(), []);
      ok, edits := r.Ok?, if r.Ok? then es else [];
    case BeginRotation(next) =>
      OneEdit(file.disk, Put(Pend(idx), next));
      var r := BeginIpkRotation(file, idx, next, env);
      ok, edits := r.Ok?, if r.Ok? then [Put(Pend(idx), next)] else [];
    case CommitRotation(cur, next) =>
      ghost var m := file.disk;
      var r := CommitIpkRotation(file, idx, cfid, cur, next, c, env);
      if r.Ok? { CommitIsEdits(m, idx, cfid, cur, next, c); }
      ok, edits := r.Ok?, if r.Ok? then CommitEdits(m, idx, cfid, cur, next, c) else [];
    case AbortRotation =>
      OneEdit(file.disk, Erase(Pend(idx)));
      var r := AbortIpkRotation(file, idx, env);
      ok, edits := r.Ok?, if r.Ok? then [Erase(Pend(idx))] else [];
  }

  /** After a commit the pending epoch key is the current one, keyset 0 holds the key derived from it, the former one
      is the previous, none is pending, and every other record is as it was. */
  lemma CommitKeepsInStep(
    m: Store, i: uint8, c: Crypto, cfid: bytes, cur: Key16, next: Key16, m': Store)
    requires CommitHappens(m, i, c, cfid, cur, next, m')
    ensures InStep(m', i, c, cfid, next)
    ensures Blob(m', EpochKey(i, Previous)) == Some(cur) && EpochKey(i, Pending) !in m'
    ensures forall k: Key ::
              k != KeysetKey(i, 0) && !(k.EpochKey? && k.fab == i) ==> Untouched(m, m', k)
  {
    hide KeysetWithSlot0, Slot0;
    Slot0Edited(Blob(m, KeysetKey(i, 0)).value, SlotOf(c, next, cfid));
  }

  lemma StepKeepsInStep(m: Store, i: uint8, c: Crypto, cfid: bytes, op: IpkOp, m': Store, epoch: Key16)
    requires InStep(m, i, c, cfid, epoch) && IpkStep(m, i, c, cfid, op, m')
    ensures InStep(m', i, c, cfid, EpochAfter(m, i, op, m', epoch))
    ensures SlotZero(m', i) != SlotZero(m, i) ==> op.Commit? && Blob(m, Pend(i)) == Some(op.next)
  {
    hide CommitHappens, Slot0;
    match op
    case TableEdit => assert Untouched(m, m', EpochKey(i, Current));
    case Begin(_) =>
    case Commit(cur, next) =>
      if m' != m {
        CommitKeepsInStep(m, i, c, cfid, cur, next, m');
        PendingOfCommit(m, i, c, cfid, cur, next, m');
      }
    case Abort =>
  }

  lemma PendingOfCommit(m: Store, i: uint8, c: Crypto, cfid: bytes, cur: Key16, next: Key16, m': Store)
    requires CommitHappens(m, i, c, cfid, cur, next, m')
    ensures Blob(m, Pend(i)) == Some(next)
  {
    hide KeysetWithSlot0;
  }

  ghost predicate IpkRun(ms: seq<Store>, i: uint8, c: Crypto, cfid: bytes, ops: seq<IpkOp>) {
    |ms| == |ops| + 1 && forall k :: 0 <= k < |ops| ==> IpkStep(ms[k], i, c, cfid, ops[k], ms[k + 1])
  }

  /** The epoch key after the first `n` operations: that of the last commit that went through. */
  ghost function EpochOf(ms: seq<Store>, i: uint8, ops: seq<IpkOp>, n: nat, epoch: Key16): Key16
    requires |ms| == |ops| + 1 && n <= |ops|
  {
    if n == 0 then epoch else EpochAfter(ms[n - 1], i, ops[n - 1], ms[n], EpochOf(ms, i, ops, n - 1, epoch))
  }

  /** In every run the key in use is derived from the current epoch key. */
  lemma {:induction false} RunsStayInStep(
    ms: seq<Store>, i: uint8, c: Crypto, cfid: bytes, ops: seq<IpkOp>, n: nat, epoch: Key16)
    requires IpkRun(ms, i, c, cfid, ops) && InStep(ms[0], i, c, cfid, epoch) && n <= |ops|
    ensures InStep(ms[n], i, c, cfid, EpochOf(ms, i, ops, n, epoch))
  {
    hide InStep, IpkStep, EpochAfter;
    if n > 0 {
      RunsStayInStep(ms, i, c, cfid, ops, n - 1, epoch);
      assert IpkStep(ms[n - 1], i, c, cfid, ops[n - 1], ms[n]);
      StepKeepsInStep(ms[n - 1], i, c, cfid, ops[n - 1], ms[n], EpochOf(ms, i, ops, n - 1, epoch));
    }
  }

  /** An operation on one fabric leaves the key of another in step. */
  lemma OtherFabricInStep(m: Store, i: uint8, j: uint8, c: Crypto, cfid: bytes, d: bytes, op: IpkOp, m': Store, epoch: Key16)
    requires i != j && IpkStep(m, i, c, cfid, op, m') && InStep(m, j, c, d, epoch)
    ensures InStep(m', j, c, d, epoch)
  {
    hide Slot0, KeysetWithSlot0;
    if op.TableEdit? {
      assert Untouched(m, m', EpochKey(j, Current)) && Untouched(m, m', KeysetKey(j, 0));
    }
  }
}
