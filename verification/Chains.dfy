/** Count-driven singly linked lists over a table of records (crates/mat-controller/src/group_settings.rs). */
module Chains {
  import opened Wrappers

  /** A record: its contents and the id of its successor. */
  datatype Node<T> = Node(val: T, next: uint16)

  /** An entry of a list: its id and its contents. */
  datatype Row<T> = Row(id: uint16, val: T)

  type Table<T> = map<uint16, Node<T>>

  ghost predicate DistinctIds<T>(rows: seq<Row<T>>) {
    forall j, k :: 0 <= j < k < |rows| ==> rows[j].id != rows[k].id
  }

  ghost predicate HasId<T>(rows: seq<Row<T>>, id: uint16) {
    exists k :: 0 <= k < |rows| && rows[k].id == id
  }

  /** Starting at `first`, the table holds exactly `rows`, with distinct ids. The link of the last record is
      never looked at: walks are driven by the count. */
  ghost predicate Chain<T>(tab: Table<T>, first: uint16, rows: seq<Row<T>>) {
    && DistinctIds(rows)
    && (forall k :: 0 <= k < |rows| ==> rows[k].id in tab && tab[rows[k].id].val == rows[k].val)
    && (rows != [] ==> rows[0].id == first)
    && (forall k :: 0 <= k < |rows| - 1 ==> tab[rows[k].id].next == rows[k + 1].id)
  }

  /** The ids met on `n` steps from `first`. */
  function Walk<T>(tab: Table<T>, first: uint16, n: nat): (r: Option<seq<uint16>>)
    ensures r.Some? ==> |r.value| == n && forall id :: id in r.value ==> id in tab
    decreases n
  {
    if n == 0 then Some([])
    else if first !in tab then None
    else
      match Walk(tab, tab[first].next, n - 1)
      case None => None
      case Some(ids) => Some([first] + ids)
  }

  function Ids<T>(rows: seq<Row<T>>): (ids: seq<uint16>)
    ensures |ids| == |rows| && forall k :: 0 <= k < |rows| ==> ids[k] == rows[k].id
  {
    seq(|rows|, k requires 0 <= k < |rows| => rows[k].id)
  }

  /** Walking a list of the right length meets exactly its ids. */
  lemma {:induction false} WalkOfChain<T>(tab: Table<T>, first: uint16, rows: seq<Row<T>>)
    requires Chain(tab, first, rows)
    ensures Walk(tab, first, |rows|) == Some(Ids(rows))
    decreases |rows|
  {
    if rows == [] {
      assert Ids(rows) == [];
    } else {
      var rest := rows[1..];
      assert Chain(tab, tab[first].next, rest) by {
        assert forall k :: 0 <= k < |rest| ==> rest[k] == rows[k + 1];
      }
      WalkOfChain(tab, tab[first].next, rest);
      assert Ids(rows) == [first] + Ids(rest);
    }
  }

  /** A table represents at most one list of a given length from a given start. */
  lemma ChainUnique<T>(tab: Table<T>, first: uint16, a: seq<Row<T>>, b: seq<Row<T>>)
    requires Chain(tab, first, a) && Chain(tab, first, b) && |a| == |b|
    ensures a == b
  {
    WalkOfChain(tab, first, a);
    WalkOfChain(tab, first, b);
    assert forall k :: 0 <= k < |a| ==> a[k].id == Ids(a)[k] == Ids(b)[k] == b[k].id;
  }

  lemma ChainAppend<T>(tab: Table<T>, tab': Table<T>, first: uint16, rows: seq<Row<T>>, id: uint16, v: T)
    requires Chain(tab, first, rows) && rows != [] && !HasId(rows, id)
    requires var last := rows[|rows| - 1].id;
             && id in tab' && tab'[id].val == v
             && last in tab' && tab'[last] == Node(tab[last].val, id)
             && forall x :: x in tab && x != id && x != last ==> x in tab' && tab'[x] == tab[x]
    ensures Chain(tab', first, rows + [Row(id, v)])
  {
    var m := rows + [Row(id, v)];
    var last := rows[|rows| - 1].id;
    forall k | 0 <= k < |m|
      ensures m[k].id in tab' && tab'[m[k].id].val == m[k].val
      ensures k < |m| - 1 ==> tab'[m[k].id].next == m[k + 1].id
    {
      if k < |rows| - 1 { assert rows[k].id != last && rows[k].id != id; }
    }
  }

  lemma ChainPrepend<T>(tab: Table<T>, tab': Table<T>, first: uint16, rows: seq<Row<T>>, id: uint16, v: T)
    requires Chain(tab, first, rows) && !HasId(rows, id)
    requires id in tab' && tab'[id] == Node(v, first)
    requires forall x :: x in tab && x != id ==> x in tab' && tab'[x] == tab[x]
    ensures Chain(tab', id, [Row(id, v)] + rows)
  {
    var m := [Row(id, v)] + rows;
    forall k | 0 <= k < |m|
      ensures m[k].id in tab' && tab'[m[k].id].val == m[k].val
      ensures k < |m| - 1 ==> tab'[m[k].id].next == m[k + 1].id
    {
      if k > 0 { assert m[k] == rows[k - 1]; }
    }
  }

  lemma ChainUpdate<T>(tab: Table<T>, tab': Table<T>, first: uint16, rows: seq<Row<T>>, k: nat, v: T)
    requires Chain(tab, first, rows) && k < |rows|
    requires var id := rows[k].id;
             && id in tab' && tab'[id] == Node(v, tab[id].next)
             && forall x :: x in tab && x != id ==> x in tab' && tab'[x] == tab[x]
    ensures Chain(tab', first, rows[k := Row(rows[k].id, v)])
  {
    var m := rows[k := Row(rows[k].id, v)];
    forall j | 0 <= j < |m|
      ensures m[j].id in tab' && tab'[m[j].id].val == m[j].val
      ensures j < |m| - 1 ==> tab'[m[j].id].next == m[j + 1].id
    {
      assert m[j].id == rows[j].id;
    }
  }

  function Without<T>(rows: seq<Row<T>>, k: nat): seq<Row<T>>
    requires k < |rows|
  {
    rows[..k] + rows[k + 1..]
  }

  /** Taking out the first entry moves the start. */
  lemma ChainUnlinkFirst<T>(tab: Table<T>, tab': Table<T>, first: uint16, rows: seq<Row<T>>)
    requires Chain(tab, first, rows) && rows != []
    requires forall x :: x in tab && x != first ==> x in tab' && tab'[x] == tab[x]
    ensures Chain(tab', tab[first].next, Without(rows, 0))
  {
    var m := Without(rows, 0);
    forall j | 0 <= j < |m|
      ensures m[j] == rows[j + 1] && rows[j + 1].id != first
      ensures m[j].id in tab' && tab'[m[j].id] == tab[m[j].id]
    {
      assert m[j] == rows[j + 1] && rows[j + 1].id != rows[0].id;
    }
  }

  /** Taking out a later entry redirects its predecessor. */
  lemma ChainUnlinkLater<T>(tab: Table<T>, tab': Table<T>, first: uint16, rows: seq<Row<T>>, k: nat)
    requires Chain(tab, first, rows) && 0 < k < |rows|
    requires var prev, id := rows[k - 1].id, rows[k].id;
             && prev in tab' && tab'[prev] == Node(tab[prev].val, tab[id].next)
             && forall x :: x in tab && x != id && x != prev ==> x in tab' && tab'[x] == tab[x]
    ensures Chain(tab', first, Without(rows, k))
  {
    var m := Without(rows, k);
    forall j | 0 <= j < |m|
      ensures m[j].id in tab' && tab'[m[j].id].val == m[j].val
      ensures j < |m| - 1 ==> tab'[m[j].id].next == m[j + 1].id
    {
      if j < k - 1 {
        assert m[j] == rows[j] && m[j + 1] == rows[j + 1];
        assert rows[j].id != rows[k - 1].id && rows[j].id != rows[k].id;
      } else if j >= k {
        assert m[j] == rows[j + 1];
        assert rows[j + 1].id != rows[k - 1].id && rows[j + 1].id != rows[k].id;
        assert j < |m| - 1 ==> m[j + 1] == rows[j + 2];
      } else {
        assert m[j] == rows[k - 1];
        assert j < |m| - 1 ==> m[j + 1] == rows[k + 1];
      }
    }
    assert m[0].id == first;
    forall i, j | 0 <= i < j < |m|
      ensures m[i].id != m[j].id
    {
      assert m[i] == rows[if i < k then i else i + 1];
      assert m[j] == rows[if j < k then j else j + 1];
    }
  }

  // ---------------------------------------------------------------- lists of rows

  /** Position of an id, the length of the list when it is not there. */
  function Find<T>(rows: seq<Row<T>>, id: uint16): (k: nat)
    ensures k <= |rows| && (k < |rows| ==> rows[k].id == id)
    ensures forall j :: 0 <= j < k ==> rows[j].id != id
  {
    if rows == [] then 0 else if rows[0].id == id then 0 else 1 + Find(rows[1..], id)
  }

  lemma FindHas<T>(rows: seq<Row<T>>, id: uint16)
    ensures Find(rows, id) < |rows| <==> HasId(rows, id)
  {
  }
}
