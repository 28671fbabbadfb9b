/** Text as lines and fields: splitting, joining and trimming as the store's file format uses them
    (crates/mat-controller/src/kvs.rs). */
module TextLines {
  import opened Wrappers

  /** Index of the first `sep`, the length of the text when there is none. */
  function IndexOf(t: string, sep: char): (n: nat)
    ensures n <= |t| && (n < |t| ==> t[n] == sep)
    ensures forall j :: 0 <= j < n ==> t[j] != sep
  {
    if t == "" then 0 else if t[0] == sep then 0 else 1 + IndexOf(t[1..], sep)
  }

  predicate Free(t: string, sep: char) { forall j :: 0 <= j < |t| ==> t[j] != sep }

  lemma IndexUnique(t: string, sep: char, n: nat)
    requires n <= |t| && (n < |t| ==> t[n] == sep) && forall j :: 0 <= j < n ==> t[j] != sep
    ensures IndexOf(t, sep) == n
  {
  }

  /** The pieces between separators; always at least one. */
  function Split(t: string, sep: char): (r: seq<string>)
    ensures r != []
    ensures forall k :: 0 <= k < |r| ==> Free(r[k], sep)
    decreases |t|
  {
    var n := IndexOf(t, sep);
    if n == |t| then [t] else [t[..n]] + Split(t[n + 1..], sep)
  }

  function Join(ls: seq<string>, sep: char): string {
    if ls == [] then "" else if |ls| == 1 then ls[0] else ls[0] + [sep] + Join(ls[1..], sep)
  }

  lemma {:induction false} JoinSplit(t: string, sep: char)
    ensures Join(Split(t, sep), sep) == t
    decreases |t|
  {
    var n := IndexOf(t, sep);
    if n < |t| {
      var rest := Split(t[n + 1..], sep);
      JoinSplit(t[n + 1..], sep);
      assert ([t[..n]] + rest)[1..] == rest;
      assert t == t[..n] + [sep] + t[n + 1..];
    }
  }

  lemma SplitStep(a: string, sep: char, rest: string)
    requires Free(a, sep)
    ensures Split(a + [sep] + rest, sep) == [a] + Split(rest, sep)
  {
    hide Split;
    var t := a + [sep] + rest;
    IndexUnique(t, sep, |a|);
    assert t[..|a|] == a && t[|a| + 1..] == rest;
    SplitAt(t, sep);
  }

  lemma SplitAt(t: string, sep: char)
    ensures var n := IndexOf(t, sep);
            Split(t, sep) == if n == |t| then [t] else [t[..n]] + Split(t[n + 1..], sep)
  {
    hide IndexOf;
  }

  lemma {:induction false} SplitJoin(ls: seq<string>, sep: char)
    requires ls != [] && forall k :: 0 <= k < |ls| ==> Free(ls[k], sep)
    ensures Split(Join(ls, sep), sep) == ls
    decreases |ls|
  {
    hide Split, Free;
    if |ls| == 1 {
      OnePiece(ls[0], sep);
      assert ls == [ls[0]];
    } else {
      SplitJoin(ls[1..], sep);
      SplitStep(ls[0], sep, Join(ls[1..], sep));
    }
  }

  lemma OnePiece(t: string, sep: char)
    requires Free(t, sep)
    ensures Split(t, sep) == [t]
  {
    IndexUnique(t, sep, |t|);
  }

  /** A text ends with the separator exactly when there is one and its last piece is empty. */
  lemma {:induction false} EndsWithSep(t: string, sep: char)
    ensures var r := Split(t, sep);
            (t != "" && t[|t| - 1] == sep) <==> (|r| > 1 && r[|r| - 1] == "")
    decreases |t|
  {
    var n := IndexOf(t, sep);
    SplitAt(t, sep);
    hide Split, IndexOf, Free;
    if n < |t| {
      var tail := t[n + 1..];
      var rest := Split(tail, sep);
      EndsWithSep(tail, sep);
      assert ([t[..n]] + rest)[|rest|] == rest[|rest| - 1];
      if tail == "" { OnePiece(tail, sep); } else {
        SplitAt(tail, sep);
        assert tail[|tail| - 1] == t[|t| - 1];
      }
    }
  }

  /** A trailing empty piece is a trailing separator. */
  lemma {:induction false} JoinLastEmpty(ls: seq<string>, sep: char)
    requires ls != []
    ensures Join(ls + [""], sep) == Join(ls, sep) + [sep]
    decreases |ls|
  {
    if |ls| == 1 {
      assert (ls + [""])[1..] == [""];
    } else {
      JoinLastEmpty(ls[1..], sep);
      assert (ls + [""])[1..] == ls[1..] + [""];
    }
  }

  // ---------------------------------------------------------------- white space

  /** The white space of Unicode, which trimming takes off. */
  predicate IsSpace(c: char) {
    var n := c as int;
    0x09 <= n <= 0x0D || n == 0x20 || n == 0x85 || n == 0xA0 || n == 0x1680 || 0x2000 <= n <= 0x200A
    || n == 0x2028 || n == 0x2029 || n == 0x202F || n == 0x205F || n == 0x3000
  }

  function TrimStart(s: string): (r: string)
    ensures r == "" || !IsSpace(r[0])
    ensures |r| <= |s| && r == s[|s| - |r|..]
  {
    if s == "" then "" else if IsSpace(s[0]) then TrimStart(s[1..]) else s
  }

  function TrimEnd(s: string): (r: string)
    ensures r == "" || !IsSpace(r[|r| - 1])
    ensures |r| <= |s| && r == s[..|r|]
  {
    if s == "" then "" else if IsSpace(s[|s| - 1]) then TrimEnd(s[..|s| - 1]) else s
  }

  function Trim(s: string): string { TrimEnd(TrimStart(s)) }

  /** A text without white space at its ends is its own trimming. */
  lemma TrimNothing(s: string)
    requires s != "" ==> !IsSpace(s[0]) && !IsSpace(s[|s| - 1])
    ensures Trim(s) == s && TrimStart(s) == s
  {
  }

  predicate Blank(w: string) { forall k :: 0 <= k < |w| ==> IsSpace(w[k]) }

  lemma {:induction false} TrimStartAt(s: string, k: nat)
    requires k <= |s| && (forall j :: 0 <= j < k ==> IsSpace(s[j])) && (k < |s| ==> !IsSpace(s[k]))
    ensures TrimStart(s) == s[k..]
    decreases k
  {
    hide IsSpace;
    if k > 0 {
      TrimStartAt(s[1..], k - 1);
      assert s[1..][k - 1..] == s[k..];
    }
  }

  lemma TrimStartOf(w: string, r: string)
    requires Blank(w) && (r == "" || !IsSpace(r[0]))
    ensures TrimStart(w + r) == r
  {
    hide TrimStart, IsSpace;
    var s := w + r;
    assert forall j :: 0 <= j < |w| ==> s[j] == w[j];
    TrimStartAt(s, |w|);
    assert s[|w|..] == r;
  }

  lemma {:induction false} TrimEndOf(r: string, w: string)
    requires Blank(w) && (r == "" || !IsSpace(r[|r| - 1]))
    ensures TrimEnd(r + w) == r
    decreases |w|
  {
    hide IsSpace;
    if w == "" {
      assert r + w == r;
    } else {
      var n := |w| - 1;
      TrimEndOf(r, w[..n]);
      assert (r + w)[..|r + w| - 1] == r + w[..n];
    }
  }

  /** `split_once`: what stands before and after the first separator. */
  function SplitOnce(s: string, sep: char): Option<(string, string)> {
    var n := IndexOf(s, sep);
    if n == |s| then None else Some((s[..n], s[n + 1..]))
  }

  lemma SplitOnceOf(a: string, sep: char, b: string)
    requires Free(a, sep)
    ensures SplitOnce(a + [sep] + b, sep) == Some((a, b))
  {
    var s := a + [sep] + b;
    IndexUnique(s, sep, |a|);
    assert s[..|a|] == a && s[|a| + 1..] == b;
  }
}
