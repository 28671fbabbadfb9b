/** The key-value file: the default section of an ini text, edited line by line
    (crates/mat-controller/src/kvs.rs). */
module KvsLines {
  import opened Wrappers
  import opened TextLines

  const HEADER := "[Default]"

  // ---------------------------------------------------------------- what the lines of a section say

  function KeyOf(line: string): Option<string> {
    match SplitOnce(line, '=') case None => None case Some((k, _)) => Some(Trim(k))
  }

  function RawOf(line: string): string
    requires KeyOf(line).Some?
  {
    Trim(SplitOnce(line, '=').value.1)
  }

  /** Index of the first element from `from` on that `sel` selects, the length when there is none. */
  function First<T>(s: seq<T>, from: nat, sel: T -> bool): (n: nat)
    requires from <= |s|
    ensures from <= n <= |s| && (n < |s| ==> sel(s[n])) && forall j :: from <= j < n ==> !sel(s[j])
    decreases |s| - from
  {
    if from == |s| then from else if sel(s[from]) then from else First(s, from + 1, sel)
  }

  lemma {:induction false} FirstUnique<T>(s: seq<T>, from: nat, sel: T -> bool, n: nat)
    requires from <= n <= |s| && (n < |s| ==> sel(s[n])) && forall j :: from <= j < n ==> !sel(s[j])
    ensures First(s, from, sel) == n
    decreases |s| - from
  {
    if from < n { FirstUnique(s, from + 1, sel, n); }
  }

  lemma FirstReplaced<T>(s: seq<T>, i: nat, x: T, sel: T -> bool)
    requires i < |s| && sel(s[i]) == sel(x)
    ensures First(s[i := x], 0, sel) == First(s, 0, sel)
  {
    FirstUnique(s[i := x], 0, sel, First(s, 0, sel));
  }

  lemma FirstAppended<T>(s: seq<T>, x: T, sel: T -> bool)
    ensures var n := First(s, 0, sel);
            First(s + [x], 0, sel) == if n < |s| || sel(x) then n else n + 1
  {
    var n := First(s, 0, sel);
    assert forall j :: 0 <= j < |s| ==> (s + [x])[j] == s[j];
    FirstUnique(s + [x], 0, sel, if n < |s| || sel(x) then n else n + 1);
  }

  lemma FirstWithoutOther<T>(s: seq<T>, i: nat, sel: T -> bool)
    requires i < |s| && !sel(s[i])
    ensures var r, n := s[..i] + s[i + 1..], First(s, 0, sel);
            && First(r, 0, sel) == (if n < i then n else n - 1) && n != i
            && (n < |s| ==> r[if n < i then n else n - 1] == s[n])
  {
    var r, n := s[..i] + s[i + 1..], First(s, 0, sel);
    assert forall j :: 0 <= j < |r| ==> r[j] == s[if j < i then j else j + 1];
    FirstUnique(r, 0, sel, if n < i then n else n - 1);
  }

  lemma FirstWithoutItself<T>(s: seq<T>, sel: T -> bool)
    requires First(s, 0, sel) < |s|
    ensures var i := First(s, 0, sel);
            var rest := s[i + 1..];
            First(s[..i] + rest, 0, sel) == i + First(rest, 0, sel)
  {
    var i := First(s, 0, sel);
    var rest := s[i + 1..];
    var r := s[..i] + rest;
    assert forall j :: 0 <= j < i ==> r[j] == s[j];
    assert forall j :: 0 <= j < |rest| ==> r[i + j] == rest[j];
    FirstUnique(r, 0, sel, i + First(rest, 0, sel));
  }

  function Says(key: string): string -> bool { (line: string) => KeyOf(line) == Some(key) }

  /** Index of the first line for a key, the number of lines when there is none. */
  function LineOf(sec: seq<string>, key: string): nat { First(sec, 0, Says(key)) }

  /** The value a section gives a key: that of its first line. */
  function Value(sec: seq<string>, key: string): Option<string> {
    var n := LineOf(sec, key);
    if n < |sec| then Some(RawOf(sec[n])) else None
  }

  /** A key that can stand in a line of its own. */
  predicate GoodKey(key: string) {
    && Free(key, '=') && Free(key, '\n')
    && (key != "" ==> !IsSpace(key[0]) && !IsSpace(key[|key| - 1]) && key[0] != '[')
  }

  lemma LineSays(key: string, val: string)
    requires GoodKey(key)
    ensures var line := key + ['='] + val;
            KeyOf(line) == Some(key) && RawOf(line) == Trim(val)
  {
    SplitOnceOf(key, '=', val);
    TrimNothing(key);
    hide SplitOnce, Trim;
  }

  /** Replacing the line of a key changes the value of that key only. */
  lemma ReplacedLine(sec: seq<string>, i: nat, line: string, key: string)
    requires i < |sec| && KeyOf(sec[i]) == KeyOf(line) && KeyOf(line).Some?
    requires i == LineOf(sec, KeyOf(line).value)
    ensures Value(sec[i := line], key) == if KeyOf(line) == Some(key) then Some(RawOf(line)) else Value(sec, key)
  {
    hide KeyOf, RawOf;
    FirstReplaced(sec, i, line, Says(key));
  }

  /** A line for a new key at the end. */
  lemma AppendedLine(sec: seq<string>, line: string, key: string)
    requires KeyOf(line).Some? && LineOf(sec, KeyOf(line).value) == |sec|
    ensures Value(sec + [line], key) == if KeyOf(line) == Some(key) then Some(RawOf(line)) else Value(sec, key)
  {
    hide KeyOf, RawOf;
    FirstAppended(sec, line, Says(key));
  }

  /** Taking out a line leaves the keys it is not for alone. */
  lemma RemovedLine(sec: seq<string>, i: nat, key: string)
    requires i < |sec| && KeyOf(sec[i]) != Some(key)
    ensures Value(sec[..i] + sec[i + 1..], key) == Value(sec, key)
  {
    hide KeyOf, RawOf, First;
    FirstWithoutOther(sec, i, Says(key));
  }

  /** The key whose first line went has the value of its next line, if there is one. */
  lemma NextLine(sec: seq<string>, key: string)
    requires LineOf(sec, key) < |sec|
    ensures var i := LineOf(sec, key);
            Value(sec[..i] + sec[i + 1..], key) == Value(sec[i + 1..], key)
  {
    hide KeyOf, RawOf, First;
    FirstWithoutItself(sec, Says(key));
  }

  lemma NoLine(sec: seq<string>, line: string, key: string)
    requires KeyOf(line).None?
    ensures Value(sec + [line], key) == Value(sec, key)
  {
    hide KeyOf, RawOf;
    FirstAppended(sec, line, Says(key));
  }

  // ---------------------------------------------------------------- where the section is

  predicate IsHeader(line: string) { Trim(line) == HEADER }

  /** A line that starts another section. */
  predicate IsNext(line: string) { TrimStart(line) != "" && TrimStart(line)[0] == '[' }

  /** Index of the first header, the number of lines when there is none. */
  function HeaderAt(ls: seq<string>): nat { First(ls, 0, IsHeader) }

  /** Index of the first line from `start` on that starts another section, the number of lines otherwise. */
  function SectionEnd(ls: seq<string>, start: nat): nat
    requires start <= |ls|
  {
    First(ls, start, IsNext)
  }

  /** An opened file. */
  datatype Opened = Opened(lines: seq<string>, start: nat, end: nat, trailing: bool)

  /** The lines of a text, without the empty one after a final newline. */
  function LinesOf(text: string): seq<string> {
    var ls := Split(text, '\n');
    if text != "" && text[|text| - 1] == '\n' && ls[|ls| - 1] == "" then ls[..|ls| - 1] else ls
  }

  function Open(text: string): Option<Opened> {
    var ls := LinesOf(text);
    var h := HeaderAt(ls);
    if h == |ls| then None
    else Some(Opened(ls, h + 1, SectionEnd(ls, h + 1), text != "" && text[|text| - 1] == '\n'))
  }

  /** The text a file is written back as. */
  function Body(lines: seq<string>, trailing: bool): string {
    Join(lines, '\n') + if trailing && lines != [] then "\n" else ""
  }

  /** Writing back an unedited file gives the same text. */
  lemma UneditedBody(text: string)
    ensures Body(LinesOf(text), text != "" && text[|text| - 1] == '\n') == text
  {
    hide Split, Join;
    var ls := Split(text, '\n');
    JoinSplit(text, '\n');
    EndsWithSep(text, '\n');
    if text != "" && text[|text| - 1] == '\n' {
      var front := ls[..|ls| - 1];
      JoinLastEmpty(front, '\n');
      assert front + [""] == ls;
    }
  }

  /** Reading back what was written gives the same lines, but for one empty last line in a file without a
      final newline: its own newline then counts as the final one. */
  lemma ReadBack(lines: seq<string>, trailing: bool)
    requires lines != [] && forall k :: 0 <= k < |lines| ==> Free(lines[k], '\n')
    ensures var t := Body(lines, trailing);
            var ends := t != "" && t[|t| - 1] == '\n';
            if trailing || |lines| == 1 || lines[|lines| - 1] != "" then LinesOf(t) == lines && ends == trailing
            else LinesOf(t) == lines[..|lines| - 1] && ends
  {
    hide Split, Join;
    var t := Body(lines, trailing);
    EndsWithSep(t, '\n');
    if trailing {
      JoinLastEmpty(lines, '\n');
      SplitJoin(lines + [""], '\n');
      assert (lines + [""])[..|lines|] == lines;
    } else {
      assert t == Join(lines, '\n');
      SplitJoin(lines, '\n');
    }
  }

  ghost predicate WellPlaced(p: Opened) {
    && 0 < p.start <= p.end <= |p.lines| && HeaderAt(p.lines) == p.start - 1
    && SectionEnd(p.lines, p.start) == p.end
    && forall k :: 0 <= k < |p.lines| ==> Free(p.lines[k], '\n')
  }

  function Section(p: Opened): seq<string>
    requires p.start <= p.end <= |p.lines|
  {
    p.lines[p.start..p.end]
  }

  lemma OpenedIsPlaced(text: string)
    requires Open(text).Some?
    ensures WellPlaced(Open(text).value)
  {
    hide Split, First, IsHeader, IsNext;
  }

  lemma SliceLast<T>(s: seq<T>, lo: nat)
    requires lo < |s|
    ensures s[lo..|s|] == s[..|s| - 1][lo..|s| - 1] + [s[|s| - 1]]
  {
  }

  lemma SliceInit<T>(s: seq<T>, lo: nat, hi: nat)
    requires lo <= hi < |s|
    ensures s[lo..hi] == s[..|s| - 1][lo..hi]
  {
  }

  /** Without its empty last line a file has the same places and the same values. */
  lemma LastLineDropped(p: Opened, key: string)
    requires WellPlaced(p) && |p.lines| > 1 && p.lines[|p.lines| - 1] == ""
    ensures var ls := p.lines[..|p.lines| - 1];
            var end := if p.end < |p.lines| then p.end else p.end - 1;
            && HeaderAt(ls) == p.start - 1 < |ls| && SectionEnd(ls, p.start) == end
            && Value(ls[p.start..end], key) == Value(Section(p), key)
  {
    hide Value, IsHeader, IsNext, KeyOf;
    EmptyLine();
    var n := |p.lines| - 1;
    var ls := p.lines[..n];
    FirstUnique(ls, 0, IsHeader, p.start - 1);
    if p.end == n + 1 {
      FirstUnique(ls, p.start, IsNext, n);
      SliceLast(p.lines, p.start);
      NoLine(ls[p.start..n], "", key);
    } else {
      FirstUnique(ls, p.start, IsNext, p.end);
      SliceInit(p.lines, p.start, p.end);
    }
  }

  /** Writing a file and opening it again gives every key the same value. */
  lemma Reopened(p: Opened, key: string)
    requires WellPlaced(p)
    ensures var q := Open(Body(p.lines, p.trailing));
            q.Some? && WellPlaced(q.value) && Value(Section(q.value), key) == Value(Section(p), key)
  {
    hide LinesOf, Body, First, Value, IsHeader, IsNext, Open;
    ReadBack(p.lines, p.trailing);
    var t := Body(p.lines, p.trailing);
    OpenIsLines(t);
    if !(p.trailing || |p.lines| == 1 || p.lines[|p.lines| - 1] != "") { LastLineDropped(p, key); }
    OpenedIsPlaced(t);
  }

  /** The section of a file written and opened again is the old one, at most without an empty last line. */
  lemma ReopenedSection(p: Opened)
    requires WellPlaced(p)
    ensures var q := Open(Body(p.lines, p.trailing));
            q.Some? && WellPlaced(q.value) && Section(q.value) <= Section(p)
  {
    hide LinesOf, Body, First, Value, IsHeader, IsNext, Open;
    ReadBack(p.lines, p.trailing);
    var t := Body(p.lines, p.trailing);
    OpenIsLines(t);
    if !(p.trailing || |p.lines| == 1 || p.lines[|p.lines| - 1] != "") { LastLineDropped(p, ""); }
    OpenedIsPlaced(t);
  }

  lemma OpenIsLines(text: string)
    ensures var ls := LinesOf(text);
            Open(text).Some? <==> HeaderAt(ls) < |ls|
    ensures Open(text).Some? ==>
              var ls := LinesOf(text);
              var p := Open(text).value;
              p.lines == ls && p.start == HeaderAt(ls) + 1 && p.end == SectionEnd(ls, HeaderAt(ls) + 1)
  {
    hide LinesOf, First;
  }

  lemma EmptyLine()
    ensures KeyOf("").None? && !IsHeader("") && !IsNext("")
  {
    TrimNothing("");
    assert IndexOf("", '=') == 0;
    hide Trim, TrimStart, IndexOf;
  }

  // ---------------------------------------------------------------- edits

  function SetLine(p: Opened, key: string, line: string): Opened
    requires p.start <= p.end <= |p.lines|
  {
    var i := LineOf(Section(p), key);
    if p.start + i < p.end then p.(lines := p.lines[p.start + i := line])
    else p.(lines := p.lines[..p.end] + [line] + p.lines[p.end..], end := p.end + 1)
  }

  function DropLine(p: Opened, key: string): Opened
    requires p.start <= p.end <= |p.lines|
  {
    var i := p.start + LineOf(Section(p), key);
    if i < p.end then p.(lines := p.lines[..i] + p.lines[i + 1..], end := p.end - 1) else p
  }

  lemma GoodLine(key: string, val: string)
    requires GoodKey(key) && Free(val, '\n')
    ensures var line := key + ['='] + val;
            Free(line, '\n') && !IsNext(line)
  {
    var line := key + ['='] + val;
    assert line[0] == if key == "" then '=' else key[0];
  }

  /** The section after setting a key. */
  lemma SetSection(p: Opened, key: string, val: string)
    requires WellPlaced(p) && GoodKey(key) && Free(val, '\n')
    ensures var line := key + ['='] + val;
            var q := SetLine(p, key, line);
            var sec := Section(p);
            && WellPlaced(q) && q.lines[..q.start] == p.lines[..p.start] && q.lines[q.end..] == p.lines[p.end..]
            && Section(q) == if LineOf(sec, key) < |sec| then sec[LineOf(sec, key) := line] else sec + [line]
  {
    hide First, IsHeader, IsNext, GoodKey, Trim, Value, KeyOf;
    var line := key + ['='] + val;
    GoodLine(key, val);
    var sec := Section(p);
    var i := LineOf(sec, key);
    var q := SetLine(p, key, line);
    if i < |sec| {
      assert Section(q) == sec[i := line];
    } else {
      assert Section(q) == sec + [line];
    }
    Placed(p, q);
  }

  /** Setting a key gives it the value and leaves every other key, and every line outside the section, alone. */
  lemma SetLaw(p: Opened, key: string, val: string, other: string)
    requires WellPlaced(p) && GoodKey(key) && Free(val, '\n')
    ensures var q := SetLine(p, key, key + ['='] + val);
            && WellPlaced(q)
            && Value(Section(q), other) == (if other == key then Some(Trim(val)) else Value(Section(p), other))
            && q.lines[..q.start] == p.lines[..p.start] && q.lines[q.end..] == p.lines[p.end..]
  {
    SetSection(p, key, val);
    LineSays(key, val);
    PlacedLines(p);
    hide WellPlaced, SetLine, GoodKey, Trim, Value, KeyOf, Section;
    var line := key + ['='] + val;
    var sec := Section(p);
    if LineOf(sec, key) < |sec| {
      ReplacedLine(sec, LineOf(sec, key), line, other);
    } else {
      AppendedLine(sec, line, other);
    }
  }

  /** A section edit keeps the places when no edited line starts a section. */
  lemma Placed(p: Opened, q: Opened)
    requires WellPlaced(p) && q.start == p.start <= q.end <= |q.lines|
    requires q.lines[..q.start] == p.lines[..p.start] && q.lines[q.end..] == p.lines[p.end..]
    requires forall k :: q.start <= k < q.end ==> !IsNext(q.lines[k]) && Free(q.lines[k], '\n')
    ensures WellPlaced(q)
  {
    hide IsHeader, IsNext;
    forall k | 0 <= k < q.start
      ensures q.lines[k] == p.lines[k]
    {
      assert q.lines[k] == q.lines[..q.start][k];
    }
    forall k | q.end <= k < |q.lines|
      ensures q.lines[k] == p.lines[p.end + (k - q.end)]
    {
      assert q.lines[k] == q.lines[q.end..][k - q.end];
    }
    assert |q.lines| - q.end == |p.lines| - p.end by {
      assert |q.lines[q.end..]| == |p.lines[p.end..]|;
    }
    FirstUnique(q.lines, 0, IsHeader, q.start - 1);
    FirstUnique(q.lines, q.start, IsNext, q.end);
  }

  /** Removing a key leaves the others alone; the key is gone exactly when it has no second line. */
  lemma RemoveLaw(p: Opened, key: string, other: string)
    requires WellPlaced(p)
    ensures var q := DropLine(p, key);
            var i := LineOf(Section(p), key);
            && WellPlaced(q)
            && (other != key ==> Value(Section(q), other) == Value(Section(p), other))
            && (Value(Section(q), key).None? <==>
                i == |Section(p)| || forall j :: i < j < |Section(p)| ==> KeyOf(Section(p)[j]) != Some(key))
            && q.lines[..q.start] == p.lines[..p.start] && q.lines[q.end..] == p.lines[p.end..]
  {
    hide First, IsHeader, IsNext, KeyOf, RawOf, WellPlaced;
    PlacedLines(p);
    var sec := Section(p);
    var i := LineOf(sec, key);
    var q := DropLine(p, key);
    if i < |sec| {
      DroppedSection(p, key);
      if other != key { RemovedLine(sec, i, other); }
      NextLine(sec, key);
      var rest := sec[i + 1..];
      assert forall j :: i < j < |sec| ==> sec[j] == rest[j - i - 1];
      assert forall j :: 0 <= j < |rest| ==> rest[j] == sec[j + i + 1];
    }
  }

  /** An edit touches one line: setting replaces the first line of the key, or puts a line behind the section;
      removing takes the first line of the key out. All other lines stay as they are, in their order. */
  lemma EditsTouchOneLine(p: Opened, key: string, line: string)
    requires WellPlaced(p)
    ensures var i := p.start + LineOf(Section(p), key);
            var known := i < p.end;
            var (q, r) := (SetLine(p, key, line), DropLine(p, key));
            && i <= p.end && (known ==> KeyOf(p.lines[i]) == Some(key))
            && (forall k :: p.start <= k < i ==> KeyOf(p.lines[k]) != Some(key))
            && i < |q.lines| && q.lines[i] == line && q.lines[..i] == p.lines[..i]
            && q.lines[i + 1..] == p.lines[if known then i + 1 else i..]
            && (if known then r.lines[..i] == p.lines[..i] && r.lines[i..] == p.lines[i + 1..] else r == p)
  {
    hide KeyOf, LineOf, Section, SetLine, DropLine;
    PlacedLines(p);
    hide WellPlaced;
    FirstLine(p, key);
    SetTouchesOneLine(p, key, line);
    DropTouchesOneLine(p, key);
  }

  lemma SetTouchesOneLine(p: Opened, key: string, line: string)
    requires p.start <= p.end <= |p.lines| && p.start + LineOf(Section(p), key) <= p.end
    ensures var i, q := p.start + LineOf(Section(p), key), SetLine(p, key, line);
            && i < |q.lines| && q.lines[i] == line && q.lines[..i] == p.lines[..i]
            && q.lines[i + 1..] == p.lines[if i < p.end then i + 1 else i..]
  {
    hide LineOf, Section;
    var i := p.start + LineOf(Section(p), key);
    if i < p.end { ReplaceOne(p.lines, i, line); } else { InsertOne(p.lines, i, line); }
  }

  lemma DropTouchesOneLine(p: Opened, key: string)
    requires p.start <= p.end <= |p.lines| && p.start + LineOf(Section(p), key) <= p.end
    ensures var i, r := p.start + LineOf(Section(p), key), DropLine(p, key);
            if i < p.end then r.lines[..i] == p.lines[..i] && r.lines[i..] == p.lines[i + 1..] else r == p
  {
    hide LineOf, Section;
    var i := p.start + LineOf(Section(p), key);
    if i < p.end { CutParts(p.lines, i); }
  }

  lemma FirstLine(p: Opened, key: string)
    requires p.start <= p.end <= |p.lines|
    ensures var i := p.start + LineOf(Section(p), key);
            && i <= p.end && (i < p.end ==> KeyOf(p.lines[i]) == Some(key))
            && forall k :: p.start <= k < i ==> KeyOf(p.lines[k]) != Some(key)
  {
    hide KeyOf;
    var sec := Section(p);
    var n := LineOf(sec, key);
    assert n < |sec| ==> sec[n] == p.lines[p.start + n] && Says(key)(sec[n]);
    forall k | p.start <= k < p.start + n
      ensures KeyOf(p.lines[k]) != Some(key)
    {
      assert sec[k - p.start] == p.lines[k] && !Says(key)(sec[k - p.start]);
    }
  }

  lemma ReplaceOne<T>(s: seq<T>, i: nat, x: T)
    requires i < |s|
    ensures var q := s[i := x]; q[..i] == s[..i] && q[i + 1..] == s[i + 1..]
  {
  }

  lemma InsertOne<T>(s: seq<T>, i: nat, x: T)
    requires i <= |s|
    ensures var q := s[..i] + [x] + s[i..]; |q| == |s| + 1 && q[i] == x && q[..i] == s[..i] && q[i + 1..] == s[i..]
  {
  }

  lemma CutParts<T>(s: seq<T>, i: nat)
    requires i < |s|
    ensures var r := s[..i] + s[i + 1..]; r[..i] == s[..i] && r[i..] == s[i + 1..]
  {
  }

  /** A sequence without one element of a stretch of it. */
  lemma CutOne<T>(s: seq<T>, lo: nat, hi: nat, i: nat)
    requires lo <= i < hi <= |s|
    ensures var r := s[..i] + s[i + 1..];
            && |r| == |s| - 1 && (forall k :: 0 <= k < |r| ==> r[k] == s[if k < i then k else k + 1])
            && r[..lo] == s[..lo] && r[hi - 1..] == s[hi..]
            && r[lo..hi - 1] == s[lo..hi][..i - lo] + s[lo..hi][i - lo + 1..]
  {
    var r := s[..i] + s[i + 1..];
    assert forall k :: 0 <= k < |r| ==> r[k] == s[if k < i then k else k + 1];
    var x, y := r[lo..hi - 1], s[lo..hi][..i - lo] + s[lo..hi][i - lo + 1..];
    var t := s[lo..hi];
    forall k | 0 <= k < |x|
      ensures x[k] == y[k]
    {
      assert x[k] == r[lo + k];
      assert y[k] == t[if k < i - lo then k else k + 1];
    }
  }

  lemma DroppedSection(p: Opened, key: string)
    requires WellPlaced(p) && LineOf(Section(p), key) < |Section(p)|
    ensures var q := DropLine(p, key);
            var i := LineOf(Section(p), key);
            && WellPlaced(q) && Section(q) == Section(p)[..i] + Section(p)[i + 1..]
            && q.lines[..q.start] == p.lines[..p.start] && q.lines[q.end..] == p.lines[p.end..]
  {
    hide First, IsHeader, IsNext, WellPlaced, KeyOf;
    PlacedLines(p);
    var i := p.start + LineOf(Section(p), key);
    var q := DropLine(p, key);
    CutOne(p.lines, p.start, p.end, i);
    forall k | q.start <= k < q.end
      ensures !IsNext(q.lines[k]) && Free(q.lines[k], '\n')
    {
      assert q.lines[k] == p.lines[if k < i then k else k + 1];
    }
    Placed(p, q);
  }

  lemma PlacedLines(p: Opened)
    requires WellPlaced(p)
    ensures 0 < p.start <= p.end <= |p.lines|
    ensures forall k :: p.start <= k < p.end ==> !IsNext(p.lines[k])
    ensures forall k :: 0 <= k < |p.lines| ==> Free(p.lines[k], '\n')
  {
    hide IsHeader, IsNext;
  }
}
