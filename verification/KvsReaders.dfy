/** The readers of the key-value file, which find the default section and its keys in the text itself
    (crates/mat-controller/src/kvs.rs). */
module KvsReaders {
  import opened Wrappers
  import opened TextLines
  import opened KvsLines

  /** The text without trailing line-end characters. */
  function StripEnd(s: string): (r: string)
    ensures |r| <= |s| && r == s[..|r|]
  {
    if s != "" && (s[|s| - 1] == '\r' || s[|s| - 1] == '\n') then StripEnd(s[..|s| - 1]) else s
  }

  predicate ReadsHeader(line: string) { StripEnd(line) == HEADER }

  predicate ReadsNext(line: string) { StripEnd(line) != "" && StripEnd(line)[0] == '[' }

  /** The lines of the default section as the readers delimit it. */
  function ReaderSection(ls: seq<string>): Option<seq<string>> {
    var h := First(ls, 0, ReadsHeader);
    if h == |ls| then None else Some(ls[h + 1..First(ls, h + 1, ReadsNext)])
  }

  /** The first header, and the line that ends the section behind it, have no blanks around them other than a line
      end. Other lines do not matter. */
  predicate SharedBounds(ls: seq<string>) {
    var h := First(ls, 0, IsHeader);
    h == |ls| || (ReadsHeader(ls[h]) && var e := First(ls, h + 1, IsNext); e == |ls| || ReadsNext(ls[e]))
  }

  lemma {:induction false} StripIsTrim(s: string)
    ensures TrimEnd(StripEnd(s)) == TrimEnd(s)
  {
    if s != "" && (s[|s| - 1] == '\r' || s[|s| - 1] == '\n') { StripIsTrim(s[..|s| - 1]); }
  }

  /** What the readers take for a header is one for the transaction too. */
  lemma ReaderHeadersAreHeaders(line: string)
    ensures ReadsHeader(line) ==> IsHeader(line)
    ensures ReadsNext(line) ==> IsNext(line)
  {
    hide TrimStart, TrimEnd, StripEnd, IsSpace;
    var t := StripEnd(line);
    if ReadsHeader(line) || ReadsNext(line) {
      assert line[0] == t[0] == '[';
      BracketIsNoSpace();
      TrimStartOf("", line);
      assert "" + line == line;
      StripIsTrim(line);
      TrimEndOf(HEADER, "");
      assert HEADER + "" == HEADER;
    }
  }

  lemma BracketIsNoSpace()
    ensures !IsSpace('[') && !IsSpace(HEADER[|HEADER| - 1]) && Blank("") && Blank(" ")
  {
  }

  /** A search that takes less finds the same element exactly if it takes the one found, or none is found. */
  lemma FirstOfFewer<T>(s: seq<T>, from: nat, fewer: T -> bool, more: T -> bool)
    requires from <= |s| && forall k :: from <= k < |s| && fewer(s[k]) ==> more(s[k])
    ensures var n := First(s, from, more);
            First(s, from, fewer) == n <==> n == |s| || fewer(s[n])
  {
    var n := First(s, from, more);
    if n == |s| || fewer(s[n]) { FirstUnique(s, from, fewer, n); }
  }

  /** Readers and transaction delimit the same lines if and only if the bounds the transaction finds are bounds for the
      readers too. */
  lemma SameBounds(ls: seq<string>)
    ensures var h := First(ls, 0, IsHeader);
            (First(ls, 0, ReadsHeader) == h && (h < |ls| ==> First(ls, h + 1, ReadsNext) == First(ls, h + 1, IsNext)))
            <==> SharedBounds(ls)
  {
    hide IsHeader, IsNext, ReadsHeader, ReadsNext;
    forall k | 0 <= k < |ls|
      ensures ReadsHeader(ls[k]) ==> IsHeader(ls[k])
      ensures ReadsNext(ls[k]) ==> IsNext(ls[k])
    {
      ReaderHeadersAreHeaders(ls[k]);
    }
    var h := First(ls, 0, IsHeader);
    FirstOfFewer(ls, 0, ReadsHeader, IsHeader);
    if h < |ls| { FirstOfFewer(ls, h + 1, ReadsNext, IsNext); }
  }

  /** Then transaction and readers see the same values. */
  lemma ReadersAgree(text: string, key: string)
    requires SharedBounds(Split(text, '\n'))
    ensures Open(text).Some? <==> ReaderSection(Split(text, '\n')).Some?
    ensures Open(text).Some? ==>
              Value(Section(Open(text).value), key) == Value(ReaderSection(Split(text, '\n')).value, key)
  {
    hide Split, First, Value, IsHeader, IsNext, ReadsHeader, ReadsNext, SharedBounds;
    var ls := Split(text, '\n');
    SameBounds(ls);
    EndsWithSep(text, '\n');
    OpenIsLines(text);
    var h := First(ls, 0, IsHeader);
    if LinesOf(text) != ls { WithoutLastLine(ls, key); }
  }

  /** An empty last line does not matter. */
  lemma WithoutLastLine(ls: seq<string>, key: string)
    requires |ls| > 1 && ls[|ls| - 1] == "" && forall k :: 0 <= k < |ls| ==> Free(ls[k], '\n')
    ensures var p := ls[..|ls| - 1];
            var h := First(ls, 0, IsHeader);
            && (h == |ls| <==> HeaderAt(p) == |p|)
            && (h < |ls| ==> HeaderAt(p) == h
                             && Value(p[h + 1..SectionEnd(p, h + 1)], key) == Value(ls[h + 1..SectionEnd(ls, h + 1)], key))
  {
    hide First, Value, IsHeader, IsNext;
    var h := First(ls, 0, IsHeader);
    if h < |ls| {
      LastLineDropped(Opened(ls, h + 1, First(ls, h + 1, IsNext), false), key);
    } else {
      FirstUnique(ls[..|ls| - 1], 0, IsHeader, |ls| - 1);
    }
  }

  /** An indented header is one for the transaction only. */
  lemma IndentedHeader()
    ensures var line := " [Default]";
            IsHeader(line) && !ReadsHeader(line)
  {
    hide TrimStart, TrimEnd, StripEnd, IsSpace;
    var line := " [Default]";
    BracketIsNoSpace();
    assert line == " " + HEADER && HEADER + "" == HEADER;
    TrimStartOf(" ", HEADER);
    TrimEndOf(HEADER, "");
    assert line[0] != HEADER[0];
  }

  // ---------------------------------------------------------------- the section as a piece of text

  /** Joining two lists of lines. */
  lemma {:induction false} JoinConcat(a: seq<string>, b: seq<string>, sep: char)
    requires a != [] && b != []
    ensures Join(a + b, sep) == Join(a, sep) + [sep] + Join(b, sep)
    decreases |a|
  {
    if |a| == 1 {
      assert (a + b)[1..] == b;
    } else {
      JoinConcat(a[1..], b, sep);
      assert (a + b)[1..] == a[1..] + b;
    }
  }

  /** The rest of a text from a line on. */
  ghost predicate AtLine(text: string, ls: seq<string>, pos: nat, j: nat) {
    && pos <= |text| && j <= |ls|
    && if j < |ls| then text[pos..] == Join(ls[j..], '\n') else pos == |text|
  }

  lemma NextLineAt(text: string, ls: seq<string>, pos: nat, j: nat)
    requires AtLine(text, ls, pos, j) && j < |ls| && Free(ls[j], '\n')
    ensures var n := IndexOf(text[pos..], '\n');
            && text[pos..][..n] == ls[j]
            && (pos + n == |text| <==> j == |ls| - 1)
            && AtLine(text, ls, if pos + n == |text| then |text| else pos + n + 1, j + 1)
  {
    hide Join;
    var rest := text[pos..];
    JoinOne(ls[j..]);
    assert ls[j..][1..] == ls[j + 1..];
    IndexUnique(rest, '\n', |ls[j]|);
    if j < |ls| - 1 {
      assert text[pos + |ls[j]| + 1..] == rest[|ls[j]| + 1..];
    }
  }

  lemma JoinOne(ls: seq<string>)
    requires ls != []
    ensures Join(ls, '\n') == if |ls| == 1 then ls[0] else ls[0] + ['\n'] + Join(ls[1..], '\n')
  {
  }

  /** The text between two lines says what the lines between them say. */
  lemma Between(text: string, ls: seq<string>, from: nat, i: nat, to: nat, j: nat, key: string)
    requires AtLine(text, ls, from, i) && AtLine(text, ls, to, j) && i <= j <= |ls| && from <= to
    requires j < |ls| || to == |text|
    requires forall k :: 0 <= k < |ls| ==> Free(ls[k], '\n')
    ensures Value(Split(text[from..to], '\n'), key) == Value(ls[i..j], key)
  {
    hide Join, Split, Value;
    var body := text[from..to];
    EmptyLine();
    NoLine(ls[i..j], "", key);
    if i == |ls| || (i == j && j < |ls|) {
      assert body == "" && ls[i..j] == [];
      OnePiece("", '\n');
      assert [] + [""] == [""];
    } else if j == |ls| {
      assert body == text[from..] && ls[i..j] == ls[i..];
      SplitJoin(ls[i..], '\n');
    } else {
      assert ls[i..] == ls[i..j] + ls[j..];
      JoinConcat(ls[i..j], ls[j..], '\n');
      JoinLastEmpty(ls[i..j], '\n');
      var x, y := Join(ls[i..j], '\n') + ['\n'], Join(ls[j..], '\n');
      assert text[from..] == x + y && text[to..] == y;
      assert |x| == to - from && body == text[from..][..|x|] == x;
      SplitJoin(ls[i..j] + [""], '\n');
    }
  }

  /** Cuts the default section out of the text. */
  method DefaultSection(text: string) returns (r: Option<string>)
    ensures r.Some? <==> ReaderSection(Split(text, '\n')).Some?
    ensures r.Some? ==> forall key :: Value(Split(r.value, '\n'), key)
                                      == Value(ReaderSection(Split(text, '\n')).value, key)
  {
    hide Join, Split, Value, First, ReadsHeader, ReadsNext, AtLine;
    ghost var ls := Split(text, '\n');
    JoinSplit(text, '\n');
    var pos: nat := 0;
    var sectionStart: Option<nat> := None;
    ghost var j: nat := 0;
    ghost var h: nat := 0;
    StartAt(text, ls);
    while pos < |text|
      invariant pos <= |text| && j <= |ls| && AtLine(text, ls, pos, j) && (pos < |text| ==> j < |ls|)
      invariant pos == |text| ==> forall k :: j <= k < |ls| ==> ls[k] == ""
      invariant sectionStart.None? ==> forall k :: 0 <= k < j ==> !ReadsHeader(ls[k])
      invariant sectionStart.Some? ==>
                  && h < j && ReadsHeader(ls[h]) && (forall k :: 0 <= k < h ==> !ReadsHeader(ls[k]))
                  && (forall k :: h < k < j ==> !ReadsNext(ls[k]))
                  && sectionStart.value <= pos && AtLine(text, ls, sectionStart.value, h + 1)
      decreases |text| - pos
    {
      NextLineAt(text, ls, pos, j);
      var n := IndexOf(text[pos..], '\n');
      var next := if pos + n == |text| then |text| else pos + n + 1;
      var line := text[pos..pos + n];
      assert line == ls[j];
      if sectionStart.Some? {
        if ReadsNext(line) {
          Delimited(ls, h, j);
          forall key
            ensures Value(Split(text[sectionStart.value..pos], '\n'), key) == Value(ls[h + 1..j], key)
          {
            Between(text, ls, sectionStart.value, h + 1, pos, j, key);
          }
          return Some(text[sectionStart.value..pos]);
        }
      } else if ReadsHeader(line) {
        sectionStart := Some(next);
        h := j;
      }
      pos := next;
      j := j + 1;
      LastLine(text, ls, pos, j);
    }
    EmptyIsNoHeader();
    if sectionStart.None? {
      FirstUnique(ls, 0, ReadsHeader, |ls|);
      return None;
    }
    Delimited(ls, h, |ls|);
    EndOfText(text, ls);
    assert text[sectionStart.value..] == text[sectionStart.value..|text|];
    forall key
      ensures Value(Split(text[sectionStart.value..], '\n'), key) == Value(ls[h + 1..|ls|], key)
    {
      Between(text, ls, sectionStart.value, h + 1, |text|, |ls|, key);
    }
    return Some(text[sectionStart.value..]);
  }

  lemma StartAt(text: string, ls: seq<string>)
    requires ls == Split(text, '\n') && Join(ls, '\n') == text
    ensures AtLine(text, ls, 0, 0)
    ensures text == "" ==> forall k :: 0 <= k < |ls| ==> ls[k] == ""
  {
    hide Join;
    assert text[0..] == text && ls[0..] == ls;
    if text == "" { OnePiece("", '\n'); }
  }

  lemma EndOfText(text: string, ls: seq<string>)
    ensures AtLine(text, ls, |text|, |ls|)
  {
  }

  /** At the end of the text at most one line is left, and it is empty. */
  lemma LastLine(text: string, ls: seq<string>, pos: nat, j: nat)
    requires AtLine(text, ls, pos, j)
    ensures pos < |text| ==> j < |ls|
    ensures pos == |text| ==> forall k :: j <= k < |ls| ==> ls[k] == ""
  {
    if pos == |text| && j < |ls| { JoinEmpty(ls[j..]); }
  }

  lemma JoinEmpty(ls: seq<string>)
    requires ls != [] && Join(ls, '\n') == ""
    ensures |ls| == 1 && ls[0] == ""
  {
  }

  lemma EmptyIsNoHeader()
    ensures !ReadsHeader("") && !ReadsNext("")
  {
  }

  lemma Delimited(ls: seq<string>, h: nat, e: nat)
    requires h < e <= |ls| && ReadsHeader(ls[h]) && (forall k :: 0 <= k < h ==> !ReadsHeader(ls[k]))
    requires (forall k :: h < k < e ==> !ReadsNext(ls[k])) && (e < |ls| ==> ReadsNext(ls[e]))
    ensures ReaderSection(ls) == Some(ls[h + 1..e])
  {
    hide ReadsHeader, ReadsNext;
    FirstUnique(ls, 0, ReadsHeader, h);
    FirstUnique(ls, h + 1, ReadsNext, e);
  }

  // ---------------------------------------------------------------- looking up a key

  /** A line without the carriage return before its newline. */
  function DropCr(line: string): string {
    if line != "" && line[|line| - 1] == '\r' then line[..|line| - 1] else line
  }

  lemma {:induction false} TrimStartSnoc(a: string, c: char)
    requires IsSpace(c)
    ensures TrimStart(a + [c]) == if TrimStart(a) == "" then "" else TrimStart(a) + [c]
    decreases |a|
  {
    hide IsSpace;
    if a == "" {
      TrimStartOf([c], "");
      assert [c] + "" == [c] == a + [c];
    } else {
      assert (a + [c])[1..] == a[1..] + [c];
      TrimStartSnoc(a[1..], c);
    }
  }

  lemma TrimSnoc(a: string, c: char)
    requires IsSpace(c)
    ensures Trim(a + [c]) == Trim(a)
  {
    TrimStartSnoc(a, c);
    hide TrimStart, IsSpace;
    var t := TrimStart(a);
    assert (t + [c])[..|t|] == t;
  }

  lemma CrDoesNotMatter(line: string)
    ensures KeyOf(DropCr(line)) == KeyOf(line)
    ensures KeyOf(line).Some? ==> RawOf(DropCr(line)) == RawOf(line)
  {
    hide Trim, IsSpace;
    if DropCr(line) != line {
      var a := line[..|line| - 1];
      var n := IndexOf(line, '=');
      IndexUnique(a, '=', if n == |line| then |a| else n);
      if n < |line| {
        var v := a[n + 1..];
        AroundLast(line, n);
        CrIsSpace();
        TrimSnoc(v, '\r');
      }
    }
  }

  /** Around a place before the last element, a sequence is that without the last element, and the last one. */
  lemma AroundLast<T>(s: seq<T>, n: nat)
    requires n + 1 < |s|
    ensures var a := s[..|s| - 1];
            a[..n] == s[..n] && s[n + 1..] == a[n + 1..] + [s[|s| - 1]]
  {
  }

  lemma CrIsSpace()
    ensures IsSpace('\r')
  {
  }

  /** The value of a key in a section. */
  method Lookup(section: string, key: string) returns (r: Option<string>)
    ensures r == Value(Split(section, '\n'), key)
  {
    hide KeyOf, RawOf, Split, First, SplitOnce, Trim;
    var ls := Split(section, '\n');
    for j := 0 to |ls|
      invariant forall k :: 0 <= k < j ==> KeyOf(ls[k]) != Some(key)
    {
      var line := DropCr(ls[j]);
      CrDoesNotMatter(ls[j]);
      if KeyOf(line) == Some(key) {
        FirstUnique(ls, 0, Says(key), j);
        return Some(RawOf(line));
      }
    }
    FirstUnique(ls, 0, Says(key), |ls|);
    return None;
  }
}
