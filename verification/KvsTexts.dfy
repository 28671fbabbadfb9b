/** Texts on which the key-value file does not do what one would expect (crates/mat-controller/src/kvs.rs). */
module KvsTexts {
  import opened Wrappers
  import opened TextLines
  import opened KvsLines
  import opened KvsReaders

  // ---------------------------------------------------------------- the two sides of the file

  /** A file the two sides differ on: the transaction finds its section, the readers find none. */
  lemma SectionOfOneSide()
    ensures var text := " [Default]\na=b";
            Open(text).Some? && ReaderSection(Split(text, '\n')).None?
  {
    hide IsHeader, IsNext, ReadsHeader, ReadsNext, Split, IndexOf;
    var head: string, rest: string := " [Default]", "a=b";
    var text := " [Default]\na=b";
    assert text == head + ['\n'] + rest;
    SplitStep(head, '\n', rest);
    OnePiece(rest, '\n');
    var ls := Split(text, '\n');
    assert ls == [head, rest];
    IndentedHeader();
    NoBracket(rest);
    ReaderHeadersAreHeaders(rest);
    FirstUnique(ls, 0, IsHeader, 0);
    FirstUnique(ls, 0, ReadsHeader, 2);
    OpenIsLines(text);
  }

  /** And one whose section ends earlier for the transaction: the readers see a key that it does not. */
  lemma KeyOfOneSide()
    ensures var text := "[Default]\n [x]\na=b";
            Open(text).Some? && ReaderSection(Split(text, '\n')).Some?
            && Value(Section(Open(text).value), "a").None?
            && Value(ReaderSection(Split(text, '\n')).value, "a") == Some("b")
  {
    hide IsHeader, IsNext, ReadsHeader, ReadsNext, Split, IndexOf, KeyOf, RawOf, First, Open;
    var mid: string, rest: string := " [x]", "a=b";
    var text := "[Default]\n [x]\na=b";
    assert text == HEADER + ['\n'] + (mid + ['\n'] + rest);
    ThreeLines(HEADER, mid, rest);
    IndentedSection();
    LinesOfA();
    var ls := [HEADER, mid, rest];
    FoundByBoth(ls);
    EndsWithSep(text, '\n');
    OpenIsLines(text);
    assert ls[1..3] == [mid, rest] && ls[1..1] == [];
    FirstUnique([mid, rest], 0, Says("a"), 1);
  }

  /** Where the sides find the section of the lines above. */
  lemma FoundByBoth(ls: seq<string>)
    requires |ls| == 3 && ls[0] == HEADER && IsNext(ls[1]) && !ReadsNext(ls[1]) && !IsNext(ls[2])
    ensures First(ls, 0, IsHeader) == 0 == First(ls, 0, ReadsHeader)
    ensures First(ls, 1, IsNext) == 1 && First(ls, 1, ReadsNext) == 3
  {
    hide IsHeader, IsNext, ReadsHeader, ReadsNext, First;
    PlainHeader();
    ReaderHeadersAreHeaders(ls[2]);
    FirstUnique(ls, 0, IsHeader, 0);
    FirstUnique(ls, 0, ReadsHeader, 0);
    FirstUnique(ls, 1, IsNext, 1);
    FirstUnique(ls, 1, ReadsNext, 3);
  }

  lemma PlainHeader()
    ensures IsHeader(HEADER) && ReadsHeader(HEADER)
  {
    BracketIsNoSpace();
    TrimNothing(HEADER);
    hide Trim;
  }

  lemma IndentedSection()
    ensures var line := " [x]"; IsNext(line) && !ReadsNext(line) && KeyOf(line).None?
  {
    hide TrimStart, TrimEnd, IsSpace;
    var line := " [x]";
    BracketIsNoSpace();
    assert line == " " + "[x]";
    TrimStartOf(" ", "[x]");
    assert IndexOf(line, '=') == 4 by { IndexUnique(line, '=', 4); }
    hide IndexOf;
  }

  /** A line for the key `a`. */
  lemma LineOfA(line: string, val: string)
    requires line == "a" + ['='] + val && |val| == 1 && !IsSpace(val[0])
    ensures KeyOf(line) == Some("a") && RawOf(line) == val && !IsNext(line)
  {
    hide KeyOf, RawOf, Trim, TrimStart, TrimEnd, IsSpace, IsNext, IsHeader, GoodKey;
    LettersAreNoSpace();
    AIsGood();
    TrimNothing(val);
    LineSays("a", val);
    assert line[0] == 'a';
    NoBracket(line);
  }

  lemma AIsGood()
    ensures GoodKey("a")
  {
    LettersAreNoSpace();
    hide IsSpace;
  }

  lemma LettersAreNoSpace()
    ensures !IsSpace('a') && !IsSpace('b') && !IsSpace('c')
  {
  }

  /** A line that starts with neither a bracket nor a blank is no header. */
  lemma NoBracket(line: string)
    requires line != "" && line[0] != '[' && !IsSpace(line[0])
    ensures !IsHeader(line) && !IsNext(line)
  {
    hide IsSpace, TrimEnd;
    assert TrimStart(line) == line;
    assert TrimEnd(line) == line[..|TrimEnd(line)|];
  }

  // ---------------------------------------------------------------- edits

  /** The lines of a text of three lines. */
  lemma ThreeLines(a: string, b: string, c: string)
    requires Free(a, '\n') && Free(b, '\n') && Free(c, '\n')
    ensures Split(a + ['\n'] + (b + ['\n'] + c), '\n') == [a, b, c]
  {
    hide Split, IndexOf;
    SplitStep(a, '\n', b + ['\n'] + c);
    SplitStep(b, '\n', c);
    OnePiece(c, '\n');
  }

  /** A text of the header and two more lines that are none. */
  lemma OpenedAs(b: string, c: string)
    requires Free(b, '\n') && Free(c, '\n') && c != "" && !IsNext(b) && !IsNext(c)
    ensures var text := HEADER + ['\n'] + (b + ['\n'] + c);
            Open(text) == Some(Opened([HEADER, b, c], 1, 3, false))
  {
    hide IsHeader, IsNext, Split, IndexOf;
    var text := HEADER + ['\n'] + (b + ['\n'] + c);
    ThreeLines(HEADER, b, c);
    assert text[|text| - 1] == c[|c| - 1];
    PlainHeader();
    var ls := [HEADER, b, c];
    FirstUnique(ls, 0, IsHeader, 0);
    FirstUnique(ls, 1, IsNext, 3);
  }

  /** A key with a second line is not gone when it is removed. */
  lemma SecondLineStays()
    ensures var text := "[Default]\na=c\na=b";
            && Open(text).Some? && Value(Section(Open(text).value), "a") == Some("c")
            && Value(Section(DropLine(Open(text).value, "a")), "a") == Some("b")
  {
    hide IsNext, Open, KeyOf, RawOf;
    var b: string, c: string := "a=c", "a=b";
    assert HEADER + ['\n'] + (b + ['\n'] + c) == "[Default]\na=c\na=b";
    LinesOfA();
    OpenedAs(b, c);
    var p := Opened([HEADER, b, c], 1, 3, false);
    assert Section(p) == [b, c];
    FirstUnique([b, c], 0, Says("a"), 0);
    var q := DropLine(p, "a");
    assert q.lines == [HEADER, c] && Section(q) == [c];
    FirstUnique([c], 0, Says("a"), 0);
  }

  lemma LinesOfA()
    ensures KeyOf("a=b") == Some("a") && RawOf("a=b") == "b" && !IsNext("a=b")
    ensures KeyOf("a=c") == Some("a") && RawOf("a=c") == "c" && !IsNext("a=c")
  {
    hide KeyOf, RawOf, IsNext, IsSpace;
    LettersAreNoSpace();
    assert "a" + ['='] + "b" == "a=b" && "a" + ['='] + "c" == "a=c";
    LineOfA("a=b", "b");
    LineOfA("a=c", "c");
  }

  /** Removing the last line of a file without a final newline, behind an empty line, makes the newline of that line
      the final one: read back, the empty line is gone. */
  lemma EmptyLineBecomesNewline()
    ensures var text := "[Default]\n\na=b";
            && Open(text).Some?
            && var q := DropLine(Open(text).value, "a");
               q.lines == [HEADER, ""] && !q.trailing && LinesOf(Body(q.lines, q.trailing)) == [HEADER]
  {
    hide IsNext, Open, KeyOf, RawOf, IsHeader, LinesOf;
    var b: string, c: string := "", "a=b";
    assert HEADER + ['\n'] + (b + ['\n'] + c) == "[Default]\n\na=b";
    LinesOfA();
    EmptyLine();
    OpenedAs(b, c);
    var p := Opened([HEADER, b, c], 1, 3, false);
    assert Section(p) == [b, c];
    FirstUnique([b, c], 0, Says("a"), 1);
    var q := DropLine(p, "a");
    assert q.lines == [HEADER, ""];
    ReadBack(q.lines, false);
    assert q.lines[..1] == [HEADER];
  }
}
