/**
 What single lines do to a configuration file as a whole: comments, continuations and bad lines.
 */
module ConfigLines {
  import opened Bytes
  import opened JsonNumber
  import opened Ini
  import opened IniLines
  import opened Config
  import opened ConfigHandler
  import opened ConfigRoundTrip

  // ------------------------------------------------------------------ calls in two parts

  lemma {:induction false} AfterSplit(p: Parsing, a: seq<Numbered>, b: seq<Numbered>)
    ensures After(p, a + b) == After(After(p, a), b)
    decreases |a|
  {
    hide AfterCall;
    if a == [] {
      assert a + b == b;
    } else {
      assert (a + b)[1..] == a[1..] + b;
      AfterSplit(AfterCall(p, a[0].call), a[1..], b);
    }
  }

  lemma {:induction false} ErrorSplit(p: Parsing, a: seq<Numbered>, b: seq<Numbered>)
    requires Positive(a)
    ensures FirstError(p, a + b) == if FirstError(p, a) != 0 then FirstError(p, a) else FirstError(After(p, a), b)
    decreases |a|
  {
    hide AfterCall, Refused;
    if a == [] {
      assert a + b == b;
    } else {
      assert (a + b)[1..] == a[1..] + b;
      ErrorSplit(AfterCall(p, a[0].call), a[1..], b);
    }
  }

  /** Settings, count and errno know nothing of line numbers, and the error moves with its line. */
  lemma {:induction false} FurtherDown(p: Parsing, calls: seq<Numbered>, d: nat)
    requires Positive(calls)
    ensures After(p, Renumbered(calls, d)) == After(p, calls)
    ensures FirstError(p, Renumbered(calls, d)) == if FirstError(p, calls) == 0 then 0 else FirstError(p, calls) + d
    decreases |calls|
  {
    hide AfterCall, Refused;
    if calls != [] {
      assert Renumbered(calls, d)[1..] == Renumbered(calls[1..], d);
      FurtherDown(AfterCall(p, calls[0].call), calls[1..], d);
    }
  }

  predicate Within(calls: seq<Numbered>, lo: nat, hi: nat)
  {
    forall i | 0 <= i < |calls| :: lo < calls[i].lineno <= hi
  }

  lemma {:induction false} CallsWithin(lines: nat, s: bytes, st: Scanner)
    ensures Within(Calls(lines, s, st), lines, lines + LinesOf(s))
    decreases |s|
  {
    hide Line, CStr, Chunk;
    if s != [] {
      var o := Line(lines + 1, CStr(s[..Chunk(s)]), st);
      CallsWithin(lines + 1, s[Chunk(s)..], o.scanner);
    }
  }

  lemma {:induction false} ErrorWithin(p: Parsing, calls: seq<Numbered>, lo: nat, hi: nat)
    requires Within(calls, lo, hi)
    ensures FirstError(p, calls) == 0 || lo < FirstError(p, calls) <= hi
    decreases |calls|
  {
    hide AfterCall, Refused;
    if calls != [] {
      ErrorWithin(AfterCall(p, calls[0].call), calls[1..], lo, hi);
    }
  }

  // ------------------------------------------------------------------ comments

  /**
   A comment between two lines of a file changes no setting, no count and no errno. The file has an error exactly
   when it had one, of the same call, and its number counts the lines of the comment if it comes behind.
   */
  lemma CommentInserted(p: Parsing, a: bytes, w0: bytes, c: byte, rest: bytes, b: bytes, st: Scanner)
    requires EndsLine(a) && IsCommentText(w0, c, rest) && |w0| + 1 + |rest| < INI_MAX_LINE
    requires a != [] || !StartsWithBom(b)
    ensures var comment := CommentText(w0, c, rest);
            && After(p, Calls(0, a + comment + b, st)) == After(p, Calls(0, a + b, st))
            && var e := FirstError(p, Calls(0, a + b, st));
               FirstError(p, Calls(0, a + comment + b, st)) == if e <= LinesOf(a) then e else e + LinesOf(comment)
  {
    hide *;
    var comment := CommentText(w0, c, rest);
    var before, n, s := Calls(0, a, st), LinesOf(a), ScannerAfter(0, a, st);
    var behind, d := Calls(n, b, s), LinesOf(comment);
    assert Calls(0, a + comment + b, st) == before + Renumbered(behind, d) by {
      InsertedCalls(a, w0, c, rest, b, st);
    }
    CallsSplit(0, a, b, st);
    assert 0 + n == n;
    CallsWithin(0, a, st);
    CallsWithin(n, b, s);
    assert Positive(before) && Positive(behind) by {
      WithinIsPositive(before, 0, n);
      WithinIsPositive(behind, n, n + LinesOf(b));
    }
    AfterSplit(p, before, behind);
    AfterSplit(p, before, Renumbered(behind, d));
    ErrorSplit(p, before, behind);
    ErrorSplit(p, before, Renumbered(behind, d));
    FurtherDown(After(p, before), behind, d);
    ErrorWithin(p, before, 0, n);
    ErrorWithin(After(p, before), behind, n, n + LinesOf(b));
  }

  lemma WithinIsPositive(calls: seq<Numbered>, lo: nat, hi: nat)
    requires Within(calls, lo, hi)
    ensures Positive(calls)
  {
  }

  lemma LinesOfSome(a: bytes)
    requires a != []
    ensures LinesOf(a) > 0
  {
  }

  lemma InsertedCalls(a: bytes, w0: bytes, c: byte, rest: bytes, b: bytes, st: Scanner)
    requires EndsLine(a) && IsCommentText(w0, c, rest) && |w0| + 1 + |rest| < INI_MAX_LINE
    requires a != [] || !StartsWithBom(b)
    ensures var d := LinesOf(CommentText(w0, c, rest));
            Calls(0, a + CommentText(w0, c, rest) + b, st)
            == Calls(0, a, st) + Renumbered(Calls(LinesOf(a), b, ScannerAfter(0, a, st)), d)
  {
    hide *;
    var comment, n, s := CommentText(w0, c, rest), LinesOf(a), ScannerAfter(0, a, st);
    var d := LinesOf(comment);
    assert a + comment + b == a + (comment + b);
    assert EndsLine(comment) by { CommentEnds(w0, c, rest); }
    CallsSplit(0, a, comment + b, st);
    CallsSplit(n, comment, b, s);
    CommentCalls(n, w0, c, rest, s);
    assert [] + Calls(n + d, b, s) == Calls(n + d, b, s);
    if a != [] {
      LinesOfSome(a);
    }
    CallsFurtherDown(n, d, b, s);
  }

  lemma CommentEnds(w0: bytes, c: byte, rest: bytes)
    ensures EndsLine(CommentText(w0, c, rest))
  {
  }

  lemma UnknownName(c: Call)
    requires c.Pair? && c.name != [] && c.name[0] == BOM[0]
    ensures !Sound(c)
  {
  }

  lemma MarkedPair(text: bytes, st: Scanner)
    requires text != [] && text[0] == BOM[0]
    ensures var o := PairLine(text, st); o.call.Some? && !Sound(o.call.value)
  {
    hide Sound, ValueOf, Truncated, Find;
    var n := Find(text, [EQUALS, COLON], false);
    if n < |text| && (text[n] == EQUALS || text[n] == COLON) {
      assert text[..n] == [text[0]] + text[1..n];
      RStrippedBehind([text[0]], text[1..n]);
      UnknownName(PairLine(text, st).call.value);
    } else {
      BadIsUnsound();
    }
  }

  lemma BadIsUnsound()
    ensures !Sound(BadLine)
  {
  }

  /** A first line behind anything else keeps its byte order mark, which no known name starts with. */
  lemma MarkedLine(lineno: nat, line: bytes, section: bytes)
    requires lineno > 1 && BOM <= line
    ensures var o := Line(lineno, line, Scanner(section, [])); o.call.Some? && !Sound(o.call.value)
  {
    hide Sound, PairLine, SectionLine;
    assert line == [BOM[0]] + line[1..] && line[0..] == line;
    RStrippedBehind([BOM[0]], line[1..]);
    MarkedPair(RStripped(line), Scanner(section, []));
  }

  lemma MarkedIsSome(b: bytes)
    requires StartsWithBom(b)
    ensures b != []
  {
  }

  /** Put in front of a file that starts with a byte order mark, a comment makes the next line an error. */
  lemma CommentBeforeMark(p: Parsing, w0: bytes, c: byte, rest: bytes, b: bytes)
    requires IsCommentText(w0, c, rest) && |w0| + 1 + |rest| < INI_MAX_LINE && StartsWithBom(b)
    ensures var comment := CommentText(w0, c, rest);
            FirstError(p, Calls(0, comment + b, Scanner([], []))) == LinesOf(comment) + 1
  {
    hide *;
    var comment, st := CommentText(w0, c, rest), Scanner([], []);
    var d := LinesOf(comment);
    CommentEnds(w0, c, rest);
    CallsSplit(0, comment, b, st);
    CommentCalls(0, w0, c, rest, st);
    var calls := Calls(d, b, st);
    assert [] + calls == calls;
    assert d > 0 by { CommentLines(w0, c, rest); }
    MarkedFirst(d, b);
    FirstErrorIs(p, calls, 0);
  }

  lemma CommentLines(w0: bytes, c: byte, rest: bytes)
    ensures LinesOf(CommentText(w0, c, rest)) > 0
  {
  }

  lemma MarkedFirst(lines: nat, b: bytes)
    requires lines > 0 && StartsWithBom(b)
    ensures var calls := Calls(lines, b, Scanner([], []));
            calls != [] && calls[0].lineno == lines + 1 && !Sound(calls[0].call)
  {
    hide Line, CStr, Chunk, Sound;
    MarkedIsSome(b);
    MarkedLine(lines + 1, CStr(b[..Chunk(b)]), []);
  }

  // ------------------------------------------------------------------ one line in a file

  /** A line between two others, that is read in one piece. */
  lemma LineInFile(a: bytes, s: bytes, b: bytes, st: Scanner)
    requires EndsLine(a) && NEWLINE !in s && NulFree(s) && |s| + 1 < INI_MAX_LINE
    ensures var n := LinesOf(a); var o := Line(n + 1, s + [NEWLINE], ScannerAfter(0, a, st));
            Calls(0, a + (s + [NEWLINE] + b), st) == Calls(0, a, st) + (CallAt(n + 1, o) + Calls(n + 1, b, o.scanner))
  {
    hide *;
    var n, line := LinesOf(a), s + [NEWLINE];
    CallsSplit(0, a, line + b, st);
    assert EndsLine(line) by { LineEnds(s); }
    CallsSplit(n, line, b, ScannerAfter(0, a, st));
    OneLineCalls(n, s, ScannerAfter(0, a, st));
  }

  lemma LineEnds(s: bytes)
    ensures EndsLine(s + [NEWLINE])
  {
  }

  /** A malformed line is the error, under its own number, unless there was one before. */
  lemma BadLineReported(p: Parsing, a: bytes, w0: bytes, text: bytes, b: bytes, st: Scanner)
    requires EndsLine(a) && Spaced(w0, text, []) && NEWLINE !in w0 + text && NulFree(w0 + text)
    requires |w0 + text| + 1 < INI_MAX_LINE && Fresh(w0, text, ScannerAfter(0, a, st)) && Malformed(text)
    ensures var e := FirstError(p, Calls(0, a, st));
            FirstError(p, Calls(0, a + (w0 + text + [NEWLINE] + b), st)) == if e != 0 then e else LinesOf(a) + 1
  {
    hide Calls, Line, LinesOf, ScannerAfter, Spaced, After, EndsLine;
    var n, s := LinesOf(a), ScannerAfter(0, a, st);
    LineInFile(a, w0 + text, b, st);
    SpacedMore(w0, text);
    BadLineExactly(n + 1, w0, text, [NEWLINE], s);
    var calls := [Numbered(n + 1, BadLine)] + Calls(n + 1, b, s);
    CallsWithin(0, a, st);
    ErrorSplit(p, Calls(0, a, st), calls);
    FirstErrorIs(After(p, Calls(0, a, st)), calls, 0);
  }

  /** An indented line behind a pair is one more call for that pair's name, wherever the pair stands. */
  lemma ContinuationInFile(a: bytes, w0: bytes, text: bytes, b: bytes, st: Scanner)
    requires EndsLine(a) && Spaced(w0, text, []) && NEWLINE !in w0 + text && NulFree(w0 + text)
    requires |w0 + text| + 1 < INI_MAX_LINE
    requires w0 != [] && !StartsComment(text[0]) && ScannerAfter(0, a, st).prevName != []
    ensures var s := ScannerAfter(0, a, st); var n := LinesOf(a);
            Calls(0, a + (w0 + text + [NEWLINE] + b), st)
            == Calls(0, a, st) + ([Numbered(n + 1, Pair(s.section, s.prevName, text))] + Calls(n + 1, b, s))
  {
    hide Calls, Line, LinesOf, ScannerAfter, Spaced, EndsLine;
    LineInFile(a, w0 + text, b, st);
    SpacedMore(w0, text);
    ContinuationLine(LinesOf(a) + 1, w0, text, [NEWLINE], ScannerAfter(0, a, st));
  }

  // ------------------------------------------------------------------ numbers

  /** White space, perhaps a sign, digits, and anything else: strtol gives the number, clamped to 32 bits. */
  lemma StrToLIs(w: bytes, sign: bytes, ds: bytes, junk: bytes)
    requires AllSpaces(w) && (sign == [] || sign == [MINUS] || sign == [PLUS])
    requires AllDigits(ds) && (junk == [] || !IsDigit(junk[0]))
    requires sign == [] && ds == [] && junk != [] ==> !IsSpace(junk[0]) && !IsSign(junk[0])
    ensures var n: int := NatValue(ds) * if sign == [MINUS] then -1 else 1;
            var r := StrToL(w + (sign + (ds + junk)));
            && (r.overflow <==> n < -2147483648 || n > 2147483647)
            && r.value == if n < -2147483648 then -2147483648 else if n > 2147483647 then 2147483647 else n
  {
    hide NatValue, DigitRun;
    var t, u := sign + (ds + junk), ds + junk;
    assert t != [] ==> t[0] == if sign != [] then sign[0] else if ds != [] then ds[0] else junk[0];
    SkipFront(w, t);
    assert sign != [] ==> t[1..] == u;
    assert sign == [] ==> t == u;
    DigitRunOver(ds, junk);
    assert u[..|ds|] == ds;
  }

  // ------------------------------------------------------------------ the sections of a written file

  function SectionOf(c: Call): bytes { if c.Pair? then c.section else [] }

  function SectionsOf(calls: seq<Numbered>): (r: seq<bytes>)
    ensures |r| == |calls|
  {
    seq(|calls|, i requires 0 <= i < |calls| => SectionOf(calls[i].call))
  }

  /** For each setting the heading above it. */
  function Headings(items: seq<Item>, section: bytes): seq<bytes>
  {
    if items == [] then []
    else
      match items[0]
      case Blank => Headings(items[1..], section)
      case Heading(title) => Headings(items[1..], title)
      case Setting(_, _) => [section] + Headings(items[1..], section)
  }

  /** A setting does not leave its section, even if its line end is read on its own. */
  lemma SettingStays(lines: nat, name: bytes, value: bytes, st: Scanner)
    requires PlainName(name) && NulFree(value) && |name| + 1 < INI_MAX_LINE && Fits(name, value)
    ensures ScannerAfter(lines, PairText(name, value), st).section == st.section
  {
    hide Line, FirstPart, PlainName, CStr, Trimmed, CommentFree, Chunk, RStripped, ValueOf, FirstValue;
    var room := INI_MAX_LINE - 2 - |name|;
    var text, part := PairText(name, value), FirstPart(value, room);
    PairChunks(lines, name, value, st);
    PairChunk(lines + 1, name, part, st);
    FittingValueKept(value, room);
    BlankLine(lines + 1, Scanner(st.section, Truncated(name, MAX_NAME)));
    assert text != [];
  }

  predicate ShortHeading(x: Item) { x.Heading? ==> |x.title| < MAX_SECTION }

  lemma ItemSections(lines: nat, x: Item, st: Scanner)
    requires ItemOk(x) && ItemFits(x) && ShortHeading(x)
    ensures var after := ScannerAfter(lines, ItemText(x), st).section;
            && SectionsOf(Calls(lines, ItemText(x), st)) == (if x.Setting? then [st.section] else [])
            && after == if x.Heading? then x.title else st.section
  {
    hide Calls, Fits, PlainName, CommentFree, PairText, HeadingText, ScannerAfter;
    match x
    case Blank => BlankLine(lines, st);
    case Heading(t) => HeadingCalls(lines, t, st);
    case Setting(name, value) =>
      PairCalls(lines, name, value, st);
      SettingStays(lines, name, value, st);
  }

  lemma SectionsSplit(a: seq<Numbered>, b: seq<Numbered>)
    ensures SectionsOf(a + b) == SectionsOf(a) + SectionsOf(b)
  {
  }

  lemma {:induction false} FileSections(lines: nat, items: seq<Item>, st: Scanner)
    requires AllOk(items) && AllFit(items) && forall i | 0 <= i < |items| :: ShortHeading(items[i])
    ensures SectionsOf(Calls(lines, FileText(items), st)) == Headings(items, st.section)
    decreases |items|
  {
    hide Calls, ItemOk, ItemFits, ShortHeading, ItemText, ScannerAfter, SectionsOf;
    if items == [] {
      NoSections(lines, st);
    } else {
      var x, rest := items[0], items[1..];
      FileParts(items);
      var l2, st2 := lines + LinesOf(ItemText(x)), ScannerAfter(lines, ItemText(x), st);
      assert forall i | 0 <= i < |rest| :: rest[i] == items[i + 1];
      FileSections(l2, rest, st2);
      ItemSections(lines, x, st);
      CallsSplit(lines, ItemText(x), FileText(rest), st);
      SectionsSplit(Calls(lines, ItemText(x), st), Calls(l2, FileText(rest), st2));
    }
  }

  lemma NoSections(lines: nat, st: Scanner)
    ensures SectionsOf(Calls(lines, [], st)) == []
  {
    NoLine(lines, st);
  }

  /** Read back, each setting of a written file is in its own section, two to each of the three. */
  lemma WrittenSections(s: Settings)
    requires Writable(s) && Restorable(s)
    ensures SectionsOf(WrittenCalls(s)) == [GENERAL, GENERAL, DEVICE, DEVICE, SERVER, SERVER]
  {
    hide Calls, FileText, Decimal, Fits, PlainName, IsLong, SectionsOf;
    var items := ConfigItems(s);
    assert AllOk(items) by { ConfigAsks(s); }
    assert AllFit(items) by { AllItemsFit(s); }
    FileSections(0, items, Scanner([], []));
    assert Headings(items, []) == [GENERAL, GENERAL, DEVICE, DEVICE, SERVER, SERVER] by { ConfigHeadings(s); }
  }

  lemma ConfigHeadings(s: Settings)
    requires Writable(s)
    ensures Headings(ConfigItems(s), []) == [GENERAL, GENERAL, DEVICE, DEVICE, SERVER, SERVER]
  {
    hide Decimal, IsLong;
    var g, d, e := GeneralItems(s), DeviceItems(s), ServerItems(s);
    var third := e;
    var second := d + [Blank] + third;
    assert ConfigItems(s) == g + ([Blank] + second);
    SectionHeadings(SERVER, e[1], e[2], [], DEVICE);
    assert e + [] == e && Headings([], SERVER) == [];
    SectionHeadings(DEVICE, d[1], d[2], [Blank] + third, GENERAL);
    assert ([Blank] + third)[1..] == third && d + ([Blank] + third) == second;
    SectionHeadings(GENERAL, g[1], g[2], [Blank] + second, []);
    assert ([Blank] + second)[1..] == second;
  }

  lemma SectionHeadings(title: bytes, x: Item, y: Item, more: seq<Item>, section: bytes)
    requires x.Setting? && y.Setting?
    ensures Headings(Section(title, x, y) + more, section) == [title, title] + Headings(more, title)
  {
    var items := Section(title, x, y) + more;
    assert items[1..] == [x, y] + more && ([x, y] + more)[1..] == [y] + more && ([y] + more)[1..] == more;
    assert Headings([y] + more, title) == [title] + Headings(more, title);
    assert Headings([x, y] + more, title) == [title] + Headings([y] + more, title);
  }
}
