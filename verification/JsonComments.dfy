/**
 Comment support: comments are blanked out in place before parsing.
 */
module JsonComments {
  import opened Bytes
  import opened JsonNumber
  import opened JsonString
  import opened JsonValue
  import opened JsonSerializer
  import opened JsonParser
  import opened JsonRoundTrip

  const BLOCK_START: bytes := [47, 42]   // /*
  const BLOCK_END: bytes := [42, 47]     // */
  const LINE_START: bytes := [47, 47]    // //
  const LINE_END: bytes := [10]

  /** The two flags of the scan. */
  datatype Lex = Lex(inString: bool, escaped: bool)

  const OUTSIDE := Lex(false, false)

  /** The flags behind a byte that does not start a comment. */
  function Next(st: Lex, c: byte): Lex
  {
    if c == BACKSLASH && !st.escaped then Lex(st.inString, true)
    else if c == QUOTE && !st.escaped then Lex(!st.inString, false)
    else Lex(st.inString, false)
  }

  /** A comment starts here. */
  predicate Starts(s: bytes, st: Lex, open: bytes)
  {
    && s != [] && !st.inString && open <= s
    && !(s[0] == BACKSLASH && !st.escaped) && !(s[0] == QUOTE && !st.escaped)
  }

  /** strstr: where t first occurs in s. */
  function IndexOf(s: bytes, t: bytes): (r: Option<nat>)
    ensures r.Some? ==> r.value + |t| <= |s|
  {
    if t <= s then Some(0)
    else if s == [] then None
    else Plus(1, IndexOf(s[1..], t))
  }

  function Blanks(n: nat): (r: bytes)
    ensures |r| == n
  {
    seq(n, i => SPACE)
  }

  /** How many bytes a comment that starts here takes; None when it is never closed. */
  function CommentLength(s: bytes, open: bytes, close: bytes): (r: Option<nat>)
    requires open <= s
    ensures r.Some? ==> |open| <= r.value <= |s|
  {
    Plus(|open| + |close|, IndexOf(s[|open|..], close))
  }

  /** remove_comments, on what is left of the text. */
  function Strip(s: bytes, st: Lex, open: bytes, close: bytes): (r: bytes)
    requires open != [] && close != []
    ensures |r| == |s|
  {
    if s == [] then []
    else if Starts(s, st, open) then
      match CommentLength(s, open, close)
      case None => Blanks(|open|) + s[|open|..]
      case Some(n) => Blanks(n) + Strip(s[n..], Lex(st.inString, false), open, close)
    else [s[0]] + Strip(s[1..], Next(st, s[0]), open, close)
  }

  // ------------------------------------------------------------------ in place

  /** One turn of the scan as seen from the whole text. */
  lemma StripStep(done: bytes, s: bytes, st: Lex, open: bytes, close: bytes)
    requires s != [] && open != [] && close != [] && !Starts(s, st, open)
    ensures done + Strip(s, st, open, close) == done + [s[0]] + Strip(s[1..], Next(st, s[0]), open, close)
  {
  }

  /** strstr from an index of a buffer. */
  method FindFrom(s: bytes, from: nat, t: bytes) returns (r: Option<nat>)
    requires from <= |s|
    ensures r == IndexOf(s[from..], t)
  {
    var i := 0;
    while true
      invariant from + i <= |s|
      invariant IndexOf(s[from..], t) == Plus(i, IndexOf(s[from + i..], t))
      decreases |s| - from - i
    {
      if t <= s[from + i..] {
        return Some(i);
      }
      if from + i == |s| {
        return None;
      }
      assert s[from + i..][1..] == s[from + i + 1..];
      PlusTwice(i, 1, IndexOf(s[from + i + 1..], t));
      i := i + 1;
    }
  }

  /** Overwriting n bytes of the text with spaces. */
  method BlankOut(a: array<byte>, from: nat, n: nat, len: nat)
    requires from + n <= len < a.Length
    modifies a
    ensures a[..len] == old(a[..from]) + Blanks(n) + old(a[from + n..len]) && a[len] == old(a[len])
  {
    for i := 0 to n
      invariant forall j | 0 <= j < from :: a[j] == old(a[j])
      invariant forall j | from <= j < from + i :: a[j] == SPACE
      invariant forall j | from + i <= j < a.Length :: a[j] == old(a[j])
    {
      a[from + i] := SPACE;
    }
  }

  /** One turn that meets a comment, as seen from the whole text. */
  lemma StripComment(done: bytes, s: bytes, st: Lex, open: bytes, close: bytes)
    requires s != [] && open != [] && close != [] && Starts(s, st, open)
    ensures var n := CommentLength(s, open, close);
            done + Strip(s, st, open, close) ==
            if n.None? then done + Blanks(|open|) + s[|open|..]
            else done + Blanks(n.value) + Strip(s[n.value..], Lex(st.inString, false), open, close)
  {
  }

  /** Where the scan stands: the first i bytes are final, the flags are st. */
  ghost predicate Stripped(whole: bytes, text: bytes, i: nat, st: Lex, open: bytes, close: bytes)
    requires open != [] && close != []
  {
    i <= |text| && whole == text[..i] + Strip(text[i..], st, open, close)
  }

  lemma StrippedStart(text: bytes, open: bytes, close: bytes)
    requires open != [] && close != []
    ensures Stripped(Strip(text, OUTSIDE, open, close), text, 0, OUTSIDE, open, close)
  {
    assert text[0..] == text && text[..0] == [];
    assert [] + Strip(text, OUTSIDE, open, close) == Strip(text, OUTSIDE, open, close);
  }

  lemma StrippedEnd(whole: bytes, text: bytes, st: Lex, open: bytes, close: bytes)
    requires open != [] && close != [] && Stripped(whole, text, |text|, st, open, close)
    ensures whole == text
  {
    assert text[|text|..] == [] && text[..|text|] == text;
    assert text + [] == text;
  }

  lemma StrippedStep(whole: bytes, text: bytes, i: nat, st: Lex, open: bytes, close: bytes)
    requires open != [] && close != [] && i < |text| && Stripped(whole, text, i, st, open, close)
    requires !Starts(text[i..], st, open)
    ensures Stripped(whole, text, i + 1, Next(st, text[i]), open, close)
  {
    hide Strip, Starts, Next;
    var s := text[i..];
    assert s[1..] == text[i + 1..] && s[0] == text[i] && text[..i + 1] == text[..i] + [s[0]];
    StripStep(text[..i], s, st, open, close);
  }

  /** The comment at i has been blanked out, which made text of before. */
  lemma StrippedComment(whole: bytes, before: bytes, text: bytes, i: nat, st: Lex, open: bytes, close: bytes)
    requires open != [] && close != [] && i < |before| && Stripped(whole, before, i, st, open, close)
    requires Starts(before[i..], st, open) && open <= before[i..]
    requires var r := CommentLength(before[i..], open, close);
             var n := if r.None? then |open| else r.value;
             text == before[..i] + Blanks(n) + before[i + n..]
    ensures var r := CommentLength(before[i..], open, close);
            if r.None? then text == whole else Stripped(whole, text, i + r.value, Lex(st.inString, false), open, close)
  {
    hide Strip, Starts, IndexOf, Blanks;
    var s := before[i..];
    var r := CommentLength(s, open, close);
    var n := if r.None? then |open| else r.value;
    StripComment(before[..i], s, st, open, close);
    assert before[i + n..] == s[n..];
    assert text[..i + n] == before[..i] + Blanks(n) && text[i + n..] == s[n..];
  }

  /** remove_comments on a buffer that holds a C string and its terminator. */
  method RemoveComments(a: array<byte>, len: nat, open: bytes, close: bytes)
    requires a.Length == len + 1 && a[len] == NUL && NulFree(a[..len])
    requires open != [] && close != []
    modifies a
    ensures a[..len] == Strip(old(a[..len]), OUTSIDE, open, close) && a[len] == NUL
  {
    hide Strip, IndexOf, Starts, Blanks, Next, Stripped;
    ghost var whole := Strip(a[..len], OUTSIDE, open, close);
    var i: nat, st := 0, OUTSIDE;
    StrippedStart(a[..len], open, close);
    while i < len
      invariant i <= len && a[len] == NUL
      invariant Stripped(whole, a[..len], i, st, open, close)
      decreases len - i
    {
      ghost var before := a[..len];
      var s := a[i..len];
      assert before[i..] == s;
      if Starts(s, st, open) {
        StartsHere(s, st, open);
        var k := FindFrom(s, |open|, close);
        var n := if k.None? then |open| else |open| + |close| + k.value;
        assert before[..i] == a[..i] && before[i + n..] == a[i + n..len];
        BlankOut(a, i, n, len);
        assert before[..i] + Blanks(n) + before[i + n..] == a[..len];
        StrippedComment(whole, before, a[..len], i, st, open, close);
        if k.None? {
          return;
        }
        i, st := i + n, Lex(st.inString, false);
      } else {
        StrippedStep(whole, a[..len], i, st, open, close);
        st := Next(st, s[0]);
        i := i + 1;
      }
    }
    StrippedEnd(whole, a[..len], st, open, close);
  }

  lemma StartsHere(s: bytes, st: Lex, open: bytes)
    requires Starts(s, st, open)
    ensures open <= s
  {
  }

  // ------------------------------------------------------------------ what stripping does to any text

  /** The texts have the same length and differ only where r has a space. */
  predicate OnlyBlanks(s: bytes, r: bytes)
  {
    |r| == |s| && forall i | 0 <= i < |s| :: r[i] == s[i] || r[i] == SPACE
  }

  lemma OnlyBlanksConcat(s: bytes, n: nat, r: bytes, t: bytes)
    requires n <= |s| && OnlyBlanks(s[..n], r) && OnlyBlanks(s[n..], t)
    ensures OnlyBlanks(s, r + t)
  {
    forall i | 0 <= i < |s| ensures (r + t)[i] == s[i] || (r + t)[i] == SPACE {
      if i < n {
        assert s[..n][i] == s[i];
      } else {
        assert s[n..][i - n] == s[i];
      }
    }
  }

  /** Stripping preserves length, and a byte only ever changes into a space. */
  lemma {:induction false} StripOnlyBlanks(s: bytes, st: Lex, open: bytes, close: bytes)
    requires open != [] && close != []
    ensures OnlyBlanks(s, Strip(s, st, open, close))
  {
    if s != [] {
      if Starts(s, st, open) {
        var n := CommentLength(s, open, close);
        if n.Some? {
          StripOnlyBlanks(s[n.value..], Lex(st.inString, false), open, close);
          OnlyBlanksConcat(s, n.value, Blanks(n.value), Strip(s[n.value..], Lex(st.inString, false), open, close));
        } else {
          OnlyBlanksConcat(s, |open|, Blanks(|open|), s[|open|..]);
        }
      } else {
        StripOnlyBlanks(s[1..], Next(st, s[0]), open, close);
        OnlyBlanksConcat(s, 1, [s[0]], Strip(s[1..], Next(st, s[0]), open, close));
      }
    }
  }

  /** The flags behind a text without comments. */
  function After(s: bytes, st: Lex): Lex
  {
    if s == [] then st else After(s[1..], Next(st, s[0]))
  }

  /** No comment opens outside the string literals of s. */
  predicate NoOpener(s: bytes, st: Lex, open: bytes)
  {
    s == [] || (!Starts(s, st, open) && NoOpener(s[1..], Next(st, s[0]), open))
  }

  /** Stripping is the identity on a text in which no comment opens outside a string literal. */
  lemma {:induction false} StripIdentity(s: bytes, st: Lex, open: bytes, close: bytes)
    requires open != [] && close != [] && NoOpener(s, st, open)
    ensures Strip(s, st, open, close) == s
  {
    if s != [] {
      StripIdentity(s[1..], Next(st, s[0]), open, close);
      assert [s[0]] + s[1..] == s;
    }
  }

  // ------------------------------------------------------------------ serialised values

  /** No slash stands outside the string literals of s. */
  predicate SlashFree(s: bytes, st: Lex)
  {
    s == [] || ((!st.inString ==> s[0] != SLASH) && SlashFree(s[1..], Next(st, s[0])))
  }

  lemma {:induction false} SlashFreeHasNoOpener(s: bytes, st: Lex, open: bytes)
    requires open != [] && open[0] == SLASH && SlashFree(s, st)
    ensures NoOpener(s, st, open)
  {
    if s != [] {
      SlashFreeHasNoOpener(s[1..], Next(st, s[0]), open);
    }
  }

  /** The scan of a text that starts and ends outside strings and has no slash outside them. */
  predicate Clean(s: bytes) { SlashFree(s, OUTSIDE) && After(s, OUTSIDE) == OUTSIDE }

  lemma {:induction false} SlashFreeConcat(a: bytes, b: bytes, st: Lex)
    ensures SlashFree(a + b, st) <==> SlashFree(a, st) && SlashFree(b, After(a, st))
    ensures After(a + b, st) == After(b, After(a, st))
  {
    if a == [] {
      assert a + b == b;
    } else {
      assert (a + b)[1..] == a[1..] + b;
      SlashFreeConcat(a[1..], b, Next(st, a[0]));
    }
  }

  lemma CleanConcat(a: bytes, b: bytes)
    requires Clean(a) && Clean(b)
    ensures Clean(a + b)
  {
    SlashFreeConcat(a, b, OUTSIDE);
  }

  predicate Plain(s: bytes) { forall i | 0 <= i < |s| :: s[i] != QUOTE && s[i] != BACKSLASH && s[i] != SLASH }

  lemma {:induction false} PlainIsClean(s: bytes)
    requires Plain(s)
    ensures Clean(s)
  {
    if s != [] {
      PlainIsClean(s[1..]);
    }
  }

  const INSIDE := Lex(true, false)

  lemma EscapeStaysInside(c: byte)
    ensures SlashFree(EscapeByte(c), INSIDE) && After(EscapeByte(c), INSIDE) == INSIDE
  {
    var e := EscapeByte(c);
    if |e| == 1 {
      PlainInside(e);
    } else if |e| == 2 {
      assert e[1..] == [e[1]] && e[1..][1..] == [];
      assert After(e[1..], Lex(true, true)) == After([], INSIDE);
      assert SlashFree(e[1..], Lex(true, true));
    } else if |e| == 6 {
      UnicodeEscapeStaysInside(e);
    }
  }

  lemma UnicodeEscapeStaysInside(e: bytes)
    requires |e| == 6 && e[0] == BACKSLASH && forall i | 1 <= i < 6 :: e[i] != QUOTE && e[i] != BACKSLASH
    ensures SlashFree(e, INSIDE) && After(e, INSIDE) == INSIDE
  {
    PlainInside(e[2..]);
    assert e[1..][1..] == e[2..] && e[1..][0] == e[1];
  }

  lemma {:induction false} PlainInside(s: bytes)
    requires forall i | 0 <= i < |s| :: s[i] != QUOTE && s[i] != BACKSLASH
    ensures SlashFree(s, INSIDE) && After(s, INSIDE) == INSIDE
  {
    if s != [] {
      PlainInside(s[1..]);
    }
  }

  lemma {:induction false} EscapedStaysInside(s: bytes)
    ensures SlashFree(EscapeBytes(s), INSIDE) && After(EscapeBytes(s), INSIDE) == INSIDE
  {
    if s != [] {
      EscapeStaysInside(s[0]);
      EscapedStaysInside(s[1..]);
      SlashFreeConcat(EscapeByte(s[0]), EscapeBytes(s[1..]), INSIDE);
    }
  }

  lemma StringTextIsClean(s: bytes)
    ensures Clean(StringText(s))
  {
    var e := EscapeBytes(s);
    EscapedStaysInside(s);
    SlashFreeConcat(e, [QUOTE], INSIDE);
    SlashFreeConcat([QUOTE], e + [QUOTE], OUTSIDE);
    assert StringText(s) == [QUOTE] + (e + [QUOTE]);
  }

  lemma {:induction false} DecimalIsPlain(n: nat)
    ensures Plain(DecimalNat(n))
  {
  }

  lemma NumberTextIsPlain(x: real)
    ensures Plain(NumberText(x))
  {
    if IsMachineInteger(x) {
      DecimalIsPlain(if x.Floor < 0 then -x.Floor else x.Floor);
    } else {
      var k := Micros(Magnitude(x));
      DecimalIsPlain(k / 1000000);
      FixedIsPlain(k);
    }
  }

  lemma FixedIsPlain(k: nat)
    ensures Plain(FixedText(k)) && Plain([MINUS] + FixedText(k)) && Plain([] + FixedText(k))
  {
    var d, f := DecimalNat(k / 1000000), SixDigits(k % 1000000);
    assert AllDigits(d) && AllDigits(f);
  }

  lemma {:induction false} IndentIsClean(b: bool, level: nat)
    ensures Clean(IndentIf(b, level)) && Clean(NewlineIf(b))
  {
    PlainIsClean(Indent(level));
    PlainIsClean([NEWLINE]);
    PlainIsClean([]);
  }

  lemma FrameIsClean(open: byte, close: byte, multiline: bool, level: nat)
    requires Plain([open]) && Plain([close])
    ensures Clean(Open(open, multiline)) && Clean(Close(close, multiline, level))
  {
    IndentIsClean(multiline, level);
    PlainIsClean([open]);
    PlainIsClean([close]);
    CleanConcat([open], NewlineIf(multiline));
    CleanConcat(IndentIf(multiline, level), [close]);
  }

  lemma SeparatorIsClean(last: bool, pretty: bool)
    ensures Clean(Separator(last, pretty))
  {
    PlainIsClean(Separator(last, pretty));
  }

  lemma {:induction false} TextIsClean(v: Value, level: nat, pretty: bool)
    ensures Clean(Text(v, level, pretty))
    decreases v, 1
  {
    match v
    case Array(a) =>
      var multiline := pretty && a.items != [];
      FrameIsClean(LBRACKET, RBRACKET, multiline, level);
      ItemsTextIsClean(a.items, level, pretty);
      CleanConcat(ItemsText(a.items, level, pretty), Close(RBRACKET, multiline, level));
      CleanConcat(Open(LBRACKET, multiline), ItemsText(a.items, level, pretty) + Close(RBRACKET, multiline, level));
    case Object(o) =>
      var multiline := pretty && o.members != [];
      FrameIsClean(LBRACE, RBRACE, multiline, level);
      MembersTextIsClean(o.members, level, pretty);
      CleanConcat(MembersText(o.members, level, pretty), Close(RBRACE, multiline, level));
      CleanConcat(Open(LBRACE, multiline), MembersText(o.members, level, pretty) + Close(RBRACE, multiline, level));
    case String(s) => StringTextIsClean(s);
    case Number(x) =>
      NumberTextIsPlain(x);
      PlainIsClean(NumberText(x));
    case _ => PlainIsClean(Text(v, level, pretty));
  }

  lemma {:induction false} ItemsTextIsClean(xs: seq<Value>, level: nat, pretty: bool)
    ensures Clean(ItemsText(xs, level, pretty))
    decreases xs, 0
  {
    if xs == [] {
      PlainIsClean([]);
    } else {
      var t, sep, indent := Text(xs[0], level + 1, pretty), Separator(|xs| == 1, pretty), IndentIf(pretty, level + 1);
      TextIsClean(xs[0], level + 1, pretty);
      ItemsTextIsClean(xs[1..], level, pretty);
      SeparatorIsClean(|xs| == 1, pretty);
      IndentIsClean(pretty, level + 1);
      CleanConcat(t, sep);
      CleanConcat(indent, t + sep);
      CleanConcat(indent + (t + sep), ItemsText(xs[1..], level, pretty));
    }
  }

  lemma KeyTextIsClean(name: bytes, pretty: bool)
    ensures Clean(KeyText(name, pretty))
  {
    var colon := if pretty then [COLON, SPACE] else [COLON];
    StringTextIsClean(name);
    PlainIsClean(colon);
    CleanConcat(StringText(name), colon);
  }

  lemma {:induction false} MembersTextIsClean(xs: seq<Member>, level: nat, pretty: bool)
    ensures Clean(MembersText(xs, level, pretty))
    decreases xs, 0
  {
    if xs == [] {
      PlainIsClean([]);
    } else {
      var k, t := KeyText(xs[0].name, pretty), Text(xs[0].value, level + 1, pretty);
      var sep, indent := Separator(|xs| == 1, pretty), IndentIf(pretty, level + 1);
      KeyTextIsClean(xs[0].name, pretty);
      TextIsClean(xs[0].value, level + 1, pretty);
      MembersTextIsClean(xs[1..], level, pretty);
      SeparatorIsClean(|xs| == 1, pretty);
      IndentIsClean(pretty, level + 1);
      CleanConcat(t, sep);
      CleanConcat(k, t + sep);
      CleanConcat(indent, k + (t + sep));
      CleanConcat(indent + (k + (t + sep)), MembersText(xs[1..], level, pretty));
    }
  }

  /** json_parse_string_with_comments: block comments go first, then line comments. */
  function ParsedWithComments(s: bytes): Option<Value>
  {
    ParsedString(Strip(Strip(s, OUTSIDE, BLOCK_START, BLOCK_END), OUTSIDE, LINE_START, LINE_END))
  }

  lemma CleanIsUnchanged(t: bytes)
    requires Clean(t)
    ensures Strip(Strip(t, OUTSIDE, BLOCK_START, BLOCK_END), OUTSIDE, LINE_START, LINE_END) == t
  {
    SlashFreeHasNoOpener(t, OUTSIDE, BLOCK_START);
    SlashFreeHasNoOpener(t, OUTSIDE, LINE_START);
    StripIdentity(t, OUTSIDE, BLOCK_START, BLOCK_END);
    StripIdentity(t, OUTSIDE, LINE_START, LINE_END);
  }

  /** Every serialised value parses to the same value with and without comment support. */
  lemma CommentsDoNotMatter(v: Value, pretty: bool)
    ensures ParsedWithComments(Text(v, 0, pretty)) == ParsedString(Text(v, 0, pretty))
  {
    TextIsClean(v, 0, pretty);
    CleanIsUnchanged(Text(v, 0, pretty));
  }

  // ------------------------------------------------------------------ comments themselves

  /** A comment behind clean text is blanked out, byte for byte, and the scan goes on behind it. */
  lemma {:induction false} CommentIsBlanked(a: bytes, st: Lex, open: bytes, body: bytes, close: bytes, b: bytes)
    requires open != [] && close != [] && open[0] == SLASH
    requires SlashFree(a, st) && After(a, st) == OUTSIDE
    requires IndexOf(body + close + b, close) == Some(|body|)
    ensures Strip(a + Commented(open, body, close, b), st, open, close)
            == a + (Blanks(|open| + |body| + |close|) + Strip(b, OUTSIDE, open, close))
  {
    hide Strip, IndexOf, Blanks, Next;
    var c := Commented(open, body, close, b);
    var s := a + c;
    var r := Blanks(|open| + |body| + |close|) + Strip(b, OUTSIDE, open, close);
    if a == [] {
      assert s == c && a + r == r;
      LeadingComment(open, body, close, b);
    } else {
      var t := a[1..] + c;
      assert s[1..] == t && s[0] == a[0];
      CommentIsBlanked(a[1..], Next(st, a[0]), open, body, close, b);
      StripFirst(s, st, open, close);
      assert [a[0]] + (a[1..] + r) == a + r;
    }
  }

  lemma StripFirst(s: bytes, st: Lex, open: bytes, close: bytes)
    requires s != [] && open != [] && close != [] && !Starts(s, st, open)
    ensures Strip(s, st, open, close) == [s[0]] + Strip(s[1..], Next(st, s[0]), open, close)
  {
  }

  lemma StripFirstComment(s: bytes, st: Lex, open: bytes, close: bytes, n: nat)
    requires open != [] && close != [] && Starts(s, st, open) && CommentLength(s, open, close) == Some(n)
    ensures Strip(s, st, open, close) == Blanks(n) + Strip(s[n..], Lex(st.inString, false), open, close)
  {
  }

  lemma LeadingComment(open: bytes, body: bytes, close: bytes, b: bytes)
    requires open != [] && close != [] && open[0] == SLASH
    requires IndexOf(body + close + b, close) == Some(|body|)
    ensures Strip(Commented(open, body, close, b), OUTSIDE, open, close)
            == Blanks(|open| + |body| + |close|) + Strip(b, OUTSIDE, open, close)
  {
    hide Strip, IndexOf, Starts, Blanks, CommentLength, Commented;
    var n := |open| + |body| + |close|;
    var s := CommentAhead(open, body, close, b);
    StripFirstComment(s, OUTSIDE, open, close, n);
  }

  /** A comment and what follows it. */
  function Commented(open: bytes, body: bytes, close: bytes, b: bytes): bytes { open + (body + close + b) }

  lemma CommentAhead(open: bytes, body: bytes, close: bytes, b: bytes) returns (s: bytes)
    requires open != [] && close != [] && open[0] == SLASH
    requires IndexOf(body + close + b, close) == Some(|body|)
    ensures s == Commented(open, body, close, b) && Starts(s, OUTSIDE, open)
    ensures CommentLength(s, open, close) == Some(|open| + |body| + |close|) && s[|open| + |body| + |close|..] == b
  {
    hide IndexOf;
    s := open + (body + close + b);
    assert s[|open|..] == body + close + b;
  }

  /** An opener that is never closed is blanked out, and everything behind it stays. */
  lemma {:induction false} UnclosedComment(a: bytes, st: Lex, open: bytes, b: bytes, close: bytes)
    requires open != [] && close != [] && open[0] == SLASH
    requires SlashFree(a, st) && After(a, st) == OUTSIDE && IndexOf(b, close) == None
    ensures Strip(a + (open + b), st, open, close) == a + (Blanks(|open|) + b)
  {
    hide Strip, IndexOf, Blanks, Next;
    var s, r := a + (open + b), Blanks(|open|) + b;
    if a == [] {
      assert s == open + b && a + r == r;
      assert s[|open|..] == b;
      StripUnclosed(s, st, open, close);
    } else {
      var t := a[1..] + (open + b);
      assert s[1..] == t && s[0] == a[0];
      UnclosedComment(a[1..], Next(st, a[0]), open, b, close);
      StripFirst(s, st, open, close);
      assert [a[0]] + (a[1..] + r) == a + r;
    }
  }

  lemma StripUnclosed(s: bytes, st: Lex, open: bytes, close: bytes)
    requires open != [] && close != [] && Starts(s, st, open) && CommentLength(s, open, close) == None
    ensures Strip(s, st, open, close) == Blanks(|open|) + s[|open|..]
  {
  }

  predicate OccursAt(s: bytes, t: bytes, k: nat) { k + |t| <= |s| && s[k..k + |t|] == t }

  lemma OccursFirst(s: bytes, t: bytes)
    ensures OccursAt(s, t, 0) <==> t <= s
  {
    assert |t| <= |s| ==> s[0..|t|] == s[..|t|];
  }

  lemma OccursLater(s: bytes, t: bytes, k: nat)
    requires s != []
    ensures OccursAt(s, t, k + 1) <==> OccursAt(s[1..], t, k)
  {
    assert k + 1 + |t| <= |s| ==> s[1..][k..k + |t|] == s[k + 1..k + 1 + |t|];
  }

  /** t is first found at k. */
  ghost predicate FirstAt(s: bytes, t: bytes, k: nat)
  {
    OccursAt(s, t, k) && forall i: nat | OccursAt(s, t, i) :: k <= i
  }

  ghost predicate Nowhere(s: bytes, t: bytes) { forall i: nat :: !OccursAt(s, t, i) }

  lemma FirstLater(s: bytes, t: bytes)
    requires s != [] && !(t <= s)
    ensures forall k: nat :: FirstAt(s[1..], t, k) ==> FirstAt(s, t, k + 1)
    ensures Nowhere(s[1..], t) ==> Nowhere(s, t)
  {
    hide OccursAt;
    OccursFirst(s, t);
    forall i: nat ensures OccursAt(s, t, i) ==> i > 0 && OccursAt(s[1..], t, i - 1) {
      if i > 0 {
        OccursLater(s, t, i - 1);
      }
    }
    forall k: nat | FirstAt(s[1..], t, k) ensures OccursAt(s, t, k + 1) {
      OccursLater(s, t, k);
    }
  }

  /** strstr finds the first occurrence, and none exactly when there is none. */
  lemma {:induction false} IndexIsFirst(s: bytes, t: bytes)
    ensures var r := IndexOf(s, t); if r.Some? then FirstAt(s, t, r.value) else Nowhere(s, t)
  {
    hide OccursAt;
    if t <= s {
      OccursFirst(s, t);
    } else if s != [] {
      hide FirstAt, Nowhere;
      IndexIsFirst(s[1..], t);
      FirstLater(s, t);
    } else {
      NothingInNothing(t);
    }
  }

  lemma NothingInNothing(t: bytes)
    requires t != []
    ensures Nowhere([], t)
  {
  }
}
