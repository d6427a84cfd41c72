/**
 How printed text is laid out, said of the bytes alone: pretty text is the compact text with line
 breaks, indentation and a space behind each colon, and compact text has no white space at all
 outside of its strings.
 */
module JsonLayout {
  import opened Bytes
  import opened JsonNumber
  import opened JsonString
  import opened JsonValue
  import opened JsonSerializer

  // ------------------------------------------------------------------ texts and their strings

  predicate Opens(c: byte) { c == LBRACKET || c == LBRACE }
  predicate Closes(c: byte) { c == RBRACKET || c == RBRACE }

  function Blanks(n: nat): (r: bytes)
    ensures |r| == n
  {
    seq(n, _ => SPACE)
  }

  /** A new line, four blanks in for every open bracket. */
  function Break(depth: nat): bytes { [NEWLINE] + Blanks(4 * depth) }

  /** The rest of a string literal up to its closing quote, and what follows it. */
  function LiteralLength(s: bytes): (n: nat)
    ensures n <= |s|
  {
    if s == [] then 0
    else if s[0] == QUOTE then 1
    else if s[0] == BACKSLASH && |s| > 1 then 2 + LiteralLength(s[2..])
    else 1 + LiteralLength(s[1..])
  }

  /** Lays a compact text out: literals and empty brackets stay together. */
  function Laid(s: bytes, depth: nat): bytes
    decreases |s|
  {
    if s == [] then []
    else if s[0] == QUOTE then
      var n := 1 + LiteralLength(s[1..]);
      s[..n] + Laid(s[n..], depth)
    else if Opens(s[0]) && |s| > 1 && Closes(s[1]) then s[..2] + Laid(s[2..], depth)
    else if Opens(s[0]) then [s[0]] + Break(depth + 1) + Laid(s[1..], depth + 1)
    else if Closes(s[0]) then
      var out := if depth == 0 then 0 else depth - 1;
      Break(out) + [s[0]] + Laid(s[1..], out)
    else if s[0] == COMMA then [COMMA] + Break(depth) + Laid(s[1..], depth)
    else if s[0] == COLON then [COLON, SPACE] + Laid(s[1..], depth)
    else [s[0]] + Laid(s[1..], depth)
  }

  /** Takes all white space outside of literals away. */
  function Squeezed(s: bytes): bytes
    decreases |s|
  {
    if s == [] then []
    else if s[0] == QUOTE then
      var n := 1 + LiteralLength(s[1..]);
      s[..n] + Squeezed(s[n..])
    else if IsSpace(s[0]) then Squeezed(s[1..])
    else [s[0]] + Squeezed(s[1..])
  }

  lemma {:induction false} LiteralOfEscape(s: bytes, rest: bytes)
    ensures LiteralLength(EscapeBytes(s) + [QUOTE] + rest) == |EscapeBytes(s)| + 1
  {
    if s == [] {
      assert EscapeBytes(s) + [QUOTE] + rest == [QUOTE] + rest;
    } else {
      var e, t := EscapeByte(s[0]), EscapeBytes(s[1..]) + [QUOTE] + rest;
      assert EscapeBytes(s) + [QUOTE] + rest == e + t;
      LiteralOfEscape(s[1..], rest);
      EscapePassed(s[0], t);
    }
  }

  lemma BytePassed(c: byte, t: bytes)
    requires c != QUOTE && c != BACKSLASH
    ensures LiteralLength([c] + t) == 1 + LiteralLength(t)
  {
    assert ([c] + t)[1..] == t;
  }

  lemma PairPassed(c: byte, t: bytes)
    ensures LiteralLength([BACKSLASH, c] + t) == 2 + LiteralLength(t)
  {
    assert ([BACKSLASH, c] + t)[2..] == t;
  }

  lemma EscapePassed(c: byte, t: bytes)
    ensures LiteralLength(EscapeByte(c) + t) == |EscapeByte(c)| + LiteralLength(t)
  {
    hide LiteralLength;
    var e := EscapeByte(c);
    if |e| == 1 {
      BytePassed(c, t);
    } else if |e| == 2 {
      assert e == [BACKSLASH, e[1]];
      PairPassed(e[1], t);
    } else {
      BytePassed(e[5], t);
      BytePassed(e[4], [e[5]] + t);
      BytePassed(e[3], [e[4]] + ([e[5]] + t));
      BytePassed(e[2], [e[3]] + ([e[4]] + ([e[5]] + t)));
      PairPassed(e[1], [e[2]] + ([e[3]] + ([e[4]] + ([e[5]] + t))));
      assert e + t == [BACKSLASH, e[1]] + ([e[2]] + ([e[3]] + ([e[4]] + ([e[5]] + t))));
    }
  }

  // ------------------------------------------------------------------ words that are neither

  /** Bytes that layout passes over: no quote, bracket, comma, colon or white space. */
  predicate Plain(c: byte)
  {
    c != QUOTE && !Opens(c) && !Closes(c) && c != COMMA && c != COLON && !IsSpace(c)
  }

  predicate AllPlain(s: bytes) { forall i | 0 <= i < |s| :: Plain(s[i]) }

  lemma PlainStep(c: byte, t: bytes, depth: nat)
    requires Plain(c)
    ensures Laid([c] + t, depth) == [c] + Laid(t, depth) && Squeezed([c] + t) == [c] + Squeezed(t)
  {
    hide Break, LiteralLength;
    assert ([c] + t)[1..] == t && ([c] + t)[0] == c;
  }

  lemma {:induction false} PlainPassed(t: bytes, rest: bytes, depth: nat)
    requires AllPlain(t)
    ensures Laid(t + rest, depth) == t + Laid(rest, depth) && Squeezed(t + rest) == t + Squeezed(rest)
  {
    hide Laid, Squeezed, Plain;
    if t == [] {
      assert t + rest == rest;
    } else {
      assert t + rest == [t[0]] + (t[1..] + rest);
      PlainStep(t[0], t[1..] + rest, depth);
      PlainPassed(t[1..], rest, depth);
      assert t == [t[0]] + t[1..];
    }
  }

  lemma LiteralPassed(name: bytes, rest: bytes, depth: nat)
    ensures Laid(StringText(name) + rest, depth) == StringText(name) + Laid(rest, depth)
    ensures Squeezed(StringText(name) + rest) == StringText(name) + Squeezed(rest)
  {
    var t := StringText(name);
    var s := t + rest;
    LiteralOfEscape(name, rest);
    assert s[1..] == EscapeBytes(name) + [QUOTE] + rest;
    assert s[..|t|] == t && s[|t|..] == rest;
  }

  lemma NumberIsPlain(x: real)
    ensures AllPlain(NumberText(x))
  {
    var t := NumberText(x);
    forall i | 0 <= i < |t| ensures Plain(t[i]) {
      NumberBytes(x, i);
    }
  }

  lemma NumberBytes(x: real, i: nat)
    requires i < |NumberText(x)|
    ensures var c := NumberText(x)[i]; IsDigit(c) || c == MINUS || c == DOT
  {
    hide Micros;
  }

  // ------------------------------------------------------------------ values

  lemma {:induction false} IndentIs(level: nat)
    ensures Indent(level) == Blanks(4 * level)
  {
    if level > 0 {
      IndentIs(level - 1);
      assert Blanks(4 * level) == [SPACE, SPACE, SPACE, SPACE] + Blanks(4 * (level - 1));
    }
  }

  lemma ScalarPassed(v: Value, level: nat, pretty: bool, rest: bytes, depth: nat)
    requires !v.Array? && !v.Object?
    ensures var t := Text(v, level, pretty);
            Laid(t + rest, depth) == t + Laid(rest, depth) && Squeezed(t + rest) == t + Squeezed(rest)
  {
    hide Laid, Squeezed;
    match v
    case String(s) => LiteralPassed(s, rest, depth);
    case Number(x) =>
      NumberIsPlain(x);
      PlainPassed(NumberText(x), rest, depth);
    case _ => PlainPassed(Text(v, level, pretty), rest, depth);
  }

  // ------------------------------------------------------------------ compact text

  lemma {:induction false} SpacesSqueezed(w: bytes, rest: bytes)
    requires AllSpaces(w)
    ensures Squeezed(w + rest) == Squeezed(rest)
  {
    if w == [] {
      assert w + rest == rest;
    } else {
      assert (w + rest)[1..] == w[1..] + rest;
      SpacesSqueezed(w[1..], rest);
    }
  }

  lemma MarkSqueezed(c: byte, w: bytes, rest: bytes)
    requires c != QUOTE && !IsSpace(c) && AllSpaces(w)
    ensures Squeezed([c] + w + rest) == [c] + Squeezed(rest)
  {
    assert [c] + w + rest == [c] + (w + rest);
    assert ([c] + (w + rest))[1..] == w + rest;
    SpacesSqueezed(w, rest);
  }

  lemma SeparatorSqueezed(last: bool, pretty: bool, rest: bytes)
    ensures Squeezed(Separator(last, pretty) + rest) == Separator(last, false) + Squeezed(rest)
  {
    hide Squeezed;
    if last {
      assert Separator(last, pretty) == NewlineIf(pretty) && Separator(last, false) == [];
      SpacesSqueezed(NewlineIf(pretty), rest);
    } else {
      MarkSqueezed(COMMA, NewlineIf(pretty), rest);
      assert Separator(last, false) == [COMMA];
    }
  }

  lemma BracketsSqueezed(a: byte, b: byte, body: bytes, tight: bytes, multiline: bool, level: nat, rest: bytes)
    requires Opens(a) && Closes(b)
    requires forall t: bytes :: Squeezed(body + t) == tight + Squeezed(t)
    ensures Squeezed(Open(a, multiline) + (body + Close(b, multiline, level)) + rest)
         == Open(a, false) + (tight + Close(b, false, level)) + Squeezed(rest)
  {
    hide Squeezed, Indent;
    var w := IndentIf(multiline, level);
    MarkSqueezed(a, NewlineIf(multiline), body + (w + ([b] + rest)));
    assert Open(a, multiline) + (body + Close(b, multiline, level)) + rest
        == [a] + NewlineIf(multiline) + (body + (w + ([b] + rest)));
    assert Squeezed(body + (w + ([b] + rest))) == tight + Squeezed(w + ([b] + rest));
    SpacesSqueezed(w, [b] + rest);
    MarkSqueezed(b, [], rest);
    assert [b] + [] + rest == [b] + rest;
    assert Open(a, false) == [a] && Close(b, false, level) == [b];
  }

  /** Without its white space outside of strings, text of either form is the compact text. */
  lemma {:induction false} TextSqueezed(v: Value, level: nat, pretty: bool, rest: bytes)
    ensures Squeezed(Text(v, level, pretty) + rest) == Text(v, level, false) + Squeezed(rest)
    decreases v, 1
  {
    hide Squeezed, ItemsText, MembersText;
    match v
    case Array(a) =>
      forall t: bytes ensures Squeezed(ItemsText(a.items, level, pretty) + t)
                           == ItemsText(a.items, level, false) + Squeezed(t) {
        ItemsSqueezed(a.items, level, pretty, t);
      }
      BracketsSqueezed(LBRACKET, RBRACKET, ItemsText(a.items, level, pretty), ItemsText(a.items, level, false),
        pretty && a.items != [], level, rest);
    case Object(o) =>
      forall t: bytes ensures Squeezed(MembersText(o.members, level, pretty) + t)
                           == MembersText(o.members, level, false) + Squeezed(t) {
        MembersSqueezed(o.members, level, pretty, t);
      }
      BracketsSqueezed(LBRACE, RBRACE, MembersText(o.members, level, pretty), MembersText(o.members, level, false),
        pretty && o.members != [], level, rest);
    case _ =>
      ScalarPassed(v, level, pretty, rest, 0);
  }

  lemma {:induction false} ItemsSqueezed(items: seq<Value>, level: nat, pretty: bool, rest: bytes)
    ensures Squeezed(ItemsText(items, level, pretty) + rest) == ItemsText(items, level, false) + Squeezed(rest)
    decreases items, 0
  {
    hide *;
    if items == [] {
      NoItems(level);
      assert [] + rest == rest && [] + Squeezed(rest) == Squeezed(rest);
    } else {
      var w, t, e := IndentIf(pretty, level + 1), Text(items[0], level + 1, pretty), Separator(|items| == 1, pretty);
      var more := ItemsText(items[1..], level, pretty) + rest;
      ItemsParts(items, level, pretty, rest);
      SpacesSqueezed(w, t + (e + more));
      TextSqueezed(items[0], level + 1, pretty, e + more);
      SeparatorSqueezed(|items| == 1, pretty, more);
      ItemsSqueezed(items[1..], level, pretty, rest);
      ItemsParts(items, level, false, Squeezed(rest));
      NotIndented(level + 1, Text(items[0], level + 1, false)
        + (Separator(|items| == 1, false) + (ItemsText(items[1..], level, false) + Squeezed(rest))));
    }
  }

  lemma NotIndented(level: nat, t: bytes)
    ensures IndentIf(false, level) + t == t
  {
  }

  lemma ItemsParts(items: seq<Value>, level: nat, pretty: bool, rest: bytes)
    requires items != []
    ensures AllSpaces(IndentIf(pretty, level + 1))
    ensures ItemsText(items, level, pretty) + rest
         == IndentIf(pretty, level + 1) + (Text(items[0], level + 1, pretty)
                                           + (Separator(|items| == 1, pretty)
                                              + (ItemsText(items[1..], level, pretty) + rest)))
  {
    hide Text, Separator, IndentIf;
    IndentSpaces(pretty, level + 1);
    var w, t, e := IndentIf(pretty, level + 1), Text(items[0], level + 1, pretty), Separator(|items| == 1, pretty);
    var more := ItemsText(items[1..], level, pretty);
    assert ItemsText(items, level, pretty) == w + (t + e) + more;
    assert w + (t + e) + more + rest == w + (t + (e + (more + rest)));
  }

  lemma KeySqueezed(name: bytes, pretty: bool, rest: bytes)
    ensures Squeezed(KeyText(name, pretty) + rest) == KeyText(name, false) + Squeezed(rest)
  {
    hide Squeezed, StringText;
    var w := if pretty then [SPACE] else [];
    assert KeyText(name, pretty) + rest == StringText(name) + ([COLON] + w + rest);
    LiteralPassed(name, [COLON] + w + rest, 0);
    MarkSqueezed(COLON, w, rest);
  }

  lemma {:induction false} MembersSqueezed(ms: seq<Member>, level: nat, pretty: bool, rest: bytes)
    ensures Squeezed(MembersText(ms, level, pretty) + rest) == MembersText(ms, level, false) + Squeezed(rest)
    decreases ms, 0
  {
    hide *;
    if ms == [] {
      NoMembers(level);
      assert [] + rest == rest && [] + Squeezed(rest) == Squeezed(rest);
    } else {
      var m := ms[0];
      var w, k := IndentIf(pretty, level + 1), KeyText(m.name, pretty);
      var t, e := Text(m.value, level + 1, pretty), Separator(|ms| == 1, pretty);
      var more := MembersText(ms[1..], level, pretty) + rest;
      MembersParts(ms, level, pretty, rest);
      SpacesSqueezed(w, k + (t + (e + more)));
      KeySqueezed(m.name, pretty, t + (e + more));
      TextSqueezed(m.value, level + 1, pretty, e + more);
      SeparatorSqueezed(|ms| == 1, pretty, more);
      MembersSqueezed(ms[1..], level, pretty, rest);
      MembersParts(ms, level, false, Squeezed(rest));
      NotIndented(level + 1, KeyText(m.name, false) + (Text(m.value, level + 1, false)
        + (Separator(|ms| == 1, false) + (MembersText(ms[1..], level, false) + Squeezed(rest)))));
    }
  }

  lemma MembersParts(ms: seq<Member>, level: nat, pretty: bool, rest: bytes)
    requires ms != []
    ensures AllSpaces(IndentIf(pretty, level + 1))
    ensures MembersText(ms, level, pretty) + rest
         == IndentIf(pretty, level + 1)
            + (KeyText(ms[0].name, pretty)
               + (Text(ms[0].value, level + 1, pretty)
                  + (Separator(|ms| == 1, pretty) + (MembersText(ms[1..], level, pretty) + rest))))
  {
    hide Text, Separator, IndentIf, KeyText;
    IndentSpaces(pretty, level + 1);
    var w, k, t := IndentIf(pretty, level + 1), KeyText(ms[0].name, pretty), Text(ms[0].value, level + 1, pretty);
    var e, more := Separator(|ms| == 1, pretty), MembersText(ms[1..], level, pretty);
    assert MembersText(ms, level, pretty) == w + (k + (t + e)) + more;
    PartsJoined(w, k, t, e, more, rest);
  }

  lemma PartsJoined(w: bytes, k: bytes, t: bytes, e: bytes, more: bytes, rest: bytes)
    ensures w + (k + (t + e)) + more + rest == w + (k + (t + (e + (more + rest))))
  {
  }

  lemma IndentSpaces(pretty: bool, level: nat)
    ensures AllSpaces(IndentIf(pretty, level))
  {
  }

  // ------------------------------------------------------------------ pretty text

  lemma TextHead(v: Value, level: nat, pretty: bool)
    ensures Text(v, level, pretty) != [] && !Closes(Text(v, level, pretty)[0])
  {
    hide ItemsText, MembersText;
    match v
    case Number(x) => NumberBytes(x, 0);
    case _ =>
  }

  lemma OpenLaid(c: byte, t: bytes, depth: nat)
    requires Opens(c) && t != [] && !Closes(t[0])
    ensures Laid([c] + t, depth) == [c] + Break(depth + 1) + Laid(t, depth + 1)
  {
    hide Break;
    assert ([c] + t)[1..] == t && ([c] + t)[1] == t[0];
  }

  lemma EmptyLaid(a: byte, b: byte, rest: bytes, depth: nat)
    requires Opens(a) && Closes(b)
    ensures Laid([a, b] + rest, depth) == [a, b] + Laid(rest, depth)
  {
    assert ([a, b] + rest)[2..] == rest && ([a, b] + rest)[..2] == [a, b];
  }

  lemma CloseLaid(c: byte, t: bytes, depth: nat)
    requires Closes(c)
    ensures Laid([c] + t, depth + 1) == Break(depth) + [c] + Laid(t, depth)
  {
    hide Break;
    assert ([c] + t)[1..] == t;
  }

  lemma CommaLaid(t: bytes, depth: nat)
    ensures Laid([COMMA] + t, depth) == [COMMA] + Break(depth) + Laid(t, depth)
  {
    hide Break;
    assert ([COMMA] + t)[1..] == t;
  }

  lemma KeyLaid(name: bytes, t: bytes, depth: nat)
    ensures Laid(KeyText(name, false) + t, depth) == KeyText(name, true) + Laid(t, depth)
  {
    hide StringText;
    assert KeyText(name, false) + t == StringText(name) + ([COLON] + t);
    LiteralPassed(name, [COLON] + t, depth);
    assert ([COLON] + t)[1..] == t;
  }

  /** Laid out, compact text is the pretty text: line breaks and blanks are a matter of the brackets alone. */
  lemma {:induction false} TextLaid(v: Value, level: nat, rest: bytes)
    ensures Laid(Text(v, level, false) + rest, level) == Text(v, level, true) + Laid(rest, level)
    decreases v, 1
  {
    hide *;
    match v
    case Array(a) =>
      if a.items == [] {
        EmptyTexts(v, level);
        EmptyLaid(LBRACKET, RBRACKET, rest, level);
      } else {
        var body, end, inner := ItemsText(a.items, level, false), [RBRACKET] + rest, ItemsText(a.items, level, true);
        ArrayTexts(a, level, rest);
        ItemsHead(a.items, level, end);
        BracketsOpenAndClose();
        OpenLaid(LBRACKET, body + end, level);
        ItemsLaid(a.items, level, RBRACKET, rest);
        BreakIs(level + 1);
        Opened(LBRACKET, Indent(level + 1), Laid(body + end, level + 1));
        Closed([LBRACKET, NEWLINE], inner, PrettyEnd(level, RBRACKET), Laid(rest, level));
      }
    case Object(o) =>
      if o.members == [] {
        EmptyTexts(v, level);
        EmptyLaid(LBRACE, RBRACE, rest, level);
      } else {
        var body, end := MembersText(o.members, level, false), [RBRACE] + rest;
        var inner := MembersText(o.members, level, true);
        ObjectTexts(o, level, rest);
        MembersHead(o.members, level, end);
        BracketsOpenAndClose();
        OpenLaid(LBRACE, body + end, level);
        MembersLaid(o.members, level, RBRACE, rest);
        BreakIs(level + 1);
        Opened(LBRACE, Indent(level + 1), Laid(body + end, level + 1));
        Closed([LBRACE, NEWLINE], inner, PrettyEnd(level, RBRACE), Laid(rest, level));
      }
    case _ =>
      ScalarPassed(v, level, false, rest, level);
      ScalarTexts(v, level);
  }

  lemma BracketsOpenAndClose()
    ensures Opens(LBRACKET) && Opens(LBRACE) && Closes(RBRACKET) && Closes(RBRACE)
  {
  }

  lemma ScalarTexts(v: Value, level: nat)
    requires !v.Array? && !v.Object?
    ensures Text(v, level, true) == Text(v, level, false)
  {
  }

  lemma EmptyTexts(v: Value, level: nat)
    ensures v.Array? && v.arr.items == [] ==>
              Text(v, level, false) == [LBRACKET, RBRACKET] && Text(v, level, true) == [LBRACKET, RBRACKET]
    ensures v.Object? && v.obj.members == [] ==>
              Text(v, level, false) == [LBRACE, RBRACE] && Text(v, level, true) == [LBRACE, RBRACE]
  {
  }

  lemma ArrayTexts(a: Items, level: nat, rest: bytes)
    requires a.items != []
    ensures Text(Array(a), level, false) + rest == [LBRACKET] + (ItemsText(a.items, level, false) + ([RBRACKET] + rest))
    ensures Text(Array(a), level, true)
         == [LBRACKET, NEWLINE] + (ItemsText(a.items, level, true) + PrettyEnd(level, RBRACKET))
  {
    hide ItemsText, Indent;
  }

  lemma ObjectTexts(o: Members, level: nat, rest: bytes)
    requires o.members != []
    ensures Text(Object(o), level, false) + rest
         == [LBRACE] + (MembersText(o.members, level, false) + ([RBRACE] + rest))
    ensures Text(Object(o), level, true)
         == [LBRACE, NEWLINE] + (MembersText(o.members, level, true) + PrettyEnd(level, RBRACE))
  {
    hide MembersText, Indent;
  }

  lemma NoItems(level: nat)
    ensures ItemsText([], level, true) == [] && ItemsText([], level, false) == []
  {
  }

  lemma NoMembers(level: nat)
    ensures MembersText([], level, true) == [] && MembersText([], level, false) == []
  {
  }

  lemma ItemsHead(items: seq<Value>, level: nat, end: bytes)
    requires items != []
    ensures var t := ItemsText(items, level, false) + end; t != [] && !Closes(t[0])
  {
    hide Text;
    TextHead(items[0], level + 1, false);
  }

  lemma MembersHead(ms: seq<Member>, level: nat, end: bytes)
    requires ms != []
    ensures var t := MembersText(ms, level, false) + end; t != [] && !Closes(t[0])
  {
    hide Text;
    assert StringText(ms[0].name)[0] == QUOTE;
  }

  /** What pretty text has behind its last element. */
  function PrettyEnd(level: nat, close: byte): bytes { Indent(level) + [close] }

  // Associativity, for the proofs below and above.

  lemma Joined(a: bytes, b: bytes, c: bytes)
    ensures a + (b + c) == (a + b) + c
  {
  }

  lemma Opened(c: byte, blanks: bytes, more: bytes)
    ensures [c] + ([NEWLINE] + blanks) + more == [c, NEWLINE] + (blanks + more)
  {
  }

  lemma Closed(a: bytes, b: bytes, c: bytes, d: bytes)
    ensures a + (b + (c + d)) == (a + (b + c)) + d
  {
  }

  lemma Continued(blanks: bytes, u: bytes, more: bytes)
    ensures blanks + (u + ([COMMA] + ([NEWLINE] + blanks) + more))
         == blanks + (u + [COMMA, NEWLINE]) + (blanks + more)
  {
  }

  lemma BreakIs(depth: nat)
    ensures Break(depth) == [NEWLINE] + Indent(depth) && Blanks(4 * depth) == Indent(depth)
  {
    IndentIs(depth);
  }

  lemma EndIs(level: nat, close: byte)
    ensures PrettyEnd(level, close) == Indent(level) + [close]
  {
  }

  lemma {:induction false} ItemsLaid(items: seq<Value>, level: nat, close: byte, rest: bytes)
    requires items != [] && Closes(close)
    ensures Blanks(4 * (level + 1)) + Laid(ItemsText(items, level, false) + ([close] + rest), level + 1)
         == ItemsText(items, level, true) + (PrettyEnd(level, close) + Laid(rest, level))
    decreases items, 0
  {
    hide *;
    var end, blanks := [close] + rest, Indent(level + 1);
    var u := Text(items[0], level + 1, true);
    BreakIs(level);
    BreakIs(level + 1);
    EndIs(level, close);
    if |items| == 1 {
      OneItem(items, level);
      TextLaid(items[0], level + 1, end);
      CloseLaid(close, rest, level);
      LastJoined(blanks, u, Indent(level), [close], Laid(rest, level));
    } else {
      var more, inner := ItemsText(items[1..], level, false) + end, ItemsText(items[1..], level, true);
      ItemsCut(items, level, end);
      TextLaid(items[0], level + 1, [COMMA] + more);
      CommaLaid(more, level + 1);
      ItemsLaid(items[1..], level, close, rest);
      Continued(blanks, u, Laid(more, level + 1));
      Joined(blanks + (u + [COMMA, NEWLINE]), inner, PrettyEnd(level, close) + Laid(rest, level));
    }
  }

  lemma OneItem(items: seq<Value>, level: nat)
    requires |items| == 1
    ensures ItemsText(items, level, false) == Text(items[0], level + 1, false)
    ensures ItemsText(items, level, true) == Indent(level + 1) + (Text(items[0], level + 1, true) + [NEWLINE])
  {
    hide Text, Indent;
    assert ItemsText(items[1..], level, false) == [] && ItemsText(items[1..], level, true) == [];
  }

  lemma ItemsCut(items: seq<Value>, level: nat, end: bytes)
    requires |items| > 1
    ensures ItemsText(items, level, false) + end
         == Text(items[0], level + 1, false) + ([COMMA] + (ItemsText(items[1..], level, false) + end))
    ensures ItemsText(items, level, true)
         == Indent(level + 1) + (Text(items[0], level + 1, true) + [COMMA, NEWLINE])
            + ItemsText(items[1..], level, true)
  {
    hide Text, Indent;
  }

  lemma LastJoined(blanks: bytes, u: bytes, less: bytes, close: bytes, more: bytes)
    ensures blanks + (u + ([NEWLINE] + less + close + more)) == blanks + (u + [NEWLINE]) + (less + close + more)
  {
  }

  lemma {:induction false} MembersLaid(ms: seq<Member>, level: nat, close: byte, rest: bytes)
    requires ms != [] && Closes(close)
    ensures Blanks(4 * (level + 1)) + Laid(MembersText(ms, level, false) + ([close] + rest), level + 1)
         == MembersText(ms, level, true) + (PrettyEnd(level, close) + Laid(rest, level))
    decreases ms, 0
  {
    hide *;
    var end, blanks, m := [close] + rest, Indent(level + 1), ms[0];
    var t, l, u := Text(m.value, level + 1, false), KeyText(m.name, true), Text(m.value, level + 1, true);
    BreakIs(level);
    BreakIs(level + 1);
    EndIs(level, close);
    if |ms| == 1 {
      OneMember(ms, level, end);
      KeyLaid(m.name, t + end, level + 1);
      TextLaid(m.value, level + 1, end);
      CloseLaid(close, rest, level);
      Joined(l, u, [NEWLINE] + Indent(level) + [close] + Laid(rest, level));
      LastJoined(blanks, l + u, Indent(level), [close], Laid(rest, level));
    } else {
      var more, inner := MembersText(ms[1..], level, false) + end, MembersText(ms[1..], level, true);
      MembersCut(ms, level, end);
      KeyLaid(m.name, t + ([COMMA] + more), level + 1);
      TextLaid(m.value, level + 1, [COMMA] + more);
      CommaLaid(more, level + 1);
      MembersLaid(ms[1..], level, close, rest);
      Joined(l, u, [COMMA] + Break(level + 1) + Laid(more, level + 1));
      Continued(blanks, l + u, Laid(more, level + 1));
      Joined(blanks + (l + u + [COMMA, NEWLINE]), inner, PrettyEnd(level, close) + Laid(rest, level));
    }
  }

  lemma OneMember(ms: seq<Member>, level: nat, end: bytes)
    requires |ms| == 1
    ensures var m := ms[0];
            && MembersText(ms, level, false) + end == KeyText(m.name, false) + (Text(m.value, level + 1, false) + end)
            && MembersText(ms, level, true)
            == Indent(level + 1) + (KeyText(m.name, true) + Text(m.value, level + 1, true) + [NEWLINE])
  {
    hide Text, Indent, KeyText;
    assert MembersText(ms[1..], level, false) == [] && MembersText(ms[1..], level, true) == [];
  }

  lemma MembersCut(ms: seq<Member>, level: nat, end: bytes)
    requires |ms| > 1
    ensures var m := ms[0];
            && MembersText(ms, level, false) + end
            == KeyText(m.name, false) + (Text(m.value, level + 1, false)
                                         + ([COMMA] + (MembersText(ms[1..], level, false) + end)))
            && MembersText(ms, level, true)
            == Indent(level + 1) + (KeyText(m.name, true) + Text(m.value, level + 1, true) + [COMMA, NEWLINE])
               + MembersText(ms[1..], level, true)
  {
    hide Text, Indent, KeyText;
  }

  /** The two forms of every value determine each other. */
  lemma Layout(v: Value)
    ensures Laid(Text(v, 0, false), 0) == Text(v, 0, true)
    ensures Squeezed(Text(v, 0, true)) == Text(v, 0, false) && Squeezed(Text(v, 0, false)) == Text(v, 0, false)
  {
    hide Text;
    TextLaid(v, 0, []);
    TextSqueezed(v, 0, true, []);
    TextSqueezed(v, 0, false, []);
    assert forall s: bytes :: s + [] == s;
  }
}
