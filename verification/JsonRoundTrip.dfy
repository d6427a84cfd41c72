/**
 Parsing what the serialiser wrote: for every value the library can build, compact or
 pretty, exactly what comes back.
 */
module JsonRoundTrip {
  import opened Bytes
  import opened JsonNumber
  import opened JsonString
  import opened JsonValue
  import opened JsonSerializer
  import opened JsonParser

  // ------------------------------------------------------------------ texts

  lemma {:induction false} SkipSpacesPast(w: bytes, t: bytes)
    requires AllSpaces(w)
    ensures SkipSpaces(w + t) == SkipSpaces(t)
  {
    if w == [] {
      assert w + t == t;
    } else {
      assert (w + t)[1..] == w[1..] + t;
      SkipSpacesPast(w[1..], t);
    }
  }

  /** A text starts with neither white space nor a closing bracket. */
  predicate StartsValue(t: bytes)
  {
    t != [] && !IsSpace(t[0]) && t[0] != RBRACKET && t[0] != RBRACE
  }

  lemma TextStartsValue(v: Value, level: nat, pretty: bool)
    ensures StartsValue(Text(v, level, pretty))
  {
    if v.Number? {
      NumberHead(v.x);
    }
  }

  lemma SpacesOf(multiline: bool, level: nat)
    ensures AllSpaces(NewlineIf(multiline)) && AllSpaces(IndentIf(multiline, level))
  {
  }

  lemma Reassociate(a: bytes, b: bytes, c: bytes)
    ensures a + b + c == a + (b + c)
  {
  }

  // ------------------------------------------------------------------ scalars

  lemma ScalarBack(v: Value, level: nat, pretty: bool, nesting: nat, rest: bytes)
    requires Valid(v) && !v.Array? && !v.Object? && EndsNumber(rest)
    ensures ParsedValue(Text(v, level, pretty) + rest, nesting)
            == if nesting <= MAX_NESTING then Parsed(Reparsed(v), rest) else Failed
  {
    var t := Text(v, level, pretty);
    var u := t + rest;
    TextStartsValue(v, level, pretty);
    assert SkipSpaces(u) == u;
    assert u[..|t|] == t && u[|t|..] == rest;
    match v
    case Number(x) =>
      NumberHead(x);
      ScanNumberText(x, rest);
    case String(s) => QuotedStringText(s, rest);
    case _ =>
  }

  // ------------------------------------------------------------------ arrays

  /** What stands behind the elements of an array or object. */
  predicate Tail(tail: bytes, bracket: byte, rest: bytes)
  {
    EndsNumber(tail) && SkipSpaces(tail) == [bracket] + rest
  }

  lemma CloseIsTail(bracket: byte, multiline: bool, level: nat, rest: bytes)
    requires bracket == RBRACKET || bracket == RBRACE
    ensures Tail(Close(bracket, multiline, level) + rest, bracket, rest)
  {
    SpacesOf(multiline, level);
    Reassociate(IndentIf(multiline, level), [bracket], rest);
    SkipSpacesPast(IndentIf(multiline, level), [bracket] + rest);
  }

  /** Behind one element: the comma and the next element, or the closing bracket. */
  lemma BehindElement(last: bool, pretty: bool, more: bytes, bracket: byte, rest: bytes)
    requires last ==> Tail(more, bracket, rest)
    requires bracket == RBRACKET || bracket == RBRACE
    ensures var r := Separator(last, pretty) + more;
            && EndsNumber(r)
            && (last ==> SkipSpaces(r) == [bracket] + rest)
            && (!last ==> SkipSpaces(r) == r && r != [] && r[0] == COMMA && SkipSpaces(r[1..]) == SkipSpaces(more))
  {
    var r := Separator(last, pretty) + more;
    SpacesOf(pretty, 0);
    SkipSpacesPast(NewlineIf(pretty), more);
    if last {
      assert r == NewlineIf(pretty) + more;
    } else {
      assert r == [COMMA] + (NewlineIf(pretty) + more);
      assert r[1..] == NewlineIf(pretty) + more;
    }
  }

  /** An element in front of more text: the indentation is skipped, the element's text is next. */
  lemma ElementNext(indent: bytes, t: bytes, r: bytes)
    requires AllSpaces(indent) && StartsValue(t)
    ensures SkipSpaces(indent + t + r) == t + r
  {
    Reassociate(indent, t, r);
    SkipSpacesPast(indent, t + r);
    assert (t + r)[0] == t[0];
  }

  /** The text of the elements xs, cut into the first element and what stands behind it. */
  lemma ItemsSplit(xs: seq<Value>, level: nat, pretty: bool, tail: bytes)
    requires xs != []
    ensures var t := Text(xs[0], level + 1, pretty);
            var r := Separator(|xs| == 1, pretty) + (ItemsText(xs[1..], level, pretty) + tail);
            SkipSpaces(ItemsText(xs, level, pretty) + tail) == t + r && StartsValue(t + r)
  {
    var t := Text(xs[0], level + 1, pretty);
    var indent, sep := IndentIf(pretty, level + 1), Separator(|xs| == 1, pretty);
    var more := ItemsText(xs[1..], level, pretty);
    FourParts(indent, t, sep, more, tail);
    SpacesOf(pretty, level + 1);
    TextStartsValue(xs[0], level + 1, pretty);
    ElementNext(indent, t, sep + (more + tail));
    assert (t + (sep + (more + tail)))[0] == t[0];
  }

  lemma FourParts(indent: bytes, t: bytes, sep: bytes, more: bytes, tail: bytes)
    ensures indent + (t + sep) + more + tail == indent + t + (sep + (more + tail))
  {
  }

  /** One turn of the loop of the array parser, on an element that parses. */
  lemma ItemsTurn(s: bytes, nesting: nat, a: Items, v: Value, r: bytes)
    requires s != [] && ParsedValue(s, nesting) == Parsed(v, r) && Append(a, v).Some?
    ensures var b, u := Append(a, v).value, SkipSpaces(r);
            && (u != [] && u[0] == COMMA ==> ParsedItems(s, nesting, a) == ParsedItems(SkipSpaces(u[1..]), nesting, b))
            && (u != [] && u[0] == RBRACKET ==>
                  ParsedItems(s, nesting, a)
                  == Parsed(Array(Items(b.items, |b.items|)), u[1..]))
  {
  }

  /** What the loop makes of the elements xs when a holds those read so far. */
  function ItemsResult(xs: seq<Value>, a: Items, nesting: nat, rest: bytes): Parsed
  {
    if nesting + ItemsDepth(xs) <= MAX_NESTING
    then Parsed(Array(Items(a.items + ReparsedItems(xs), |a.items| + |xs|)), rest)
    else Failed
  }

  lemma ItemsResultStep(xs: seq<Value>, a: Items, nesting: nat, rest: bytes)
    requires xs != [] && nesting + 1 + Depth(xs[0]) <= MAX_NESTING && Append(a, Reparsed(xs[0])).Some?
    ensures var b := Append(a, Reparsed(xs[0])).value;
            ItemsResult(xs, a, nesting, rest) == ItemsResult(xs[1..], b, nesting, rest)
  {
    assert a.items + [Reparsed(xs[0])] + ReparsedItems(xs[1..])
           == a.items + ([Reparsed(xs[0])] + ReparsedItems(xs[1..]));
  }

  /** The next element of xs: its text, and what the parser finds behind it. */
  lemma NextItem(xs: seq<Value>, level: nat, pretty: bool, tail: bytes, rest: bytes) returns (r: bytes)
    requires xs != [] && Tail(tail, RBRACKET, rest)
    ensures SkipSpaces(ItemsText(xs, level, pretty) + tail) == Text(xs[0], level + 1, pretty) + r
    ensures Text(xs[0], level + 1, pretty) + r != [] && EndsNumber(r) && SkipSpaces(r) != []
    ensures |xs| == 1 ==> SkipSpaces(r)[0] == RBRACKET && SkipSpaces(r)[1..] == rest
    ensures |xs| != 1 ==> SkipSpaces(r)[0] == COMMA
                          && SkipSpaces(SkipSpaces(r)[1..]) == SkipSpaces(ItemsText(xs[1..], level, pretty) + tail)
  {
    var more := ItemsText(xs[1..], level, pretty) + tail;
    assert |xs| == 1 ==> more == tail;
    r := Separator(|xs| == 1, pretty) + more;
    ItemsSplit(xs, level, pretty, tail);
    BehindElement(|xs| == 1, pretty, more, RBRACKET, rest);
    assert ([RBRACKET] + rest)[1..] == rest;
  }

  lemma ItemsFail(s: bytes, xs: seq<Value>, a: Items, nesting: nat, rest: bytes)
    requires xs != [] && nesting + 1 + Depth(xs[0]) > MAX_NESTING && ParsedValue(s, nesting + 1) == Failed
    ensures ParsedItems(s, nesting + 1, a) == ItemsResult(xs, a, nesting, rest)
  {
  }

  lemma LastItem(xs: seq<Value>, b: Items, nesting: nat, rest: bytes)
    requires xs == [] && nesting <= MAX_NESTING
    ensures ItemsResult(xs, b, nesting, rest) == Parsed(Array(Items(b.items, |b.items|)), rest)
  {
    assert b.items + [] == b.items;
  }

  lemma {:induction false} ItemsBack(xs: seq<Value>, a: Items, level: nat, pretty: bool, nesting: nat, tail: bytes,
      rest: bytes)
    requires xs != [] && forall i | 0 <= i < |xs| :: Valid(xs[i])
    requires |a.items| <= a.capacity && Untrimmed(a.capacity, ARRAY_MAX_CAPACITY)
    requires |a.items| + |xs| <= ARRAY_MAX_CAPACITY
    requires Tail(tail, RBRACKET, rest)
    ensures ParsedItems(SkipSpaces(ItemsText(xs, level, pretty) + tail), nesting + 1, a)
            == ItemsResult(xs, a, nesting, rest)
    decreases xs, 0
  {
    hide *;
    var x := xs[0];
    var r := NextItem(xs, level, pretty, tail, rest);
    var s := Text(x, level + 1, pretty) + r;
    ValueBack(x, level + 1, pretty, nesting + 1, r);
    if nesting + 1 + Depth(x) > MAX_NESTING {
      ItemsFail(s, xs, a, nesting, rest);
    } else {
      AppendUntilFull(a, Reparsed(x));
      ItemsTurn(s, nesting + 1, a, Reparsed(x), r);
      ItemsResultStep(xs, a, nesting, rest);
      var b := Append(a, Reparsed(x)).value;
      if |xs| == 1 {
        LastItem(xs[1..], b, nesting, rest);
      } else {
        ItemsBack(xs[1..], b, level, pretty, nesting, tail, rest);
      }
    }
  }

  lemma ArrayBack(a: Items, level: nat, pretty: bool, nesting: nat, rest: bytes)
    requires Valid(Array(a)) && nesting <= MAX_NESTING
    ensures ParsedArray(Text(Array(a), level, pretty) + rest, nesting + 1)
            == ItemsResult(a.items, EMPTY_ARRAY, nesting, rest)
    decreases a, 1
  {
    var multiline := pretty && a.items != [];
    var items, tail := ItemsText(a.items, level, pretty), Close(RBRACKET, multiline, level) + rest;
    CloseIsTail(RBRACKET, multiline, level, rest);
    OpenBack(LBRACKET, multiline, items, Close(RBRACKET, multiline, level), rest);
    if a.items == [] {
      assert items + tail == tail;
      assert ([RBRACKET] + rest)[1..] == rest;
      LastItem(a.items, EMPTY_ARRAY, nesting, rest);
    } else {
      EmptyUntrimmed();
      ItemsSplit(a.items, level, pretty, tail);
      ItemsBack(a.items, EMPTY_ARRAY, level, pretty, nesting, tail, rest);
    }
  }

  /** Behind the opening bracket. */
  lemma OpenBack(bracket: byte, multiline: bool, inner: bytes, close: bytes, rest: bytes)
    ensures var u := Open(bracket, multiline) + (inner + close) + rest;
            u != [] && u[0] == bracket && SkipSpaces(u[1..]) == SkipSpaces(inner + (close + rest))
  {
    SpacesOf(multiline, 0);
    BehindFirst(bracket, NewlineIf(multiline), inner, close, rest);
    SkipSpacesPast(NewlineIf(multiline), inner + (close + rest));
  }

  lemma BehindFirst(c: byte, newline: bytes, inner: bytes, close: bytes, rest: bytes)
    ensures var u := [c] + newline + (inner + close) + rest;
            u != [] && u[0] == c && u[1..] == newline + (inner + (close + rest))
  {
    var u := [c] + newline + (inner + close) + rest;
    assert u == [c] + (newline + (inner + (close + rest)));
  }

  // ------------------------------------------------------------------ objects

  lemma MembersSplit(xs: seq<Member>, level: nat, pretty: bool, tail: bytes)
    requires xs != []
    ensures var t := KeyText(xs[0].name, pretty) + Text(xs[0].value, level + 1, pretty);
            var r := Separator(|xs| == 1, pretty) + (MembersText(xs[1..], level, pretty) + tail);
            SkipSpaces(MembersText(xs, level, pretty) + tail) == t + r && StartsValue(t + r)
  {
    var k, t := KeyText(xs[0].name, pretty), Text(xs[0].value, level + 1, pretty);
    var indent, sep := IndentIf(pretty, level + 1), Separator(|xs| == 1, pretty);
    var more := MembersText(xs[1..], level, pretty);
    Reassociate(k, t, sep);
    FourParts(indent, k + t, sep, more, tail);
    SpacesOf(pretty, level + 1);
    assert (k + t)[0] == QUOTE;
    ElementNext(indent, k + t, sep + (more + tail));
    assert (k + t + (sep + (more + tail)))[0] == QUOTE;
  }

  /** A key is read back with its colon; the space of pretty text stays in front of the value. */
  lemma KeyBack(name: bytes, pretty: bool, rest: bytes)
    requires NulFree(name)
    ensures ParsedKey(KeyText(name, pretty) + rest) == Quoted(name, (if pretty then [SPACE] else []) + rest)
  {
    hide StringText, QuotedString;
    var space := if pretty then [SPACE] else [];
    var colon := (if pretty then [COLON, SPACE] else [COLON]) + rest;
    assert KeyText(name, pretty) + rest == StringText(name) + colon;
    QuotedStringText(name, colon);
    assert SkipSpaces(colon) == colon;
    assert colon[1..] == space + rest;
  }

  lemma ParsedValuePastSpace(pretty: bool, s: bytes, nesting: nat)
    ensures ParsedValue((if pretty then [SPACE] else []) + s, nesting) == ParsedValue(s, nesting)
  {
    var space := if pretty then [SPACE] else [];
    SkipSpacesPast(space, s);
  }

  /** The key and the value of a member in front of more text. */
  lemma MemberHead(name: bytes, pretty: bool, t: bytes, r: bytes, nesting: nat)
    requires NulFree(name)
    ensures ParsedKey(KeyText(name, pretty) + t + r) == Quoted(name, (if pretty then [SPACE] else []) + (t + r))
    ensures ParsedValue((if pretty then [SPACE] else []) + (t + r), nesting) == ParsedValue(t + r, nesting)
  {
    Reassociate(KeyText(name, pretty), t, r);
    KeyBack(name, pretty, t + r);
    ParsedValuePastSpace(pretty, t + r, nesting);
  }

  lemma MembersTurn(s: bytes, nesting: nat, o: Members, key: bytes, s1: bytes, v: Value, r: bytes)
    requires ParsedKey(s) == Quoted(key, s1) && ParsedValue(s1, nesting) == Parsed(v, r) && Add(o, key, v).Some?
    ensures var p, u := Add(o, key, v).value, SkipSpaces(r);
            && (u != [] && u[0] == COMMA ==>
                  ParsedMembers(s, nesting, o)
                  == ParsedMembers(SkipSpaces(u[1..]), nesting, p))
            && (u != [] && u[0] == RBRACE ==>
                  ParsedMembers(s, nesting, o)
                  == Parsed(Object(Members(p.members, |p.members|)), u[1..]))
  {
  }

  function MembersResult(xs: seq<Member>, o: Members, nesting: nat, rest: bytes): Parsed
  {
    if nesting + MembersDepth(xs) <= MAX_NESTING
    then Parsed(Object(Members(o.members + ReparsedMembers(xs), |o.members| + |xs|)), rest)
    else Failed
  }

  lemma MembersResultStep(xs: seq<Member>, o: Members, nesting: nat, rest: bytes)
    requires xs != [] && nesting + 1 + Depth(xs[0].value) <= MAX_NESTING
             && Add(o, xs[0].name, Reparsed(xs[0].value)).Some?
    ensures var p := Add(o, xs[0].name, Reparsed(xs[0].value)).value;
            MembersResult(xs, o, nesting, rest) == MembersResult(xs[1..], p, nesting, rest)
  {
    var m := Member(xs[0].name, Reparsed(xs[0].value));
    assert o.members + [m] + ReparsedMembers(xs[1..]) == o.members + ([m] + ReparsedMembers(xs[1..]));
  }

  /** No name among xs is held by o, and the names among xs differ. */
  ghost predicate NewNames(xs: seq<Member>, o: Members)
  {
    && DistinctNames(xs)
    && forall i, j | 0 <= i < |xs| && 0 <= j < |o.members| :: xs[i].name != o.members[j].name
  }

  lemma NewNamesStep(xs: seq<Member>, o: Members, v: Value)
    requires xs != [] && NewNames(xs, o)
    ensures Get(o.members, xs[0].name).None?
    ensures Add(o, xs[0].name, v).Some? ==> NewNames(xs[1..], Add(o, xs[0].name, v).value)
  {
    FindNone(o.members, xs[0].name);
    assert forall i | 0 <= i < |xs| - 1 :: xs[1..][i] == xs[i + 1];
  }

  /** The next member of xs: its key, its value, and what the parser finds behind it. */
  lemma NextMember(xs: seq<Member>, level: nat, pretty: bool, tail: bytes, rest: bytes, nesting: nat)
    returns (s: bytes, s1: bytes, r: bytes)
    requires xs != [] && Tail(tail, RBRACE, rest) && NulFree(xs[0].name)
    ensures SkipSpaces(MembersText(xs, level, pretty) + tail) == s
    ensures ParsedKey(s) == Quoted(xs[0].name, s1)
    ensures ParsedValue(s1, nesting) == ParsedValue(Text(xs[0].value, level + 1, pretty) + r, nesting)
    ensures EndsNumber(r) && SkipSpaces(r) != []
    ensures |xs| == 1 ==> SkipSpaces(r)[0] == RBRACE && SkipSpaces(r)[1..] == rest
    ensures |xs| != 1 ==> SkipSpaces(r)[0] == COMMA
                          && SkipSpaces(SkipSpaces(r)[1..]) == SkipSpaces(MembersText(xs[1..], level, pretty) + tail)
  {
    var more := MembersText(xs[1..], level, pretty) + tail;
    assert |xs| == 1 ==> more == tail;
    var t := Text(xs[0].value, level + 1, pretty);
    r := Separator(|xs| == 1, pretty) + more;
    s := KeyText(xs[0].name, pretty) + t + r;
    s1 := (if pretty then [SPACE] else []) + (t + r);
    MembersSplit(xs, level, pretty, tail);
    MemberHead(xs[0].name, pretty, t, r, nesting);
    BehindElement(|xs| == 1, pretty, more, RBRACE, rest);
    assert ([RBRACE] + rest)[1..] == rest;
  }

  lemma MembersFail(s: bytes, s1: bytes, xs: seq<Member>, o: Members, nesting: nat, rest: bytes)
    requires xs != [] && nesting + 1 + Depth(xs[0].value) > MAX_NESTING
    requires ParsedKey(s) == Quoted(xs[0].name, s1) && ParsedValue(s1, nesting + 1) == Failed
    ensures ParsedMembers(s, nesting + 1, o) == MembersResult(xs, o, nesting, rest)
  {
  }

  lemma LastMember(xs: seq<Member>, p: Members, nesting: nat, rest: bytes)
    requires xs == [] && nesting <= MAX_NESTING
    ensures MembersResult(xs, p, nesting, rest) == Parsed(Object(Members(p.members, |p.members|)), rest)
  {
    assert p.members + [] == p.members;
  }

  /** The members xs are still to come and o, which has only ever grown, has room for them. */
  ghost predicate Pending(xs: seq<Member>, o: Members)
  {
    && |o.members| <= o.capacity && Untrimmed(o.capacity, OBJECT_MAX_CAPACITY)
    && |o.members| + |xs| <= OBJECT_MAX_CAPACITY && NewNames(xs, o)
  }

  lemma PendingStep(xs: seq<Member>, o: Members, v: Value) returns (p: Members)
    requires xs != [] && Pending(xs, o)
    ensures Add(o, xs[0].name, v) == Some(p) && Pending(xs[1..], p)
  {
    NewNamesStep(xs, o, v);
    AddUntilFull(o, xs[0].name, v);
    p := Add(o, xs[0].name, v).value;
  }

  lemma MembersGoOn(xs: seq<Member>, o: Members, p: Members, s: bytes, s1: bytes, r: bytes, nesting: nat, rest: bytes)
    requires xs != [] && nesting + 1 + Depth(xs[0].value) <= MAX_NESTING
    requires Add(o, xs[0].name, Reparsed(xs[0].value)) == Some(p)
    requires ParsedKey(s) == Quoted(xs[0].name, s1) && ParsedValue(s1, nesting + 1) == Parsed(Reparsed(xs[0].value), r)
    requires SkipSpaces(r) != []
    ensures |xs| == 1 && SkipSpaces(r)[0] == RBRACE && SkipSpaces(r)[1..] == rest ==>
              ParsedMembers(s, nesting + 1, o) == MembersResult(xs, o, nesting, rest)
    ensures |xs| > 1 && SkipSpaces(r)[0] == COMMA ==>
              && ParsedMembers(s, nesting + 1, o) == ParsedMembers(SkipSpaces(SkipSpaces(r)[1..]), nesting + 1, p)
              && MembersResult(xs, o, nesting, rest) == MembersResult(xs[1..], p, nesting, rest)
  {
    MembersTurn(s, nesting + 1, o, xs[0].name, s1, Reparsed(xs[0].value), r);
    MembersResultStep(xs, o, nesting, rest);
    if |xs| == 1 {
      LastMember(xs[1..], p, nesting, rest);
    }
  }

  lemma {:induction false} MembersBack(xs: seq<Member>, o: Members, level: nat, pretty: bool, nesting: nat,
      tail: bytes, rest: bytes)
    requires xs != [] && forall i | 0 <= i < |xs| :: NulFree(xs[i].name) && Valid(xs[i].value)
    requires Pending(xs, o) && Tail(tail, RBRACE, rest)
    ensures ParsedMembers(SkipSpaces(MembersText(xs, level, pretty) + tail), nesting + 1, o)
            == MembersResult(xs, o, nesting, rest)
    decreases xs, 0
  {
    hide *;
    var v := xs[0].value;
    var s, s1, r := NextMember(xs, level, pretty, tail, rest, nesting + 1);
    ValueBack(v, level + 1, pretty, nesting + 1, r);
    if nesting + 1 + Depth(v) > MAX_NESTING {
      MembersFail(s, s1, xs, o, nesting, rest);
    } else {
      var p := PendingStep(xs, o, Reparsed(v));
      MembersGoOn(xs, o, p, s, s1, r, nesting, rest);
      if |xs| > 1 {
        MembersBack(xs[1..], p, level, pretty, nesting, tail, rest);
      }
    }
  }

  lemma ObjectBack(o: Members, level: nat, pretty: bool, nesting: nat, rest: bytes)
    requires Valid(Object(o)) && nesting <= MAX_NESTING
    ensures ParsedObject(Text(Object(o), level, pretty) + rest, nesting + 1)
            == MembersResult(o.members, EMPTY_OBJECT, nesting, rest)
    decreases o, 1
  {
    var multiline := pretty && o.members != [];
    var members, tail := MembersText(o.members, level, pretty), Close(RBRACE, multiline, level) + rest;
    CloseIsTail(RBRACE, multiline, level, rest);
    OpenBack(LBRACE, multiline, members, Close(RBRACE, multiline, level), rest);
    if o.members == [] {
      assert members + tail == tail;
      assert ([RBRACE] + rest)[1..] == rest;
      LastMember(o.members, EMPTY_OBJECT, nesting, rest);
    } else {
      EmptyUntrimmed();
      MembersSplit(o.members, level, pretty, tail);
      MembersBack(o.members, EMPTY_OBJECT, level, pretty, nesting, tail, rest);
    }
  }

  // ------------------------------------------------------------------ the round trip

  lemma TooDeep(s: bytes, nesting: nat)
    requires nesting > MAX_NESTING
    ensures ParsedValue(s, nesting) == Failed
  {
  }

  lemma ArrayHead(a: Items, level: nat, pretty: bool, nesting: nat, rest: bytes)
    requires nesting <= MAX_NESTING
    ensures var u := Text(Array(a), level, pretty) + rest; ParsedValue(u, nesting) == ParsedArray(u, nesting + 1)
  {
    var u := Text(Array(a), level, pretty) + rest;
    assert u[0] == LBRACKET && SkipSpaces(u) == u;
  }

  lemma ObjectHead(o: Members, level: nat, pretty: bool, nesting: nat, rest: bytes)
    requires nesting <= MAX_NESTING
    ensures var u := Text(Object(o), level, pretty) + rest; ParsedValue(u, nesting) == ParsedObject(u, nesting + 1)
  {
    var u := Text(Object(o), level, pretty) + rest;
    assert u[0] == LBRACE && SkipSpaces(u) == u;
  }

  lemma FromNoItems(a: Items, nesting: nat, rest: bytes)
    ensures ItemsResult(a.items, EMPTY_ARRAY, nesting, rest)
         == if nesting + Depth(Array(a)) <= MAX_NESTING then Parsed(Reparsed(Array(a)), rest) else Failed
  {
    assert [] + ReparsedItems(a.items) == ReparsedItems(a.items);
  }

  lemma FromNoMembers(o: Members, nesting: nat, rest: bytes)
    ensures MembersResult(o.members, EMPTY_OBJECT, nesting, rest)
         == if nesting + Depth(Object(o)) <= MAX_NESTING then Parsed(Reparsed(Object(o)), rest) else Failed
  {
    assert [] + ReparsedMembers(o.members) == ReparsedMembers(o.members);
  }

  /**
   Exactly what parsing makes of a serialised value, compact or pretty and at any point of a
   text: the value with members in order, its numbers as printed and its storage trimmed, and
   the cursor at the end of the value; or failure, exactly when it is nested too deeply.
   */
  lemma {:induction false} ValueBack(v: Value, level: nat, pretty: bool, nesting: nat, rest: bytes)
    requires Valid(v) && EndsNumber(rest)
    ensures ParsedValue(Text(v, level, pretty) + rest, nesting)
            == if nesting + Depth(v) <= MAX_NESTING then Parsed(Reparsed(v), rest) else Failed
    decreases v, 2
  {
    if nesting > MAX_NESTING {
      TooDeep(Text(v, level, pretty) + rest, nesting);
    } else {
      match v
      case Array(a) =>
        ArrayHead(a, level, pretty, nesting, rest);
        ArrayBack(a, level, pretty, nesting, rest);
        FromNoItems(a, nesting, rest);
      case Object(o) =>
        ObjectHead(o, level, pretty, nesting, rest);
        ObjectBack(o, level, pretty, nesting, rest);
        FromNoMembers(o, nesting, rest);
      case _ => ScalarBack(v, level, pretty, nesting, rest);
    }
  }

  /** Every number in v is a whole number of millionths. */
  ghost predicate ExactNumbers(v: Value)
  {
    match v
    case Number(x) => IsInteger(x * 1000000.0)
    case Array(a) => forall i | 0 <= i < |a.items| :: ExactNumbers(a.items[i])
    case Object(o) => forall i | 0 <= i < |o.members| :: ExactNumbers(o.members[i].value)
    case _ => true
  }

  /** The same tree, with the same order of members and elements, whatever the capacities. */
  ghost predicate SameTree(v: Value, w: Value)
    decreases v
  {
    match v
    case Array(a) =>
      && w.Array? && |w.arr.items| == |a.items|
      && forall i | 0 <= i < |a.items| :: SameTree(a.items[i], w.arr.items[i])
    case Object(o) =>
      && w.Object? && |w.obj.members| == |o.members|
      && forall i | 0 <= i < |o.members| :: o.members[i].name == w.obj.members[i].name
          && SameTree(o.members[i].value, w.obj.members[i].value)
    case _ => w == v
  }

  /** Reading back restores a value exactly when its numbers are whole numbers of millionths. */
  lemma {:induction false} ReparsedIsSame(v: Value)
    ensures SameTree(v, Reparsed(v)) <==> ExactNumbers(v)
  {
    match v
    case Number(x) => PrintedExactly(x);
    case Array(a) =>
      forall i | 0 <= i < |a.items| ensures ReparsedItems(a.items)[i] == Reparsed(a.items[i])
          && (SameTree(a.items[i], Reparsed(a.items[i])) <==> ExactNumbers(a.items[i])) {
        ReparsedItemAt(a.items, i);
        ReparsedIsSame(a.items[i]);
      }
    case Object(o) =>
      forall i | 0 <= i < |o.members|
        ensures ReparsedMembers(o.members)[i] == Member(o.members[i].name, Reparsed(o.members[i].value))
                && (SameTree(o.members[i].value, Reparsed(o.members[i].value)) <==> ExactNumbers(o.members[i].value))
      {
        ReparsedMemberAt(o.members, i);
        ReparsedIsSame(o.members[i].value);
      }
    case _ =>
  }

  lemma {:induction false} ReparsedItemAt(items: seq<Value>, i: nat)
    requires i < |items|
    ensures ReparsedItems(items)[i] == Reparsed(items[i])
  {
    if i > 0 {
      ReparsedItemAt(items[1..], i - 1);
    }
  }

  lemma {:induction false} ReparsedMemberAt(ms: seq<Member>, i: nat)
    requires i < |ms|
    ensures ReparsedMembers(ms)[i] == Member(ms[i].name, Reparsed(ms[i].value))
  {
    if i > 0 {
      ReparsedMemberAt(ms[1..], i - 1);
    }
  }

  /** json_parse_string: the root is parsed at nesting 0, and what follows it is not looked at. */
  function ParsedString(s: bytes): Option<Value>
  {
    var r := ParsedValue(s, 0);
    if r.Parsed? then Some(r.v) else None
  }

  /**
   Serialising and parsing is the identity on trees exactly for the values nested at most 19
   deep whose numbers are whole numbers of millionths.
   */
  lemma RoundTrip(v: Value, pretty: bool)
    requires Valid(v)
    ensures ParsedString(Text(v, 0, pretty)) == if Depth(v) <= MAX_NESTING then Some(Reparsed(v)) else None
    ensures (ParsedString(Text(v, 0, pretty)).Some? && SameTree(v, ParsedString(Text(v, 0, pretty)).value))
            <==> Depth(v) <= MAX_NESTING && ExactNumbers(v)
  {
    var t := Text(v, 0, pretty);
    assert t + [] == t;
    ValueBack(v, 0, pretty, 0, []);
    ReparsedIsSame(v);
  }
}
