/**
 The two-pass serialiser: one routine that measures when it is given no buffer and writes
 when it is given one.
 */
module JsonSerializer {
  import opened Bytes
  import opened JsonNumber
  import opened JsonString
  import opened JsonValue

  const NULL_TOKEN: bytes := [110, 117, 108, 108]
  const TRUE_TOKEN: bytes := [116, 114, 117, 101]
  const FALSE_TOKEN: bytes := [102, 97, 108, 115, 101]

  // ------------------------------------------------------------------ the text of a value

  function Indent(level: nat): (r: bytes)
    ensures AllSpaces(r)
  {
    if level == 0 then [] else [SPACE, SPACE, SPACE, SPACE] + Indent(level - 1)
  }

  function IndentIf(pretty: bool, level: nat): bytes { if pretty then Indent(level) else [] }

  function NewlineIf(b: bool): bytes { if b then [NEWLINE] else [] }

  /** An opening bracket and, before the first element of pretty text, a newline. */
  function Open(bracket: byte, multiline: bool): bytes { [bracket] + NewlineIf(multiline) }

  function Close(bracket: byte, multiline: bool, level: nat): bytes { IndentIf(multiline, level) + [bracket] }

  /** What follows an element: a comma unless it is the last one, and a newline in pretty text. */
  function Separator(last: bool, pretty: bool): bytes { (if last then [] else [COMMA]) + NewlineIf(pretty) }

  /** The key, the colon and, in pretty text, a space. */
  function KeyText(name: bytes, pretty: bool): bytes
  {
    StringText(name) + (if pretty then [COLON, SPACE] else [COLON])
  }

  function Text(v: Value, level: nat, pretty: bool): bytes
    decreases v, 1
  {
    match v
    case Null => NULL_TOKEN
    case Bool(b) => if b then TRUE_TOKEN else FALSE_TOKEN
    case Number(x) => NumberText(x)
    case String(s) => StringText(s)
    case Array(a) =>
      Open(LBRACKET, pretty && a.items != [])
      + (ItemsText(a.items, level, pretty) + Close(RBRACKET, pretty && a.items != [], level))
    case Object(o) =>
      Open(LBRACE, pretty && o.members != [])
      + (MembersText(o.members, level, pretty) + Close(RBRACE, pretty && o.members != [], level))
  }

  function ItemText(v: Value, last: bool, level: nat, pretty: bool): bytes
    decreases v, 2
  {
    IndentIf(pretty, level + 1) + (Text(v, level + 1, pretty) + Separator(last, pretty))
  }

  function ItemsText(items: seq<Value>, level: nat, pretty: bool): bytes
    decreases items, 0
  {
    if items == [] then []
    else ItemText(items[0], |items| == 1, level, pretty) + ItemsText(items[1..], level, pretty)
  }

  function MemberText(m: Member, last: bool, level: nat, pretty: bool): bytes
    decreases m, 2
  {
    IndentIf(pretty, level + 1)
    + (KeyText(m.name, pretty) + (Text(m.value, level + 1, pretty) + Separator(last, pretty)))
  }

  function MembersText(ms: seq<Member>, level: nat, pretty: bool): bytes
    decreases ms, 0
  {
    if ms == [] then []
    else MemberText(ms[0], |ms| == 1, level, pretty) + MembersText(ms[1..], level, pretty)
  }

  // ------------------------------------------------------------------ writing into a buffer

  /** The text t now stands at off; one byte behind it may have changed and no other byte has. */
  ghost predicate Wrote(before: bytes, after: bytes, off: nat, t: bytes)
  {
    && |after| == |before| && off + |t| < |before|
    && (forall i | 0 <= i < off :: after[i] == before[i])
    && (forall i | 0 <= i < |t| :: after[off + i] == t[i])
    && (forall i | off + |t| < i < |before| :: after[i] == before[i])
  }

  lemma WroteThen(a: bytes, b: bytes, c: bytes, off: nat, t: bytes, u: bytes)
    requires Wrote(a, b, off, t) && Wrote(b, c, off + |t|, u)
    ensures Wrote(a, c, off, t + u)
  {
    forall i | 0 <= i < |t + u| ensures c[off + i] == (t + u)[i] {
      if i < |t| {
        assert c[off + i] == b[off + i];
      } else {
        assert c[off + i] == c[off + |t| + (i - |t|)];
      }
    }
  }

  /** The contents of a buffer that may be absent. */
  ghost function Contents(buf: array?<byte>): bytes
    reads buf
  {
    if buf == null then [] else buf[..]
  }

  /** What a pass has done so far: counted the text and, if there is a buffer, stored it. */
  ghost predicate Emitted(before: bytes, buf: array?<byte>, off: nat, t: bytes)
    reads buf
  {
    buf != null ==> Wrote(before, buf[..], off, t)
  }

  /** append_string: strlen without a buffer, sprintf with one. */
  method AppendString(buf: array?<byte>, off: nat, s: bytes) returns (written: nat)
    requires buf != null ==> off + |s| < buf.Length
    modifies buf
    ensures written == |s|
    ensures Emitted(old(Contents(buf)), buf, off, s)
    ensures buf != null ==> buf[off + |s|] == NUL
  {
    if buf != null {
      for k := 0 to |s|
        invariant forall i | 0 <= i < off :: buf[i] == old(buf[i])
        invariant forall i | 0 <= i < k :: buf[off + i] == s[i]
        invariant forall i | off + k <= i < buf.Length :: buf[i] == old(buf[i])
      {
        buf[off + k] := s[k];
      }
      buf[off + |s|] := NUL;
    }
    return |s|;
  }

  /** APPEND_STRING behind what has been written since off. */
  method Emit(buf: array?<byte>, off: nat, total: nat, s: bytes, ghost before: bytes, ghost done: bytes)
    returns (sum: nat)
    requires total == |done| && Emitted(before, buf, off, done)
    requires buf != null ==> off + |done| + |s| < buf.Length
    modifies buf
    ensures sum == |done + s| && Emitted(before, buf, off, done + s)
    ensures buf != null ==> buf[off + |done + s|] == NUL
  {
    ghost var middle := Contents(buf);
    var written := AppendString(buf, off + total, s);
    if buf != null {
      WroteThen(before, middle, buf[..], off, done, s);
    }
    return total + written;
  }

  /** append_indent */
  method EmitIndent(buf: array?<byte>, off: nat, total: nat, level: nat, ghost before: bytes, ghost done: bytes)
    returns (sum: nat)
    requires total == |done| && Emitted(before, buf, off, done)
    requires buf != null ==> off + |done| + |Indent(level)| < buf.Length
    modifies buf
    ensures sum == |done + Indent(level)| && Emitted(before, buf, off, done + Indent(level))
  {
    sum := total;
    ghost var soFar := done;
    assert done + Indent(level) == soFar + Indent(level);
    for i := 0 to level
      invariant sum == |soFar| && Emitted(before, buf, off, soFar)
      invariant done + Indent(level) == soFar + Indent(level - i)
    {
      ghost var four := [SPACE, SPACE, SPACE, SPACE];
      assert soFar + Indent(level - i) == soFar + four + Indent(level - i - 1);
      sum := Emit(buf, off, sum, [SPACE, SPACE, SPACE, SPACE], before, soFar);
      soFar := soFar + four;
    }
    assert soFar + Indent(0) == soFar;
  }

  /** A plain character is stored without a terminator behind it. */
  method EmitChar(buf: array?<byte>, off: nat, total: nat, c: byte, ghost before: bytes, ghost done: bytes)
    returns (sum: nat)
    requires total == |done| && Emitted(before, buf, off, done)
    requires buf != null ==> off + |done| + 1 < buf.Length
    modifies buf
    ensures sum == |done + [c]| && Emitted(before, buf, off, done + [c])
  {
    if buf != null {
      ghost var middle := buf[..];
      buf[off + total] := c;
      assert Wrote(middle, buf[..], off + |done|, [c]);
      WroteThen(before, middle, buf[..], off, done, [c]);
    }
    return total + 1;
  }

  /** json_serialize_string */
  method SerializeString(s: bytes, buf: array?<byte>, off: nat, total: nat, ghost before: bytes, ghost done: bytes)
    returns (sum: nat)
    requires total == |done| && Emitted(before, buf, off, done)
    requires buf != null ==> off + |done| + |StringText(s)| < buf.Length
    modifies buf
    ensures sum == |done + StringText(s)| && Emitted(before, buf, off, done + StringText(s))
    ensures buf != null ==> buf[off + |done + StringText(s)|] == NUL
  {
    ghost var t1, t2 := done + [QUOTE], done + [QUOTE] + EscapeBytes(s);
    assert done + StringText(s) == t2 + [QUOTE];
    sum := Emit(buf, off, total, [QUOTE], before, done);
    sum := EmitEscaped(s, buf, off, sum, before, t1);
    sum := Emit(buf, off, sum, [QUOTE], before, t2);
  }

  /** The loop of json_serialize_string. */
  method EmitEscaped(s: bytes, buf: array?<byte>, off: nat, total: nat, ghost before: bytes, ghost done: bytes)
    returns (sum: nat)
    requires total == |done| && Emitted(before, buf, off, done)
    requires buf != null ==> off + |done| + |EscapeBytes(s)| < buf.Length
    modifies buf
    ensures sum == |done + EscapeBytes(s)| && Emitted(before, buf, off, done + EscapeBytes(s))
  {
    sum := total;
    ghost var all, soFar := done + EscapeBytes(s), done;
    assert s[0..] == s;
    for i := 0 to |s|
      invariant sum == |soFar| && Emitted(before, buf, off, soFar)
      invariant all == soFar + EscapeBytes(s[i..])
    {
      EscapeBytesAt(s, i);
      Regroup(soFar, EscapeByte(s[i]), EscapeBytes(s[i + 1..]));
      sum := EmitByte(s[i], buf, off, sum, before, soFar);
      soFar := soFar + EscapeByte(s[i]);
    }
    assert soFar + [] == soFar;
  }

  lemma EscapeBytesAt(s: bytes, i: nat)
    requires i < |s|
    ensures EscapeBytes(s[i..]) == EscapeByte(s[i]) + EscapeBytes(s[i + 1..])
  {
    assert s[i..][1..] == s[i + 1..];
  }

  method EmitByte(c: byte, buf: array?<byte>, off: nat, total: nat, ghost before: bytes, ghost done: bytes)
    returns (sum: nat)
    requires total == |done| && Emitted(before, buf, off, done)
    requires buf != null ==> off + |done| + |EscapeByte(c)| < buf.Length
    modifies buf
    ensures sum == |done + EscapeByte(c)| && Emitted(before, buf, off, done + EscapeByte(c))
  {
    var e := EscapeByte(c);
    if |e| > 1 {
      sum := Emit(buf, off, total, e, before, done);
    } else {
      sum := EmitChar(buf, off, total, c, before, done);
    }
  }

  lemma ItemsTextAt(items: seq<Value>, i: nat, level: nat, pretty: bool)
    requires i < |items|
    ensures ItemsText(items[i..], level, pretty)
            == ItemText(items[i], i == |items| - 1, level, pretty) + ItemsText(items[i + 1..], level, pretty)
  {
    assert items[i..][1..] == items[i + 1..];
  }

  lemma MembersTextAt(ms: seq<Member>, i: nat, level: nat, pretty: bool)
    requires i < |ms|
    ensures MembersText(ms[i..], level, pretty)
            == MemberText(ms[i], i == |ms| - 1, level, pretty) + MembersText(ms[i + 1..], level, pretty)
  {
    assert ms[i..][1..] == ms[i + 1..];
  }

  lemma Regroup(a: bytes, b: bytes, c: bytes)
    ensures a + (b + c) == a + b + c
  {
  }

  method EmitIf(cond: bool, buf: array?<byte>, off: nat, total: nat, s: bytes, ghost before: bytes, ghost done: bytes)
    returns (sum: nat)
    requires total == |done| && Emitted(before, buf, off, done)
    requires buf != null && cond ==> off + |done| + |s| < buf.Length
    modifies buf
    ensures sum == |done + if cond then s else []| && Emitted(before, buf, off, done + if cond then s else [])
  {
    if cond {
      sum := Emit(buf, off, total, s, before, done);
    } else {
      assert done + [] == done;
      sum := total;
    }
  }

  method EmitIndentIf(cond: bool, buf: array?<byte>, off: nat, total: nat, level: nat, ghost before: bytes,
      ghost done: bytes)
    returns (sum: nat)
    requires total == |done| && Emitted(before, buf, off, done)
    requires buf != null ==> off + |done| + |IndentIf(cond, level)| < buf.Length
    modifies buf
    ensures sum == |done + IndentIf(cond, level)| && Emitted(before, buf, off, done + IndentIf(cond, level))
  {
    if cond {
      sum := EmitIndent(buf, off, total, level, before, done);
    } else {
      assert done + [] == done;
      sum := total;
    }
  }

  method EmitSeparator(last: bool, pretty: bool, buf: array?<byte>, off: nat, total: nat, ghost before: bytes,
      ghost done: bytes)
    returns (sum: nat)
    requires total == |done| && Emitted(before, buf, off, done)
    requires buf != null ==> off + |done| + |Separator(last, pretty)| < buf.Length
    modifies buf
    ensures sum == |done + Separator(last, pretty)| && Emitted(before, buf, off, done + Separator(last, pretty))
  {
    ghost var comma := if last then [] else [COMMA];
    Regroup(done, comma, NewlineIf(pretty));
    sum := EmitIf(!last, buf, off, total, if last then [] else [COMMA], before, done);
    sum := EmitIf(pretty, buf, off, sum, NewlineIf(pretty), before, done + comma);
  }

  method EmitOpen(bracket: byte, multiline: bool, buf: array?<byte>, off: nat, total: nat, ghost before: bytes,
      ghost done: bytes)
    returns (sum: nat)
    requires total == |done| && Emitted(before, buf, off, done)
    requires buf != null ==> off + |done| + |Open(bracket, multiline)| < buf.Length
    modifies buf
    ensures sum == |done + Open(bracket, multiline)| && Emitted(before, buf, off, done + Open(bracket, multiline))
  {
    Regroup(done, [bracket], NewlineIf(multiline));
    sum := Emit(buf, off, total, [bracket], before, done);
    sum := EmitIf(multiline, buf, off, sum, NewlineIf(multiline), before, done + [bracket]);
  }

  method EmitClose(bracket: byte, multiline: bool, buf: array?<byte>, off: nat, total: nat, level: nat,
                   ghost before: bytes, ghost done: bytes)
    returns (sum: nat)
    requires total == |done| && Emitted(before, buf, off, done)
    requires buf != null ==> off + |done| + |Close(bracket, multiline, level)| < buf.Length
    modifies buf
    ensures sum == |done + Close(bracket, multiline, level)|
    ensures Emitted(before, buf, off, done + Close(bracket, multiline, level))
    ensures buf != null ==> buf[off + |done + Close(bracket, multiline, level)|] == NUL
  {
    Regroup(done, IndentIf(multiline, level), [bracket]);
    sum := EmitIndentIf(multiline, buf, off, total, level, before, done);
    sum := Emit(buf, off, sum, [bracket], before, done + IndentIf(multiline, level));
  }

  method EmitKey(name: bytes, pretty: bool, buf: array?<byte>, off: nat, total: nat, ghost before: bytes,
      ghost done: bytes)
    returns (sum: nat)
    requires total == |done| && Emitted(before, buf, off, done)
    requires buf != null ==> off + |done| + |KeyText(name, pretty)| < buf.Length
    modifies buf
    ensures sum == |done + KeyText(name, pretty)| && Emitted(before, buf, off, done + KeyText(name, pretty))
  {
    ghost var d := done + StringText(name);
    sum := SerializeString(name, buf, off, total, before, done);
    sum := Emit(buf, off, sum, [COLON], before, d);
    sum := EmitIf(pretty, buf, off, sum, [SPACE], before, d + [COLON]);
    assert d + [COLON] + (if pretty then [SPACE] else []) == done + KeyText(name, pretty);
  }

  /** One element of an array: indent, value, comma, newline. */
  method SerializeItem(v: Value, last: bool, buf: array?<byte>, off: nat, total: nat, level: nat, pretty: bool,
                       ghost before: bytes, ghost done: bytes)
    returns (sum: nat)
    requires Valid(v)
    requires total == |done| && Emitted(before, buf, off, done)
    requires buf != null ==> off + |done| + |ItemText(v, last, level, pretty)| < buf.Length
    modifies buf
    ensures sum == |done + ItemText(v, last, level, pretty)|
    ensures Emitted(before, buf, off, done + ItemText(v, last, level, pretty))
    decreases v, 2
  {
    ghost var t1, t2 := IndentIf(pretty, level + 1), Text(v, level + 1, pretty);
    Regroup(t1, t2, Separator(last, pretty));
    Regroup(done, t1 + t2, Separator(last, pretty));
    Regroup(done, t1, t2);
    sum := EmitIndentIf(pretty, buf, off, total, level + 1, before, done);
    sum := SerializeR(v, buf, off, sum, level + 1, pretty, before, done + t1);
    sum := EmitSeparator(last, pretty, buf, off, sum, before, done + t1 + t2);
  }

  /** The array case of json_serialize_to_buffer_r. */
  method SerializeArray(a: Items, buf: array?<byte>, off: nat, total: nat, level: nat, pretty: bool,
                        ghost before: bytes, ghost done: bytes)
    returns (sum: nat)
    requires forall i | 0 <= i < |a.items| :: Valid(a.items[i])
    requires total == |done| && Emitted(before, buf, off, done)
    requires buf != null ==> off + |done| + |Text(Array(a), level, pretty)| < buf.Length
    modifies buf
    ensures sum == |done + Text(Array(a), level, pretty)|
    ensures Emitted(before, buf, off, done + Text(Array(a), level, pretty))
    ensures buf != null ==> buf[off + |done + Text(Array(a), level, pretty)|] == NUL
    decreases a, 1
  {
    var count := |a.items|;
    ghost var open := Open(LBRACKET, pretty && a.items != []);
    ghost var items := ItemsText(a.items, level, pretty);
    ghost var close := Close(RBRACKET, pretty && a.items != [], level);
    Regroup(done, open, items + close);
    Regroup(done + open, items, close);
    sum := EmitOpen(LBRACKET, count > 0 && pretty, buf, off, total, before, done);
    sum := SerializeItems(a, buf, off, sum, level, pretty, before, done + open);
    sum := EmitClose(RBRACKET, count > 0 && pretty, buf, off, sum, level, before, done + open + items);
  }

  /** The loop over the elements. */
  method SerializeItems(a: Items, buf: array?<byte>, off: nat, total: nat, level: nat, pretty: bool,
                        ghost before: bytes, ghost done: bytes)
    returns (sum: nat)
    requires forall i | 0 <= i < |a.items| :: Valid(a.items[i])
    requires total == |done| && Emitted(before, buf, off, done)
    requires buf != null ==> off + |done| + |ItemsText(a.items, level, pretty)| < buf.Length
    modifies buf
    ensures sum == |done + ItemsText(a.items, level, pretty)|
    ensures Emitted(before, buf, off, done + ItemsText(a.items, level, pretty))
    decreases a, 0
  {
    var count := |a.items|;
    sum := total;
    ghost var all, soFar := done + ItemsText(a.items, level, pretty), done;
    assert a.items[0..] == a.items;
    for i := 0 to count
      invariant sum == |soFar| && Emitted(before, buf, off, soFar)
      invariant all == soFar + ItemsText(a.items[i..], level, pretty)
    {
      ghost var item := ItemText(a.items[i], i == count - 1, level, pretty);
      ItemsTextAt(a.items, i, level, pretty);
      Regroup(soFar, item, ItemsText(a.items[i + 1..], level, pretty));
      sum := SerializeItem(a.items[i], i == count - 1, buf, off, sum, level, pretty, before, soFar);
      soFar := soFar + item;
    }
    assert soFar + [] == soFar;
  }

  /** One member of an object: the value is looked up by its key. */
  method SerializeMember(o: Members, i: nat, buf: array?<byte>, off: nat, total: nat, level: nat, pretty: bool,
                         ghost before: bytes, ghost done: bytes)
    returns (sum: nat)
    requires i < |o.members| && DistinctNames(o.members) && Valid(o.members[i].value)
    requires total == |done| && Emitted(before, buf, off, done)
    requires buf != null ==> off + |done| + |MemberText(o.members[i], i == |o.members| - 1, level, pretty)| < buf.Length
    modifies buf
    ensures sum == |done + MemberText(o.members[i], i == |o.members| - 1, level, pretty)|
    ensures Emitted(before, buf, off, done + MemberText(o.members[i], i == |o.members| - 1, level, pretty))
    decreases o, 0
  {
    var last, key := i == |o.members| - 1, o.members[i].name;
    ghost var t1, t2 := IndentIf(pretty, level + 1), KeyText(key, pretty);
    ghost var t3, t4 := Text(o.members[i].value, level + 1, pretty), Separator(last, pretty);
    Regroup(done, t1, t2 + (t3 + t4));
    Regroup(done + t1, t2, t3 + t4);
    Regroup(done + t1 + t2, t3, t4);
    sum := EmitIndentIf(pretty, buf, off, total, level + 1, before, done);
    sum := EmitKey(key, pretty, buf, off, sum, before, done + t1);
    FindDistinct(o.members, i);
    sum := SerializeR(Get(o.members, key).value, buf, off, sum, level + 1, pretty, before, done + t1 + t2);
    sum := EmitSeparator(last, pretty, buf, off, sum, before, done + t1 + t2 + t3);
  }

  /** The object case of json_serialize_to_buffer_r. */
  method SerializeObject(o: Members, buf: array?<byte>, off: nat, total: nat, level: nat, pretty: bool,
                         ghost before: bytes, ghost done: bytes)
    returns (sum: nat)
    requires DistinctNames(o.members) && forall i | 0 <= i < |o.members| :: Valid(o.members[i].value)
    requires total == |done| && Emitted(before, buf, off, done)
    requires buf != null ==> off + |done| + |Text(Object(o), level, pretty)| < buf.Length
    modifies buf
    ensures sum == |done + Text(Object(o), level, pretty)|
    ensures Emitted(before, buf, off, done + Text(Object(o), level, pretty))
    ensures buf != null ==> buf[off + |done + Text(Object(o), level, pretty)|] == NUL
    decreases o, 2
  {
    var count := |o.members|;
    ghost var open := Open(LBRACE, pretty && o.members != []);
    ghost var members := MembersText(o.members, level, pretty);
    ghost var close := Close(RBRACE, pretty && o.members != [], level);
    Regroup(done, open, members + close);
    Regroup(done + open, members, close);
    sum := EmitOpen(LBRACE, count > 0 && pretty, buf, off, total, before, done);
    sum := SerializeMembers(o, buf, off, sum, level, pretty, before, done + open);
    sum := EmitClose(RBRACE, count > 0 && pretty, buf, off, sum, level, before, done + open + members);
  }

  /** The loop over the members. */
  method SerializeMembers(o: Members, buf: array?<byte>, off: nat, total: nat, level: nat, pretty: bool,
                          ghost before: bytes, ghost done: bytes)
    returns (sum: nat)
    requires DistinctNames(o.members) && forall i | 0 <= i < |o.members| :: Valid(o.members[i].value)
    requires total == |done| && Emitted(before, buf, off, done)
    requires buf != null ==> off + |done| + |MembersText(o.members, level, pretty)| < buf.Length
    modifies buf
    ensures sum == |done + MembersText(o.members, level, pretty)|
    ensures Emitted(before, buf, off, done + MembersText(o.members, level, pretty))
    decreases o, 1
  {
    var count := |o.members|;
    sum := total;
    ghost var all, soFar := done + MembersText(o.members, level, pretty), done;
    assert o.members[0..] == o.members;
    for i := 0 to count
      invariant sum == |soFar| && Emitted(before, buf, off, soFar)
      invariant all == soFar + MembersText(o.members[i..], level, pretty)
    {
      ghost var member := MemberText(o.members[i], i == count - 1, level, pretty);
      MembersTextAt(o.members, i, level, pretty);
      Regroup(soFar, member, MembersText(o.members[i + 1..], level, pretty));
      sum := SerializeMember(o, i, buf, off, sum, level, pretty, before, soFar);
      soFar := soFar + member;
    }
    assert soFar + [] == soFar;
  }

  /**
   json_serialize_to_buffer_r, behind what has been written since off: with or without a
   buffer it counts the same bytes; with one it stores them, ends them with a NUL and
   touches nothing behind that NUL.
   */
  method SerializeR(v: Value, buf: array?<byte>, off: nat, total: nat, level: nat, pretty: bool,
                    ghost before: bytes, ghost done: bytes)
    returns (sum: nat)
    requires Valid(v)
    requires total == |done| && Emitted(before, buf, off, done)
    requires buf != null ==> off + |done| + |Text(v, level, pretty)| < buf.Length
    modifies buf
    ensures sum == |done + Text(v, level, pretty)|
    ensures Emitted(before, buf, off, done + Text(v, level, pretty))
    ensures buf != null ==> buf[off + |done + Text(v, level, pretty)|] == NUL
    decreases v, 1
  {
    match v
    case Array(a) => sum := SerializeArray(a, buf, off, total, level, pretty, before, done);
    case Object(o) => sum := SerializeObject(o, buf, off, total, level, pretty, before, done);
    case String(s) => sum := SerializeString(s, buf, off, total, before, done);
    case Bool(b) => sum := Emit(buf, off, total, if b then TRUE_TOKEN else FALSE_TOKEN, before, done);
    case Number(x) => sum := Emit(buf, off, total, NumberText(x), before, done);
    case Null => sum := Emit(buf, off, total, NULL_TOKEN, before, done);
  }

  /** json_serialization_size and its pretty form. */
  method SerializationSize(v: Value, pretty: bool) returns (size: nat)
    requires Valid(v)
    ensures size == |Text(v, 0, pretty)| + 1
  {
    var res := SerializeR(v, null, 0, 0, 0, pretty, [], []);
    assert [] + Text(v, 0, pretty) == Text(v, 0, pretty);
    return res + 1;
  }

  /** json_serialize_to_buffer and its pretty form: fails exactly when the text does not fit. */
  method SerializeToBuffer(v: Value, buf: array<byte>, size: nat, pretty: bool) returns (ok: bool)
    requires Valid(v) && size <= buf.Length
    modifies buf
    ensures ok <==> |Text(v, 0, pretty)| < size
    ensures !ok ==> buf[..] == old(buf[..])
    ensures ok ==> Wrote(old(buf[..]), buf[..], 0, Text(v, 0, pretty)) && buf[|Text(v, 0, pretty)|] == NUL
  {
    var needed := SerializationSize(v, pretty);
    if size < needed {
      return false;
    }
    ghost var t := Text(v, 0, pretty);
    assert [] + t == t;
    var written := SerializeR(v, buf, 0, 0, 0, pretty, buf[..], []);
    return true;
  }

  /** json_serialize_to_string and its pretty form: the buffer is exactly the text and its terminator. */
  method SerializeToString(v: Value, pretty: bool) returns (buf: array<byte>)
    requires Valid(v)
    ensures fresh(buf) && buf[..] == Text(v, 0, pretty) + [NUL]
  {
    var size := SerializationSize(v, pretty);
    buf := new byte[size];
    var ok := SerializeToBuffer(v, buf, size, pretty);
    assert buf[..] == Text(v, 0, pretty) + [NUL];
  }
}
