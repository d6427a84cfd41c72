/**
 The JSON replies, built only through dotted-path writes into one object.
 */
module Replies {
  import opened Bytes
  import opened Utf8
  import opened JsonNumber
  import opened JsonValue
  import opened JsonPath
  import opened JsonObject

  /** struct entry_s; record_date is NULL in an entry that was never stored. */
  datatype Entry = Entry(id: int, recordDate: Option<bytes>, temperature: real, humidity: real, location: bytes,
      deviceName: bytes)

  const LENGTH_KEY: bytes := [108, 101, 110, 103, 116, 104]
  const ERRCODE_KEY: bytes := [101, 114, 114, 99, 111, 100, 101]
  const ERRMSG_KEY: bytes := [101, 114, 114, 109, 115, 103]
  const UNITS_KEY: bytes := [117, 110, 105, 116, 115]
  const TEMPUNIT_KEY: bytes := [116, 101, 109, 112, 117, 110, 105, 116]
  const HUMIDUNIT_KEY: bytes := [104, 117, 109, 105, 100, 117, 110, 105, 116]
  const RESULTS_KEY: bytes := [114, 101, 115, 117, 108, 116, 115]
  const ID_KEY: bytes := [105, 100]
  const RECORD_DATE_KEY: bytes := [114, 101, 99, 111, 114, 100, 95, 100, 97, 116, 101]
  const TEMPERATURE_KEY: bytes := [116, 101, 109, 112, 101, 114, 97, 116, 117, 114, 101]
  const HUMIDITY_KEY: bytes := [104, 117, 109, 105, 100, 105, 116, 121]
  const LOCATION_KEY: bytes := [108, 111, 99, 97, 116, 105, 111, 110]
  const DEVICE_NAME_KEY: bytes := [100, 101, 118, 105, 99, 101, 95, 110, 97, 109, 101]

  const REFKEY_BUFFER_SIZE: nat := 32

  /** json_value_init_string: NULL for a missing string or one that is not valid UTF-8. */
  function StringValue(text: Option<bytes>): Option<Value>
  {
    if text.Some? && Utf8Octets(text.value) then Some(String(text.value)) else None
  }

  /** One write of a builder; the value is None when it could not be made and nothing is written. */
  datatype Field = Field(path: bytes, value: Option<Value>)

  /** All values that the builders write are numbers and strings. */
  predicate PlainField(f: Field) { f.value.Some? ==> f.value.value.Number? || f.value.value.String? }

  lemma {:induction false} BelowIsPlain(h: bytes, fs: seq<Field>)
    requires forall i | 0 <= i < |fs| :: PlainField(fs[i])
    ensures forall i | 0 <= i < |fs| :: PlainField(Below(h, fs)[i])
  {
    if fs != [] {
      assert forall i | 0 <= i < |fs| - 1 :: fs[1..][i] == fs[i + 1];
      BelowIsPlain(h, fs[1..]);
    }
  }

  lemma RowWritesArePlain(e: Entry)
    ensures forall i | 0 <= i < |RowWrites(e)| :: PlainField(RowWrites(e)[i])
  {
    BelowIsPlain(Decimal(e.id), RowFields(e));
    BelowIsPlain(RESULTS_KEY, Below(Decimal(e.id), RowFields(e)));
  }

  lemma HeaderIsPlain(n: nat, unit: byte)
    ensures forall i | 0 <= i < |HeaderFields(n, unit)| :: PlainField(HeaderFields(n, unit)[i])
  {
  }

  function Write(o: Members, f: Field): Members
  {
    if f.value.Some? then DotSet(o, f.path, f.value.value).obj else o
  }

  function WriteAll(o: Members, fs: seq<Field>): Members
    decreases fs
  {
    if fs == [] then o else WriteAll(Write(o, fs[0]), fs[1..])
  }

  /** The six writes for one row. */
  function RowFields(e: Entry): (r: seq<Field>)
    ensures |r| == 6
  {
    [ Field(ID_KEY, Some(Number(e.id as real))),
      Field(RECORD_DATE_KEY, StringValue(e.recordDate)),
      Field(TEMPERATURE_KEY, Some(Number(e.temperature))),
      Field(HUMIDITY_KEY, Some(Number(e.humidity))),
      Field(LOCATION_KEY, StringValue(Some(e.location))),
      Field(DEVICE_NAME_KEY, StringValue(Some(e.deviceName))) ]
  }

  /** The same writes below a component. */
  function Below(h: bytes, fs: seq<Field>): (r: seq<Field>)
    ensures |r| == |fs|
  {
    if fs == [] then [] else [Field(h + [DOT] + fs[0].path, fs[0].value)] + Below(h, fs[1..])
  }

  /** The object with the fields of one row. */
  function Row(e: Entry): Members { WriteAll(EMPTY_OBJECT, RowFields(e)) }

  /** The writes of one turn of the loop: results.<id>.<field> */
  function RowWrites(e: Entry): seq<Field> { Below(RESULTS_KEY, Below(Decimal(e.id), RowFields(e))) }

  /** What precedes the rows: length, units, errcode and errmsg. */
  function HeaderFields(n: nat, unit: byte): seq<Field>
  {
    [ Field(LENGTH_KEY, Some(Number(n as real))),
      Field(UNITS_KEY + [DOT] + TEMPUNIT_KEY, StringValue(Some(CStr([unit])))),
      Field(UNITS_KEY + [DOT] + HUMIDUNIT_KEY, StringValue(Some([PERCENT]))),
      Field(ERRCODE_KEY, Some(Number(0.0))),
      Field(ERRMSG_KEY, StringValue(Some([]))) ]
  }

  function Header(n: nat, unit: byte): Members { WriteAll(EMPTY_OBJECT, HeaderFields(n, unit)) }

  function AddRows(o: Members, es: seq<Entry>): Members
  {
    if es == [] then o else WriteAll(AddRows(o, es[..|es| - 1]), RowWrites(es[|es| - 1]))
  }

  /** entrylist_to_json_value, as the object it builds. */
  function FetchReply(es: seq<Entry>, unit: byte): Members { AddRows(Header(|es|, unit), es) }

  // ------------------------------------------------------------------ the source's loop

  method WriteField(obj: ObjectStore, f: Field)
    requires obj.Parallel() && Sized(Object(obj.Stored())) && PlainField(f)
    modifies obj, obj.names, obj.values
    ensures obj.Parallel() && Sized(Object(obj.Stored())) && obj.Stored() == Write(old(obj.Stored()), f)
    ensures (obj.names == old(obj.names) || fresh(obj.names)) && (obj.values == old(obj.values) || fresh(obj.values))
  {
    if f.value.Some? {
      var ok := obj.DotSetValue(f.path, f.value.value);
    }
  }

  method WriteFields(obj: ObjectStore, fs: seq<Field>)
    requires obj.Parallel() && Sized(Object(obj.Stored())) && forall i | 0 <= i < |fs| :: PlainField(fs[i])
    modifies obj, obj.names, obj.values
    ensures obj.Parallel() && Sized(Object(obj.Stored())) && obj.Stored() == WriteAll(old(obj.Stored()), fs)
    ensures (obj.names == old(obj.names) || fresh(obj.names)) && (obj.values == old(obj.values) || fresh(obj.values))
  {
    hide Sized, Write;
    ghost var whole := WriteAll(obj.Stored(), fs);
    assert fs[0..] == fs;
    for i := 0 to |fs|
      invariant obj.Parallel() && Sized(Object(obj.Stored())) && WriteAll(obj.Stored(), fs[i..]) == whole
      invariant (obj.names == old(obj.names) || fresh(obj.names))
                && (obj.values == old(obj.values) || fresh(obj.values))
    {
      assert fs[i..][1..] == fs[i + 1..];
      WriteField(obj, fs[i]);
    }
  }

  /** entrylist_to_json_value: no list, no reply. */
  method EntryListToJson(list: Option<seq<Entry>>, unit: byte) returns (v: Option<Value>)
    ensures v == if list.None? then None else Some(Object(FetchReply(list.value, unit)))
  {
    hide WriteAll, RowWrites, HeaderFields, Sized, PlainField;
    if list.None? {
      return None;
    }
    var es := list.value;
    var obj := new ObjectStore();
    EmptySized();
    HeaderIsPlain(|es|, unit);
    WriteFields(obj, HeaderFields(|es|, unit));
    for i := 0 to |es|
      invariant fresh(obj) && fresh(obj.names) && fresh(obj.values)
      invariant obj.Parallel() && Sized(Object(obj.Stored())) && obj.Stored() == AddRows(Header(|es|, unit), es[..i])
    {
      assert es[..i + 1][..i] == es[..i];
      RowWritesArePlain(es[i]);
      WriteFields(obj, RowWrites(es[i]));
    }
    assert es[..|es|] == es;
    var o := obj.Contents();
    return Some(Object(o));
  }

  // ------------------------------------------------------------------ writing below one component

  predicate DotFree(name: bytes) { forall i | 0 <= i < |name| :: name[i] != DOT }

  lemma {:induction false} DotFreeHead(name: bytes, rest: bytes)
    requires DotFree(name)
    ensures !HasDot(name) && Head(name) == name
    ensures var p := name + [DOT] + rest; HasDot(p) && Head(p) == name && Rest(p) == rest
  {
    DotAtEnd(name);
    DotAtJoined(name, rest);
  }

  lemma {:induction false} DotAtEnd(name: bytes)
    requires DotFree(name)
    ensures DotAt(name) == |name|
  {
    if name != [] {
      DotAtEnd(name[1..]);
    }
  }

  /** The object o with one more member, an object, under a name it did not have. */
  function With(o: Members, h: bytes, r: Members): Members
    requires Add(o, h, Object(r)).Some?
  {
    Add(o, h, Object(r)).value
  }

  predicate Fresh(o: Members, h: bytes) { DotFree(h) && Get(o.members, h).None? }

  lemma WithAny(o: Members, h: bytes, r: Members)
    requires Fresh(o, h)
    ensures Add(o, h, Object(r)).Some? <==> HasRoom(o)
  {
  }

  /** The first write below a fresh component creates its object. */
  lemma FirstWrite(o: Members, h: bytes, f: Field)
    requires Fresh(o, h) && HasRoom(o) && f.value.Some?
    ensures Write(o, Field(h + [DOT] + f.path, f.value)) == With(o, h, Write(EMPTY_OBJECT, f))
  {
    DotFreeHead(h, f.path);
    WithAny(o, h, EMPTY_OBJECT);
    AddThenPut(o, h, Object(EMPTY_OBJECT), Object(Write(EMPTY_OBJECT, f)));
  }

  /** Later writes go into that object. */
  lemma LaterWrite(o: Members, h: bytes, r: Members, f: Field)
    requires Fresh(o, h) && HasRoom(o)
    ensures Write(With(o, h, r), Field(h + [DOT] + f.path, f.value)) == With(o, h, Write(r, f))
  {
    DotFreeHead(h, f.path);
    AddThere(o, h, Object(r));
    AddThenPut(o, h, Object(r), Object(Write(r, f)));
  }

  lemma {:induction false} LaterWrites(o: Members, h: bytes, r: Members, fs: seq<Field>)
    requires Fresh(o, h) && HasRoom(o)
    ensures WriteAll(With(o, h, r), Below(h, fs)) == With(o, h, WriteAll(r, fs))
    decreases fs
  {
    if fs != [] {
      LaterWrite(o, h, r, fs[0]);
      assert Below(h, fs)[1..] == Below(h, fs[1..]);
      LaterWrites(o, h, Write(r, fs[0]), fs[1..]);
    }
  }

  lemma WritesBelowFresh(o: Members, h: bytes, fs: seq<Field>)
    requires Fresh(o, h) && HasRoom(o) && fs != [] && fs[0].value.Some?
    ensures WriteAll(o, Below(h, fs)) == With(o, h, WriteAll(EMPTY_OBJECT, fs))
  {
    FirstWrite(o, h, fs[0]);
    assert Below(h, fs)[1..] == Below(h, fs[1..]);
    LaterWrites(o, h, Write(EMPTY_OBJECT, fs[0]), fs[1..]);
  }

  /** Without room for the component nothing is written at all. */
  lemma {:induction false} WritesBelowFull(o: Members, h: bytes, fs: seq<Field>)
    requires Fresh(o, h) && !HasRoom(o)
    ensures WriteAll(o, Below(h, fs)) == o
  {
    if fs != [] {
      DotFreeHead(h, fs[0].path);
      if fs[0].value.Some? {
        SetSucceedsExactly(o, h + [DOT] + fs[0].path, fs[0].value.value);
        FailedSetChangesNothing(o, h + [DOT] + fs[0].path, fs[0].value.value);
      }
      assert Below(h, fs)[1..] == Below(h, fs[1..]);
      WritesBelowFull(o, h, fs[1..]);
    }
  }

  // ------------------------------------------------------------------ rows

  lemma {:induction false} DecimalInjective(a: int, b: int)
    requires Decimal(a) == Decimal(b)
    ensures a == b
  {
    var x, y := if a < 0 then -a else a, if b < 0 then -b else b;
    NatValueOfDecimal(x);
    NatValueOfDecimal(y);
    assert IsDigit(DecimalNat(x)[0]) && IsDigit(DecimalNat(y)[0]);
    if a < 0 && b < 0 {
      assert Decimal(a)[1..] == DecimalNat(x) && Decimal(b)[1..] == DecimalNat(y);
    }
  }

  lemma DecimalIsDotFree(id: int)
    ensures DotFree(Decimal(id))
  {
    var d := DecimalNat(if id < 0 then -id else id);
    assert AllDigits(d);
  }

  /** The results object as it should be: one member per row, in order, as far as there is room. */
  function RowMembers(es: seq<Entry>): (r: seq<Member>)
    ensures |r| == |es|
  {
    seq(|es|, i requires 0 <= i < |es| => Member(Decimal(es[i].id), Object(Row(es[i]))))
  }

  ghost predicate DistinctIds(es: seq<Entry>)
  {
    forall i, j | 0 <= i < j < |es| :: es[i].id != es[j].id
  }

  function FirstRows(es: seq<Entry>): (r: seq<Entry>)
    ensures |r| <= OBJECT_MAX_CAPACITY
  {
    if |es| <= OBJECT_MAX_CAPACITY then es else es[..OBJECT_MAX_CAPACITY]
  }

  function RowsInto(r: Members, es: seq<Entry>): Members
  {
    if es == [] then r else WriteAll(RowsInto(r, es[..|es| - 1]),
        Below(Decimal(es[|es| - 1].id), RowFields(es[|es| - 1])))
  }

  lemma NewRowIsFresh(r: Members, es: seq<Entry>)
    requires es != [] && DistinctIds(es) && r.members == RowMembers(FirstRows(es[..|es| - 1]))
    ensures Fresh(r, Decimal(es[|es| - 1].id))
  {
    var e, rows := es[|es| - 1], FirstRows(es[..|es| - 1]);
    DecimalIsDotFree(e.id);
    forall j | 0 <= j < |rows| ensures r.members[j].name != Decimal(e.id) {
      if r.members[j].name == Decimal(e.id) {
        DecimalInjective(rows[j].id, e.id);
      }
    }
    FindNone(r.members, Decimal(e.id));
  }

  /** The rows in the results object are exactly the first 960, in order, each with all its fields. */
  lemma {:induction false} ResultsAreFirstRows(es: seq<Entry>)
    requires DistinctIds(es)
    ensures var r := RowsInto(EMPTY_OBJECT, es);
            r.members == RowMembers(FirstRows(es)) && |r.members| <= r.capacity
                && Untrimmed(r.capacity, OBJECT_MAX_CAPACITY)
  {
    if es == [] {
      EmptyUntrimmed();
      assert RowMembers(FirstRows(es)) == [];
    } else {
      var init, e := es[..|es| - 1], es[|es| - 1];
      ResultsAreFirstRows(init);
      var r := RowsInto(EMPTY_OBJECT, init);
      NewRowIsFresh(r, es);
      RowAppended(r, init, e);
      FirstRowsStep(es);
    }
  }

  lemma FirstRowsStep(es: seq<Entry>)
    requires es != []
    ensures var init, e := es[..|es| - 1], es[|es| - 1];
            RowMembers(FirstRows(es)) ==
            if |init| < OBJECT_MAX_CAPACITY then RowMembers(FirstRows(init)) + [Member(Decimal(e.id), Object(Row(e)))]
            else RowMembers(FirstRows(init))
  {
    var init, e := es[..|es| - 1], es[|es| - 1];
    if |init| < OBJECT_MAX_CAPACITY {
      assert FirstRows(es) == es && FirstRows(init) == init;
    } else {
      assert FirstRows(es) == FirstRows(init);
    }
  }

  lemma RowAppended(r: Members, init: seq<Entry>, e: Entry)
    requires r.members == RowMembers(FirstRows(init)) && |r.members| <= r.capacity
             && Untrimmed(r.capacity, OBJECT_MAX_CAPACITY)
    requires Fresh(r, Decimal(e.id))
    ensures var s := WriteAll(r, Below(Decimal(e.id), RowFields(e)));
            && s.members == (if |init| < OBJECT_MAX_CAPACITY
                then r.members + [Member(Decimal(e.id), Object(Row(e)))] else r.members)
            && |s.members| <= s.capacity && Untrimmed(s.capacity, OBJECT_MAX_CAPACITY)
  {
    AddUntilFull(r, Decimal(e.id), Object(Row(e)));
    WithAny(r, Decimal(e.id), Row(e));
    if |init| < OBJECT_MAX_CAPACITY {
      WritesBelowFresh(r, Decimal(e.id), RowFields(e));
    } else {
      WritesBelowFull(r, Decimal(e.id), RowFields(e));
    }
  }

  /** Filling the results object below the root is filling it on its own. */
  lemma {:induction false} RowsBelow(o: Members, es: seq<Entry>)
    requires es != [] && Fresh(o, RESULTS_KEY) && HasRoom(o)
    ensures AddRows(o, es) == With(o, RESULTS_KEY, RowsInto(EMPTY_OBJECT, es))
  {
    var init, e := es[..|es| - 1], es[|es| - 1];
    var fs := Below(Decimal(e.id), RowFields(e));
    if init == [] {
      assert fs[0].value.Some?;
      WritesBelowFresh(o, RESULTS_KEY, fs);
    } else {
      RowsBelow(o, init);
      LaterWrites(o, RESULTS_KEY, RowsInto(EMPTY_OBJECT, init), fs);
    }
  }

  // ------------------------------------------------------------------ reading fields

  /** The names written are free of dots and differ. */
  ghost predicate DistinctPaths(fs: seq<Field>)
  {
    && (forall i | 0 <= i < |fs| :: DotFree(fs[i].path))
    && forall i, j | 0 <= i < j < |fs| :: fs[i].path != fs[j].path
  }

  lemma WriteReads(o: Members, f: Field, other: bytes)
    requires DotFree(f.path) && HasRoom(o)
    ensures Get(Write(o, f).members, other) == if other == f.path && f.value.Some? then f.value
            else Get(o.members, other)
  {
    DotFreeHead(f.path, []);
    if f.value.Some? {
      SetLookup(o, f.path, f.value.value, other);
    }
  }

  lemma {:induction false} WriteAllReads(o: Members, fs: seq<Field>, other: bytes)
    requires DistinctPaths(fs) && |o.members| + |fs| <= STARTING_CAPACITY
    requires |o.members| <= o.capacity && (o.capacity == 0 || o.capacity == STARTING_CAPACITY)
    requires forall i | 0 <= i < |fs| :: Get(o.members, fs[i].path).None?
    ensures (forall i | 0 <= i < |fs| :: fs[i].path != other)
            ==> Get(WriteAll(o, fs).members, other) == Get(o.members, other)
    ensures forall i | 0 <= i < |fs| :: Get(WriteAll(o, fs).members, fs[i].path) == fs[i].value
    decreases fs
  {
    if fs != [] {
      var f, p := fs[0], Write(o, fs[0]);
      assert forall i | 0 <= i < |fs| - 1 :: fs[1..][i] == fs[i + 1];
      forall n ensures Get(p.members, n) == if n == f.path && f.value.Some? then f.value else Get(o.members, n) {
        WriteReads(o, f, n);
      }
      DotFreeHead(f.path, []);
      WriteAllReads(p, fs[1..], other);
      WriteAllReads(p, fs[1..], f.path);
      forall i | 0 <= i < |fs| ensures Get(WriteAll(o, fs).members, fs[i].path) == fs[i].value {
        if i > 0 {
          assert fs[i] == fs[1..][i - 1];
        }
      }
    }
  }

  lemma RowPathsDiffer(e: Entry)
    ensures DistinctPaths(RowFields(e))
  {
    var fs := RowFields(e);
    assert forall i | 0 <= i < 6 :: DotFree(fs[i].path);
    assert |fs[0].path| == 2 && |fs[1].path| == 11 && |fs[2].path| == 11 && |fs[3].path| == 8 && |fs[4].path| == 8
           && |fs[5].path| == 11;
    assert fs[1].path[0] == 114 && fs[2].path[0] == 116 && fs[5].path[0] == 100 && fs[3].path[0] == 104
           && fs[4].path[0] == 108;
  }

  /** Every field of a row reads as what was given for it, if that was a number or valid UTF-8. */
  lemma RowReads(e: Entry)
    ensures var ms := Row(e).members;
            && Get(ms, ID_KEY) == Some(Number(e.id as real))
            && Get(ms, RECORD_DATE_KEY) == StringValue(e.recordDate)
            && Get(ms, TEMPERATURE_KEY) == Some(Number(e.temperature))
            && Get(ms, HUMIDITY_KEY) == Some(Number(e.humidity))
            && Get(ms, LOCATION_KEY) == StringValue(Some(e.location))
            && Get(ms, DEVICE_NAME_KEY) == StringValue(Some(e.deviceName))
  {
    var fs := RowFields(e);
    RowPathsDiffer(e);
    WriteAllReads(EMPTY_OBJECT, fs, ID_KEY);
    assert fs[0].path == ID_KEY && fs[1].path == RECORD_DATE_KEY && fs[2].path == TEMPERATURE_KEY;
    assert fs[3].path == HUMIDITY_KEY && fs[4].path == LOCATION_KEY && fs[5].path == DEVICE_NAME_KEY;
  }

  // ------------------------------------------------------------------ the reply

  const CELSIUS: byte := 99      // c

  lemma AsciiIsValid(c: byte)
    requires 0 < c < 0x80
    ensures CStr([c]) == [c] && StringValue(Some([c])) == Some(String([c]))
  {
    var s: bytes := [c];
    assert s[..1] == s && s[1..] == [];
    assert Utf8Char(s[..1]) && Utf8Octets(s[1..]);
  }

  function UnitFields(unit: byte): seq<Field>
  {
    [Field(TEMPUNIT_KEY, StringValue(Some(CStr([unit])))), Field(HUMIDUNIT_KEY, StringValue(Some([PERCENT])))]
  }

  function Units(unit: byte): Members { WriteAll(EMPTY_OBJECT, UnitFields(unit)) }

  lemma UnitsRead(unit: byte)
    requires 0 < unit < 0x80
    ensures Get(Units(unit).members, TEMPUNIT_KEY) == Some(String([unit]))
    ensures Get(Units(unit).members, HUMIDUNIT_KEY) == Some(String([PERCENT]))
  {
    var fs := UnitFields(unit);
    AsciiIsValid(unit);
    AsciiIsValid(PERCENT);
    assert fs[0].path == TEMPUNIT_KEY && fs[1].path == HUMIDUNIT_KEY && |fs[0].path| == 8 && |fs[1].path| == 9;
    WriteAllReads(EMPTY_OBJECT, fs, TEMPUNIT_KEY);
  }

  /** The keys of the root object are free of dots and differ. */
  lemma RootKeys()
    ensures DotFree(LENGTH_KEY) && DotFree(UNITS_KEY) && DotFree(ERRCODE_KEY) && DotFree(ERRMSG_KEY)
            && DotFree(RESULTS_KEY)
    ensures UNITS_KEY != LENGTH_KEY && ERRCODE_KEY != LENGTH_KEY && ERRCODE_KEY != UNITS_KEY
    ensures ERRMSG_KEY != LENGTH_KEY && ERRMSG_KEY != UNITS_KEY && ERRMSG_KEY != ERRCODE_KEY
    ensures RESULTS_KEY != LENGTH_KEY && RESULTS_KEY != UNITS_KEY && RESULTS_KEY != ERRCODE_KEY
            && RESULTS_KEY != ERRMSG_KEY
  {
    assert |LENGTH_KEY| == 6 && |UNITS_KEY| == 5 && |ERRCODE_KEY| == 7 && |ERRMSG_KEY| == 6 && |RESULTS_KEY| == 7;
    assert LENGTH_KEY[0] == 108 && ERRMSG_KEY[0] == 101 && ERRCODE_KEY[0] == 101 && RESULTS_KEY[0] == 114;
  }

  function HeaderList(n: nat, units: Members): seq<Member>
  {
    [Member(LENGTH_KEY, Number(n as real)), Member(UNITS_KEY, Object(units)), Member(ERRCODE_KEY, Number(0.0)),
        Member(ERRMSG_KEY, String([]))]
  }

  /** The header, with its members in the order they were written. */
  lemma HeaderMembers(n: nat, unit: byte)
    requires 0 < unit < 0x80
    ensures Header(n, unit) == Members(HeaderList(n, Units(unit)), STARTING_CAPACITY)
  {
    hide Write, WriteAll, Units, UnitFields, StringValue, DotFree;
    var fs := HeaderFields(n, unit);
    RootKeys();
    HeaderStep(EMPTY_OBJECT, LENGTH_KEY, Number(n as real));
    var h1 := Write(EMPTY_OBJECT, fs[0]);
    assert h1 == Members([Member(LENGTH_KEY, Number(n as real))], STARTING_CAPACITY);
    HeaderUnits(h1, unit);
    var h3 := Write(Write(h1, fs[1]), fs[2]);
    HeaderStep(h3, ERRCODE_KEY, Number(0.0));
    var h4 := Write(h3, fs[3]);
    EmptyIsValid();
    HeaderStep(h4, ERRMSG_KEY, String([]));
    WriteFive(EMPTY_OBJECT, fs);
  }

  lemma EmptyIsValid()
    ensures StringValue(Some([])) == Some(String([]))
  {
  }

  lemma HeaderUnits(h: Members, unit: byte)
    requires 0 < unit < 0x80 && |h.members| == 1 && h.members[0].name == LENGTH_KEY && h.capacity == STARTING_CAPACITY
    ensures Write(Write(h, Field(UNITS_KEY + [DOT] + TEMPUNIT_KEY, StringValue(Some(CStr([unit]))))),
                  Field(UNITS_KEY + [DOT] + HUMIDUNIT_KEY, StringValue(Some([PERCENT]))))
            == Members(h.members + [Member(UNITS_KEY, Object(Units(unit)))], STARTING_CAPACITY)
  {
    hide Write, WriteAll;
    RootKeys();
    AsciiIsValid(unit);
    HeaderFresh(h, UNITS_KEY);
    WritesBelowFresh(h, UNITS_KEY, UnitFields(unit));
    UnitWrites(h, unit);
  }

  lemma UnitWrites(o: Members, unit: byte)
    ensures var fs := UnitFields(unit);
            WriteAll(o, Below(UNITS_KEY, fs)) ==
            Write(Write(o, Field(UNITS_KEY + [DOT] + TEMPUNIT_KEY, fs[0].value)),
                Field(UNITS_KEY + [DOT] + HUMIDUNIT_KEY, fs[1].value))
  {
    var fs := UnitFields(unit);
    var b := Below(UNITS_KEY, fs);
    assert fs[1..] == [fs[1]] && fs[1..][1..] == [];
    assert b[1..] == Below(UNITS_KEY, fs[1..]) && b[1..][1..] == [];
    assert WriteAll(o, b) == WriteAll(Write(o, b[0]), b[1..]);
  }

  lemma WriteFive(o: Members, fs: seq<Field>)
    requires |fs| == 5
    ensures WriteAll(o, fs) == Write(Write(Write(Write(Write(o, fs[0]), fs[1]), fs[2]), fs[3]), fs[4])
  {
    assert fs[1..][1..] == fs[2..] && fs[2..][1..] == fs[3..] && fs[3..][1..] == fs[4..] && fs[4..][1..] == [];
    var o1 := Write(o, fs[0]);
    var o2 := Write(o1, fs[1]);
    var o3 := Write(o2, fs[2]);
    var o4 := Write(o3, fs[3]);
    assert WriteAll(o4, fs[4..]) == WriteAll(Write(o4, fs[4]), []);
    assert WriteAll(o3, fs[3..]) == WriteAll(o4, fs[4..]);
    assert WriteAll(o2, fs[2..]) == WriteAll(o3, fs[3..]);
    assert WriteAll(o1, fs[1..]) == WriteAll(o2, fs[2..]);
  }

  lemma HeaderFresh(o: Members, name: bytes)
    requires DotFree(name) && forall j | 0 <= j < |o.members| :: o.members[j].name != name
    ensures Fresh(o, name)
  {
    FindNone(o.members, name);
  }

  lemma HeaderStep(o: Members, name: bytes, v: Value)
    requires DotFree(name) && forall j | 0 <= j < |o.members| :: o.members[j].name != name
    requires o == EMPTY_OBJECT || (|o.members| < o.capacity == STARTING_CAPACITY)
    ensures Write(o, Field(name, Some(v))) == Members(o.members + [Member(name, v)], STARTING_CAPACITY)
  {
    DotFreeHead(name, []);
    FindNone(o.members, name);
  }

  /** The members under results; there is no such object in a reply without rows. */
  function Results(ms: seq<Member>): seq<Member>
  {
    if Child(ms, RESULTS_KEY).Some? then Child(ms, RESULTS_KEY).value.members else []
  }

  /** What precedes the results in every reply. */
  predicate HasHeader(ms: seq<Member>, n: nat, unit: byte)
  {
    && Get(ms, LENGTH_KEY) == Some(Number(n as real)) && Get(ms, UNITS_KEY) == Some(Object(Units(unit)))
    && Get(ms, ERRCODE_KEY) == Some(Number(0.0)) && Get(ms, ERRMSG_KEY) == Some(String([]))
  }

  /** The whole reply: its header, and under results exactly the first rows in order. */
  lemma FetchReplyIs(es: seq<Entry>, unit: byte)
    requires DistinctIds(es) && 0 < unit < 0x80
    ensures var ms := FetchReply(es, unit).members;
            && HasHeader(ms, |es|, unit) && Results(ms) == RowMembers(FirstRows(es))
            && (Child(ms, RESULTS_KEY).Some? <==> es != [])
  {
    hide Header, RowsInto, AddRows, RowMembers, FirstRows, Units, DotFree;
    var h, r := Header(|es|, unit), RowsInto(EMPTY_OBJECT, es);
    HeaderMembers(|es|, unit);
    RootKeys();
    HeaderFresh(h, RESULTS_KEY);
    if es == [] {
      NoRows(h, es);
      HeaderReads(h.members);
    } else {
      RowsBelow(h, es);
      ResultsAreFirstRows(es);
      RootReads(h.members + [Member(RESULTS_KEY, Object(r))]);
    }
  }

  lemma NoRows(o: Members, es: seq<Entry>)
    requires es == []
    ensures AddRows(o, es) == o && RowMembers(FirstRows(es)) == []
  {
  }

  lemma HeaderReads(ms: seq<Member>)
    requires |ms| == 4 && ms[0].name == LENGTH_KEY && ms[1].name == UNITS_KEY && ms[2].name == ERRCODE_KEY
    requires ms[3].name == ERRMSG_KEY
    ensures Get(ms, LENGTH_KEY) == Some(ms[0].value) && Get(ms, UNITS_KEY) == Some(ms[1].value)
    ensures Get(ms, ERRCODE_KEY) == Some(ms[2].value) && Get(ms, ERRMSG_KEY) == Some(ms[3].value)
    ensures Get(ms, RESULTS_KEY) == None
  {
    hide DotFree, Find;
    RootKeys();
    FindIs(ms, LENGTH_KEY, 0);
    FindIs(ms, UNITS_KEY, 1);
    FindIs(ms, ERRCODE_KEY, 2);
    FindIs(ms, ERRMSG_KEY, 3);
    FindNone(ms, RESULTS_KEY);
  }

  lemma RootReads(ms: seq<Member>)
    requires |ms| == 5 && ms[0].name == LENGTH_KEY && ms[1].name == UNITS_KEY && ms[2].name == ERRCODE_KEY
    requires ms[3].name == ERRMSG_KEY && ms[4].name == RESULTS_KEY
    ensures Get(ms, LENGTH_KEY) == Some(ms[0].value) && Get(ms, UNITS_KEY) == Some(ms[1].value)
    ensures Get(ms, ERRCODE_KEY) == Some(ms[2].value) && Get(ms, ERRMSG_KEY) == Some(ms[3].value)
    ensures Get(ms, RESULTS_KEY) == Some(ms[4].value)
  {
    hide DotFree, Find;
    RootKeys();
    FindIs(ms, LENGTH_KEY, 0);
    FindIs(ms, UNITS_KEY, 1);
    FindIs(ms, ERRCODE_KEY, 2);
    FindIs(ms, ERRMSG_KEY, 3);
    FindIs(ms, RESULTS_KEY, 4);
  }

  /** The reported length is the number of results exactly when there are at most 960 rows. */
  lemma LengthIsHonest(es: seq<Entry>, unit: byte)
    requires DistinctIds(es) && 0 < unit < 0x80
    ensures var ms := FetchReply(es, unit).members;
            Get(ms, LENGTH_KEY) == Some(Number(|Results(ms)| as real)) <==> |es| <= OBJECT_MAX_CAPACITY
  {
    hide FetchReply, Get, Child, RowMembers, Units, Results;
    FetchReplyIs(es, unit);
  }

  /** The path results.<id>.<field> that the builder prints into its key buffer. */
  function RowPath(id: int, field: bytes): bytes
  {
    RESULTS_KEY + [DOT] + (Decimal(id) + [DOT] + field)
  }

  /** Under results.<id>.<field> each of the first 960 rows reads its field; later rows read nothing. */
  lemma ResultReads(es: seq<Entry>, unit: byte, i: nat, field: bytes)
    requires DistinctIds(es) && 0 < unit < 0x80 && i < |es| && DotFree(field)
    ensures DotGet(FetchReply(es, unit).members, RowPath(es[i].id, field))
            == if i < OBJECT_MAX_CAPACITY then Get(Row(es[i]).members, field) else None
  {
    hide FetchReply, Row, Decimal, Find, Units, DotFree;
    var ms, id := FetchReply(es, unit).members, Decimal(es[i].id);
    FetchReplyIs(es, unit);
    RootKeys();
    DecimalIsDotFree(es[i].id);
    DotFreeHead(RESULTS_KEY, id + [DOT] + field);
    DotFreeHead(id, field);
    DotFreeHead(field, []);
    FindRow(es, i);
    var r := Child(ms, RESULTS_KEY).value;
    assert DotGet(ms, RowPath(es[i].id, field)) == DotGet(r.members, id + [DOT] + field);
    if i < OBJECT_MAX_CAPACITY {
      assert r.members[i] == Member(id, Object(Row(es[i])));
      assert Child(r.members, id) == Some(Row(es[i]));
      assert DotGet(r.members, id + [DOT] + field) == DotGet(Row(es[i]).members, field);
    }
  }

  lemma FindRow(es: seq<Entry>, i: nat)
    requires DistinctIds(es) && i < |es|
    ensures Find(RowMembers(FirstRows(es)), Decimal(es[i].id)) == if i < OBJECT_MAX_CAPACITY then Some(i) else None
  {
    hide Find, Decimal, Row;
    var rows, id := RowMembers(FirstRows(es)), Decimal(es[i].id);
    forall j | 0 <= j < |rows| && j != i ensures rows[j].name != id {
      assert rows[j].name == Decimal(es[j].id);
      if rows[j].name == id {
        DecimalInjective(es[j].id, es[i].id);
      }
    }
    if i < OBJECT_MAX_CAPACITY {
      FindIs(rows, id, i);
    } else {
      FindNone(rows, id);
    }
  }

  // ------------------------------------------------------------------ the key buffer

  /** Every key printed for a 32-bit id fits the 32 bytes of the buffer, the longest one exactly. */
  lemma KeyFitsBuffer(e: Entry, i: nat)
    requires -0x8000_0000 <= e.id < 0x8000_0000 && i < 6
    ensures |RowPath(e.id, RowFields(e)[i].path)| + 1 <= REFKEY_BUFFER_SIZE
  {
    IntLength(e.id);
    assert |RowFields(e)[i].path| <= 11;
  }
}
