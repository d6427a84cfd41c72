/**
 Reading a written configuration file gives the configuration back, and exactly when.
 */
module ConfigRoundTrip {
  import opened Bytes
  import opened JsonNumber
  import opened Ini
  import opened Config
  import opened ConfigHandler

  // ------------------------------------------------------------------ the file

  datatype Item = Blank | Heading(title: bytes) | Setting(name: bytes, value: bytes)

  function ItemText(x: Item): (r: bytes)
    ensures EndsLine(r) && r != []
  {
    match x
    case Blank => [NEWLINE]
    case Heading(title) => HeadingText(title)
    case Setting(name, value) => PairText(name, value)
  }

  function FileText(items: seq<Item>): bytes
  {
    if items == [] then [] else ItemText(items[0]) + FileText(items[1..])
  }

  /** A configuration to be written: its strings are C strings, its numbers of type int. */
  predicate Writable(s: Settings)
  {
    && s.location.Some? && NulFree(s.location.value) && s.interval.Some? && NulFree(s.interval.value)
    && s.deviceName.Some? && NulFree(s.deviceName.value)
    && IsLong(s.deviceConfig) && IsLong(s.commPort) && IsLong(s.workers)
  }

  function Section(title: bytes, x: Item, y: Item): seq<Item> { [Heading(title), x, y] }

  function GeneralItems(s: Settings): seq<Item>
    requires Writable(s)
  {
    Section(GENERAL, Setting(LOCATION_KEY, s.location.value), Setting(INTERVAL_KEY, s.interval.value))
  }

  function DeviceItems(s: Settings): seq<Item>
    requires Writable(s)
  {
    Section(DEVICE, Setting(DEVICE_NAME_KEY, s.deviceName.value), Setting(DEVICE_CONFIG_KEY, Decimal(s.deviceConfig)))
  }

  function ServerItems(s: Settings): seq<Item>
    requires Writable(s)
  {
    Section(SERVER, Setting(COMM_PORT_KEY, Decimal(s.commPort)), Setting(WORKERS_KEY, Decimal(s.workers)))
  }

  function ConfigItems(s: Settings): seq<Item>
    requires Writable(s)
  {
    GeneralItems(s) + [Blank] + DeviceItems(s) + [Blank] + ServerItems(s)
  }

  /** The text of the file. */
  function ConfigText(s: Settings): bytes
    requires Writable(s)
  {
    FileText(ConfigItems(s))
  }

  lemma {:induction false} FileTextConcat(a: seq<Item>, b: seq<Item>)
    ensures FileText(a + b) == FileText(a) + FileText(b)
  {
    hide ItemText;
    if a == [] {
      assert a + b == b;
    } else {
      assert (a + b)[1..] == a[1..] + b;
      FileTextConcat(a[1..], b);
    }
  }

  lemma SectionText(title: bytes, x: Item, y: Item)
    ensures FileText(Section(title, x, y)) == HeadingText(title) + ItemText(x) + ItemText(y)
  {
    hide ItemText;
    var items := Section(title, x, y);
    assert items[1..] == [x, y] && [x, y][1..] == [y];
    assert FileText([y]) == ItemText(y) + [] == ItemText(y);
    assert FileText([x, y]) == ItemText(x) + FileText([y]);
    assert FileText(items) == ItemText(items[0]) + FileText([x, y]);
    HeadingItem(title);
  }

  lemma HeadingItem(title: bytes)
    ensures ItemText(Heading(title)) == HeadingText(title)
  {
  }

  /** fprintf of "[%s]\n" and of "%s=%s\n" for a section with two settings. */
  method PrintSection(f: bytes, title: bytes, name0: bytes, value0: bytes, name1: bytes, value1: bytes)
      returns (r: bytes)
    ensures r == f + FileText(Section(title, Setting(name0, value0), Setting(name1, value1)))
  {
    r := f + ([LBRACKET] + title + [RBRACKET, NEWLINE]);
    r := r + (name0 + [EQUALS] + value0 + [NEWLINE]);
    r := r + (name1 + [EQUALS] + value1 + [NEWLINE]);
    SectionText(title, Setting(name0, value0), Setting(name1, value1));
    Regroup(f, HeadingText(title), PairText(name0, value0), PairText(name1, value1));
  }

  lemma Regroup(a: bytes, b: bytes, c: bytes, d: bytes)
    ensures a + b + c + d == a + (b + c + d)
  {
  }

  /** write_config_file, into a buffer. */
  method WriteConfigFile(s: Settings) returns (f: bytes)
    requires Writable(s)
    ensures f == ConfigText(s)
  {
    hide FileText, Section, Decimal, IsLong;
    f := PrintSection([], GENERAL, LOCATION_KEY, s.location.value, INTERVAL_KEY, s.interval.value);
    f := PrintSection(f + [NEWLINE], DEVICE, DEVICE_NAME_KEY, s.deviceName.value, DEVICE_CONFIG_KEY,
        Decimal(s.deviceConfig));
    f := PrintSection(f + [NEWLINE], SERVER, COMM_PORT_KEY, Decimal(s.commPort), WORKERS_KEY, Decimal(s.workers));
    SectionsText(GeneralItems(s), DeviceItems(s), ServerItems(s));
    assert [] + FileText(GeneralItems(s)) == FileText(GeneralItems(s));
  }

  lemma SectionsText(g: seq<Item>, d: seq<Item>, e: seq<Item>)
    ensures FileText(g + [Blank] + d + [Blank] + e) == FileText(g) + [NEWLINE] + FileText(d) + [NEWLINE] + FileText(e)
  {
    assert FileText([Blank]) == [NEWLINE];
    FileTextConcat(g, [Blank]);
    FileTextConcat(g + [Blank], d);
    FileTextConcat(g + [Blank] + d, [Blank]);
    FileTextConcat(g + [Blank] + d + [Blank], e);
  }

  // ------------------------------------------------------------------ what the scanner makes of it

  /** What a call asks of the handler, which does not look at the section. */
  datatype Ask = Ask(name: bytes, value: bytes) | Nothing

  function AskOf(c: Call): Ask { if c.Pair? then Ask(c.name, c.value) else Nothing }

  function Asks(calls: seq<Numbered>): (r: seq<Ask>)
    ensures |r| == |calls|
  {
    seq(|calls|, i requires 0 <= i < |calls| => AskOf(calls[i].call))
  }

  predicate ItemOk(x: Item)
  {
    match x
    case Blank => true
    case Heading(t) => RBRACKET !in t && NEWLINE !in t && NulFree(t) && CommentFree(t) && |t| + 3 < INI_MAX_LINE
    case Setting(name, value) => PlainName(name) && NulFree(value) && |name| + 1 < INI_MAX_LINE
  }

  predicate ItemFits(x: Item) { x.Setting? ==> Fits(x.name, x.value) }

  function NumSettings(items: seq<Item>): nat
  {
    if items == [] then 0 else (if items[0].Setting? then 1 else 0) + NumSettings(items[1..])
  }

  /** The first call that the line of a setting makes. */
  function FirstAsk(x: Item): Ask
    requires x.Setting? && |x.name| + 1 < INI_MAX_LINE
  {
    Ask(x.name, FirstValue(x.value, INI_MAX_LINE - 2 - |x.name|))
  }

  ghost function FirstAsks(items: seq<Item>): seq<Ask>
    requires AllOk(items)
  {
    if items == [] then []
    else
      assert ItemOk(items[0]);
      (if items[0].Setting? then [FirstAsk(items[0])] else []) + FirstAsks(items[1..])
  }

  /** Of one item: a setting makes its first call, and no other one if it fits; the rest make none. */
  ghost predicate ItemCall(calls: seq<Numbered>, x: Item)
    requires ItemOk(x)
  {
    if x.Setting? then calls != [] && AskOf(calls[0].call) == FirstAsk(x) && (ItemFits(x) ==> |calls| == 1)
    else calls == []
  }

  lemma ItemCalls(lines: nat, x: Item, st: Scanner)
    requires ItemOk(x)
    ensures ItemCall(Calls(lines, ItemText(x), st), x)
  {
    hide Calls, Fits, PlainName, FirstValue, CommentFree, PairText, HeadingText;
    match x
    case Blank => BlankLine(lines, st);
    case Heading(t) => HeadingCalls(lines, t, st);
    case Setting(name, value) =>
      PairCalls(lines, name, value, st);
      PairFirstCall(lines, name, value, st);
  }

  ghost predicate AllOk(items: seq<Item>) { forall i | 0 <= i < |items| :: ItemOk(items[i]) }

  ghost predicate AllFit(items: seq<Item>) { forall i | 0 <= i < |items| :: ItemFits(items[i]) }

  /**
   Of a file: at least one call for each setting; if there are no more than that, they are the
   first calls, in order; and there are no more if every setting fits.
   */
  ghost predicate FileCall(calls: seq<Numbered>, items: seq<Item>)
    requires AllOk(items)
  {
    && |calls| >= NumSettings(items)
    && (|calls| == NumSettings(items) ==> Asks(calls) == FirstAsks(items))
    && (AllFit(items) ==> |calls| == NumSettings(items))
  }

  lemma FileCallStep(a: seq<Numbered>, b: seq<Numbered>, items: seq<Item>)
    requires items != [] && AllOk(items) && ItemOk(items[0]) && AllOk(items[1..])
    requires ItemCall(a, items[0]) && FileCall(b, items[1..])
    ensures FileCall(a + b, items)
  {
    hide ItemOk, ItemFits, FirstAsk, Asks;
    assert AllFit(items) ==> ItemFits(items[0]) && AllFit(items[1..]);
    AsksSplit(a, b);
    if items[0].Setting? {
      if |a| == 1 {
        FirstOfOne(a);
      }
    } else {
      assert a + b == b;
    }
  }

  lemma FirstOfOne(a: seq<Numbered>)
    requires |a| == 1
    ensures Asks(a) == [AskOf(a[0].call)]
  {
  }

  lemma NoItems(lines: nat, items: seq<Item>, st: Scanner)
    requires items == []
    ensures AllOk(items) && FileCall(Calls(lines, FileText(items), st), items)
  {
  }

  lemma FileParts(items: seq<Item>)
    requires items != [] && AllOk(items)
    ensures ItemOk(items[0]) && AllOk(items[1..]) && EndsLine(ItemText(items[0]))
    ensures FileText(items) == ItemText(items[0]) + FileText(items[1..])
  {
  }

  lemma {:induction false} FileCalls(lines: nat, items: seq<Item>, st: Scanner)
    requires AllOk(items)
    ensures FileCall(Calls(lines, FileText(items), st), items)
    decreases |items|
  {
    hide *;
    if items == [] {
      NoItems(lines, items, st);
    } else {
      var x, rest := items[0], items[1..];
      FileParts(items);
      var l2, st2 := lines + LinesOf(ItemText(x)), ScannerAfter(lines, ItemText(x), st);
      FileCalls(l2, rest, st2);
      ItemCalls(lines, x, st);
      CallsSplit(lines, ItemText(x), FileText(rest), st);
      FileCallStep(Calls(lines, ItemText(x), st), Calls(l2, FileText(rest), st2), items);
    }
  }

  lemma AsksSplit(a: seq<Numbered>, b: seq<Numbered>)
    ensures Asks(a + b) == Asks(a) + Asks(b)
  {
  }

  // ------------------------------------------------------------------ the handler's side

  lemma {:induction false} CallsArePositive(lines: nat, s: bytes, st: Scanner)
    ensures Positive(Calls(lines, s, st))
    decreases |s|
  {
    hide Line, CStr, Chunk;
    if s != [] {
      var o := Line(lines + 1, CStr(s[..Chunk(s)]), st);
      CallsArePositive(lines + 1, s[Chunk(s)..], o.scanner);
    }
  }

  /** A printed number is read back as it was, clamped to what a long can hold. */
  lemma NumberBack(n: int)
    ensures StrToL(Decimal(n)) == Clamped(n)
  {
    var t := Decimal(n);
    var d := DecimalNat(if n < 0 then -n else n);
    assert t == (if n < 0 then [MINUS] + d else d);
    assert IsDigit(d[0]);
    assert n < 0 ==> t[1..] == d;
    DigitRunOver(d, []);
    assert d + [] == d && d[..|d|] == d;
    NatValueOfDecimal(if n < 0 then -n else n);
  }

  lemma NumberFits(name: bytes, n: int)
    requires -10000000000 < n < 10000000000 && |name| < 100
    ensures Fits(name, Decimal(n)) && NulFree(Decimal(n))
  {
    IntLength(n);
    var t := Decimal(n);
    assert forall i | 0 <= i < |t| :: IsDigit(t[i]) || t[i] == MINUS;
    assert CommentFree(t);
  }

  lemma NamesArePlain()
    ensures PlainName(LOCATION_KEY) && PlainName(INTERVAL_KEY) && PlainName(DEVICE_NAME_KEY)
    ensures PlainName(DEVICE_CONFIG_KEY) && PlainName(COMM_PORT_KEY) && PlainName(WORKERS_KEY)
  {
  }

  predicate Letters(t: bytes) { forall i | 0 <= i < |t| :: t[i] == SPACE || 65 <= t[i] <= 90 || 97 <= t[i] <= 122 }

  lemma LettersAreOk(t: bytes)
    requires Letters(t) && |t| < 100
    ensures ItemOk(Heading(t))
  {
    assert CommentFree(t);
  }

  lemma HeadingsAreOk()
    ensures ItemOk(Heading(GENERAL)) && ItemOk(Heading(DEVICE)) && ItemOk(Heading(SERVER))
  {
    hide ItemOk;
    LettersAreOk(GENERAL);
    LettersAreOk(DEVICE);
    LettersAreOk(SERVER);
  }

  lemma AsksStep(x: Item, rest: seq<Item>)
    requires ItemOk(x) && AllOk(rest)
    ensures AllOk([x] + rest) && NumSettings([x] + rest) == (if x.Setting? then 1 else 0) + NumSettings(rest)
    ensures FirstAsks([x] + rest) == (if x.Setting? then [FirstAsk(x)] else []) + FirstAsks(rest)
  {
    assert ([x] + rest)[1..] == rest;
  }

  /** One call after the other. */
  lemma {:induction false} OneCall(p: Parsing, calls: seq<Numbered>, asks: seq<Ask>)
    requires Positive(calls) && Asks(calls) == asks && asks != [] && asks[0].Ask?
    ensures After(p, calls) == After(Handled(p, asks[0].name, asks[0].value).p, calls[1..])
    ensures Positive(calls[1..]) && Asks(calls[1..]) == asks[1..]
    ensures FirstError(p, calls) == 0 <==>
             Handled(p, asks[0].name, asks[0].value).r != 0
             && FirstError(Handled(p, asks[0].name, asks[0].value).p, calls[1..]) == 0
  {
    hide Handled;
    assert AskOf(calls[0].call) == asks[0];
    assert Asks(calls[1..]) == Asks(calls)[1..];
  }

  /** The settings of a file, as asked for by the first call of each. */
  function SixAsks(v0: bytes, v1: bytes, v2: bytes, n3: int, n4: int, n5: int): seq<Ask>
  {
    [ Ask(LOCATION_KEY, v0), Ask(INTERVAL_KEY, v1), Ask(DEVICE_NAME_KEY, v2), Ask(DEVICE_CONFIG_KEY, Decimal(n3)),
      Ask(COMM_PORT_KEY, Decimal(n4)), Ask(WORKERS_KEY, Decimal(n5)) ]
  }

  function Carried(name: bytes, value: bytes): bytes
    requires |name| + 1 < INI_MAX_LINE
  {
    FirstValue(value, INI_MAX_LINE - 2 - |name|)
  }

  lemma CarriedExactly(name: bytes, value: bytes)
    requires |name| + 1 < INI_MAX_LINE
    ensures Carried(name, value) == value <==> Fits(name, value)
  {
    hide Trimmed, CommentFree, FirstValue;
    FirstValueExactly(value, INI_MAX_LINE - 2 - |name|);
  }

  lemma {:induction false} AsksConcat(a: seq<Item>, b: seq<Item>)
    requires AllOk(a) && AllOk(b)
    ensures AllOk(a + b) && NumSettings(a + b) == NumSettings(a) + NumSettings(b)
            && FirstAsks(a + b) == FirstAsks(a) + FirstAsks(b)
  {
    hide ItemOk, FirstAsk;
    if a == [] {
      assert a + b == b;
    } else {
      AsksConcat(a[1..], b);
      AsksStep(a[0], a[1..] + b);
      AsksStep(a[0], a[1..]);
      assert a + b == [a[0]] + (a[1..] + b) && a == [a[0]] + a[1..];
    }
  }

  lemma SectionAsks(title: bytes, x: Item, y: Item)
    requires ItemOk(Heading(title)) && ItemOk(x) && ItemOk(y) && x.Setting? && y.Setting?
    ensures var items := Section(title, x, y);
            AllOk(items) && NumSettings(items) == 2 && FirstAsks(items) == [FirstAsk(x), FirstAsk(y)]
  {
    hide ItemOk, FirstAsk;
    AsksStep(y, []);
    AsksStep(x, [y]);
    AsksStep(Heading(title), [x, y]);
    assert [y] + [] == [y] && [x] + [y] == [x, y] && [Heading(title)] + [x, y] == Section(title, x, y);
  }

  lemma ConfigAsks(s: Settings)
    requires Writable(s)
    ensures AllOk(ConfigItems(s)) && NumSettings(ConfigItems(s)) == 6
    ensures FirstAsks(ConfigItems(s))
         == SixAsks(Carried(LOCATION_KEY, s.location.value), Carried(INTERVAL_KEY, s.interval.value),
                    Carried(DEVICE_NAME_KEY, s.deviceName.value), s.deviceConfig, s.commPort, s.workers)
  {
    SectionsOk(s);
    hide ItemOk, Decimal, Carried, AllOk, Section, IsLong, FirstAsks, NumSettings, GeneralItems, DeviceItems,
        ServerItems;
    NumberCarried(DEVICE_CONFIG_KEY, s.deviceConfig);
    NumberCarried(COMM_PORT_KEY, s.commPort);
    NumberCarried(WORKERS_KEY, s.workers);
    SectionsConcat(GeneralItems(s), DeviceItems(s), ServerItems(s));
    SixOf(FirstAsks(GeneralItems(s)), FirstAsks(DeviceItems(s)), FirstAsks(ServerItems(s)));
  }

  lemma SixOf(a: seq<Ask>, b: seq<Ask>, c: seq<Ask>)
    requires |a| == 2 && |b| == 2 && |c| == 2
    ensures a + b + c == [a[0], a[1], b[0], b[1], c[0], c[1]]
  {
  }

  lemma BlankAsks()
    ensures AllOk([Blank]) && NumSettings([Blank]) == 0 && FirstAsks([Blank]) == []
  {
    AsksStep(Blank, []);
    assert [Blank] + [] == [Blank];
  }

  lemma SectionsConcat(g: seq<Item>, d: seq<Item>, e: seq<Item>)
    requires AllOk(g) && AllOk(d) && AllOk(e)
    ensures var items := g + [Blank] + d + [Blank] + e;
            && AllOk(items) && NumSettings(items) == NumSettings(g) + NumSettings(d) + NumSettings(e)
            && FirstAsks(items) == FirstAsks(g) + FirstAsks(d) + FirstAsks(e)
  {
    hide ItemOk, FirstAsk, AllOk, FirstAsks, NumSettings;
    BlankAsks();
    AsksConcat(g, [Blank]);
    AsksConcat(g + [Blank], d);
    AsksConcat(g + [Blank] + d, [Blank]);
    AsksConcat(g + [Blank] + d + [Blank], e);
  }

  lemma SectionsOk(s: Settings)
    requires Writable(s)
    ensures AllOk(GeneralItems(s)) && NumSettings(GeneralItems(s)) == 2
    ensures FirstAsks(GeneralItems(s)) == [Ask(LOCATION_KEY, Carried(LOCATION_KEY, s.location.value)),
            Ask(INTERVAL_KEY, Carried(INTERVAL_KEY, s.interval.value))]
    ensures AllOk(DeviceItems(s)) && NumSettings(DeviceItems(s)) == 2
    ensures FirstAsks(DeviceItems(s)) == [Ask(DEVICE_NAME_KEY, Carried(DEVICE_NAME_KEY, s.deviceName.value)),
                                          Ask(DEVICE_CONFIG_KEY, Carried(DEVICE_CONFIG_KEY, Decimal(s.deviceConfig)))]
    ensures AllOk(ServerItems(s)) && NumSettings(ServerItems(s)) == 2
    ensures FirstAsks(ServerItems(s)) == [Ask(COMM_PORT_KEY, Carried(COMM_PORT_KEY, Decimal(s.commPort))),
            Ask(WORKERS_KEY, Carried(WORKERS_KEY, Decimal(s.workers)))]
  {
    HeadingsAreOk();
    NamesArePlain();
    NumberFits(DEVICE_CONFIG_KEY, s.deviceConfig);
    NumberFits(COMM_PORT_KEY, s.commPort);
    NumberFits(WORKERS_KEY, s.workers);
    hide PlainName, CommentFree, Decimal, Fits, FirstValue, Section, FirstAsks, NumSettings, AllOk;
    SectionAsks(GENERAL, Setting(LOCATION_KEY, s.location.value), Setting(INTERVAL_KEY, s.interval.value));
    SectionAsks(DEVICE, Setting(DEVICE_NAME_KEY, s.deviceName.value),
        Setting(DEVICE_CONFIG_KEY, Decimal(s.deviceConfig)));
    SectionAsks(SERVER, Setting(COMM_PORT_KEY, Decimal(s.commPort)), Setting(WORKERS_KEY, Decimal(s.workers)));
  }

  lemma NumberCarried(name: bytes, n: int)
    requires IsLong(n) && |name| < 100
    ensures Carried(name, Decimal(n)) == Decimal(n)
  {
    hide Fits;
    NumberFits(name, n);
    CarriedExactly(name, Decimal(n));
  }

  /** The three calls for strings. */
  lemma StringCalls(p: Parsing, v0: bytes, v1: bytes, v2: bytes)
    ensures v0 != [] ==> Handled(p, LOCATION_KEY, v0) == Counted(p, p.settings.(location := Some(v0)))
    ensures v1 != [] ==> Handled(p, INTERVAL_KEY, v1) == Counted(p, p.settings.(interval := Some(v1)))
    ensures v2 != [] ==> Handled(p, DEVICE_NAME_KEY, v2) == Counted(p, p.settings.(deviceName := Some(v2)))
  {
    KeysDiffer();
  }

  /** A number in range is stored; it is counted unless errno was set before. */
  function Stored(p: Parsing, s: Settings, error: int): Answer { CountedNumber(p, s, false, error) }

  /** The three calls for numbers. */
  lemma NumberCalls(p: Parsing, n: int)
    requires IsLong(n)
    ensures Handled(p, DEVICE_CONFIG_KEY, Decimal(n))
            == Stored(p, p.settings.(deviceConfig := n), CONFIG_ERROR_DEVICE_CONFIG)
    ensures Handled(p, COMM_PORT_KEY, Decimal(n)) == Stored(p, p.settings.(commPort := n), CONFIG_ERROR_COMM_PORT)
    ensures Handled(p, WORKERS_KEY, Decimal(n)) == Stored(p, p.settings.(workers := n), CONFIG_ERROR_NUM_WTHREADS)
  {
    hide Decimal, StrToL;
    NumberBack(n);
    KeysDiffer();
  }

  /** Strings that are set are counted; an empty one is refused. */
  lemma FirstThree(p: Parsing, calls: seq<Numbered>, asks: seq<Ask>, v0: bytes, v1: bytes, v2: bytes)
    requires Positive(calls) && Asks(calls) == asks && |asks| >= 3
    requires asks[0] == Ask(LOCATION_KEY, v0) && asks[1] == Ask(INTERVAL_KEY, v1) && asks[2] == Ask(DEVICE_NAME_KEY, v2)
    ensures Positive(calls[3..]) && Asks(calls[3..]) == asks[3..]
    ensures var q := p.(settings := p.settings.(location := Some(v0), interval := Some(v1), deviceName := Some(v2)),
            count := p.count + 3);
            if v0 != [] && v1 != [] && v2 != [] then
              After(p, calls) == After(q, calls[3..]) && (FirstError(p, calls) == 0 <==> FirstError(q, calls[3..]) == 0)
            else FirstError(p, calls) != 0
  {
    hide Handled, After, FirstError, Asks, Positive;
    OneCall(p, calls, asks);
    StringCalls(p, v0, v1, v2);
    EmptyIsRefused(p, LOCATION_KEY);
    var p1 := Handled(p, LOCATION_KEY, v0).p;
    OneCall(p1, calls[1..], asks[1..]);
    StringCalls(p1, v0, v1, v2);
    EmptyIsRefused(p1, INTERVAL_KEY);
    var p2 := Handled(p1, INTERVAL_KEY, v1).p;
    assert calls[1..][1..] == calls[2..] && asks[1..][1..] == asks[2..];
    OneCall(p2, calls[2..], asks[2..]);
    StringCalls(p2, v0, v1, v2);
    EmptyIsRefused(p2, DEVICE_NAME_KEY);
    assert calls[2..][1..] == calls[3..] && asks[2..][1..] == asks[3..];
  }

  lemma EmptyIsRefused(p: Parsing, name: bytes)
    ensures Handled(p, name, []).r == 0
  {
  }

  lemma LastThree(p: Parsing, calls: seq<Numbered>, asks: seq<Ask>, n3: int, n4: int, n5: int)
    requires Positive(calls) && Asks(calls) == asks && |asks| == 3 && IsLong(n3) && IsLong(n4) && IsLong(n5)
    requires asks[0] == Ask(DEVICE_CONFIG_KEY, Decimal(n3)) && asks[1] == Ask(COMM_PORT_KEY, Decimal(n4))
             && asks[2] == Ask(WORKERS_KEY, Decimal(n5))
    ensures var r := p.settings.(deviceConfig := n3, commPort := n4, workers := n5);
            After(p, calls) == p.(settings := r, count := p.count + if p.erange then 0 else 3)
    ensures FirstError(p, calls) == 0
  {
    hide Handled, After, FirstError, Asks, Positive, Decimal, IsLong;
    OneCall(p, calls, asks);
    NumberCalls(p, n3);
    var p1 := Handled(p, DEVICE_CONFIG_KEY, Decimal(n3)).p;
    OneCall(p1, calls[1..], asks[1..]);
    NumberCalls(p1, n4);
    var p2 := Handled(p1, COMM_PORT_KEY, Decimal(n4)).p;
    assert calls[1..][1..] == calls[2..] && asks[1..][1..] == asks[2..];
    OneCall(p2, calls[2..], asks[2..]);
    NumberCalls(p2, n5);
    NothingLeft(Handled(p2, WORKERS_KEY, Decimal(n5)).p, calls[2..][1..], asks[2..][1..]);
  }

  lemma NothingLeft(p: Parsing, calls: seq<Numbered>, asks: seq<Ask>)
    requires Asks(calls) == asks && asks == []
    ensures After(p, calls) == p && FirstError(p, calls) == 0
  {
  }

  /** Six calls with these values: all accepted exactly when the strings are not empty. */
  lemma SixCalls(p: Parsing, calls: seq<Numbered>, v0: bytes, v1: bytes, v2: bytes, n3: int, n4: int, n5: int)
    requires Positive(calls) && Asks(calls) == SixAsks(v0, v1, v2, n3, n4, n5) && IsLong(n3) && IsLong(n4) && IsLong(n5)
    ensures FirstError(p, calls) == 0 <==> v0 != [] && v1 != [] && v2 != []
    ensures FirstError(p, calls) == 0 ==>
      After(p, calls) ==
      Parsing(Settings(Some(v0), Some(v1), Some(v2), n3, n4, n5), p.count + if p.erange then 3 else 6, p.erange)
  {
    hide After, FirstError, Asks, Positive, Decimal, IsLong;
    var asks := SixAsks(v0, v1, v2, n3, n4, n5);
    FirstThree(p, calls, asks, v0, v1, v2);
    var q := p.(settings := p.settings.(location := Some(v0), interval := Some(v1), deviceName := Some(v2)),
        count := p.count + 3);
    LastThree(q, calls[3..], asks[3..], n3, n4, n5);
  }

  // ------------------------------------------------------------------ there and back

  predicate Kept(name: bytes, value: bytes) { value != [] && Fits(name, value) }

  /** The strings that survive: not empty, trimmed, on one line that fits the buffer, without an inline comment. */
  predicate Restorable(s: Settings)
    requires Writable(s)
  {
    Kept(LOCATION_KEY, s.location.value) && Kept(INTERVAL_KEY, s.interval.value)
        && Kept(DEVICE_NAME_KEY, s.deviceName.value)
  }

  /** The calls that the written file makes. */
  ghost function WrittenCalls(s: Settings): seq<Numbered>
    requires Writable(s)
  {
    Calls(0, ConfigText(s), Scanner([], []))
  }

  /** Written back without a failure: every field as it was. */
  ghost predicate Restores(s: Settings, p: Parsing)
    requires Writable(s)
  {
    FirstError(p, WrittenCalls(s)) == 0 && After(p, WrittenCalls(s)).settings == s
  }

  lemma RestorableIsRestored(s: Settings, p: Parsing)
    requires Writable(s) && Restorable(s)
    ensures Restores(s, p)
    ensures After(p, WrittenCalls(s)) == Parsing(s, p.count + if p.erange then 3 else 6, p.erange)
  {
    hide After, FirstError, Asks, Positive, Decimal, IsLong, Fits, Carried, Calls, FileText, ItemOk, FirstAsks,
        NumSettings;
    var calls := WrittenCalls(s);
    CallsArePositive(0, ConfigText(s), Scanner([], []));
    ConfigAsks(s);
    FileCalls(0, ConfigItems(s), Scanner([], []));
    CarriedExactly(LOCATION_KEY, s.location.value);
    CarriedExactly(INTERVAL_KEY, s.interval.value);
    CarriedExactly(DEVICE_NAME_KEY, s.deviceName.value);
    AllItemsFit(s);
    SixCalls(p, calls, s.location.value, s.interval.value, s.deviceName.value, s.deviceConfig, s.commPort, s.workers);
  }

  lemma AllItemsFit(s: Settings)
    requires Writable(s) && Restorable(s)
    ensures AllFit(ConfigItems(s))
  {
    hide Decimal, Fits;
    NumberFits(DEVICE_CONFIG_KEY, s.deviceConfig);
    NumberFits(COMM_PORT_KEY, s.commPort);
    NumberFits(WORKERS_KEY, s.workers);
  }

  // ------------------------------------------------------------------ nothing else is restored

  /** A setting that takes at most two chunks. */
  predicate ItemShort(x: Item)
  {
    x.Setting? ==> NEWLINE !in x.value && |x.value| < INI_MAX_LINE - 1 && |x.name| < MAX_NAME
  }

  /** A call fits its line, or sets one of the settings to something shorter than it is. */
  ghost predicate CallBounded(c: Call, items: seq<Item>)
  {
    c.Pair? ==>
      Fits(c.name, c.value) || exists i | 0 <= i < |items| :: ItemBounds(items[i], c)
  }

  predicate ItemBounds(x: Item, c: Call) { x.Setting? && c.Pair? && x.name == c.name && |c.value| < |x.value| }

  lemma ItemCallsBounded(lines: nat, x: Item, st: Scanner)
    requires ItemOk(x) && ItemShort(x)
    ensures forall i | 0 <= i < |Calls(lines, ItemText(x), st)| ::
              var c := Calls(lines, ItemText(x), st)[i].call; c.Pair? ==> Fits(c.name, c.value) || ItemBounds(x, c)
  {
    hide Calls, Fits, PlainName, CommentFree, PairText, HeadingText;
    match x
    case Blank => BlankLine(lines, st);
    case Heading(t) => HeadingCalls(lines, t, st);
    case Setting(name, value) => PairCallsBounded(lines, name, value, st);
  }

  lemma {:induction false} FileCallsBounded(lines: nat, items: seq<Item>, st: Scanner)
    requires AllOk(items) && forall i | 0 <= i < |items| :: ItemShort(items[i])
    ensures forall i | 0 <= i < |Calls(lines, FileText(items), st)| ::
              CallBounded(Calls(lines, FileText(items), st)[i].call, items)
    decreases |items|
  {
    hide Calls, ItemOk, ItemShort, ItemText, ItemBounds, Fits, LinesOf, ScannerAfter, FileText, AllOk;
    if items == [] {
      NoFile(lines, items, st);
    } else {
      var x, rest := items[0], items[1..];
      FileParts(items);
      var l2, st2 := lines + LinesOf(ItemText(x)), ScannerAfter(lines, ItemText(x), st);
      FileCallsBounded(l2, rest, st2);
      ItemCallsBounded(lines, x, st);
      CallsSplit(lines, ItemText(x), FileText(rest), st);
      BoundedSplit(Calls(lines, ItemText(x), st), Calls(l2, FileText(rest), st2), items);
    }
  }

  lemma NoFile(lines: nat, items: seq<Item>, st: Scanner)
    requires items == []
    ensures Calls(lines, FileText(items), st) == []
  {
  }

  lemma BoundedSplit(a: seq<Numbered>, b: seq<Numbered>, items: seq<Item>)
    requires items != []
    requires forall i | 0 <= i < |a| ::
               var c := a[i].call; c.Pair? ==> Fits(c.name, c.value) || ItemBounds(items[0], c)
    requires forall i | 0 <= i < |b| :: CallBounded(b[i].call, items[1..])
    ensures forall i | 0 <= i < |a + b| :: CallBounded((a + b)[i].call, items)
  {
    hide Fits, ItemBounds;
    forall i | 0 <= i < |a + b| ensures CallBounded((a + b)[i].call, items) {
      if i >= |a| {
        assert (a + b)[i] == b[i - |a|] && CallBounded(b[i - |a|].call, items[1..]);
        assert forall j | 0 <= j < |items| - 1 :: items[1..][j] == items[j + 1];
      }
    }
  }

  /** Every setting has a call for its name. */
  lemma {:induction false} SettingHasCall(lines: nat, items: seq<Item>, st: Scanner, i: nat)
    requires AllOk(items) && i < |items| && items[i].Setting?
    ensures exists k | 0 <= k < |Calls(lines, FileText(items), st)| ::
              Sets(Calls(lines, FileText(items), st)[k].call, items[i].name)
    decreases |items|
  {
    hide Calls, LinesOf, ScannerAfter, FileText, ItemText;
    var x, rest := items[0], items[1..];
    FileParts(items);
    var l2, st2 := lines + LinesOf(ItemText(x)), ScannerAfter(lines, ItemText(x), st);
    CallsSplit(lines, ItemText(x), FileText(rest), st);
    var a, b := Calls(lines, ItemText(x), st), Calls(l2, FileText(rest), st2);
    if i == 0 {
      ItemCalls(lines, x, st);
      assert (a + b)[0] == a[0];
    } else {
      SettingHasCall(l2, rest, st2, i - 1);
      var k :| 0 <= k < |b| && Sets(b[k].call, rest[i - 1].name);
      assert (a + b)[|a| + k] == b[k];
    }
  }

  lemma SoundHasValue(c: Call)
    requires Sound(c)
    ensures c.value != []
  {
  }

  /** What a string was restored to was the value of some call of its name. */
  lemma RestoredByCall(s: Settings, p: Parsing, i: nat) returns (k: nat)
    requires Writable(s) && Restores(s, p) && i < |ConfigItems(s)| && AllOk(ConfigItems(s))
    requires ConfigItems(s)[i].Setting? && IsStringName(ConfigItems(s)[i].name)
    requires StringField(s, ConfigItems(s)[i].name) == Some(ConfigItems(s)[i].value)
    ensures k < |WrittenCalls(s)| && Sound(WrittenCalls(s)[k].call)
    ensures WrittenCalls(s)[k].call.name == ConfigItems(s)[i].name
    ensures WrittenCalls(s)[k].call.value == ConfigItems(s)[i].value
  {
    hide Calls, FileText, After, FirstError, Sound, ConfigItems, StringField, IsStringName, Writable;
    var calls, x := WrittenCalls(s), ConfigItems(s)[i];
    CallsArePositive(0, ConfigText(s), Scanner([], []));
    FirstErrorExactly(p, calls);
    StringIsLast(p, calls, x.name);
    SettingHasCall(0, ConfigItems(s), Scanner([], []), i);
    var n :| 0 <= n < |calls| && Sets(calls[n].call, x.name);
    SoundHasValue(calls[n].call);
    assert Gives(calls[n].call, x.name);
    k :| 0 <= k < |calls| && Sets(calls[k].call, x.name) && calls[k].call.value == x.value;
  }

  lemma RestoredIsShort(s: Settings, p: Parsing, i: nat)
    requires Writable(s) && Restores(s, p) && i < |ConfigItems(s)| && AllOk(ConfigItems(s))
    requires ConfigItems(s)[i].Setting? && IsStringName(ConfigItems(s)[i].name)
    requires StringField(s, ConfigItems(s)[i].name) == Some(ConfigItems(s)[i].value)
    ensures ConfigItems(s)[i].value != [] && ItemShort(ConfigItems(s)[i])
  {
    hide Calls, FileText, ConfigItems, StringField, Writable, Restores;
    var k := RestoredByCall(s, p, i);
    CallsAreShort(0, ConfigText(s), Scanner([], []));
    NameLengths();
  }

  lemma NameLengths()
    ensures forall name | IsStringName(name) || IsNumberName(name) :: |name| < MAX_NAME
  {
  }

  lemma RestoredFits(s: Settings, p: Parsing, i: nat)
    requires Writable(s) && Restores(s, p) && i < |ConfigItems(s)| && AllOk(ConfigItems(s))
    requires ConfigItems(s)[i].Setting? && IsStringName(ConfigItems(s)[i].name)
    requires StringField(s, ConfigItems(s)[i].name) == Some(ConfigItems(s)[i].value)
    requires forall j | 0 <= j < |ConfigItems(s)| :: ItemShort(ConfigItems(s)[j])
    requires forall j | 0 <= j < |ConfigItems(s)| && ConfigItems(s)[j].Setting?
             && ConfigItems(s)[j].name == ConfigItems(s)[i].name :: j == i
    ensures Fits(ConfigItems(s)[i].name, ConfigItems(s)[i].value)
  {
    hide Calls, FileText, ConfigItems, StringField, Writable, Restores, Fits, IsStringName, ItemShort, AllOk;
    var k := RestoredByCall(s, p, i);
    FileCallsBounded(0, ConfigItems(s), Scanner([], []));
    assert CallBounded(WrittenCalls(s)[k].call, ConfigItems(s));
  }

  /** The settings of a file: where the strings are, and that no name occurs twice. */
  lemma ConfigLayout(s: Settings)
    requires Writable(s)
    ensures var xs := ConfigItems(s);
            && |xs| == 11 && xs[1] == Setting(LOCATION_KEY, s.location.value)
            && xs[2] == Setting(INTERVAL_KEY, s.interval.value) && xs[5] == Setting(DEVICE_NAME_KEY, s.deviceName.value)
            && xs[6] == Setting(DEVICE_CONFIG_KEY, Decimal(s.deviceConfig))
            && xs[9] == Setting(COMM_PORT_KEY, Decimal(s.commPort))
                && xs[10] == Setting(WORKERS_KEY, Decimal(s.workers))
            && !xs[0].Setting? && !xs[3].Setting? && !xs[4].Setting? && !xs[7].Setting? && !xs[8].Setting?
  {
  }

  lemma OneSettingPerName(s: Settings, i: nat, j: nat)
    requires Writable(s) && i < |ConfigItems(s)| && j < |ConfigItems(s)|
    requires ConfigItems(s)[i].Setting? && ConfigItems(s)[j].Setting?
             && ConfigItems(s)[i].name == ConfigItems(s)[j].name
    ensures i == j
  {
    hide ConfigItems, Writable;
    ConfigLayout(s);
    KeysDiffer();
  }

  lemma NumberIsShort(name: bytes, n: int)
    requires IsLong(n) && IsNumberName(name)
    ensures ItemShort(Setting(name, Decimal(n)))
  {
    hide Decimal;
    NameLengths();
    NumberFits(name, n);
    IntLength(n);
  }

  lemma RestoredIsRestorable(s: Settings, p: Parsing)
    requires Writable(s) && Restores(s, p)
    ensures Restorable(s)
  {
    hide ConfigItems, Restores, Fits, ItemShort, AllOk, Decimal, FirstAsks;
    var xs := ConfigItems(s);
    ConfigAsks(s);
    ConfigLayout(s);
    KeysDiffer();
    RestoredIsShort(s, p, 1);
    RestoredIsShort(s, p, 2);
    RestoredIsShort(s, p, 5);
    NumberIsShort(DEVICE_CONFIG_KEY, s.deviceConfig);
    NumberIsShort(COMM_PORT_KEY, s.commPort);
    NumberIsShort(WORKERS_KEY, s.workers);
    OthersAreShort(xs);
    forall i, j | 0 <= i < |xs| && 0 <= j < |xs| && xs[i].Setting? && xs[j].Setting?
        && xs[i].name == xs[j].name ensures i == j {
      OneSettingPerName(s, i, j);
    }
    RestoredFits(s, p, 1);
    RestoredFits(s, p, 2);
    RestoredFits(s, p, 5);
  }

  lemma OthersAreShort(xs: seq<Item>)
    requires forall i | 0 <= i < |xs| && xs[i].Setting? :: ItemShort(xs[i])
    ensures forall i | 0 <= i < |xs| :: ItemShort(xs[i])
  {
  }

  /**
   Parsing a written configuration returns 0 and restores every field exactly when its three
   strings are restorable. Then it counts six entries, or only the three strings if errno had
   been left at ERANGE before.
   */
  lemma ConfigRoundTrip(s: Settings, p: Parsing)
    requires Writable(s)
    ensures Restores(s, p) <==> Restorable(s)
    ensures Restores(s, p) ==> After(p, WrittenCalls(s)) == Parsing(s, p.count + if p.erange then 3 else 6, p.erange)
    ensures Restores(s, p) && After(p, WrittenCalls(s)).count == p.count + 6 <==> Restorable(s) && !p.erange
  {
    hide Restores, Restorable, WrittenCalls, After;
    if Restorable(s) {
      RestorableIsRestored(s, p);
    } else if Restores(s, p) {
      RestoredIsRestorable(s, p);
      assert false;
    }
  }

  // ------------------------------------------------------------------ a number out of range

  /** A file with a number out of range and one in range behind it. */
  function OverflowItems(): seq<Item>
  {
    [Setting(DEVICE_CONFIG_KEY, Decimal(0x8000_0000)), Setting(COMM_PORT_KEY, Decimal(6005))]
  }

  /** It is parsed without an error; both numbers are stored, the first one clamped, and neither is counted. */
  lemma OverflowIsNotReported(p: Parsing)
    ensures var calls := Calls(0, FileText(OverflowItems()), Scanner([], []));
            && FirstError(p, calls) == 0
            && After(p, calls) == Parsing(p.settings.(deviceConfig := 0x7FFF_FFFF, commPort := 6005), p.count, true)
  {
    hide Decimal, Calls, FileText, Handled, After, FirstError, Asks, Positive, ItemOk, FirstAsks, NumSettings, Fits;
    var calls := Calls(0, FileText(OverflowItems()), Scanner([], []));
    var v, n := Decimal(0x8000_0000), Decimal(6005);
    OverflowAsks();
    CallsArePositive(0, FileText(OverflowItems()), Scanner([], []));
    FileCalls(0, OverflowItems(), Scanner([], []));
    var asks := [Ask(DEVICE_CONFIG_KEY, v), Ask(COMM_PORT_KEY, n)];
    OneCall(p, calls, asks);
    OverflowCall(p);
    var q := Handled(p, DEVICE_CONFIG_KEY, v).p;
    OneCall(q, calls[1..], asks[1..]);
    NumberCalls(q, 6005);
    NothingLeft(Handled(q, COMM_PORT_KEY, n).p, calls[1..][1..], asks[1..][1..]);
  }

  lemma OverflowAsks()
    ensures AllOk(OverflowItems()) && AllFit(OverflowItems()) && NumSettings(OverflowItems()) == 2
    ensures FirstAsks(OverflowItems()) == [Ask(DEVICE_CONFIG_KEY, Decimal(0x8000_0000)),
            Ask(COMM_PORT_KEY, Decimal(6005))]
  {
    hide Decimal, Fits, PlainName;
    var x, y := Setting(DEVICE_CONFIG_KEY, Decimal(0x8000_0000)), Setting(COMM_PORT_KEY, Decimal(6005));
    NamesArePlain();
    NumberFits(x.name, 0x8000_0000);
    NumberFits(y.name, 6005);
    CarriedExactly(x.name, x.value);
    CarriedExactly(y.name, y.value);
    AsksStep(y, []);
    AsksStep(x, [y]);
    assert [y] + [] == [y] && [x] + [y] == OverflowItems();
  }

  lemma OverflowCall(p: Parsing)
    ensures Handled(p, DEVICE_CONFIG_KEY, Decimal(0x8000_0000))
         == Answer(p.(settings := p.settings.(deviceConfig := 0x7FFF_FFFF), erange := true), CONFIG_ERROR_DEVICE_CONFIG)
  {
    hide Decimal, StrToL;
    NumberBack(0x8000_0000);
    KeysDiffer();
  }
}
