/**
 What the handler makes of any sequence of calls: which are refused, which are counted, and
 what a number out of range does to the ones that follow it.
 */
module ConfigHandler {
  import opened Bytes
  import opened JsonNumber
  import opened Ini
  import opened Config

  predicate Positive(calls: seq<Numbered>) { forall i | 0 <= i < |calls| :: calls[i].lineno > 0 }

  predicate IsNumberName(name: bytes) { name == DEVICE_CONFIG_KEY || name == COMM_PORT_KEY || name == WORKERS_KEY }

  predicate IsStringName(name: bytes) { name == LOCATION_KEY || name == INTERVAL_KEY || name == DEVICE_NAME_KEY }

  /** A known name with a value. */
  predicate Sound(c: Call)
  {
    c.Pair? && c.value != [] && (IsStringName(c.name) || IsNumberName(c.name) || c.name == UNITS_KEY)
  }

  predicate Numeric(c: Call) { Sound(c) && IsNumberName(c.name) }

  /** A number that a long cannot hold. */
  predicate Overflows(c: Call) { Numeric(c) && StrToL(c.value).overflow }

  lemma KeysDiffer()
    ensures LOCATION_KEY != INTERVAL_KEY && LOCATION_KEY != DEVICE_NAME_KEY && INTERVAL_KEY != DEVICE_NAME_KEY
    ensures DEVICE_CONFIG_KEY !in [LOCATION_KEY, INTERVAL_KEY, DEVICE_NAME_KEY]
    ensures UNITS_KEY !in [LOCATION_KEY, INTERVAL_KEY, DEVICE_NAME_KEY, DEVICE_CONFIG_KEY]
    ensures COMM_PORT_KEY !in [LOCATION_KEY, INTERVAL_KEY, DEVICE_NAME_KEY, DEVICE_CONFIG_KEY, UNITS_KEY]
    ensures WORKERS_KEY !in [LOCATION_KEY, INTERVAL_KEY, DEVICE_NAME_KEY, DEVICE_CONFIG_KEY, UNITS_KEY, COMM_PORT_KEY]
  {
    assert |LOCATION_KEY| == 16 && |INTERVAL_KEY| == 14 && |DEVICE_NAME_KEY| == 11 && |DEVICE_CONFIG_KEY| == 13;
    assert |UNITS_KEY| == 5 && |COMM_PORT_KEY| == 9 && |WORKERS_KEY| == 18;
  }

  /** What one call does to the counter and to errno, and whether it is refused. */
  lemma CallEffect(p: Parsing, c: Call)
    ensures Refused(p, c) <==> !Sound(c)
    ensures AfterCall(p, c).erange == (p.erange || Overflows(c))
    ensures AfterCall(p, c).count == p.count + if Sound(c) && !(Numeric(c) && (p.erange || Overflows(c))) then 1 else 0
  {
    hide StrToL;
    KeysDiffer();
  }

  // ------------------------------------------------------------------ errors

  /** An overflow is never an error: the result is 0 exactly when every call has a known name and a value. */
  lemma {:induction false} FirstErrorExactly(p: Parsing, calls: seq<Numbered>)
    requires Positive(calls)
    ensures FirstError(p, calls) == 0 <==> forall i | 0 <= i < |calls| :: Sound(calls[i].call)
    decreases |calls|
  {
    hide Refused, AfterCall, Sound;
    if calls != [] {
      CallEffect(p, calls[0].call);
      FirstErrorExactly(AfterCall(p, calls[0].call), calls[1..]);
      assert forall i | 0 <= i < |calls| - 1 :: calls[1..][i] == calls[i + 1];
    }
  }

  /** And otherwise it is the line of the first call that has not, whatever was parsed before. */
  lemma {:induction false} FirstErrorIs(p: Parsing, calls: seq<Numbered>, k: nat)
    requires k < |calls| && !Sound(calls[k].call) && forall i | 0 <= i < k :: Sound(calls[i].call)
    ensures FirstError(p, calls) == calls[k].lineno
    decreases |calls|
  {
    hide Refused, AfterCall, Sound;
    CallEffect(p, calls[0].call);
    if k > 0 {
      assert forall i | 0 <= i < |calls| - 1 :: calls[1..][i] == calls[i + 1];
      FirstErrorIs(AfterCall(p, calls[0].call), calls[1..], k - 1);
    }
  }

  // ------------------------------------------------------------------ the counter

  function NumSound(calls: seq<Numbered>): nat
    decreases |calls|
  {
    if calls == [] then 0 else (if Sound(calls[0].call) then 1 else 0) + NumSound(calls[1..])
  }

  /** The numbers that come at or after one out of range, or all when errno was set before. */
  function Lost(erange: bool, calls: seq<Numbered>): nat
    decreases |calls|
  {
    if calls == [] then 0
    else
      var c := calls[0].call;
      var e := erange || Overflows(c);
      (if Numeric(c) && e then 1 else 0) + Lost(e, calls[1..])
  }

  /** The counter after any calls: all that have a known name and a value, less the lost numbers. */
  lemma {:induction false} CountExactly(p: Parsing, calls: seq<Numbered>)
    ensures After(p, calls).count == p.count + NumSound(calls) - Lost(p.erange, calls)
    ensures After(p, calls).erange <==> p.erange || exists i | 0 <= i < |calls| :: Overflows(calls[i].call)
    decreases |calls|
  {
    hide AfterCall, Sound, StrToL;
    if calls != [] {
      CallEffect(p, calls[0].call);
      CountExactly(AfterCall(p, calls[0].call), calls[1..]);
      assert forall i | 0 <= i < |calls| - 1 :: calls[1..][i] == calls[i + 1];
      assert forall i | 1 <= i < |calls| :: calls[i] == calls[1..][i - 1];
    }
  }

  /** No number comes at or after an overflow. */
  ghost predicate NoneLost(erange: bool, calls: seq<Numbered>)
  {
    forall i, j | 0 <= j <= i < |calls| && Numeric(calls[i].call) :: !erange && !Overflows(calls[j].call)
  }

  lemma {:induction false} LostExactly(erange: bool, calls: seq<Numbered>)
    ensures Lost(erange, calls) == 0 <==> NoneLost(erange, calls)
    decreases |calls|
  {
    hide Numeric, Overflows;
    if calls != [] {
      var c := calls[0].call;
      var e := erange || Overflows(c);
      LostExactly(e, calls[1..]);
      OverflowIsNumeric(c);
      if Lost(erange, calls) == 0 {
        NoneLostWhole(erange, calls);
      } else if NoneLost(erange, calls) {
        NoneLostTail(erange, calls);
        assert false;
      }
    }
  }

  lemma OverflowIsNumeric(c: Call)
    ensures Overflows(c) ==> Numeric(c)
  {
  }

  lemma NoneLostWhole(erange: bool, calls: seq<Numbered>)
    requires calls != [] && (Overflows(calls[0].call) ==> Numeric(calls[0].call))
    requires !(Numeric(calls[0].call) && (erange || Overflows(calls[0].call)))
    requires NoneLost(erange || Overflows(calls[0].call), calls[1..])
    ensures NoneLost(erange, calls)
  {
    hide Numeric, Overflows;
    var rest := calls[1..];
    forall i, j | 0 <= j <= i < |calls| && Numeric(calls[i].call) ensures !erange && !Overflows(calls[j].call) {
      if i > 0 {
        assert calls[i] == rest[i - 1];
        if j > 0 {
          assert calls[j] == rest[j - 1];
        }
        assert 0 <= i - 1 <= i - 1 < |rest| && Numeric(rest[i - 1].call);
      }
    }
  }

  lemma NoneLostTail(erange: bool, calls: seq<Numbered>)
    requires calls != [] && (Overflows(calls[0].call) ==> Numeric(calls[0].call)) && NoneLost(erange, calls)
    ensures !(Numeric(calls[0].call) && (erange || Overflows(calls[0].call)))
    ensures NoneLost(erange || Overflows(calls[0].call), calls[1..])
  {
    hide Numeric, Overflows;
    var rest := calls[1..];
    forall i, j | 0 <= j <= i < |rest| && Numeric(rest[i].call)
      ensures !(erange || Overflows(calls[0].call)) && !Overflows(rest[j].call)
    {
      assert rest[i] == calls[i + 1] && rest[j] == calls[j + 1];
      assert 0 <= 0 <= i + 1 < |calls|;
    }
  }

  lemma {:induction false} AllSound(calls: seq<Numbered>)
    requires forall i | 0 <= i < |calls| :: Sound(calls[i].call)
    ensures NumSound(calls) == |calls|
    decreases |calls|
  {
    if calls != [] {
      AllSound(calls[1..]);
    }
  }

  /** Of calls without error, every one is counted exactly when no number comes at or after an overflow. */
  lemma EveryCallCounts(p: Parsing, calls: seq<Numbered>)
    requires Positive(calls) && FirstError(p, calls) == 0
    ensures After(p, calls).count == p.count + |calls| <==> NoneLost(p.erange, calls)
  {
    hide Sound, NoneLost, Lost, NumSound, After, FirstError;
    FirstErrorExactly(p, calls);
    CountExactly(p, calls);
    LostExactly(p.erange, calls);
    AllSound(calls);
  }

  // ------------------------------------------------------------------ the fields

  function StringField(s: Settings, name: bytes): Option<bytes>
  {
    if name == LOCATION_KEY then s.location else if name == INTERVAL_KEY then s.interval else s.deviceName
  }

  function NumberField(s: Settings, name: bytes): int
  {
    if name == DEVICE_CONFIG_KEY then s.deviceConfig else if name == COMM_PORT_KEY then s.commPort else s.workers
  }

  predicate Sets(c: Call, name: bytes) { c.Pair? && c.name == name }

  /** With a value; without one the field stays as it is. */
  predicate Gives(c: Call, name: bytes) { Sets(c, name) && c.value != [] }

  lemma StringCall(p: Parsing, c: Call, name: bytes)
    requires IsStringName(name)
    ensures StringField(AfterCall(p, c).settings, name) ==
            if Gives(c, name) then Some(c.value) else StringField(p.settings, name)
  {
    hide StrToL;
    KeysDiffer();
  }

  lemma NumberCall(p: Parsing, c: Call, name: bytes)
    requires IsNumberName(name)
    ensures NumberField(AfterCall(p, c).settings, name) ==
            if Gives(c, name) then StrToL(c.value).value else NumberField(p.settings, name)
  {
    hide StrToL;
    KeysDiffer();
  }

  /** The last call that gives a value to the name. */
  ghost predicate LastGiven(calls: seq<Numbered>, name: bytes, i: nat)
  {
    i < |calls| && Gives(calls[i].call, name) && forall j | i < j < |calls| :: !Gives(calls[j].call, name)
  }

  ghost predicate NeverGiven(calls: seq<Numbered>, name: bytes)
  {
    forall j | 0 <= j < |calls| :: !Gives(calls[j].call, name)
  }

  lemma LastOfRest(calls: seq<Numbered>, name: bytes)
    requires calls != []
    ensures forall i: nat :: LastGiven(calls[1..], name, i) ==> LastGiven(calls, name, i + 1)
    ensures NeverGiven(calls[1..], name) && Gives(calls[0].call, name) ==> LastGiven(calls, name, 0)
    ensures NeverGiven(calls[1..], name) && !Gives(calls[0].call, name) ==> NeverGiven(calls, name)
  {
    hide Gives;
    var rest := calls[1..];
    assert forall i | 1 <= i < |calls| :: calls[i] == rest[i - 1];
  }

  /** After any calls, refused or not, a string is what the last call with a value for it says. */
  lemma {:induction false} StringIsLast(p: Parsing, calls: seq<Numbered>, name: bytes)
    requires IsStringName(name)
    ensures var f := StringField(After(p, calls).settings, name);
            || (exists i: nat :: LastGiven(calls, name, i) && f == Some(calls[i].call.value))
            || (NeverGiven(calls, name) && f == StringField(p.settings, name))
    decreases |calls|
  {
    hide StringField, AfterCall, IsStringName, Gives, LastGiven, NeverGiven;
    if calls == [] {
      NoneGiven(name);
    } else {
      StringCall(p, calls[0].call, name);
      StringIsLast(AfterCall(p, calls[0].call), calls[1..], name);
      LastOfRest(calls, name);
      LastIsIn(calls[1..], name);
    }
  }

  /** And a number what strtol makes of it, clamped if it is out of range. */
  lemma {:induction false} NumberIsLast(p: Parsing, calls: seq<Numbered>, name: bytes)
    requires IsNumberName(name)
    ensures var f := NumberField(After(p, calls).settings, name);
            || (exists i: nat :: LastGiven(calls, name, i) && f == StrToL(calls[i].call.value).value)
            || (NeverGiven(calls, name) && f == NumberField(p.settings, name))
    decreases |calls|
  {
    hide NumberField, AfterCall, IsNumberName, Gives, LastGiven, NeverGiven, StrToL;
    if calls == [] {
      NoneGiven(name);
    } else {
      NumberCall(p, calls[0].call, name);
      NumberIsLast(AfterCall(p, calls[0].call), calls[1..], name);
      LastOfRest(calls, name);
      LastIsIn(calls[1..], name);
    }
  }

  lemma NoneGiven(name: bytes)
    ensures NeverGiven([], name)
  {
  }

  lemma LastIsIn(calls: seq<Numbered>, name: bytes)
    ensures forall i: nat :: LastGiven(calls, name, i) ==> i < |calls| && calls[i].call.Pair?
  {
  }
}
