/**
 The configuration file: its writer, the handler that the INI scanner calls, and that reading
 a written file gives the configuration back.
 */
module Config {
  import opened Bytes
  import opened JsonNumber
  import opened Ini
  import opened IniReader

  // measure_location
  const LOCATION_KEY: bytes := [109, 101, 97, 115, 117, 114, 101, 95, 108, 111, 99, 97, 116, 105, 111, 110]
  const INTERVAL_KEY: bytes := [113, 117, 101, 114, 121, 95, 105, 110, 116, 101, 114, 118, 97, 108] // query_interval
  const DEVICE_NAME_KEY: bytes := [100, 101, 118, 105, 99, 101, 95, 110, 97, 109, 101] // device_name
  const DEVICE_CONFIG_KEY: bytes := [100, 101, 118, 105, 99, 101, 95, 99, 111, 110, 102, 105, 103] // device_config
  const UNITS_KEY: bytes := [117, 110, 105, 116, 115] // units
  const COMM_PORT_KEY: bytes := [99, 111, 109, 109, 95, 112, 111, 114, 116] // comm_port
  // num_worker_threads
  const WORKERS_KEY: bytes := [110, 117, 109, 95, 119, 111, 114, 107, 101, 114, 95, 116, 104, 114, 101, 97, 100, 115]
  const GENERAL: bytes := [71, 101, 110, 101, 114, 97, 108] // General
  // Device Configuration
  const DEVICE: bytes := [68, 101, 118, 105, 99, 101, 32, 67, 111, 110, 102, 105, 103, 117, 114, 97, 116, 105, 111, 110]
  // Server Configuration
  const SERVER: bytes := [83, 101, 114, 118, 101, 114, 32, 67, 111, 110, 102, 105, 103, 117, 114, 97, 116, 105, 111,
      110]

  const CONFIG_ERROR_COMM_PORT: int := -1
  const CONFIG_ERROR_DEVICE_CONFIG: int := -2
  const CONFIG_ERROR_NUM_WTHREADS: int := -3

  // ------------------------------------------------------------------ the handler

  /** The settings of rpiwd_config; a string that was never set is NULL. */
  datatype Settings = Settings(location: Option<bytes>, interval: Option<bytes>, deviceName: Option<bytes>,
                               deviceConfig: int, commPort: int, workers: int)

  /** With the static counter and whether errno is ERANGE, which nothing ever resets. */
  datatype Parsing = Parsing(settings: Settings, count: nat, erange: bool)

  predicate IsLong(n: int) { -0x8000_0000 <= n < 0x8000_0000 }

  datatype Converted = Converted(value: int, overflow: bool)

  function Clamped(n: int): Converted
  {
    if n < -0x8000_0000 then Converted(-0x8000_0000, true)
    else if n >= 0x8000_0000 then Converted(0x7FFF_FFFF, true)
    else Converted(n, false)
  }

  /** strtol in base 10 with a 32-bit long. */
  function StrToL(s: bytes): Converted
  {
    var t := SkipSpaces(s);
    var u := if t != [] && (t[0] == MINUS || t[0] == 43) then t[1..] else t;
    var n: int := NatValue(u[..DigitRun(u)]);
    Clamped(if t != [] && t[0] == MINUS then -n else n)
  }

  datatype Answer = Answer(p: Parsing, r: int)

  function Counted(p: Parsing, s: Settings): Answer { Answer(p.(settings := s, count := p.count + 1), 1) }

  /** A number is stored in any case; after an overflow it is reported and not counted. */
  function CountedNumber(p: Parsing, s: Settings, overflow: bool, error: int): Answer
  {
    if p.erange || overflow then Answer(p.(settings := s, erange := true), error) else Counted(p, s)
  }

  /** inih_callback */
  function Handled(p: Parsing, name: bytes, value: bytes): Answer
  {
    var s, n := p.settings, StrToL(value);
    if value == [] then Answer(p, 0)
    else if name == LOCATION_KEY then Counted(p, s.(location := Some(value)))
    else if name == INTERVAL_KEY then Counted(p, s.(interval := Some(value)))
    else if name == DEVICE_NAME_KEY then Counted(p, s.(deviceName := Some(value)))
    else if name == DEVICE_CONFIG_KEY then CountedNumber(p, s.(deviceConfig := n.value), n.overflow,
        CONFIG_ERROR_DEVICE_CONFIG)
    else if name == UNITS_KEY then Counted(p, s)
    else if name == COMM_PORT_KEY then CountedNumber(p, s.(commPort := n.value), n.overflow, CONFIG_ERROR_COMM_PORT)
    else if name == WORKERS_KEY then CountedNumber(p, s.(workers := n.value), n.overflow, CONFIG_ERROR_NUM_WTHREADS)
    else Answer(p, 0)
  }

  predicate Refused(p: Parsing, c: Call) { c.BadLine? || Handled(p, c.name, c.value).r == 0 }

  function AfterCall(p: Parsing, c: Call): Parsing { if c.BadLine? then p else Handled(p, c.name, c.value).p }

  function After(p: Parsing, calls: seq<Numbered>): Parsing
    decreases |calls|
  {
    if calls == [] then p else After(AfterCall(p, calls[0].call), calls[1..])
  }

  /** The line of the first call that is refused, 0 if none is. */
  function FirstError(p: Parsing, calls: seq<Numbered>): nat
    decreases |calls|
  {
    if calls == [] then 0
    else if Refused(p, calls[0].call) then calls[0].lineno
    else FirstError(AfterCall(p, calls[0].call), calls[1..])
  }

  class ConfigFile {
    var location: Option<bytes>
    var interval: Option<bytes>
    var deviceName: Option<bytes>
    var deviceConfig: int
    var commPort: int
    var workers: int
    var configCount: nat
    var tempCount: nat
    var erange: bool

    ghost function View(): Parsing
      reads this
    {
      Parsing(Settings(location, interval, deviceName, deviceConfig, commPort, workers), tempCount, erange)
    }

    method ToLong(value: bytes) returns (n: int)
      modifies this`erange
      ensures n == StrToL(value).value && erange == (old(erange) || StrToL(value).overflow)
    {
      var c := StrToL(value);
      n := c.value;
      if c.overflow {
        erange := true;
      }
    }

    method InihCallback(name: bytes, value: bytes) returns (r: int)
      modifies this
      ensures View() == Handled(old(View()), name, value).p && r == Handled(old(View()), name, value).r
      ensures configCount == old(configCount)
    {
      hide StrToL;
      if value == [] {
        return 0;
      }
      if name == LOCATION_KEY {
        location := Some(value);
      } else if name == INTERVAL_KEY {
        interval := Some(value);
      } else if name == DEVICE_NAME_KEY {
        deviceName := Some(value);
      } else if name == DEVICE_CONFIG_KEY {
        deviceConfig := ToLong(value);
        if erange {
          return CONFIG_ERROR_DEVICE_CONFIG;
        }
      } else if name == UNITS_KEY {
      } else if name == COMM_PORT_KEY {
        commPort := ToLong(value);
        if erange {
          return CONFIG_ERROR_COMM_PORT;
        }
      } else if name == WORKERS_KEY {
        workers := ToLong(value);
        if erange {
          return CONFIG_ERROR_NUM_WTHREADS;
        }
      } else {
        return 0;
      }
      tempCount := tempCount + 1;
      return 1;
    }

    /** ini_parse_stream with this handler. */
    method ParseStream(stream: bytes) returns (error: nat)
      modifies this
      ensures View() == After(old(View()), Calls(0, stream, Scanner([], [])))
      ensures error == FirstError(old(View()), Calls(0, stream, Scanner([], [])))
      ensures configCount == old(configCount)
    {
      hide Line, Handled, CStr, Chunk;
      var line := new byte[INI_MAX_LINE];
      var st, pos, lineno := Scanner([], []), 0, 0;
      error := 0;
      ghost var all := Calls(0, stream, st);
      assert stream[0..] == stream;
      while pos < |stream|
        invariant pos <= |stream|
        invariant After(old(View()), all) == After(View(), Calls(lineno, stream[pos..], st))
        invariant FirstError(old(View()), all) == if error != 0 then error
                  else FirstError(View(), Calls(lineno, stream[pos..], st))
        invariant configCount == old(configCount)
      {
        var next := GetLine(line, stream, pos);
        ghost var rest := stream[pos..];
        assert stream[pos..next] == rest[..Chunk(rest)] && stream[next..] == rest[Chunk(rest)..];
        lineno := lineno + 1;
        var o := ReadLine(line, lineno, st, CStr(stream[pos..next]));
        ghost var calls := Calls(lineno, stream[next..], o.scanner);
        assert Calls(lineno - 1, rest, st) == CallAt(lineno, o) + calls;
        if o.call.Some? {
          assert (CallAt(lineno, o) + calls)[1..] == calls;
          if o.call.value.BadLine? {
            if error == 0 {
              error := lineno;
            }
          } else {
            var r := InihCallback(o.call.value.name, o.call.value.value);
            if r == 0 && error == 0 {
              error := lineno;
            }
          }
        } else {
          assert CallAt(lineno, o) + calls == calls;
        }
        st := o.scanner;
        pos := next;
      }
    }

    /** parse_config_file on the contents of the file. */
    method ParseConfigFile(stream: bytes) returns (flag: nat)
      modifies this
      ensures View() == After(old(View()).(count := 0), Calls(0, stream, Scanner([], [])))
      ensures flag == FirstError(old(View()).(count := 0), Calls(0, stream, Scanner([], [])))
      ensures configCount == View().count
    {
      tempCount := 0;
      flag := ParseStream(stream);
      configCount := tempCount;
    }
  }
}
