/**
 The database thread's queries over an abstract table: rows in the order they were
 inserted, which is the order a select without an ordering clause walks them here.
 */
module DbHandler {
  import opened Bytes
  import opened Replies

  const MAX_FETCHED_ENTRIES: nat := 2048

  const ERROR_SUCCESS: int := 0
  const ERROR_TOO_MANY_ENTRIES: int := -1

  /** A row of tblData with the time its record date stands for. Temperatures are in Celsius. */
  datatype Stored = Stored(stamp: int, e: Entry)

  /** The query pairs that a fetch request prepares. */
  datatype Query =
    | Later(t: int)
    | Earlier(t: int)
    | Between(from: int, to: int)
    | FirstN(n: nat)

  predicate Matches(q: Query, r: Stored)
  {
    match q
    case Later(t) => r.stamp > t
    case Earlier(t) => r.stamp < t
    case Between(a, b) => a <= r.stamp <= b
    case FirstN(_) => true
  }

  function Filter(q: Query, table: seq<Stored>): (r: seq<Stored>)
    ensures |r| <= |table|
  {
    if table == [] then []
    else if Matches(q, table[0]) then [table[0]] + Filter(q, table[1..])
    else Filter(q, table[1..])
  }

  /** The select query. */
  function Select(q: Query, table: seq<Stored>): seq<Stored>
  {
    if q.FirstN? then (if q.n <= |table| then table[..q.n] else table) else Filter(q, table)
  }

  /** The count query; for "the first n" it is the constant n, not the number of rows. */
  function Count(q: Query, table: seq<Stored>): nat
  {
    if q.FirstN? then q.n else |Filter(q, table)|
  }

  /** RPIWD_CELSIUS_TO_FARENHEIT unless the request asked for Celsius. */
  function TemperatureIn(unit: byte, celsius: real): real
  {
    if unit == CELSIUS then celsius else celsius * 9.0 / 5.0 + 32.0
  }

  function Converted(unit: byte, e: Entry): Entry
  {
    e.(temperature := TemperatureIn(unit, e.temperature))
  }

  function ConvertedAll(unit: byte, rows: seq<Stored>): (r: seq<Entry>)
    ensures |r| == |rows|
  {
    seq(|rows|, i requires 0 <= i < |rows| => Converted(unit, rows[i].e))
  }

  /** What a fetch request is answered with; None when there are too many rows. */
  function Fetch(q: Query, unit: byte, table: seq<Stored>): Option<seq<Entry>>
  {
    if Count(q, table) > MAX_FETCHED_ENTRIES then None else Some(ConvertedAll(unit, Select(q, table)))
  }

  /** The two queries agree: no more rows are selected than were counted. */
  lemma SelectFits(q: Query, table: seq<Stored>)
    ensures |Select(q, table)| <= Count(q, table)
  {
  }

  /**
   exec_fetch_query: the list has room for as many entries as were counted, and the loop over
   the selected rows never stores past it.
   */
  method ExecFetchQuery(q: Query, unit: byte, table: seq<Stored>) returns (list: Option<seq<Entry>>, errcode: int)
    ensures list == Fetch(q, unit, table)
    ensures errcode == if list.None? then ERROR_TOO_MANY_ENTRIES else ERROR_SUCCESS
  {
    var count := Count(q, table);
    if count > MAX_FETCHED_ENTRIES {
      return None, ERROR_TOO_MANY_ENTRIES;
    }
    var rows := Select(q, table);
    SelectFits(q, table);
    var entries := new Entry[count](i => Entry(0, None, 0.0, 0.0, [], []));
    var i := 0;
    while i < |rows|
      invariant 0 <= i <= |rows|
      invariant forall j | 0 <= j < i :: entries[j] == Converted(unit, rows[j].e)
    {
      entries[i] := rows[i].e;
      if unit != CELSIUS {
        entries[i] := entries[i].(temperature := entries[i].temperature * 9.0 / 5.0 + 32.0);
      }
      i := i + 1;
    }
    assert entries[..i] == ConvertedAll(unit, rows);
    return Some(entries[..i]), ERROR_SUCCESS;
  }

  // ------------------------------------------------------------------ what a select returns

  ghost predicate DistinctRowIds(rows: seq<Stored>)
  {
    forall i, j | 0 <= i < j < |rows| :: rows[i].e.id != rows[j].e.id
  }

  /** Positions in a table, in order. */
  ghost predicate Ascending(at: seq<nat>, n: nat)
  {
    (forall i | 0 <= i < |at| :: at[i] < n) && forall i, j | 0 <= i < j < |at| :: at[i] < at[j]
  }

  /** The positions are exactly those of the rows that the query asks for. */
  ghost predicate AskedFor(q: Query, table: seq<Stored>, at: seq<nat>)
  {
    && (q.Later? ==> forall j: nat | j < |table| :: j in at <==> table[j].stamp > q.t)
    && (q.Earlier? ==> forall j: nat | j < |table| :: j in at <==> table[j].stamp < q.t)
    && (q.Between? ==> forall j: nat | j < |table| :: j in at <==> q.from <= table[j].stamp && table[j].stamp <= q.to)
    && (q.FirstN? ==> forall j: nat | j < |table| :: j in at <==> j < q.n)
  }

  ghost predicate RowsAt(table: seq<Stored>, at: seq<nat>, rows: seq<Stored>)
    requires Ascending(at, |table|)
  {
    |rows| == |at| && forall i | 0 <= i < |at| :: rows[i] == table[at[i]]
  }

  /** Positions in a table that has one more row in front, which may be one of them. */
  function Shifted(at: seq<nat>, first: bool): (r: seq<nat>)
    ensures |r| == |at| + if first then 1 else 0
  {
    (if first then [0] else []) + seq(|at|, i requires 0 <= i < |at| => at[i] + 1)
  }

  lemma {:induction false} FilterPositions(q: Query, table: seq<Stored>) returns (at: seq<nat>)
    ensures Ascending(at, |table|) && RowsAt(table, at, Filter(q, table))
    ensures forall j: nat | j < |table| :: j in at <==> Matches(q, table[j])
  {
    if table == [] {
      at := [];
    } else {
      hide Matches;
      var rest := FilterPositions(q, table[1..]);
      var first := Matches(q, table[0]);
      at := Shifted(rest, first);
      ShiftedRows(table, rest, first, Filter(q, table[1..]));
      forall j: nat | j < |table| ensures j in at <==> Matches(q, table[j]) {
        ShiftedHas(rest, first, j);
        if j > 0 {
          assert table[j] == table[1..][j - 1];
        }
      }
    }
  }

  lemma ShiftedRows(table: seq<Stored>, at: seq<nat>, first: bool, rows: seq<Stored>)
    requires table != [] && Ascending(at, |table| - 1) && RowsAt(table[1..], at, rows)
    ensures var up := Shifted(at, first);
            Ascending(up, |table|) && RowsAt(table, up, (if first then [table[0]] else []) + rows)
  {
    assert forall i | 0 <= i < |at| :: table[1..][at[i]] == table[at[i] + 1];
  }

  lemma ShiftedHas(at: seq<nat>, first: bool, j: nat)
    ensures j in Shifted(at, first) <==> if j == 0 then first else j - 1 in at
  {
    var up, d := Shifted(at, first), if first then 1 else 0;
    assert forall i | 0 <= i < |at| :: up[d + i] == at[i] + 1;
    if j > 0 && j - 1 in at {
      var i :| 0 <= i < |at| && at[i] == j - 1;
      assert up[d + i] == j;
    }
    if first {
      assert up[0] == 0;
    }
  }

  /** A select returns exactly the rows asked for, in the order of the table. */
  lemma SelectIsExact(q: Query, table: seq<Stored>) returns (at: seq<nat>)
    ensures Ascending(at, |table|) && AskedFor(q, table, at) && RowsAt(table, at, Select(q, table))
  {
    if q.FirstN? {
      at := seq(|Select(q, table)|, i => i);
      forall j: nat | j < |table| ensures j in at <==> j < q.n {
        if j < q.n {
          assert at[j] == j;
        }
      }
    } else {
      at := FilterPositions(q, table);
    }
  }

  /** A stored row as it is reported: temperatures are stored in Celsius. */
  ghost predicate Reports(unit: byte, r: Stored, e: Entry)
  {
    && e.id == r.e.id && e.recordDate == r.e.recordDate && e.humidity == r.e.humidity
    && e.location == r.e.location && e.deviceName == r.e.deviceName
    && (unit == 99 ==> e.temperature == r.e.temperature)
    && (unit != 99 ==> 5.0 * (e.temperature - 32.0) == 9.0 * r.e.temperature)
  }

  /** What a fetch is answered with, said of the table alone. */
  ghost predicate Fetches(q: Query, unit: byte, table: seq<Stored>, es: seq<Entry>)
  {
    exists at :: Ascending(at, |table|) && AskedFor(q, table, at) && ReportsAt(unit, table, at, es)
  }

  ghost predicate ReportsAt(unit: byte, table: seq<Stored>, at: seq<nat>, es: seq<Entry>)
    requires Ascending(at, |table|)
  {
    |es| == |at| && forall i | 0 <= i < |at| :: Reports(unit, table[at[i]], es[i])
  }

  /**
   A fetch reports exactly the rows asked for, in order and in the unit asked for. It is refused
   exactly when more than 2048 rows were asked for, be they there or not.
   */
  lemma FetchIsExact(q: Query, unit: byte, table: seq<Stored>)
    ensures Fetch(q, unit, table).Some? ==> Fetches(q, unit, table, Fetch(q, unit, table).value)
    ensures q.FirstN? ==> (Fetch(q, unit, table).None? <==> q.n > 2048)
    ensures !q.FirstN? ==>
              (Fetch(q, unit, table).None? <==>
                 exists at :: Ascending(at, |table|) && AskedFor(q, table, at) && |at| > 2048)
  {
    var at := SelectIsExact(q, table);
    var rows := Select(q, table);
    forall i | 0 <= i < |at| ensures Reports(unit, table[at[i]], Converted(unit, rows[i].e)) {
      InFahrenheit(table[at[i]].e.temperature);
    }
    if Fetch(q, unit, table).Some? {
      assert ReportsAt(unit, table, at, Fetch(q, unit, table).value);
    }
    if !q.FirstN? {
      forall other | Ascending(other, |table|) && AskedFor(q, table, other) ensures |other| == |at| {
        SamePositions(at, other, |table|);
      }
    }
  }

  lemma InFahrenheit(c: real)
    ensures 5.0 * (c * 9.0 / 5.0 + 32.0 - 32.0) == 9.0 * c
  {
  }

  /** Positions in order are determined by which there are. */
  lemma {:induction false} SamePositions(a: seq<nat>, b: seq<nat>, n: nat)
    requires Ascending(a, n) && Ascending(b, n) && forall j: nat | j < n :: j in a <==> j in b
    ensures a == b
    decreases n
  {
    if n > 0 {
      var a1 := Without(a, n);
      var b1 := Without(b, n);
      SamePositions(a1, b1, n - 1);
    } else {
      FirstBelow(a, n);
      FirstBelow(b, n);
    }
  }

  lemma FirstBelow(a: seq<nat>, n: nat)
    requires Ascending(a, n)
    ensures a != [] ==> n > 0
  {
    if a != [] {
      assert a[0] < n;
    }
  }

  lemma Without(a: seq<nat>, n: nat) returns (r: seq<nat>)
    requires n > 0 && Ascending(a, n)
    ensures Ascending(r, n - 1) && a == r + (if n - 1 in a then [n - 1] else [])
    ensures forall j: nat | j < n - 1 :: j in r <==> j in a
  {
    if a != [] && a[|a| - 1] == n - 1 {
      r := a[..|a| - 1];
    } else {
      r := a;
      assert forall i | 0 <= i < |a| :: a[i] <= a[|a| - 1];
    }
  }

  /** The selected rows are exactly those that match, each as often as it is in the table. */
  lemma {:induction false} FilterIsExact(q: Query, table: seq<Stored>, r: Stored)
    ensures multiset(Filter(q, table))[r] == if Matches(q, r) then multiset(table)[r] else 0
  {
    if table != [] {
      assert table == [table[0]] + table[1..];
      FilterIsExact(q, table[1..], r);
    }
  }

  lemma {:induction false} FilterFrom(q: Query, table: seq<Stored>, i: nat)
    requires i < |Filter(q, table)|
    ensures Filter(q, table)[i] in table
  {
    if Matches(q, table[0]) {
      if i > 0 {
        FilterFrom(q, table[1..], i - 1);
      }
    } else {
      FilterFrom(q, table[1..], i);
    }
  }

  lemma {:induction false} FilterDistinct(q: Query, table: seq<Stored>)
    requires DistinctRowIds(table)
    ensures DistinctRowIds(Filter(q, table))
  {
    if table != [] {
      assert forall i | 0 <= i < |table| - 1 :: table[1..][i] == table[i + 1];
      FilterDistinct(q, table[1..]);
      var rest := Filter(q, table[1..]);
      forall j | 0 <= j < |rest| ensures rest[j].e.id != table[0].e.id {
        FilterFrom(q, table[1..], j);
      }
    }
  }

  /** A fetch reply never holds two rows with the same id. */
  lemma FetchedIdsDiffer(q: Query, unit: byte, table: seq<Stored>)
    requires DistinctRowIds(table)
    ensures Fetch(q, unit, table).Some? ==> DistinctIds(Fetch(q, unit, table).value)
  {
    FilterDistinct(q, table);
  }
}
