/**
 What the answers of the request protocol say: the database thread works through its queue in
 order, so that an answer reflects exactly the writes sent before the request.
 */
module ProtocolAnswers {
  import opened Bytes
  import opened Replies
  import opened DbHandler
  import opened Protocol
  import opened ProtocolSafety

  function NumRequests(ms: seq<Msg>): nat
  {
    if ms == [] then 0 else NumRequests(ms[..|ms| - 1]) + One(ForDb(ms[|ms| - 1]))
  }

  /** The samples among the messages, in order. */
  function Written(ms: seq<Msg>): seq<Sample>
  {
    if ms == [] then []
    else Written(ms[..|ms| - 1]) + (if ms[|ms| - 1].mtype == WRITE_ENTRY then [ms[|ms| - 1].sample] else [])
  }

  function NumWrites(ms: seq<Msg>): nat { |Written(ms)| }

  /** Rows with ascending ids, made of samples and the times of their insertion. */
  function RowsFrom(id: int, samples: seq<Sample>, stamps: seq<Stamp>): (r: seq<Stored>)
    requires |samples| == |stamps|
    ensures |r| == |samples|
  {
    seq(|samples|, i requires 0 <= i < |samples| =>
      var x := samples[i];
      Stored(stamps[i].time, Entry(id + i, Some(stamps[i].date), x.temperature, x.humidity, x.location, x.deviceName)))
  }

  lemma LogAppend(ms: seq<Msg>, m: Msg)
    ensures NumWrites(ms + [m]) == NumWrites(ms) + One(m.mtype == WRITE_ENTRY)
    ensures NumRequests(ms + [m]) == NumRequests(ms) + One(ForDb(m))
    ensures Written(ms + [m]) == Written(ms) + (if m.mtype == WRITE_ENTRY then [m.sample] else [])
  {
    assert (ms + [m])[..|ms + [m]| - 1] == ms;
  }

  lemma {:induction false} FewerWrites(ms: seq<Msg>, j: nat, k: nat)
    requires j <= k <= |ms|
    ensures NumWrites(ms[..j]) <= NumWrites(ms[..k])
  {
    if j < k {
      FewerWrites(ms, j, k - 1);
      assert ms[..k] == ms[..k - 1] + [ms[k - 1]];
      LogAppend(ms[..k - 1], ms[k - 1]);
    }
  }

  // ------------------------------------------------------------------ the queue is first in, first out

  /** Messages not yet executed are, in the order they were sent, the one in hand and the queue. */
  ghost predicate Fifo(s: State)
  {
    && s.done <= |s.sent|
    && s.sent[s.done..] == (if s.db.DbHandling? then [s.db.m] else []) + s.dbQ
    && forall i | 0 <= i < |s.sent| :: s.sent[i].ticket == i
  }

  lemma StepKeepsFifo(s: State, step: Step)
    requires Fifo(s) && Enabled(s, step)
    ensures Fifo(Apply(s, step))
  {
    if step.SamplerSend? {
      PushKeepsFifo(s, s.sampler.value);
    } else if step.WorkerSend? {
      PushKeepsFifo(s, s.workers[step.w].m);
    } else if step.DbReceive? || step.DbExecute? || step.DbSend? {
      DbKeepsFifo(s, step);
    } else {
      HistoryStays(s, step);
    }
  }

  lemma DbKeepsFifo(s: State, step: Step)
    requires Fifo(s) && Enabled(s, step) && (step.DbReceive? || step.DbExecute? || step.DbSend?)
    ensures Fifo(Apply(s, step))
  {
    match step
    case DbReceive =>
      assert s.dbQ == [s.dbQ[0]] + s.dbQ[1..];
    case DbExecute(stamp, date) =>
      assert s.sent[s.done + 1..] == s.sent[s.done..][1..];
    case DbSend =>
  }

  lemma PushKeepsFifo(s: State, m: Msg)
    requires Fifo(s)
    ensures Fifo(PushDb(s, m))
  {
    var t := PushDb(s, m);
    assert t.sent[s.done..] == s.sent[s.done..] + [m.(ticket := |s.sent|)];
  }

  /** What has been sent, executed and recorded. */
  ghost predicate SameHistory(s: State, t: State)
  {
    && t.sent == s.sent && t.done == s.done && t.table == s.table && t.nextId == s.nextId && t.stamps == s.stamps
    && t.totalRequests == s.totalRequests && t.totalEntries == s.totalEntries
    && t.initialTable == s.initialTable && t.initialId == s.initialId
    && t.initialRequests == s.initialRequests && t.initialEntries == s.initialEntries
  }

  /** Steps that neither send to the database nor are its own leave the history alone. */
  lemma HistoryStays(s: State, step: Step)
    requires Enabled(s, step)
    requires !step.SamplerSend? && !step.WorkerSend? && !step.DbReceive? && !step.DbExecute? && !step.DbSend?
    ensures SameHistory(s, Apply(s, step)) && Apply(s, step).db == s.db && Apply(s, step).dbQ == s.dbQ
  {
    hide Handle;
    if step.WorkerHandle? {
      HandleEffect(s, step.w, step.request);
    }
  }

  // ------------------------------------------------------------------ the table and the counters

  /** The table is the initial one with the executed writes appended; the counters agree. */
  ghost predicate Recorded(s: State)
  {
    && s.done <= |s.sent| && |s.stamps| == NumWrites(s.sent[..s.done])
    && s.table == s.initialTable + RowsFrom(s.initialId, Written(s.sent[..s.done]), s.stamps)
    && s.nextId == s.initialId + |s.stamps|
    && s.totalRequests == s.initialRequests + NumRequests(s.sent[..s.done])
    && s.totalEntries == s.initialEntries + NumWrites(s.sent[..s.done])
    && DistinctRowIds(s.table) && forall i | 0 <= i < |s.table| :: s.table[i].e.id < s.nextId
  }

  lemma RecordStays(s: State, t: State)
    requires Recorded(s) && SameHistory(s, t)
    ensures Recorded(t)
  {
  }

  lemma StepKeepsRecord(s: State, step: Step)
    requires Shapes(s) && Fifo(s) && Recorded(s) && Enabled(s, step)
    ensures Recorded(Apply(s, step))
  {
    hide Recorded, Fifo, Shapes;
    var t := Apply(s, step);
    if step.SamplerSend? || (step.WorkerSend? && ForDb(s.workers[step.w].m)) {
      var m := if step.SamplerSend? then s.sampler.value else s.workers[step.w].m;
      PushKeepsRecord(s, m);
      RecordStays(PushDb(s, m), t);
    } else if step.DbExecute? {
      ExecuteKeepsRecord(s, step.stamp, step.date);
    } else {
      OtherHistoryStays(s, step);
      RecordStays(s, t);
    }
  }

  lemma OtherHistoryStays(s: State, step: Step)
    requires Enabled(s, step) && !step.SamplerSend? && !step.DbExecute?
             && !(step.WorkerSend? && ForDb(s.workers[step.w].m))
    ensures SameHistory(s, Apply(s, step))
  {
    if !step.WorkerSend? && !step.DbReceive? && !step.DbSend? {
      HistoryStays(s, step);
    }
  }

  lemma PushKeepsRecord(s: State, m: Msg)
    requires Recorded(s)
    ensures Recorded(PushDb(s, m))
  {
    assert PushDb(s, m).sent[..s.done] == s.sent[..s.done];
  }

  lemma NextSent(s: State)
    requires Fifo(s) && s.db.DbHandling?
    ensures s.done < |s.sent| && s.sent[s.done] == s.db.m && s.sent[..s.done + 1] == s.sent[..s.done] + [s.db.m]
  {
    assert s.sent[s.done..][0] == s.db.m;
  }

  lemma ExecuteKeepsRecord(s: State, stamp: int, date: bytes)
    requires Shapes(s) && Fifo(s) && Recorded(s) && s.db.DbHandling?
    ensures Recorded(Execute(s, s.db.m, stamp, date))
  {
    hide Shapes, Fifo, DistinctRowIds, NumRequests, Written, RowsFrom;
    var m := s.db.m;
    assert DbMsg(s, m) by { HandledShape(s); }
    NextSent(s);
    LogAppend(s.sent[..s.done], m);
    var t := Execute(s, m, stamp, date);
    assert t.sent[..t.done] == s.sent[..s.done] + [m];
    if m.mtype == WRITE_ENTRY {
      RowsAppend(s, m, stamp, date);
      NewRowIsNew(s, m, stamp, date);
      assert Written(t.sent[..t.done]) == Written(s.sent[..s.done]) + [m.sample];
      assert forall i | 0 <= i < |t.table| :: t.table[i].e.id < t.nextId;
    } else {
      assert Written(t.sent[..t.done]) == Written(s.sent[..s.done]);
    }
  }

  lemma HandledShape(s: State)
    requires Shapes(s) && s.db.DbHandling?
    ensures DbMsg(s, s.db.m)
  {
  }

  lemma NewRowIsNew(s: State, m: Msg, stamp: int, date: bytes)
    requires DistinctRowIds(s.table) && forall i | 0 <= i < |s.table| :: s.table[i].e.id < s.nextId
    ensures DistinctRowIds(s.table + [NewRow(s, m, stamp, date)])
  {
  }

  lemma RowsAppend(s: State, m: Msg, stamp: int, date: bytes)
    requires Recorded(s)
    ensures var ws := Written(s.sent[..s.done]);
            s.table + [NewRow(s, m, stamp, date)]
            == s.initialTable + RowsFrom(s.initialId, ws + [m.sample], s.stamps + [Stamp(stamp, date)])
  {
    hide Written, DistinctRowIds, NumRequests;
    var ws, row := Written(s.sent[..s.done]), NewRow(s, m, stamp, date);
    assert RowsFrom(s.initialId, ws + [m.sample], s.stamps + [Stamp(stamp, date)])
           == RowsFrom(s.initialId, ws, s.stamps) + [row];
  }

  // ------------------------------------------------------------------ answers

  /** The table as it was when the k-th message was executed. */
  function TableAt(s: State, k: nat): seq<Stored>
    requires k <= |s.sent|
  {
    var n := |s.initialTable| + NumWrites(s.sent[..k]);
    if n <= |s.table| then s.table[..n] else s.table
  }

  /** The answer to the k-th message. */
  function Expected(s: State, k: nat): Data
    requires k < |s.sent|
  {
    var m := s.sent[k];
    if m.mtype == FETCH then FetchData(Fetch(m.query, m.unit, TableAt(s, k)))
    else StatsData(s.initialRequests + NumRequests(s.sent[..k]), s.initialEntries + NumWrites(s.sent[..k]))
  }

  /** The k-th message as it comes back. */
  function Completed(s: State, k: nat): Msg
    requires k < |s.sent|
  {
    s.sent[k].(completed := true, data := Expected(s, k))
  }

  ghost predicate IsAnswer(s: State, m: Msg) { m.ticket < s.done <= |s.sent| && m == Completed(s, m.ticket) }

  ghost predicate Backed(s: State, m: Msg) { m.completed && ForDb(m) ==> IsAnswer(s, m) }

  /** Replies that stem from the database: the right answer to a request of that very socket. */
  ghost predicate ReplyBacked(s: State, k: int, r: Reply)
  {
    r.Fetched? || r.Statistics? ==>
      && r.ticket < s.done <= |s.sent| && s.sent[r.ticket].sock == k && ForDb(s.sent[r.ticket])
      && r == ReplyFor(Completed(s, r.ticket))
  }

  ghost predicate WorkerBacked(s: State, x: Worker) { x.Handling? ==> Backed(s, x.m) }

  ghost predicate AllBacked(s: State)
  {
    && (forall i | 0 <= i < |s.workerQ| :: Backed(s, s.workerQ[i]))
    && (forall w | 0 <= w < |s.workers| :: WorkerBacked(s, s.workers[w]))
    && (s.db.DbSending? ==> Backed(s, s.db.m))
    && forall k, i | 0 <= k < |s.replies| && 0 <= i < |s.replies[k]| :: ReplyBacked(s, k, s.replies[k][i])
  }

  /** Logs and table only grow. */
  ghost predicate Extends(s: State, t: State)
  {
    && s.sent <= t.sent && s.table <= t.table && s.stamps <= t.stamps && s.done <= t.done <= |t.sent|
    && t.initialTable == s.initialTable && t.initialId == s.initialId
    && t.initialRequests == s.initialRequests && t.initialEntries == s.initialEntries
  }

  lemma StepExtends(s: State, step: Step)
    requires Fifo(s) && Enabled(s, step)
    ensures Extends(s, Apply(s, step))
  {
    match step
    case SamplerSend =>
    case WorkerSend(w) =>
    case DbReceive =>
    case DbExecute(_, _) => NextSent(s);
    case DbSend =>
    case _ => HistoryStays(s, step);
  }

  lemma TableStays(s: State, t: State, k: nat)
    requires Recorded(s) && Extends(s, t) && k <= s.done
    ensures t.sent[..k] == s.sent[..k] && TableAt(t, k) == TableAt(s, k)
  {
    assert t.sent[..k] == s.sent[..k];
    FewerWrites(s.sent, k, s.done);
    var n := |s.initialTable| + NumWrites(s.sent[..k]);
    assert t.table[..n] == s.table[..n];
  }

  /** The past does not change: an answer given stays the right one. */
  lemma CompletedStays(s: State, t: State, k: nat)
    requires Recorded(s) && Extends(s, t) && k < s.done
    ensures Completed(t, k) == Completed(s, k)
  {
    hide TableAt, Fetch, NumWrites, NumRequests, DistinctRowIds, RowsFrom, Written;
    TableStays(s, t, k);
    assert t.sent[k] == s.sent[k];
  }

  lemma BackedStays(s: State, t: State, m: Msg)
    requires Recorded(s) && Extends(s, t) && Backed(s, m)
    ensures Backed(t, m)
  {
    if IsAnswer(s, m) {
      CompletedStays(s, t, m.ticket);
    }
  }

  lemma ReplyBackedStays(s: State, t: State, k: int, r: Reply)
    requires Recorded(s) && Extends(s, t) && ReplyBacked(s, k, r)
    ensures ReplyBacked(t, k, r)
  {
    if r.Fetched? || r.Statistics? {
      CompletedStays(s, t, r.ticket);
    }
  }

  lemma QueueStaysBacked(s: State, step: Step, i: nat)
    requires Shapes(s) && Recorded(s) && AllBacked(s) && Enabled(s, step) && Extends(s, Apply(s, step))
             && i < |Apply(s, step).workerQ|
    ensures Backed(Apply(s, step), Apply(s, step).workerQ[i])
  {
    hide Completed;
    var t := Apply(s, step);
    var m := t.workerQ[i];
    QueueComesFrom(s, step, i);
    if m in s.workerQ || s.db == DbSending(m) {
      BackedStays(s, t, m);
    }
  }

  /** Answers of the database reach the worker queue only from its thread. */
  lemma QueueComesFrom(s: State, step: Step, i: nat)
    requires Shapes(s) && Enabled(s, step) && i < |Apply(s, step).workerQ|
    ensures var m := Apply(s, step).workerQ[i];
            m in s.workerQ || s.db == DbSending(m) || !(m.completed && ForDb(m))
  {
    hide Handle;
    if step.WorkerHandle? {
      HandleEffect(s, step.w, step.request);
    }
    if step.WorkerSend? {
      assert WorkerShape(s, s.workers[step.w]);
    }
  }

  lemma WorkerStaysBacked(s: State, step: Step, w: nat)
    requires Shapes(s) && Recorded(s) && AllBacked(s) && Enabled(s, step) && Extends(s, Apply(s, step))
             && w < |Apply(s, step).workers|
    ensures WorkerBacked(Apply(s, step), Apply(s, step).workers[w])
  {
    hide Completed;
    var t := Apply(s, step);
    if t.workers[w].Handling? {
      var m := t.workers[w].m;
      WorkerComesFrom(s, step, w);
      if m !in s.workerQ {
        assert WorkerBacked(s, s.workers[w]);
      }
      BackedStays(s, t, m);
    }
  }

  lemma WorkerComesFrom(s: State, step: Step, w: nat)
    requires Enabled(s, step) && w < |Apply(s, step).workers| && Apply(s, step).workers[w].Handling?
    ensures |Apply(s, step).workers| == |s.workers|
    ensures Apply(s, step).workers[w] == s.workers[w] || Apply(s, step).workers[w].m in s.workerQ
  {
    hide Handle;
    if step.WorkerHandle? {
      HandleEffect(s, step.w, step.request);
    }
  }

  lemma DbStaysBacked(s: State, step: Step)
    requires Shapes(s) && Fifo(s) && Recorded(s) && AllBacked(s) && Enabled(s, step) && Extends(s, Apply(s, step))
    requires Apply(s, step).db.DbSending?
    ensures Backed(Apply(s, step), Apply(s, step).db.m)
  {
    var t := Apply(s, step);
    if step.DbExecute? {
      ExecutedIsAnswer(s, step.stamp, step.date);
    } else {
      DbComesFrom(s, step);
      BackedStays(s, t, s.db.m);
    }
  }

  lemma DbComesFrom(s: State, step: Step)
    requires Enabled(s, step) && Apply(s, step).db.DbSending? && !step.DbExecute?
    ensures s.db == Apply(s, step).db
  {
  }

  /** The database thread answers from the table as it is when the message's turn comes. */
  lemma ExecutedIsAnswer(s: State, stamp: int, date: bytes)
    requires Shapes(s) && Fifo(s) && Recorded(s) && s.db.DbHandling?
    ensures var t := Execute(s, s.db.m, stamp, date);
            t.db.DbSending? ==> IsAnswer(t, t.db.m)
  {
    NextSent(s);
    assert s.table[..|s.table|] == s.table;
    assert s.db.m.ticket == s.done;
  }

  lemma ReplyStaysBacked(s: State, step: Step, k: nat, i: nat)
    requires Shapes(s) && Fifo(s) && Recorded(s) && AllBacked(s) && Enabled(s, step) && Extends(s, Apply(s, step))
    requires k < |Apply(s, step).replies| && i < |Apply(s, step).replies[k]|
    ensures ReplyBacked(Apply(s, step), k, Apply(s, step).replies[k][i])
  {
    hide Completed;
    var t := Apply(s, step);
    ReplyComesFrom(s, step, k, i);
    if k < |s.replies| && i < |s.replies[k]| {
      ReplyBackedStays(s, t, k, s.replies[k][i]);
    } else if step.WorkerReply? {
      var m := s.workers[step.w].m;
      assert WorkerBacked(s, s.workers[step.w]);
      AnswerBacksReply(s, m);
      ReplyBackedStays(s, t, m.sock, ReplyFor(m));
    }
  }

  lemma AnswerBacksReply(s: State, m: Msg)
    requires m.completed && Backed(s, m)
    ensures ReplyBacked(s, m.sock, ReplyFor(m))
  {
  }

  /** A reply was there before, is made of the completed message in hand, or is none of the database's. */
  lemma ReplyComesFrom(s: State, step: Step, k: nat, i: nat)
    requires Enabled(s, step) && k < |Apply(s, step).replies| && i < |Apply(s, step).replies[k]|
    ensures var r := Apply(s, step).replies[k][i];
            || (k < |s.replies| && i < |s.replies[k]| && r == s.replies[k][i])
            || (step.WorkerReply? && k == s.workers[step.w].m.sock && r == ReplyFor(s.workers[step.w].m)
                && !(k < |s.replies| && i < |s.replies[k]|))
            || (!r.Fetched? && !r.Statistics? && !(k < |s.replies| && i < |s.replies[k]|))
  {
    hide Handle;
    if step.WorkerHandle? {
      HandleEffect(s, step.w, step.request);
    }
  }

  lemma StepKeepsBacked(s: State, step: Step)
    requires Shapes(s) && Fifo(s) && Recorded(s) && AllBacked(s) && Enabled(s, step)
    ensures AllBacked(Apply(s, step))
  {
    hide Backed, WorkerBacked, ReplyBacked, Extends, Recorded, Fifo, Shapes;
    var t := Apply(s, step);
    StepExtends(s, step);
    forall i | 0 <= i < |t.workerQ| ensures Backed(t, t.workerQ[i]) {
      QueueStaysBacked(s, step, i);
    }
    forall w | 0 <= w < |t.workers| ensures WorkerBacked(t, t.workers[w]) {
      WorkerStaysBacked(s, step, w);
    }
    if t.db.DbSending? {
      DbStaysBacked(s, step);
    }
    forall k, i | 0 <= k < |t.replies| && 0 <= i < |t.replies[k]| ensures ReplyBacked(t, k, t.replies[k][i]) {
      ReplyStaysBacked(s, step, k, i);
    }
  }

  // ------------------------------------------------------------------ every run

  ghost predicate Truthful(s: State) { Safe(s) && Fifo(s) && Recorded(s) && AllBacked(s) }

  lemma {:induction false} EveryRunIsTruthful(s: State, steps: seq<Step>, t: State)
    requires Init(s) && Run(s, steps) == Some(t)
    ensures Truthful(t)
    ensures t.initialTable == s.table && t.initialId == s.nextId
    ensures t.initialRequests == s.totalRequests && t.initialEntries == s.totalEntries
  {
    if steps == [] {
      InitIsSafe(s);
      assert s.table == s.table + RowsFrom(s.nextId, [], []);
    } else {
      hide Init, Truthful, Apply, Enabled;
      var step := steps[|steps| - 1];
      var u := Run(s, steps[..|steps| - 1]).value;
      EveryRunIsTruthful(s, steps[..|steps| - 1], u);
      TruthfulStep(u, step);
    }
  }

  lemma TruthfulStep(s: State, step: Step)
    requires Truthful(s) && Enabled(s, step)
    ensures Truthful(Apply(s, step)) && Extends(s, Apply(s, step))
  {
    hide *;
    assert Safe(s) && Fifo(s) && Recorded(s) && AllBacked(s) && Shapes(s) by { TruthfulParts(s); }
    StepIsSafe(s, step);
    StepExtends(s, step);
    StepKeepsFifo(s, step);
    StepKeepsRecord(s, step);
    StepKeepsBacked(s, step);
    TruthfulWhole(Apply(s, step));
  }

  lemma TruthfulParts(s: State)
    requires Truthful(s)
    ensures Safe(s) && Fifo(s) && Recorded(s) && AllBacked(s) && Shapes(s)
  {
  }

  lemma TruthfulWhole(s: State)
    requires Safe(s) && Fifo(s) && Recorded(s) && AllBacked(s)
    ensures Truthful(s)
  {
  }

  // ------------------------------------------------------------------ what a client is told

  lemma {:induction false} WrittenPrefix(ms: seq<Msg>, j: nat, k: nat)
    requires j <= k <= |ms|
    ensures Written(ms[..j]) <= Written(ms[..k])
    decreases k
  {
    if j < k {
      WrittenPrefix(ms, j, k - 1);
      assert ms[..k] == ms[..k - 1] + [ms[k - 1]];
      LogAppend(ms[..k - 1], ms[k - 1]);
    }
  }

  /** The rows that the first k messages leave: one for each write among them, with its own stamp. */
  ghost function RowsBefore(s: State, k: nat): seq<Stored>
    requires k <= |s.sent| && NumWrites(s.sent[..k]) <= |s.stamps|
  {
    RowsFrom(s.initialId, Written(s.sent[..k]), s.stamps[..NumWrites(s.sent[..k])])
  }

  /** What the k-th message finds in the table: the initial rows, then exactly the writes sent before it. */
  lemma TableAtIs(s: State, k: nat)
    requires Recorded(s) && k <= s.done
    ensures TableAt(s, k) <= s.table && DistinctRowIds(TableAt(s, k))
    ensures NumWrites(s.sent[..k]) <= |s.stamps| && TableAt(s, k) == s.initialTable + RowsBefore(s, k)
  {
    hide NumRequests;
    FewerWrites(s.sent, k, s.done);
    WrittenPrefix(s.sent, k, s.done);
    var w, all := NumWrites(s.sent[..k]), Written(s.sent[..s.done]);
    assert TableAt(s, k) == s.table[..|s.initialTable| + w];
    RowsPrefix(s.initialId, all, s.stamps, w);
    assert all[..w] == Written(s.sent[..k]);
  }

  lemma RowsPrefix(id: int, samples: seq<Sample>, stamps: seq<Stamp>, n: nat)
    requires |samples| == |stamps| && n <= |samples|
    ensures RowsFrom(id, samples[..n], stamps[..n]) == RowsFrom(id, samples, stamps)[..n]
  {
  }

  /** Of two answers the later sees everything the earlier saw. */
  lemma LaterSeesMore(s: State, j: nat, k: nat)
    requires Recorded(s) && j <= k <= s.done
    ensures TableAt(s, j) <= TableAt(s, k)
  {
    FewerWrites(s.sent, j, k);
    FewerWrites(s.sent, k, s.done);
  }

  /**
   In every state of every run, rows sent to a client are the answer to that client's own
   query and unit, over the initial table followed by exactly the samples sent to the
   database before the request, each with the time of its insertion and the next id.
   */
  lemma FetchRepliesAreTrue(t: State, k: nat, i: nat)
    requires Reachable(t) && k < |t.replies| && i < |t.replies[k]| && t.replies[k][i].Fetched?
    ensures var r := t.replies[k][i];
            && r.ticket < t.done <= |t.sent| && t.sent[r.ticket].sock == k && t.sent[r.ticket].mtype == FETCH
            && t.sent[r.ticket].query == r.query && t.sent[r.ticket].unit == r.unit
            && r.rows == Fetch(r.query, r.unit, TableAt(t, r.ticket))
            && NumWrites(t.sent[..r.ticket]) <= |t.stamps|
            && TableAt(t, r.ticket) == t.initialTable + RowsBefore(t, r.ticket)
            && (r.rows.Some? ==> DistinctIds(r.rows.value))
  {
    hide Fetch;
    var s, steps :| Init(s) && Run(s, steps) == Some(t);
    EveryRunIsTruthful(s, steps, t);
    var r := t.replies[k][i];
    assert ReplyBacked(t, k, r);
    TableAtIs(t, r.ticket);
    FetchedIdsDiffer(r.query, r.unit, TableAt(t, r.ticket));
  }

  /** The statistics sent to a client count the requests and the writes executed before its own. */
  lemma StatisticsAreTrue(t: State, k: nat, i: nat)
    requires Reachable(t) && k < |t.replies| && i < |t.replies[k]| && t.replies[k][i].Statistics?
    ensures var r := t.replies[k][i];
            && r.ticket < t.done <= |t.sent| && t.sent[r.ticket].sock == k && t.sent[r.ticket].mtype == STATS
            && r.totalRequests == t.initialRequests + NumRequests(t.sent[..r.ticket])
            && r.totalEntries == t.initialEntries + NumWrites(t.sent[..r.ticket])
  {
    hide Fetch;
    var s, steps :| Init(s) && Run(s, steps) == Some(t);
    EveryRunIsTruthful(s, steps, t);
    assert ReplyBacked(t, k, t.replies[k][i]);
  }

  /** No sample is lost, doubled or reordered: recorded and waiting ones are together all that were sent. */
  lemma SamplesAreKept(t: State)
    requires Reachable(t)
    ensures t.done <= |t.sent| && |t.stamps| == NumWrites(t.sent[..t.done])
    ensures t.table == t.initialTable + RowsFrom(t.initialId, Written(t.sent[..t.done]), t.stamps)
    ensures t.sent[t.done..] == (if t.db.DbHandling? then [t.db.m] else []) + t.dbQ
  {
    var s, steps :| Init(s) && Run(s, steps) == Some(t);
    EveryRunIsTruthful(s, steps, t);
  }

  // ------------------------------------------------------------------ the samples of a run

  /** The samples taken in a run, in order. */
  function Taken(steps: seq<Step>): seq<Sample>
  {
    if steps == [] then []
    else
      var last := steps[|steps| - 1];
      Taken(steps[..|steps| - 1]) + (if last.TakeSample? then [last.sample] else [])
  }

  /** The times at which the database thread of a run inserted rows, in order. */
  ghost function Inserted(s: State, steps: seq<Step>): seq<Stamp>
    requires Run(s, steps).Some?
  {
    if steps == [] then []
    else
      var u, last := Run(s, steps[..|steps| - 1]).value, steps[|steps| - 1];
      Inserted(s, steps[..|steps| - 1])
      + (if last.DbExecute? && u.db.m.mtype == WRITE_ENTRY then [Stamp(last.stamp, last.date)] else [])
  }

  function Pending(m: Option<Msg>): seq<Sample> { if m.Some? then [m.value.sample] else [] }

  lemma StepTakes(s: State, step: Step)
    requires Shapes(s) && Enabled(s, step)
    ensures var t := Apply(s, step);
            Written(t.sent) + Pending(t.sampler)
            == Written(s.sent) + Pending(s.sampler) + (if step.TakeSample? then [step.sample] else [])
  {
    hide Handle, Written, Execute;
    match step
    case SamplerSend => LogAppend(s.sent, s.sampler.value.(ticket := |s.sent|));
    case WorkerSend(w) =>
      assert WorkerShape(s, s.workers[w]);
      LogAppend(s.sent, s.workers[w].m.(ticket := |s.sent|));
    case WorkerHandle(w, request) => HandleEffect(s, w, request);
    case TakeSample(_, _) =>
    case _ => LogKept(s, step);
  }

  /** The other steps send nothing to the database queue and take no sample. */
  lemma LogKept(s: State, step: Step)
    requires Enabled(s, step)
    requires !step.SamplerSend? && !step.WorkerSend? && !step.WorkerHandle? && !step.TakeSample?
    ensures Apply(s, step).sent == s.sent && Apply(s, step).sampler == s.sampler
  {
    hide NewRow, FreshMsg, ReplyFor;
  }

  lemma StepInserts(s: State, step: Step)
    requires Shapes(s) && Enabled(s, step)
    ensures Apply(s, step).stamps
         == s.stamps + (if step.DbExecute? && s.db.m.mtype == WRITE_ENTRY then [Stamp(step.stamp, step.date)] else [])
  {
    hide Handle;
    if step.WorkerHandle? {
      HandleEffect(s, step.w, step.request);
    }
  }

  lemma {:induction false} RunTakes(s: State, steps: seq<Step>, t: State)
    requires Init(s) && Run(s, steps) == Some(t)
    ensures Taken(steps) == Written(t.sent) + Pending(t.sampler) && Inserted(s, steps) == t.stamps
  {
    hide Enabled, Apply, Written, Safe;
    if steps == [] {
      assert Written([]) == [] by { NoneWritten(); }
    } else {
      var init, step := steps[..|steps| - 1], steps[|steps| - 1];
      var u := Run(s, init).value;
      RunTakes(s, init, u);
      assert Shapes(u) by { RunShapes(s, init, u); }
      StepTakes(u, step);
      StepInserts(u, step);
    }
  }

  lemma NoneWritten()
    ensures Written([]) == []
  {
  }

  lemma RunShapes(s: State, steps: seq<Step>, t: State)
    requires Init(s) && Run(s, steps) == Some(t)
    ensures Shapes(t)
  {
    InitIsSafe(s);
    EveryRunIsSafe(s, steps);
  }

  /**
   After every run the table is the one it started with and, for each sample taken that was
   inserted so far, one row: in the order they were taken, with the time of its insertion and
   ids counted up. Samples still on their way are exactly the rest.
   */
  lemma TableOfRun(s: State, steps: seq<Step>, t: State)
    requires Init(s) && Run(s, steps) == Some(t)
    ensures |Inserted(s, steps)| <= |Taken(steps)| && t.done <= |t.sent|
    ensures t.table == s.table + RowsFrom(s.nextId, Taken(steps)[..|Inserted(s, steps)|], Inserted(s, steps))
    ensures Taken(steps)[|Inserted(s, steps)|..] == Written(t.sent[t.done..]) + Pending(t.sampler)
    ensures t.sent[t.done..] == (if t.db.DbHandling? then [t.db.m] else []) + t.dbQ
  {
    hide Run, Init, Written, RowsFrom, Safe, AllBacked, Taken, Inserted;
    EveryRunIsTruthful(s, steps, t);
    RunTakes(s, steps, t);
    assert t.sent == t.sent[..t.done] + t.sent[t.done..];
    WrittenConcat(t.sent[..t.done], t.sent[t.done..]);
    var a, b := Written(t.sent[..t.done]), Written(t.sent[t.done..]);
    assert Taken(steps) == a + (b + Pending(t.sampler));
    assert (a + (b + Pending(t.sampler)))[..|a|] == a;
  }

  lemma {:induction false} WrittenConcat(a: seq<Msg>, b: seq<Msg>)
    ensures Written(a + b) == Written(a) + Written(b)
  {
    if b == [] {
      assert a + b == a;
    } else {
      var init, last := b[..|b| - 1], b[|b| - 1];
      assert a + b == (a + init) + [last] && b == init + [last];
      WrittenConcat(a, init);
      LogAppend(a + init, last);
      LogAppend(init, last);
    }
  }
}
