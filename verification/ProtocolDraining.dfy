/**
 Once accepting stops, every request is finished, although the sampler goes on sampling.
 */
module ProtocolDraining {
  import opened Bytes
  import opened Replies
  import opened DbHandler
  import opened Protocol
  import opened ProtocolSafety
  import opened ProtocolLiveness

  // ------------------------------------------------------------------ the work left for requests

  /** What the database thread has left to do for a request; writes are none of it. */
  function RequestStage(d: DbThread): nat
  {
    if d.DbIdle? || d.m.mtype == WRITE_ENTRY then 0 else DbStage(d)
  }

  /** The work left, added up over the open requests only. */
  function RequestWork(s: State): nat
  {
    (if s.acceptor.Some? then 10 else 0) + WorkerQStage(s.workerQ) + WorkersStage(s.workers)
    + 6 * Requests(s.dbQ) + RequestStage(s.db)
  }

  /** Twice the number of writes in front of the first request in a queue. */
  function WritesAhead(q: seq<Msg>): nat
  {
    if q == [] || q[0].mtype != WRITE_ENTRY then 0 else 2 + WritesAhead(q[1..])
  }

  /** The steps on writes that a request in the database queue has to wait for. */
  function Ahead(s: State): nat
  {
    if Requests(s.dbQ) == 0 then 0
    else WritesAhead(s.dbQ) + (if s.db.DbHandling? && s.db.m.mtype == WRITE_ENTRY then 1 else 0)
  }

  /** One piece of request work counts for more than all writes that can be ahead. */
  function Work(s: State): nat { 42 * RequestWork(s) + Ahead(s) }

  /** A step of the database thread on a write. */
  predicate OnWrite(s: State, step: Step)
  {
    || (step.DbReceive? && s.dbQ != [] && s.dbQ[0].mtype == WRITE_ENTRY)
    || (step.DbExecute? && s.db.DbHandling? && s.db.m.mtype == WRITE_ENTRY)
  }

  /** Every step that moves a request on, or a write out of the way of one in the database queue. */
  predicate Useful(s: State, step: Step)
  {
    Internal(step) && !step.SamplerSend? && (OnWrite(s, step) ==> Requests(s.dbQ) > 0)
  }

  lemma {:induction false} WritesAheadBound(q: seq<Msg>)
    ensures WritesAhead(q) <= 2 * |q|
  {
    if q != [] && q[0].mtype == WRITE_ENTRY {
      WritesAheadBound(q[1..]);
    }
  }

  /** A write at the back is ahead of no one. */
  lemma {:induction false} WriteAtBack(q: seq<Msg>, m: Msg)
    requires Requests(q) > 0
    ensures WritesAhead(q + [m]) == WritesAhead(q)
  {
    if q[0].mtype == WRITE_ENTRY {
      assert (q + [m])[1..] == q[1..] + [m];
      WriteAtBack(q[1..], m);
    }
  }

  /** What any step but accepting does to the work left. */
  ghost predicate WorkStep(s: State, step: Step, t: State)
  {
    if Useful(s, step) then Work(t) < Work(s) else Work(t) == Work(s)
  }

  lemma StepWorks(s: State, step: Step)
    requires Shapes(s) && Enabled(s, step) && !step.Accept?
    ensures WorkStep(s, step, Apply(s, step))
  {
    hide *;
    match step
    case AcceptorSend => EdgeWorks(s, step);
    case TakeSample(_, _) => EdgeWorks(s, step);
    case SamplerSend => EdgeWorks(s, step);
    case WorkerReceive(w) => WorkerWorks(s, step);
    case WorkerHandle(w, request) => HandleWorks(s, w, request);
    case WorkerReply(w) => WorkerWorks(s, step);
    case WorkerSend(w) => SendWorks(s, w);
    case WorkerClose(w) => WorkerWorks(s, step);
    case DbReceive => ReceiveWorks(s);
    case DbExecute(_, _) => DbWorks(s, step);
    case DbSend => DbWorks(s, step);
  }

  lemma EdgeWorks(s: State, step: Step)
    requires Shapes(s) && Enabled(s, step) && (step.AcceptorSend? || step.TakeSample? || step.SamplerSend?)
    ensures WorkStep(s, step, Apply(s, step))
  {
    match step
    case AcceptorSend => WorkerQStageAppend(s.workerQ, s.acceptor.value);
    case TakeSample(_, _) =>
    case SamplerSend =>
      var m := s.sampler.value.(ticket := |s.sent|);
      RequestsAppend(s.dbQ, m);
      if Requests(s.dbQ) > 0 {
        WriteAtBack(s.dbQ, m);
      }
  }

  lemma WorkerWorks(s: State, step: Step)
    requires Shapes(s) && Enabled(s, step) && (step.WorkerReceive? || step.WorkerReply? || step.WorkerClose?)
    ensures WorkStep(s, step, Apply(s, step))
  {
    hide Ahead;
    var t := Apply(s, step);
    assert t.dbQ == s.dbQ && t.db == s.db;
    SameAhead(s, t);
    WorkersStageUpdate(s.workers, step.w, t.workers[step.w]);
    if step.WorkerReceive? {
      ReceiveStage(s, step.w);
    }
  }

  lemma SameAhead(s: State, t: State)
    requires t.dbQ == s.dbQ && t.db == s.db
    ensures Ahead(t) == Ahead(s)
  {
  }

  lemma ReceiveStage(s: State, w: nat)
    requires Enabled(s, WorkerReceive(w))
    ensures WorkerStage(Handling(s.workerQ[0])) + WorkerQStage(s.workerQ[1..]) < WorkerQStage(s.workerQ)
  {
  }

  lemma HandleWorks(s: State, w: nat, request: Request)
    requires Shapes(s) && Enabled(s, WorkerHandle(w, request))
    ensures WorkStep(s, WorkerHandle(w, request), Apply(s, WorkerHandle(w, request)))
  {
    hide Handle;
    HandleEffect(s, w, request);
    var t := Apply(s, WorkerHandle(w, request));
    WorkersStageUpdate(s.workers, w, t.workers[w]);
  }

  lemma SendWorks(s: State, w: nat)
    requires Shapes(s) && Enabled(s, WorkerSend(w))
    ensures WorkStep(s, WorkerSend(w), Apply(s, WorkerSend(w)))
  {
    assert WorkerShape(s, s.workers[w]);
    var t, m := Apply(s, WorkerSend(w)), s.workers[w].m;
    WorkersStageUpdate(s.workers, w, Idle);
    if ForDb(m) {
      RequestsAppend(s.dbQ, m.(ticket := |s.sent|));
      WritesAheadBound(t.dbQ);
    } else {
      WorkerQStageAppend(s.workerQ, m);
    }
  }

  lemma ReceiveWorks(s: State)
    requires Shapes(s) && Enabled(s, DbReceive)
    ensures WorkStep(s, DbReceive, Apply(s, DbReceive))
  {
    WritesAheadBound(s.dbQ[1..]);
    assert DbMsg(s, s.dbQ[0]);
  }

  lemma DbWorks(s: State, step: Step)
    requires Shapes(s) && Enabled(s, step) && (step.DbExecute? || step.DbSend?)
    ensures WorkStep(s, step, Apply(s, step))
  {
    if step.DbSend? {
      WorkerQStageAppend(s.workerQ, s.db.m);
    }
  }

  // ------------------------------------------------------------------ progress below the bound

  lemma Witness(s: State, step: Step)
    requires Useful(s, step) && Enabled(s, step)
    ensures exists u :: Useful(s, u) && Enabled(s, u)
  {
  }

  /** What it takes for no useful step to be enabled while the worker queue has room. */
  lemma OnlyWritesInTheWay(s: State)
    requires Shapes(s) && Load(s) > 0 && |s.workerQ| < WORKER_QUEUE_MAX
    requires forall u :: Useful(s, u) ==> !Enabled(s, u)
    ensures Requests(s.dbQ) == 0 && |s.dbQ| == DB_QUEUE_MAX
    ensures s.db.DbIdle? || (s.db.DbHandling? && s.db.m.mtype == WRITE_ENTRY)
    ensures exists w | 0 <= w < |s.workers| :: s.workers[w].Sending? && ForDb(s.workers[w].m)
  {
    assert !Enabled(s, AcceptorSend) && !Enabled(s, DbSend);
    QuietDb(s);
    if forall w | 0 <= w < |s.workers| :: !s.workers[w].Sending? {
      forall w | 0 <= w < |s.workers| ensures s.workers[w].Idle? {
        QuietWorker(s, w);
      }
      BusyBounds(s.workers);
      QuietWorker(s, 0);
      assert false;
    }
    var w :| 0 <= w < |s.workers| && s.workers[w].Sending?;
    QuietWorker(s, w);
  }

  lemma QuietWorker(s: State, w: nat)
    requires Shapes(s) && w < |s.workers| && forall u :: Useful(s, u) ==> !Enabled(s, u)
    ensures s.workers[w].Idle? || s.workers[w].Sending?
    ensures s.workers[w].Idle? ==> s.workerQ == []
    ensures s.workers[w].Sending? ==>
              if ForDb(s.workers[w].m) then |s.dbQ| == DB_QUEUE_MAX else |s.workerQ| == WORKER_QUEUE_MAX
  {
    assert !Enabled(s, WorkerReceive(w)) && !Enabled(s, WorkerHandle(w, Favicon)) && !Enabled(s, WorkerReply(w));
    assert !Enabled(s, WorkerSend(w)) && !Enabled(s, WorkerClose(w));
  }

  lemma QuietDb(s: State)
    requires Shapes(s) && forall u :: Useful(s, u) ==> !Enabled(s, u)
    ensures s.db.DbHandling? ==> s.db.m.mtype == WRITE_ENTRY
    ensures !s.db.DbSending? ==> Requests(s.dbQ) == 0
  {
    if s.db.DbHandling? {
      assert Useful(s, DbExecute(0, [])) ==> !Enabled(s, DbExecute(0, []));
    } else if s.db.DbIdle? && s.dbQ != [] {
      assert Useful(s, DbReceive) ==> !Enabled(s, DbReceive);
    }
  }

  /** All steps are the database thread's own. */
  predicate ByDatabase(steps: seq<Step>) { forall i | 0 <= i < |steps| :: steps[i].DbReceive? || steps[i].DbExecute? }

  /**
   Below the bound, while a request is open, a useful step is enabled, at once or after at most
   two steps of the database thread: when its queue is full of writes a worker has to wait for.
   */
  lemma UsefulStepSoon(s: State) returns (steps: seq<Step>, t: State)
    requires Shapes(s) && Balanced(s) && 0 < Unanswered(s) < WORKER_QUEUE_MAX + |s.workers|
    ensures |steps| <= 2 && ByDatabase(steps) && Run(s, steps) == Some(t)
    ensures exists u :: Useful(t, u) && Enabled(t, u)
  {
    steps, t := [], s;
    if forall u :: Useful(s, u) ==> !Enabled(s, u) {
      RoomInWorkerQueue(s);
      OnlyWritesInTheWay(s);
      var w :| 0 <= w < |s.workers| && s.workers[w].Sending? && ForDb(s.workers[w].m);
      steps, t := MakeRoom(s, w);
      Witness(t, WorkerSend(w));
    }
  }

  /** With its queue full of writes, the database thread makes room for a worker in at most two steps. */
  lemma MakeRoom(s: State, w: nat) returns (steps: seq<Step>, t: State)
    requires Shapes(s) && |s.dbQ| == DB_QUEUE_MAX && w < |s.workers| && s.workers[w].Sending? && ForDb(s.workers[w].m)
    requires s.db.DbIdle? || (s.db.DbHandling? && s.db.m.mtype == WRITE_ENTRY)
    ensures |steps| <= 2 && ByDatabase(steps) && Run(s, steps) == Some(t)
    ensures Useful(t, WorkerSend(w)) && Enabled(t, WorkerSend(w))
  {
    steps, t := [], s;
    hide Enabled, Apply, Useful, Shapes;
    if s.db.DbHandling? {
      t := FinishWrite(s);
      RunOne(s, steps, s, DbExecute(0, []));
      steps := steps + [DbExecute(0, [])];
    }
    ghost var u := TakeNext(t, w);
    RunOne(s, steps, t, DbReceive);
    steps, t := steps + [DbReceive], u;
  }

  lemma FinishWrite(s: State) returns (t: State)
    requires s.db.DbHandling? && s.db.m.mtype == WRITE_ENTRY
    ensures Enabled(s, DbExecute(0, [])) && t == Apply(s, DbExecute(0, []))
    ensures t.db.DbIdle? && t.dbQ == s.dbQ && t.workers == s.workers
  {
    t := Apply(s, DbExecute(0, []));
  }

  lemma TakeNext(s: State, w: nat) returns (t: State)
    requires s.db.DbIdle? && |s.dbQ| == DB_QUEUE_MAX
    requires w < |s.workers| && s.workers[w].Sending? && ForDb(s.workers[w].m)
    ensures Enabled(s, DbReceive) && t == Apply(s, DbReceive)
    ensures Useful(t, WorkerSend(w)) && Enabled(t, WorkerSend(w))
  {
    t := Apply(s, DbReceive);
  }

  lemma RoomInWorkerQueue(s: State)
    requires Shapes(s) && Balanced(s) && 0 < Unanswered(s) < WORKER_QUEUE_MAX + |s.workers|
    requires forall u :: Useful(s, u) ==> !Enabled(s, u)
    ensures |s.workerQ| < WORKER_QUEUE_MAX
  {
    if |s.workerQ| == WORKER_QUEUE_MAX {
      BusyBounds(s.workers);
      var w :| 0 <= w < |s.workers| && s.workers[w].Idle?;
      QuietWorker(s, w);
      assert false;
    }
  }

  // ------------------------------------------------------------------ runs without accepting

  ghost predicate AcceptFree(steps: seq<Step>) { forall i | 0 <= i < |steps| :: !steps[i].Accept? }

  function Samples(steps: seq<Step>): nat
  {
    if steps == [] then 0 else Samples(steps[..|steps| - 1]) + One(steps[|steps| - 1].TakeSample?)
  }

  function ThreadSteps(steps: seq<Step>): nat
  {
    if steps == [] then 0 else ThreadSteps(steps[..|steps| - 1]) + One(Internal(steps[|steps| - 1]))
  }

  /** How many steps of a run were useful where they were taken. */
  function UsefulSteps(s: State, steps: seq<Step>): nat
    requires Run(s, steps).Some?
  {
    if steps == [] then 0
    else
      var init, last := steps[..|steps| - 1], steps[|steps| - 1];
      UsefulSteps(s, init) + One(Useful(Run(s, init).value, last))
  }

  /** What a step without accepting keeps. */
  ghost predicate Drains(s: State, step: Step, t: State)
  {
    && Safe(t) && Balanced(t) && Unanswered(t) <= Unanswered(s) && |t.workers| == |s.workers|
    && Work(t) + One(Useful(s, step)) <= Work(s)
    && Remaining(t) + One(Internal(step)) <= Remaining(s) + 3 * One(step.TakeSample?)
  }

  lemma DrainingStep(s: State, step: Step)
    requires Safe(s) && Balanced(s) && Enabled(s, step) && !step.Accept?
    ensures Drains(s, step, Apply(s, step))
  {
    hide Balanced, Unanswered, Remaining, Work, Conserved, AnsweredOnce, NoStaleReply, Useful, Apply, Enabled;
    StepIsSafe(s, step);
    StepKeepsBalance(s, step);
    StepWorks(s, step);
    SameWorkers(s, step);
    if step.TakeSample? {
      SampleRemains(s, step);
    } else {
      InternalStepProgresses(s, step);
    }
  }

  lemma SameWorkers(s: State, step: Step)
    requires Shapes(s) && Enabled(s, step)
    ensures |Apply(s, step).workers| == |s.workers|
  {
    if step.WorkerHandle? {
      hide Handle;
      HandleEffect(s, step.w, step.request);
    }
  }

  lemma SampleRemains(s: State, step: Step)
    requires Enabled(s, step) && step.TakeSample?
    ensures Remaining(Apply(s, step)) == Remaining(s) + 3
  {
  }

  /**
   Every run in which no connection is accepted: its useful steps are at most the work there was
   for requests, and its threads' steps at most what was left to do and what was sampled.
   */
  lemma {:induction false} AcceptFreeRun(s: State, steps: seq<Step>, t: State)
    requires Safe(s) && Balanced(s) && Run(s, steps) == Some(t) && AcceptFree(steps)
    ensures Safe(t) && Balanced(t) && Unanswered(t) <= Unanswered(s) && |t.workers| == |s.workers|
    ensures UsefulSteps(s, steps) + Work(t) <= Work(s)
    ensures ThreadSteps(steps) + Remaining(t) <= Remaining(s) + 3 * Samples(steps)
  {
    hide Safe, Balanced, Unanswered, Remaining, Work, Useful, Internal, Apply, Enabled;
    if steps != [] {
      var init, step := steps[..|steps| - 1], steps[|steps| - 1];
      var u := Run(s, init).value;
      AcceptFreeRun(s, init, u);
      assert Enabled(u, step) && t == Apply(u, step);
      DrainingStep(u, step);
    }
  }

  /**
   Once accepting stops with fewer than 512 connections open besides one per worker, whatever the
   sampler does: only so many useful steps can follow; while a connection is open, one more is
   never more than two steps of the database thread away; and when no thread can step, every
   connection ever accepted has been closed exactly once.
   */
  lemma EveryRequestFinishes(s: State, steps: seq<Step>, t: State)
    requires Safe(s) && Balanced(s) && Unanswered(s) < WORKER_QUEUE_MAX + |s.workers|
    requires Run(s, steps) == Some(t) && AcceptFree(steps)
    ensures UsefulSteps(s, steps) <= Work(s)
    ensures ThreadSteps(steps) <= Remaining(s) + 3 * Samples(steps)
    ensures Unanswered(t) > 0 ==>
              exists more, u, step :: |more| <= 2 && ByDatabase(more) && Run(t, more) == Some(u)
                  && Useful(u, step) && Enabled(u, step)
    ensures Unanswered(t) == 0 <==> forall k | 0 <= k < |t.closes| :: t.closes[k] == 1
    ensures Stuck(t) ==> Unanswered(t) == 0
  {
    AcceptFreeRun(s, steps, t);
    if Unanswered(t) > 0 {
      var more, u := UsefulStepSoon(t);
      var step :| Useful(u, step) && Enabled(u, step);
      assert |more| <= 2 && ByDatabase(more) && Run(t, more) == Some(u) && Useful(u, step) && Enabled(u, step);
      SomeThreadCanStep(t);
    }
    ClosedExactly(t);
  }

  lemma ClosedExactly(t: State)
    requires Safe(t) && Balanced(t)
    ensures Unanswered(t) == 0 <==> forall k | 0 <= k < |t.closes| :: t.closes[k] == 1
  {
    if Unanswered(t) == 0 {
      forall k | 0 <= k < |t.closes| ensures t.closes[k] == 1 {
        NothingOpen(t, k);
      }
    }
    if forall k | 0 <= k < |t.closes| :: t.closes[k] == 1 {
      AllOnes(t.closes);
    }
  }

  lemma {:induction false} AllOnes(ns: seq<nat>)
    requires forall k | 0 <= k < |ns| :: ns[k] == 1
    ensures Sum(ns) == |ns|
  {
    if ns != [] {
      AllOnes(ns[1..]);
    }
  }
}
