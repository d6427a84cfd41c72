/**
 Progress of the request protocol: exactly when it deadlocks, a bound on the open
 connections that rules this out, and that under the bound every request is finished.
 */
module ProtocolLiveness {
  import opened Bytes
  import opened Replies
  import opened DbHandler
  import opened Protocol
  import opened ProtocolSafety

  // ------------------------------------------------------------------ how many requests are open

  function Busy(ws: seq<Worker>): nat
  {
    if ws == [] then 0 else One(!ws[0].Idle?) + Busy(ws[1..])
  }

  function Requests(q: seq<Msg>): nat
  {
    if q == [] then 0 else One(q[0].mtype != WRITE_ENTRY) + Requests(q[1..])
  }

  /** How many requests the threads and queues hold. */
  function Load(s: State): nat
  {
    One(s.acceptor.Some?) + |s.workerQ| + Busy(s.workers) + Requests(s.dbQ) + One(!s.db.DbIdle?
        && s.db.m.mtype != WRITE_ENTRY)
  }

  function Sum(ns: seq<nat>): nat
  {
    if ns == [] then 0 else ns[0] + Sum(ns[1..])
  }

  lemma {:induction false} SumAppend(ns: seq<nat>, n: nat)
    ensures Sum(ns + [n]) == Sum(ns) + n
  {
    if ns == [] {
      assert ns + [n] == [n];
    } else {
      assert (ns + [n])[1..] == ns[1..] + [n];
      SumAppend(ns[1..], n);
    }
  }

  lemma {:induction false} SumUpdate(ns: seq<nat>, i: nat, n: nat)
    requires i < |ns|
    ensures Sum(ns[i := n]) == Sum(ns) - ns[i] + n
  {
    if i == 0 {
      assert ns[i := n][1..] == ns[1..];
    } else {
      assert ns[i := n][1..] == ns[1..][i - 1 := n];
      SumUpdate(ns[1..], i - 1, n);
    }
  }

  lemma {:induction false} BusyUpdate(ws: seq<Worker>, w: nat, x: Worker)
    requires w < |ws|
    ensures Busy(ws[w := x]) == Busy(ws) - One(!ws[w].Idle?) + One(!x.Idle?)
  {
    if w == 0 {
      assert ws[w := x][1..] == ws[1..];
    } else {
      assert ws[w := x][1..] == ws[1..][w - 1 := x];
      BusyUpdate(ws[1..], w - 1, x);
    }
  }

  lemma {:induction false} RequestsAppend(q: seq<Msg>, m: Msg)
    ensures Requests(q + [m]) == Requests(q) + One(m.mtype != WRITE_ENTRY)
  {
    if q == [] {
      assert q + [m] == [m];
    } else {
      assert (q + [m])[1..] == q[1..] + [m];
      RequestsAppend(q[1..], m);
    }
  }

  /** The connections that were accepted and not yet closed. */
  function Unanswered(s: State): int { |s.replies| - Sum(s.closes) }

  /** They are exactly the requests that threads and queues hold. */
  ghost predicate Balanced(s: State) { Load(s) == Unanswered(s) }

  /** The balance and the count of open connections after a step. */
  ghost predicate BalancedStep(s: State, step: Step, t: State)
  {
    Balanced(t) && Unanswered(t) <= Unanswered(s) + One(step.Accept?)
  }

  lemma StepKeepsBalance(s: State, step: Step)
    requires Shapes(s) && Balanced(s) && Enabled(s, step)
    ensures BalancedStep(s, step, Apply(s, step))
  {
    hide *;
    match step
    case Accept(_, _) => EdgeKeepsBalance(s, step);
    case AcceptorSend => EdgeKeepsBalance(s, step);
    case TakeSample(_, _) => EdgeKeepsBalance(s, step);
    case SamplerSend => EdgeKeepsBalance(s, step);
    case WorkerReceive(w) => WorkerKeepsBalance(s, step);
    case WorkerHandle(w, request) => HandleKeepsBalance(s, w, request);
    case WorkerReply(w) => WorkerKeepsBalance(s, step);
    case WorkerSend(w) => SendKeepsBalance(s, w);
    case WorkerClose(w) => CloseKeepsBalance(s, w);
    case DbReceive => DbKeepsBalance(s, step);
    case DbExecute(_, _) => DbKeepsBalance(s, step);
    case DbSend => DbKeepsBalance(s, step);
  }

  lemma EdgeKeepsBalance(s: State, step: Step)
    requires Shapes(s) && Balanced(s) && Enabled(s, step)
             && (step.Accept? || step.AcceptorSend? || step.TakeSample? || step.SamplerSend?)
    ensures BalancedStep(s, step, Apply(s, step))
  {
    match step
    case Accept(_, _) => SumAppend(s.closes, 0);
    case SamplerSend => RequestsAppend(s.dbQ, s.sampler.value.(ticket := |s.sent|));
    case _ =>
  }

  lemma WorkerKeepsBalance(s: State, step: Step)
    requires Shapes(s) && Balanced(s) && Enabled(s, step) && (step.WorkerReceive? || step.WorkerReply?)
    ensures BalancedStep(s, step, Apply(s, step))
  {
    var t := Apply(s, step);
    BusyUpdate(s.workers, step.w, t.workers[step.w]);
  }

  lemma HandleKeepsBalance(s: State, w: nat, request: Request)
    requires Shapes(s) && Balanced(s) && Enabled(s, WorkerHandle(w, request))
    ensures BalancedStep(s, WorkerHandle(w, request), Apply(s, WorkerHandle(w, request)))
  {
    hide Handle;
    HandleEffect(s, w, request);
    var t := Apply(s, WorkerHandle(w, request));
    BusyUpdate(s.workers, w, t.workers[w]);
  }

  lemma SendKeepsBalance(s: State, w: nat)
    requires Shapes(s) && Balanced(s) && Enabled(s, WorkerSend(w))
    ensures BalancedStep(s, WorkerSend(w), Apply(s, WorkerSend(w)))
  {
    BusyUpdate(s.workers, w, Idle);
    RequestsAppend(s.dbQ, s.workers[w].m.(ticket := |s.sent|));
  }

  lemma CloseKeepsBalance(s: State, w: nat)
    requires Shapes(s) && Balanced(s) && Enabled(s, WorkerClose(w))
    ensures BalancedStep(s, WorkerClose(w), Apply(s, WorkerClose(w)))
  {
    assert WorkerShape(s, s.workers[w]);
    var k := s.workers[w].sock;
    BusyUpdate(s.workers, w, Idle);
    SumUpdate(s.closes, k, s.closes[k] + 1);
  }

  lemma DbKeepsBalance(s: State, step: Step)
    requires Shapes(s) && Balanced(s) && Enabled(s, step) && (step.DbReceive? || step.DbExecute? || step.DbSend?)
    ensures BalancedStep(s, step, Apply(s, step))
  {
  }

  lemma InitIsBalanced(s: State)
    requires Init(s)
    ensures Balanced(s)
  {
    IdleIsNotBusy(s.workers);
  }

  lemma {:induction false} IdleIsNotBusy(ws: seq<Worker>)
    requires forall w | 0 <= w < |ws| :: ws[w] == Idle
    ensures Busy(ws) == 0
  {
    if ws != [] {
      IdleIsNotBusy(ws[1..]);
    }
  }

  lemma {:induction false} BusyBounds(ws: seq<Worker>)
    ensures Busy(ws) <= |ws|
    ensures Busy(ws) == |ws| <==> forall w | 0 <= w < |ws| :: !ws[w].Idle?
    ensures Busy(ws) == 0 <==> forall w | 0 <= w < |ws| :: ws[w].Idle?
  {
    if ws != [] {
      BusyBounds(ws[1..]);
      assert forall w | 1 <= w < |ws| :: ws[w] == ws[1..][w - 1];
    }
  }

  // ------------------------------------------------------------------ deadlock

  /** Steps of the threads; new connections and new samples come from outside. */
  predicate Internal(step: Step) { !step.Accept? && !step.TakeSample? }

  ghost predicate Stuck(s: State) { forall step | Internal(step) :: !Enabled(s, step) }

  /** A thread waits for room in the database queue. */
  ghost predicate WantsDb(s: State)
  {
    s.sampler.Some? || exists w | 0 <= w < |s.workers| :: s.workers[w].Sending? && ForDb(s.workers[w].m)
  }

  /**
   All workers wait to send while the worker queue is full, the database thread cannot go on
   either, and no one who waits for the database queue finds room there.
   */
  ghost predicate Deadlock(s: State)
  {
    && |s.workerQ| == WORKER_QUEUE_MAX
    && (forall w | 0 <= w < |s.workers| :: s.workers[w].Sending?)
    && !s.db.DbHandling? && (s.db.DbIdle? ==> s.dbQ == [])
    && (WantsDb(s) ==> |s.dbQ| == DB_QUEUE_MAX)
  }

  lemma DeadlockIsStuck(s: State)
    requires Shapes(s) && Deadlock(s)
    ensures Stuck(s)
  {
    forall step | Internal(step) ensures !Enabled(s, step) {
      if step.WorkerSend? && step.w < |s.workers| && ForDb(s.workers[step.w].m) {
        assert WantsDb(s);
      }
    }
  }

  /** With a request open and no thread able to step, it is the deadlock. */
  lemma StuckIsDeadlock(s: State)
    requires Shapes(s) && Load(s) > 0 && Stuck(s)
    ensures Deadlock(s)
  {
    StuckThreads(s);
    if |s.workerQ| < WORKER_QUEUE_MAX {
      assert forall w | 0 <= w < |s.workers| :: s.workers[w].Idle?;
      BusyBounds(s.workers);
      assert false;
    }
  }

  /** What being stuck says of each thread. */
  lemma StuckThreads(s: State)
    requires Shapes(s) && Stuck(s)
    ensures s.acceptor.Some? ==> |s.workerQ| == WORKER_QUEUE_MAX
    ensures s.sampler.Some? ==> |s.dbQ| == DB_QUEUE_MAX
    ensures !s.db.DbHandling? && (s.db.DbIdle? ==> s.dbQ == []) && (s.db.DbSending? ==> |s.workerQ| == WORKER_QUEUE_MAX)
    ensures forall w | 0 <= w < |s.workers| ::
              && !s.workers[w].Handling? && !s.workers[w].Closing?
              && (s.workers[w].Idle? ==> s.workerQ == [])
              && (s.workers[w].Sending? ==> if ForDb(s.workers[w].m) then |s.dbQ| == DB_QUEUE_MAX
                  else |s.workerQ| == WORKER_QUEUE_MAX)
  {
    assert !Enabled(s, AcceptorSend) && !Enabled(s, SamplerSend) && !Enabled(s, DbReceive)
           && !Enabled(s, DbExecute(0, [])) && !Enabled(s, DbSend);
    forall w | 0 <= w < |s.workers|
      ensures !s.workers[w].Handling? && !s.workers[w].Closing? && (s.workers[w].Idle? ==> s.workerQ == [])
      ensures s.workers[w].Sending? ==> if ForDb(s.workers[w].m) then |s.dbQ| == DB_QUEUE_MAX
              else |s.workerQ| == WORKER_QUEUE_MAX
    {
      assert !Enabled(s, WorkerReceive(w)) && !Enabled(s, WorkerHandle(w, Favicon)) && !Enabled(s, WorkerReply(w));
      assert !Enabled(s, WorkerSend(w)) && !Enabled(s, WorkerClose(w));
    }
  }

  /** Exactly when nothing can move although a request is open. */
  lemma DeadlockExactly(s: State)
    requires Shapes(s) && Load(s) > 0
    ensures Stuck(s) <==> Deadlock(s)
  {
    if Stuck(s) {
      StuckIsDeadlock(s);
    } else if Deadlock(s) {
      DeadlockIsStuck(s);
      assert false;
    }
  }

  /** A deadlock takes at least 512 open connections besides one per worker. */
  lemma DeadlockNeedsLoad(s: State)
    requires Deadlock(s)
    ensures Load(s) >= WORKER_QUEUE_MAX + |s.workers|
  {
    BusyBounds(s.workers);
  }

  /** With fewer connections open than that, some thread can step whenever a request is open. */
  lemma SomeThreadCanStep(s: State)
    requires Shapes(s) && Balanced(s) && 0 < Unanswered(s) < WORKER_QUEUE_MAX + |s.workers|
    ensures exists step :: Internal(step) && Enabled(s, step)
  {
    if Stuck(s) {
      DeadlockExactly(s);
      DeadlockNeedsLoad(s);
      assert false;
    }
  }

  /** With at most 512 connections open, no thread that sends to the worker queue finds it full. */
  lemma WorkerQueueNeverBlocks(s: State)
    requires Shapes(s) && Balanced(s) && Unanswered(s) <= WORKER_QUEUE_MAX
    ensures s.acceptor.Some? ==> Enabled(s, AcceptorSend)
    ensures s.db.DbSending? ==> Enabled(s, DbSend)
    ensures forall w | 0 <= w < |s.workers| && s.workers[w].Sending?
            && !ForDb(s.workers[w].m) :: Enabled(s, WorkerSend(w))
  {
    BusyBounds(s.workers);
  }

  // ------------------------------------------------------------------ the deadlock can happen

  lemma RunOne(s: State, steps: seq<Step>, t: State, step: Step)
    requires Run(s, steps) == Some(t) && Enabled(t, step)
    ensures Run(s, steps + [step]) == Some(Apply(t, step))
  {
    assert (steps + [step])[..|steps|] == steps;
  }

  /** The first n workers hold an answered request they have yet to send; all else is at rest. */
  ghost predicate Loaded(s: State, n: nat, queued: nat)
  {
    && s.acceptor == None && s.sampler == None && s.dbQ == [] && s.db == DbIdle
    && |s.workerQ| == queued && |s.sawEof| == |s.workers| && n <= |s.workers|
    && (forall w | 0 <= w < n :: s.workers[w].Sending? && !ForDb(s.workers[w].m))
    && (forall w | n <= w < |s.workers| :: s.workers[w] == Idle)
  }

  lemma OneMoreWorker(s: State, steps: seq<Step>, t: State, n: nat) returns (more: seq<Step>, u: State)
    requires Run(s, steps) == Some(t) && Loaded(t, n, 0) && n < |t.workers|
    ensures Run(s, more) == Some(u) && Loaded(u, n + 1, 0) && |u.workers| == |t.workers|
            && Unanswered(u) == Unanswered(t) + 1
  {
    SumAppend(t.closes, 0);
    RunOne(s, steps, t, Accept(0, CELSIUS));
    var t1 := Apply(t, Accept(0, CELSIUS));
    RunOne(s, steps + [Accept(0, CELSIUS)], t1, AcceptorSend);
    var t2, s2 := Apply(t1, AcceptorSend), steps + [Accept(0, CELSIUS)] + [AcceptorSend];
    RunOne(s, s2, t2, WorkerReceive(n));
    var t3, s3 := Apply(t2, WorkerReceive(n)), s2 + [WorkerReceive(n)];
    RunOne(s, s3, t3, WorkerHandle(n, AskCurrent(CELSIUS)));
    u, more := Apply(t3, WorkerHandle(n, AskCurrent(CELSIUS))), s3 + [WorkerHandle(n, AskCurrent(CELSIUS))];
  }

  lemma OneMoreQueued(s: State, steps: seq<Step>, t: State, q: nat) returns (more: seq<Step>, u: State)
    requires Run(s, steps) == Some(t) && Loaded(t, |t.workers|, q) && q < WORKER_QUEUE_MAX
    ensures Run(s, more) == Some(u) && Loaded(u, |u.workers|, q + 1) && |u.workers| == |t.workers|
            && Unanswered(u) == Unanswered(t) + 1
  {
    SumAppend(t.closes, 0);
    RunOne(s, steps, t, Accept(0, CELSIUS));
    var t1 := Apply(t, Accept(0, CELSIUS));
    RunOne(s, steps + [Accept(0, CELSIUS)], t1, AcceptorSend);
    u, more := Apply(t1, AcceptorSend), steps + [Accept(0, CELSIUS)] + [AcceptorSend];
  }

  lemma {:induction false} LoadWorkers(s: State, n: nat) returns (steps: seq<Step>, t: State)
    requires Init(s) && n <= |s.workers|
    ensures Run(s, steps) == Some(t) && Loaded(t, n, 0) && |t.workers| == |s.workers| && Unanswered(t) == n
  {
    if n == 0 {
      steps, t := [], s;
    } else {
      steps, t := LoadWorkers(s, n - 1);
      steps, t := OneMoreWorker(s, steps, t, n - 1);
    }
  }

  lemma {:induction false} FillQueue(s: State, q: nat) returns (steps: seq<Step>, t: State)
    requires Init(s) && q <= WORKER_QUEUE_MAX
    ensures Run(s, steps) == Some(t) && Loaded(t, |t.workers|, q) && |t.workers| == |s.workers|
    ensures Unanswered(t) == |s.workers| + q
  {
    if q == 0 {
      steps, t := LoadWorkers(s, |s.workers|);
    } else {
      steps, t := FillQueue(s, q - 1);
      steps, t := OneMoreQueued(s, steps, t, q - 1);
    }
  }

  /**
   The bound is exact: from every initial state a run leads to a deadlock with just
   512 open connections more than there are workers.
   */
  lemma DeadlockIsReachable(s: State) returns (steps: seq<Step>, t: State)
    requires Init(s)
    ensures Run(s, steps) == Some(t) && Stuck(t) && Unanswered(t) == WORKER_QUEUE_MAX + |s.workers|
  {
    steps, t := FillQueue(s, WORKER_QUEUE_MAX);
    InitIsSafe(s);
    EveryRunIsSafe(s, steps);
    DeadlockIsStuck(t);
  }

  // ------------------------------------------------------------------ draining

  function WorkerMsgStage(m: Msg): nat { if m.completed then 3 else 9 }

  function DbMsgStage(m: Msg): nat { if m.mtype == WRITE_ENTRY then 2 else 6 }

  function WorkerStage(x: Worker): nat
  {
    match x
    case Idle => 0
    case Handling(m) => if m.completed then 2 else 8
    case Sending(_) => 7
    case Closing(_) => 1
  }

  function DbStage(d: DbThread): nat
  {
    match d
    case DbIdle => 0
    case DbHandling(m) => if m.mtype == WRITE_ENTRY then 1 else 5
    case DbSending(_) => 4
  }

  function WorkerQStage(q: seq<Msg>): nat { if q == [] then 0 else WorkerMsgStage(q[0]) + WorkerQStage(q[1..]) }
  function DbQStage(q: seq<Msg>): nat { if q == [] then 0 else DbMsgStage(q[0]) + DbQStage(q[1..]) }
  function WorkersStage(ws: seq<Worker>): nat { if ws == [] then 0 else WorkerStage(ws[0]) + WorkersStage(ws[1..]) }

  /** How much is left to do, added up over all requests and samples. */
  function Remaining(s: State): nat
  {
    (if s.acceptor.Some? then 10 else 0) + (if s.sampler.Some? then 3 else 0)
    + WorkerQStage(s.workerQ) + WorkersStage(s.workers) + DbQStage(s.dbQ) + DbStage(s.db)
  }

  lemma {:induction false} WorkerQStageAppend(q: seq<Msg>, m: Msg)
    ensures WorkerQStage(q + [m]) == WorkerQStage(q) + WorkerMsgStage(m)
  {
    if q == [] {
      assert q + [m] == [m];
    } else {
      assert (q + [m])[1..] == q[1..] + [m];
      WorkerQStageAppend(q[1..], m);
    }
  }

  lemma {:induction false} DbQStageAppend(q: seq<Msg>, m: Msg)
    ensures DbQStage(q + [m]) == DbQStage(q) + DbMsgStage(m)
  {
    if q == [] {
      assert q + [m] == [m];
    } else {
      assert (q + [m])[1..] == q[1..] + [m];
      DbQStageAppend(q[1..], m);
    }
  }

  lemma {:induction false} WorkersStageUpdate(ws: seq<Worker>, w: nat, x: Worker)
    requires w < |ws|
    ensures WorkersStage(ws[w := x]) == WorkersStage(ws) - WorkerStage(ws[w]) + WorkerStage(x)
  {
    if w == 0 {
      assert ws[w := x][1..] == ws[1..];
    } else {
      assert ws[w := x][1..] == ws[1..][w - 1 := x];
      WorkersStageUpdate(ws[1..], w - 1, x);
    }
  }

  /** Every step of a thread brings some request or sample closer to its end. */
  lemma InternalStepProgresses(s: State, step: Step)
    requires Shapes(s) && Enabled(s, step) && Internal(step)
    ensures Remaining(Apply(s, step)) < Remaining(s)
  {
    match step
    case AcceptorSend => WorkerQStageAppend(s.workerQ, s.acceptor.value);
    case SamplerSend => DbQStageAppend(s.dbQ, s.sampler.value.(ticket := |s.sent|));
    case WorkerReceive(w) => WorkerProgresses(s, step);
    case WorkerHandle(w, request) => HandleProgresses(s, w, request);
    case WorkerReply(w) => WorkerProgresses(s, step);
    case WorkerSend(w) => SendProgresses(s, w);
    case WorkerClose(w) => WorkerProgresses(s, step);
    case DbReceive =>
    case DbExecute(_, _) =>
    case DbSend => WorkerQStageAppend(s.workerQ, s.db.m);
  }

  lemma WorkerProgresses(s: State, step: Step)
    requires Shapes(s) && Enabled(s, step) && (step.WorkerReceive? || step.WorkerReply? || step.WorkerClose?)
    ensures Remaining(Apply(s, step)) < Remaining(s)
  {
    var t := Apply(s, step);
    WorkersStageUpdate(s.workers, step.w, t.workers[step.w]);
  }

  lemma HandleProgresses(s: State, w: nat, request: Request)
    requires Shapes(s) && Enabled(s, WorkerHandle(w, request))
    ensures Remaining(Apply(s, WorkerHandle(w, request))) < Remaining(s)
  {
    hide Handle;
    HandleEffect(s, w, request);
    var t := Apply(s, WorkerHandle(w, request));
    WorkersStageUpdate(s.workers, w, t.workers[w]);
  }

  lemma SendProgresses(s: State, w: nat)
    requires Shapes(s) && Enabled(s, WorkerSend(w))
    ensures Remaining(Apply(s, WorkerSend(w))) < Remaining(s)
  {
    assert WorkerShape(s, s.workers[w]);
    WorkersStageUpdate(s.workers, w, Idle);
    DbQStageAppend(s.dbQ, s.workers[w].m.(ticket := |s.sent|));
    WorkerQStageAppend(s.workerQ, s.workers[w].m);
  }

  lemma NothingOpen(s: State, k: int)
    requires Load(s) == 0
    requires Shapes(s) && Conserved(s) && 0 <= k < |s.closes|
    ensures s.closes[k] == 1
  {
    BusyBounds(s.workers);
    IdleHoldNothing(s.workers, k);
    NoRequestsNoSocket(s, s.dbQ, k);
    assert Places(s, k) + s.closes[k] == 1;
  }

  lemma {:induction false} NoRequestsNoSocket(s: State, q: seq<Msg>, k: int)
    requires Requests(q) == 0 && k >= 0 && forall i | 0 <= i < |q| :: DbMsg(s, q[i])
    ensures InQueue(q, k) == 0
  {
    if q != [] {
      assert DbMsg(s, q[0]);
      assert forall i | 0 <= i < |q| - 1 :: q[1..][i] == q[i + 1];
      NoRequestsNoSocket(s, q[1..], k);
    }
  }

  /** Reachable states satisfy what the lemmas above ask for. */
  lemma {:induction false} ReachableIsBalanced(s: State, steps: seq<Step>, t: State)
    requires Init(s) && Run(s, steps) == Some(t)
    ensures Safe(t) && Balanced(t)
  {
    InitIsSafe(s);
    EveryRunIsSafe(s, steps);
    if steps == [] {
      InitIsBalanced(s);
    } else {
      var init := steps[..|steps| - 1];
      var u := Run(s, init).value;
      EveryRunIsSafe(s, init);
      ReachableIsBalanced(s, init, u);
      StepKeepsBalance(u, steps[|steps| - 1]);
    }
  }
}
