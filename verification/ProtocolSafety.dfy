/**
 Safety of the request protocol in every reachable state: each accepted socket is in one
 place, is answered at most once and closed exactly once, and messages keep their shape.
 */
module ProtocolSafety {
  import opened Bytes
  import opened Replies
  import opened DbHandler
  import opened Protocol

  // ------------------------------------------------------------------ where a socket is

  function One(b: bool): nat { if b then 1 else 0 }

  /** How many messages in a queue carry the socket k. */
  function InQueue(q: seq<Msg>, k: int): nat
  {
    if q == [] then 0 else One(q[0].sock == k) + InQueue(q[1..], k)
  }

  function InWorker(x: Worker, k: int): nat
  {
    match x
    case Idle => 0
    case Handling(m) => One(m.sock == k)
    case Sending(m) => One(m.sock == k)
    case Closing(sock) => One(sock == k)
  }

  function InWorkers(ws: seq<Worker>, k: int): nat
  {
    if ws == [] then 0 else InWorker(ws[0], k) + InWorkers(ws[1..], k)
  }

  function InDb(d: DbThread, k: int): nat { if d.DbIdle? then 0 else One(d.m.sock == k) }

  function InSlot(m: Option<Msg>, k: int): nat { if m.Some? then One(m.value.sock == k) else 0 }

  /** In how many places the socket k is: held by a thread or waiting in a queue. */
  function Places(s: State, k: int): nat
  {
    InSlot(s.acceptor, k) + InQueue(s.workerQ, k) + InWorkers(s.workers, k) + InQueue(s.dbQ, k) + InDb(s.db, k)
  }

  lemma {:induction false} InQueueAppend(q: seq<Msg>, m: Msg, k: int)
    ensures InQueue(q + [m], k) == InQueue(q, k) + One(m.sock == k)
  {
    if q == [] {
      assert q + [m] == [m];
    } else {
      assert (q + [m])[1..] == q[1..] + [m];
      InQueueAppend(q[1..], m, k);
    }
  }

  lemma {:induction false} InWorkersUpdate(ws: seq<Worker>, w: nat, x: Worker, k: int)
    requires w < |ws|
    ensures InWorkers(ws[w := x], k) == InWorkers(ws, k) - InWorker(ws[w], k) + InWorker(x, k)
    ensures InWorkers(ws, k) >= InWorker(ws[w], k)
  {
    if w == 0 {
      assert ws[w := x][1..] == ws[1..];
    } else {
      assert ws[w := x][1..] == ws[1..][w - 1 := x];
      InWorkersUpdate(ws[1..], w - 1, x, k);
    }
  }

  // ------------------------------------------------------------------ the shape of messages

  predicate IsSocket(s: State, k: int) { 0 <= k < |s.replies| }

  predicate KnownType(mtype: int) { mtype == FETCH || mtype == STATS || mtype == CURRENT || mtype == CONFIG }

  /** Answered by the database thread or by a worker itself. */
  predicate Answered(m: Msg)
  {
    && m.completed && KnownType(m.mtype)
    && (m.mtype == FETCH ==> m.data.FetchData?) && (m.mtype == STATS ==> m.data.StatsData?)
  }

  /** Worker queue: client messages only; one that comes back is completed and of a known type. */
  predicate WorkerMsg(s: State, m: Msg) { IsSocket(s, m.sock) && (m.completed ==> Answered(m)) }

  /** Database queue: writes, and requests of the two types it answers that are not completed. */
  predicate DbMsg(s: State, m: Msg)
  {
    if m.mtype == WRITE_ENTRY then m.sock == NO_SOCKET else IsSocket(s, m.sock) && ForDb(m) && !m.completed
  }

  predicate WorkerShape(s: State, x: Worker)
  {
    match x
    case Idle => true
    case Handling(m) => WorkerMsg(s, m)
    case Sending(m) => IsSocket(s, m.sock) && KnownType(m.mtype) && (if ForDb(m) then !m.completed else Answered(m))
    case Closing(sock) => IsSocket(s, sock)
  }

  predicate DbShape(s: State, d: DbThread)
  {
    match d
    case DbIdle => true
    case DbHandling(m) => DbMsg(s, m)
    case DbSending(m) => IsSocket(s, m.sock) && ForDb(m) && Answered(m)
  }

  ghost predicate Shapes(s: State)
  {
    && 1 <= |s.workers| <= MAX_WORKERS && |s.sawEof| == |s.workers|
    && |s.workerQ| <= WORKER_QUEUE_MAX && |s.dbQ| <= DB_QUEUE_MAX && |s.closes| == |s.replies|
    && (s.acceptor.Some? ==> IsSocket(s, s.acceptor.value.sock) && !s.acceptor.value.completed)
    && (s.sampler.Some? ==> s.sampler.value.mtype == WRITE_ENTRY && s.sampler.value.sock == NO_SOCKET)
    && (forall i | 0 <= i < |s.workerQ| :: WorkerMsg(s, s.workerQ[i]))
    && (forall i | 0 <= i < |s.dbQ| :: DbMsg(s, s.dbQ[i]))
    && (forall w | 0 <= w < |s.workers| :: WorkerShape(s, s.workers[w]))
    && DbShape(s, s.db)
  }

  /**
   Every step keeps the shapes: in particular writes never enter the worker queue, and what
   re-enters it is completed, so that it is never dispatched twice.
   */
  lemma StepKeepsShapes(s: State, step: Step)
    requires Shapes(s) && Enabled(s, step)
    ensures Shapes(Apply(s, step))
  {
    hide *;
    match step
    case Accept(_, _) => EdgeKeepsShapes(s, step);
    case AcceptorSend => EdgeKeepsShapes(s, step);
    case TakeSample(_, _) => EdgeKeepsShapes(s, step);
    case SamplerSend => EdgeKeepsShapes(s, step);
    case WorkerReceive(w) => WorkerKeepsShapes(s, step);
    case WorkerHandle(w, request) => HandleKeepsShapes(s, w, request);
    case WorkerReply(w) => WorkerKeepsShapes(s, step);
    case WorkerSend(w) => SendKeepsShapes(s, w);
    case WorkerClose(w) => WorkerKeepsShapes(s, step);
    case DbReceive => DbKeepsShapes(s, step);
    case DbExecute(_, _) => DbKeepsShapes(s, step);
    case DbSend => DbKeepsShapes(s, step);
  }

  lemma EdgeKeepsShapes(s: State, step: Step)
    requires Shapes(s) && Enabled(s, step) && (step.Accept? || step.AcceptorSend? || step.TakeSample?
             || step.SamplerSend?)
    ensures Shapes(Apply(s, step))
  {
  }

  lemma WorkerKeepsShapes(s: State, step: Step)
    requires Shapes(s) && Enabled(s, step) && (step.WorkerReceive? || step.WorkerReply? || step.WorkerClose?)
    ensures Shapes(Apply(s, step))
  {
    assert WorkerShape(s, s.workers[step.w]);
  }

  lemma SendKeepsShapes(s: State, w: nat)
    requires Shapes(s) && Enabled(s, WorkerSend(w))
    ensures Shapes(Apply(s, WorkerSend(w)))
  {
    assert WorkerShape(s, s.workers[w]);
  }

  lemma DbKeepsShapes(s: State, step: Step)
    requires Shapes(s) && Enabled(s, step) && (step.DbReceive? || step.DbExecute? || step.DbSend?)
    ensures Shapes(Apply(s, step))
  {
  }

  lemma HandleKeepsShapes(s: State, w: nat, request: Request)
    requires Shapes(s) && Enabled(s, WorkerHandle(w, request))
    ensures Shapes(Apply(s, WorkerHandle(w, request)))
  {
    hide Handle;
    HandleEffect(s, w, request);
    assert WorkerShape(s, s.workers[w]);
  }

  // ------------------------------------------------------------------ conservation

  /** Each accepted socket is in exactly one place or closed exactly once; there are no other sockets. */
  ghost predicate Conserved(s: State)
  {
    && (forall k | 0 <= k < |s.closes| :: Places(s, k) + s.closes[k] == 1)
    && forall k | k >= |s.closes| :: Places(s, k) == 0
  }

  /** The places of a socket and its closes, together. */
  function Held(s: State, k: int): nat { Places(s, k) + (if 0 <= k < |s.closes| then s.closes[k] else 0) }

  /** A step moves a socket from place to place or closes it; only accepting makes a new one. */
  lemma StepMovesSocket(s: State, step: Step, k: int)
    requires Shapes(s) && Enabled(s, step) && k >= 0
    ensures Held(Apply(s, step), k) == Held(s, k) + One(step.Accept? && k == |s.replies|)
  {
    hide Held, Shapes, Apply, Enabled, One;
    assert !step.Accept? ==> One(step.Accept? && k == |s.replies|) == 0 by { OneOf(false); }
    match step
    case Accept(_, _) => EdgeMovesSocket(s, step, k);
    case AcceptorSend => EdgeMovesSocket(s, step, k);
    case TakeSample(_, _) => EdgeMovesSocket(s, step, k);
    case SamplerSend => EdgeMovesSocket(s, step, k);
    case WorkerReceive(w) => WorkerMovesSocket(s, step, k);
    case WorkerHandle(w, request) => HandleMovesSocket(s, w, request, k);
    case WorkerReply(w) => WorkerMovesSocket(s, step, k);
    case WorkerSend(w) => SendMovesSocket(s, w, k);
    case WorkerClose(w) => WorkerMovesSocket(s, step, k);
    case DbReceive => DbMovesSocket(s, step, k);
    case DbExecute(_, _) => DbMovesSocket(s, step, k);
    case DbSend => DbMovesSocket(s, step, k);
  }

  lemma OneOf(b: bool)
    ensures One(b) == if b then 1 else 0
  {
  }

  lemma EdgeMovesSocket(s: State, step: Step, k: int)
    requires Shapes(s) && Enabled(s, step) && k >= 0
    requires step.Accept? || step.AcceptorSend? || step.TakeSample? || step.SamplerSend?
    ensures Held(Apply(s, step), k) == Held(s, k) + One(step.Accept? && k == |s.replies|)
  {
    match step
    case Accept(_, _) =>
    case AcceptorSend => InQueueAppend(s.workerQ, s.acceptor.value, k);
    case TakeSample(_, _) =>
    case SamplerSend => InQueueAppend(s.dbQ, s.sampler.value.(ticket := |s.sent|), k);
  }

  lemma WorkerMovesSocket(s: State, step: Step, k: int)
    requires Shapes(s) && Enabled(s, step) && k >= 0 && (step.WorkerReceive? || step.WorkerReply? || step.WorkerClose?)
    ensures Held(Apply(s, step), k) == Held(s, k)
  {
    match step
    case WorkerReceive(w) => InWorkersUpdate(s.workers, w, Handling(s.workerQ[0]), k);
    case WorkerReply(w) => InWorkersUpdate(s.workers, w, Closing(s.workers[w].m.sock), k);
    case WorkerClose(w) => InWorkersUpdate(s.workers, w, Idle, k);
  }

  lemma SendMovesSocket(s: State, w: nat, k: int)
    requires Shapes(s) && Enabled(s, WorkerSend(w)) && k >= 0
    ensures Held(Apply(s, WorkerSend(w)), k) == Held(s, k)
  {
    var m := s.workers[w].m;
    InWorkersUpdate(s.workers, w, Idle, k);
    if ForDb(m) {
      InQueueAppend(s.dbQ, m.(ticket := |s.sent|), k);
    } else {
      InQueueAppend(s.workerQ, m, k);
    }
  }

  lemma HandleMovesSocket(s: State, w: nat, request: Request, k: int)
    requires Shapes(s) && Enabled(s, WorkerHandle(w, request)) && k >= 0
    ensures Held(Apply(s, WorkerHandle(w, request)), k) == Held(s, k)
  {
    hide Handle;
    var t := Apply(s, WorkerHandle(w, request));
    HandleEffect(s, w, request);
    InWorkersUpdate(s.workers, w, t.workers[w], k);
  }

  lemma DbMovesSocket(s: State, step: Step, k: int)
    requires Shapes(s) && Enabled(s, step) && k >= 0 && (step.DbReceive? || step.DbExecute? || step.DbSend?)
    ensures Held(Apply(s, step), k) == Held(s, k)
  {
    if step.DbSend? {
      InQueueAppend(s.workerQ, s.db.m, k);
    }
  }

  lemma StepConserves(s: State, step: Step)
    requires Shapes(s) && Conserved(s) && Enabled(s, step)
    ensures Conserved(Apply(s, step))
  {
    hide Apply, Enabled, Places;
    var t := Apply(s, step);
    StepKeepsShapes(s, step);
    StepAccepts(s, step);
    forall k | 0 <= k < |t.closes| ensures Places(t, k) + t.closes[k] == 1 {
      StepMovesSocket(s, step, k);
    }
    forall k | k >= |t.closes| ensures Places(t, k) == 0 {
      StepMovesSocket(s, step, k);
    }
  }

  lemma StepAccepts(s: State, step: Step)
    requires Shapes(s) && Enabled(s, step)
    ensures |Apply(s, step).closes| == |s.closes| + One(step.Accept?)
  {
    if step.WorkerHandle? {
      hide Handle;
      HandleEffect(s, step.w, step.request);
    }
  }

  // ------------------------------------------------------------------ replies

  /** A worker that has answered the socket and is about to close it. */
  function InClosing(ws: seq<Worker>, k: int): nat
  {
    if ws == [] then 0 else One(ws[0] == Closing(k)) + InClosing(ws[1..], k)
  }

  lemma {:induction false} InClosingUpdate(ws: seq<Worker>, w: nat, x: Worker, k: int)
    requires w < |ws|
    ensures InClosing(ws[w := x], k) == InClosing(ws, k) - One(ws[w] == Closing(k)) + One(x == Closing(k))
    ensures InClosing(ws, k) >= One(ws[w] == Closing(k))
  {
    if w == 0 {
      assert ws[w := x][1..] == ws[1..];
    } else {
      assert ws[w := x][1..] == ws[1..][w - 1 := x];
      InClosingUpdate(ws[1..], w - 1, x, k);
    }
  }

  lemma {:induction false} ClosingIsInWorkers(ws: seq<Worker>, k: int)
    ensures InClosing(ws, k) <= InWorkers(ws, k)
  {
    if ws != [] {
      ClosingIsInWorkers(ws[1..], k);
    }
  }

  /** A socket is answered at most once, and not before it is about to be closed or closed. */
  ghost predicate AnsweredOnce(s: State)
  {
    forall k | 0 <= k < |s.replies| && k < |s.closes| :: |s.replies[k]| <= InClosing(s.workers, k) + s.closes[k]
  }

  /** A reply that is not backed by an answer is never sent. */
  ghost predicate NoStaleReply(s: State)
  {
    forall k, i | 0 <= k < |s.replies| && 0 <= i < |s.replies[k]| :: s.replies[k][i] != Stale
  }

  lemma StepAnswersOnce(s: State, step: Step)
    requires Shapes(s) && Conserved(s) && AnsweredOnce(s) && Enabled(s, step)
    ensures AnsweredOnce(Apply(s, step))
  {
    var t := Apply(s, step);
    forall k | 0 <= k < |t.replies| && k < |t.closes| ensures |t.replies[k]| <= InClosing(t.workers, k) + t.closes[k] {
      if step.WorkerReceive? || step.WorkerHandle? || step.WorkerReply? || step.WorkerSend? || step.WorkerClose? {
        WorkerAnswersOnce(s, step, k);
      }
    }
  }

  lemma WorkerAnswersOnce(s: State, step: Step, k: int)
    requires Shapes(s) && Conserved(s) && AnsweredOnce(s) && Enabled(s, step) && 0 <= k < |s.replies|
    requires step.WorkerReceive? || step.WorkerHandle? || step.WorkerReply? || step.WorkerSend? || step.WorkerClose?
    ensures var t := Apply(s, step);
            && |t.replies| == |s.replies| && |t.closes| == |s.closes|
            && |t.replies[k]| <= InClosing(t.workers, k) + t.closes[k]
  {
    var t, w := Apply(s, step), step.w;
    WorkerEffect(s, step, k);
    InClosingUpdate(s.workers, w, t.workers[w], k);
    if s.workers[w].Handling? {
      NotYetAnswered(s, w, k);
    }
  }

  /** What a worker's step does to the replies and closes of a socket, and which worker it concerns. */
  ghost predicate Affects(s: State, t: State, w: nat, k: int)
    requires w < |s.workers|
  {
    && |t.workers| == |s.workers| && t.workers == s.workers[w := t.workers[w]]
    && |t.replies| == |s.replies| && |t.closes| == |s.closes| && 0 <= k < |s.replies| && k < |s.closes|
    && t.closes[k] == s.closes[k] + One(s.workers[w] == Closing(k))
    && |t.replies[k]| <= |s.replies[k]| + One(s.workers[w].Handling? && s.workers[w].m.sock == k
        && t.workers[w] == Closing(k))
  }

  lemma WorkerEffect(s: State, step: Step, k: int)
    requires Shapes(s) && Enabled(s, step) && 0 <= k < |s.replies|
    requires step.WorkerReceive? || step.WorkerHandle? || step.WorkerReply? || step.WorkerSend? || step.WorkerClose?
    ensures Affects(s, Apply(s, step), step.w, k)
  {
    if step.WorkerHandle? {
      HandleAffects(s, step.w, step.request, k);
    } else {
      OtherAffects(s, step, k);
    }
  }

  lemma HandleAffects(s: State, w: nat, request: Request, k: int)
    requires Shapes(s) && Enabled(s, WorkerHandle(w, request)) && 0 <= k < |s.replies|
    ensures Affects(s, Apply(s, WorkerHandle(w, request)), w, k)
  {
    hide Handle;
    HandleEffect(s, w, request);
  }

  lemma OtherAffects(s: State, step: Step, k: int)
    requires Shapes(s) && Enabled(s, step) && 0 <= k < |s.replies|
    requires step.WorkerReceive? || step.WorkerReply? || step.WorkerSend? || step.WorkerClose?
    ensures Affects(s, Apply(s, step), step.w, k)
  {
  }

  /** A socket that a worker still has to deal with is held nowhere else and has no reply yet. */
  lemma NotYetAnswered(s: State, w: nat, k: int)
    requires Shapes(s) && Conserved(s) && AnsweredOnce(s) && w < |s.workers| && s.workers[w].Handling?
    requires 0 <= k < |s.replies|
    ensures k == s.workers[w].m.sock ==> s.replies[k] == []
  {
    if k == s.workers[w].m.sock {
      InWorkersUpdate(s.workers, w, Idle, k);
      InClosingUpdate(s.workers, w, Idle, k);
      ClosingIsInWorkers(s.workers[w := Idle], k);
      assert Places(s, k) + s.closes[k] == 1;
    }
  }

  lemma StepSendsNoStale(s: State, step: Step)
    requires Shapes(s) && NoStaleReply(s) && Enabled(s, step)
    ensures NoStaleReply(Apply(s, step))
  {
    hide Handle;
    if step.WorkerReply? {
      assert WorkerShape(s, s.workers[step.w]);
    } else if step.WorkerHandle? {
      HandleEffect(s, step.w, step.request);
    }
  }

  // ------------------------------------------------------------------ every run

  ghost predicate Safe(s: State) { Shapes(s) && Conserved(s) && AnsweredOnce(s) && NoStaleReply(s) }

  lemma InitIsSafe(s: State)
    requires Init(s)
    ensures Safe(s)
  {
    forall k ensures InWorkers(s.workers, k) == 0 {
      IdleHoldNothing(s.workers, k);
    }
  }

  lemma {:induction false} IdleHoldNothing(ws: seq<Worker>, k: int)
    requires forall w | 0 <= w < |ws| :: ws[w] == Idle
    ensures InWorkers(ws, k) == 0
  {
    if ws != [] {
      IdleHoldNothing(ws[1..], k);
    }
  }

  lemma StepIsSafe(s: State, step: Step)
    requires Safe(s) && Enabled(s, step)
    ensures Safe(Apply(s, step))
  {
    StepKeepsShapes(s, step);
    StepConserves(s, step);
    StepAnswersOnce(s, step);
    StepSendsNoStale(s, step);
  }

  /**
   In every state of every run: each accepted socket is in exactly one place or closed exactly
   once, has at most one reply, and every message has the shape its place demands.
   */
  lemma {:induction false} EveryRunIsSafe(s: State, steps: seq<Step>)
    requires Safe(s)
    ensures Run(s, steps).Some? ==> Safe(Run(s, steps).value)
  {
    if steps != [] {
      EveryRunIsSafe(s, steps[..|steps| - 1]);
      var t := Run(s, steps[..|steps| - 1]);
      if t.Some? && Enabled(t.value, steps[|steps| - 1]) {
        StepIsSafe(t.value, steps[|steps| - 1]);
      }
    }
  }

  /** What that means for one socket. */
  lemma SocketFate(t: State, k: int)
    requires Reachable(t) && 0 <= k < |t.replies|
    ensures Safe(t)
    ensures t.closes[k] <= 1 && |t.replies[k]| <= 1
    ensures t.closes[k] == 1 <==> Places(t, k) == 0
  {
    var s, steps :| Init(s) && Run(s, steps) == Some(t);
    InitIsSafe(s);
    EveryRunIsSafe(s, steps);
    assert Places(t, k) + t.closes[k] == 1;
    ClosingIsInWorkers(t.workers, k);
  }
}
