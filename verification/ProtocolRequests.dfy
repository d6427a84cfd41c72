/**
 Replies and the requests they answer: what a run sends to a socket is determined by the one
 step in which a worker handled the request of that socket.
 */
module ProtocolRequests {
  import opened Bytes
  import opened Replies
  import opened DbHandler
  import opened Protocol
  import opened ProtocolSafety

  // ------------------------------------------------------------------ requests in a run

  /** The step of a run, its worker and the request; quiet tells that the worker saw an end of file before. */
  datatype Dispatch = Dispatch(at: nat, w: nat, request: Request, quiet: bool)

  /** What a step adds to the requests handled, per accepted socket. */
  ghost function NextAsked(s: State, step: Step, at: nat, asked: seq<seq<Dispatch>>): seq<seq<Dispatch>>
    requires Enabled(s, step)
  {
    if step.Accept? then asked + [[]]
    else if step.WorkerHandle? && 0 <= s.workers[step.w].m.sock < |asked| then
      var k := s.workers[step.w].m.sock;
      asked[k := asked[k] + [Dispatch(at, step.w, step.request, s.sawEof[step.w])]]
    else asked
  }

  ghost function Asked(s: State, steps: seq<Step>): seq<seq<Dispatch>>
    requires Run(s, steps).Some?
  {
    if steps == [] then []
    else
      var init := steps[..|steps| - 1];
      NextAsked(Run(s, init).value, steps[|steps| - 1], |init|, Asked(s, init))
  }

  // ------------------------------------------------------------------ what is promised of each place

  /** The message made of a request. */
  predicate MadeOf(request: Request, m: Msg)
  {
    || (m.mtype == FETCH && request == AskFetch(m.query, m.unit))
    || (m.mtype == STATS && request == AskStats)
    || (m.mtype == CURRENT && request == AskCurrent(m.unit))
    || (m.mtype == CONFIG && request == AskConfig)
  }

  /** The replies that a request comes to. */
  predicate Settles(request: Request, quiet: bool, rs: seq<Reply>)
  {
    match request
    case EndOfFile => rs == []
    case Malformed => rs == if quiet then [] else [BadRequest]
    case Favicon => rs == [NoContent]
    case Rejected => rs == [Error400]
    case AskFetch(q, u) => |rs| == 1 && rs[0].Fetched? && rs[0].query == q && rs[0].unit == u
    case AskStats => |rs| == 1 && rs[0].Statistics?
    case AskCurrent(u) => rs == [Current(u)]
    case AskConfig => rs == [Configuration]
  }

  predicate Unasked(asked: seq<seq<Dispatch>>, m: Msg) { 0 <= m.sock < |asked| && asked[m.sock] == [] }

  predicate Carries(asked: seq<seq<Dispatch>>, m: Msg)
  {
    0 <= m.sock < |asked| && |asked[m.sock]| == 1 && MadeOf(asked[m.sock][0].request, m)
  }

  predicate Known(asked: seq<seq<Dispatch>>, m: Msg) { if m.completed then Carries(asked, m) else Unasked(asked, m) }

  predicate DbKnown(asked: seq<seq<Dispatch>>, m: Msg) { m.mtype != WRITE_ENTRY ==> Carries(asked, m) }

  predicate Settled(asked: seq<seq<Dispatch>>, replies: seq<seq<Reply>>, k: int)
  {
    && 0 <= k < |asked| && k < |replies| && |asked[k]| == 1
    && Settles(asked[k][0].request, asked[k][0].quiet, replies[k])
  }

  predicate WorkerTold(asked: seq<seq<Dispatch>>, replies: seq<seq<Reply>>, x: Worker)
  {
    match x
    case Idle => true
    case Handling(m) => Known(asked, m)
    case Sending(m) => Carries(asked, m)
    case Closing(k) => Settled(asked, replies, k)
  }

  ghost predicate Told(s: State, asked: seq<seq<Dispatch>>)
  {
    && |asked| == |s.replies| == |s.closes|
    && (s.acceptor.Some? ==> Unasked(asked, s.acceptor.value))
    && (forall i | 0 <= i < |s.workerQ| :: Known(asked, s.workerQ[i]))
    && (forall w | 0 <= w < |s.workers| :: WorkerTold(asked, s.replies, s.workers[w]))
    && (forall i | 0 <= i < |s.dbQ| :: DbKnown(asked, s.dbQ[i]))
    && (!s.db.DbIdle? ==> DbKnown(asked, s.db.m))
    && forall k | 0 <= k < |s.closes| :: s.closes[k] > 0 ==> Settled(asked, s.replies, k)
  }

  // ------------------------------------------------------------------ a socket in hand is nowhere else

  lemma {:induction false} NotInQueue(q: seq<Msg>, k: int)
    requires InQueue(q, k) == 0
    ensures forall i | 0 <= i < |q| :: q[i].sock != k
  {
    if q != [] {
      NotInQueue(q[1..], k);
      assert forall i | 1 <= i < |q| :: q[i] == q[1..][i - 1];
    }
  }

  lemma {:induction false} NotInWorkers(ws: seq<Worker>, k: int)
    requires InWorkers(ws, k) == 0
    ensures forall w | 0 <= w < |ws| :: InWorker(ws[w], k) == 0
  {
    if ws != [] {
      NotInWorkers(ws[1..], k);
      assert forall w | 1 <= w < |ws| :: ws[w] == ws[1..][w - 1];
    }
  }

  /** No other place than worker w has the socket, and it is open. */
  ghost predicate OnlyAt(s: State, w: nat, k: int)
  {
    && (s.acceptor.Some? ==> s.acceptor.value.sock != k)
    && (forall i | 0 <= i < |s.workerQ| :: s.workerQ[i].sock != k)
    && (forall x | 0 <= x < |s.workers| && x != w :: InWorker(s.workers[x], k) == 0)
    && (forall i | 0 <= i < |s.dbQ| :: s.dbQ[i].sock != k)
    && (!s.db.DbIdle? ==> s.db.m.sock != k)
    && 0 <= k < |s.closes| && s.closes[k] == 0
  }

  lemma HeldOnce(s: State, w: nat)
    requires Shapes(s) && Conserved(s) && w < |s.workers| && s.workers[w].Handling?
    ensures OnlyAt(s, w, s.workers[w].m.sock)
  {
    hide InQueue, InWorkers;
    var k := s.workers[w].m.sock;
    assert WorkerShape(s, s.workers[w]);
    InWorkersUpdate(s.workers, w, Idle, k);
    assert Places(s, k) + s.closes[k] == 1;
    NotInQueue(s.workerQ, k);
    NotInQueue(s.dbQ, k);
    NotInWorkers(s.workers[w := Idle], k);
    assert forall x | 0 <= x < |s.workers| && x != w :: s.workers[x] == s.workers[w := Idle][x];
  }

  // ------------------------------------------------------------------ every step

  lemma StepTells(s: State, step: Step, at: nat, asked: seq<seq<Dispatch>>)
    requires Safe(s) && Told(s, asked) && Enabled(s, step)
    ensures Told(Apply(s, step), NextAsked(s, step, at, asked))
  {
    hide *;
    assert Shapes(s) by { SafeParts(s); }
    match step
    case Accept(_, _) => AcceptTells(s, step, at, asked);
    case AcceptorSend => EdgeTells(s, step, at, asked);
    case TakeSample(_, _) => EdgeTells(s, step, at, asked);
    case SamplerSend => EdgeTells(s, step, at, asked);
    case WorkerReceive(w) => ReceiveTells(s, w, at, asked);
    case WorkerHandle(w, request) => HandleTells(s, w, request, at, asked);
    case WorkerReply(w) => ReplyTells(s, w, at, asked);
    case WorkerSend(w) => SendTells(s, w, at, asked);
    case WorkerClose(w) => CloseTells(s, w, at, asked);
    case DbReceive => DbTells(s, step, at, asked);
    case DbExecute(_, _) => DbTells(s, step, at, asked);
    case DbSend => DbTells(s, step, at, asked);
  }

  lemma SafeParts(s: State)
    requires Safe(s)
    ensures Shapes(s) && Conserved(s) && AnsweredOnce(s)
  {
  }

  lemma AcceptTells(s: State, step: Step, at: nat, asked: seq<seq<Dispatch>>)
    requires Shapes(s) && Told(s, asked) && Enabled(s, step) && step.Accept?
    ensures Told(Apply(s, step), NextAsked(s, step, at, asked))
  {
    hide MadeOf, Settles;
    var t, more := Apply(s, step), NextAsked(s, step, at, asked);
    assert forall k | 0 <= k < |asked| :: more[k] == asked[k] && t.replies[k] == s.replies[k];
    forall w | 0 <= w < |t.workers| ensures WorkerTold(more, t.replies, t.workers[w]) {
      assert WorkerTold(asked, s.replies, s.workers[w]);
    }
  }

  lemma EdgeTells(s: State, step: Step, at: nat, asked: seq<seq<Dispatch>>)
    requires Shapes(s) && Told(s, asked) && Enabled(s, step)
    requires step.AcceptorSend? || step.TakeSample? || step.SamplerSend?
    ensures Told(Apply(s, step), NextAsked(s, step, at, asked))
  {
    hide MadeOf, Settles, Carries, Unasked, WorkerTold, Settled;
  }

  lemma ReceiveTells(s: State, w: nat, at: nat, asked: seq<seq<Dispatch>>)
    requires Shapes(s) && Told(s, asked) && Enabled(s, WorkerReceive(w))
    ensures Told(Apply(s, WorkerReceive(w)), NextAsked(s, WorkerReceive(w), at, asked))
  {
    hide MadeOf, Settles, Known, Settled;
  }

  lemma SendTells(s: State, w: nat, at: nat, asked: seq<seq<Dispatch>>)
    requires Shapes(s) && Told(s, asked) && Enabled(s, WorkerSend(w))
    ensures Told(Apply(s, WorkerSend(w)), NextAsked(s, WorkerSend(w), at, asked))
  {
    hide Settles, Settled;
    assert WorkerTold(asked, s.replies, s.workers[w]) && WorkerShape(s, s.workers[w]);
  }

  lemma DbTells(s: State, step: Step, at: nat, asked: seq<seq<Dispatch>>)
    requires Shapes(s) && Told(s, asked) && Enabled(s, step) && (step.DbReceive? || step.DbExecute? || step.DbSend?)
    ensures Told(Apply(s, step), NextAsked(s, step, at, asked))
  {
    hide Settles, Settled, Fetch;
  }

  lemma CloseTells(s: State, w: nat, at: nat, asked: seq<seq<Dispatch>>)
    requires Shapes(s) && Told(s, asked) && Enabled(s, WorkerClose(w))
    ensures Told(Apply(s, WorkerClose(w)), NextAsked(s, WorkerClose(w), at, asked))
  {
    hide MadeOf, Settles, Carries, Unasked, Settled;
    assert WorkerTold(asked, s.replies, s.workers[w]);
  }

  /** What the step does not touch stays as it was. */
  lemma OthersTold(s: State, t: State, w: nat, k: int, asked: seq<seq<Dispatch>>, more: seq<seq<Dispatch>>)
    requires Told(s, asked) && OnlyAt(s, w, k) && w < |s.workers|
    requires |more| == |asked| && |t.replies| == |s.replies|
    requires forall j | 0 <= j < |asked| && j != k :: more[j] == asked[j] && t.replies[j] == s.replies[j]
    requires t == s.(workers := t.workers, sawEof := t.sawEof, replies := t.replies)
    requires |t.workers| == |s.workers| && t.workers == s.workers[w := t.workers[w]]
    requires WorkerTold(more, t.replies, t.workers[w])
    ensures Told(t, more)
  {
    hide MadeOf, Settles;
    forall i | 0 <= i < |t.workerQ| ensures Known(more, t.workerQ[i]) {
      assert Known(asked, s.workerQ[i]);
    }
    forall i | 0 <= i < |t.dbQ| ensures DbKnown(more, t.dbQ[i]) {
      assert DbKnown(asked, s.dbQ[i]);
    }
    forall x | 0 <= x < |t.workers| ensures WorkerTold(more, t.replies, t.workers[x]) {
      if x != w {
        assert WorkerTold(asked, s.replies, s.workers[x]) && InWorker(s.workers[x], k) == 0;
      }
    }
  }

  lemma ReplyTells(s: State, w: nat, at: nat, asked: seq<seq<Dispatch>>)
    requires Safe(s) && Told(s, asked) && Enabled(s, WorkerReply(w))
    ensures Told(Apply(s, WorkerReply(w)), NextAsked(s, WorkerReply(w), at, asked))
  {
    var t, m := Apply(s, WorkerReply(w)), s.workers[w].m;
    assert WorkerShape(s, s.workers[w]) && WorkerTold(asked, s.replies, s.workers[w]);
    assert OnlyAt(s, w, m.sock) by { HeldOnce(s, w); }
    assert s.replies[m.sock] == [] by { NotYetAnswered(s, w, m.sock); }
    hide Conserved, AnsweredOnce, NoStaleReply, Shapes, OnlyAt, Told;
    assert t.replies[m.sock] == [ReplyFor(m)];
    assert Settled(asked, t.replies, m.sock);
    OthersTold(s, t, w, m.sock, asked, asked);
  }

  lemma HandleTells(s: State, w: nat, request: Request, at: nat, asked: seq<seq<Dispatch>>)
    requires Safe(s) && Told(s, asked) && Enabled(s, WorkerHandle(w, request))
    ensures Told(Apply(s, WorkerHandle(w, request)), NextAsked(s, WorkerHandle(w, request), at, asked))
  {
    var t, m := Apply(s, WorkerHandle(w, request)), s.workers[w].m;
    var more, k := NextAsked(s, WorkerHandle(w, request), at, asked), m.sock;
    assert WorkerShape(s, s.workers[w]) && WorkerTold(asked, s.replies, s.workers[w]);
    assert OnlyAt(s, w, k) by { HeldOnce(s, w); }
    assert s.replies[k] == [] by { NotYetAnswered(s, w, k); }
    HandleEffect(s, w, request);
    hide Conserved, AnsweredOnce, NoStaleReply, Shapes, OnlyAt, Told;
    RequestIsHandled(s, w, request);
    assert more[k] == [Dispatch(at, w, request, s.sawEof[w])];
    OthersTold(s, t, w, k, asked, more);
  }

  /** What handling a request does: a message made of it, or the replies it comes to. */
  lemma RequestIsHandled(s: State, w: nat, request: Request)
    requires Enabled(s, WorkerHandle(w, request)) && 0 <= s.workers[w].m.sock < |s.replies|
    requires s.replies[s.workers[w].m.sock] == []
    ensures var t, k := Apply(s, WorkerHandle(w, request)), s.workers[w].m.sock;
            && |t.replies| == |s.replies| && (forall j | 0 <= j < |s.replies| && j != k :: t.replies[j] == s.replies[j])
            && (if t.workers[w].Sending? then t.workers[w].m.sock == k && MadeOf(request, t.workers[w].m)
                else t.workers[w] == Closing(k) && Settles(request, s.sawEof[w], t.replies[k]))
  {
  }

  // ------------------------------------------------------------------ every run

  /** In step j of the run, worker w handled the request of socket k. */
  ghost predicate HandledAt(s: State, steps: seq<Step>, j: nat, w: nat, request: Request, k: int)
  {
    && j < |steps| && steps[j] == WorkerHandle(w, request) && Run(s, steps[..j]).Some?
    && HoldsRequest(Run(s, steps[..j]).value, w, k)
  }

  ghost predicate HoldsRequest(u: State, w: nat, k: int)
  {
    w < |u.workers| && u.workers[w].Handling? && !u.workers[w].m.completed && u.workers[w].m.sock == k
  }

  /** The worker met an end of file in an earlier step. */
  ghost predicate EofBefore(steps: seq<Step>, j: nat, w: nat)
  {
    exists i | 0 <= i < j && i < |steps| :: steps[i] == WorkerHandle(w, EndOfFile)
  }

  lemma {:induction false} EveryRunTells(s: State, steps: seq<Step>, t: State)
    requires Init(s) && Run(s, steps) == Some(t)
    ensures Safe(t) && Told(t, Asked(s, steps))
  {
    hide Enabled, Apply, NextAsked, Safe;
    if steps == [] {
      InitIsSafe(s);
    } else {
      var init, step := steps[..|steps| - 1], steps[|steps| - 1];
      var u := Run(s, init).value;
      EveryRunTells(s, init, u);
      assert Enabled(u, step) && t == Apply(u, step);
      StepTells(u, step, |init|, Asked(s, init));
      StepIsSafe(u, step);
    }
  }

  lemma {:induction false} PrefixRuns(s: State, steps: seq<Step>, j: nat)
    requires Run(s, steps).Some? && j <= |steps|
    ensures Run(s, steps[..j]).Some?
    decreases |steps|
  {
    if j == |steps| {
      assert steps[..j] == steps;
    } else {
      PrefixRuns(s, steps[..|steps| - 1], j);
      assert steps[..|steps| - 1][..j] == steps[..j];
    }
  }

  lemma HandledStays(s: State, steps: seq<Step>, j: nat, w: nat, request: Request, k: int)
    requires steps != [] && HandledAt(s, steps[..|steps| - 1], j, w, request, k)
    ensures HandledAt(s, steps, j, w, request, k)
  {
    assert steps[..|steps| - 1][..j] == steps[..j];
  }

  lemma HandledBefore(s: State, steps: seq<Step>, j: nat, w: nat, request: Request, k: int)
    requires HandledAt(s, steps, j, w, request, k) && j < |steps| - 1
    ensures HandledAt(s, steps[..|steps| - 1], j, w, request, k)
  {
    assert steps[..|steps| - 1][..j] == steps[..j];
  }

  /** The requests collected for a socket are steps of the run. */
  lemma {:induction false} AskedInRun(s: State, steps: seq<Step>, k: nat, i: nat)
    requires Run(s, steps).Some? && k < |Asked(s, steps)| && i < |Asked(s, steps)[k]|
    ensures var d := Asked(s, steps)[k][i];
            && HandledAt(s, steps, d.at, d.w, d.request, k)
            && d.w < |Run(s, steps[..d.at]).value.sawEof| && d.quiet == Run(s, steps[..d.at]).value.sawEof[d.w]
  {
    hide HandledAt, Apply;
    if steps != [] {
      var init, step := steps[..|steps| - 1], steps[|steps| - 1];
      var before, d := Asked(s, init), Asked(s, steps)[k][i];
      if k < |before| && i < |before[k]| {
        AskedInRun(s, init, k, i);
        HandledStays(s, steps, d.at, d.w, d.request, k);
        assert steps[..|steps| - 1][..d.at] == steps[..d.at] by { HandledIndex(s, init, d.at, d.w, d.request, k); }
      } else {
        LastHandled(s, steps, k);
      }
    }
  }

  lemma HandledIndex(s: State, steps: seq<Step>, j: nat, w: nat, request: Request, k: int)
    requires HandledAt(s, steps, j, w, request, k)
    ensures j < |steps| && Run(s, steps[..j]).Some?
  {
  }

  lemma LastHandled(s: State, steps: seq<Step>, k: nat)
    requires Run(s, steps).Some? && steps != [] && steps[|steps| - 1].WorkerHandle?
    requires Run(s, steps[..|steps| - 1]).value.workers[steps[|steps| - 1].w].m.sock == k
    ensures HandledAt(s, steps, |steps| - 1, steps[|steps| - 1].w, steps[|steps| - 1].request, k)
  {
  }

  /** And every step of the run that handled a request of the socket is among them. */
  lemma {:induction false} RunIsAsked(s: State, steps: seq<Step>, j: nat, w: nat, request: Request, k: nat)
    requires Init(s) && Run(s, steps).Some? && HandledAt(s, steps, j, w, request, k)
    ensures k < |Asked(s, steps)|
    ensures exists i | 0 <= i < |Asked(s, steps)[k]| :: Asked(s, steps)[k][i].at == j
  {
    hide Apply, Safe;
    var init, step := steps[..|steps| - 1], steps[|steps| - 1];
    var u, before, asked := Run(s, init).value, Asked(s, init), Asked(s, steps);
    EveryRunTells(s, init, u);
    if j == |steps| - 1 {
      assert WorkerTold(before, u.replies, u.workers[w]);
      var added: seq<Dispatch> := asked[k];
      assert added[|before[k]|].at == j;
    } else {
      HandledBefore(s, steps, j, w, request, k);
      RunIsAsked(s, init, j, w, request, k);
      var i :| 0 <= i < |before[k]| && before[k][i].at == j;
      assert asked[k][i] == before[k][i];
    }
  }

  /** A worker's flag says exactly whether it met an end of file before: it is never reset. */
  lemma {:induction false} SawEofExactly(s: State, steps: seq<Step>, t: State, w: nat)
    requires Init(s) && Run(s, steps) == Some(t) && w < |t.sawEof|
    ensures t.sawEof[w] <==> EofBefore(steps, |steps|, w)
  {
    if steps != [] {
      hide Apply, Enabled, Init, EofBefore;
      var n := |steps| - 1;
      var init, step := steps[..n], steps[n];
      var u := Run(s, init).value;
      FlagStep(u, step, w);
      SawEofExactly(s, init, u, w);
      EofByThen(steps, w);
    }
  }

  lemma EofByThen(steps: seq<Step>, w: nat)
    requires steps != []
    ensures var n := |steps| - 1;
            EofBefore(steps, n + 1, w) <==> EofBefore(steps[..n], n, w) || steps[n] == WorkerHandle(w, EndOfFile)
  {
    var n := |steps| - 1;
    var init := steps[..n];
    assert forall i | 0 <= i < n :: init[i] == steps[i];
  }

  lemma FlagStep(s: State, step: Step, w: nat)
    requires Enabled(s, step) && w < |Apply(s, step).sawEof|
    ensures |s.sawEof| == |Apply(s, step).sawEof|
    ensures Apply(s, step).sawEof[w] == (s.sawEof[w] || step == WorkerHandle(w, EndOfFile))
  {
    hide Apply, Enabled;
    if step.WorkerHandle? {
      FlagHandled(s, step.w, step.request);
    } else {
      FlagKept(s, step);
    }
  }

  lemma FlagHandled(s: State, w: nat, request: Request)
    requires Enabled(s, WorkerHandle(w, request))
    ensures w < |s.sawEof|
    ensures Apply(s, WorkerHandle(w, request)).sawEof
         == if request.EndOfFile? then s.sawEof[w := true] else s.sawEof
  {
  }

  lemma FlagKept(s: State, step: Step)
    requires Enabled(s, step) && !step.WorkerHandle?
    ensures Apply(s, step).sawEof == s.sawEof
  {
    hide NewRow, FreshMsg, WriteMsg, ReplyFor;
  }

  lemma FlagAt(s: State, steps: seq<Step>, j: nat, w: nat)
    requires Init(s) && Run(s, steps).Some? && j <= |steps| && Run(s, steps[..j]).Some?
    requires w < |Run(s, steps[..j]).value.sawEof|
    ensures Run(s, steps[..j]).value.sawEof[w] <==> EofBefore(steps, j, w)
  {
    hide Run;
    SawEofExactly(s, steps[..j], Run(s, steps[..j]).value, w);
    assert forall i | 0 <= i < j :: steps[..j][i] == steps[i];
  }

  // ------------------------------------------------------------------ replies and requests

  /** Some step of the run handled the request of the socket, and these replies are what it comes to. */
  ghost predicate Answers(s: State, steps: seq<Step>, k: nat, rs: seq<Reply>)
  {
    exists j, w, request ::
      HandledAt(s, steps, j, w, request, k) && Settles(request, EofBefore(steps, j, w), rs)
  }

  /**
   In every run each socket has its request handled at most once. As soon as there is a reply,
   and when it is closed, the replies are exactly what that request comes to: the fetch of its
   own query in its own unit, statistics, the current values, the configuration, or the error.
   */
  lemma EveryRequestIsAnswered(s: State, steps: seq<Step>, t: State, k: nat)
    requires Init(s) && Run(s, steps) == Some(t) && k < |t.replies|
    ensures |t.closes| == |t.replies|
    ensures t.closes[k] == 1 || t.replies[k] != [] ==> Answers(s, steps, k, t.replies[k])
    ensures forall i, j, v, w, q, r ::
              HandledAt(s, steps, i, v, q, k) && HandledAt(s, steps, j, w, r, k) ==> i == j
  {
    hide HandledAt, Run, Init, EofBefore;
    var asked := Asked(s, steps);
    EveryRunTells(s, steps, t);
    if t.closes[k] == 1 || t.replies[k] != [] {
      SettledInTheEnd(t, asked, k);
      var d := asked[k][0];
      AskedInRun(s, steps, k, 0);
      HandledIndex(s, steps, d.at, d.w, d.request, k);
      FlagAt(s, steps, d.at, d.w);
      assert HandledAt(s, steps, d.at, d.w, d.request, k)
             && Settles(d.request, EofBefore(steps, d.at, d.w), t.replies[k]);
    }
    forall i, j, v, w, q, r | HandledAt(s, steps, i, v, q, k) && HandledAt(s, steps, j, w, r, k) ensures i == j {
      RunIsAsked(s, steps, i, v, q, k);
      RunIsAsked(s, steps, j, w, r, k);
      AskedOnce(t, asked, k);
    }
  }

  lemma SettledInTheEnd(t: State, asked: seq<seq<Dispatch>>, k: nat)
    requires Safe(t) && Told(t, asked) && k < |t.replies| && (t.closes[k] == 1 || t.replies[k] != [])
    ensures Settled(asked, t.replies, k)
  {
    hide Settled, Known, Carries;
    if t.closes[k] == 0 {
      assert |t.replies[k]| <= InClosing(t.workers, k) + t.closes[k];
      var w := SomeCloses(t.workers, k);
      assert WorkerTold(asked, t.replies, t.workers[w]);
    }
  }

  lemma {:induction false} SomeCloses(ws: seq<Worker>, k: int) returns (w: nat)
    requires InClosing(ws, k) > 0
    ensures w < |ws| && ws[w] == Closing(k)
  {
    if ws[0] == Closing(k) {
      w := 0;
    } else {
      w := SomeCloses(ws[1..], k);
      w := w + 1;
    }
  }

  /** A socket is somewhere or closed, and either way its request was handled at most once. */
  lemma AskedOnce(t: State, asked: seq<seq<Dispatch>>, k: nat)
    requires Safe(t) && Told(t, asked) && k < |asked|
    ensures |asked[k]| <= 1
  {
    hide MadeOf, Settles, AnsweredOnce, NoStaleReply, InQueue, InWorkers;
    assert Places(t, k) + t.closes[k] == 1;
    if t.closes[k] == 0 {
      if InQueue(t.workerQ, k) > 0 {
        var i := SomeQueued(t.workerQ, k);
        assert Known(asked, t.workerQ[i]);
      } else if InQueue(t.dbQ, k) > 0 {
        var i := SomeQueued(t.dbQ, k);
        assert DbKnown(asked, t.dbQ[i]) && DbMsg(t, t.dbQ[i]);
      } else if InWorkers(t.workers, k) > 0 {
        var w := SomeWorker(t.workers, k);
        assert WorkerTold(asked, t.replies, t.workers[w]);
      }
    }
  }

  lemma {:induction false} SomeQueued(q: seq<Msg>, k: int) returns (i: nat)
    requires InQueue(q, k) > 0
    ensures i < |q| && q[i].sock == k
  {
    if q[0].sock == k {
      i := 0;
    } else {
      i := SomeQueued(q[1..], k);
      i := i + 1;
    }
  }

  lemma {:induction false} SomeWorker(ws: seq<Worker>, k: int) returns (w: nat)
    requires InWorkers(ws, k) > 0
    ensures w < |ws| && InWorker(ws[w], k) > 0
  {
    if InWorker(ws[0], k) > 0 {
      w := 0;
    } else {
      w := SomeWorker(ws[1..], k);
      w := w + 1;
    }
  }

  /** What each kind of reply says of the request: every one was asked for by the socket it went to. */
  lemma ReplyWasAskedFor(s: State, steps: seq<Step>, t: State, k: nat, i: nat)
    requires Init(s) && Run(s, steps) == Some(t) && k < |t.replies| && i < |t.replies[k]|
    ensures exists j, w, request ::
              && HandledAt(s, steps, j, w, request, k)
              && match t.replies[k][i] {
                   case BadRequest => request == Malformed && !EofBefore(steps, j, w)
                   case NoContent => request == Favicon
                   case Error400 => request == Rejected
                   case Fetched(_, q, u, _) => request == AskFetch(q, u)
                   case Statistics(_, _, _) => request == AskStats
                   case Current(u) => request == AskCurrent(u)
                   case Configuration => request == AskConfig
                   case Stale => false
                 }
  {
    hide HandledAt, Run, Init, EofBefore;
    EveryRequestIsAnswered(s, steps, t, k);
    var j, w, request :|
      HandledAt(s, steps, j, w, request, k) && Settles(request, EofBefore(steps, j, w), t.replies[k]);
    assert |t.replies[k]| == 1;
  }
}
