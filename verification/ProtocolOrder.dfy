/**
 The order of requests: over every run, workers take new requests off their queue in exactly the
 order in which the connections were accepted, however answers come back into the same queue.
 */
module ProtocolOrder {
  import opened Bytes
  import opened Protocol
  import opened ProtocolSafety

  function Numbers(n: nat): (r: seq<int>)
    ensures |r| == n
  {
    seq(n, i => i)
  }

  /** The sockets of the requests among the messages; the others are answers on their way back. */
  function NewSockets(q: seq<Msg>): seq<int>
  {
    if q == [] then [] else (if q[0].completed then [] else [q[0].sock]) + NewSockets(q[1..])
  }

  lemma {:induction false} NewSocketsConcat(a: seq<Msg>, b: seq<Msg>)
    ensures NewSockets(a + b) == NewSockets(a) + NewSockets(b)
  {
    if a == [] {
      assert a + b == b;
    } else {
      assert (a + b)[1..] == a[1..] + b;
      NewSocketsConcat(a[1..], b);
    }
  }

  lemma NewSocketsOne(m: Msg)
    ensures NewSockets([m]) == if m.completed then [] else [m.sock]
  {
    assert [m][1..] == [];
  }

  /** The requests that no worker has taken yet, the next one first. */
  function Waiting(s: State): seq<int>
  {
    NewSockets(s.workerQ) + if s.acceptor.Some? then [s.acceptor.value.sock] else []
  }

  /** The request that the step takes off the queue, if it takes one. */
  function TakenBy(s: State, step: Step): seq<int>
  {
    if step.WorkerReceive? && s.workerQ != [] && !s.workerQ[0].completed then [s.workerQ[0].sock] else []
  }

  function AcceptedBy(s: State, step: Step): seq<int> { if step.Accept? then [|s.replies|] else [] }

  /** A step takes from the front of those that wait, and accepting adds at their end. */
  lemma StepInOrder(s: State, step: Step)
    requires Shapes(s) && Enabled(s, step)
    ensures TakenBy(s, step) + Waiting(Apply(s, step)) == Waiting(s) + AcceptedBy(s, step)
    ensures |Apply(s, step).replies| == |s.replies| + |AcceptedBy(s, step)|
  {
    hide Handle, Execute, NewSockets;
    match step
    case WorkerReceive(w) =>
      assert s.workerQ == [s.workerQ[0]] + s.workerQ[1..];
      NewSocketsConcat([s.workerQ[0]], s.workerQ[1..]);
      NewSocketsOne(s.workerQ[0]);
    case AcceptorSend =>
      NewSocketsConcat(s.workerQ, [s.acceptor.value]);
      NewSocketsOne(s.acceptor.value);
    case WorkerSend(w) =>
      assert WorkerShape(s, s.workers[w]);
      NewSocketsConcat(s.workerQ, [s.workers[w].m]);
      NewSocketsOne(s.workers[w].m);
    case DbSend =>
      NewSocketsConcat(s.workerQ, [s.db.m]);
      NewSocketsOne(s.db.m);
    case WorkerHandle(w, request) =>
      HandleEffect(s, w, request);
      HandledReplies(s, Apply(s, step), w);
    case DbExecute(stamp, date) => ExecuteKeepsQueue(s, stamp, date);
    case Accept(_, _) =>
    case _ => OthersKeepQueue(s, step);
  }

  /** The sampler, a worker that replies or closes, and the database thread that receives. */
  lemma OthersKeepQueue(s: State, step: Step)
    requires Enabled(s, step)
    requires step.TakeSample? || step.SamplerSend? || step.WorkerReply? || step.WorkerClose? || step.DbReceive?
    ensures var t := Apply(s, step);
            |t.replies| == |s.replies| && t.workerQ == s.workerQ && t.acceptor == s.acceptor
  {
    hide ReplyFor, WriteMsg;
  }

  lemma HandledReplies(s: State, t: State, w: nat)
    requires w < |s.workers| && s.workers[w].Handling? && Handled(s, t, w)
    ensures |t.replies| == |s.replies| && t.workerQ == s.workerQ && t.acceptor == s.acceptor
  {
  }

  lemma ExecuteKeepsQueue(s: State, stamp: int, date: bytes)
    requires s.db.DbHandling?
    ensures var t := Execute(s, s.db.m, stamp, date);
            t.replies == s.replies && t.workerQ == s.workerQ && t.acceptor == s.acceptor
  {
  }

  /** The requests that workers took off their queue, in the order in which they did. */
  ghost function TakenUp(s: State, steps: seq<Step>): seq<int>
  {
    if steps == [] then []
    else
      var init := steps[..|steps| - 1];
      var before := Run(s, init);
      TakenUp(s, init) + if before.Some? then TakenBy(before.value, steps[|steps| - 1]) else []
  }

  lemma AcceptedNext(s: State, step: Step)
    ensures Numbers(|s.replies|) + AcceptedBy(s, step) == Numbers(|s.replies| + |AcceptedBy(s, step)|)
  {
  }

  lemma Joined(a: seq<int>, b: seq<int>, c: seq<int>)
    ensures (a + b) + c == a + (b + c)
  {
  }

  /** The sockets taken up, followed by those that wait, are all that were accepted, one by one in order. */
  lemma {:induction false} FirstComeFirstServed(s: State, steps: seq<Step>, t: State)
    requires Init(s) && Run(s, steps) == Some(t)
    ensures TakenUp(s, steps) + Waiting(t) == Numbers(|t.replies|)
  {
    if steps == [] {
      assert Waiting(s) == [];
    } else {
      hide Init, Enabled, Apply, Waiting, TakenBy, Numbers, Safe, Shapes, AcceptedBy;
      var init, step := steps[..|steps| - 1], steps[|steps| - 1];
      var u := Run(s, init).value;
      FirstComeFirstServed(s, init, u);
      assert Shapes(u) by {
        InitIsSafe(s);
        EveryRunIsSafe(s, init);
        SafeHasShapes(u);
      }
      StepInOrder(u, step);
      AcceptedNext(u, step);
      Joined(TakenUp(s, init), TakenBy(u, step), Waiting(t));
      Joined(TakenUp(s, init), Waiting(u), AcceptedBy(u, step));
    }
  }

  lemma SafeHasShapes(s: State)
    requires Safe(s)
    ensures Shapes(s)
  {
  }
}
