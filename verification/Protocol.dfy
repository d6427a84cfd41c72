/**
 The request protocol: an acceptor, one to four workers, a sampler and a database thread,
 joined by two bounded queues whose senders block while the queue is full. One step is one
 receive, one send, one close, or the work a thread does between them.
 */
module Protocol {
  import opened Bytes
  import opened Replies
  import opened DbHandler

  const WORKER_QUEUE_MAX: nat := 512
  const DB_QUEUE_MAX: nat := 20
  const MAX_WORKERS: nat := 4

  const WRITE_ENTRY: int := 100
  const FETCH: int := 101
  const CURRENT: int := 102
  const STATS: int := 103
  const CONFIG: int := 104

  const NO_SOCKET: int := -100

  /** A measurement to be written. */
  datatype Sample = Sample(temperature: real, humidity: real, location: bytes, deviceName: bytes)

  /** When a row was inserted, as a time and as the date that is stored. */
  datatype Stamp = Stamp(time: int, date: bytes)

  /** What a completed message carries back. */
  datatype Data =
    | NoData
    | FetchData(rows: Option<seq<Entry>>)
    | StatsData(totalRequests: nat, totalEntries: nat)
    | OtherData

  /**
   rpiwd_mqmsg. Fresh messages leave mtype unset, so it may hold anything. The ticket is a
   history variable: the position of the message among all that were sent to the database.
   */
  datatype Msg = Msg(mtype: int, completed: bool, sock: int, query: Query, unit: byte, sample: Sample, data: Data,
      ticket: nat)

  datatype Reply =
    | BadRequest
    | NoContent
    | Error400
    | Fetched(ticket: nat, query: Query, unit: byte, rows: Option<seq<Entry>>)
    | Statistics(ticket: nat, totalRequests: nat, totalEntries: nat)
    | Current(unit: byte)
    | Configuration
    | Stale

  datatype Worker =
    | Idle
    | Handling(m: Msg)
    | Sending(m: Msg)
    | Closing(sock: int)

  datatype DbThread = DbIdle | DbHandling(m: Msg) | DbSending(m: Msg)

  datatype State = State(
    acceptor: Option<Msg>,
    workerQ: seq<Msg>,
    workers: seq<Worker>,
    sawEof: seq<bool>,
    sampler: Option<Msg>,
    dbQ: seq<Msg>,
    db: DbThread,
    table: seq<Stored>,
    nextId: int,
    totalRequests: nat,
    totalEntries: nat,
    // per accepted socket: the replies written to it and how often it was closed
    replies: seq<seq<Reply>>,
    closes: seq<nat>,
    // history: every message sent to the database queue, and how many of them are done
    sent: seq<Msg>,
    done: nat,
    // and when each executed write was inserted
    stamps: seq<Stamp>,
    initialTable: seq<Stored>,
    initialId: int,
    initialRequests: nat,
    initialEntries: nat
  )

  /** What reading and dispatching a request comes to. */
  datatype Request =
    | EndOfFile
    | Malformed
    | Favicon
    | Rejected
    | AskFetch(query: Query, unit: byte)
    | AskStats
    | AskCurrent(unit: byte)
    | AskConfig

  datatype Step =
    | Accept(mtype: int, unit: byte)
    | AcceptorSend
    | TakeSample(sample: Sample, completed: bool)
    | SamplerSend
    | WorkerReceive(w: nat)
    | WorkerHandle(w: nat, request: Request)
    | WorkerReply(w: nat)
    | WorkerSend(w: nat)
    | WorkerClose(w: nat)
    | DbReceive
    | DbExecute(stamp: int, date: bytes)
    | DbSend

  ghost predicate Init(s: State)
  {
    && s.acceptor == None && s.workerQ == [] && s.sampler == None && s.dbQ == [] && s.db == DbIdle
    && 1 <= |s.workers| <= MAX_WORKERS && |s.sawEof| == |s.workers|
    && (forall w | 0 <= w < |s.workers| :: s.workers[w] == Idle && !s.sawEof[w])
    && s.replies == [] && s.closes == [] && s.sent == [] && s.done == 0 && s.stamps == []
    && s.initialTable == s.table && s.initialId == s.nextId
    && s.initialRequests == s.totalRequests && s.initialEntries == s.totalEntries
    && DistinctRowIds(s.table) && forall i | 0 <= i < |s.table| :: s.table[i].e.id < s.nextId
  }

  /** A message for the database thread; every other one goes back to the worker queue. */
  predicate ForDb(m: Msg) { m.mtype == FETCH || m.mtype == STATS }

  predicate Enabled(s: State, step: Step)
  {
    match step
    case Accept(_, _) => s.acceptor.None?
    case AcceptorSend => s.acceptor.Some? && |s.workerQ| < WORKER_QUEUE_MAX
    case TakeSample(_, _) => s.sampler.None?
    case SamplerSend => s.sampler.Some? && |s.dbQ| < DB_QUEUE_MAX
    case WorkerReceive(w) => w < |s.workers| && s.workers[w].Idle? && s.workerQ != []
    case WorkerHandle(w, _) => w < |s.workers| && w < |s.sawEof| && s.workers[w].Handling? && !s.workers[w].m.completed
    case WorkerReply(w) => w < |s.workers| && s.workers[w].Handling? && s.workers[w].m.completed
    case WorkerSend(w) =>
      && w < |s.workers| && s.workers[w].Sending?
      && (if ForDb(s.workers[w].m) then |s.dbQ| < DB_QUEUE_MAX else |s.workerQ| < WORKER_QUEUE_MAX)
    case WorkerClose(w) => w < |s.workers| && s.workers[w].Closing?
    case DbReceive => s.db.DbIdle? && s.dbQ != []
    case DbExecute(_, _) => s.db.DbHandling?
    case DbSend => s.db.DbSending? && |s.workerQ| < WORKER_QUEUE_MAX
  }

  function SetWorker(s: State, w: nat, x: Worker): State
    requires w < |s.workers|
  {
    s.(workers := s.workers[w := x])
  }

  /** Appending to the replies of a socket. */
  function Respond(s: State, sock: int, r: Reply): State
  {
    if 0 <= sock < |s.replies| then s.(replies := s.replies[sock := s.replies[sock] + [r]]) else s
  }

  /** Sending to the database queue stamps the ticket. */
  function PushDb(s: State, m: Msg): State
  {
    var t := m.(ticket := |s.sent|);
    s.(dbQ := s.dbQ + [t], sent := s.sent + [t])
  }

  /** The branch of the worker loop for a message that is not completed. */
  function Handle(s: State, w: nat, m: Msg, request: Request): State
    requires w < |s.workers| && w < |s.sawEof|
  {
    match request
    case EndOfFile => SetWorker(s, w, Closing(m.sock)).(sawEof := s.sawEof[w := true])
    case Malformed => SetWorker(if s.sawEof[w] then s else Respond(s, m.sock, BadRequest), w, Closing(m.sock))
    case Favicon => SetWorker(Respond(s, m.sock, NoContent), w, Closing(m.sock))
    case Rejected => SetWorker(Respond(s, m.sock, Error400), w, Closing(m.sock))
    case AskFetch(q, u) => SetWorker(s, w, Sending(m.(mtype := FETCH, query := q, unit := u)))
    case AskStats => SetWorker(s, w, Sending(m.(mtype := STATS)))
    case AskCurrent(u) => SetWorker(s, w,
        Sending(m.(mtype := CURRENT, completed := true, unit := u, data := OtherData)))
    case AskConfig => SetWorker(s, w, Sending(m.(mtype := CONFIG, completed := true, data := OtherData)))
  }

  /** The reply made of a completed message; of a type the switch does not know, a left-over one. */
  function ReplyFor(m: Msg): Reply
  {
    if m.mtype == FETCH && m.data.FetchData? then Fetched(m.ticket, m.query, m.unit, m.data.rows)
    else if m.mtype == STATS && m.data.StatsData? then Statistics(m.ticket, m.data.totalRequests, m.data.totalEntries)
    else if m.mtype == CURRENT then Current(m.unit)
    else if m.mtype == CONFIG then Configuration
    else Stale
  }

  function NewRow(s: State, m: Msg, stamp: int, date: bytes): Stored
  {
    Stored(stamp, Entry(s.nextId, Some(date), m.sample.temperature, m.sample.humidity, m.sample.location,
        m.sample.deviceName))
  }

  /** The body of the database thread's loop. */
  function Execute(s: State, m: Msg, stamp: int, date: bytes): State
  {
    if m.mtype == WRITE_ENTRY then
      s.(db := DbIdle, table := s.table + [NewRow(s, m, stamp, date)], nextId := s.nextId + 1,
         totalEntries := s.totalEntries + 1, done := s.done + 1, stamps := s.stamps + [Stamp(stamp, date)])
    else if m.mtype == FETCH then
      s.(db := DbSending(m.(completed := true, data := FetchData(Fetch(m.query, m.unit, s.table)))),
         totalRequests := s.totalRequests + 1, done := s.done + 1)
    else if m.mtype == STATS then
      s.(db := DbSending(m.(completed := true, data := StatsData(s.totalRequests, s.totalEntries))),
         totalRequests := s.totalRequests + 1, done := s.done + 1)
    else s.(db := DbSending(m.(completed := true)), done := s.done + 1)
  }

  function FreshMsg(s: State, mtype: int, unit: byte): Msg
  {
    Msg(mtype, false, |s.replies|, FirstN(0), unit, Sample(0.0, 0.0, [], []), NoData, 0)
  }

  function WriteMsg(sample: Sample, completed: bool): Msg
  {
    Msg(WRITE_ENTRY, completed, NO_SOCKET, FirstN(0), 0, sample, NoData, 0)
  }

  function Apply(s: State, step: Step): State
    requires Enabled(s, step)
  {
    match step
    case Accept(mtype, unit) =>
      s.(acceptor := Some(FreshMsg(s, mtype, unit)), replies := s.replies + [[]], closes := s.closes + [0])
    case AcceptorSend => s.(acceptor := None, workerQ := s.workerQ + [s.acceptor.value])
    case TakeSample(sample, completed) => s.(sampler := Some(WriteMsg(sample, completed)))
    case SamplerSend => PushDb(s, s.sampler.value).(sampler := None)
    case WorkerReceive(w) => SetWorker(s, w, Handling(s.workerQ[0])).(workerQ := s.workerQ[1..])
    case WorkerHandle(w, request) => Handle(s, w, s.workers[w].m, request)
    case WorkerReply(w) => SetWorker(Respond(s, s.workers[w].m.sock, ReplyFor(s.workers[w].m)), w,
        Closing(s.workers[w].m.sock))
    case WorkerSend(w) =>
      if ForDb(s.workers[w].m) then SetWorker(PushDb(s, s.workers[w].m), w, Idle)
      else SetWorker(s, w, Idle).(workerQ := s.workerQ + [s.workers[w].m])
    case WorkerClose(w) =>
      var k := s.workers[w].sock;
      SetWorker(if 0 <= k < |s.closes| then s.(closes := s.closes[k := s.closes[k] + 1]) else s, w, Idle)
    case DbReceive => s.(db := DbHandling(s.dbQ[0]), dbQ := s.dbQ[1..])
    case DbExecute(stamp, date) => Execute(s, s.db.m, stamp, date)
    case DbSend => s.(db := DbIdle, workerQ := s.workerQ + [s.db.m])
  }

  /** A dispatched message: the type it was given decides whether it still has to be answered. */
  predicate Dispatched(m: Msg, n: Msg)
  {
    && n.sock == m.sock && (n.mtype == FETCH || n.mtype == STATS || n.mtype == CURRENT || n.mtype == CONFIG)
    && (if ForDb(n) then n.completed == m.completed else n.completed)
  }

  /** A worker answers a request itself and is about to close, or has dispatched it unanswered. */
  ghost predicate Handled(s: State, t: State, w: nat)
    requires w < |s.workers| && s.workers[w].Handling?
  {
    var m := s.workers[w].m;
    && |t.workers| == |s.workers| && |t.sawEof| == |s.sawEof|
    && t == s.(workers := s.workers[w := t.workers[w]], sawEof := t.sawEof, replies := t.replies)
    && (if t.workers[w].Sending? then t.replies == s.replies && Dispatched(m, t.workers[w].m)
        else t.workers[w] == Closing(m.sock) && Replied(s.replies, t.replies, m.sock))
  }

  /** At most one reply was added, to this socket, and it holds no data of the database. */
  ghost predicate Replied(a: seq<seq<Reply>>, b: seq<seq<Reply>>, sock: int)
  {
    || b == a
    || (&& 0 <= sock < |a| && |b| == |a| && |b[sock]| == |a[sock]| + 1 && b == a[sock := b[sock]]
        && b[sock][..|a[sock]|] == a[sock] && b[sock][|a[sock]|] in [BadRequest, NoContent, Error400])
  }

  lemma HandleEffect(s: State, w: nat, request: Request)
    requires Enabled(s, WorkerHandle(w, request))
    ensures Handled(s, Apply(s, WorkerHandle(w, request)), w)
  {
    var m, t := s.workers[w].m, Apply(s, WorkerHandle(w, request));
    if request.Malformed? {
      RespondReplies(s, m.sock, BadRequest);
    } else if request.Favicon? {
      RespondReplies(s, m.sock, NoContent);
    } else if request.Rejected? {
      RespondReplies(s, m.sock, Error400);
    }
  }

  lemma RespondReplies(s: State, sock: int, r: Reply)
    requires r in [BadRequest, NoContent, Error400]
    ensures Replied(s.replies, Respond(s, sock, r).replies, sock)
    ensures Respond(s, sock, r) == s.(replies := Respond(s, sock, r).replies)
  {
  }

  /** The state after a sequence of steps, each of which was enabled. */
  function Run(s: State, steps: seq<Step>): Option<State>
  {
    if steps == [] then Some(s)
    else
      match Run(s, steps[..|steps| - 1])
      case None => None
      case Some(t) => if Enabled(t, steps[|steps| - 1]) then Some(Apply(t, steps[|steps| - 1])) else None
  }

  ghost predicate Reachable(t: State)
  {
    exists s, steps :: Init(s) && Run(s, steps) == Some(t)
  }
}
