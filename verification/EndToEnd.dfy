/**
 From the samples and the request to the client: the parsed text of a fetch reply, in any run.
 */
module EndToEnd {
  import opened Bytes
  import opened JsonNumber
  import opened JsonValue
  import opened JsonSerializer
  import opened JsonRoundTrip
  import opened Replies
  import opened ReplyText
  import opened DbHandler
  import opened Protocol
  import opened ProtocolAnswers
  import opened ProtocolRequests

  /** The first n samples of a run as rows behind the table it started with. */
  ghost function TableAfter(s: State, steps: seq<Step>, n: nat): seq<Stored>
    requires Run(s, steps).Some? && n <= |Inserted(s, steps)| <= |Taken(steps)|
  {
    s.table + RowsFrom(s.nextId, Taken(steps)[..n], Inserted(s, steps)[..n])
  }

  /** The table that an answer saw holds the samples taken first, with the times they were inserted at. */
  lemma AnswerSees(s: State, steps: seq<Step>, t: State, k: nat)
    requires Init(s) && Run(s, steps) == Some(t) && k <= t.done <= |t.sent|
    ensures NumWrites(t.sent[..k]) <= |Inserted(s, steps)| <= |Taken(steps)|
    ensures TableAt(t, k) == TableAfter(s, steps, NumWrites(t.sent[..k]))
  {
    hide Run, Init, Written, RowsFrom, TableAt, Taken, Inserted;
    EveryRunIsTruthful(s, steps, t);
    assert Recorded(t) by { TruthfulParts(t); }
    TableOfRun(s, steps, t);
    RunTakes(s, steps, t);
    TableAtIs(t, k);
    WrittenPrefix(t.sent, k, |t.sent|);
    assert t.sent[..|t.sent|] == t.sent;
    var n := NumWrites(t.sent[..k]);
    assert Taken(steps)[..n] == Written(t.sent[..k]);
  }

  /**
   In every run, a client that parses the text of its fetch reply finds what it asked for: a
   worker handled just this query and unit for its socket, and the rows read are exactly those
   that the query asks for, in order, out of the initial table and the samples taken first, each
   with the time of its insertion, in the unit asked for, and to the nearest millionth.
   */
  lemma ClientIsTold(s: State, steps: seq<Step>, t: State, k: nat, i: nat, pretty: bool)
    requires Init(s) && Run(s, steps) == Some(t)
    requires k < |t.replies| && i < |t.replies[k]| && t.replies[k][i].Fetched?
    requires var r := t.replies[k][i];
             r.rows.Some? && 0 < r.unit < 0x80 && forall j | 0 <= j < |r.rows.value| :: CRow(r.rows.value[j])
    ensures var r := t.replies[k][i];
            && (exists j, w :: HandledAt(s, steps, j, w, AskFetch(r.query, r.unit), k))
            && r.ticket < |t.sent| && t.sent[r.ticket].sock == k
            && var n := NumWrites(t.sent[..r.ticket]);
            && n <= |Inserted(s, steps)| <= |Taken(steps)|
            && Fetches(r.query, r.unit, TableAfter(s, steps, n), r.rows.value)
            && var back := ParsedString(Text(Object(FetchReply(r.rows.value, r.unit)), 0, pretty));
            && back.Some? && back.value.Object? && ReadsReply(back.value.obj.members, r.rows.value, r.unit)
  {
    hide *;
    var r := t.replies[k][i];
    assert Reachable(t) by { RunIsReachable(s, steps, t); }
    FetchRepliesAreTrue(t, k, i);
    AnswerSees(s, steps, t, r.ticket);
    FetchIsExact(r.query, r.unit, TableAt(t, r.ticket));
    ReplyWasAskedFor(s, steps, t, k, i);
    ClientReads(r.rows.value, r.unit, pretty);
  }

  lemma RunIsReachable(s: State, steps: seq<Step>, t: State)
    requires Init(s) && Run(s, steps) == Some(t)
    ensures Reachable(t)
  {
  }
}
