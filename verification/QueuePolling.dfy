/** Polling several endpoints, which share the local queue. */
module QueuePolling {
  import opened Prelude
  import opened QueueServer
  import opened QueueClient

  /** The table of endpoints, the local queue, and what was handed over from each endpoint. */
  datatype Clients = Clients(offsets: seq<nat>, local: Table, handed: seq<seq<(Row, bool)>>)

  datatype Request = Request(endpoint: nat, poll: Poll)

  /** The remote queues, in the order of the endpoints, and the two settings of the client. */
  datatype Remote = Remote(logs: seq<seq<Row>>, pageSize: nat, hashOf: string -> string)

  predicate Fits(remote: Remote, cs: Clients) {
    |cs.offsets| == |cs.handed| == |remote.logs|
  }

  /** What one endpoint sees of the whole. */
  function One(cs: Clients, e: nat): Client
    requires e < |cs.offsets| == |cs.handed|
  {
    Client(cs.offsets[e], cs.local, cs.handed[e])
  }

  function With(cs: Clients, e: nat, c: Client): Clients
    requires e < |cs.offsets| == |cs.handed|
  {
    Clients(cs.offsets[e := c.offset], c.local, cs.handed[e := c.handed])
  }

  function StepAt(remote: Remote, cs: Clients, r: Request): (next: Clients)
    requires Fits(remote, cs)
    ensures Fits(remote, next)
  {
    if r.endpoint >= |remote.logs| then cs
    else With(cs, r.endpoint, Step(remote.hashOf, remote.logs[r.endpoint], remote.pageSize, One(cs, r.endpoint), r.poll))
  }

  function RunAll(remote: Remote, cs: Clients, requests: seq<Request>): (next: Clients)
    requires Fits(remote, cs)
    ensures Fits(remote, next)
  {
    if requests == [] then cs
    else StepAt(remote, RunAll(remote, cs, requests[..|requests| - 1]), requests[|requests| - 1])
  }

  /** The state after polling one endpoint only. */
  function AfterPolls(remote: Remote, cs: Clients, e: nat, polls: seq<Poll>): Clients
    requires Fits(remote, cs) && e < |remote.logs|
  {
    With(cs, e, Run(remote.hashOf, remote.logs[e], remote.pageSize, One(cs, e), polls))
  }

  ghost predicate Answered(remote: Remote, requests: seq<Request>) {
    forall i :: 0 <= i < |requests| && requests[i].endpoint < |remote.logs| ==>
      PollOf(requests[i].poll, remote.logs[requests[i].endpoint])
  }

  /** The requests to one endpoint. */
  function PollsAt(requests: seq<Request>, e: nat): seq<Poll> {
    if requests == [] then []
    else
      var front, last := PollsAt(requests[..|requests| - 1], e), requests[|requests| - 1];
      if last.endpoint == e then front + [last.poll] else front
  }

  function Tagged(e: nat, polls: seq<Poll>): (r: seq<Request>)
    ensures |r| == |polls|
  {
    seq(|polls|, i requires 0 <= i < |polls| => Request(e, polls[i]))
  }

  // ---------------------------------------------------------------- the polling method

  ghost function Snapshot(endpoints: seq<Endpoint>, consumer: Server): Clients
    reads consumer, endpoints
  {
    Clients(seq(|endpoints|, e requires 0 <= e < |endpoints| reads endpoints => endpoints[e].targetOffset), consumer.table,
            seq(|endpoints|, e requires 0 <= e < |endpoints| reads endpoints => endpoints[e].handed))
  }

  /** One endpoint after the other; an exception outside `accept` ends the whole round. */
  method PollRemoteQueue(endpoints: seq<Endpoint>, remote: Remote, consumer: Server, maxRequests: nat, answers: (nat, nat) -> Option<Poll>)
    returns (ghost requests: seq<Request>, died: bool)
    requires consumer.Valid() && |endpoints| == |remote.logs| && Distinct(endpoints)
    requires forall e: nat, i: nat :: e < |endpoints| && answers(e, i).Some? ==> PollOf(answers(e, i).value, remote.logs[e])
    modifies endpoints, consumer
    ensures consumer.Valid() && Answered(remote, requests)
    ensures Snapshot(endpoints, consumer) == RunAll(remote, old(Snapshot(endpoints, consumer)), requests)
    ensures forall e :: 0 <= e < |endpoints| ==> |PollsAt(requests, e)| <= maxRequests
  {
    hide With, One, Distinct, Run, AfterPolls;
    ghost var start := Snapshot(endpoints, consumer);
    requests, died := [], false;
    for e := 0 to |endpoints|
      invariant consumer.Valid() && Answered(remote, requests)
      invariant Snapshot(endpoints, consumer) == RunAll(remote, start, requests)
      invariant forall d :: 0 <= d < |endpoints| ==> |PollsAt(requests, d)| <= if d < e then maxRequests else 0
    {
      ghost var before, polls := Snapshot(endpoints, consumer), [];
      polls, died := PollNext(endpoints, e, remote, consumer, maxRequests, answers);
      RunTagged(remote, before, e, polls);
      RunAppended(remote, start, requests, Tagged(e, polls));
      forall d | 0 <= d < |endpoints|
        ensures |PollsAt(requests + Tagged(e, polls), d)| <= if d < e + 1 then maxRequests else 0
      {
        PollsAppended(requests, e, polls, d);
      }
      requests := requests + Tagged(e, polls);
      if died {
        return;
      }
    }
  }

  method PollNext(endpoints: seq<Endpoint>, e: nat, remote: Remote, consumer: Server, maxRequests: nat, answers: (nat, nat) -> Option<Poll>)
    returns (ghost polls: seq<Poll>, died: bool)
    requires consumer.Valid() && e < |endpoints| == |remote.logs| && Distinct(endpoints)
    requires forall i: nat :: answers(e, i).Some? ==> PollOf(answers(e, i).value, remote.logs[e])
    modifies endpoints[e], consumer
    ensures consumer.Valid() && PollsOf(polls, remote.logs[e]) && |polls| <= maxRequests
    ensures var before := old(Snapshot(endpoints, consumer));
            Snapshot(endpoints, consumer) == AfterPolls(remote, before, e, polls)
  {
    hide Run;
    polls, died := endpoints[e].PollEndpoint(remote.logs[e], remote.pageSize, consumer, remote.hashOf, maxRequests,
                                             (i: nat) => answers(e, i));
    assert Snapshot(endpoints, consumer) == With(old(Snapshot(endpoints, consumer)), e, endpoints[e].State(consumer)) by {
      assert forall d :: 0 <= d < |endpoints| && d != e ==> endpoints[d] != endpoints[e];
    }
  }

  lemma {:induction false} RunAppended(remote: Remote, cs: Clients, requests: seq<Request>, more: seq<Request>)
    requires Fits(remote, cs)
    ensures RunAll(remote, cs, requests + more) == RunAll(remote, RunAll(remote, cs, requests), more)
  {
    if more == [] {
      assert requests + more == requests;
    } else {
      RunAppended(remote, cs, requests, more[..|more| - 1]);
      assert (requests + more)[..|requests + more| - 1] == requests + more[..|more| - 1];
    }
  }

  lemma {:induction false} RunTagged(remote: Remote, cs: Clients, e: nat, polls: seq<Poll>)
    requires Fits(remote, cs) && e < |remote.logs|
    ensures RunAll(remote, cs, Tagged(e, polls)) == AfterPolls(remote, cs, e, polls)
  {
    hide Step;
    if polls != [] {
      RunTagged(remote, cs, e, polls[..|polls| - 1]);
      assert Tagged(e, polls)[..|polls| - 1] == Tagged(e, polls[..|polls| - 1]);
    }
  }

  lemma {:induction false} PollsAppended(requests: seq<Request>, e: nat, polls: seq<Poll>, d: nat)
    ensures PollsAt(requests + Tagged(e, polls), d) == PollsAt(requests, d) + if d == e then polls else []
  {
    if polls == [] {
      assert requests + Tagged(e, polls) == requests;
    } else {
      PollsAppended(requests, e, polls[..|polls| - 1], d);
      var all := requests + Tagged(e, polls);
      assert all[..|all| - 1] == requests + Tagged(e, polls[..|polls| - 1]);
    }
  }

  // ---------------------------------------------------------------- each endpoint on its own

  /** Two states that an endpoint cannot tell apart. */
  predicate SameCursor(c: Client, d: Client) {
    c.offset == d.offset && c.handed == d.handed
  }

  lemma {:induction false} DeliverSameCursor(hashOf: string -> string, c: Client, d: Client, items: seq<Row>, fates: nat -> Fate)
    requires SameCursor(c, d)
    ensures SameCursor(Deliver(hashOf, c, items, fates), Deliver(hashOf, d, items, fates))
  {
    if items != [] {
      DeliverSameCursor(hashOf, c, d, items[..|items| - 1], fates);
    }
  }

  lemma StepSameCursor(hashOf: string -> string, log: seq<Row>, pageSize: nat, c: Client, d: Client, p: Poll)
    requires SameCursor(c, d)
    ensures SameCursor(Step(hashOf, log, pageSize, c, p), Step(hashOf, log, pageSize, d, p))
  {
    var items := ReadWithLastOffset(log, p.seen, p.seenLater, c.offset, pageSize).0;
    DeliverSameCursor(hashOf, c, d, if p.crashAfter.Some? then items[..Min(p.crashAfter.value, |items|)] else items, p.fates);
  }

  /** What other endpoints do makes no difference to the cursor of an endpoint. */
  lemma {:induction false} EndpointsAreIndependent(remote: Remote, cs: Clients, requests: seq<Request>, e: nat)
    requires Fits(remote, cs) && e < |remote.logs|
    ensures SameCursor(One(RunAll(remote, cs, requests), e),
                       Run(remote.hashOf, remote.logs[e], remote.pageSize, One(cs, e), PollsAt(requests, e)))
  {
    hide Step;
    if requests != [] {
      var front, last := requests[..|requests| - 1], requests[|requests| - 1];
      EndpointsAreIndependent(remote, cs, front, e);
      if last.endpoint == e {
        StepSameCursor(remote.hashOf, remote.logs[e], remote.pageSize, One(RunAll(remote, cs, front), e),
                       Run(remote.hashOf, remote.logs[e], remote.pageSize, One(cs, e), PollsAt(front, e)), last.poll);
      }
    }
  }

  lemma {:induction false} PollsAnswered(remote: Remote, requests: seq<Request>, e: nat)
    requires Answered(remote, requests) && e < |remote.logs|
    ensures PollsOf(PollsAt(requests, e), remote.logs[e])
  {
    if requests != [] {
      PollsAnswered(remote, requests[..|requests| - 1], e);
    }
  }

  /**
   With any number of endpoints polled in any order: nothing of any remote queue is skipped, also across
   crashes, and without crashes each queue is handed over exactly from the first to the last stored offset.
   */
  lemma EveryCursorDeliversItsLog(remote: Remote, cs: Clients, requests: seq<Request>, e: nat)
    requires Fits(remote, cs) && e < |remote.logs| && Answered(remote, requests)
    requires Ordered(remote.logs[e]) && remote.pageSize >= 1
    ensures var c, d := One(cs, e), One(RunAll(remote, cs, requests), e);
            && c.offset <= d.offset
            && (forall r :: r in remote.logs[e] && c.offset < r.id <= d.offset ==> r in RowsOf(d.handed))
            && (NoCrash(PollsAt(requests, e)) ==>
                  RowsOf(d.handed) == RowsOf(c.handed) + Between(remote.logs[e], c.offset, d.offset))
  {
    var polls := PollsAt(requests, e);
    EndpointsAreIndependent(remote, cs, requests, e);
    PollsAnswered(remote, requests, e);
    NothingSkipped(remote.hashOf, remote.logs[e], remote.pageSize, One(cs, e), polls);
    if NoCrash(polls) {
      CursorDeliversLog(remote.hashOf, remote.logs[e], remote.pageSize, One(cs, e), polls);
    }
  }

  // ---------------------------------------------------------------- one local queue

  /** The hashes that reached the queue from any endpoint. */
  function DeliveredByAny(hashOf: string -> string, handed: seq<seq<(Row, bool)>>): set<string> {
    set e, h | 0 <= e < |handed| && h in Delivered(hashOf, handed[e]) :: h
  }

  function DeliveredByOthers(hashOf: string -> string, handed: seq<seq<(Row, bool)>>, e: nat): set<string> {
    set d, h | 0 <= d < |handed| && d != e && h in Delivered(hashOf, handed[d]) :: h
  }

  lemma AnyIsOneAndOthers(hashOf: string -> string, handed: seq<seq<(Row, bool)>>, e: nat, now: seq<(Row, bool)>)
    requires e < |handed|
    ensures DeliveredByAny(hashOf, handed[e := now]) == DeliveredByOthers(hashOf, handed, e) + Delivered(hashOf, now)
  {
    hide Delivered;
    var all := handed[e := now];
    forall h | h in DeliveredByOthers(hashOf, handed, e) ensures h in DeliveredByAny(hashOf, all) {
      var d :| 0 <= d < |handed| && d != e && h in Delivered(hashOf, handed[d]);
      assert all[d] == handed[d];
    }
    assert all[e] == now;
  }

  /** Some endpoint handed over the content and the hash of this row. */
  ghost predicate SuppliedBySome(hashOf: string -> string, handed: seq<seq<(Row, bool)>>, row: Row) {
    exists e, i :: 0 <= e < |handed| && 0 <= i < |handed[e]| && Supplies(hashOf, handed[e][i], row)
  }

  /** With any number of endpoints, a local row was there or has content and hash of a row that an endpoint handed over. */
  lemma {:induction false} ContentFromAll(remote: Remote, cs: Clients, requests: seq<Request>, row: Row)
    requires Fits(remote, cs) && row in RunAll(remote, cs, requests).local.rows && row !in cs.local.rows
    ensures SuppliedBySome(remote.hashOf, RunAll(remote, cs, requests).handed, row)
  {
    var front, last := requests[..|requests| - 1], requests[|requests| - 1];
    var before, after := RunAll(remote, cs, front), RunAll(remote, cs, requests);
    if row in before.local.rows {
      ContentFromAll(remote, cs, front, row);
    }
    if last.endpoint < |remote.logs| {
      var e, c, p := last.endpoint, One(before, last.endpoint), last.poll;
      var items := ReadWithLastOffset(remote.logs[e], p.seen, p.seenLater, c.offset, remote.pageSize).0;
      DeliverKeepsContent(remote.hashOf, c, if p.crashAfter.Some? then items[..Min(p.crashAfter.value, |items|)] else items, p.fates, row);
      if row in before.local.rows {
        var d, i :| 0 <= d < |before.handed| && 0 <= i < |before.handed[d]| && Supplies(remote.hashOf, before.handed[d][i], row);
        assert after.handed[d][i] == before.handed[d][i];
      } else {
        var i :| 0 <= i < |after.handed[e]| && Supplies(remote.hashOf, after.handed[e][i], row);
      }
    }
  }

  lemma StepReplicates(remote: Remote, cs: Clients, r: Request, initial: set<string>)
    requires Fits(remote, cs) && Sound(cs.local)
    requires Hashes(cs.local.rows) == initial + DeliveredByAny(remote.hashOf, cs.handed)
    ensures var d := StepAt(remote, cs, r);
            && Sound(d.local) && cs.local.rows <= d.local.rows
            && Hashes(d.local.rows) == initial + DeliveredByAny(remote.hashOf, d.handed)
  {
    hide DeliveredByAny, DeliveredByOthers, Delivered, Hashes, Sound;
    if r.endpoint < |remote.logs| {
      var e, c, p := r.endpoint, One(cs, r.endpoint), r.poll;
      var items := ReadWithLastOffset(remote.logs[e], p.seen, p.seenLater, c.offset, remote.pageSize).0;
      var others := initial + DeliveredByOthers(remote.hashOf, cs.handed, e);
      AnyIsOneAndOthers(remote.hashOf, cs.handed, e, c.handed);
      assert cs.handed[e := c.handed] == cs.handed;
      DeliverIdempotent(remote.hashOf, c, if p.crashAfter.Some? then items[..Min(p.crashAfter.value, |items|)] else items, p.fates, others);
      AnyIsOneAndOthers(remote.hashOf, cs.handed, e, StepAt(remote, cs, r).handed[e]);
    }
  }

  /** Replication from several queues at once: the local queue has its initial hashes and all delivered ones, once each. */
  lemma {:induction false} ReplicationFromAll(remote: Remote, cs: Clients, requests: seq<Request>)
    requires Fits(remote, cs) && Sound(cs.local)
    requires forall e :: 0 <= e < |cs.handed| ==> cs.handed[e] == []
    ensures var d := RunAll(remote, cs, requests);
            && Sound(d.local) && cs.local.rows <= d.local.rows
            && Hashes(d.local.rows) == Hashes(cs.local.rows) + DeliveredByAny(remote.hashOf, d.handed)
  {
    hide Hashes, Sound, StepAt;
    if requests == [] {
      assert DeliveredByAny(remote.hashOf, cs.handed) == {};
    } else {
      hide DeliveredByAny;
      var front := requests[..|requests| - 1];
      ReplicationFromAll(remote, cs, front);
      StepReplicates(remote, RunAll(remote, cs, front), requests[|requests| - 1], Hashes(cs.local.rows));
    }
  }
}
