/** Reading other nodes' queues page by page and feeding them to the local queue. */
module QueueClient {
  import opened Prelude
  import opened QueueServer

  /** What comes of handing an item over: `accept` throws before it inserts, the storage refuses the item, or it reaches the queue. */
  datatype Fate = Fails | Refused | Queued

  /**
   One request: how much of the remote queue its two queries see, whether the client dies while it
   handles the page (and after how many items), and the fate of each item.
   */
  datatype Poll = Poll(seen: nat, seenLater: nat, crashAfter: Option<nat>, fates: nat -> Fate)

  /** The stored offset, the local queue, and everything that was ever handed to `accept`, and whether it was queued. */
  datatype Client = Client(offset: nat, local: Table, handed: seq<(Row, bool)>)

  ghost predicate PollOf(p: Poll, log: seq<Row>) {
    p.seen <= p.seenLater <= |log|
  }

  ghost predicate PollsOf(polls: seq<Poll>, log: seq<Row>) {
    forall i :: 0 <= i < |polls| ==> PollOf(polls[i], log)
  }

  /** An item without a hash of its own gets a computed one. */
  function HashFor(hashOf: string -> string, row: Row): string {
    if row.objectHash == "" then hashOf(row.content) else row.objectHash
  }

  /** Hands items to the local queue one by one; a failing `accept` is logged and skipped. */
  function Deliver(hashOf: string -> string, c: Client, items: seq<Row>, fates: nat -> Fate): Client {
    if items == [] then c
    else
      var k := |items| - 1;
      var front, row := Deliver(hashOf, c, items[..k], fates), items[k];
      front.(local := if fates(k).Queued? then Insert(front.local, row.content, HashFor(hashOf, row)) else front.local,
             handed := front.handed + [(row, fates(k).Queued?)])
  }

  /** One iteration of the polling loop. The offset is stored only after the whole page. */
  function Step(hashOf: string -> string, log: seq<Row>, pageSize: nat, c: Client, p: Poll): Client {
    var (items, lastOffset) := ReadWithLastOffset(log, p.seen, p.seenLater, c.offset, pageSize);
    if items == [] then c
    else if p.crashAfter.Some? then Deliver(hashOf, c, items[..Min(p.crashAfter.value, |items|)], p.fates)
    else Deliver(hashOf, c, items, p.fates).(offset := lastOffset)
  }

  function Run(hashOf: string -> string, log: seq<Row>, pageSize: nat, c: Client, polls: seq<Poll>): Client {
    if polls == [] then c
    else Step(hashOf, log, pageSize, Run(hashOf, log, pageSize, c, polls[..|polls| - 1]), polls[|polls| - 1])
  }

  /** One row of the table of endpoints: what is stored about a remote queue. */
  class Endpoint {
    var targetOffset: nat
    ghost var handed: seq<(Row, bool)>

    ghost function State(consumer: Server): Client
      reads this, consumer
    {
      Client(targetOffset, consumer.table, handed)
    }

    /** Polls one endpoint until a request fails, a page is empty, the requests are used up or the client dies. */
    method PollEndpoint(log: seq<Row>, pageSize: nat, consumer: Server, hashOf: string -> string, maxRequests: nat, answers: nat -> Option<Poll>)
      returns (ghost polls: seq<Poll>, died: bool)
      requires consumer.Valid()
      requires forall i :: answers(i).Some? ==> PollOf(answers(i).value, log)
      modifies this, consumer
      ensures consumer.Valid()
      ensures |polls| <= maxRequests && forall i :: 0 <= i < |polls| ==> answers(i) == Some(polls[i])
      ensures State(consumer) == Run(hashOf, log, pageSize, old(State(consumer)), polls)
      ensures died <==> polls != [] && polls[|polls| - 1].crashAfter.Some?
      ensures !died && |polls| < maxRequests && answers(|polls|).Some? ==>
                var next := answers(|polls|).value;
                ReadWithLastOffset(log, next.seen, next.seenLater, targetOffset, pageSize).0 == []
    {
      ghost var start := State(consumer);
      polls, died := [], false;
      var lastOffset := targetOffset;
      for i := 0 to maxRequests
        invariant consumer.Valid() && lastOffset == targetOffset && |polls| == i && !died
        invariant forall k :: 0 <= k < i ==> answers(k) == Some(polls[k]) && polls[k].crashAfter.None?
        invariant State(consumer) == Run(hashOf, log, pageSize, start, polls)
      {
        var answer := answers(i);
        if answer.None? {
          break;
        }
        var poll := answer.value;
        var (items, nextOffset) := ReadWithLastOffset(log, poll.seen, poll.seenLater, lastOffset, pageSize);
        if |items| == 0 {
          break;
        }
        assert (polls + [poll])[..|polls|] == polls;
        polls := polls + [poll];
        if poll.crashAfter.Some? {
          HandOver(consumer, hashOf, items[..Min(poll.crashAfter.value, |items|)], poll.fates);
          return polls, true;
        }
        HandOver(consumer, hashOf, items, poll.fates);
        targetOffset := nextOffset;
        lastOffset := nextOffset;
      }
    }

    method HandOver(consumer: Server, hashOf: string -> string, items: seq<Row>, fates: nat -> Fate)
      requires consumer.Valid()
      modifies this`handed, consumer
      ensures consumer.Valid()
      ensures State(consumer) == Deliver(hashOf, old(State(consumer)), items, fates)
    {
      ghost var before := State(consumer);
      for k := 0 to |items|
        invariant consumer.Valid()
        invariant State(consumer) == Deliver(hashOf, before, items[..k], fates)
      {
        assert items[..k + 1][..k] == items[..k];
        if !fates(k).Fails? {
          var storage := if fates(k).Refused? then Some(false) else None;
          var appendSuccessful := consumer.Accept(QItem(items[k].content, items[k].objectHash), storage, hashOf);
        }
        handed := handed + [(items[k], fates(k).Queued?)];
      }
      assert items[..|items|] == items;
    }
  }

  // ---------------------------------------------------------------- the cursor delivers the log

  function RowsOf(handed: seq<(Row, bool)>): (r: seq<Row>)
    ensures |r| == |handed|
  {
    seq(|handed|, i requires 0 <= i < |handed| => handed[i].0)
  }

  lemma {:induction false} DeliverFacts(hashOf: string -> string, c: Client, items: seq<Row>, fates: nat -> Fate)
    ensures Deliver(hashOf, c, items, fates).offset == c.offset
    ensures RowsOf(Deliver(hashOf, c, items, fates).handed) == RowsOf(c.handed) + items
  {
    if items != [] {
      var k := |items| - 1;
      DeliverFacts(hashOf, c, items[..k], fates);
      var front := Deliver(hashOf, c, items[..k], fates).handed;
      assert RowsOf(front + [(items[k], fates(k).Queued?)]) == RowsOf(front) + [items[k]];
      assert items == items[..k] + [items[k]];
    } else {
      assert RowsOf(c.handed) + items == RowsOf(c.handed);
    }
  }

  ghost predicate NoCrash(polls: seq<Poll>) {
    forall i :: 0 <= i < |polls| ==> polls[i].crashAfter == None
  }

  /** One request hands over exactly the stretch of the log by which it moves the offset. */
  lemma StepDeliversStretch(hashOf: string -> string, log: seq<Row>, pageSize: nat, c: Client, p: Poll)
    requires Ordered(log) && pageSize >= 1 && PollOf(p, log) && p.crashAfter == None
    ensures var d := Step(hashOf, log, pageSize, c, p);
            && c.offset <= d.offset
            && RowsOf(d.handed) == RowsOf(c.handed) + Between(log, c.offset, d.offset)
  {
    ReplyCovers(log, p.seen, p.seenLater, c.offset, pageSize);
    var items := ReadWithLastOffset(log, p.seen, p.seenLater, c.offset, pageSize).0;
    if items == [] {
      EmptyRange(log, c.offset);
      assert RowsOf(c.handed) + [] == RowsOf(c.handed);
    } else {
      DeliverFacts(hashOf, c, items, p.fates);
    }
  }

  /**
   Without crashes, whatever is appended in between: what is handed over is exactly the rows between
   the first and the last stored offset, in id order, each once. The offset never goes back.
   */
  lemma {:induction false} CursorDeliversLog(hashOf: string -> string, log: seq<Row>, pageSize: nat, c: Client, polls: seq<Poll>)
    requires Ordered(log) && pageSize >= 1 && NoCrash(polls) && PollsOf(polls, log)
    ensures var d := Run(hashOf, log, pageSize, c, polls);
            && c.offset <= d.offset
            && RowsOf(d.handed) == RowsOf(c.handed) + Between(log, c.offset, d.offset)
  {
    hide Step;
    if polls == [] {
      EmptyRange(log, c.offset);
      assert RowsOf(c.handed) + [] == RowsOf(c.handed);
    } else {
      var front, p := polls[..|polls| - 1], polls[|polls| - 1];
      CursorDeliversLog(hashOf, log, pageSize, c, front);
      var d := Run(hashOf, log, pageSize, c, front);
      StepDeliversStretch(hashOf, log, pageSize, d, p);
      BetweenSplit(log, c.offset, d.offset, Step(hashOf, log, pageSize, d, p).offset);
    }
  }

  /** What has been handed over is a prefix of everything behind the starting offset. */
  lemma {:induction false} StretchIsPrefix(rows: seq<Row>, lo: nat, hi: nat)
    requires Ordered(rows)
    ensures Between(rows, lo, hi) <= After(rows, lo)
  {
    if rows != [] {
      var front, last := rows[..|rows| - 1], rows[|rows| - 1];
      StretchIsPrefix(front, lo, hi);
      if lo < last.id <= hi {
        WholeStretch(front, lo, hi);
      }
    }
  }

  /** An empty page means that everything visible at that moment has been handed over. */
  lemma EmptyPageMeansDone(hashOf: string -> string, log: seq<Row>, pageSize: nat, c: Client, polls: seq<Poll>, p: Poll)
    requires Ordered(log) && pageSize >= 1 && NoCrash(polls) && PollOf(p, log)
    requires PollsOf(polls, log)
    requires var d := Run(hashOf, log, pageSize, c, polls);
             ReadWithLastOffset(log, p.seen, p.seenLater, d.offset, pageSize).0 == []
    ensures var d := Run(hashOf, log, pageSize, c, polls);
            forall r :: r in Visible(log, p.seen) && r.id > c.offset ==> r in RowsOf(d.handed)
  {
    var d := Run(hashOf, log, pageSize, c, polls);
    CursorDeliversLog(hashOf, log, pageSize, c, polls);
    ReplyCovers(log, p.seen, p.seenLater, d.offset, pageSize);
    AfterFacts(Visible(log, p.seen), d.offset);
    BetweenMembers(log, c.offset, d.offset);
    forall r | r in Visible(log, p.seen) && r.id > c.offset ensures r in RowsOf(d.handed) {
      assert r !in After(Visible(log, p.seen), d.offset);
      assert r in Between(log, c.offset, d.offset);
    }
  }

  lemma {:induction false} BetweenMembers(rows: seq<Row>, lo: nat, hi: nat)
    ensures forall r :: r in Between(rows, lo, hi) <==> r in rows && lo < r.id <= hi
  {
    if rows != [] {
      BetweenMembers(rows[..|rows| - 1], lo, hi);
      assert rows == rows[..|rows| - 1] + [rows[|rows| - 1]];
    }
  }

  // ---------------------------------------------------------------- replication is idempotent

  /** The hashes of all items that reached the queue. */
  function Delivered(hashOf: string -> string, handed: seq<(Row, bool)>): set<string> {
    set h | h in handed && h.1 :: HashFor(hashOf, h.0)
  }

  lemma DeliveredSplit(hashOf: string -> string, handed: seq<(Row, bool)>, row: Row, ok: bool)
    ensures Delivered(hashOf, handed + [(row, ok)]) == Delivered(hashOf, handed) + if ok then {HashFor(hashOf, row)} else {}
  {}

  lemma {:induction false} DeliverIdempotent(hashOf: string -> string, c: Client, items: seq<Row>, fates: nat -> Fate, initial: set<string>)
    requires Sound(c.local) && Hashes(c.local.rows) == initial + Delivered(hashOf, c.handed)
    ensures var d := Deliver(hashOf, c, items, fates);
            && Sound(d.local) && c.local.rows <= d.local.rows
            && Hashes(d.local.rows) == initial + Delivered(hashOf, d.handed)
  {
    hide Sound, Hashes, Insert, Delivered;
    if items != [] {
      var k := |items| - 1;
      DeliverIdempotent(hashOf, c, items[..k], fates, initial);
      var front := Deliver(hashOf, c, items[..k], fates);
      InsertSound(front.local, items[k].content, HashFor(hashOf, items[k]));
      DeliveredSplit(hashOf, front.handed, items[k], fates(k).Queued?);
    }
  }

  /**
   Replication is idempotent: over any run, with pages cut short by crashes and read again, the local
   queue holds exactly its initial hashes and those delivered, one row each, in increasing id order,
   and the rows it had stay where they were. A row is missing only if no delivery of it reached the queue.
   */
  lemma {:induction false} ReplicationIdempotent(hashOf: string -> string, log: seq<Row>, pageSize: nat, c: Client, polls: seq<Poll>)
    requires PollsOf(polls, log)
    requires Sound(c.local) && c.handed == []
    ensures var d := Run(hashOf, log, pageSize, c, polls);
            && Sound(d.local) && c.local.rows <= d.local.rows
            && Hashes(d.local.rows) == Hashes(c.local.rows) + Delivered(hashOf, d.handed)
  {
    if polls != [] {
      var front, p := polls[..|polls| - 1], polls[|polls| - 1];
      ReplicationIdempotent(hashOf, log, pageSize, c, front);
      var d := Run(hashOf, log, pageSize, c, front);
      var (items, lastOffset) := ReadWithLastOffset(log, p.seen, p.seenLater, d.offset, pageSize);
      DeliverIdempotent(hashOf, d, if p.crashAfter.Some? then items[..Min(p.crashAfter.value, |items|)] else items, p.fates,
                        Hashes(c.local.rows));
    }
  }

  /** Where a local row comes from: it was there, or it has content and hash of a row that was handed over and queued. */
  ghost predicate ComesFrom(hashOf: string -> string, row: Row, initial: seq<Row>, handed: seq<(Row, bool)>) {
    row in initial || exists i :: 0 <= i < |handed| && Supplies(hashOf, handed[i], row)
  }

  ghost predicate Supplies(hashOf: string -> string, h: (Row, bool), row: Row) {
    h.1 && row.content == h.0.content && row.objectHash == if h.0.objectHash == "" then hashOf(h.0.content) else h.0.objectHash
  }

  lemma {:induction false} DeliverKeepsContent(hashOf: string -> string, c: Client, items: seq<Row>, fates: nat -> Fate, row: Row)
    ensures var d := Deliver(hashOf, c, items, fates);
            && c.handed <= d.handed
            && (row in d.local.rows && row !in c.local.rows ==>
                  exists i :: |c.handed| <= i < |d.handed| && Supplies(hashOf, d.handed[i], row))
  {
    if items != [] {
      var k := |items| - 1;
      DeliverKeepsContent(hashOf, c, items[..k], fates, row);
      var front, d := Deliver(hashOf, c, items[..k], fates), Deliver(hashOf, c, items, fates);
      assert front.handed == d.handed[..|front.handed|];
      if i :| |c.handed| <= i < |front.handed| && Supplies(hashOf, front.handed[i], row) {
        assert d.handed[i] == front.handed[i];
      }
      if row in d.local.rows && row !in front.local.rows {
        assert Supplies(hashOf, d.handed[|front.handed|], row);
      }
    }
  }

  /** Nothing but what was handed over gets into the local queue, and nothing of it is changed on the way. */
  lemma {:induction false} RunKeepsContent(hashOf: string -> string, log: seq<Row>, pageSize: nat, c: Client, polls: seq<Poll>, row: Row)
    ensures var d := Run(hashOf, log, pageSize, c, polls);
            c.handed <= d.handed && (row in d.local.rows ==> ComesFrom(hashOf, row, c.local.rows, d.handed))
  {
    if polls != [] {
      var front, p := polls[..|polls| - 1], polls[|polls| - 1];
      RunKeepsContent(hashOf, log, pageSize, c, front, row);
      var d := Run(hashOf, log, pageSize, c, front);
      var items := ReadWithLastOffset(log, p.seen, p.seenLater, d.offset, pageSize).0;
      DeliverKeepsContent(hashOf, d, if p.crashAfter.Some? then items[..Min(p.crashAfter.value, |items|)] else items, p.fates, row);
    }
  }

  /** Crashes lose nothing: every row up to the stored offset has been handed over at least once. */
  lemma {:induction false} NothingSkipped(hashOf: string -> string, log: seq<Row>, pageSize: nat, c: Client, polls: seq<Poll>)
    requires Ordered(log) && pageSize >= 1
    requires PollsOf(polls, log)
    ensures var d := Run(hashOf, log, pageSize, c, polls);
            && c.offset <= d.offset
            && RowsOf(c.handed) <= RowsOf(d.handed)
            && forall r :: r in log && c.offset < r.id <= d.offset ==> r in RowsOf(d.handed)
  {
    if polls != [] {
      var front, p := polls[..|polls| - 1], polls[|polls| - 1];
      NothingSkipped(hashOf, log, pageSize, c, front);
      var d := Run(hashOf, log, pageSize, c, front);
      ReplyCovers(log, p.seen, p.seenLater, d.offset, pageSize);
      var (items, lastOffset) := ReadWithLastOffset(log, p.seen, p.seenLater, d.offset, pageSize);
      BetweenMembers(log, d.offset, lastOffset);
      DeliverFacts(hashOf, d, items, p.fates);
      if p.crashAfter.Some? {
        DeliverFacts(hashOf, d, items[..Min(p.crashAfter.value, |items|)], p.fates);
      }
    }
  }
}
