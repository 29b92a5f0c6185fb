/**
 The mempool of one node while any number of `sendTransaction` calls overlap with each other and with block
 production. A call is suspended only while its transaction is being checked, so every interleaving is a
 sequence of the three kinds of events below.
 */
module MempoolRun {
  import opened Prelude
  import opened ValidatorRandom
  import opened BlockPb
  import opened BlockUtil
  import opened ValidatorNode
  import opened HonestRun

  /** `End(k)` resumes the `k`-th suspended call. The environment may be another one at every event. */
  datatype Event =
    | Begin(env: NodeEnv, tx: Transaction, validatorTokenRequired: bool)
    | End(env: NodeEnv, k: nat)
    | Propose

  datatype Pool = Pool(queue: seq<Transaction>, inFlight: seq<Transaction>, batches: seq<seq<Transaction>>, accepted: seq<Transaction>)

  datatype Limits = Limits(maxTxs: nat, maxTotalSize: nat, maxTxSize: nat)

  const Empty := Pool([], [], [], [])

  predicate Admits(self: NodeId, queue: seq<Transaction>, e: Event)
    requires e.Begin?
  {
    && RoomFor(e.env.check, queue)
    && e.tx.size <= e.env.check.maxTxSize
    && (e.validatorTokenRequired ==> CheckValidatorToken(e.env.random, e.tx.apiToken, self) == Ok(true))
  }

  function Step(self: NodeId, p: Pool, e: Event): Pool {
    match e
    case Begin(_, tx, _) =>
      if Admits(self, p.queue, e) then p.(inFlight := p.inFlight + [tx]) else p
    case End(env, k) =>
      if k >= |p.inFlight| then p
      else
        var tx := p.inFlight[k];
        var q := p.(inFlight := RemoveAt(p.inFlight, k));
        if env.check.checkTx(tx) then q.(queue := p.queue + [tx], accepted := p.accepted + [tx]) else q
    case Propose =>
      if p.queue == [] then p else p.(queue := [], batches := p.batches + [p.queue])
  }

  function Run(self: NodeId, events: seq<Event>): Pool {
    if events == [] then Empty else Step(self, Run(self, events[..|events| - 1]), events[|events| - 1])
  }

  /** The limits are configuration constants of the whole network. */
  predicate Configured(limits: Limits, events: seq<Event>) {
    forall i :: 0 <= i < |events| ==>
      events[i].Propose?
      || (var c := events[i].env.check;
          c.maxTxs == limits.maxTxs && c.maxTotalSize == limits.maxTotalSize && c.maxTxSize == limits.maxTxSize)
  }

  /** At most `k` calls are ever suspended at the same time. */
  predicate AtMostInFlight(self: NodeId, events: seq<Event>, k: nat) {
    forall n :: 0 <= n <= |events| ==> |Run(self, events[..n]).inFlight| <= k
  }

  /** Drives a node through an interleaving: its fields follow the run, whatever the order of the events. */
  method Drive(node: Node, events: seq<Event>)
    returns (inFlight: seq<Transaction>, batches: seq<seq<Transaction>>, accepted: seq<Transaction>)
    requires node.Valid() && node.currentBlockTxs == []
    modifies node`currentBlockTxs, node`totalTransactionBytes
    ensures node.Valid()
    ensures Pool(node.currentBlockTxs, inFlight, batches, accepted) == Run(node.nodeId, events)
    ensures node.totalTransactionBytes == MempoolBytes(Run(node.nodeId, events).queue)
  {
    inFlight, batches, accepted := [], [], [];
    for i := 0 to |events|
      invariant node.Valid()
      invariant Pool(node.currentBlockTxs, inFlight, batches, accepted) == Run(node.nodeId, events[..i])
    {
      assert events[..i + 1][..i] == events[..i];
      match events[i] {
        case Begin(env, tx, validatorTokenRequired) =>
          var r := node.SendTransactionBegin(env, tx, validatorTokenRequired);
          inFlight := if r.Ok? then inFlight + [tx] else inFlight;
        case End(env, k) =>
          if k < |inFlight| {
            var tx := inFlight[k];
            var r := node.SendTransactionEnd(env, tx);
            inFlight := RemoveAt(inFlight, k);
            accepted := if r.Ok? then accepted + [tx] else accepted;
          }
        case Propose =>
          if |node.currentBlockTxs| > 0 {
            var cachedTxs := node.Drain();
            batches := batches + [cachedTxs];
          }
      }
    }
    assert events[..|events|] == events;
  }

  // ---------------------------------------------------------------- nothing lost, nothing twice

  function Flatten(batches: seq<seq<Transaction>>): seq<Transaction> {
    if batches == [] then [] else Flatten(batches[..|batches| - 1]) + batches[|batches| - 1]
  }

  lemma StepConserves(self: NodeId, p: Pool, e: Event)
    requires p.accepted == Flatten(p.batches) + p.queue
    ensures var q := Step(self, p, e); q.accepted == Flatten(q.batches) + q.queue
  {}

  /**
   The transactions whose callers were told that they are accepted are, in the order of acceptance, those of
   the proposed batches followed by those still queued: each one is in exactly one place.
   */
  lemma {:induction false} NothingLostOrDuplicated(self: NodeId, events: seq<Event>)
    ensures var p := Run(self, events); p.accepted == Flatten(p.batches) + p.queue
  {
    hide Step;
    if events != [] {
      NothingLostOrDuplicated(self, events[..|events| - 1]);
      StepConserves(self, Run(self, events[..|events| - 1]), events[|events| - 1]);
    }
  }

  // ---------------------------------------------------------------- the limits

  lemma {:induction false} BytesOfConcat(a: seq<Transaction>, b: seq<Transaction>)
    ensures MempoolBytes(a + b) == MempoolBytes(a) + MempoolBytes(b)
  {
    if b == [] {
      assert a + b == a;
    } else {
      BytesOfConcat(a, b[..|b| - 1]);
      assert (a + b)[..|a + b| - 1] == a + b[..|b| - 1];
    }
  }

  lemma BytesOfSnoc(s: seq<Transaction>, tx: Transaction)
    ensures MempoolBytes(s + [tx]) == MempoolBytes(s) + tx.size
  {
    assert (s + [tx])[..|s|] == s;
  }

  lemma BytesOfRemoved(s: seq<Transaction>, k: nat)
    requires k < |s|
    ensures MempoolBytes(s) == MempoolBytes(RemoveAt(s, k)) + s[k].size
  {
    hide MempoolBytes;
    BytesOfConcat(s[..k + 1], s[k + 1..]);
    BytesOfConcat(s[..k], s[k + 1..]);
    assert s[..k + 1] == s[..k] + [s[k]];
    BytesOfSnoc(s[..k], s[k]);
    assert s[..k + 1] + s[k + 1..] == s;
  }

  lemma {:induction false} BytesAtMost(s: seq<Transaction>, each: nat)
    requires forall i :: 0 <= i < |s| ==> s[i].size <= each
    ensures MempoolBytes(s) <= |s| * each
  {
    if s != [] {
      BytesAtMost(s[..|s| - 1], each);
    }
  }

  ghost predicate WithinLimits(limits: Limits, k: nat, p: Pool) {
    && (p.inFlight != [] || p.queue != [] ==> |p.queue| + |p.inFlight| <= limits.maxTxs - 1 + k)
    && (p.inFlight != [] || p.queue != [] ==>
          MempoolBytes(p.queue) + MempoolBytes(p.inFlight) <= limits.maxTotalSize - 1 + k * limits.maxTxSize)
    && (forall i :: 0 <= i < |p.inFlight| ==> p.inFlight[i].size <= limits.maxTxSize)
  }

  lemma StepStaysWithinLimits(self: NodeId, limits: Limits, p: Pool, e: Event, k: nat)
    requires WithinLimits(limits, k, p) && Configured(limits, [e])
    requires |Step(self, p, e).inFlight| <= k
    ensures WithinLimits(limits, k, Step(self, p, e))
  {
    hide MempoolBytes, CheckValidatorToken;
    assert [e][0] == e;
    match e
    case Begin(_, tx, _) =>
      if Admits(self, p.queue, e) {
        BytesAtMost(p.inFlight + [tx], limits.maxTxSize);
        FewerCopies(|p.inFlight + [tx]|, k, limits.maxTxSize);
      }
    case End(_, j) =>
      if j < |p.inFlight| {
        BytesOfRemoved(p.inFlight, j);
        BytesOfSnoc(p.queue, p.inFlight[j]);
      }
    case Propose =>
      NoBytes();
  }

  lemma NoBytes()
    ensures MempoolBytes([]) == 0
  {}

  lemma {:induction false} StaysWithinLimits(self: NodeId, limits: Limits, events: seq<Event>, k: nat)
    requires Configured(limits, events) && AtMostInFlight(self, events, k)
    ensures WithinLimits(limits, k, Run(self, events))
  {
    hide Step, MempoolBytes;
    if events != [] {
      var front, e := events[..|events| - 1], events[|events| - 1];
      assert forall n :: 0 <= n <= |front| ==> front[..n] == events[..n];
      StaysWithinLimits(self, limits, front, k);
      assert events[..|events|] == events;
      StepStaysWithinLimits(self, limits, Run(self, front), e, k);
    }
  }

  /**
   With at most `k` calls suspended at a time the mempool, and so every proposed block, holds at most
   `maxTxs - 1 + k` transactions and `maxTotalSize - 1 + k * maxTxSize` bytes.
   */
  lemma {:induction false} MempoolBound(self: NodeId, limits: Limits, events: seq<Event>, k: nat)
    requires Configured(limits, events) && AtMostInFlight(self, events, k)
    ensures var p := Run(self, events);
            forall txs :: txs in [p.queue] + p.batches && txs != [] ==>
              && |txs| <= limits.maxTxs - 1 + k
              && MempoolBytes(txs) <= limits.maxTotalSize - 1 + k * limits.maxTxSize
  {
    StaysWithinLimits(self, limits, events, k);
    if events != [] {
      var front := events[..|events| - 1];
      assert forall n :: 0 <= n <= |front| ==> front[..n] == events[..n];
      MempoolBound(self, limits, front, k);
    }
  }

  // ---------------------------------------------------------------- the bound is reached

  function Copies(tx: Transaction, n: nat): seq<Transaction> {
    seq(n, i => tx)
  }

  lemma {:induction false} BytesOfCopies(tx: Transaction, n: nat)
    ensures MempoolBytes(Copies(tx, n)) == n * tx.size
  {
    if n > 0 {
      BytesOfCopies(tx, n - 1);
      assert Copies(tx, n)[..n - 1] == Copies(tx, n - 1);
    }
  }

  lemma Extend(self: NodeId, events: seq<Event>, e: Event, k: nat)
    requires AtMostInFlight(self, events, k) && |Step(self, Run(self, events), e).inFlight| <= k
    ensures Run(self, events + [e]) == Step(self, Run(self, events), e)
    ensures AtMostInFlight(self, events + [e], k)
  {
    hide Step;
    var longer := events + [e];
    assert longer[..|events|] == events;
    assert longer[..|longer|] == longer;
    forall n | 0 <= n <= |longer| ensures |Run(self, longer[..n]).inFlight| <= k {
      assert n <= |events| ==> longer[..n] == events[..n];
    }
  }

  /** A transaction that every check lets through. */
  predicate Usable(limits: Limits, env: NodeEnv, tx: Transaction) {
    && Configured(limits, [Begin(env, tx, false)])
    && env.check.checkTx(tx)
    && tx.size <= limits.maxTxSize
  }

  /** A mempool with `n` copies of the transaction lets another call in. */
  predicate RoomForCopies(limits: Limits, tx: Transaction, n: nat) {
    n < limits.maxTxs && n * tx.size < limits.maxTotalSize
  }

  /** The same transaction accepted `n` times and suspended `a` times, with no block proposed yet. */
  predicate HoldsCopies(p: Pool, tx: Transaction, n: nat, a: nat) {
    p.queue == Copies(tx, n) && p.inFlight == Copies(tx, a) && p.batches == []
  }

  lemma FewerCopies(n: nat, m: nat, size: nat)
    requires n <= m
    ensures n * size <= m * size
  {}

  lemma BeginCopy(self: NodeId, limits: Limits, env: NodeEnv, tx: Transaction, p: Pool, n: nat, a: nat)
    requires Usable(limits, env, tx) && HoldsCopies(p, tx, n, a) && RoomForCopies(limits, tx, n)
    ensures HoldsCopies(Step(self, p, Begin(env, tx, false)), tx, n, a + 1)
  {
    hide MempoolBytes, CheckValidatorToken;
    var e := Begin(env, tx, false);
    assert [e][0] == e;
    BytesOfCopies(tx, n);
    assert Copies(tx, a + 1) == Copies(tx, a) + [tx];
  }

  lemma EndCopy(self: NodeId, limits: Limits, env: NodeEnv, tx: Transaction, p: Pool, n: nat, a: nat)
    requires Usable(limits, env, tx) && HoldsCopies(p, tx, n, a + 1)
    ensures HoldsCopies(Step(self, p, End(env, 0)), tx, n + 1, a)
  {}

  /** A run that leads to such a pool, never with more than `k` calls suspended. */
  ghost predicate Reaches(self: NodeId, limits: Limits, events: seq<Event>, k: nat, tx: Transaction, n: nat, a: nat) {
    Configured(limits, events) && AtMostInFlight(self, events, k) && HoldsCopies(Run(self, events), tx, n, a)
  }

  lemma {:induction false} Suspend(self: NodeId, limits: Limits, env: NodeEnv, tx: Transaction, before: seq<Event>,
                                   n: nat, a: nat, k: nat)
    returns (events: seq<Event>)
    requires Usable(limits, env, tx) && a <= k && RoomForCopies(limits, tx, n)
    requires Reaches(self, limits, before, k, tx, n, 0)
    ensures Reaches(self, limits, events, k, tx, n, a)
  {
    hide Step, Run, Usable;
    events := before;
    if a > 0 {
      var front := Suspend(self, limits, env, tx, before, n, a - 1, k);
      BeginCopy(self, limits, env, tx, Run(self, front), n, a - 1);
      ConfiguredSnoc(limits, env, tx, front);
      Extend(self, front, Begin(env, tx, false), k);
      events := front + [Begin(env, tx, false)];
    }
  }

  lemma {:induction false} Resume(self: NodeId, limits: Limits, env: NodeEnv, tx: Transaction, before: seq<Event>,
                                  n: nat, a: nat, k: nat)
    returns (events: seq<Event>)
    requires Usable(limits, env, tx) && a <= k
    requires Reaches(self, limits, before, k, tx, n, a)
    ensures Reaches(self, limits, events, k, tx, n + a, 0)
    decreases a
  {
    hide Step, Run, Usable;
    events := before;
    if a > 0 {
      EndCopy(self, limits, env, tx, Run(self, before), n, a - 1);
      ConfiguredSnoc(limits, env, tx, before);
      Extend(self, before, End(env, 0), k);
      events := Resume(self, limits, env, tx, before + [End(env, 0)], n + 1, a - 1, k);
    }
  }

  lemma ConfiguredSnoc(limits: Limits, env: NodeEnv, tx: Transaction, events: seq<Event>)
    requires Usable(limits, env, tx) && Configured(limits, events)
    ensures Configured(limits, events + [Begin(env, tx, false)]) && Configured(limits, events + [End(env, 0)])
  {
    var e := Begin(env, tx, false);
    assert [e][0] == e;
  }

  /** Calls that come one after the other fill the mempool. */
  lemma {:induction false} Fill(self: NodeId, limits: Limits, env: NodeEnv, tx: Transaction, n: nat, k: nat) returns (events: seq<Event>)
    requires Usable(limits, env, tx) && (n == 0 || RoomForCopies(limits, tx, n - 1)) && k >= 1
    ensures Reaches(self, limits, events, k, tx, n, 0)
  {
    hide Usable;
    events := [];
    if n > 0 {
      if n > 1 {
        FewerCopies(n - 2, n - 1, tx.size);
      }
      var front := Fill(self, limits, env, tx, n - 1, k);
      var middle := Suspend(self, limits, env, tx, front, n - 1, 1, k);
      events := Resume(self, limits, env, tx, middle, n - 1, 1, k);
    }
  }

  /** A run that fills the mempool up to the last free place and then lets `k` calls overlap. */
  lemma Overshoot(self: NodeId, limits: Limits, env: NodeEnv, tx: Transaction, n: nat, k: nat) returns (events: seq<Event>)
    requires Usable(limits, env, tx) && RoomForCopies(limits, tx, n) && k >= 1
    ensures Reaches(self, limits, events, k, tx, n + k, 0)
  {
    if n > 0 {
      FewerCopies(n - 1, n, tx.size);
    }
    var front := Fill(self, limits, env, tx, n, k);
    var middle := Suspend(self, limits, env, tx, front, n, k, k);
    events := Resume(self, limits, env, tx, middle, n, k, k);
  }

  /** The bound on the number of transactions cannot be improved, whatever the number of overlapping calls. */
  lemma BoundIsReached(self: NodeId, limits: Limits, env: NodeEnv, tx: Transaction, k: nat) returns (events: seq<Event>)
    requires Usable(limits, env, tx) && limits.maxTxs >= 1 && RoomForCopies(limits, tx, limits.maxTxs - 1) && k >= 1
    ensures Configured(limits, events) && AtMostInFlight(self, events, k)
    ensures |Run(self, events).queue| == limits.maxTxs - 1 + k
  {
    events := Overshoot(self, limits, env, tx, limits.maxTxs - 1, k);
  }

  /** Nor can the bound on the bytes, when transactions of the maximal size fill the block up to one byte. */
  lemma ByteBoundIsReached(self: NodeId, limits: Limits, env: NodeEnv, tx: Transaction, n: nat, k: nat) returns (events: seq<Event>)
    requires Usable(limits, env, tx) && tx.size == limits.maxTxSize && k >= 1
    requires n < limits.maxTxs && n * tx.size == limits.maxTotalSize - 1
    ensures Configured(limits, events) && AtMostInFlight(self, events, k)
    ensures MempoolBytes(Run(self, events).queue) == limits.maxTotalSize - 1 + k * limits.maxTxSize
  {
    events := Overshoot(self, limits, env, tx, n, k);
    BytesOfCopies(tx, n + k);
    assert (n + k) * tx.size == n * tx.size + k * tx.size;
  }

  /** The final checks use the same limits. */
  predicate LimitsOf(limits: Limits, last: LastView) {
    last.check.maxTxs == limits.maxTxs && last.check.maxTotalSize == limits.maxTotalSize
  }

  /**
   Even calls that never overlap can be accepted and then lost: the last of them makes the batch too large
   by count or by bytes, and the block that takes them out of the mempool is never finalized, whatever the
   network, the committee and the contract do.
   */
  lemma AcceptedYetNeverFinalized(self: NodeId, limits: Limits, env: NodeEnv, tx: Transaction, n: nat) returns (events: seq<Event>)
    requires Usable(limits, env, tx) && RoomForCopies(limits, tx, n)
    requires n + 1 == limits.maxTxs || (n + 1) * tx.size > limits.maxTotalSize
    ensures Configured(limits, events) && AtMostInFlight(self, events, 1)
    ensures var p := Run(self, events);
            && p.accepted == p.queue && |p.queue| == n + 1
            && forall randomMap, net, last :: LimitsOf(limits, last) ==>
                 ProposalOutcome(env, self, p.queue, randomMap, net, last).Thrown?
  {
    events := Overshoot(self, limits, env, tx, n, 1);
    NothingLostOrDuplicated(self, events);
    BytesOfCopies(tx, n + 1);
    forall randomMap, net, last | LimitsOf(limits, last)
      ensures ProposalOutcome(env, self, Run(self, events).queue, randomMap, net, last).Thrown?
    {
      UnfitNeverFinalized(env, self, Run(self, events).queue, randomMap, net, last);
    }
  }
}
