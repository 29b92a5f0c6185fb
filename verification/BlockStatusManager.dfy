/** Counts the archival nodes that confirm a block and tells the clients once there are enough of them. */
module BlockStatusManager {
  import opened Prelude

  const CONFIRMATION_EXPIRY_TIME := 30 * 60 * 1000

  datatype Confirmation = Confirmation(timestamp: int, nodes: set<NodeId>)

  datatype Update = Update(blockHash: string, blockData: string)

  /** The tracked blocks and everything broadcast so far. */
  datatype State = State(tracked: map<string, Confirmation>, broadcasts: seq<Update>)

  datatype Event =
    | Confirm(blockHash: string, nodeId: NodeId, blockData: string, now: int)
    | Cleanup(now: int)

  function Nodes(s: State, h: string): set<NodeId> {
    if h in s.tracked then s.tracked[h].nodes else {}
  }

  predicate Expires(s: State, e: Event, h: string) {
    e.Cleanup? && h in s.tracked && e.now - s.tracked[h].timestamp > CONFIRMATION_EXPIRY_TIME
  }

  predicate Fires(min: int, s: State, e: Event, h: string) {
    e.Confirm? && e.blockHash == h && |Nodes(s, h) + {e.nodeId}| >= min
  }

  function Step(min: int, s: State, e: Event): State {
    match e
    case Confirm(h, n, data, now) =>
      if Fires(min, s, e, h) then State(s.tracked - {h}, s.broadcasts + [Update(h, data)])
      else s.(tracked := s.tracked[h := Confirmation(if h in s.tracked then s.tracked[h].timestamp else now, Nodes(s, h) + {n})])
    case Cleanup(_) =>
      s.(tracked := map h | h in s.tracked && !Expires(s, e, h) :: s.tracked[h])
  }

  function Run(min: int, events: seq<Event>): State {
    if events == [] then State(map[], []) else Step(min, Run(min, events[..|events| - 1]), events[|events| - 1])
  }

  class Manager {
    const minArchiveNodes: int
    var confirmations: map<string, Confirmation>
    /** What the WebSocket server has been given to send. */
    var broadcasts: seq<Update>

    function Current(): State
      reads this
    {
      State(confirmations, broadcasts)
    }

    constructor (minArchiveNodes: int)
      ensures Current() == Run(minArchiveNodes, []) && this.minArchiveNodes == minArchiveNodes
    {
      this.minArchiveNodes := minArchiveNodes;
      confirmations, broadcasts := map[], [];
    }

    method HandleBlockConfirmation(blockHash: string, nodeId: NodeId, blockData: string, now: int)
      modifies this
      ensures Current() == Step(minArchiveNodes, old(Current()), Confirm(blockHash, nodeId, blockData, now))
      ensures var before := old(confirmations);
              var known := blockHash in before;
              var nodes := (if known then before[blockHash].nodes else {}) + {nodeId};
              if |nodes| >= minArchiveNodes
              then confirmations == before - {blockHash} && broadcasts == old(broadcasts) + [Update(blockHash, blockData)]
              else && confirmations == before[blockHash := Confirmation(if known then before[blockHash].timestamp else now, nodes)]
                   && broadcasts == old(broadcasts)
    {
      if blockHash !in confirmations {
        confirmations := confirmations[blockHash := Confirmation(now, {})];
      }
      var confirmation := confirmations[blockHash];
      confirmation := confirmation.(nodes := confirmation.nodes + {nodeId});
      confirmations := confirmations[blockHash := confirmation];
      if |confirmation.nodes| >= minArchiveNodes {
        HandleBlockConfirmed(blockHash, blockData);
      }
    }

    method HandleBlockConfirmed(blockHash: string, blockData: string)
      modifies this
      ensures confirmations == old(confirmations) - {blockHash}
      ensures broadcasts == old(broadcasts) + [Update(blockHash, blockData)]
    {
      broadcasts := broadcasts + [Update(blockHash, blockData)];
      confirmations := confirmations - {blockHash};
    }

    method CleanupOldConfirmations(now: int)
      modifies this`confirmations
      ensures Current() == Step(minArchiveNodes, old(Current()), Cleanup(now))
      ensures forall h :: h in confirmations <==> h in old(confirmations) && now - old(confirmations)[h].timestamp <= 1800000
      ensures forall h :: h in confirmations ==> confirmations[h] == old(confirmations)[h]
      ensures broadcasts == old(broadcasts)
    {
      ghost var before := Current();
      var left := confirmations.Keys;
      while left != {}
        invariant left <= before.tracked.Keys
        invariant forall h :: h in confirmations <==> h in before.tracked && (h in left || !Expires(before, Cleanup(now), h))
        invariant forall h :: h in confirmations ==> confirmations[h] == before.tracked[h]
        decreases |left|
      {
        var blockHash :| blockHash in left;
        if now - confirmations[blockHash].timestamp > CONFIRMATION_EXPIRY_TIME {
          confirmations := confirmations - {blockHash};
        }
        left := left - {blockHash};
      }
    }
  }

  /** Drives a manager through any sequence of calls. */
  method Drive(manager: Manager, events: seq<Event>)
    requires manager.Current() == Run(manager.minArchiveNodes, [])
    modifies manager
    ensures manager.Current() == Run(manager.minArchiveNodes, events)
  {
    for i := 0 to |events|
      invariant manager.Current() == Run(manager.minArchiveNodes, events[..i])
    {
      assert events[..i + 1][..i] == events[..i];
      match events[i] {
        case Confirm(h, n, data, now) => manager.HandleBlockConfirmation(h, n, data, now);
        case Cleanup(now) => manager.CleanupOldConfirmations(now);
      }
    }
    assert events[..|events|] == events;
  }

  // ---------------------------------------------------------------- what every run keeps

  ghost predicate BelowMin(min: int, s: State) {
    forall h :: h in s.tracked ==> 1 <= |Nodes(s, h)| < min
  }

  /** Nothing stays tracked once it has enough confirmers. */
  lemma {:induction false} TrackedBelowMin(min: int, events: seq<Event>)
    ensures BelowMin(min, Run(min, events))
  {
    if events != [] {
      var s, e := Run(min, events[..|events| - 1]), events[|events| - 1];
      TrackedBelowMin(min, events[..|events| - 1]);
      if e.Confirm? && !Fires(min, s, e, e.blockHash) {
        assert e.nodeId in Nodes(Run(min, events), e.blockHash);
      }
    }
  }

  /** After a cleanup nothing is tracked that was first confirmed more than half an hour before; younger blocks still are. */
  lemma CleanupForgets(min: int, events: seq<Event>, now: int, h: string)
    ensures var s, t := Run(min, events), Run(min, events + [Cleanup(now)]);
            && t.broadcasts == s.broadcasts
            && (h in t.tracked <==> h in s.tracked && s.tracked[h].timestamp >= now - 30 * 60 * 1000)
            && (h in t.tracked ==> t.tracked[h] == s.tracked[h])
  {
    assert (events + [Cleanup(now)])[..|events|] == events;
  }

  /** What is broadcast is the data that came with the confirmation that was missing. */
  lemma BroadcastCarriesItsData(min: int, events: seq<Event>, e: Event)
    requires e.Confirm?
    ensures var s, t := Run(min, events), Run(min, events + [e]);
            if Fires(min, s, e, e.blockHash) then t.broadcasts == s.broadcasts + [Update(e.blockHash, e.blockData)] && e.blockHash !in t.tracked
            else t.broadcasts == s.broadcasts && e.blockHash in t.tracked && t.tracked[e.blockHash].nodes == Nodes(s, e.blockHash) + {e.nodeId}
  {
    assert (events + [e])[..|events|] == events;
  }

  /** A confirmation leads to a broadcast exactly when it is the missing one. */
  lemma FiresExactlyAtMin(min: int, s: State, e: Event)
    requires min >= 1 && BelowMin(min, s) && e.Confirm?
    ensures Fires(min, s, e, e.blockHash) <==> e.nodeId !in Nodes(s, e.blockHash) && |Nodes(s, e.blockHash)| == min - 1
  {}

  function Confirmations(events: seq<Event>, h: string): nat {
    if events == [] then 0
    else
      var e := events[|events| - 1];
      Confirmations(events[..|events| - 1], h) + if e.Confirm? && e.blockHash == h then 1 else 0
  }

  function BroadcastsOf(broadcasts: seq<Update>, h: string): nat {
    if broadcasts == [] then 0
    else
      var last := broadcasts[|broadcasts| - 1];
      BroadcastsOf(broadcasts[..|broadcasts| - 1], h) + if last.blockHash == h then 1 else 0
  }

  /** Confirmations of `h` that an event makes useless: repeated by the same node, or forgotten by a cleanup. */
  function WastedBy(s: State, e: Event, h: string): nat {
    if e.Confirm? && e.blockHash == h && e.nodeId in Nodes(s, h) then 1
    else if Expires(s, e, h) then |Nodes(s, h)|
    else 0
  }

  function Wasted(min: int, events: seq<Event>, h: string): nat {
    if events == [] then 0
    else
      var front := events[..|events| - 1];
      Wasted(min, front, h) + WastedBy(Run(min, front), events[|events| - 1], h)
  }

  lemma BroadcastsOfSnoc(broadcasts: seq<Update>, u: Update, h: string)
    ensures BroadcastsOf(broadcasts + [u], h) == BroadcastsOf(broadcasts, h) + if u.blockHash == h then 1 else 0
  {}

  lemma StepAccountedFor(min: int, s: State, e: Event, h: string)
    requires min >= 1 && BelowMin(min, s)
    ensures var t := Step(min, s, e);
            min * BroadcastsOf(t.broadcasts, h) + |Nodes(t, h)| + WastedBy(s, e, h)
            == min * BroadcastsOf(s.broadcasts, h) + |Nodes(s, h)| + if e.Confirm? && e.blockHash == h then 1 else 0
  {
    hide BroadcastsOf, BelowMin;
    var t := Step(min, s, e);
    if e.Confirm? && e.blockHash == h {
      FiresExactlyAtMin(min, s, e);
      if Fires(min, s, e, h) {
        BroadcastsOfSnoc(s.broadcasts, Update(h, e.blockData), h);
        assert min * (BroadcastsOf(s.broadcasts, h) + 1) == min * BroadcastsOf(s.broadcasts, h) + min;
      } else if e.nodeId in Nodes(s, h) {
        assert Nodes(t, h) == Nodes(s, h);
      } else {
        assert |Nodes(t, h)| == |Nodes(s, h)| + 1;
      }
    } else if e.Confirm? {
      BroadcastsOfSnoc(s.broadcasts, Update(e.blockHash, e.blockData), h);
      assert Nodes(t, h) == Nodes(s, h);
    }
  }

  /**
   Where all confirmations of a block went: each broadcast used up exactly `min` of them, by distinct nodes;
   the rest are still tracked, or were repeated or forgotten. So `min * broadcasts <= confirmations`.
   */
  lemma {:induction false} EveryConfirmationAccountedFor(min: int, events: seq<Event>, h: string)
    requires min >= 1
    ensures var s := Run(min, events);
            Confirmations(events, h) == min * BroadcastsOf(s.broadcasts, h) + |Nodes(s, h)| + Wasted(min, events, h)
  {
    hide Step, WastedBy, BelowMin;
    if events == [] {
      NoBroadcasts(h);
    } else {
      hide BroadcastsOf;
      var front := events[..|events| - 1];
      EveryConfirmationAccountedFor(min, front, h);
      TrackedBelowMin(min, front);
      StepAccountedFor(min, Run(min, front), events[|events| - 1], h);
    }
  }

  lemma NoBroadcasts(h: string)
    ensures BroadcastsOf([], h) == 0
  {}

  // ---------------------------------------------------------------- who is behind a broadcast

  /** The nodes that confirm a block in a stretch of events. */
  function Confirmers(events: seq<Event>, h: string): set<NodeId> {
    set e | e in events && e.Confirm? && e.blockHash == h :: e.nodeId
  }

  /** The event neither broadcasts nor expires the block. */
  predicate Quiet(min: int, s: State, e: Event, h: string) {
    !Fires(min, s, e, h) && !Expires(s, e, h)
  }

  predicate QuietStep(min: int, events: seq<Event>, i: nat, h: string)
    requires i < |events|
  {
    Quiet(min, Run(min, events[..i]), events[i], h)
  }

  lemma QuietStepCollects(min: int, s: State, e: Event, h: string)
    requires Quiet(min, s, e, h)
    ensures Nodes(Step(min, s, e), h) == Nodes(s, h) + if e.Confirm? && e.blockHash == h then {e.nodeId} else {}
    ensures h in s.tracked ==> h in Step(min, s, e).tracked && Step(min, s, e).tracked[h].timestamp == s.tracked[h].timestamp
  {}

  lemma ConfirmersSnoc(events: seq<Event>, e: Event, h: string)
    ensures Confirmers(events + [e], h) ==
              Confirmers(events, h) + if e.Confirm? && e.blockHash == h then {e.nodeId} else {}
  {}

  /** Without a broadcast or an expiry in between, the tracked nodes are the earlier ones and all new confirmers. */
  lemma {:induction false} NodesCollect(min: int, events: seq<Event>, a: nat, b: nat, h: string)
    requires a <= b <= |events|
    requires forall i :: a <= i < b ==> QuietStep(min, events, i, h)
    ensures Nodes(Run(min, events[..b]), h) == Nodes(Run(min, events[..a]), h) + Confirmers(events[a..b], h)
    ensures h in Run(min, events[..a]).tracked ==>
              h in Run(min, events[..b]).tracked && Run(min, events[..b]).tracked[h].timestamp == Run(min, events[..a]).tracked[h].timestamp
    decreases b
  {
    hide Step, Confirmers, Quiet, Nodes;
    if a == b {
      assert events[a..b] == [];
      NoConfirmers(h);
    } else {
      NodesCollect(min, events, a, b - 1, h);
      assert QuietStep(min, events, b - 1, h);
      assert events[..b][..b - 1] == events[..b - 1];
      assert events[a..b] == events[a..b - 1] + [events[b - 1]];
      ConfirmersSnoc(events[a..b - 1], events[b - 1], h);
      QuietStepCollects(min, Run(min, events[..b - 1]), events[b - 1], h);
    }
  }

  lemma NoConfirmers(h: string)
    ensures Confirmers([], h) == {}
  {}

  lemma StillTracked(min: int, s: State, e: Event, h: string)
    requires h in s.tracked && h in Step(min, s, e).tracked
    ensures Quiet(min, s, e, h)
  {}

  lemma NewlyTracked(min: int, s: State, e: Event, h: string)
    requires h !in s.tracked && h in Step(min, s, e).tracked
    ensures Quiet(min, s, e, h) && Nodes(s, h) == {}
    ensures e.Confirm? && e.blockHash == h && Step(min, s, e).tracked[h].timestamp == e.now
  {}

  /**
   The tracked nodes of a block are exactly those that confirmed it from some event `a` on, when it was not
   tracked yet; its timestamp is that of event `a`, and nothing reset the count since.
   */
  lemma {:induction false} TrackedSince(min: int, events: seq<Event>, h: string) returns (a: nat)
    requires h in Run(min, events).tracked
    ensures a < |events| && events[a].Confirm? && events[a].blockHash == h
    ensures h !in Run(min, events[..a]).tracked
    ensures Run(min, events).tracked[h].timestamp == events[a].now
    ensures forall i :: a <= i < |events| ==> QuietStep(min, events, i, h)
    ensures Nodes(Run(min, events), h) == Confirmers(events[a..], h)
  {
    hide Step, Confirmers, Quiet, Nodes;
    var n := |events| - 1;
    var front := events[..n];
    assert events[..|events|] == events;
    if h in Run(min, front).tracked {
      a := TrackedSince(min, front, h);
      StillTracked(min, Run(min, front), events[n], h);
      forall i | a <= i < |events| ensures QuietStep(min, events, i, h) {
        if i < n {
          assert QuietStep(min, front, i, h);
          assert front[..i] == events[..i];
        }
      }
      assert front[..a] == events[..a];
    } else {
      a := n;
      assert front[a..] == [];
      NewlyTracked(min, Run(min, front), events[n], h);
    }
    QuietStepCollects(min, Run(min, front), events[n], h);
    NoConfirmers(h);
    assert events[a..] == front[a..] + [events[n]];
    ConfirmersSnoc(front[a..], events[n], h);
  }

  /**
   Behind every broadcast are exactly `min` distinct nodes that confirmed the block since event `a`, in a
   stretch without another broadcast or expiry of it, at whose start it was not tracked.
   */
  lemma BroadcastHasMinConfirmers(min: int, events: seq<Event>, e: Event) returns (a: nat)
    requires min >= 1 && e.Confirm? && Fires(min, Run(min, events), e, e.blockHash)
    ensures a <= |events| && e.blockHash !in Run(min, events[..a]).tracked
    ensures forall i :: a <= i < |events| ==> QuietStep(min, events, i, e.blockHash)
    ensures |Confirmers(events[a..] + [e], e.blockHash)| == min
  {
    var h := e.blockHash;
    TrackedBelowMin(min, events);
    FiresExactlyAtMin(min, Run(min, events), e);
    if h in Run(min, events).tracked {
      a := TrackedSince(min, events, h);
    } else {
      a := |events|;
      assert events[..a] == events;
      assert Confirmers([], h) == {};
    }
    ConfirmersSnoc(events[a..], e, h);
    assert |Nodes(Run(min, events), h) + {e.nodeId}| == min;
  }

  /** Enough distinct confirmers and no expiry of the block in between: it is broadcast. */
  lemma MinConfirmersForceBroadcast(min: int, events: seq<Event>, a: nat, b: nat, h: string)
    requires min >= 1 && a <= b <= |events|
    requires |Confirmers(events[a..b], h)| >= min
    requires forall i :: a <= i < b ==> !Expires(Run(min, events[..i]), events[i], h)
    ensures exists i :: a <= i < b && Fires(min, Run(min, events[..i]), events[i], h)
  {
    if forall i :: a <= i < b ==> !Fires(min, Run(min, events[..i]), events[i], h) {
      NodesCollect(min, events, a, b, h);
      TrackedBelowMin(min, events[..b]);
      SubsetSize(Confirmers(events[a..b], h), Nodes(Run(min, events[..b]), h));
      assert false;
    }
  }

  /** Times do not go back. */
  predicate Chronological(events: seq<Event>) {
    forall i, j :: 0 <= i <= j < |events| ==> events[i].now <= events[j].now
  }

  /**
   When a block is confirmed by enough nodes within the expiry time, starting from not being tracked, then it
   is broadcast, whatever happens in between.
   */
  lemma TimelyConfirmersForceBroadcast(min: int, events: seq<Event>, a: nat, b: nat, h: string)
    requires min >= 1 && a <= b <= |events| && Chronological(events)
    requires h !in Run(min, events[..a]).tracked
    requires |Confirmers(events[a..b], h)| >= min
    requires forall i :: a <= i < b ==> events[i].now - events[a].now <= CONFIRMATION_EXPIRY_TIME
    ensures exists i :: a <= i < b && Fires(min, Run(min, events[..i]), events[i], h)
  {
    forall i | a <= i < b ensures !Expires(Run(min, events[..i]), events[i], h) {
      if h in Run(min, events[..i]).tracked {
        TimestampFrom(min, events, a, i, h);
      }
    }
    MinConfirmersForceBroadcast(min, events, a, b, h);
  }

  lemma StaysTracked(min: int, events: seq<Event>, c: nat, a: nat, h: string)
    requires c < a <= |events| && events[c].Confirm? && events[c].blockHash == h
    requires forall i :: c <= i < a ==> QuietStep(min, events, i, h)
    ensures h in Run(min, events[..a]).tracked
  {
    assert events[..c + 1][..c] == events[..c];
    assert QuietStep(min, events, c, h);
    assert h in Run(min, events[..c + 1]).tracked;
    hide Step, Confirmers, Quiet, Nodes;
    NodesCollect(min, events, c + 1, a, h);
  }

  lemma TimestampFrom(min: int, events: seq<Event>, a: nat, b: nat, h: string)
    requires a <= b < |events| && Chronological(events)
    requires h !in Run(min, events[..a]).tracked && h in Run(min, events[..b]).tracked
    ensures Run(min, events[..b]).tracked[h].timestamp >= events[a].now
  {
    hide Run, Quiet, Confirmers;
    var front := events[..b];
    var c := TrackedSince(min, front, h);
    assert front[..a] == events[..a];
    assert c >= a by {
      if c < a {
        StaysTracked(min, front, c, a, h);
      }
    }
    assert front[c] == events[c];
  }
}
