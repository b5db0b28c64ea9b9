/**
 Polling discovery (src/discovery/kubernetes.rs): each poll lists the peers,
 sends the difference to the last list as events, and remembers the new list.
 */
module Discovery {
  import opened Bytes
  import opened Wrappers

  type NodeId = Text

  type Address = string

  datatype PeerInfo = PeerInfo(
    nodeId: NodeId, addresses: seq<Address>, relayUrl: Option<string>, lastSeen: nat, metadata: map<string, string>)

  datatype DiscoveryEvent =
    | PeerFound(info: PeerInfo)
    | PeerLost(lostId: NodeId)
    | PeerUpdated(info: PeerInfo)
  {
    function Subject(): NodeId {
      if PeerLost? then lostId else info.nodeId
    }
  }

  type Peers = map<NodeId, PeerInfo>

  predicate Keyed(peers: Peers) {
    forall id :: id in peers ==> peers[id].nodeId == id
  }

  /** What makes a poll report a known peer again: not its relay, nor when it was seen. */
  predicate Changed(p: PeerInfo, q: PeerInfo) {
    p.addresses != q.addresses || p.metadata != q.metadata
  }

  /** Later listings of a node replace earlier ones. */
  function Collect(listed: seq<PeerInfo>): (peers: Peers)
    ensures Keyed(peers)
  {
    if listed == [] then map[] else
      var p := listed[|listed| - 1];
      Collect(listed[..|listed| - 1])[p.nodeId := p]
  }

  // --- The difference of two lists ---

  predicate NeedsEvent(was: Peers, now: Peers, id: NodeId) {
    if id in was && id in now then Changed(was[id], now[id]) else id in was || id in now
  }

  /** The event a poll owes for a node. */
  function EventFor(was: Peers, now: Peers, id: NodeId): DiscoveryEvent
    requires NeedsEvent(was, now, id)
  {
    if id !in now then PeerLost(id)
    else if id in was then PeerUpdated(now[id])
    else PeerFound(now[id])
  }

  predicate DistinctSubjects(es: seq<DiscoveryEvent>) {
    forall i, j :: 0 <= i < j < |es| ==> es[i].Subject() != es[j].Subject()
  }

  ghost predicate Mentions(es: seq<DiscoveryEvent>, id: NodeId) {
    exists i :: 0 <= i < |es| && es[i].Subject() == id
  }

  /** Exactly the events owed, each once, in any order. */
  ghost predicate Diff(was: Peers, now: Peers, es: seq<DiscoveryEvent>) {
    && DistinctSubjects(es)
    && (forall i :: 0 <= i < |es| ==>
          NeedsEvent(was, now, es[i].Subject()) && es[i] == EventFor(was, now, es[i].Subject()))
    && (forall id :: NeedsEvent(was, now, id) ==> Mentions(es, id))
  }

  /** A partial difference: the events owed for the nodes outside `pending`. */
  ghost predicate DiffExcept(was: Peers, now: Peers, es: seq<DiscoveryEvent>, pending: set<NodeId>) {
    && DistinctSubjects(es)
    && (forall i :: 0 <= i < |es| ==>
          && es[i].Subject() !in pending
          && NeedsEvent(was, now, es[i].Subject()) && es[i] == EventFor(was, now, es[i].Subject()))
    && (forall id :: NeedsEvent(was, now, id) && id !in pending ==> Mentions(es, id))
  }

  lemma EventForSubject(was: Peers, now: Peers, id: NodeId)
    requires Keyed(now) && NeedsEvent(was, now, id)
    ensures EventFor(was, now, id).Subject() == id
  {
  }

  lemma DiffStep(was: Peers, now: Peers, es: seq<DiscoveryEvent>, pending: set<NodeId>, id: NodeId)
    requires Keyed(now) && DiffExcept(was, now, es, pending) && id in pending
    ensures DiffExcept(was, now,
                       if NeedsEvent(was, now, id) then es + [EventFor(was, now, id)] else es,
                       pending - {id})
  {
    hide NeedsEvent, EventFor, DiscoveryEvent.Subject;
    if NeedsEvent(was, now, id) {
      EventForSubject(was, now, id);
      var es' := es + [EventFor(was, now, id)];
      forall other | NeedsEvent(was, now, other) && other !in pending - {id} ensures Mentions(es', other) {
        if other == id {
          assert es'[|es|].Subject() == id;
        } else {
          var i :| 0 <= i < |es| && es[i].Subject() == other;
          assert es'[i].Subject() == other;
        }
      }
    }
  }

  lemma DiffStart(was: Peers, now: Peers)
    ensures DiffExcept(was, now, [], was.Keys + now.Keys)
  {
  }

  lemma DiffDone(was: Peers, now: Peers, es: seq<DiscoveryEvent>)
    requires DiffExcept(was, now, es, {})
    ensures Diff(was, now, es)
  {
  }

  class KubernetesDiscovery {
    var discovered: Peers
    /** The events sent so far. */
    var events: seq<DiscoveryEvent>

    ghost predicate Valid()
      reads this
    {
      Keyed(discovered)
    }

    constructor ()
      ensures Valid() && discovered == map[] && events == []
    {
      discovered, events := map[], [];
    }

    /** The events owed for the peers listed now, visited in no particular order. */
    method ReportPresent(current: Peers) returns (ghost sent: seq<DiscoveryEvent>)
      requires Keyed(current)
      modifies this`events
      ensures events == old(events) + sent
      ensures DiffExcept(discovered, current, sent, discovered.Keys - current.Keys)
    {
      hide DiffExcept, Keyed;
      sent := [];
      ghost var pending := discovered.Keys + current.Keys;
      DiffStart(discovered, current);
      var todo := current.Keys;
      while todo != {}
        invariant events == old(events) + sent
        invariant todo <= current.Keys && pending == todo + (discovered.Keys - current.Keys)
        invariant DiffExcept(discovered, current, sent, pending)
      {
        var id :| id in todo;
        DiffStep(discovered, current, sent, pending, id);
        if id in discovered {
          if Changed(discovered[id], current[id]) {
            events := events + [PeerUpdated(current[id])];
            sent := sent + [PeerUpdated(current[id])];
          }
        } else {
          events := events + [PeerFound(current[id])];
          sent := sent + [PeerFound(current[id])];
        }
        todo := todo - {id};
        pending := pending - {id};
      }
      assert pending == discovered.Keys - current.Keys;
    }

    /** The events owed for the peers no longer listed. */
    method ReportLost(current: Peers, ghost before: seq<DiscoveryEvent>) returns (ghost sent: seq<DiscoveryEvent>)
      requires Keyed(current) && DiffExcept(discovered, current, before, discovered.Keys - current.Keys)
      modifies this`events
      ensures events == old(events) + sent && DiffExcept(discovered, current, before + sent, {})
    {
      hide DiffExcept, Keyed;
      sent := [];
      assert before + sent == before;
      var lost := discovered.Keys - current.Keys;
      while lost != {}
        invariant events == old(events) + sent
        invariant lost <= discovered.Keys - current.Keys
        invariant DiffExcept(discovered, current, before + sent, lost)
      {
        var id :| id in lost;
        DiffStep(discovered, current, before + sent, lost, id);
        events := events + [PeerLost(id)];
        assert before + sent + [PeerLost(id)] == before + (sent + [PeerLost(id)]);
        sent := sent + [PeerLost(id)];
        lost := lost - {id};
      }
    }

    /** One successful listing. */
    method Poll(listed: seq<PeerInfo>) returns (ghost sent: seq<DiscoveryEvent>)
      requires Valid()
      modifies this
      ensures Valid() && discovered == Collect(listed)
      ensures events == old(events) + sent && Diff(old(discovered), discovered, sent)
    {
      var current: Peers := map[];
      for i := 0 to |listed|
        invariant current == Collect(listed[..i])
      {
        assert listed[..i + 1][..i] == listed[..i];
        current := current[listed[i].nodeId := listed[i]];
      }
      assert listed[..|listed|] == listed;
      ghost var before := ReportPresent(current);
      ghost var after := ReportLost(current, before);
      sent := before + after;
      DiffDone(discovered, current, sent);
      discovered := current;
    }
  }

  // --- Replaying the events ---

  function ApplyEvent(view: Peers, e: DiscoveryEvent): Peers {
    if e.PeerLost? then view - {e.lostId} else view[e.info.nodeId := e.info]
  }

  function Replay(view: Peers, es: seq<DiscoveryEvent>): Peers {
    if es == [] then view else ApplyEvent(Replay(view, es[..|es| - 1]), es[|es| - 1])
  }

  function Lookup(view: Peers, id: NodeId): Option<PeerInfo> {
    if id in view then Some(view[id]) else None
  }

  function EffectOf(e: DiscoveryEvent): Option<PeerInfo> {
    if e.PeerLost? then None else Some(e.info)
  }

  lemma {:induction false} ReplayUntouched(view: Peers, es: seq<DiscoveryEvent>, id: NodeId)
    requires !Mentions(es, id)
    ensures Lookup(Replay(view, es), id) == Lookup(view, id)
  {
    if es != [] {
      var n := |es| - 1;
      assert !Mentions(es[..n], id) by {
        assert forall i :: 0 <= i < n ==> es[..n][i] == es[i];
      }
      ReplayUntouched(view, es[..n], id);
      assert es[n].Subject() != id;
    }
  }

  lemma {:induction false} ReplayTouched(view: Peers, es: seq<DiscoveryEvent>, i: nat)
    requires DistinctSubjects(es) && i < |es|
    ensures Lookup(Replay(view, es), es[i].Subject()) == EffectOf(es[i])
  {
    var n := |es| - 1;
    if i < n {
      ReplayTouched(view, es[..n], i);
      assert es[n].Subject() != es[i].Subject();
    }
  }

  /** Replaying a difference gives each node its new entry where an event was owed, and its old one elsewhere. */
  lemma ReplayDiff(view: Peers, was: Peers, now: Peers, es: seq<DiscoveryEvent>, id: NodeId)
    requires Diff(was, now, es)
    ensures Lookup(Replay(view, es), id) == if NeedsEvent(was, now, id) then Lookup(now, id) else Lookup(view, id)
  {
    if NeedsEvent(was, now, id) {
      var i :| 0 <= i < |es| && es[i].Subject() == id;
      ReplayTouched(view, es, i);
    } else {
      ReplayUntouched(view, es, id);
    }
  }

  predicate SameContact(p: Option<PeerInfo>, q: Option<PeerInfo>) {
    (p.None? && q.None?)
    || (&& p.Some? && q.Some? && p.value.nodeId == q.value.nodeId
        && p.value.addresses == q.value.addresses && p.value.metadata == q.value.metadata)
  }

  /** Two views know the same nodes, at the same addresses, with the same metadata. */
  ghost predicate Matches(view: Peers, peers: Peers) {
    forall id :: SameContact(Lookup(view, id), Lookup(peers, id))
  }

  /** The lists of a run of polls, starting from none, and the events each poll sent. */
  ghost predicate IsStream(lists: seq<Peers>, chunks: seq<seq<DiscoveryEvent>>) {
    && |lists| == |chunks| + 1
    && lists[0] == map[]
    && (forall k :: 0 <= k < |lists| ==> Keyed(lists[k]))
    && (forall k :: 0 <= k < |chunks| ==> Diff(lists[k], lists[k + 1], chunks[k]))
  }

  function ReplayAll(chunks: seq<seq<DiscoveryEvent>>): Peers {
    if chunks == [] then map[] else Replay(ReplayAll(chunks[..|chunks| - 1]), chunks[|chunks| - 1])
  }

  lemma ReplayKeepsAgreement(view: Peers, was: Peers, now: Peers, es: seq<DiscoveryEvent>)
    requires Matches(view, was) && Keyed(was) && Keyed(now) && Diff(was, now, es)
    ensures Matches(Replay(view, es), now)
  {
    hide Replay, Diff;
    forall id ensures SameContact(Lookup(Replay(view, es), id), Lookup(now, id)) {
      ReplayDiff(view, was, now, es, id);
      assert SameContact(Lookup(view, id), Lookup(was, id));
    }
  }

  /** After any number of polls, replaying their events rebuilds the discovered peers, up to relay and time. */
  lemma {:induction false} StreamRebuildsPeers(lists: seq<Peers>, chunks: seq<seq<DiscoveryEvent>>)
    requires IsStream(lists, chunks)
    ensures Matches(ReplayAll(chunks), lists[|chunks|])
  {
    hide Diff, Replay;
    if chunks != [] {
      var n := |chunks| - 1;
      StreamRebuildsPeers(lists[..n + 1], chunks[..n]);
      ReplayKeepsAgreement(ReplayAll(chunks[..n]), lists[n], lists[n + 1], chunks[n]);
    }
  }

  /** A poll carries over a whole entry exactly when no known peer changed only its relay or time. */
  lemma ReplayIsExactIff(was: Peers, now: Peers, es: seq<DiscoveryEvent>)
    requires Diff(was, now, es)
    ensures Replay(was, es) == now <==>
              forall id :: id in was && id in now
                           && was[id].addresses == now[id].addresses && was[id].metadata == now[id].metadata ==>
                             was[id] == now[id]
  {
    hide Replay, Diff;
    var view := Replay(was, es);
    forall id ensures Lookup(view, id) == Lookup(now, id) <==>
                        (&& id in was && id in now
                         && was[id].addresses == now[id].addresses && was[id].metadata == now[id].metadata ==>
                           was[id] == now[id])
    {
      ReplayDiff(was, was, now, es, id);
    }
    LookupExtensional(view, now);
  }

  /** A peer that only gets a relay is not reported again, so a replay keeps it without one. */
  lemma RelayChangeIsSilent(id: NodeId)
    ensures var was := map[id := PeerInfo(id, [], None, 0, map[])];
            var now := map[id := PeerInfo(id, [], Some("relay"), 0, map[])];
            Diff(was, now, []) && Replay(was, []) != now
  {
    var was := map[id := PeerInfo(id, [], None, 0, map[])];
    var now := map[id := PeerInfo(id, [], Some("relay"), 0, map[])];
    assert forall other :: !NeedsEvent(was, now, other);
    assert was[id] != now[id];
  }

  lemma LookupExtensional(a: Peers, b: Peers)
    ensures a == b <==> forall id :: Lookup(a, id) == Lookup(b, id)
  {
    if forall id :: Lookup(a, id) == Lookup(b, id) {
      forall id ensures (id in a <==> id in b) && (id in a ==> a[id] == b[id]) {
        assert Lookup(a, id) == Lookup(b, id);
      }
    }
  }
}
