/**
 The peer connector (src/peer_connector.rs): discovery events drive the address
 lookup, the list of blob peers and the set of formation members.
 */
module Connector {
  import opened BlobPeerIndexes
  import opened Bytes
  import opened CertificateBundles
  import opened CertificateCodec
  import opened Collections
  import opened Discovery
  import opened Wrappers

  /** What the connector maintains. */
  datatype Links = Links(lookup: map<EndpointId, set<Address>>, peers: seq<EndpointId>, formation: set<EndpointId>)

  const NO_LINKS := Links(map[], [], {})

  function Without(peers: seq<EndpointId>, gone: EndpointId): seq<EndpointId> {
    if peers == [] then [] else
      var last := peers[|peers| - 1];
      var front := Without(peers[..|peers| - 1], gone);
      if last == gone then front else front + [last]
  }

  lemma {:induction false} WithoutRemoves(peers: seq<EndpointId>, gone: EndpointId)
    ensures Elements(Without(peers, gone)) == Elements(peers) - {gone}
    ensures Distinct(peers) ==> Distinct(Without(peers, gone))
  {
    if peers != [] {
      var front, last := peers[..|peers| - 1], peers[|peers| - 1];
      WithoutRemoves(front, gone);
      assert front + [last] == peers;
      ElementsSnoc(front, last);
      ElementsSnoc(Without(front, gone), last);
      if Distinct(peers) {
        assert last !in front;
        assert last !in Elements(Without(front, gone));
      }
    }
  }

  function Removed(links: Links, id: EndpointId): Links {
    Links(links.lookup - {id}, Without(links.peers, id), links.formation - {id})
  }

  function AddressesAt(links: Links, id: EndpointId): set<Address> {
    if id in links.lookup then links.lookup[id] else {}
  }

  /**
   One event, about endpoint `id`, handled by node `me`. `trusted` is the verdict on the
   peer's certificate, true when no bundle is configured.
   */
  function Handle(links: Links, me: EndpointId, id: EndpointId, e: DiscoveryEvent, trusted: bool): Links {
    match e
    case PeerLost(_) => Removed(links, id)
    case PeerFound(info) =>
      if id == me || !trusted then links else
        Links(links.lookup[id := AddressesAt(links, id) + Elements(info.addresses)],
              if id in links.peers then links.peers else links.peers + [id],
              links.formation + {id})
    case PeerUpdated(info) =>
      if id == me then links
      else if !trusted then Removed(links, id)
      else links.(lookup := links.lookup[id := Elements(info.addresses)])
  }

  /** Without a bundle every peer is trusted; with one, its node id must validate now. */
  predicate Trusts(bundle: Option<Bundle>, verifier: Verifier, nodeId: NodeId, now: U64) {
    bundle.Some? ==> ValidateNodeId(bundle.value, verifier, nodeId, now)
  }

  class PeerConnector {
    const me: EndpointId
    const derive: NodeId -> EndpointId
    const bundle: CertificateBundle?
    const index: BlobPeerIndex
    var lookup: map<EndpointId, set<Address>>
    var knownPeers: seq<EndpointId>
    var formationPeers: set<EndpointId>

    ghost function View(): Links
      reads this
    {
      Links(lookup, knownPeers, formationPeers)
    }

    ghost predicate Valid()
      reads this, index
    {
      index.Valid()
    }

    ghost predicate Verdict(nodeId: NodeId, now: U64)
      reads this, bundle
    {
      bundle != null ==> Trusts(Some(bundle.View()), bundle.verifier, nodeId, now)
    }

    constructor (me: EndpointId, derive: NodeId -> EndpointId, bundle: CertificateBundle?, index: BlobPeerIndex)
      requires index.Valid()
      ensures Valid() && View() == NO_LINKS
      ensures this.me == me && this.derive == derive && this.bundle == bundle && this.index == index
    {
      this.me, this.derive, this.bundle, this.index := me, derive, bundle, index;
      lookup, knownPeers, formationPeers := map[], [], {};
    }

    /** The peer leaves the list, and with it all it was known to have. */
    method RemovePeer(id: EndpointId)
      requires Valid()
      modifies this`knownPeers, index
      ensures Valid() && knownPeers == Without(old(knownPeers), id)
      ensures forall p: EndpointId, h: BlobHash :: index.Has(p, h) <==> old(index.Has(p, h)) && p != id
    {
      var kept := [];
      for i := 0 to |knownPeers|
        invariant knownPeers == old(knownPeers) && kept == Without(knownPeers[..i], id)
      {
        assert knownPeers[..i + 1][..i] == knownPeers[..i];
        if knownPeers[i] != id {
          kept := kept + [knownPeers[i]];
        }
      }
      assert knownPeers[..|knownPeers|] == knownPeers;
      knownPeers := kept;
      index.RemovePeer(id);
    }

    method Disconnect(id: EndpointId)
      requires Valid()
      modifies this, index
      ensures Valid() && View() == Removed(old(View()), id)
      ensures forall p: EndpointId, h: BlobHash :: index.Has(p, h) <==> old(index.Has(p, h)) && p != id
    {
      lookup := lookup - {id};
      RemovePeer(id);
      formationPeers := formationPeers - {id};
    }

    method IsTrusted(nodeId: NodeId, now: U64) returns (trusted: bool)
      ensures trusted == Verdict(nodeId, now)
    {
      if bundle == null {
        return true;
      }
      trusted := bundle.IsValidNodeId(nodeId, now);
    }

    method HandleEvent(e: DiscoveryEvent, now: U64)
      requires Valid()
      modifies this, index
      ensures Valid()
      ensures View() == Handle(old(View()), me, derive(e.Subject()), e, old(Verdict(e.Subject(), now)))
      ensures var h := Handled(derive(e.Subject()), e, old(Verdict(e.Subject(), now)));
              forall p: EndpointId, b: BlobHash ::
                index.Has(p, b) <==> old(index.Has(p, b)) && !(p == h.id && Expels(h, h.id) && (e.PeerLost? || p != me))
    {
      hide Without, Elements, Removed, ValidateNodeId, Inverse;
      var id := derive(e.Subject());
      match e {
        case PeerFound(info) =>
          if id == me {
            return;
          }
          var trusted := IsTrusted(info.nodeId, now);
          if !trusted {
            return;
          }
          var known := if id in lookup then lookup[id] else {};
          lookup := lookup[id := known + Elements(info.addresses)];
          if id !in knownPeers {
            knownPeers := knownPeers + [id];
          }
          formationPeers := formationPeers + {id};
        case PeerLost(_) =>
          Disconnect(id);
        case PeerUpdated(info) =>
          if id == me {
            return;
          }
          var trusted := IsTrusted(info.nodeId, now);
          if !trusted {
            Disconnect(id);
            return;
          }
          lookup := lookup[id := Elements(info.addresses)];
      }
    }
  }

  // --- Any run ---

  /** An event with the endpoint derived for its peer and the verdict on its certificate. */
  datatype Handled = Handled(id: EndpointId, event: DiscoveryEvent, trusted: bool)

  function Run(me: EndpointId, history: seq<Handled>): Links {
    if history == [] then NO_LINKS else
      var h := history[|history| - 1];
      Handle(Run(me, history[..|history| - 1]), me, h.id, h.event, h.trusted)
  }

  /** The peer list is the formation set without repetition, its members can be looked up, and the node is not its own peer. */
  ghost predicate Consistent(links: Links, me: EndpointId) {
    && Distinct(links.peers)
    && Elements(links.peers) == links.formation
    && links.formation <= links.lookup.Keys
    && me !in links.lookup
  }

  lemma HandleKeepsConsistent(links: Links, me: EndpointId, h: Handled)
    requires Consistent(links, me)
    ensures Consistent(Handle(links, me, h.id, h.event, h.trusted), me)
  {
    hide Without;
    WithoutRemoves(links.peers, h.id);
    ElementsSnoc(links.peers, h.id);
  }

  lemma {:induction false} RunIsConsistent(me: EndpointId, history: seq<Handled>)
    ensures Consistent(Run(me, history), me)
  {
    hide Consistent, Handle;
    if history == [] {
      EmptyIsConsistent(me);
    } else {
      RunIsConsistent(me, history[..|history| - 1]);
      HandleKeepsConsistent(Run(me, history[..|history| - 1]), me, history[|history| - 1]);
    }
  }

  lemma EmptyIsConsistent(me: EndpointId)
    ensures Consistent(NO_LINKS, me)
  {
  }

  /** A trusted sighting adds an address; only a trusted first sighting makes a formation member. */
  predicate Admits(h: Handled, id: EndpointId, found: bool) {
    h.id == id && h.trusted && (h.event.PeerFound? || (!found && h.event.PeerUpdated?))
  }

  predicate Expels(h: Handled, id: EndpointId) {
    h.id == id && (h.event.PeerLost? || (h.event.PeerUpdated? && !h.trusted))
  }

  /** Some event admits the endpoint and no later one expels it. */
  ghost predicate Stays(history: seq<Handled>, id: EndpointId, found: bool) {
    exists k :: 0 <= k < |history| && Admits(history[k], id, found)
                && forall j :: k < j < |history| ==> !Expels(history[j], id)
  }

  lemma StaysStep(history: seq<Handled>, h: Handled, id: EndpointId, found: bool)
    ensures Stays(history + [h], id, found) <==>
              (Admits(h, id, found) || (Stays(history, id, found) && !Expels(h, id)))
  {
    var longer := history + [h];
    assert longer[|history|] == h;
    if Admits(h, id, found) {
      assert Admits(longer[|history|], id, found);
    } else if Stays(history, id, found) && !Expels(h, id) {
      var k :| 0 <= k < |history| && Admits(history[k], id, found)
               && forall j :: k < j < |history| ==> !Expels(history[j], id);
      assert Admits(longer[k], id, found);
      assert forall j :: k < j < |longer| ==> !Expels(longer[j], id);
    }
    if Stays(longer, id, found) && !Admits(h, id, found) {
      var k :| 0 <= k < |longer| && Admits(longer[k], id, found)
               && forall j :: k < j < |longer| ==> !Expels(longer[j], id);
      assert Admits(history[k], id, found) && !Expels(longer[|history|], id);
      assert forall j :: k < j < |history| ==> !Expels(longer[j], id);
      assert forall j :: 0 <= j < |history| ==> history[j] == longer[j];
    }
  }

  lemma HandleMembership(links: Links, me: EndpointId, h: Handled, id: EndpointId)
    requires id != me
    ensures var after := Handle(links, me, h.id, h.event, h.trusted);
            && (id in after.formation <==> Admits(h, id, true) || (id in links.formation && !Expels(h, id)))
            && (id in after.lookup <==> Admits(h, id, false) || (id in links.lookup && !Expels(h, id)))
  {
  }

  /**
   After any run, an endpoint other than the node's own is a formation member exactly when a
   trusted PeerFound admitted it and nothing expelled it since, and can be looked up exactly
   when a trusted PeerFound or PeerUpdated did.
   */
  lemma {:induction false} HistoryDecides(me: EndpointId, history: seq<Handled>, id: EndpointId)
    requires id != me
    ensures id in Run(me, history).formation <==> Stays(history, id, true)
    ensures id in Run(me, history).lookup <==> Stays(history, id, false)
  {
    hide Handle, Stays;
    if history == [] {
      EmptyStays(id, true);
      EmptyStays(id, false);
    } else {
      var front, h := history[..|history| - 1], history[|history| - 1];
      HistoryDecides(me, front, id);
      HandleMembership(Run(me, front), me, h, id);
      StaysStep(front, h, id, true);
      StaysStep(front, h, id, false);
      assert front + [h] == history;
    }
  }

  lemma EmptyStays(id: EndpointId, found: bool)
    ensures !Stays([], id, found)
  {
  }

  /** A trusted event about the endpoint names this address. */
  predicate Reports(h: Handled, id: EndpointId, x: Address) {
    h.id == id && h.trusted && !h.event.PeerLost? && x in h.event.info.addresses
  }

  /** An update or a loss puts an end to the addresses before it. */
  predicate Clears(h: Handled, id: EndpointId) {
    h.id == id && !h.event.PeerFound?
  }

  ghost predicate Reported(history: seq<Handled>, id: EndpointId, x: Address) {
    exists k :: 0 <= k < |history| && Reports(history[k], id, x)
                && forall j :: k < j < |history| ==> !Clears(history[j], id)
  }

  lemma ReportedStep(history: seq<Handled>, h: Handled, id: EndpointId, x: Address)
    ensures Reported(history + [h], id, x) <==> Reports(h, id, x) || (Reported(history, id, x) && !Clears(h, id))
  {
    hide Reports, Clears;
    var longer := history + [h];
    assert longer[|history|] == h;
    assert forall j :: 0 <= j < |history| ==> longer[j] == history[j];
    if Reports(h, id, x) {
      assert Reports(longer[|history|], id, x);
    }
    if Reported(history, id, x) && !Clears(h, id) {
      var k :| 0 <= k < |history| && Reports(history[k], id, x)
               && forall j :: k < j < |history| ==> !Clears(history[j], id);
      assert Reports(longer[k], id, x);
    }
    if Reported(longer, id, x) && !Reports(h, id, x) {
      var k :| 0 <= k < |longer| && Reports(longer[k], id, x)
               && forall j :: k < j < |longer| ==> !Clears(longer[j], id);
      assert Reports(history[k], id, x) && !Clears(longer[|history|], id);
      assert forall j :: k < j < |history| ==> !Clears(longer[j], id);
    }
  }

  lemma HandleAddresses(links: Links, me: EndpointId, h: Handled, id: EndpointId, x: Address)
    requires id != me
    ensures x in AddressesAt(Handle(links, me, h.id, h.event, h.trusted), id) <==>
              Reports(h, id, x) || (x in AddressesAt(links, id) && !Clears(h, id))
  {
  }

  /** After any run, an address is looked up for an endpoint exactly when a trusted event named it and no update or loss came since: sightings add up, updates replace. */
  lemma {:induction false} AddressesFromHistory(me: EndpointId, history: seq<Handled>, id: EndpointId, x: Address)
    requires id != me
    ensures x in AddressesAt(Run(me, history), id) <==> Reported(history, id, x)
  {
    hide Handle, Reported, AddressesAt;
    if history == [] {
      NothingReported(id, x);
    } else {
      var front, h := history[..|history| - 1], history[|history| - 1];
      AddressesFromHistory(me, front, id, x);
      HandleAddresses(Run(me, front), me, h, id, x);
      ReportedStep(front, h, id, x);
      assert front + [h] == history;
    }
  }

  lemma NothingReported(id: EndpointId, x: Address)
    ensures !Reported([], id, x) && x !in AddressesAt(NO_LINKS, id)
  {
  }

  /** Lookup and formation agree on every endpoint until an update is trusted for an endpoint that is no member. */
  lemma LookupMatchesIff(links: Links, me: EndpointId, h: Handled)
    requires Consistent(links, me) && links.lookup.Keys == links.formation
    ensures var after := Handle(links, me, h.id, h.event, h.trusted);
            after.lookup.Keys == after.formation <==>
              !(h.event.PeerUpdated? && h.trusted && h.id != me && h.id !in links.formation)
  {
  }

  /** A peer turned away when found and trusted when updated is looked up without being a formation member. */
  lemma LateTrustOnlyLooksUp(me: EndpointId, id: EndpointId, info: PeerInfo)
    requires id != me
    ensures var links := Run(me, [Handled(id, PeerFound(info), false), Handled(id, PeerUpdated(info), true)]);
            id in links.lookup && id !in links.formation && id !in links.peers
  {
    var refused, trusted := Handled(id, PeerFound(info), false), Handled(id, PeerUpdated(info), true);
    assert [refused, trusted][..1] == [refused] && [refused][..0] == [];
    assert Run(me, [refused]) == NO_LINKS;
    assert Run(me, [refused, trusted]) == Handle(NO_LINKS, me, id, trusted.event, true);
  }

  // --- Certificates that expire ---

  /** Whatever happens elsewhere, and whatever becomes of its certificate, an endpoint keeps its standing until an event about it. */
  lemma {:induction false} StandsUntilEvent(me: EndpointId, history: seq<Handled>, rest: seq<Handled>, id: EndpointId)
    requires forall k :: 0 <= k < |rest| ==> rest[k].id != id
    ensures id in Run(me, history + rest).formation <==> id in Run(me, history).formation
    ensures id in Run(me, history + rest).lookup <==> id in Run(me, history).lookup
    ensures AddressesAt(Run(me, history + rest), id) == AddressesAt(Run(me, history), id)
    decreases |rest|
  {
    hide Handle;
    if rest == [] {
      assert history + rest == history;
    } else {
      var n := |rest| - 1;
      StandsUntilEvent(me, history, rest[..n], id);
      assert (history + rest)[..|history| + n] == history + rest[..n];
      HandleElsewhere(Run(me, history + rest[..n]), me, rest[n], id);
    }
  }

  lemma HandleElsewhere(links: Links, me: EndpointId, h: Handled, id: EndpointId)
    requires h.id != id
    ensures var after := Handle(links, me, h.id, h.event, h.trusted);
            && (id in after.formation <==> id in links.formation)
            && (id in after.lookup <==> id in links.lookup)
            && AddressesAt(after, id) == AddressesAt(links, id)
  {
  }

  /** An event handled with the bundle as it is at that time. */
  function Judged(derive: NodeId -> EndpointId, verifier: Verifier, bundle: Option<Bundle>, e: DiscoveryEvent, now: U64): Handled {
    Handled(derive(e.Subject()), e, Trusts(bundle, verifier, e.Subject(), now))
  }

  /** The node id "n" with a root certificate that expires at 10. */
  const BRIEF: Bundle := Store(CertificateBundles.EMPTY, CertificateOf(1, [110], 0, 0, 10, 1))

  /** A peer found at 5 is a member at 20, with a certificate that has expired, and leaves only when it is next updated. */
  lemma MemberOutlivesCertificate(me: EndpointId, derive: NodeId -> EndpointId, info: PeerInfo)
    requires info.nodeId == [110] && derive(info.nodeId) != me
    ensures var found := Judged(derive, ACCEPTING, Some(BRIEF), PeerFound(info), 5);
            var updated := Judged(derive, ACCEPTING, Some(BRIEF), PeerUpdated(info), 20);
            && !Trusts(Some(BRIEF), ACCEPTING, info.nodeId, 20) && Trusts(None, ACCEPTING, info.nodeId, 20)
            && derive(info.nodeId) in Run(me, [found]).formation
            && derive(info.nodeId) !in Run(me, [found] + [updated]).formation
  {
    hide Run, KeyOf, Handle;
    var id := derive(info.nodeId);
    var found := Judged(derive, ACCEPTING, Some(BRIEF), PeerFound(info), 5);
    var updated := Judged(derive, ACCEPTING, Some(BRIEF), PeerUpdated(info), 20);
    AcceptingAccepts(CertificateOf(1, [110], 0, 0, 10, 1));
    assert Trusts(Some(BRIEF), ACCEPTING, info.nodeId, 5) && !Trusts(Some(BRIEF), ACCEPTING, info.nodeId, 20);
    HistoryDecides(me, [found], id);
    HistoryDecides(me, [found] + [updated], id);
    StaysStep([], found, id, true);
    assert [] + [found] == [found];
    StaysStep([found], updated, id, true);
  }

  // --- Driven by polling, with no certificate bundle ---

  ghost predicate Injective(derive: NodeId -> EndpointId) {
    forall a, b :: derive(a) == derive(b) ==> a == b
  }

  /** The endpoints of these nodes, leaving out the connector's own. */
  function Endpoints(me: EndpointId, derive: NodeId -> EndpointId, ids: set<NodeId>): set<EndpointId> {
    set id | id in ids && derive(id) != me :: derive(id)
  }

  /** The links name exactly the viewed peers other than the node itself, at their addresses. */
  ghost predicate Mirrors(links: Links, me: EndpointId, derive: NodeId -> EndpointId, view: Peers) {
    && links.lookup.Keys == links.formation == Endpoints(me, derive, view.Keys)
    && (forall id :: id in view && derive(id) != me ==>
          AddressesAt(links, derive(id)) == Elements(view[id].addresses))
  }

  /** A first sighting is of an unknown node and an update of a known one. */
  predicate Timely(view: Peers, e: DiscoveryEvent) {
    (e.PeerFound? ==> e.Subject() !in view) && (e.PeerUpdated? ==> e.Subject() in view)
  }

  function HandleAll(links: Links, me: EndpointId, derive: NodeId -> EndpointId, es: seq<DiscoveryEvent>): Links {
    if es == [] then links else
      var e := es[|es| - 1];
      Handle(HandleAll(links, me, derive, es[..|es| - 1]), me, derive(e.Subject()), e, true)
  }

  function HandleChunks(me: EndpointId, derive: NodeId -> EndpointId, chunks: seq<seq<DiscoveryEvent>>): Links {
    if chunks == [] then NO_LINKS else
      HandleAll(HandleChunks(me, derive, chunks[..|chunks| - 1]), me, derive, chunks[|chunks| - 1])
  }

  lemma EndpointsAdd(me: EndpointId, derive: NodeId -> EndpointId, ids: set<NodeId>, id: NodeId)
    ensures Endpoints(me, derive, ids + {id}) ==
            Endpoints(me, derive, ids) + (if derive(id) == me then {} else {derive(id)})
  {
  }

  lemma EndpointsRemove(me: EndpointId, derive: NodeId -> EndpointId, ids: set<NodeId>, id: NodeId)
    requires Injective(derive)
    ensures Endpoints(me, derive, ids - {id}) == Endpoints(me, derive, ids) - {derive(id)}
  {
  }

  lemma EndpointsIn(me: EndpointId, derive: NodeId -> EndpointId, ids: set<NodeId>, id: NodeId)
    requires Injective(derive)
    ensures derive(id) in Endpoints(me, derive, ids) <==> id in ids && derive(id) != me
  {
  }

  lemma HandleMirrors(links: Links, me: EndpointId, derive: NodeId -> EndpointId, view: Peers, e: DiscoveryEvent)
    requires Injective(derive) && Mirrors(links, me, derive, view) && Timely(view, e)
    ensures Mirrors(Handle(links, me, derive(e.Subject()), e, true), me, derive, ApplyEvent(view, e))
  {
    hide Endpoints, Without, Elements;
    var id := e.Subject();
    EndpointsIn(me, derive, view.Keys, id);
    if e.PeerLost? {
      EndpointsRemove(me, derive, view.Keys, id);
      assert ApplyEvent(view, e).Keys == view.Keys - {id};
    } else {
      EndpointsAdd(me, derive, view.Keys, id);
      assert ApplyEvent(view, e).Keys == view.Keys + {id};
    }
    assert forall other :: derive(other) == derive(id) ==> other == id;
  }

  lemma DiffIsTimely(view: Peers, was: Peers, now: Peers, es: seq<DiscoveryEvent>, n: nat)
    requires Matches(view, was) && Diff(was, now, es) && n < |es|
    ensures Timely(Replay(view, es[..n]), es[n])
  {
    var id := es[n].Subject();
    assert !Mentions(es[..n], id);
    ReplayUntouched(view, es[..n], id);
    assert SameContact(Lookup(view, id), Lookup(was, id));
  }

  lemma {:induction false} HandleAllMirrors(
    links: Links, me: EndpointId, derive: NodeId -> EndpointId,
    view: Peers, was: Peers, now: Peers, es: seq<DiscoveryEvent>, n: nat)
    requires Injective(derive) && Mirrors(links, me, derive, view) && Consistent(links, me)
    requires Matches(view, was) && Diff(was, now, es) && n <= |es|
    ensures Mirrors(HandleAll(links, me, derive, es[..n]), me, derive, Replay(view, es[..n]))
    ensures Consistent(HandleAll(links, me, derive, es[..n]), me)
  {
    hide Mirrors, Consistent, Matches, Diff, Handle, ApplyEvent, Injective;
    if n > 0 {
      var front, e := es[..n - 1], es[n - 1];
      assert es[..n][..n - 1] == front;
      HandleAllMirrors(links, me, derive, view, was, now, es, n - 1);
      DiffIsTimely(view, was, now, es, n - 1);
      HandleMirrors(HandleAll(links, me, derive, front), me, derive, Replay(view, front), e);
      HandleKeepsConsistent(HandleAll(links, me, derive, front), me, Handled(derive(e.Subject()), e, true));
    }
  }

  lemma MirrorsAgree(links: Links, me: EndpointId, derive: NodeId -> EndpointId, view: Peers, peers: Peers)
    requires Mirrors(links, me, derive, view) && Matches(view, peers)
    ensures Mirrors(links, me, derive, peers)
  {
    forall id ensures id in view <==> id in peers
              ensures id in view ==> view[id].addresses == peers[id].addresses
    {
      assert SameContact(Lookup(view, id), Lookup(peers, id));
    }
    assert view.Keys == peers.Keys;
  }

  /**
   After any number of polls, the lookup, the peer list and the formation set name exactly the
   discovered peers other than the node itself, each at its discovered addresses.
   */
  lemma {:induction false} PollsReachConnector(
    me: EndpointId, derive: NodeId -> EndpointId, lists: seq<Peers>, chunks: seq<seq<DiscoveryEvent>>)
    requires Injective(derive) && IsStream(lists, chunks)
    ensures Mirrors(HandleChunks(me, derive, chunks), me, derive, lists[|chunks|])
    ensures Consistent(HandleChunks(me, derive, chunks), me)
  {
    ChunksMirrorReplay(me, derive, lists, chunks);
    StreamRebuildsPeers(lists, chunks);
    MirrorsAgree(HandleChunks(me, derive, chunks), me, derive, ReplayAll(chunks), lists[|chunks|]);
  }

  lemma {:induction false} ChunksMirrorReplay(
    me: EndpointId, derive: NodeId -> EndpointId, lists: seq<Peers>, chunks: seq<seq<DiscoveryEvent>>)
    requires Injective(derive) && IsStream(lists, chunks)
    ensures Mirrors(HandleChunks(me, derive, chunks), me, derive, ReplayAll(chunks))
    ensures Consistent(HandleChunks(me, derive, chunks), me)
  {
    hide Diff, Replay, HandleAll, Matches;
    if chunks != [] {
      hide Mirrors, Consistent;
      var n := |chunks| - 1;
      ChunksMirrorReplay(me, derive, lists[..n + 1], chunks[..n]);
      StreamRebuildsPeers(lists[..n + 1], chunks[..n]);
      var es := chunks[n];
      HandleAllMirrors(HandleChunks(me, derive, chunks[..n]), me, derive, ReplayAll(chunks[..n]),
                       lists[n], lists[n + 1], es, |es|);
      assert es[..|es|] == es;
    }
  }
}
