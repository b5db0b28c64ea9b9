/**
 Leader election by local decision (src/hierarchy/dynamic_strategy.rs), over
 exact reals: every node scores itself and the beacons it sees, and leads when it
 beats the best of them by the hysteresis factor.
 */
module Election {
  import opened Wrappers

  datatype Mobility = Static | SemiMobile | Mobile

  /** Usage and battery are percentages held in a byte. */
  datatype Resources = Resources(cpuUsage: nat, memoryUsage: nat, battery: Option<nat>)

  datatype Profile = Profile(mobility: Mobility, resources: Resources, canParent: bool, parentPriority: nat)

  datatype Level = Platform | Squad | Platoon | Company

  datatype Beacon = Beacon(
    level: Level, mobility: Option<Mobility>, resources: Option<Resources>, canParent: bool, parentPriority: nat)

  datatype Weights = Weights(mobility: real, resources: real, battery: real)

  datatype Strategy = Strategy(baseLevel: Level, weights: Weights, hysteresis: real)

  datatype Role = Leader | Member | Standalone

  function MobilityScore(m: Mobility): real {
    match m
    case Static => 1.0
    case SemiMobile => 0.6
    case Mobile => 0.3
  }

  function ResourceScore(r: Resources): real {
    ((1.0 - r.cpuUsage as real / 100.0) + (1.0 - r.memoryUsage as real / 100.0)) / 2.0
  }

  function BatteryScore(r: Resources): real {
    if r.battery.Some? then r.battery.value as real / 100.0 else 1.0
  }

  /** The boost for nodes that may parent, then the priority multiplier. */
  function Boost(score: real, canParent: bool, parentPriority: nat): real {
    (if canParent then score * 1.1 else score) * (1.0 + parentPriority as real / 255.0)
  }

  function Weigh(score: real, weight: real): real { score * weight }

  /** The weighted readings, before any boost. */
  function BaseScore(w: Weights, p: Profile): real {
    Weigh(MobilityScore(p.mobility), w.mobility)
    + Weigh(ResourceScore(p.resources), w.resources)
    + Weigh(BatteryScore(p.resources), w.battery)
  }

  function ProfileScore(w: Weights, p: Profile): real {
    Boost(BaseScore(w, p), p.canParent, p.parentPriority)
  }

  /** What a beacon leaves out counts one half. */
  function BeaconScore(w: Weights, b: Beacon): real {
    var mobility := if b.mobility.Some? then MobilityScore(b.mobility.value) * w.mobility else 0.5 * w.mobility;
    var rest := if b.resources.Some?
                then ResourceScore(b.resources.value) * w.resources + BatteryScore(b.resources.value) * w.battery
                else 0.5 * (w.resources + w.battery);
    Boost(mobility + rest, b.canParent, b.parentPriority)
  }

  /** The scores of the beacons at the strategy's level, in order. */
  function PeerScores(s: Strategy, peers: seq<Beacon>): seq<real> {
    if peers == [] then [] else
      (if peers[0].level == s.baseLevel then [BeaconScore(s.weights, peers[0])] else []) + PeerScores(s, peers[1..])
  }

  function Best(scores: seq<real>): real
    requires scores != []
  {
    if |scores| == 1 then scores[0] else
      var rest := Best(scores[1..]);
      if scores[0] > rest then scores[0] else rest
  }

  /** What a node must reach to lead over a peer of the given score. */
  function Threshold(score: real, hysteresis: real): real {
    score * (1.0 + hysteresis)
  }

  function DetermineRole(s: Strategy, me: Profile, peers: seq<Beacon>): Role {
    var scores := PeerScores(s, peers);
    if scores == [] then Standalone
    else if ProfileScore(s.weights, me) >= Threshold(Best(scores), s.hysteresis) then Leader
    else Member
  }

  /** The beacon a broadcaster builds from a profile (src/beacon/broadcaster.rs). */
  function BeaconOf(p: Profile, level: Level): Beacon {
    Beacon(level, Some(p.mobility), Some(p.resources), p.canParent, p.parentPriority)
  }

  // --- Scores ---

  /** A node is scored from its beacon as it scores itself. */
  lemma BeaconScoreIsProfileScore(w: Weights, p: Profile, level: Level)
    ensures BeaconScore(w, BeaconOf(p, level)) == ProfileScore(w, p)
  {
    assert MobilityScore(p.mobility) * w.mobility
           + (ResourceScore(p.resources) * w.resources + BatteryScore(p.resources) * w.battery)
        == MobilityScore(p.mobility) * w.mobility + ResourceScore(p.resources) * w.resources
           + BatteryScore(p.resources) * w.battery;
  }

  /** Usage stays within one hundred percent. */
  predicate Sane(p: Profile) {
    p.resources.cpuUsage <= 100 && p.resources.memoryUsage <= 100
  }

  predicate Positive(w: Weights) {
    w.mobility > 0.0 && w.resources >= 0.0 && w.battery >= 0.0
  }

  lemma ProductNonNegative(a: real, b: real)
    requires a >= 0.0 && b >= 0.0
    ensures a * b >= 0.0
  {
  }

  lemma ProductPositive(a: real, b: real)
    requires a > 0.0 && b > 0.0
    ensures a * b > 0.0
  {
  }

  lemma ScoreIsPositive(w: Weights, p: Profile)
    requires Positive(w) && Sane(p)
    ensures ProfileScore(w, p) > 0.0
  {
    ProductPositive(MobilityScore(p.mobility), w.mobility);
    ProductNonNegative(ResourceScore(p.resources), w.resources);
    ProductNonNegative(BatteryScore(p.resources), w.battery);
    BoostKeepsSign(BaseScore(w, p), p.canParent, p.parentPriority);
  }

  lemma BoostKeepsSign(score: real, canParent: bool, parentPriority: nat)
    requires score > 0.0
    ensures Boost(score, canParent, parentPriority) > 0.0
  {
    var x := if canParent then score * 1.1 else score;
    assert x > 0.0;
    ProductPositive(x, 1.0 + parentPriority as real / 255.0);
  }

  // --- What makes a node the better leader ---

  /** Every reading counts. */
  predicate AllPositive(w: Weights) {
    w.mobility > 0.0 && w.resources > 0.0 && w.battery > 0.0
  }

  /** At least as mobile, in the order static, semi-mobile, mobile. */
  predicate AtLeastAsMobile(m: Mobility, n: Mobility) {
    m == n || m.Mobile? || n.Static?
  }

  /** A battery level; mains power counts as full. */
  function Charge(battery: Option<nat>): nat {
    if battery.Some? then battery.value else 100
  }

  /** No better than `q` in any reading. */
  predicate NoBetter(p: Profile, q: Profile) {
    && AtLeastAsMobile(p.mobility, q.mobility)
    && p.resources.cpuUsage >= q.resources.cpuUsage && p.resources.memoryUsage >= q.resources.memoryUsage
    && Charge(p.resources.battery) <= Charge(q.resources.battery)
    && (p.canParent ==> q.canParent) && p.parentPriority <= q.parentPriority
  }

  /** A node that is no better in any reading scores no higher, and lower when it is worse in any. */
  lemma ScoreFollowsReadings(w: Weights, p: Profile, q: Profile)
    requires AllPositive(w) && Sane(p) && NoBetter(p, q)
    ensures ProfileScore(w, p) <= ProfileScore(w, q)
    ensures !NoBetter(q, p) ==> ProfileScore(w, p) < ProfileScore(w, q)
  {
    hide Boost, BaseScore;
    BaseFollows(w, p, q);
    BoostFollows(BaseScore(w, p), p.canParent, p.parentPriority, BaseScore(w, q), q.canParent, q.parentPriority);
  }

  lemma BaseFollows(w: Weights, p: Profile, q: Profile)
    requires AllPositive(w) && Sane(p) && NoBetter(p, q)
    ensures 0.0 < BaseScore(w, p) <= BaseScore(w, q)
    ensures || p.mobility != q.mobility || Charge(p.resources.battery) < Charge(q.resources.battery)
            || p.resources.cpuUsage > q.resources.cpuUsage || p.resources.memoryUsage > q.resources.memoryUsage ==>
              BaseScore(w, p) < BaseScore(w, q)
  {
    hide MobilityScore, ResourceScore, BatteryScore, Weigh;
    ReadingsOrdered(p, q);
    WeighFollows(MobilityScore(p.mobility), MobilityScore(q.mobility), w.mobility);
    WeighFollows(ResourceScore(p.resources), ResourceScore(q.resources), w.resources);
    WeighFollows(BatteryScore(p.resources), BatteryScore(q.resources), w.battery);
  }

  lemma WeighFollows(a: real, b: real, w: real)
    requires w > 0.0 && 0.0 <= a <= b
    ensures 0.0 <= Weigh(a, w) <= Weigh(b, w)
    ensures a > 0.0 ==> Weigh(a, w) > 0.0
    ensures a < b ==> Weigh(a, w) < Weigh(b, w)
  {
    TermFollows(a, b, w);
    TermFollows(0.0, a, w);
  }

  lemma TermFollows(a: real, b: real, w: real)
    requires w > 0.0
    ensures a <= b ==> a * w <= b * w
    ensures a < b ==> a * w < b * w
  {
  }

  lemma ReadingsOrdered(p: Profile, q: Profile)
    requires NoBetter(p, q)
    ensures MobilityScore(p.mobility) <= MobilityScore(q.mobility) && MobilityScore(p.mobility) > 0.0
    ensures p.mobility != q.mobility ==> MobilityScore(p.mobility) < MobilityScore(q.mobility)
    ensures ResourceScore(p.resources) <= ResourceScore(q.resources)
    ensures p.resources.cpuUsage > q.resources.cpuUsage || p.resources.memoryUsage > q.resources.memoryUsage ==>
              ResourceScore(p.resources) < ResourceScore(q.resources)
    ensures Sane(p) ==> ResourceScore(p.resources) >= 0.0
    ensures 0.0 <= BatteryScore(p.resources) <= BatteryScore(q.resources)
    ensures Charge(p.resources.battery) < Charge(q.resources.battery) ==>
              BatteryScore(p.resources) < BatteryScore(q.resources)
  {
  }

  lemma BoostFollows(x: real, parent: bool, priority: nat, y: real, parent': bool, priority': nat)
    requires 0.0 < x <= y && (parent ==> parent') && priority <= priority'
    ensures Boost(x, parent, priority) <= Boost(y, parent', priority')
    ensures x < y || parent != parent' || priority < priority' ==>
              Boost(x, parent, priority) < Boost(y, parent', priority')
  {
    var a, b := if parent then x * 1.1 else x, if parent' then y * 1.1 else y;
    var f, g := 1.0 + priority as real / 255.0, 1.0 + priority' as real / 255.0;
    assert 0.0 < a <= b && 0.0 < f <= g;
    ProductsFollow(a, b, f, g);
  }

  lemma ProductsFollow(a: real, b: real, f: real, g: real)
    requires 0.0 < a <= b && 0.0 < f <= g
    ensures a * f <= b * g
    ensures a < b || f < g ==> a * f < b * g
  {
    TermFollows(a, b, f);
    TermFollows(f, g, b);
    assert f * b == b * f && g * b == b * g;
  }

  /** With positive hysteresis, a node no better in any reading than a peer it sees at its level does not lead. */
  lemma NoBetterDoesNotLead(s: Strategy, me: Profile, peers: seq<Beacon>, p: Profile)
    requires s.hysteresis > 0.0 && AllPositive(s.weights) && Sane(me) && Sane(p)
    requires Sees(s, peers, p) && NoBetter(me, p)
    ensures !DetermineRole(s, me, peers).Leader?
  {
    hide DetermineRole, ProfileScore, Sees, NoBetter, Threshold;
    ScoreFollowsReadings(s.weights, me, p);
    ScoreIsPositive(s.weights, p);
    if DetermineRole(s, me, peers).Leader? {
      LeaderBeats(s, me, peers, p);
      GrowBy(ProfileScore(s.weights, p), s.hysteresis);
    }
  }

  const DEFAULT_WEIGHTS := Weights(0.4, 0.4, 0.2)

  /** The default scores: idle mains power, mobility apart; then half load, half battery, parenting and top priority. */
  lemma DefaultScores()
    ensures ProfileScore(DEFAULT_WEIGHTS, Profile(Static, Resources(0, 0, None), false, 0)) == 1.0
    ensures ProfileScore(DEFAULT_WEIGHTS, Profile(SemiMobile, Resources(0, 0, None), false, 0)) == 0.84
    ensures ProfileScore(DEFAULT_WEIGHTS, Profile(Mobile, Resources(0, 0, None), false, 0)) == 0.72
    ensures ProfileScore(DEFAULT_WEIGHTS, Profile(Static, Resources(50, 0, Some(50)), false, 0)) == 0.8
    ensures ProfileScore(DEFAULT_WEIGHTS, Profile(Static, Resources(0, 0, None), true, 255)) == 2.2
  {
  }

  /** A beacon that names neither mobility nor resources scores one half by default. */
  lemma SilentBeaconScore(level: Level)
    ensures BeaconScore(DEFAULT_WEIGHTS, Beacon(level, None, None, false, 0)) == 0.5
  {
  }

  /** By default, of two idle nodes on mains power the static one leads the mobile one. */
  lemma StaticLeadsMobile(level: Level)
    ensures var s := Strategy(level, DEFAULT_WEIGHTS, 0.1);
            var fixed := Profile(Static, Resources(0, 0, None), false, 0);
            var moving := Profile(Mobile, Resources(0, 0, None), false, 0);
            && DetermineRole(s, fixed, [BeaconOf(moving, level)]).Leader?
            && DetermineRole(s, moving, [BeaconOf(fixed, level)]).Member?
  {
    hide ProfileScore, BeaconScore;
    var s := Strategy(level, DEFAULT_WEIGHTS, 0.1);
    var fixed := Profile(Static, Resources(0, 0, None), false, 0);
    var moving := Profile(Mobile, Resources(0, 0, None), false, 0);
    DefaultScores();
    OnePeer(s, moving);
    OnePeer(s, fixed);
  }

  lemma OnePeer(s: Strategy, p: Profile)
    ensures PeerScores(s, [BeaconOf(p, s.baseLevel)]) == [ProfileScore(s.weights, p)]
  {
    hide ProfileScore, BeaconScore;
    BeaconScoreIsProfileScore(s.weights, p, s.baseLevel);
    assert [BeaconOf(p, s.baseLevel)][1..] == [];
  }

  // --- The best peer ---

  lemma {:induction false} BestIsGreatest(scores: seq<real>, k: nat)
    requires k < |scores|
    ensures scores[k] <= Best(scores) && Best(scores) in scores
    decreases |scores|
  {
    if |scores| > 1 {
      BestIsGreatest(scores[1..], if k == 0 then 0 else k - 1);
    }
  }

  lemma {:induction false} ScoreIsListed(s: Strategy, peers: seq<Beacon>, k: nat)
    requires k < |peers| && peers[k].level == s.baseLevel
    ensures BeaconScore(s.weights, peers[k]) in PeerScores(s, peers)
    decreases |peers|
  {
    if k > 0 {
      ScoreIsListed(s, peers[1..], k - 1);
    }
  }

  lemma {:induction false} ListedIsScore(s: Strategy, peers: seq<Beacon>, x: real)
    requires x in PeerScores(s, peers)
    ensures exists k :: 0 <= k < |peers| && peers[k].level == s.baseLevel && x == BeaconScore(s.weights, peers[k])
    decreases |peers|
  {
    if peers[0].level == s.baseLevel && x == BeaconScore(s.weights, peers[0]) {
    } else {
      ListedIsScore(s, peers[1..], x);
      var k :| 0 <= k < |peers[1..]| && peers[1..][k].level == s.baseLevel
               && x == BeaconScore(s.weights, peers[1..][k]);
      assert peers[k + 1] == peers[1..][k];
    }
  }

  /** A peer at the node's level that no other such peer outscores. */
  ghost predicate IsBest(s: Strategy, peers: seq<Beacon>, k: int) {
    && 0 <= k < |peers| && peers[k].level == s.baseLevel
    && forall i :: 0 <= i < |peers| && peers[i].level == s.baseLevel ==>
         BeaconScore(s.weights, peers[i]) <= BeaconScore(s.weights, peers[k])
  }

  /**
   A node leads exactly when its score reaches that of a best peer at its level times
   the hysteresis factor; it stands alone exactly when it has no peer there.
   */
  lemma LeaderIff(s: Strategy, me: Profile, peers: seq<Beacon>)
    ensures DetermineRole(s, me, peers).Standalone? <==> forall k :: 0 <= k < |peers| ==> peers[k].level != s.baseLevel
    ensures DetermineRole(s, me, peers).Leader? <==>
              exists k :: IsBest(s, peers, k)
                          && ProfileScore(s.weights, me) >= Threshold(BeaconScore(s.weights, peers[k]), s.hysteresis)
  {
    hide BeaconScore, ProfileScore, Threshold, PeerScores, Best;
    var scores := PeerScores(s, peers);
    forall k | 0 <= k < |peers| && peers[k].level == s.baseLevel
      ensures scores != [] && BeaconScore(s.weights, peers[k]) <= Best(scores)
    {
      ScoreIsListed(s, peers, k);
      var i :| 0 <= i < |scores| && scores[i] == BeaconScore(s.weights, peers[k]);
      BestIsGreatest(scores, i);
    }
    if scores != [] {
      BestIsGreatest(scores, 0);
      ListedIsScore(s, peers, Best(scores));
      var k :| 0 <= k < |peers| && peers[k].level == s.baseLevel && Best(scores) == BeaconScore(s.weights, peers[k]);
      assert IsBest(s, peers, k);
    }
  }

  /** With a hysteresis of at least -1, that is reaching every such peer's score times the factor. */
  lemma LeaderReachesAllIff(s: Strategy, me: Profile, peers: seq<Beacon>)
    requires s.hysteresis >= -1.0
    ensures DetermineRole(s, me, peers).Leader? <==>
              && (exists k :: 0 <= k < |peers| && peers[k].level == s.baseLevel)
              && (forall k :: 0 <= k < |peers| && peers[k].level == s.baseLevel ==>
                    ProfileScore(s.weights, me) >= Threshold(BeaconScore(s.weights, peers[k]), s.hysteresis))
  {
    hide BeaconScore, ProfileScore, Threshold, DetermineRole;
    LeaderIff(s, me, peers);
    if i :| 0 <= i < |peers| && peers[i].level == s.baseLevel {
      var k := BestExists(s, peers, i);
      forall j, b | IsBest(s, peers, b) && 0 <= j < |peers| && peers[j].level == s.baseLevel
        ensures Threshold(BeaconScore(s.weights, peers[j]), s.hysteresis)
             <= Threshold(BeaconScore(s.weights, peers[b]), s.hysteresis)
      {
        ThresholdMonotone(BeaconScore(s.weights, peers[j]), BeaconScore(s.weights, peers[b]), s.hysteresis);
      }
    }
  }

  lemma BestExists(s: Strategy, peers: seq<Beacon>, i: nat) returns (k: nat)
    requires i < |peers| && peers[i].level == s.baseLevel
    ensures IsBest(s, peers, k)
  {
    hide BeaconScore, PeerScores, Best;
    var scores := PeerScores(s, peers);
    ScoreIsListed(s, peers, i);
    forall j | 0 <= j < |peers| && peers[j].level == s.baseLevel ensures BeaconScore(s.weights, peers[j]) <= Best(scores) {
      ScoreIsListed(s, peers, j);
      var n :| 0 <= n < |scores| && scores[n] == BeaconScore(s.weights, peers[j]);
      BestIsGreatest(scores, n);
    }
    BestIsGreatest(scores, 0);
    ListedIsScore(s, peers, Best(scores));
    k :| 0 <= k < |peers| && peers[k].level == s.baseLevel && Best(scores) == BeaconScore(s.weights, peers[k]);
  }

  lemma ThresholdMonotone(a: real, b: real, hysteresis: real)
    requires a <= b && hysteresis >= -1.0
    ensures Threshold(a, hysteresis) <= Threshold(b, hysteresis)
  {
  }

  // --- At most one leader ---

  /** The peers a node sees include the beacon of `p` at the strategy's level. */
  ghost predicate Sees(s: Strategy, peers: seq<Beacon>, p: Profile) {
    exists k :: 0 <= k < |peers| && peers[k] == BeaconOf(p, s.baseLevel)
  }

  lemma LeaderBeats(s: Strategy, me: Profile, peers: seq<Beacon>, p: Profile)
    requires s.hysteresis >= -1.0 && DetermineRole(s, me, peers).Leader? && Sees(s, peers, p)
    ensures ProfileScore(s.weights, me) >= Threshold(ProfileScore(s.weights, p), s.hysteresis)
  {
    hide DetermineRole, ProfileScore, BeaconScore, Threshold;
    var k :| 0 <= k < |peers| && peers[k] == BeaconOf(p, s.baseLevel);
    BeaconScoreIsProfileScore(s.weights, p, s.baseLevel);
    LeaderReachesAllIff(s, me, peers);
  }

  /** Two numbers cannot each exceed the other by a factor above one, unless neither is positive. */
  lemma BothExceed(a: real, b: real, h: real)
    requires h > 0.0 && a >= Threshold(b, h) && b >= Threshold(a, h)
    ensures a <= 0.0 && b <= 0.0
  {
    hide Threshold;
    GrowBy(a, h);
    GrowBy(b, h);
  }

  lemma GrowBy(x: real, h: real)
    requires h > 0.0
    ensures x > 0.0 ==> Threshold(x, h) > x
  {
    if x > 0.0 {
      ProductPositive(x, h);
      assert Threshold(x, h) == x + x * h;
    }
  }

  /** With any positive hysteresis, two nodes that see each other both lead only if neither has a positive score. */
  lemma MutualLeadersHaveNoScore(s: Strategy, a: Profile, b: Profile, peersOfA: seq<Beacon>, peersOfB: seq<Beacon>)
    requires s.hysteresis > 0.0 && Sees(s, peersOfA, b) && Sees(s, peersOfB, a)
    requires DetermineRole(s, a, peersOfA).Leader? && DetermineRole(s, b, peersOfB).Leader?
    ensures ProfileScore(s.weights, a) <= 0.0 && ProfileScore(s.weights, b) <= 0.0
  {
    hide DetermineRole, ProfileScore, Sees;
    LeaderBeats(s, a, peersOfA, b);
    LeaderBeats(s, b, peersOfB, a);
    BothExceed(ProfileScore(s.weights, a), ProfileScore(s.weights, b), s.hysteresis);
  }

  /** No two nodes that see each other both lead, whatever else each of them sees. */
  lemma AtMostOneOfTwoLeads(s: Strategy, a: Profile, b: Profile, peersOfA: seq<Beacon>, peersOfB: seq<Beacon>)
    requires s.hysteresis > 0.0 && Positive(s.weights) && Sane(a) && Sane(b)
    requires Sees(s, peersOfA, b) && Sees(s, peersOfB, a)
    ensures !(DetermineRole(s, a, peersOfA).Leader? && DetermineRole(s, b, peersOfB).Leader?)
  {
    hide DetermineRole, ProfileScore, Sees;
    ScoreIsPositive(s.weights, a);
    if DetermineRole(s, a, peersOfA).Leader? && DetermineRole(s, b, peersOfB).Leader? {
      MutualLeadersHaveNoScore(s, a, b, peersOfA, peersOfB);
    }
  }

  /** Every node of a group sees the beacon of every other. */
  ghost predicate Connected(s: Strategy, nodes: seq<Profile>, views: seq<seq<Beacon>>) {
    |views| == |nodes|
    && forall i, j :: 0 <= i < |nodes| && 0 <= j < |nodes| && i != j ==> Sees(s, views[i], nodes[j])
  }

  /** A connected group has at most one leader, and the leader's score beats every other by the hysteresis factor. */
  lemma ConnectedGroupHasOneLeader(s: Strategy, nodes: seq<Profile>, views: seq<seq<Beacon>>, i: nat, j: nat)
    requires s.hysteresis > 0.0 && Positive(s.weights)
    requires forall k :: 0 <= k < |nodes| ==> Sane(nodes[k])
    requires Connected(s, nodes, views) && i < |nodes| && j < |nodes| && i != j
    requires DetermineRole(s, nodes[i], views[i]).Leader?
    ensures !DetermineRole(s, nodes[j], views[j]).Leader?
    ensures ProfileScore(s.weights, nodes[i]) >= Threshold(ProfileScore(s.weights, nodes[j]), s.hysteresis)
  {
    hide DetermineRole, ProfileScore, Sees;
    AtMostOneOfTwoLeads(s, nodes[i], nodes[j], views[i], views[j]);
    LeaderBeats(s, nodes[i], views[i], nodes[j]);
  }

  /** Two identical nodes that see only each other both lead exactly when the hysteresis does not stand between them. */
  lemma TwinsBothLeadIff(s: Strategy, p: Profile)
    ensures DetermineRole(s, p, [BeaconOf(p, s.baseLevel)]).Leader? <==>
              s.hysteresis * ProfileScore(s.weights, p) <= 0.0
  {
    hide ProfileScore, BeaconScore;
    OnePeer(s, p);
    var x := ProfileScore(s.weights, p);
    assert Threshold(x, s.hysteresis) == x + s.hysteresis * x;
  }

  /** No two sane nodes that see each other ever both lead, whatever else they see. */
  ghost predicate NeverTwoLeaders(s: Strategy) {
    forall a: Profile, b: Profile, peersOfA: seq<Beacon>, peersOfB: seq<Beacon> ::
      Sane(a) && Sane(b) && Sees(s, peersOfA, b) && Sees(s, peersOfB, a) ==>
        !(DetermineRole(s, a, peersOfA).Leader? && DetermineRole(s, b, peersOfB).Leader?)
  }

  /** With positive weights, the rule of one leader holds exactly when the hysteresis is positive. */
  lemma NeverTwoLeadersIff(s: Strategy)
    requires Positive(s.weights)
    ensures NeverTwoLeaders(s) <==> s.hysteresis > 0.0
  {
    hide DetermineRole, ProfileScore, Sees, Sane;
    if s.hysteresis > 0.0 {
      forall a: Profile, b: Profile, peersOfA: seq<Beacon>, peersOfB: seq<Beacon>
        | Sane(a) && Sane(b) && Sees(s, peersOfA, b) && Sees(s, peersOfB, a)
        ensures !(DetermineRole(s, a, peersOfA).Leader? && DetermineRole(s, b, peersOfB).Leader?)
      {
        AtMostOneOfTwoLeads(s, a, b, peersOfA, peersOfB);
      }
    } else {
      IdleTwins(s);
    }
  }

  const IDLE := Profile(Static, Resources(0, 0, None), false, 0)

  lemma IdleTwins(s: Strategy)
    requires Positive(s.weights) && s.hysteresis <= 0.0
    ensures var peers := [BeaconOf(IDLE, s.baseLevel)];
            Sane(IDLE) && Sees(s, peers, IDLE) && DetermineRole(s, IDLE, peers).Leader?
  {
    hide DetermineRole, ProfileScore;
    assert [BeaconOf(IDLE, s.baseLevel)][0] == BeaconOf(IDLE, s.baseLevel);
    TwinsBothLeadIff(s, IDLE);
    ScoreIsPositive(s.weights, IDLE);
    ProductNonNegative(-s.hysteresis, ProfileScore(s.weights, IDLE));
  }

  /** Without hysteresis, any two identical nodes that see only each other both lead. */
  lemma TwinsWithoutHysteresis(s: Strategy, p: Profile)
    requires s.hysteresis == 0.0
    ensures DetermineRole(s, p, [BeaconOf(p, s.baseLevel)]).Leader?
  {
    hide DetermineRole, ProfileScore;
    TwinsBothLeadIff(s, p);
  }
}
