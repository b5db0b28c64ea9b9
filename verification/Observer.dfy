/**
 The beacon observer (src/beacon/observer.rs): the test for a nearby geohash and
 the cache of nearby beacons that change events keep up to date.
 */
module Observer {
  import opened Wrappers
  import opened Arithmetic
  import opened Morton
  import opened Geohash
  import opened GeohashCells
  import opened GeohashLaws

  // --- Same or adjacent cell ---

  /** `other` names the same cell as `mine` or one of its eight neighbours. */
  ghost predicate Nearby(mine: string, other: string) {
    mine == other || exists d: Direction :: Neighbor(mine, d) == Ok(other)
  }

  const DIRECTIONS: seq<Direction> := [N, NE, E, SE, S, SW, W, NW]

  method IsNearbyGeohash(mine: string, other: string) returns (nearby: bool)
    ensures nearby == Nearby(mine, other)
  {
    hide Neighbor;
    if mine == other {
      return true;
    }
    for k := 0 to |DIRECTIONS|
      invariant forall j :: 0 <= j < k ==> Neighbor(mine, DIRECTIONS[j]) != Ok(other)
    {
      var neighbor := Neighbor(mine, DIRECTIONS[k]);
      if neighbor == Ok(other) {
        return true;
      }
    }
    forall d: Direction ensures Neighbor(mine, d) != Ok(other) {
      AllDirections(d);
    }
    return false;
  }

  lemma AllDirections(d: Direction)
    ensures exists k :: 0 <= k < |DIRECTIONS| && DIRECTIONS[k] == d
  {
    var i := match d case N => 0 case NE => 1 case E => 2 case SE => 3 case S => 4 case SW => 5 case W => 6 case NW => 7;
    assert DIRECTIONS[i] == d;
  }

  /** Two different hashes are nearby exactly when they name cells of one grid that touch on the torus. */
  lemma NearbyIffTouching(a: string, b: string)
    ensures Nearby(a, b) <==>
              || a == b
              || (&& ValidHash(a) && ValidHash(b) && |a| == |b|
                  && exists dlat: int, dlon: int ::
                       && -1 <= dlat <= 1 && -1 <= dlon <= 1
                       && CellOf(b) == Translate(CellOf(a), dlat, dlon, |a|))
  {
    hide Neighbor, CellOf, HashOf, Pow2, AllDigits;
    if a != b {
      if d: Direction :| Neighbor(a, d) == Ok(b) {
        var (dlat, dlon) := d.ToTuple();
        NeighborTranslates(a, d);
        HashCellBijection(b, Translate(CellOf(a), dlat, dlon, |a|), |a|);
        assert CellOf(b) == Translate(CellOf(a), dlat, dlon, |a|);
      }
      if ValidHash(a) && ValidHash(b) && |a| == |b| {
        if dlat: int, dlon: int :|
            -1 <= dlat <= 1 && -1 <= dlon <= 1 && CellOf(b) == Translate(CellOf(a), dlat, dlon, |a|) {
          CellOfHash(a);
          CellOfHash(b);
          TranslateZero(CellOf(a), |a|);
          var d := DirectionOf(dlat, dlon);
          NeighborTranslates(a, d);
        }
      }
    }
  }

  function DirectionOf(dlat: int, dlon: int): (d: Direction)
    requires -1 <= dlat <= 1 && -1 <= dlon <= 1
    requires dlat != 0 || dlon != 0
    ensures d.ToTuple() == (dlat, dlon)
  {
    if dlat == -1 then (if dlon == -1 then SW else if dlon == 0 then S else SE)
    else if dlat == 0 then (if dlon == -1 then W else E)
    else (if dlon == -1 then NW else if dlon == 0 then N else NE)
  }

  /** Being nearby is mutual, for any two strings whatever. */
  lemma NearbySymmetric(a: string, b: string)
    ensures Nearby(a, b) <==> Nearby(b, a)
  {
    if Nearby(a, b) { NearbyMutual(a, b); }
    if Nearby(b, a) { NearbyMutual(b, a); }
  }

  lemma NearbyMutual(a: string, b: string)
    requires Nearby(a, b)
    ensures Nearby(b, a)
  {
    hide Neighbor;
    if a != b {
      var d: Direction :| Neighbor(a, d) == Ok(b);
      NeighborTranslates(a, d);
      NeighborOpposite(a, d);
      assert Neighbor(b, d.Opposite()) == Ok(a);
    }
  }

  // --- The cache of nearby beacons ---

  datatype Beacon = Beacon(nodeId: string, geohash: string, timestamp: nat)

  datatype ChangeEvent =
    | Inserted(beacon: Beacon)
    | Updated(beacon: Beacon)
    | Removed(nodeId: string)
  {
    predicate Upsert() { Inserted? || Updated? }

    function Subject(): string {
      if Removed? then nodeId else beacon.nodeId
    }
  }

  type Beacons = map<string, Beacon>

  /** The observer's cache after one event. */
  ghost function Observe(mine: string, cache: Beacons, e: ChangeEvent): Beacons {
    if e.Upsert() then
      if Nearby(mine, e.beacon.geohash) then cache[e.beacon.nodeId := e.beacon] else cache
    else cache - {e.nodeId}
  }

  class BeaconObserver {
    const myGeohash: string
    var nearbyBeacons: Beacons

    constructor (myGeohash: string)
      ensures this.myGeohash == myGeohash && nearbyBeacons == map[]
    {
      this.myGeohash := myGeohash;
      nearbyBeacons := map[];
    }

    method HandleEvent(e: ChangeEvent)
      modifies this
      ensures nearbyBeacons == Observe(myGeohash, old(nearbyBeacons), e)
    {
      match e {
        case Removed(id) =>
          nearbyBeacons := nearbyBeacons - {id};
        case _ =>
          var nearby := IsNearbyGeohash(myGeohash, e.beacon.geohash);
          if nearby {
            nearbyBeacons := nearbyBeacons[e.beacon.nodeId := e.beacon];
          }
      }
    }
  }

  ghost function ObserveAll(mine: string, events: seq<ChangeEvent>): Beacons {
    if events == [] then map[]
    else Observe(mine, ObserveAll(mine, events[..|events| - 1]), events[|events| - 1])
  }

  /** The latest beacon of a node that was nearby when reported, unless the node was removed since. */
  ghost function LastNearby(mine: string, events: seq<ChangeEvent>, id: string): Option<Beacon> {
    if events == [] then None else
      var e := events[|events| - 1];
      if e.Subject() != id then LastNearby(mine, events[..|events| - 1], id)
      else if e.Removed? then None
      else if Nearby(mine, e.beacon.geohash) then Some(e.beacon)
      else LastNearby(mine, events[..|events| - 1], id)
  }

  /** After any run of events the cache holds, node by node, the last beacon that was nearby. */
  lemma {:induction false} CacheIsLastNearby(mine: string, events: seq<ChangeEvent>, id: string)
    ensures LastNearby(mine, events, id)
         == if id in ObserveAll(mine, events) then Some(ObserveAll(mine, events)[id]) else None
  {
    hide Nearby;
    if events != [] {
      CacheIsLastNearby(mine, events[..|events| - 1], id);
    }
  }

  /** The current beacon of every node. */
  function World(beacons: Beacons, e: ChangeEvent): Beacons {
    if e.Upsert() then beacons[e.beacon.nodeId := e.beacon] else beacons - {e.nodeId}
  }

  /** The cache holds exactly the current beacons that are nearby. */
  ghost predicate Exact(mine: string, cache: Beacons, world: Beacons) {
    forall id :: (id in cache <==> id in world && Nearby(mine, world[id].geohash))
              && (id in cache ==> cache[id] == world[id])
  }

  /** A node that moves out of range stays in the cache: that, and nothing else, makes an exact cache inexact. */
  lemma ExactIffNoDeparture(mine: string, cache: Beacons, world: Beacons, e: ChangeEvent)
    requires Exact(mine, cache, world)
    ensures Exact(mine, Observe(mine, cache, e), World(world, e)) <==>
              !(e.Upsert() && !Nearby(mine, e.beacon.geohash) && e.beacon.nodeId in cache)
  {
    hide Nearby;
    var cache', world' := Observe(mine, cache, e), World(world, e);
    if e.Upsert() && !Nearby(mine, e.beacon.geohash) {
      var id := e.beacon.nodeId;
      assert world'[id] == e.beacon;
      assert id in cache' <==> id in cache;
    }
  }

  /** A node at "s" seen from there, then reported at "2": the cache still shows the first report. */
  lemma DepartureLeavesStaleBeacon(id: string)
    ensures var near, far := Beacon(id, "s", 0), Beacon(id, "2", 1);
            var events := [Inserted(near), Updated(far)];
            && !Nearby("s", far.geohash)
            && id in ObserveAll("s", events) && ObserveAll("s", events)[id] == near
  {
    var near, far := Beacon(id, "s", 0), Beacon(id, "2", 1);
    var events := [Inserted(near), Updated(far)];
    NotNearby();
    assert events[..1] == [Inserted(near)] && events[..1][..0] == [];
    assert ObserveAll("s", events[..1]) == map[id := near];
  }

  lemma NotNearby()
    ensures !Nearby("s", "2")
  {
    hide Nearby, CellOf, AllDigits, Around;
    FarCells();
    NearbyIffTouching("s", "2");
    forall dlat: int, dlon: int | -1 <= dlat <= 1 && -1 <= dlon <= 1
      ensures CellOf("2") != Translate(CellOf("s"), dlat, dlon, 1)
    {
      NotAround(dlon);
    }
  }

  lemma FarCells()
    ensures AllDigits("s") && CellOf("s").col == 4 && AllDigits("2") && CellOf("2").col == 0 && Cols(1) == 8
  {
    assert CodeOf("s") == 24 && CodeOf("2") == 2;
    assert EvenBits(24) == 4 && EvenBits(2) == 0;
  }

  lemma NotAround(d: int)
    requires -1 <= d <= 1
    ensures Around(4 + d, 8) != 0
  {
  }
}
