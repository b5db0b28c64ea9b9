/**
 Bandwidth allocation (src/qos/bandwidth.rs): one token bucket for the link and
 one usage window per class, over exact reals and an explicit clock.
 */
module Bandwidth {
  import opened Arithmetic
  import opened Qos

  function Min(a: real, b: real): real { if a <= b then a else b }

  function Max(a: real, b: real): real { if a >= b then a else b }

  /** Time since `since`, never negative. */
  function Elapsed(since: real, now: real): real { Max(0.0, now - since) }

  /** What flows at a rate in a time. */
  function Flow(rate: real, time: real): real { time * rate }

  lemma FlowMonotone(rate: real, a: real, b: real)
    requires rate >= 0.0 && a <= b
    ensures Flow(rate, a) <= Flow(rate, b)
    ensures a >= 0.0 ==> Flow(rate, a) >= 0.0
  {
    RealMulMonotone(a, b, rate);
  }

  lemma FlowAdds(rate: real, a: real, b: real)
    ensures Flow(rate, a + b) == Flow(rate, a) + Flow(rate, b)
  {
  }

  // --- The token bucket ---

  datatype Bucket = Bucket(tokens: real, capacity: real, rate: real, last: real) {
    predicate Valid() {
      0.0 <= tokens <= capacity && rate >= 0.0
    }

    /** The clock is read twice: `t1` measures the refill, `t2` is remembered. */
    function Refill(t1: real, t2: real): Bucket {
      var elapsed := Elapsed(last, t1);
      if elapsed > 0.0 then this.(tokens := Min(tokens + Flow(rate, elapsed), capacity), last := t2) else this
    }

    function TryConsume(bits: nat, t1: real, t2: real): (Bucket, bool) {
      var b := Refill(t1, t2);
      if b.tokens >= bits as real then (b.(tokens := b.tokens - bits as real), true) else (b, false)
    }
  }

  class TokenBucket {
    var tokens: real
    const capacity: real
    const refillRate: real
    var lastRefill: real

    function View(): Bucket
      reads this
    {
      Bucket(tokens, capacity, refillRate, lastRefill)
    }

    constructor (capacityBps: nat, now: real)
      ensures View() == Bucket(capacityBps as real, capacityBps as real, capacityBps as real, now)
      ensures View().Valid()
    {
      tokens, capacity, refillRate := capacityBps as real, capacityBps as real, capacityBps as real;
      lastRefill := now;
    }

    method Refill(t1: real, t2: real)
      modifies this
      ensures View() == old(View()).Refill(t1, t2)
    {
      var elapsed := Elapsed(lastRefill, t1);
      if elapsed > 0.0 {
        var newTokens := Flow(refillRate, elapsed);
        tokens := Min(tokens + newTokens, capacity);
        lastRefill := t2;
      }
    }

    method TryConsume(bits: nat, t1: real, t2: real) returns (granted: bool)
      modifies this
      ensures (View(), granted) == old(View()).TryConsume(bits, t1, t2)
    {
      Refill(t1, t2);
      if tokens >= bits as real {
        tokens := tokens - bits as real;
        return true;
      }
      return false;
    }
  }

  // --- The usage window of one class ---

  datatype Quota = Quota(burst: nat, usage: nat, consumed: nat, windowStart: real) {
    predicate CanTransmit(bytes: nat) {
      usage + bytes * 8 <= burst
    }

    predicate Resets(t1: real) {
      Elapsed(windowStart, t1) >= 1.0
    }

    /** The window restarts after a second and carries the request over; until then usage is an extrapolation. */
    function RecordUsage(bytes: nat, t1: real, t2: real): Quota {
      var total := consumed + bytes;
      if Resets(t1) then this.(consumed := bytes, usage := total * 8, windowStart := t2)
      else this.(consumed := total, usage := Extrapolate(total * 8, Elapsed(windowStart, t1)))
    }
  }

  /** Bits per second, had the bits taken `elapsed` seconds, and at least a millisecond. */
  function Extrapolate(bits: nat, elapsed: real): (bps: nat)
    requires 0.0 <= elapsed < 1.0
    ensures bps >= bits
  {
    var secs := Max(elapsed, 0.001);
    DividingGrows(bits as real, secs);
    (bits as real / secs).Floor
  }

  /** The extrapolated rate is the whole number that, over the time and at least a millisecond, just does not exceed the bits. */
  lemma ExtrapolateIsRate(bits: nat, elapsed: real)
    requires 0.0 <= elapsed < 1.0
    ensures var bps := Extrapolate(bits, elapsed);
            var secs := if elapsed >= 0.001 then elapsed else 0.001;
            bps as real * secs <= bits as real < (bps + 1) as real * secs
  {
    var secs := if elapsed >= 0.001 then elapsed else 0.001;
    var bps := Extrapolate(bits, elapsed);
    assert Max(elapsed, 0.001) == secs;
    AtLeastIff(bits as real, secs, bps);
    AtLeastIff(bits as real, secs, bps + 1);
  }

  /** A quotient rounded down reaches a whole number exactly when the dividend reaches its multiple. */
  lemma AtLeastIff(x: real, secs: real, k: int)
    requires secs > 0.0
    ensures (x / secs).Floor >= k <==> x >= k as real * secs
  {
    var y := x / secs;
    assert y * secs == x;
    assert y.Floor >= k <==> y >= k as real;
    if y >= k as real {
      RealMulMonotone(k as real, y, secs);
    } else {
      RealMulStrict(y, k as real, secs);
    }
  }

  lemma DividingGrows(x: real, secs: real)
    requires x >= 0.0 && 0.0 < secs <= 1.0
    ensures x / secs >= x
  {
    var rate := x / secs;
    assert rate * secs == x;
    if rate < 0.0 {
      RealMulMonotone(rate, 0.0, secs);
    } else {
      RealMulMonotone(secs, 1.0, rate);
    }
  }

  class BandwidthQuota {
    const minGuaranteedBps: nat
    const maxBurstBps: nat
    const preemptionEnabled: bool
    var currentUsageBps: nat
    var bytesConsumed: nat
    var windowStart: real

    function View(): Quota
      reads this
    {
      Quota(maxBurstBps, currentUsageBps, bytesConsumed, windowStart)
    }

    constructor (minGuaranteedBps: nat, maxBurstBps: nat, preemptionEnabled: bool, now: real)
      ensures View() == Quota(maxBurstBps, 0, 0, now)
      ensures this.minGuaranteedBps == minGuaranteedBps && this.preemptionEnabled == preemptionEnabled
    {
      this.minGuaranteedBps, this.maxBurstBps := minGuaranteedBps, maxBurstBps;
      this.preemptionEnabled := preemptionEnabled;
      currentUsageBps, bytesConsumed, windowStart := 0, 0, now;
    }

    method RecordUsage(bytes: nat, t1: real, t2: real)
      modifies this
      ensures View() == old(View()).RecordUsage(bytes, t1, t2)
    {
      bytesConsumed := bytesConsumed + bytes;
      var elapsed := Elapsed(windowStart, t1);
      if elapsed >= 1.0 {
        var bytesInWindow := bytesConsumed;
        bytesConsumed := bytes;
        currentUsageBps := bytesInWindow * 8;
        windowStart := t2;
      } else {
        currentUsageBps := Extrapolate(bytesConsumed * 8, elapsed);
      }
    }
  }

  // --- The allocation ---

  datatype Allocation = Allocation(quotas: map<QoSClass, Quota>, bucket: Bucket, permits: nat)

  /** A call of `acquire_async`: the window reads the clock at t1 and t2, the bucket at t3 and t4. */
  datatype Request = Request(cls: QoSClass, bytes: nat, t1: real, t2: real, t3: real, t4: real) {
    predicate Ordered() {
      t1 <= t2 <= t3 <= t4
    }
  }

  predicate Admits(a: Allocation, r: Request) {
    r.cls in a.quotas && a.quotas[r.cls].CanTransmit(r.bytes)
  }

  predicate Grants(a: Allocation, r: Request) {
    Admits(a, r) && a.bucket.TryConsume(r.bytes * 8, r.t3, r.t4).1
  }

  /** An admitted request is charged to its class even when the bucket then refuses it. */
  function Acquire(a: Allocation, r: Request): Allocation {
    if !Admits(a, r) then a
    else Allocation(
        a.quotas[r.cls := a.quotas[r.cls].RecordUsage(r.bytes, r.t1, r.t2)],
        a.bucket.TryConsume(r.bytes * 8, r.t3, r.t4).0,
        if Grants(a, r) then a.permits + 1 else a.permits)
  }

  const MAX_U64: nat := 0xffff_ffff_ffff_ffff

  function Drop(a: Allocation): Allocation {
    a.(permits := if a.permits == 0 then MAX_U64 else a.permits - 1)
  }

  function Percent(total: nat, percent: nat): nat { total * percent / 100 }

  /** The share of the link a class may burst to, in percent. */
  function BurstShare(c: QoSClass): nat {
    match c
    case Critical => 80
    case High => 60
    case Normal => 40
    case Low => 30
    case Bulk => 20
  }

  function NewAllocation(total: nat, now: real): Allocation {
    Allocation(
      map c: QoSClass :: Quota(Percent(total, BurstShare(c)), 0, 0, now),
      Bucket(total as real, total as real, total as real, now),
      0)
  }

  method FreshQuotas(total: nat, now: real) returns (quotas: map<QoSClass, BandwidthQuota>)
    ensures forall c :: c in quotas && fresh(quotas[c])
    ensures forall c :: quotas[c].View() == Quota(Percent(total, BurstShare(c)), 0, 0, now)
    ensures forall c, d :: c != d ==> quotas[c] != quotas[d]
  {
    hide Percent;
    var critical := new BandwidthQuota(Percent(total, 20), Percent(total, 80), true, now);
    var high := new BandwidthQuota(Percent(total, 30), Percent(total, 60), true, now);
    var normal := new BandwidthQuota(Percent(total, 20), Percent(total, 40), false, now);
    var low := new BandwidthQuota(Percent(total, 15), Percent(total, 30), false, now);
    var bulk := new BandwidthQuota(Percent(total, 5), Percent(total, 20), false, now);
    quotas := map[Critical := critical, High := high, Normal := normal, Low := low, Bulk := bulk];
    forall c ensures c in quotas {
      match c case Critical => case High => case Normal => case Low => case Bulk =>
    }
  }

  class BandwidthAllocation {
    const quotas: map<QoSClass, BandwidthQuota>
    const bucket: TokenBucket
    var activePermits: nat

    /** The quotas of different classes are different objects. */
    ghost predicate Valid() {
      forall c, d :: c in quotas && d in quotas && c != d ==> quotas[c] != quotas[d]
    }

    ghost function View(): Allocation
      reads this, bucket, set c | c in quotas :: quotas[c]
    {
      Allocation(map c | c in quotas :: quotas[c].View(), bucket.View(), activePermits)
    }

    constructor (total: nat, now: real)
      ensures Valid() && View() == NewAllocation(total, now)
    {
      var shares := FreshQuotas(total, now);
      quotas := shares;
      bucket := new TokenBucket(total, now);
      activePermits := 0;
    }

    method AcquireAsync(r: Request) returns (granted: bool)
      requires Valid()
      modifies this, bucket, set c | c in quotas :: quotas[c]
      ensures View() == Acquire(old(View()), r)
      ensures granted == Grants(old(View()), r)
    {
      if r.cls !in quotas {
        return false;
      }
      var quota := quotas[r.cls];
      if !(quota.currentUsageBps + r.bytes * 8 <= quota.maxBurstBps) {
        return false;
      }
      quota.RecordUsage(r.bytes, r.t1, r.t2);
      granted := bucket.TryConsume(r.bytes * 8, r.t3, r.t4);
      if granted {
        activePermits := activePermits + 1;
      }
    }

    /** Dropping a permit: an atomic subtraction, which wraps around at zero. */
    method Release()
      modifies this`activePermits
      ensures View() == Drop(old(View()))
    {
      activePermits := if activePermits == 0 then MAX_U64 else activePermits - 1;
    }
  }

  // --- Runs ---

  function Run(a: Allocation, rs: seq<Request>): Allocation
    decreases |rs|
  {
    if rs == [] then a else Run(Acquire(a, rs[0]), rs[1..])
  }

  /** The clock does not go back, within a call or from one to the next. */
  predicate Timed(from: real, rs: seq<Request>)
    decreases |rs|
  {
    rs == [] || (from <= rs[0].t1 && rs[0].Ordered() && Timed(rs[0].t4, rs[1..]))
  }

  /** The bits granted by the calls that consulted the bucket between the instants `s` and `t`. */
  function GrantedBetween(a: Allocation, rs: seq<Request>, s: real, t: real): nat
    decreases |rs|
  {
    if rs == [] then 0 else
      (if Grants(a, rs[0]) && s <= rs[0].t3 <= t then rs[0].bytes * 8 else 0)
      + GrantedBetween(Acquire(a, rs[0]), rs[1..], s, t)
  }

  /** What the bucket can still give out between `s` and `t`. */
  function Budget(b: Bucket, s: real, t: real): real {
    if b.last > t then 0.0
    else if b.last >= s then b.tokens + Flow(b.rate, t - b.last)
    else b.capacity + Flow(b.rate, t - s)
  }

  /** One refill and consumption spends no more than it takes off the budget. */
  lemma ConsumeSpendsBudget(b: Bucket, bits: nat, t1: real, t2: real, s: real, t: real)
    requires b.Valid() && b.last <= t1 <= t2 && s <= t
    ensures b.TryConsume(bits, t1, t2).0.Valid()
    ensures var b' := b.TryConsume(bits, t1, t2).0; b'.last <= t2 && b'.capacity == b.capacity && b'.rate == b.rate
    ensures var (b', granted) := b.TryConsume(bits, t1, t2);
            (if granted && s <= t1 <= t then bits as real else 0.0) + Budget(b', s, t) <= Budget(b, s, t)
  {
    hide Flow;
    RefillAdds(b, t1, t2);
    var b' := b.TryConsume(bits, t1, t2).0;
    BudgetBound(b, s, t);
    BudgetBound(b', s, t);
    if s <= t1 <= t {
      FlowAdds(b.rate, t1 - b.last, t - t1);
      FlowMonotone(b.rate, 0.0, t - t1);
      FlowMonotone(b.rate, t - t1, t - s);
      if b'.last <= t {
        FlowMonotone(b.rate, t - b'.last, t - t1);
      }
    }
  }

  /** A refill keeps the bucket within its capacity, adds at most what flowed in, and moves its clock. */
  lemma RefillAdds(b: Bucket, t1: real, t2: real)
    requires b.Valid() && b.last <= t1 <= t2
    ensures var b' := b.Refill(t1, t2);
            && b'.Valid() && b'.capacity == b.capacity && b'.rate == b.rate
            && b'.tokens <= b.tokens + Flow(b.rate, t1 - b.last)
            && t1 <= b'.last <= t2
  {
    hide Flow;
    FlowMonotone(b.rate, 0.0, t1 - b.last);
  }

  /** In every run the bits granted between two instants are at most one bucketful plus what the link refills in between. */
  lemma {:induction false} GrantedWithinRate(a: Allocation, rs: seq<Request>, s: real, t: real)
    requires a.bucket.Valid() && Timed(a.bucket.last, rs) && s <= t
    ensures Run(a, rs).bucket.Valid()
    ensures GrantedBetween(a, rs, s, t) as real <= Budget(a.bucket, s, t)
    ensures GrantedBetween(a, rs, s, t) as real <= a.bucket.capacity + Flow(a.bucket.rate, t - s)
    decreases |rs|
  {
    hide Flow, Budget, Bucket.Valid, Acquire, Grants;
    BudgetBound(a.bucket, s, t);
    if rs != [] {
      AcquireSpendsBudget(a, rs[0], s, t);
      TimedFrom(rs[0].t4, Acquire(a, rs[0]).bucket.last, rs[1..]);
      GrantedWithinRate(Acquire(a, rs[0]), rs[1..], s, t);
    }
  }

  lemma AcquireSpendsBudget(a: Allocation, r: Request, s: real, t: real)
    requires a.bucket.Valid() && a.bucket.last <= r.t1 && r.Ordered() && s <= t
    ensures var b' := Acquire(a, r).bucket;
            && b'.Valid() && b'.last <= r.t4 && b'.capacity == a.bucket.capacity && b'.rate == a.bucket.rate
            && (if Grants(a, r) && s <= r.t3 <= t then (r.bytes * 8) as real else 0.0) + Budget(b', s, t)
               <= Budget(a.bucket, s, t)
  {
    hide Budget, Bucket.TryConsume, Bucket.Valid;
    ConsumeSpendsBudget(a.bucket, r.bytes * 8, r.t3, r.t4, s, t);
  }

  lemma BudgetBound(b: Bucket, s: real, t: real)
    requires b.Valid() && s <= t
    ensures 0.0 <= Budget(b, s, t) <= b.capacity + Flow(b.rate, t - s)
  {
    hide Flow;
    FlowMonotone(b.rate, 0.0, t - s);
    if s <= b.last <= t {
      FlowMonotone(b.rate, 0.0, t - b.last);
      FlowMonotone(b.rate, t - b.last, t - s);
    }
  }

  lemma TimedFrom(from: real, earlier: real, rs: seq<Request>)
    requires Timed(from, rs) && earlier <= from
    ensures Timed(earlier, rs)
  {
  }

  /** A request is ever granted exactly when it fits the bucket, and then once the missing bits have flowed in. */
  lemma GrantedAfterWaiting(b: Bucket, bits: nat, t1: real, t2: real)
    requires b.Valid() && b.rate > 0.0
    ensures bits as real > b.capacity ==> !b.TryConsume(bits, t1, t2).1
    ensures bits as real <= b.capacity && t1 >= b.last + Max(0.0, bits as real - b.tokens) / b.rate ==>
              b.TryConsume(bits, t1, t2).1
  {
    var missing := Max(0.0, bits as real - b.tokens);
    if bits as real <= b.capacity && t1 >= b.last + missing / b.rate {
      assert missing / b.rate * b.rate == missing;
      FlowMonotone(b.rate, missing / b.rate, Elapsed(b.last, t1));
    }
  }

  // --- The burst bound of a class ---

  /** Recorded usage covers what the window was charged, which fits the burst. */
  predicate Covered(q: Quota) {
    q.consumed * 8 <= q.usage && q.consumed * 8 <= q.burst
  }

  ghost predicate AllCovered(a: Allocation) {
    forall c :: c in a.quotas ==> Covered(a.quotas[c])
  }

  lemma RecordStaysCovered(q: Quota, bytes: nat, t1: real, t2: real)
    requires Covered(q) && q.CanTransmit(bytes)
    ensures Covered(q.RecordUsage(bytes, t1, t2))
  {
  }

  /** When the window of class `c` last restarted in a run: at the second clock reading of an admitted request made a second or more after the time before. */
  function RestartedAt(a: Allocation, rs: seq<Request>, c: QoSClass): real
    requires c in a.quotas
  {
    if rs == [] then a.quotas[c].windowStart else
      var n := |rs| - 1;
      var start, r := RestartedAt(a, rs[..n], c), rs[n];
      if r.cls == c && Admits(Run(a, rs[..n]), r) && r.t1 - start >= 1.0 then r.t2 else start
  }

  /** The bytes of class `c` charged in a run since its window last restarted, with the request that restarted it. */
  function WindowBytes(a: Allocation, rs: seq<Request>, c: QoSClass): nat
    requires c in a.quotas
  {
    if rs == [] then a.quotas[c].consumed else
      var n := |rs| - 1;
      var r := rs[n];
      if r.cls != c || !Admits(Run(a, rs[..n]), r) then WindowBytes(a, rs[..n], c)
      else if r.t1 - RestartedAt(a, rs[..n], c) >= 1.0 then r.bytes
      else WindowBytes(a, rs[..n], c) + r.bytes
  }

  lemma {:induction false} RunSnoc(a: Allocation, rs: seq<Request>, r: Request)
    ensures Run(a, rs + [r]) == Acquire(Run(a, rs), r)
    decreases |rs|
  {
    if rs == [] {
      assert [] + [r] == [r] && [r][1..] == [];
    } else {
      assert (rs + [r])[1..] == rs[1..] + [r];
      RunSnoc(Acquire(a, rs[0]), rs[1..], r);
    }
  }

  /** In every run, the bits charged to a class in its current window never exceed its burst. */
  lemma {:induction false} WindowWithinBurst(a: Allocation, rs: seq<Request>, c: QoSClass)
    requires AllCovered(a) && c in a.quotas
    ensures AllCovered(Run(a, rs)) && Run(a, rs).quotas.Keys == a.quotas.Keys
    ensures Run(a, rs).quotas[c].burst == a.quotas[c].burst
    ensures Run(a, rs).quotas[c].consumed == WindowBytes(a, rs, c)
    ensures Run(a, rs).quotas[c].windowStart == RestartedAt(a, rs, c)
    ensures WindowBytes(a, rs, c) * 8 <= a.quotas[c].burst
    decreases |rs|
  {
    hide Extrapolate, Run, Bucket.TryConsume;
    if rs == [] {
      RunNothing(a);
    } else {
      var n := |rs| - 1;
      var before, r := Run(a, rs[..n]), rs[n];
      WindowWithinBurst(a, rs[..n], c);
      assert rs == rs[..n] + [r];
      RunSnoc(a, rs[..n], r);
      if Admits(before, r) {
        RecordStaysCovered(before.quotas[r.cls], r.bytes, r.t1, r.t2);
      }
    }
  }

  /** The bucket refills its capacity every second, and no class may burst beyond it. */
  ghost predicate Sized(a: Allocation) {
    && a.bucket.Valid() && a.bucket.rate == a.bucket.capacity
    && forall c :: c in a.quotas ==> a.quotas[c].burst as real <= a.bucket.capacity
  }

  /** What the constructor builds is where the laws of every run start from. */
  lemma FreshAllocation(total: nat, now: real)
    ensures var a := NewAllocation(total, now);
            a.bucket.Valid() && a.bucket.last == now && AllCovered(a) && Sized(a) && a.permits == 0
  {
    var a := NewAllocation(total, now);
    forall c | c in a.quotas ensures Covered(a.quotas[c]) && a.quotas[c].burst <= total {
      ShareFits(total, BurstShare(c));
    }
  }

  lemma ShareFits(total: nat, percent: nat)
    requires percent <= 100
    ensures Percent(total, percent) <= total
  {
    assert total * percent <= total * 100;
  }

  lemma {:induction false} RunKeepsSized(a: Allocation, rs: seq<Request>)
    requires Sized(a)
    ensures Sized(Run(a, rs)) && Run(a, rs).quotas.Keys == a.quotas.Keys
    decreases |rs|
  {
    hide Sized;
    if rs != [] {
      AcquireKeepsSized(a, rs[0]);
      RunKeepsSized(Acquire(a, rs[0]), rs[1..]);
    }
  }

  lemma AcquireKeepsSized(a: Allocation, r: Request)
    requires Sized(a)
    ensures Sized(Acquire(a, r)) && Acquire(a, r).quotas.Keys == a.quotas.Keys
  {
    hide Flow;
    FlowMonotone(a.bucket.rate, 0.0, Elapsed(a.bucket.last, r.t3));
  }

  // --- Starvation ---

  /** The run asks for at least `m` bytes whenever it asks for class `c`. */
  predicate AtLeast(rs: seq<Request>, c: QoSClass, m: nat) {
    forall k :: 0 <= k < |rs| && rs[k].cls == c ==> rs[k].bytes >= m
  }

  /** No request of class `c` for `m` bytes or more is ever granted, in any run of such requests and any others. */
  ghost predicate RefusedForever(a: Allocation, c: QoSClass, m: nat) {
    forall rs: seq<Request>, r: Request ::
      Timed(a.bucket.last, rs + [r]) && AtLeast(rs + [r], c, m) && r.cls == c ==> !Grants(Run(a, rs), r)
  }

  /** A class too full for `m` more bytes keeps its recorded usage in every run: nothing admitted, nothing refreshed. */
  lemma {:induction false} FullStaysFull(a: Allocation, rs: seq<Request>, c: QoSClass, m: nat)
    requires c in a.quotas && !a.quotas[c].CanTransmit(m) && AtLeast(rs, c, m)
    ensures c in Run(a, rs).quotas && Run(a, rs).quotas[c] == a.quotas[c]
    decreases |rs|
  {
    if rs != [] {
      assert rs[0].cls == c ==> rs[0].bytes >= m;
      FullStaysFull(Acquire(a, rs[0]), rs[1..], c, m);
    }
  }

  /** A class is refused `m` bytes or more for ever exactly when they do not fit its recorded usage now. */
  lemma RefusedForeverIff(a: Allocation, c: QoSClass, m: nat)
    requires Sized(a) && c in a.quotas
    ensures RefusedForever(a, c, m) <==> a.quotas[c].usage + 8 * m > a.quotas[c].burst
  {
    hide Run;
    if a.quotas[c].CanTransmit(m) {
      var r := GrantedRequest(a, c, m);
      assert [] + [r] == [r];
      assert Timed(a.bucket.last, [] + [r]) && AtLeast([] + [r], c, m);
      RunNothing(a);
      assert Grants(Run(a, []), r);
    } else {
      forall rs: seq<Request>, r: Request | AtLeast(rs + [r], c, m) && r.cls == c ensures !Grants(Run(a, rs), r) {
        assert (rs + [r])[|rs|] == r;
        assert forall k :: 0 <= k < |rs| ==> (rs + [r])[k] == rs[k];
        FullStaysFull(a, rs, c, m);
      }
    }
  }

  lemma RunNothing(a: Allocation)
    ensures Run(a, []) == a
  {
  }

  /** What fits the class is granted to a request made late enough. */
  lemma GrantedRequest(a: Allocation, c: QoSClass, m: nat) returns (r: Request)
    requires Sized(a) && c in a.quotas && a.quotas[c].CanTransmit(m)
    ensures r.cls == c && r.bytes == m && Grants(a, r) && Timed(a.bucket.last, [r])
  {
    hide Bucket.TryConsume;
    var b, bits := a.bucket, m * 8;
    var t := if b.rate > 0.0 then b.last + Max(0.0, bits as real - b.tokens) / b.rate else b.last;
    r := Request(c, m, t, t, t, t);
    if b.rate > 0.0 {
      QuotientNonNegative(Max(0.0, bits as real - b.tokens), b.rate);
      GrantedAfterWaiting(b, bits, t, t);
    } else {
      NothingNeedsNoWait(b, t);
    }
  }

  lemma NothingNeedsNoWait(b: Bucket, t: real)
    requires b.Valid() && b.rate == 0.0
    ensures b.TryConsume(0, t, t).1
  {
  }

  /**
   An admitted request closes its class to `m` bytes or more, for ever, exactly when the
   bits of its window leave no room for them: as they are when a second has passed, and
   otherwise per second of the time passed, at least a millisecond.
   */
  lemma RequestStarvesIff(a: Allocation, r: Request, m: nat)
    requires Sized(a) && Admits(a, r)
    ensures var q := a.quotas[r.cls];
            var bits, elapsed := (q.consumed + r.bytes) * 8, r.t1 - q.windowStart;
            RefusedForever(Acquire(a, r), r.cls, m) <==>
              if elapsed >= 1.0 then bits + 8 * m > q.burst
              else bits as real >= (q.burst + 1 - 8 * m) as real * (if elapsed >= 0.001 then elapsed else 0.001)
  {
    hide RefusedForever, Sized;
    AcquireKeepsSized(a, r);
    RefusedForeverIff(Acquire(a, r), r.cls, m);
    var q := a.quotas[r.cls];
    var elapsed := r.t1 - q.windowStart;
    if elapsed < 1.0 {
      AtLeastIff(((q.consumed + r.bytes) * 8) as real, if elapsed >= 0.001 then elapsed else 0.001, q.burst + 1 - 8 * m);
    }
  }

  /** A thousand bulk bytes half a second into the window count sixteen kilobits, and a thousand more are admitted. */
  lemma HalfSecondLeavesRoom()
    ensures var first := Request(Bulk, 1000, 0.5, 0.5, 0.5, 0.5);
            var after := Acquire(NewAllocation(1_000_000, 0.0), first);
            after.quotas[Bulk].usage == 16_000 && Admits(after, first)
  {
    var a := NewAllocation(1_000_000, 0.0);
    assert a.quotas[Bulk] == Quota(200_000, 0, 0, 0.0);
    assert Extrapolate(8000, 0.5) == 16_000;
  }

  /** What each class may burst to, of every hundred bits of the link. */
  lemma BurstShares(k: nat, now: real)
    ensures var quotas := NewAllocation(100 * k, now).quotas;
            && quotas[Critical].burst == 80 * k && quotas[High].burst == 60 * k && quotas[Normal].burst == 40 * k
            && quotas[Low].burst == 30 * k && quotas[Bulk].burst == 20 * k
  {
    assert 100 * k * 80 == 80 * k * 100 && 100 * k * 60 == 60 * k * 100 && 100 * k * 40 == 40 * k * 100;
    assert 100 * k * 30 == 30 * k * 100 && 100 * k * 20 == 20 * k * 100;
  }

  /** On the one-megabit link, one thousand bulk bytes at the start are granted and close the bulk class for good. */
  lemma FirstBulkRequestStarves(now: real)
    ensures var first := Request(Bulk, 1000, now, now, now, now);
            var a := NewAllocation(1_000_000, now);
            Grants(a, first) && RefusedForever(Acquire(a, first), Bulk, 0)
  {
    hide RefusedForever;
    FirstBulkRequest(now, 1000, 0);
  }

  /** Twenty-five bulk bytes at the start close it to every request that is not empty. */
  lemma SmallBulkRequestStarves(now: real)
    ensures var first := Request(Bulk, 25, now, now, now, now);
            var a := NewAllocation(1_000_000, now);
            && Grants(a, first)
            && RefusedForever(Acquire(a, first), Bulk, 1) && !RefusedForever(Acquire(a, first), Bulk, 0)
  {
    hide RefusedForever;
    FirstBulkRequest(now, 25, 0);
    FirstBulkRequest(now, 25, 1);
  }

  lemma FirstBulkRequest(now: real, bytes: nat, m: nat)
    requires bytes <= 25_000
    ensures var first := Request(Bulk, bytes, now, now, now, now);
            var a := NewAllocation(1_000_000, now);
            Grants(a, first) && (RefusedForever(Acquire(a, first), Bulk, m) <==> 8000 * bytes + 8 * m > 200_000)
  {
    hide RefusedForever, Sized;
    var first := Request(Bulk, bytes, now, now, now, now);
    var a := NewAllocation(1_000_000, now);
    FreshAllocation(1_000_000, now);
    assert a.quotas[Bulk] == Quota(200_000, 0, 0, now);
    assert Extrapolate(bytes * 8, 0.0) == bytes * 8000;
    RequestStarvesIff(a, first, m);
  }

  // --- Permits ---

  /** Acquiring, or dropping the permit that step `k` was granted. */
  datatype PermitOp = Acquires(r: Request) | Drops(k: nat)

  /** The allocation, and the steps whose permits are still held. */
  function PermitRun(a: Allocation, ops: seq<PermitOp>): (Allocation, set<nat>) {
    if ops == [] then (a, {}) else
      var n := |ops| - 1;
      var (before, held) := PermitRun(a, ops[..n]);
      match ops[n]
      case Acquires(r) => (Acquire(before, r), if Grants(before, r) then held + {n} else held)
      case Drops(k) => (Drop(before), held - {k})
  }

  /** A permit is dropped by its owner, so only while it is held. */
  predicate Owned(a: Allocation, ops: seq<PermitOp>) {
    ops == [] ||
    (var n := |ops| - 1;
     && Owned(a, ops[..n])
     && (ops[n].Drops? ==> ops[n].k in PermitRun(a, ops[..n]).1))
  }

  function CountGranted(a: Allocation, ops: seq<PermitOp>): nat {
    if ops == [] then 0 else
      var n := |ops| - 1;
      CountGranted(a, ops[..n])
      + if ops[n].Acquires? && Grants(PermitRun(a, ops[..n]).0, ops[n].r) then 1 else 0
  }

  function CountDropped(ops: seq<PermitOp>): nat {
    if ops == [] then 0 else CountDropped(ops[..|ops| - 1]) + if ops[|ops| - 1].Drops? then 1 else 0
  }

  /** In every run the permit count is the number of permits held, granted less dropped, so a drop never wraps around. */
  lemma {:induction false} PermitsCountHeld(a: Allocation, ops: seq<PermitOp>)
    requires a.permits == 0 && Owned(a, ops)
    ensures var (after, held) := PermitRun(a, ops);
            && after.permits == |held| == CountGranted(a, ops) - CountDropped(ops)
            && (forall k :: k in held ==> k < |ops|)
    ensures ops != [] && ops[|ops| - 1].Drops? ==> PermitRun(a, ops[..|ops| - 1]).0.permits > 0
  {
    hide Grants, Admits;
    if ops != [] {
      var n := |ops| - 1;
      PermitsCountHeld(a, ops[..n]);
      var (before, held) := PermitRun(a, ops[..n]);
      if ops[n].Drops? {
        assert |held - {ops[n].k}| == |held| - 1;
      } else {
        assert n !in held;
        RefusedKeepsPermits(before, ops[n].r);
      }
    }
  }

  lemma RefusedKeepsPermits(a: Allocation, r: Request)
    ensures Acquire(a, r).permits == a.permits + if Grants(a, r) then 1 else 0
  {
  }
}
