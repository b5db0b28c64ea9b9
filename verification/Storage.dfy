/**
 QoS-aware storage (src/qos/storage.rs): the tracked documents, the byte counter
 beside them, and the choice of documents to evict. One clock value per call.
 */
module Storage {
  import opened Arithmetic
  import opened Wrappers
  import opened Qos
  import opened Retention

  type DocId = string

  datatype Document = Document(
    docId: DocId, cls: QoSClass, size: nat, storedAt: nat, lastAccessed: nat, protected: bool, compressed: bool)

  type Documents = map<DocId, Document>

  // --- The bytes tracked ---

  ghost function TotalBytes(docs: Documents): nat {
    if docs == map[] then 0 else
      var id :| id in docs;
      docs[id].size + TotalBytes(docs - {id})
  }

  lemma {:induction false} TotalSplit(docs: Documents, id: DocId)
    requires id in docs
    ensures TotalBytes(docs) == docs[id].size + TotalBytes(docs - {id})
    decreases |docs|
  {
    var first :| first in docs && TotalBytes(docs) == docs[first].size + TotalBytes(docs - {first});
    if first != id {
      assert docs - {first} - {id} == docs - {id} - {first};
      assert |(docs - {first}).Keys| < |docs.Keys| by { assert (docs - {first}).Keys == docs.Keys - {first}; }
      assert |(docs - {id}).Keys| < |docs.Keys| by { assert (docs - {id}).Keys == docs.Keys - {id}; }
      TotalSplit(docs - {first}, id);
      TotalSplit(docs - {id}, first);
    }
  }

  lemma TotalPut(docs: Documents, id: DocId, doc: Document)
    ensures TotalBytes(docs[id := doc]) == doc.size + TotalBytes(docs - {id})
  {
    TotalSplit(docs[id := doc], id);
    assert docs[id := doc] - {id} == docs - {id};
  }

  /** How much larger a document becomes. */
  function Growth(doc: Document, newSize: nat): nat {
    if newSize <= doc.size then 0 else newSize - doc.size
  }

  lemma TotalMissing(docs: Documents, id: DocId)
    requires id !in docs
    ensures docs - {id} == docs
  {
  }

  /** The byte counter is kept unwrapped; what the code reads of it has 64 bits. */
  function Shown(bytes: int): nat { bytes % 0x1_0000_0000_0000_0000 }

  // --- Candidates ---

  function Since(now: nat, then_: nat): nat { if now >= then_ then now - then_ else 0 }

  function AtMostOne(x: real): real { if x <= 1.0 then x else 1.0 }

  /** Age against the maximum retention; a maximum of zero counts as fully aged. */
  function AgeFactor(policy: RetentionPolicy, age: nat): real {
    if policy.maxRetain == FOREVER then 0.0
    else if policy.maxRetain == 0 then 1.0
    else AtMostOne(age as real / policy.maxRetain as real)
  }

  /** Six minus the priority in eight bits: a priority above six wraps around in a release build. */
  function ClassScore(priority: nat): int {
    (6 - priority) % 256
  }

  /** Higher scores are evicted first. */
  function Score(policies: RetentionPolicies, doc: Document, pressure: real, now: nat): real {
    var policy := policies.Get(doc.cls);
    ClassScore(policy.evictionPriority) as real * 10.0
    + AgeFactor(policy, Since(now, doc.storedAt)) * 5.0
    + AtMostOne(Since(now, doc.lastAccessed) as real / 3600.0) * 3.0
    + AtMostOne(doc.size as real / 1_000_000.0) * 1.0
    + pressure * 2.0
  }

  /**
   Age, idleness and size together weigh less than one step of eviction priority, so
   the document of the earlier priority goes first exactly when the subtraction does
   not wrap around between the two.
   */
  lemma ClassDominatesIff(policies: RetentionPolicies, d: Document, e: Document, pressure: real, now: nat)
    requires policies.Get(d.cls).evictionPriority < policies.Get(e.cls).evictionPriority < 256
    ensures Score(policies, d, pressure, now) > Score(policies, e, pressure, now) <==>
              !(policies.Get(d.cls).evictionPriority <= 6 < policies.Get(e.cls).evictionPriority)
    ensures Score(policies, d, pressure, now) != Score(policies, e, pressure, now)
  {
    FactorBounds(policies.Get(d.cls), d, now);
    FactorBounds(policies.Get(e.cls), e, now);
    ClassScoreStep(policies.Get(d.cls).evictionPriority, policies.Get(e.cls).evictionPriority);
  }

  /** With priority 7 set for High, a High document is evicted before a Bulk one. */
  lemma HighBeforeBulk(high: Document, bulk: Document, pressure: real, now: nat)
    requires high.cls == High && bulk.cls == Bulk
    ensures var policies := DefaultTactical().(high := ForQosClass(High).(evictionPriority := 7));
            Score(policies, high, pressure, now) > Score(policies, bulk, pressure, now)
  {
    hide Score;
    var policies := DefaultTactical().(high := ForQosClass(High).(evictionPriority := 7));
    ClassDominatesIff(policies, bulk, high, pressure, now);
  }

  lemma ClassScoreStep(p: nat, q: nat)
    requires p < q < 256
    ensures if p <= 6 < q then ClassScore(p) + 1 <= ClassScore(q) else ClassScore(q) + 1 <= ClassScore(p)
  {
    assert p <= 6 ==> ClassScore(p) == 6 - p;
    assert p > 6 ==> ClassScore(p) == 262 - p;
    assert q <= 6 ==> ClassScore(q) == 6 - q;
    assert q > 6 ==> ClassScore(q) == 262 - q;
  }

  /** Within a class, the older, idler and larger document scores at least as high, and higher where the difference is below its cap. */
  lemma ScoreWithinClass(policies: RetentionPolicies, d: Document, e: Document, pressure: real, now: nat)
    requires d.cls == e.cls
    requires d.storedAt <= e.storedAt <= now && d.lastAccessed <= e.lastAccessed <= now && d.size >= e.size
    ensures Score(policies, d, pressure, now) >= Score(policies, e, pressure, now)
    ensures || (d.storedAt < e.storedAt && now - e.storedAt < policies.Get(e.cls).maxRetain != FOREVER)
            || (d.lastAccessed < e.lastAccessed && now - e.lastAccessed < 3600)
            || (d.size > e.size && e.size < 1_000_000) ==>
              Score(policies, d, pressure, now) > Score(policies, e, pressure, now)
  {
    hide AgeFactor, AtMostOne, Since;
    SinceOf(now, d.storedAt);
    SinceOf(now, e.storedAt);
    SinceOf(now, d.lastAccessed);
    SinceOf(now, e.lastAccessed);
    AgeGrows(policies.Get(d.cls), now - e.storedAt, now - d.storedAt);
    CappedGrows(now - e.lastAccessed, now - d.lastAccessed, 3600);
    CappedGrows(e.size, d.size, 1_000_000);
  }

  /** At the caps: full age weighs five, an hour idle three and a megabyte one. */
  lemma ScoreWeights(policies: RetentionPolicies, d: Document, e: Document, pressure: real, now: nat)
    requires d.cls == e.cls && e.storedAt == e.lastAccessed == now && e.size == 0
    requires d.storedAt + policies.Get(d.cls).maxRetain <= now && 0 < policies.Get(d.cls).maxRetain < FOREVER
    requires d.lastAccessed <= now
    ensures d.lastAccessed == now && d.size == 0 ==>
              Score(policies, d, pressure, now) == Score(policies, e, pressure, now) + 5.0
    ensures d.lastAccessed + 3600 <= now && d.size == 0 ==>
              Score(policies, d, pressure, now) == Score(policies, e, pressure, now) + 8.0
    ensures d.lastAccessed == now && d.size >= 1_000_000 ==>
              Score(policies, d, pressure, now) == Score(policies, e, pressure, now) + 6.0
  {
    hide AgeFactor, AtMostOne, Since;
    var policy := policies.Get(d.cls);
    AgeEnds(policy, Since(now, d.storedAt));
    CappedEnds(Since(now, d.lastAccessed), 3600);
    CappedEnds(d.size, 1_000_000);
    AgeEnds(policy, 0);
    CappedEnds(0, 3600);
    CappedEnds(0, 1_000_000);
    SinceOf(now, d.storedAt);
    SinceOf(now, d.lastAccessed);
    SinceOf(now, now);
  }

  /** With no maximum age weighs nothing, and with a maximum of zero it weighs five at once. */
  lemma ScoreWithoutMaximum(policies: RetentionPolicies, d: Document, storedAt: nat, pressure: real, now: nat)
    requires d.storedAt == d.lastAccessed == now && d.size == 0 && policies.Get(d.cls).evictionPriority <= 6
    ensures var policy := policies.Get(d.cls);
            var score := Score(policies, d.(storedAt := storedAt), pressure, now);
            && (policy.maxRetain == FOREVER ==> score == (6 - policy.evictionPriority) as real * 10.0 + 2.0 * pressure)
            && (policy.maxRetain == 0 ==> score == (6 - policy.evictionPriority) as real * 10.0 + 5.0 + 2.0 * pressure)
  {
    CappedEnds(0, 3600);
    CappedEnds(0, 1_000_000);
  }

  lemma SinceOf(now: nat, earlier: nat)
    requires earlier <= now
    ensures Since(now, earlier) == now - earlier
  {
  }

  lemma CappedGrows(a: nat, b: nat, cap: nat)
    requires a <= b && cap > 0
    ensures AtMostOne(a as real / cap as real) <= AtMostOne(b as real / cap as real)
    ensures a < b && a < cap ==> AtMostOne(a as real / cap as real) < AtMostOne(b as real / cap as real)
  {
    QuotientFollows(a, b, cap);
    if a < cap {
      QuotientFollows(a, cap, cap);
    }
  }

  lemma CappedEnds(a: nat, cap: nat)
    requires cap > 0
    ensures a == 0 ==> AtMostOne(a as real / cap as real) == 0.0
    ensures a >= cap ==> AtMostOne(a as real / cap as real) == 1.0
  {
    if a >= cap {
      QuotientFollows(cap, a, cap);
    }
  }

  lemma QuotientFollows(a: nat, b: nat, c: nat)
    requires a <= b && c > 0
    ensures a as real / c as real <= b as real / c as real
    ensures a < b ==> a as real / c as real < b as real / c as real
    ensures c as real / c as real == 1.0
  {
  }

  lemma AgeGrows(policy: RetentionPolicy, a: nat, b: nat)
    requires a <= b
    ensures AgeFactor(policy, a) <= AgeFactor(policy, b)
    ensures a < b && a < policy.maxRetain != FOREVER ==> AgeFactor(policy, a) < AgeFactor(policy, b)
  {
    if policy.maxRetain > 0 {
      CappedGrows(a, b, policy.maxRetain);
    }
  }

  lemma AgeEnds(policy: RetentionPolicy, a: nat)
    requires 0 < policy.maxRetain < FOREVER
    ensures a == 0 ==> AgeFactor(policy, a) == 0.0
    ensures a >= policy.maxRetain ==> AgeFactor(policy, a) == 1.0
  {
    CappedEnds(a, policy.maxRetain);
  }

  lemma FactorBounds(policy: RetentionPolicy, doc: Document, now: nat)
    ensures 0.0 <= AgeFactor(policy, Since(now, doc.storedAt)) <= 1.0
    ensures 0.0 <= AtMostOne(Since(now, doc.lastAccessed) as real / 3600.0) <= 1.0
    ensures 0.0 <= AtMostOne(doc.size as real / 1_000_000.0) <= 1.0
  {
    if policy.maxRetain > 0 {
      QuotientNonNegative(Since(now, doc.storedAt) as real, policy.maxRetain as real);
    }
  }

  datatype Candidate = Candidate(docId: DocId, cls: QoSClass, size: nat, score: real)

  /** What a selection looks at: the documents, the policies, the bytes used of the capacity, and the time. */
  datatype Snapshot = Snapshot(docs: Documents, policies: RetentionPolicies, capacity: nat, used: int, now: nat) {
    ghost function Gap(): int {
      used - TotalBytes(docs)
    }

    function Pressure(): real {
      if capacity == 0 then 0.0 else Shown(used) as real / capacity as real
    }

    predicate IsEvictable(id: DocId): (r: bool)
      ensures r ==> id in docs
    {
      && id in docs
      && !docs[id].cls.Critical?
      && !docs[id].protected
      && policies.Get(docs[id].cls).ShouldEvict(Since(now, docs[id].storedAt), Pressure())
    }

    predicate IsCompressible(id: DocId): (r: bool)
      ensures r ==> id in docs
    {
      && id in docs
      && !docs[id].cls.Critical?
      && !docs[id].protected
      && !docs[id].compressed
      && policies.Get(docs[id].cls).ShouldCompress(Pressure())
    }

    function CandidateOf(id: DocId): Candidate
      requires id in docs
    {
      Candidate(id, docs[id].cls, docs[id].size, Score(policies, docs[id], Pressure(), now))
    }
  }

  /** Under the default policies, what may be evicted, in ages, pressures and flags. */
  lemma DefaultEvictableIff(s: Snapshot, id: DocId)
    requires s.policies == DefaultTactical() && s.now < 0x1_0000_0000_0000_0000
    ensures s.IsEvictable(id) <==>
              && id in s.docs && !s.docs[id].protected
              && var age, p := Since(s.now, s.docs[id].storedAt), s.Pressure();
                 match s.docs[id].cls
                 case Critical => false
                 case High => Due(age, p, DAY, 7 * DAY, 0.95)
                 case Normal => Due(age, p, HOUR, DAY, 0.85)
                 case Low => Due(age, p, 5 * MINUTE, HOUR, 0.75)
                 case Bulk => Due(age, p, MINUTE, 5 * MINUTE, 0.65)
    ensures s.IsCompressible(id) <==>
              && id in s.docs && !s.docs[id].cls.Critical? && !s.docs[id].protected && !s.docs[id].compressed
              && s.Pressure() > 0.7
  {
    hide RetentionPolicy.ShouldRetain, RetentionPolicy.ShouldEvict, RetentionPolicy.ShouldCompress, Due;
    if id in s.docs {
      DefaultRules(s.docs[id].cls, Since(s.now, s.docs[id].storedAt), s.Pressure());
    }
  }

  /** The pressure is the share of the capacity in use, in hundredths here; without capacity there is none. */
  lemma PressureIsShare(s: Snapshot, k: nat)
    requires s.capacity > 0 && 100 * s.used == k * s.capacity && s.used < 0x1_0000_0000_0000_0000
    ensures 100.0 * s.Pressure() == k as real
    ensures s.(capacity := 0).Pressure() == 0.0
  {
    assert k * s.capacity >= 0;
    assert Shown(s.used) == s.used;
    assert 100.0 * s.used as real == k as real * s.capacity as real;
  }

  predicate DistinctIds(cs: seq<Candidate>) {
    forall i, j :: 0 <= i < j < |cs| ==> cs[i].docId != cs[j].docId
  }

  predicate Sorted(cs: seq<Candidate>) {
    forall i, j :: 0 <= i < j < |cs| ==> cs[i].score >= cs[j].score
  }

  ghost predicate Listed(cs: seq<Candidate>, id: DocId) {
    exists i :: 0 <= i < |cs| && cs[i].docId == id
  }

  /** The candidates are evictable documents of the snapshot, none twice. */
  ghost predicate Faithful(s: Snapshot, cs: seq<Candidate>) {
    && DistinctIds(cs)
    && forall i :: 0 <= i < |cs| ==> s.IsEvictable(cs[i].docId) && cs[i] == s.CandidateOf(cs[i].docId)
  }

  ghost predicate Complete(s: Snapshot, cs: seq<Candidate>) {
    forall id :: s.IsEvictable(id) ==> Listed(cs, id)
  }

  function SumSizes(cs: seq<Candidate>): nat {
    if cs == [] then 0 else SumSizes(cs[..|cs| - 1]) + cs[|cs| - 1].size
  }

  /** The shortest non-empty prefix, by score, of the evictable documents that reaches the target, or all of them. */
  ghost predicate Selection(s: Snapshot, needed: nat, cs: seq<Candidate>) {
    && Faithful(s, cs)
    && Sorted(cs)
    && (forall id, i :: s.IsEvictable(id) && !Listed(cs, id) && 0 <= i < |cs| ==> cs[i].score >= s.CandidateOf(id).score)
    && (forall k :: 0 < k < |cs| ==> SumSizes(cs[..k]) < needed)
    && (SumSizes(cs) >= needed || Complete(s, cs))
    && ((exists id :: s.IsEvictable(id)) ==> cs != [])
  }

  /** Stable insertion before the first strictly smaller score. */
  function Insert(cs: seq<Candidate>, c: Candidate): seq<Candidate> {
    if cs == [] then [c]
    else if cs[|cs| - 1].score >= c.score then cs + [c]
    else Insert(cs[..|cs| - 1], c) + [cs[|cs| - 1]]
  }

  lemma InsertEffect(cs: seq<Candidate>, c: Candidate)
    requires Sorted(cs)
    ensures Sorted(Insert(cs, c)) && multiset(Insert(cs, c)) == multiset(cs) + multiset{c}
  {
    InsertAdds(cs, c);
    InsertSorts(cs, c);
  }

  lemma {:induction false} InsertAdds(cs: seq<Candidate>, c: Candidate)
    ensures multiset(Insert(cs, c)) == multiset(cs) + multiset{c}
  {
    if cs != [] {
      var front, last := cs[..|cs| - 1], cs[|cs| - 1];
      assert cs == front + [last];
      InsertAdds(front, c);
    }
  }

  lemma {:induction false} InsertSorts(cs: seq<Candidate>, c: Candidate)
    requires Sorted(cs)
    ensures Sorted(Insert(cs, c))
  {
    if cs != [] && cs[|cs| - 1].score < c.score {
      var front, last := cs[..|cs| - 1], cs[|cs| - 1];
      InsertSorts(front, c);
      InsertAdds(front, c);
      LastIsLeast(Insert(front, c), front, c, last);
    }
  }

  lemma LastIsLeast(cs: seq<Candidate>, front: seq<Candidate>, c: Candidate, last: Candidate)
    requires multiset(cs) == multiset(front) + multiset{c}
    requires c.score >= last.score && forall i :: 0 <= i < |front| ==> front[i].score >= last.score
    ensures forall i :: 0 <= i < |cs| ==> cs[i].score >= last.score
  {
    forall i | 0 <= i < |cs| ensures cs[i].score >= last.score {
      assert cs[i] in multiset(cs);
    }
  }

  method SortByScore(cs: seq<Candidate>) returns (sorted: seq<Candidate>)
    ensures Sorted(sorted) && multiset(sorted) == multiset(cs)
  {
    sorted := [];
    for i := 0 to |cs|
      invariant Sorted(sorted) && multiset(sorted) == multiset(cs[..i])
    {
      InsertEffect(sorted, cs[i]);
      assert cs[..i + 1] == cs[..i] + [cs[i]];
      sorted := Insert(sorted, cs[i]);
    }
    assert cs[..|cs|] == cs;
  }

  lemma PermutationKeeps(s: Snapshot, cs: seq<Candidate>, ds: seq<Candidate>)
    requires multiset(cs) == multiset(ds) && Faithful(s, cs) && Complete(s, cs)
    ensures Faithful(s, ds) && Complete(s, ds)
  {
    forall i | 0 <= i < |ds| ensures s.IsEvictable(ds[i].docId) && ds[i] == s.CandidateOf(ds[i].docId) {
      assert ds[i] in multiset(cs);
    }
    forall i, j | 0 <= i < j < |ds| ensures ds[i].docId != ds[j].docId {
      if ds[i] == ds[j] {
        TwiceInMultiset(ds, i, j);
        OnceInMultiset(cs, ds[i]);
      }
    }
    forall id | s.IsEvictable(id) ensures Listed(ds, id) {
      var k :| 0 <= k < |cs| && cs[k].docId == id;
      assert cs[k] in multiset(ds);
      var i :| 0 <= i < |ds| && ds[i] == cs[k];
    }
  }

  lemma TwiceInMultiset(ds: seq<Candidate>, i: nat, j: nat)
    requires i < j < |ds| && ds[i] == ds[j]
    ensures multiset(ds)[ds[i]] >= 2
  {
    assert ds == ds[..j] + [ds[j]] + ds[j + 1..];
    assert ds[..j][i] == ds[i];
  }

  lemma {:induction false} OnceInMultiset(cs: seq<Candidate>, c: Candidate)
    requires DistinctIds(cs)
    ensures multiset(cs)[c] <= 1
  {
    if cs != [] {
      var front, last := cs[..|cs| - 1], cs[|cs| - 1];
      assert cs == front + [last];
      OnceInMultiset(front, c);
      assert c == last ==> c !in front;
    }
  }

  lemma SumOfNone()
    ensures SumSizes([]) == 0
  {
  }

  lemma SumSnoc(cs: seq<Candidate>, c: Candidate)
    ensures SumSizes(cs + [c]) == SumSizes(cs) + c.size
  {
    assert (cs + [c])[..|cs|] == cs;
  }

  method TakePrefix(sorted: seq<Candidate>, needed: nat) returns (selected: seq<Candidate>)
    ensures selected <= sorted
    ensures forall k :: 0 < k < |selected| ==> SumSizes(sorted[..k]) < needed
    ensures SumSizes(selected) >= needed || selected == sorted
    ensures sorted != [] ==> selected != []
  {
    hide SumSizes;
    var total := 0;
    selected := [];
    SumOfNone();
    for i := 0 to |sorted|
      invariant selected == sorted[..i] && total == SumSizes(selected)
      invariant forall k :: 0 < k <= i ==> SumSizes(sorted[..k]) < needed
    {
      SumSnoc(selected, sorted[i]);
      assert selected + [sorted[i]] == sorted[..i + 1];
      selected := selected + [sorted[i]];
      total := total + sorted[i].size;
      if total >= needed {
        return;
      }
    }
  }

  lemma PrefixIsSelection(s: Snapshot, needed: nat, sorted: seq<Candidate>, k: nat)
    requires Faithful(s, sorted) && Complete(s, sorted) && Sorted(sorted) && k <= |sorted|
    requires forall j :: 0 < j < k ==> SumSizes(sorted[..j]) < needed
    requires SumSizes(sorted[..k]) >= needed || k == |sorted|
    requires sorted != [] ==> k > 0
    ensures Selection(s, needed, sorted[..k])
  {
    hide Score, Snapshot.IsEvictable, Listed, SumSizes;
    var selected := sorted[..k];
    forall id, i | s.IsEvictable(id) && !Listed(selected, id) && 0 <= i < |selected|
      ensures selected[i].score >= s.CandidateOf(id).score
    {
      PrefixOrBeyond(sorted, k, id);
      var j :| k <= j < |sorted| && sorted[j].docId == id;
      assert selected[i] == sorted[i];
    }
    forall j | 0 < j < |selected| ensures SumSizes(selected[..j]) < needed {
      assert selected[..j] == sorted[..j];
    }
    if k == |sorted| {
      assert selected == sorted;
    }
    if id :| s.IsEvictable(id) {
      NothingListed(id);
      assert Listed(sorted, id);
    }
  }

  lemma NothingListed(id: DocId)
    ensures !Listed([], id)
  {
  }

  lemma PrefixOrBeyond(cs: seq<Candidate>, k: nat, id: DocId)
    requires k <= |cs| && Listed(cs, id)
    ensures Listed(cs[..k], id) || exists j :: k <= j < |cs| && cs[j].docId == id
  {
    var j :| 0 <= j < |cs| && cs[j].docId == id;
    if j < k {
      assert cs[..k][j].docId == id;
    }
  }

  // --- The storage manager ---

  class QoSAwareStorage {
    const maxStorageBytes: nat
    const policies: RetentionPolicies
    var currentStorageBytes: int
    var documents: Documents

    /** Documents are filed under their own id. */
    ghost predicate Valid()
      reads this
    {
      forall id :: id in documents ==> documents[id].docId == id
    }

    /** By how much the counter exceeds the sum of the sizes. */
    ghost function Gap(): int
      reads this
    {
      currentStorageBytes - TotalBytes(documents)
    }

    lemma SnapshotGap(now: nat)
      ensures TakeSnapshot(now).Gap() == Gap()
    {
    }

    constructor (maxStorageBytes: nat, policies: RetentionPolicies)
      ensures Valid() && documents == map[] && currentStorageBytes == 0 && Gap() == 0
      ensures this.maxStorageBytes == maxStorageBytes && this.policies == policies
    {
      this.maxStorageBytes, this.policies := maxStorageBytes, policies;
      currentStorageBytes, documents := 0, map[];
    }

    function StoragePressure(): real
      reads this
    {
      TakeSnapshot(0).Pressure()
    }

    function TakeSnapshot(now: nat): Snapshot
      reads this
    {
      Snapshot(documents, policies, maxStorageBytes, currentStorageBytes, now)
    }

    method RegisterDocument(doc: Document)
      requires Valid()
      modifies this
      ensures Valid() && documents == old(documents)[doc.docId := doc] && Gap() == old(Gap())
    {
      TotalPut(documents, doc.docId, doc);
      if doc.docId in documents {
        TotalSplit(documents, doc.docId);
        currentStorageBytes := currentStorageBytes - documents[doc.docId].size;
      } else {
        TotalMissing(documents, doc.docId);
      }
      documents := documents[doc.docId := doc];
      currentStorageBytes := currentStorageBytes + doc.size;
    }

    method UnregisterDocument(docId: DocId) returns (r: Option<Document>)
      requires Valid()
      modifies this
      ensures Valid() && documents == old(documents) - {docId} && Gap() == old(Gap())
      ensures r == if docId in old(documents) then Some(old(documents)[docId]) else None
      ensures r.Some? ==> currentStorageBytes == old(currentStorageBytes) - r.value.size
      ensures r.None? ==> currentStorageBytes == old(currentStorageBytes)
    {
      if docId in documents {
        TotalSplit(documents, docId);
        r := Some(documents[docId]);
        documents := documents - {docId};
        currentStorageBytes := currentStorageBytes - r.value.size;
      } else {
        TotalMissing(documents, docId);
        r := None;
      }
    }

    method TouchDocument(docId: DocId, now: nat)
      requires Valid()
      modifies this`documents
      ensures Valid() && Gap() == old(Gap())
      ensures documents == if docId in old(documents)
                           then old(documents)[docId := old(documents)[docId].(lastAccessed := now)]
                           else old(documents)
    {
      if docId in documents {
        TotalSplit(documents, docId);
        TotalPut(documents, docId, documents[docId].(lastAccessed := now));
        documents := documents[docId := documents[docId].(lastAccessed := now)];
      }
    }

    method SetProtected(docId: DocId, protected: bool) returns (found: bool)
      requires Valid()
      modifies this`documents
      ensures Valid() && Gap() == old(Gap()) && found == (docId in old(documents))
      ensures documents == if found then old(documents)[docId := old(documents)[docId].(protected := protected)]
                           else old(documents)
    {
      found := docId in documents;
      if found {
        TotalSplit(documents, docId);
        TotalPut(documents, docId, documents[docId].(protected := protected));
        documents := documents[docId := documents[docId].(protected := protected)];
      }
    }

    /** The difference saturates at zero, so the counter falls behind by exactly what a document grew. */
    method UpdateCompressed(docId: DocId, newSize: nat) returns (r: Option<nat>)
      requires Valid()
      modifies this
      ensures docId !in old(documents) ==> r.None? && documents == old(documents)
      ensures docId in old(documents) ==>
                var was := old(documents)[docId];
                && documents == old(documents)[docId := was.(size := newSize, compressed := true)]
                && r == Some(if newSize <= was.size then was.size - newSize else 0)
                && currentStorageBytes == old(currentStorageBytes) - r.value
      ensures Valid()
      ensures Gap() == old(Gap()) - if docId in old(documents) then Growth(old(documents)[docId], newSize) else 0
    {
      if docId in documents {
        var oldSize := documents[docId].size;
        var diff := if oldSize >= newSize then oldSize - newSize else 0;
        TotalSplit(documents, docId);
        TotalPut(documents, docId, documents[docId].(size := newSize, compressed := true));
        documents := documents[docId := documents[docId].(size := newSize, compressed := true)];
        currentStorageBytes := currentStorageBytes - diff;
        r := Some(diff);
      } else {
        r := None;
      }
    }

    /** Collects the evictable documents in no particular order, sorts them by score and takes the shortest prefix. */
    method GetEvictionCandidates(needed: nat, now: nat) returns (selected: seq<Candidate>)
      ensures Selection(TakeSnapshot(now), needed, selected)
    {
      var candidates := CollectCandidates(now);
      var sorted := SortByScore(candidates);
      PermutationKeeps(TakeSnapshot(now), candidates, sorted);
      selected := TakePrefix(sorted, needed);
      assert selected == sorted[..|selected|];
      PrefixIsSelection(TakeSnapshot(now), needed, sorted, |selected|);
    }

    method CollectCandidates(now: nat) returns (candidates: seq<Candidate>)
      ensures Faithful(TakeSnapshot(now), candidates) && Complete(TakeSnapshot(now), candidates)
    {
      var s := TakeSnapshot(now);
      var todo := documents.Keys;
      candidates := [];
      while todo != {}
        invariant todo <= documents.Keys
        invariant Faithful(s, candidates)
        invariant forall i :: 0 <= i < |candidates| ==> candidates[i].docId !in todo
        invariant forall id :: s.IsEvictable(id) && id !in todo ==> Listed(candidates, id)
      {
        var id :| id in todo;
        if s.IsEvictable(id) {
          CollectOne(s, todo, candidates, id);
          candidates := candidates + [s.CandidateOf(id)];
        }
        todo := todo - {id};
      }
    }

    /** The ids that may be compressed, each once, in no particular order. */
    method GetCompressionCandidates(now: nat) returns (ids: seq<DocId>)
      ensures forall id :: id in ids <==> TakeSnapshot(now).IsCompressible(id)
      ensures forall i, j :: 0 <= i < j < |ids| ==> ids[i] != ids[j]
    {
      var s := TakeSnapshot(now);
      var todo := documents.Keys;
      ids := [];
      while todo != {}
        invariant todo <= documents.Keys
        invariant forall id :: id in ids <==> s.IsCompressible(id) && id !in todo
        invariant forall i, j :: 0 <= i < j < |ids| ==> ids[i] != ids[j]
      {
        var id :| id in todo;
        if s.IsCompressible(id) {
          ids := ids + [id];
        }
        todo := todo - {id};
      }
    }
  }

  /** A document of 10 bytes "compressed" to 20: the counter stays at 10 with 20 bytes stored. */
  method GrownDocument() returns (counter: int, docs: Documents)
    ensures counter == 10 && TotalBytes(docs) == 20
  {
    var doc := Document("a", Normal, 10, 0, 0, false, false);
    var storage := new QoSAwareStorage(100, DefaultTactical());
    storage.RegisterDocument(doc);
    assert storage.documents == map["a" := doc];
    TotalPut(map[], "a", doc);
    var saved := storage.UpdateCompressed("a", 20);
    TotalPut(map[], "a", doc.(size := 20, compressed := true));
    counter, docs := storage.currentStorageBytes, storage.documents;
    assert docs == map["a" := doc.(size := 20, compressed := true)];
  }

  lemma CollectOne(s: Snapshot, todo: set<DocId>, cs: seq<Candidate>, id: DocId)
    requires Faithful(s, cs) && s.IsEvictable(id) && id in todo
    requires forall i :: 0 <= i < |cs| ==> cs[i].docId !in todo
    requires forall d :: s.IsEvictable(d) && d !in todo ==> Listed(cs, d)
    ensures Faithful(s, cs + [s.CandidateOf(id)])
    ensures forall d :: s.IsEvictable(d) && d !in todo - {id} ==> Listed(cs + [s.CandidateOf(id)], d)
  {
    var cs' := cs + [s.CandidateOf(id)];
    forall d | s.IsEvictable(d) && d !in todo - {id} ensures Listed(cs', d) {
      if d == id {
        assert cs'[|cs|].docId == d;
      } else {
        var i :| 0 <= i < |cs| && cs[i].docId == d;
        assert cs'[i].docId == d;
      }
    }
  }
}
