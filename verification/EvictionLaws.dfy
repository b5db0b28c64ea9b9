/**
 What every eviction cycle guarantees, and what follows over whole runs of
 registration, protection and eviction.
 */
module EvictionLaws {
  import opened Wrappers
  import opened Qos
  import opened Retention
  import opened Storage
  import opened Arithmetic
  import opened Audit
  import opened Eviction

  // --- Safety of one cycle ---

  /** Compression changes neither which documents there are nor what protects them. */
  lemma MiddleKeeps(cycle: Cycle, g: Guard, compression: Option<CompressionCallback>, config: EvictionConfig,
                    clock: nat -> nat, result: EvictionResult, id: DocId)
    requires Lawful(cycle, g, compression, config, clock, result)
    requires id in cycle.middle.docs
    ensures id in cycle.before.docs
    ensures var was, now := cycle.before.docs[id], cycle.middle.docs[id];
            now.cls == was.cls && now.protected == was.protected && now.size <= was.size
  {
  }

  /** Nothing Critical, flagged as protected or under operator protection is evicted. */
  lemma CycleIsSafe(cycle: Cycle, g: Guard, compression: Option<CompressionCallback>, config: EvictionConfig,
                    clock: nat -> nat, result: EvictionResult, id: DocId)
    requires Lawful(cycle, g, compression, config, clock, result)
    requires id in Ids(Gone(g, cycle.seen))
    ensures id in cycle.before.docs
    ensures !cycle.before.docs[id].cls.Critical? && !cycle.before.docs[id].protected && id !in g.protectedDocs
    ensures cycle.middle.IsEvictable(id)
  {
    hide Gone, Selection, Stopped, Accounts;
    GoneAreSeen(g, cycle.seen, id);
    var i :| 0 <= i < |cycle.seen| && cycle.seen[i].docId == id && g.Evicts(cycle.seen[i]);
    SelectedIsEvictable(cycle.middle, cycle.needed - result.compressionSavings, cycle.selected, i);
    MiddleKeeps(cycle, g, compression, config, clock, result, id);
  }

  lemma SelectedIsEvictable(s: Snapshot, needed: int, cs: seq<Candidate>, i: nat)
    requires i < |cs| && needed >= 0 && Selection(s, needed, cs)
    ensures s.IsEvictable(cs[i].docId) && cs[i] == s.CandidateOf(cs[i].docId)
  {
  }

  /** The per-class counts of a result add up to its evictions. */
  lemma ClassesSumToEvictions(cycle: Cycle, g: Guard, compression: Option<CompressionCallback>, config: EvictionConfig,
                              clock: nat -> nat, result: EvictionResult)
    requires Lawful(cycle, g, compression, config, clock, result)
    ensures Tally(result.byClass, Critical) + Tally(result.byClass, High) + Tally(result.byClass, Normal)
            + Tally(result.byClass, Low) + Tally(result.byClass, Bulk) == result.docsEvicted
    ensures Tally(result.byClass, Critical) == 0
  {
    ClassCountsAddUp(Gone(g, cycle.seen));
    assert Tally(result.byClass, Critical) == CountClass(Gone(g, cycle.seen), Critical);
    NoneCritical(cycle, g, compression, config, clock, result, |cycle.seen|);
    assert cycle.seen[..|cycle.seen|] == cycle.seen;
  }

  lemma {:induction false} NoneCritical(cycle: Cycle, g: Guard, compression: Option<CompressionCallback>,
                                        config: EvictionConfig, clock: nat -> nat, result: EvictionResult, k: nat)
    requires Lawful(cycle, g, compression, config, clock, result) && k <= |cycle.seen|
    ensures CountClass(Gone(g, cycle.seen[..k]), Critical) == 0
  {
    hide Lawful, CountClass, Gone, Snapshot.IsEvictable;
    if k == 0 {
      NothingSeen(g, cycle.seen);
    } else {
      NoneCritical(cycle, g, compression, config, clock, result, k - 1);
      GoneStep(g, cycle.seen, k - 1);
      SeenIsNotCritical(cycle, g, compression, config, clock, result, k - 1);
    }
  }

  lemma SeenIsNotCritical(cycle: Cycle, g: Guard, compression: Option<CompressionCallback>, config: EvictionConfig,
                          clock: nat -> nat, result: EvictionResult, k: nat)
    requires Lawful(cycle, g, compression, config, clock, result) && k < |cycle.seen|
    ensures !cycle.seen[k].cls.Critical?
  {
    hide Stopped, Accounts;
    assert cycle.seen[k] == cycle.selected[k];
  }

  // --- Order ---

  /** With ranked policies, a candidate comes up only after every evictable document of a less urgent class. */
  lemma LessUrgentFirst(cycle: Cycle, g: Guard, compression: Option<CompressionCallback>, config: EvictionConfig,
                        clock: nat -> nat, result: EvictionResult, i: nat, id: DocId)
    requires Lawful(cycle, g, compression, config, clock, result)
    requires cycle.middle.policies.Ranked()
    requires i < |cycle.seen| && cycle.middle.IsEvictable(id)
    requires cycle.seen[i].cls.CanPreempt(cycle.middle.docs[id].cls)
    ensures exists j :: 0 <= j < i && cycle.seen[j].docId == id
  {
    hide Stopped, Accounts, Score, Snapshot.IsEvictable, RetentionPolicies.Get, Selection;
    var s, cs := cycle.middle, cycle.selected;
    assert cycle.seen[i] == cs[i];
    SelectedIsEvictable(s, cycle.needed - result.compressionSavings, cs, i);
    ClassDominatesIff(s.policies, s.docs[id], s.docs[cs[i].docId], s.Pressure(), s.now);
    var j := HigherScoreIsEarlier(s, cycle.needed - result.compressionSavings, cs, i, id);
    assert cycle.seen[j] == cs[j];
  }

  lemma HigherScoreIsEarlier(s: Snapshot, needed: int, cs: seq<Candidate>, i: nat, id: DocId) returns (j: nat)
    requires needed >= 0 && Selection(s, needed, cs) && i < |cs| && s.IsEvictable(id)
    requires s.CandidateOf(id).score > cs[i].score
    ensures j < i && cs[j].docId == id
  {
    hide Score, Snapshot.IsEvictable, RetentionPolicies.Get;
    assert Listed(cs, id);
    j :| 0 <= j < |cs| && cs[j].docId == id;
    assert cs[j] == s.CandidateOf(cs[j].docId);
  }

  // --- Progress ---

  /** Every attempt works and no limit is hit. */
  ghost predicate Unhindered(g: Guard, config: EvictionConfig, clock: nat -> nat, selected: seq<Candidate>) {
    && g.callback.Some? && (forall id: DocId :: g.callback.value(id))
    && (forall k: nat :: k < |selected| ==> clock(k) <= config.maxCycleDurationMs)
    && |selected| <= config.maxEvictionsPerCycle
  }

  /** Some document passes the storage's own checks although the operator protects it: it is selected and then skipped. */
  ghost predicate HasStale(s: Snapshot, g: Guard) {
    exists id :: s.IsEvictable(id) && id in g.protectedDocs
  }

  /** The cycle freed what was asked for, or evicted everything that was evictable after compression. */
  ghost predicate Progressed(cycle: Cycle, g: Guard, result: EvictionResult) {
    || result.bytesFreed + result.compressionSavings >= cycle.needed
    || (forall id :: cycle.middle.IsEvictable(id) ==> id in Ids(Gone(g, cycle.seen)))
  }

  /**
   An unhindered cycle makes progress exactly when no evictable document is under
   operator protection, or what compression took off and what is not protected among
   the selected candidates cover the target.
   */
  lemma CycleProgressesIff(cycle: Cycle, g: Guard, compression: Option<CompressionCallback>, config: EvictionConfig,
                           clock: nat -> nat, result: EvictionResult)
    requires Lawful(cycle, g, compression, config, clock, result) && Unhindered(g, config, clock, cycle.selected)
    ensures Progressed(cycle, g, result) <==>
              || !HasStale(cycle.middle, g)
              || SumSizes(Gone(g, cycle.selected)) + (cycle.before.used - cycle.middle.used) >= cycle.needed
  {
    hide Gone, SumSizes, Selection, Stopped, Ids, Snapshot.IsEvictable, CountFailures, CountClass, CompressedFirst;
    NothingSeen(g, []);
    SavingsAreUsedLess(cycle, g, compression, config, clock, result);
    if result.compressionSavings < cycle.needed {
      var s, cs, r := cycle.middle, cycle.selected, cycle.needed - result.compressionSavings;
      RunsToEndOrTarget(g, config, clock, cs, cycle.needed, result.compressionSavings, cycle.seen);
      if SumSizes(Gone(g, cycle.seen)) >= r {
        GonePrefix(g, cs, |cycle.seen|);
        assert cs[..|cycle.seen|] == cycle.seen;
      } else {
        assert cycle.seen == cs;
        AllGoneIff(s, g, r, cs);
      }
    }
  }

  lemma SavingsAreUsedLess(cycle: Cycle, g: Guard, compression: Option<CompressionCallback>, config: EvictionConfig,
                           clock: nat -> nat, result: EvictionResult)
    requires Lawful(cycle, g, compression, config, clock, result)
    ensures result.compressionSavings == cycle.before.used - cycle.middle.used
         == TotalBytes(cycle.before.docs) - TotalBytes(cycle.middle.docs)
  {
    hide TotalBytes, CompressedDocs, Shrunk, Selection, Stopped, Accounts;
  }

  /** When all selected candidates were seen and fell short, everything evictable is gone exactly when none of it is protected. */
  lemma AllGoneIff(s: Snapshot, g: Guard, needed: nat, cs: seq<Candidate>)
    requires Selection(s, needed, cs) && SumSizes(Gone(g, cs)) < needed
    requires g.callback.Some? && forall id: DocId :: g.callback.value(id)
    ensures (forall id :: s.IsEvictable(id) ==> id in Ids(Gone(g, cs))) <==> !HasStale(s, g)
  {
    hide Gone, SumSizes, Selection, Ids, Snapshot.IsEvictable;
    if id :| s.IsEvictable(id) && id in g.protectedDocs {
      GoneAreSeen(g, cs, id);
    } else {
      forall i | 0 <= i < |cs| ensures g.Evicts(cs[i]) {
        SelectedIsEvictable(s, needed, cs, i);
      }
      GoneAll(g, cs);
      SelectionSuffices(s, needed, cs);
    }
  }

  /** With no limit in the way, the loop stops only at the target or at the end. */
  lemma RunsToEndOrTarget(g: Guard, config: EvictionConfig, clock: nat -> nat, cs: seq<Candidate>, needed: nat,
                          savings: nat, seen: seq<Candidate>)
    requires seen <= cs && Stopped(g, config, cs, needed, savings, clock, |seen|)
    requires Unhindered(g, config, clock, cs)
    ensures seen == cs || SumSizes(Gone(g, seen)) + savings >= needed
  {
    hide Gone, SumSizes, Unmet;
    assert cs[..|seen|] == seen;
    assert |seen| == |cs| ==> seen == cs;
    GoneIsShorter(g, seen);
  }

  lemma {:induction false} GoneIsShorter(g: Guard, cs: seq<Candidate>)
    ensures |Gone(g, cs)| <= |cs|
  {
    if cs != [] {
      GoneIsShorter(g, cs[..|cs| - 1]);
    }
  }

  lemma {:induction false} GonePrefix(g: Guard, cs: seq<Candidate>, k: nat)
    requires k <= |cs|
    ensures SumSizes(Gone(g, cs[..k])) <= SumSizes(Gone(g, cs))
    decreases |cs| - k
  {
    hide Gone, SumSizes;
    if k < |cs| {
      GoneStep(g, cs, k);
      GonePrefix(g, cs, k + 1);
    } else {
      assert cs[..k] == cs;
    }
  }

  lemma SelectionSuffices(s: Snapshot, needed: nat, cs: seq<Candidate>)
    requires Selection(s, needed, cs)
    ensures SumSizes(cs) >= needed || (forall id :: s.IsEvictable(id) ==> id in Ids(cs))
  {
    hide SumSizes, Snapshot.IsEvictable;
    if Complete(s, cs) {
      forall id | s.IsEvictable(id) ensures id in Ids(cs) {
        assert Listed(cs, id);
      }
    }
  }

  lemma {:induction false} GoneAll(g: Guard, cs: seq<Candidate>)
    requires forall i :: 0 <= i < |cs| ==> g.Evicts(cs[i])
    ensures Gone(g, cs) == cs
  {
    hide Guard.Evicts;
    if cs != [] {
      GoneAll(g, cs[..|cs| - 1]);
      assert cs == cs[..|cs| - 1] + [cs[|cs| - 1]];
    }
  }

  /** Every tracked document under operator protection also carries the stored flag. */
  predicate FlagsAgree(docs: Documents, protectedDocs: set<DocId>) {
    forall id :: id in docs && id in protectedDocs ==> docs[id].protected
  }

  /** As long as the stored flags follow the operator, every unhindered cycle makes progress. */
  lemma CycleProgresses(cycle: Cycle, g: Guard, compression: Option<CompressionCallback>, config: EvictionConfig,
                        clock: nat -> nat, result: EvictionResult)
    requires Lawful(cycle, g, compression, config, clock, result) && Unhindered(g, config, clock, cycle.selected)
    requires FlagsAgree(cycle.before.docs, g.protectedDocs)
    ensures Progressed(cycle, g, result)
  {
    hide Progressed, Unhindered, Lawful;
    CycleProgressesIff(cycle, g, compression, config, clock, result);
    if id :| cycle.middle.IsEvictable(id) && id in g.protectedDocs {
      MiddleKeeps(cycle, g, compression, config, clock, result, id);
    }
  }

  /** With enough bytes gone, the pressure is at or below the target. */
  lemma TargetReached(s: Snapshot, used: nat, freed: nat, target: real)
    requires s.used == used - freed && 0 <= s.used < 0x1_0000_0000_0000_0000 && target >= 0.0
    requires Meets(used, freed, s.capacity, target)
    ensures s.Pressure() <= target
  {
    assert Shown(s.used) == s.used;
    if s.capacity > 0 {
      var p := s.used as real / s.capacity as real;
      assert p * s.capacity as real == s.used as real;
      if p > target {
        RealMulStrict(target, p, s.capacity as real);
      }
    }
  }

  /**
   An unhindered cycle at or above the threshold ends at or below the target pressure,
   or with everything evictable after compression gone, as long as the stored flags
   follow the operator and the byte counter is exact.
   */
  method RunReachesTarget(controller: EvictionController, now: nat, clock: nat -> nat)
    returns (r: Option<EvictionResult>, ghost cycle: Cycle)
    requires controller.Valid() && controller.config.targetPressure >= 0.0
    requires controller.storage.Gap() == 0 && controller.storage.currentStorageBytes < 0x1_0000_0000_0000_0000
    requires FlagsAgree(controller.storage.documents, controller.protectedDocs)
    modifies controller.storage, controller.auditLog, controller`recentStats
    ensures r.None? <==> old(controller.storage.StoragePressure()) < controller.config.evictionThreshold
    ensures r.Some? && Unhindered(controller.TheGuard(), controller.config, clock, cycle.selected) ==>
              || r.value.pressureAfter == controller.storage.StoragePressure() <= controller.config.targetPressure
              || (forall id :: cycle.middle.IsEvictable(id) ==> id !in controller.storage.documents)
  {
    hide Lawful, Gone, Ids, Audited, TotalBytes, Snapshot.IsEvictable, Score, Meets, Shown, Unhindered, Progressed;
    ghost var before := controller.storage.currentStorageBytes;
    r, cycle := controller.RunEvictionCycle(now, clock);
    if r.Some? {
      ghost var g, storage, config := controller.TheGuard(), controller.storage, controller.config;
      if Unhindered(g, config, clock, cycle.selected) {
        CycleProgresses(cycle, g, controller.compressionCallback, config, clock, r.value);
        SmallIsShown(before);
        ghost var freed := r.value.bytesFreed + r.value.compressionSavings;
        if freed >= cycle.needed {
          assert Meets(Shown(before), freed, storage.maxStorageBytes, config.targetPressure);
          TargetReached(storage.TakeSnapshot(0), before, freed, config.targetPressure);
        } else {
          MissedIsGone(cycle, g, r.value);
        }
      }
    }
  }

  lemma SmallIsShown(bytes: int)
    requires 0 <= bytes < 0x1_0000_0000_0000_0000
    ensures Shown(bytes) == bytes
  {
  }

  lemma MissedIsGone(cycle: Cycle, g: Guard, result: EvictionResult)
    requires Progressed(cycle, g, result) && result.bytesFreed + result.compressionSavings < cycle.needed
    ensures forall id :: cycle.middle.IsEvictable(id) ==> id in Ids(Gone(g, cycle.seen))
  {
  }

  /** Asked for more than is stored, an unhindered cycle evicts all that is evictable exactly when none of it is protected. */
  lemma EvictsAllIff(cycle: Cycle, g: Guard, compression: Option<CompressionCallback>, config: EvictionConfig,
                     clock: nat -> nat, result: EvictionResult)
    requires Lawful(cycle, g, compression, config, clock, result) && Unhindered(g, config, clock, cycle.selected)
    requires cycle.needed > TotalBytes(cycle.before.docs)
    ensures (forall id :: cycle.middle.IsEvictable(id) ==> id in Ids(Gone(g, cycle.seen))) <==> !HasStale(cycle.middle, g)
  {
    hide Gone, SumSizes, Stopped, Ids, Snapshot.IsEvictable, Score, TotalBytes, CompressedFirst, HasStale;
    var cs := cycle.selected;
    CycleProgressesIff(cycle, g, compression, config, clock, result);
    SavingsAreUsedLess(cycle, g, compression, config, clock, result);
    GoneBytes(g, cycle.middle.docs, cs);
    GonePrefix(g, cs, |cycle.seen|);
    assert cs[..|cycle.seen|] == cycle.seen;
  }

  /** What is gone and what is left add up. */
  lemma {:induction false} GoneBytes(g: Guard, docs: Documents, cs: seq<Candidate>)
    requires DistinctIds(cs)
    requires forall i :: 0 <= i < |cs| ==> cs[i].docId in docs && docs[cs[i].docId].size == cs[i].size
    ensures SumSizes(Gone(g, cs)) + TotalBytes(docs - Ids(Gone(g, cs))) == TotalBytes(docs)
  {
    hide TotalBytes, SumSizes, Gone, Ids;
    NothingSeen(g, cs);
    if cs == [] {
      assert docs - {} == docs;
    } else {
      var n := |cs| - 1;
      var gone := Ids(Gone(g, cs[..n]));
      GoneBytes(g, docs, cs[..n]);
      GoneStep(g, cs, n);
      StillTracked(g, cs, n);
      assert cs[..n + 1] == cs;
      if g.Evicts(cs[n]) {
        TotalSplit(docs - gone, cs[n].docId);
        RemoveMore(docs, gone, cs[n].docId);
      }
    }
  }

  /** Without its last eviction a cycle would have missed its target: it never evicts more than it has to. */
  lemma CycleDoesNotOvershoot(cycle: Cycle, g: Guard, compression: Option<CompressionCallback>, config: EvictionConfig,
                              clock: nat -> nat, result: EvictionResult)
    requires Lawful(cycle, g, compression, config, clock, result)
    ensures var gone := Gone(g, cycle.seen);
            gone != [] ==> SumSizes(gone[..|gone| - 1]) + result.compressionSavings < cycle.needed
  {
    hide Gone, SumSizes, Selection, CountFailures, CountClass, CompressedDocs;
    NothingSeen(g, cycle.selected);
    if Gone(g, cycle.seen) != [] {
      assert cycle.selected[..|cycle.seen|] == cycle.seen;
      LastWasNeeded(g, cycle.selected, cycle.needed, result.compressionSavings, |cycle.seen|);
    }
  }

  lemma {:induction false} LastWasNeeded(g: Guard, cs: seq<Candidate>, needed: nat, savings: nat, n: nat)
    requires n <= |cs| && savings < needed && Unmet(g, cs, needed, savings, n)
    requires Gone(g, cs[..n]) != []
    ensures SumSizes(Gone(g, cs[..n])[..|Gone(g, cs[..n])| - 1]) + savings < needed
  {
    hide *;
    if n == 0 {
      NothingSeen(g, cs);
    } else {
      GoneStep(g, cs, n - 1);
      UnmetBefore(g, cs, needed, savings, n);
      var before := Gone(g, cs[..n - 1]);
      if g.Evicts(cs[n - 1]) {
        assert (before + [cs[n - 1]])[..|before|] == before;
      } else {
        LastWasNeeded(g, cs, needed, savings, n - 1);
      }
    }
  }

  lemma UnmetBefore(g: Guard, cs: seq<Candidate>, needed: nat, savings: nat, n: nat)
    requires 0 < n <= |cs| && savings < needed && Unmet(g, cs, needed, savings, n)
    ensures Unmet(g, cs, needed, savings, n - 1)
    ensures SumSizes(Gone(g, cs[..n - 1])) + savings < needed
  {
    hide Gone, SumSizes;
    SumOfNone();
  }

  /**
   When re-registration has cleared the stored flag of a protected document that
   outscores all others and covers the target alone, the cycle selects only that
   document, skips it, and frees nothing.
   */
  lemma StaleFlagBlocks(cycle: Cycle, g: Guard, compression: Option<CompressionCallback>, config: EvictionConfig,
                        clock: nat -> nat, result: EvictionResult, id: DocId)
    requires Lawful(cycle, g, compression, config, clock, result)
    requires result.compressionSavings < cycle.needed
    requires cycle.middle.IsEvictable(id) && id in g.protectedDocs
    requires cycle.middle.docs[id].size >= cycle.needed
    requires forall other :: cycle.middle.IsEvictable(other) && other != id ==>
               cycle.middle.CandidateOf(other).score < cycle.middle.CandidateOf(id).score
    ensures Gone(g, cycle.seen) == [] && result.bytesFreed == 0
  {
    hide Stopped, Score, Snapshot.IsEvictable;
    var s, cs := cycle.middle, cycle.selected;
    assert cs != [] && cs[0] == s.CandidateOf(cs[0].docId);
    TopIsFirst(s, cycle.needed - result.compressionSavings, cs, id);
    assert |cs| == 1 by {
      assert cs[..1] == [cs[0]];
      OneSize(cs[0]);
    }
    assert forall i :: 0 <= i < |cycle.seen| ==> cycle.seen[i] == cs[i];
    NoneGone(g, cycle.seen);
  }

  const BIG := Document("big", Bulk, 100, 0, 0, false, false)
  const SMALL := Document("small", Bulk, 60, 0, 1000, false, false)
  const DOCS: Documents := map["big" := BIG, "small" := SMALL]

  method MarkedAndRegisteredAgain() returns (controller: EvictionController)
    ensures fresh(controller) && fresh(controller.storage) && fresh(controller.auditLog)
    ensures controller.Valid() && !controller.config.compressBeforeEviction
    ensures "big" in controller.TheGuard().protectedDocs
    ensures forall now :: var s := controller.storage.TakeSnapshot(now);
                          s.docs == DOCS && s.policies == DefaultTactical() && s.now == now
  {
    var storage := new QoSAwareStorage(200, DefaultTactical());
    var log := new EvictionAuditLog(10);
    controller := new EvictionController(storage, log, EvictionConfig(0.9, 0.7, false, 100, 5000));
    controller.evictionCallback := Some(id => true);
    storage.RegisterDocument(BIG);
    storage.RegisterDocument(SMALL);
    controller.MarkProtected("big");
    storage.RegisterDocument(BIG);
    assert storage.documents == DOCS;
  }

  /**
   Mark "big", register it again, force 50 bytes: the cycle selects "big" alone and
   skips it, while "small", evictable and large enough, stays.
   */
  method StaleFlagRun() returns (result: EvictionResult, end: Snapshot)
    ensures result.bytesFreed == result.compressionSavings == 0
    ensures end.IsEvictable("small") && end.docs["small"].size >= 50
  {
    hide Lawful, Gone, Ids, Audited, TotalBytes, Snapshot.IsEvictable, Score, Snapshot.Pressure;
    var clock := (k: nat) => 0;
    var controller := MarkedAndRegisteredAgain();
    ghost var g := controller.TheGuard();
    ghost var cycle;
    result, cycle := controller.ForceEviction(50, 1000, clock);
    StaleCycle(cycle, g, controller.compressionCallback, controller.config, clock, result);
    end := controller.storage.TakeSnapshot(1000);
    NothingRemoved(DOCS, Gone(g, cycle.seen));
    BigOutscoresSmall(end);
  }

  lemma NothingRemoved(docs: Documents, cs: seq<Candidate>)
    requires cs == []
    ensures docs - Ids(cs) == docs
  {
  }

  lemma StaleCycle(cycle: Cycle, g: Guard, compression: Option<CompressionCallback>, config: EvictionConfig,
                   clock: nat -> nat, result: EvictionResult)
    requires Lawful(cycle, g, compression, config, clock, result) && !config.compressBeforeEviction
    requires cycle.needed == 50 && "big" in g.protectedDocs
    requires cycle.before.docs == DOCS && cycle.before.policies == DefaultTactical() && cycle.before.now == 1000
    ensures cycle.middle == cycle.before && Gone(g, cycle.seen) == []
    ensures result.bytesFreed == result.compressionSavings == 0
  {
    hide Lawful, Snapshot.IsEvictable, Score;
    WithoutCompression(cycle, g, compression, config, clock, result);
    BigOutscoresSmall(cycle.middle);
    StaleFlagBlocks(cycle, g, compression, config, clock, result, "big");
  }

  lemma BigOutscoresSmall(s: Snapshot)
    requires s.docs == DOCS && s.policies == DefaultTactical() && s.now == 1000
    ensures s.IsEvictable("big") && s.IsEvictable("small")
    ensures s.CandidateOf("small").score < s.CandidateOf("big").score
    ensures forall id :: s.IsEvictable(id) ==> id == "big" || id == "small"
  {
  }

  lemma WithoutCompression(cycle: Cycle, g: Guard, compression: Option<CompressionCallback>, config: EvictionConfig,
                           clock: nat -> nat, result: EvictionResult)
    requires Lawful(cycle, g, compression, config, clock, result) && !config.compressBeforeEviction
    ensures cycle.middle == cycle.before && result.compressionSavings == 0
  {
    hide Selection, Stopped, Accounts;
  }

  lemma TopIsFirst(s: Snapshot, needed: nat, cs: seq<Candidate>, id: DocId)
    requires Selection(s, needed, cs) && s.IsEvictable(id) && cs != []
    requires forall other :: s.IsEvictable(other) && other != id ==> s.CandidateOf(other).score < s.CandidateOf(id).score
    ensures cs[0].docId == id
  {
    hide Score, Snapshot.IsEvictable;
    SelectedIsEvictable(s, needed, cs, 0);
    if Listed(cs, id) {
      var j :| 0 <= j < |cs| && cs[j].docId == id;
      assert cs[j] == s.CandidateOf(id);
    }
    assert cs[0] == s.CandidateOf(cs[0].docId);
  }

  lemma OneSize(c: Candidate)
    ensures SumSizes([c]) == c.size
  {
    assert [c][..0] == [];
  }

  lemma {:induction false} NoneGone(g: Guard, cs: seq<Candidate>)
    requires forall i :: 0 <= i < |cs| ==> !g.Attempts(cs[i])
    ensures Gone(g, cs) == [] && SumSizes(Gone(g, cs)) == 0
  {
    if cs != [] {
      NoneGone(g, cs[..|cs| - 1]);
    }
  }

  // --- Whole runs ---

  /** The tracked documents, the byte counter beside them, and the operator's protections. */
  datatype World = World(docs: Documents, bytes: int, protectedDocs: set<DocId>)

  /** Calls of the storage and of the controller. */
  datatype Event =
    | Registered(doc: Document)
    | Unregistered(id: DocId)
    | Touched(id: DocId, now: nat)
    | FlagSet(id: DocId, protected: bool)
    | Recompressed(id: DocId, newSize: nat)
    | Marked(id: DocId)
    | Unmarked(id: DocId)
    | Cycled(cycle: Cycle, guard: Guard, compression: Option<CompressionCallback>, config: EvictionConfig,
             clock: nat -> nat, result: EvictionResult)

  function Flagged(docs: Documents, id: DocId, protected: bool): Documents {
    if id in docs then docs[id := docs[id].(protected := protected)] else docs
  }

  function SizeOf(docs: Documents, id: DocId): nat {
    if id in docs then docs[id].size else 0
  }

  /** The effects the storage and controller methods promise. */
  ghost predicate Next(w: World, e: Event, w': World) {
    match e
    case Registered(doc) =>
      w' == w.(docs := w.docs[doc.docId := doc], bytes := w.bytes - SizeOf(w.docs, doc.docId) + doc.size)
    case Unregistered(id) => w' == w.(docs := w.docs - {id}, bytes := w.bytes - SizeOf(w.docs, id))
    case Touched(id, now) =>
      w' == w.(docs := if id in w.docs then w.docs[id := w.docs[id].(lastAccessed := now)] else w.docs)
    case FlagSet(id, protected) => w' == w.(docs := Flagged(w.docs, id, protected))
    case Recompressed(id, newSize) =>
      w' == if id !in w.docs then w else
              w.(docs := w.docs[id := w.docs[id].(size := newSize, compressed := true)],
                 bytes := w.bytes - if newSize <= w.docs[id].size then w.docs[id].size - newSize else 0)
    case Marked(id) => w' == w.(docs := Flagged(w.docs, id, true), protectedDocs := w.protectedDocs + {id})
    case Unmarked(id) => w' == w.(docs := Flagged(w.docs, id, false), protectedDocs := w.protectedDocs - {id})
    case Cycled(cycle, g, compression, config, clock, result) =>
      && g.protectedDocs == w.protectedDocs && cycle.before.docs == w.docs && cycle.before.used == w.bytes
      && Lawful(cycle, g, compression, config, clock, result)
      && w' == w.(docs := cycle.middle.docs - Ids(Gone(g, cycle.seen)),
                  bytes := w.bytes - result.bytesFreed - result.compressionSavings)
  }

  ghost predicate IsRun(states: seq<World>, events: seq<Event>) {
    && |states| == |events| + 1
    && states[0] == World(map[], 0, {})
    && forall k :: 0 <= k < |events| ==> Next(states[k], events[k], states[k + 1])
  }

  /** The class a document was last registered with. */
  ghost function LastClass(events: seq<Event>, id: DocId): Option<QoSClass> {
    if events == [] then None else
      var e := events[|events| - 1];
      if e.Registered? && e.doc.docId == id then Some(e.doc.cls) else LastClass(events[..|events| - 1], id)
  }

  /** The operator's last word on a document was to protect it. */
  ghost predicate InForce(events: seq<Event>, id: DocId) {
    events != []
    && (var e := events[|events| - 1];
        if e.Marked? && e.id == id then true
        else if e.Unmarked? && e.id == id then false
        else InForce(events[..|events| - 1], id))
  }

  lemma {:induction false} RunRemembers(states: seq<World>, events: seq<Event>, k: nat, id: DocId)
    requires IsRun(states, events) && k <= |events|
    ensures id in states[k].protectedDocs <==> InForce(events[..k], id)
    ensures id in states[k].docs ==> LastClass(events[..k], id) == Some(states[k].docs[id].cls)
  {
    hide Next;
    if k > 0 {
      RunRemembers(states, events, k - 1, id);
      assert events[..k][..k - 1] == events[..k - 1];
      assert Next(states[k - 1], events[k - 1], states[k]);
      NextRemembers(states[k - 1], events[k - 1], states[k], id);
    }
  }

  lemma NextRemembers(w: World, e: Event, w': World, id: DocId)
    requires Next(w, e, w')
    ensures id in w'.protectedDocs <==> if e.Marked? && e.id == id then true
                                        else if e.Unmarked? && e.id == id then false
                                        else id in w.protectedDocs
    ensures id in w'.docs ==> if e.Registered? && e.doc.docId == id then w'.docs[id].cls == e.doc.cls
                              else id in w.docs && w'.docs[id].cls == w.docs[id].cls
  {
    hide Lawful, Gone, Ids;
    if e.Cycled? && id in e.cycle.middle.docs {
      MiddleKeeps(e.cycle, e.guard, e.compression, e.config, e.clock, e.result, id);
    }
  }

  /**
   In every run, whatever a cycle evicts was last registered below Critical and was
   not under operator protection then, also when it has been registered again since
   it was marked.
   */
  lemma RunsAreSafe(states: seq<World>, events: seq<Event>, k: nat, id: DocId)
    requires IsRun(states, events) && k < |events| && events[k].Cycled?
    requires id in Ids(Gone(events[k].guard, events[k].cycle.seen))
    ensures LastClass(events[..k], id).Some? && !LastClass(events[..k], id).value.Critical?
    ensures !InForce(events[..k], id)
  {
    hide Lawful, Gone, Ids, LastClass, InForce;
    var e := events[k];
    assert Next(states[k], e, states[k + 1]);
    CycleIsSafe(e.cycle, e.guard, e.compression, e.config, e.clock, e.result, id);
    RunRemembers(states, events, k, id);
  }

  // --- The byte counter over runs ---

  /** How much an event made a document grow. */
  function GrowthOf(w: World, e: Event): nat {
    if e.Recompressed? && e.id in w.docs then Growth(w.docs[e.id], e.newSize) else 0
  }

  function TotalGrowth(states: seq<World>, events: seq<Event>, k: nat): nat
    requires k <= |events| < |states|
  {
    if k == 0 then 0 else TotalGrowth(states, events, k - 1) + GrowthOf(states[k - 1], events[k - 1])
  }

  /** In every run the byte counter is the sum of the sizes less whatever documents grew when compressed, so it is exact exactly when none ever did. */
  lemma {:induction false} CounterLagsByGrowth(states: seq<World>, events: seq<Event>, k: nat)
    requires IsRun(states, events) && k <= |events|
    ensures states[k].bytes == TotalBytes(states[k].docs) - TotalGrowth(states, events, k)
  {
    hide Next, TotalBytes;
    if k == 0 {
      NothingStored();
    } else {
      CounterLagsByGrowth(states, events, k - 1);
      assert Next(states[k - 1], events[k - 1], states[k]);
      NextKeepsGap(states[k - 1], events[k - 1], states[k]);
    }
  }

  lemma NothingStored()
    ensures TotalBytes(map[]) == 0
  {
  }

  lemma NextKeepsGap(w: World, e: Event, w': World)
    requires Next(w, e, w')
    ensures w'.bytes - TotalBytes(w'.docs) == w.bytes - TotalBytes(w.docs) - GrowthOf(w, e)
  {
    hide TotalBytes, Lawful, Gone, Ids;
    match e {
      case Registered(doc) => PutBytes(w.docs, doc.docId, doc);
      case Unregistered(id) => RemoveBytes(w.docs, id);
      case Touched(id, now) => if id in w.docs { PutBytes(w.docs, id, w.docs[id].(lastAccessed := now)); }
      case FlagSet(id, protected) => if id in w.docs { PutBytes(w.docs, id, w.docs[id].(protected := protected)); }
      case Recompressed(id, newSize) =>
        if id in w.docs { PutBytes(w.docs, id, w.docs[id].(size := newSize, compressed := true)); }
      case Marked(id) => if id in w.docs { PutBytes(w.docs, id, w.docs[id].(protected := true)); }
      case Unmarked(id) => if id in w.docs { PutBytes(w.docs, id, w.docs[id].(protected := false)); }
      case Cycled(cycle, g, compression, config, clock, result) =>
        CycleBytes(cycle, g, compression, config, clock, result);
    }
  }

  lemma PutBytes(docs: Documents, id: DocId, doc: Document)
    ensures TotalBytes(docs[id := doc]) == TotalBytes(docs) - SizeOf(docs, id) + doc.size
  {
    hide TotalBytes;
    TotalPut(docs, id, doc);
    RemoveBytes(docs, id);
  }

  lemma RemoveBytes(docs: Documents, id: DocId)
    ensures TotalBytes(docs - {id}) == TotalBytes(docs) - SizeOf(docs, id)
  {
    hide TotalBytes;
    if id in docs {
      TotalSplit(docs, id);
    } else {
      TotalMissing(docs, id);
    }
  }

  /** A cycle takes off the stored bytes exactly what it reports as freed and saved. */
  lemma CycleBytes(cycle: Cycle, g: Guard, compression: Option<CompressionCallback>, config: EvictionConfig,
                   clock: nat -> nat, result: EvictionResult)
    requires Lawful(cycle, g, compression, config, clock, result)
    ensures TotalBytes(cycle.before.docs)
         == TotalBytes(cycle.middle.docs - Ids(Gone(g, cycle.seen))) + result.bytesFreed + result.compressionSavings
  {
    hide TotalBytes, Gone, Ids, SumSizes, Stopped, CompressedFirst, Snapshot.IsEvictable, Score;
    SavingsAreUsedLess(cycle, g, compression, config, clock, result);
    forall i | 0 <= i < |cycle.seen| ensures cycle.seen[i] == cycle.selected[i] {
    }
    GoneBytes(g, cycle.middle.docs, cycle.seen);
  }
}
