/**
 The eviction controller (src/qos/eviction.rs): compression first, then eviction
 of the selected documents through callbacks, under time and count limits, with
 operator protection and an audit trail.
 */
module Eviction {
  import opened Wrappers
  import opened Qos
  import opened Storage
  import opened Audit

  /** Whether the store deleted the document. */
  type EvictionCallback = DocId -> bool

  /** The size after compression, if it succeeded. */
  type CompressionCallback = DocId -> Option<nat>

  datatype EvictionConfig = EvictionConfig(
    evictionThreshold: real, targetPressure: real, compressBeforeEviction: bool,
    maxEvictionsPerCycle: nat, maxCycleDurationMs: nat)

  datatype EvictionResult = EvictionResult(
    docsEvicted: nat, bytesFreed: nat, byClass: map<QoSClass, nat>, compressions: nat, compressionSavings: nat,
    failures: nat, pressureBefore: real, pressureAfter: real)

  // --- What becomes of a list of candidates ---

  /** Operator protection and the eviction callback, fixed during a cycle. */
  datatype Guard = Guard(protectedDocs: set<DocId>, callback: Option<EvictionCallback>) {
    predicate Attempts(c: Candidate) { c.docId !in protectedDocs }

    predicate Evicts(c: Candidate) {
      Attempts(c) && callback.Some? && callback.value(c.docId)
    }
  }

  function Gone(g: Guard, cs: seq<Candidate>): seq<Candidate> {
    if cs == [] then [] else
      Gone(g, cs[..|cs| - 1]) + if g.Evicts(cs[|cs| - 1]) then [cs[|cs| - 1]] else []
  }

  function CountFailures(g: Guard, cs: seq<Candidate>): nat {
    if cs == [] then 0 else
      var c := cs[|cs| - 1];
      CountFailures(g, cs[..|cs| - 1]) + if g.Attempts(c) && !g.Evicts(c) then 1 else 0
  }

  function EvictedEntry(c: Candidate): AuditEntry { AuditEntry(Evicted, c.docId, c.cls, Some(c.size)) }

  function FailedEntry(docId: DocId, cls: QoSClass): AuditEntry { AuditEntry(FailedEviction, docId, cls, None) }

  /** One entry for every candidate attempted. */
  function Trail(g: Guard, cs: seq<Candidate>): seq<AuditEntry> {
    if cs == [] then [] else
      var c := cs[|cs| - 1];
      Trail(g, cs[..|cs| - 1])
      + if g.Evicts(c) then [EvictedEntry(c)] else if g.Attempts(c) then [FailedEntry(c.docId, c.cls)] else []
  }

  function Ids(cs: seq<Candidate>): set<DocId> { set i | 0 <= i < |cs| :: cs[i].docId }

  function CountClass(cs: seq<Candidate>, cls: QoSClass): nat {
    if cs == [] then 0 else CountClass(cs[..|cs| - 1], cls) + if cs[|cs| - 1].cls == cls then 1 else 0
  }

  /** The class counts of a list add up to its length. */
  lemma {:induction false} ClassCountsAddUp(cs: seq<Candidate>)
    ensures CountClass(cs, Critical) + CountClass(cs, High) + CountClass(cs, Normal) + CountClass(cs, Low)
            + CountClass(cs, Bulk) == |cs|
  {
    if cs != [] {
      ClassCountsAddUp(cs[..|cs| - 1]);
    }
  }

  /** The evictions an audit trail names. */
  function EvictionsIn(es: seq<AuditEntry>): seq<AuditEntry> {
    if es == [] then [] else
      EvictionsIn(es[..|es| - 1]) + if es[|es| - 1].action == Evicted then [es[|es| - 1]] else []
  }

  lemma {:induction false} EvictionsInConcat(es: seq<AuditEntry>, fs: seq<AuditEntry>)
    ensures EvictionsIn(es + fs) == EvictionsIn(es) + EvictionsIn(fs)
    decreases |fs|
  {
    if fs == [] {
      assert es + fs == es;
    } else {
      var front := fs[..|fs| - 1];
      assert (es + fs)[..|es + fs| - 1] == es + front;
      EvictionsInConcat(es, front);
    }
  }

  function EntriesOf(cs: seq<Candidate>): seq<AuditEntry> {
    if cs == [] then [] else EntriesOf(cs[..|cs| - 1]) + [EvictedEntry(cs[|cs| - 1])]
  }

  lemma {:induction false} TrailNamesGone(g: Guard, cs: seq<Candidate>)
    ensures EvictionsIn(Trail(g, cs)) == EntriesOf(Gone(g, cs))
  {
    if cs != [] {
      var front, c := cs[..|cs| - 1], cs[|cs| - 1];
      TrailNamesGone(g, front);
      if g.Evicts(c) {
        assert (Gone(g, front) + [c])[..|Gone(g, front)|] == Gone(g, front);
        EvictionsInSnoc(Trail(g, front), EvictedEntry(c));
      } else if g.Attempts(c) {
        EvictionsInSnoc(Trail(g, front), FailedEntry(c.docId, c.cls));
        assert Gone(g, cs) == Gone(g, front);
      } else {
        assert Trail(g, cs) == Trail(g, front) && Gone(g, cs) == Gone(g, front);
      }
    }
  }

  lemma NothingLogged()
    ensures EvictionsIn([]) == [] && CountAction([], Compressed) == 0
  {
  }

  lemma EvictionsInSnoc(es: seq<AuditEntry>, e: AuditEntry)
    ensures EvictionsIn(es + [e]) == EvictionsIn(es) + if e.action == Evicted then [e] else []
    ensures CountAction(es + [e], Compressed) == CountAction(es, Compressed) + if e.action == Compressed then 1 else 0
  {
    assert (es + [e])[..|es|] == es;
  }

  /** Everything known about the effect of one more candidate. */
  lemma GoneStep(g: Guard, cs: seq<Candidate>, k: nat)
    requires k < |cs|
    ensures var gone, gone' := Gone(g, cs[..k]), Gone(g, cs[..k + 1]);
            && gone' == (if g.Evicts(cs[k]) then gone + [cs[k]] else gone)
            && Ids(gone') == (if g.Evicts(cs[k]) then Ids(gone) + {cs[k].docId} else Ids(gone))
            && SumSizes(gone') == SumSizes(gone) + (if g.Evicts(cs[k]) then cs[k].size else 0)
            && (forall c: QoSClass ::
                  CountClass(gone', c) == CountClass(gone, c) + if g.Evicts(cs[k]) && cs[k].cls == c then 1 else 0)
    ensures CountFailures(g, cs[..k + 1])
         == CountFailures(g, cs[..k]) + if g.Attempts(cs[k]) && !g.Evicts(cs[k]) then 1 else 0
    ensures Trail(g, cs[..k + 1])
         == Trail(g, cs[..k]) + if g.Evicts(cs[k]) then [EvictedEntry(cs[k])]
                                else if g.Attempts(cs[k]) then [FailedEntry(cs[k].docId, cs[k].cls)] else []
  {
    assert cs[..k + 1][..k] == cs[..k];
    var gone := Gone(g, cs[..k]);
    if g.Evicts(cs[k]) {
      SnocEffect(gone, cs[k]);
    }
  }

  lemma SnocEffect(cs: seq<Candidate>, c: Candidate)
    ensures Ids(cs + [c]) == Ids(cs) + {c.docId}
    ensures SumSizes(cs + [c]) == SumSizes(cs) + c.size
    ensures forall cls: QoSClass :: CountClass(cs + [c], cls) == CountClass(cs, cls) + if c.cls == cls then 1 else 0
  {
    assert (cs + [c])[..|cs|] == cs;
    assert forall i :: 0 <= i < |cs| ==> (cs + [c])[i] == cs[i];
    assert (cs + [c])[|cs|] == c;
  }

  /** The evicted candidates are among those seen. */
  lemma {:induction false} GoneAreSeen(g: Guard, cs: seq<Candidate>, id: DocId)
    ensures id in Ids(Gone(g, cs)) <==> exists i :: 0 <= i < |cs| && cs[i].docId == id && g.Evicts(cs[i])
  {
    hide *;
    NothingSeen(g, cs);
    if cs != [] {
      var n := |cs| - 1;
      GoneAreSeen(g, cs[..n], id);
      assert cs[..n + 1] == cs;
      GoneStep(g, cs, n);
      if id in Ids(Gone(g, cs[..n])) {
        var i :| 0 <= i < n && cs[..n][i].docId == id && g.Evicts(cs[..n][i]);
        assert cs[i].docId == id && g.Evicts(cs[i]);
      }
      if i :| 0 <= i < |cs| && cs[i].docId == id && g.Evicts(cs[i]) {
        if i < n {
          assert cs[..n][i] == cs[i];
        }
      }
    }
  }

  // --- Compression ---

  /** A compressible document shrinks when its callback reports a smaller size. */
  predicate Shrinks(s: Snapshot, callback: Option<CompressionCallback>, id: DocId)
    requires id in s.docs
  {
    && s.IsCompressible(id)
    && callback.Some?
    && callback.value(id).Some?
    && callback.value(id).value < s.docs[id].size
  }

  function CompressedDocs(s: Snapshot, callback: Option<CompressionCallback>, pending: set<DocId>): Documents {
    map id | id in s.docs ::
      if id !in pending && Shrinks(s, callback, id)
      then s.docs[id].(size := callback.value(id).value, compressed := true)
      else s.docs[id]
  }

  /** The documents outside `pending` that shrink. */
  ghost function Shrunk(s: Snapshot, callback: Option<CompressionCallback>, pending: set<DocId>): set<DocId> {
    set id | id in s.docs && id !in pending && Shrinks(s, callback, id)
  }

  /** What compression may log: a shrunk document at its new size, or a callback that failed. */
  predicate Truthful(s: Snapshot, callback: Option<CompressionCallback>, e: AuditEntry) {
    && e.docId in s.docs && e.cls == s.docs[e.docId].cls
    && (|| (e.action == Compressed && Shrinks(s, callback, e.docId) && e.size == callback.value(e.docId))
        || (e == FailedEntry(e.docId, e.cls) && callback.Some? && callback.value(e.docId).None?))
  }

  /** What compression leaves: a document changes exactly when it may be compressed and its callback reports a smaller size, which it then takes. */
  lemma CompressedIff(s: Snapshot, callback: Option<CompressionCallback>, id: DocId)
    requires id in s.docs
    ensures id in CompressedDocs(s, callback, {})
    ensures var reported := if callback.Some? then callback.value(id) else None;
            CompressedDocs(s, callback, {})[id] ==
              if s.IsCompressible(id) && reported.Some? && reported.value < s.docs[id].size
              then s.docs[id].(size := reported.value, compressed := true) else s.docs[id]
  {
  }

  lemma CompressNothing(s: Snapshot, callback: Option<CompressionCallback>)
    ensures CompressedDocs(s, callback, s.docs.Keys) == s.docs
    ensures Shrunk(s, callback, s.docs.Keys) == {}
    ensures callback.None? ==> CompressedDocs(s, callback, {}) == s.docs && Shrunk(s, callback, {}) == {}
  {
  }

  /** Documents that do not shrink need no visit. */
  lemma CompressRest(s: Snapshot, callback: Option<CompressionCallback>, pending: set<DocId>)
    requires forall id :: id in pending && id in s.docs ==> !Shrinks(s, callback, id)
    ensures CompressedDocs(s, callback, pending) == CompressedDocs(s, callback, {})
    ensures Shrunk(s, callback, pending) == Shrunk(s, callback, {})
  {
  }

  lemma CompressOne(s: Snapshot, callback: Option<CompressionCallback>, pending: set<DocId>, id: DocId)
    requires id in pending && id in s.docs
    ensures var docs := CompressedDocs(s, callback, pending);
            && id in docs && docs[id] == s.docs[id]
            && CompressedDocs(s, callback, pending - {id})
               == (if Shrinks(s, callback, id)
                   then docs[id := s.docs[id].(size := callback.value(id).value, compressed := true)]
                   else docs)
  {
  }

  lemma ShrunkOne(s: Snapshot, callback: Option<CompressionCallback>, pending: set<DocId>, id: DocId)
    requires id in pending && id in s.docs
    ensures |Shrunk(s, callback, pending - {id})|
         == |Shrunk(s, callback, pending)| + if Shrinks(s, callback, id) then 1 else 0
  {
    hide Shrinks;
    assert Shrunk(s, callback, pending - {id})
        == Shrunk(s, callback, pending) + if Shrinks(s, callback, id) then {id} else {};
  }

  // --- The controller ---

  /** What a cycle looked at and how far it got. */
  datatype Cycle = Cycle(needed: nat, before: Snapshot, middle: Snapshot, selected: seq<Candidate>, seen: seq<Candidate>)

  class EvictionController {
    const storage: QoSAwareStorage
    const auditLog: EvictionAuditLog
    const config: EvictionConfig
    var evictionCallback: Option<EvictionCallback>
    var compressionCallback: Option<CompressionCallback>
    var protectedDocs: set<DocId>
    var recentStats: seq<EvictionResult>

    ghost predicate Valid()
      reads this, storage, auditLog
    {
      storage.Valid() && auditLog.Valid() && |recentStats| <= 10
    }

    function TheGuard(): Guard
      reads this
    {
      Guard(protectedDocs, evictionCallback)
    }

    constructor (storage: QoSAwareStorage, auditLog: EvictionAuditLog, config: EvictionConfig)
      requires storage.Valid() && auditLog.Valid()
      ensures this.storage == storage && this.auditLog == auditLog && this.config == config
      ensures Valid() && protectedDocs == {} && evictionCallback.None? && compressionCallback.None?
    {
      this.storage, this.auditLog, this.config := storage, auditLog, config;
      evictionCallback, compressionCallback, protectedDocs, recentStats := None, None, {}, [];
    }

    method MarkProtected(docId: DocId)
      requires Valid()
      modifies this`protectedDocs, storage`documents, auditLog
      ensures Valid() && protectedDocs == old(protectedDocs) + {docId} && storage.Gap() == old(storage.Gap())
      ensures storage.documents == if docId in old(storage.documents)
                                   then old(storage.documents)[docId := old(storage.documents)[docId].(protected := true)]
                                   else old(storage.documents)
      ensures auditLog.history == old(auditLog.history)
           + if docId in old(storage.documents)
             then [AuditEntry(MarkedProtected, docId, old(storage.documents)[docId].cls, None)] else []
    {
      protectedDocs := protectedDocs + {docId};
      var found := storage.SetProtected(docId, true);
      if found {
        auditLog.Record(AuditEntry(MarkedProtected, docId, storage.documents[docId].cls, None));
      }
    }

    method UnmarkProtected(docId: DocId)
      requires Valid()
      modifies this`protectedDocs, storage`documents, auditLog
      ensures Valid() && protectedDocs == old(protectedDocs) - {docId} && storage.Gap() == old(storage.Gap())
      ensures storage.documents == if docId in old(storage.documents)
                                   then old(storage.documents)[docId := old(storage.documents)[docId].(protected := false)]
                                   else old(storage.documents)
      ensures auditLog.history == old(auditLog.history)
           + if docId in old(storage.documents)
             then [AuditEntry(UnmarkedProtected, docId, old(storage.documents)[docId].cls, None)] else []
    {
      protectedDocs := protectedDocs - {docId};
      var found := storage.SetProtected(docId, false);
      if found {
        auditLog.Record(AuditEntry(UnmarkedProtected, docId, storage.documents[docId].cls, None));
      }
    }

    /** A document that is no longer tracked counts with the size it was selected at, and leaves no entry. */
    method EvictDocument(c: Candidate) returns (r: Option<nat>)
      requires Valid()
      modifies storage, auditLog
      ensures Valid() && storage.Gap() == old(storage.Gap())
      ensures r.Some? <==> evictionCallback.Some? && evictionCallback.value(c.docId)
      ensures r.None? ==> storage.documents == old(storage.documents) && auditLog.history == old(auditLog.history)
      ensures r.None? ==> storage.currentStorageBytes == old(storage.currentStorageBytes)
      ensures r.Some? ==> storage.documents == old(storage.documents) - {c.docId}
      ensures r.Some? && c.docId in old(storage.documents) ==>
                var doc := old(storage.documents)[c.docId];
                && r.value == doc.size
                && storage.currentStorageBytes == old(storage.currentStorageBytes) - doc.size
                && auditLog.history == old(auditLog.history) + [AuditEntry(Evicted, c.docId, c.cls, Some(doc.size))]
      ensures r.Some? && c.docId !in old(storage.documents) ==>
                && r.value == c.size
                && storage.currentStorageBytes == old(storage.currentStorageBytes)
                && auditLog.history == old(auditLog.history)
    {
      if evictionCallback.None? || !evictionCallback.value(c.docId) {
        return None;
      }
      var removed := storage.UnregisterDocument(c.docId);
      if removed.Some? {
        auditLog.Record(AuditEntry(Evicted, c.docId, c.cls, Some(removed.value.size)));
        return Some(removed.value.size);
      }
      return Some(c.size);
    }

    /** The eviction loop with its limits; `clock` gives the milliseconds elapsed at each turn. */
    method EvictCandidates(cs: seq<Candidate>, needed: nat, start: EvictionResult, clock: nat -> nat)
      returns (result: EvictionResult, ghost seen: nat)
      requires Valid() && DistinctIds(cs)
      requires forall i :: 0 <= i < |cs| ==>
                 cs[i].docId in storage.documents && storage.documents[cs[i].docId].size == cs[i].size
      requires start.docsEvicted == start.bytesFreed == start.failures == 0 && start.byClass == map[]
      modifies storage, auditLog
      ensures Valid() && seen <= |cs| && storage.Gap() == old(storage.Gap())
      ensures var gone := Gone(TheGuard(), cs[..seen]);
              && storage.documents == old(storage.documents) - Ids(gone)
              && storage.currentStorageBytes == old(storage.currentStorageBytes) - SumSizes(gone)
              && result == start.(docsEvicted := |gone|, bytesFreed := SumSizes(gone), byClass := result.byClass,
                                  failures := CountFailures(TheGuard(), cs[..seen]))
              && (forall c: QoSClass :: Tally(result.byClass, c) == CountClass(gone, c))
      ensures auditLog.history == old(auditLog.history) + Trail(TheGuard(), cs[..seen])
      ensures Stopped(TheGuard(), config, cs, needed, start.compressionSavings, clock, seen)
    {
      hide Gone, Trail, CountFailures, SumSizes, CountClass, Ids, TotalBytes, EvictionAuditLog.Valid, QoSAwareStorage.Valid, QoSAwareStorage.Gap;
      ghost var g := TheGuard();
      result := start;
      seen := 0;
      NothingSeen(g, cs);
      var i := 0;
      while i < |cs|
        invariant 0 <= i == seen <= |cs|
        invariant storage.Valid() && auditLog.Valid() && storage.Gap() == old(storage.Gap())
        invariant storage.documents == old(storage.documents) - Ids(Gone(g, cs[..i]))
        invariant storage.currentStorageBytes == old(storage.currentStorageBytes) - SumSizes(Gone(g, cs[..i]))
        invariant result == start.(docsEvicted := |Gone(g, cs[..i])|, bytesFreed := SumSizes(Gone(g, cs[..i])),
                                   byClass := result.byClass, failures := CountFailures(g, cs[..i]))
        invariant forall c: QoSClass :: Tally(result.byClass, c) == CountClass(Gone(g, cs[..i]), c)
        invariant auditLog.history == old(auditLog.history) + Trail(g, cs[..i])
        invariant Unmet(g, cs, needed, start.compressionSavings, i + 1)
      {
        if clock(i) > config.maxCycleDurationMs {
          break;
        }
        if result.docsEvicted >= config.maxEvictionsPerCycle {
          break;
        }
        var c := cs[i];
        GoneStep(g, cs, i);
        StillTracked(g, cs, i);
        i, seen := i + 1, seen + 1;
        if c.docId in protectedDocs {
          continue;
        }
        RemoveMore(old(storage.documents), Ids(Gone(g, cs[..i - 1])), c.docId);
        var r := EvictDocument(c);
        if r.Some? {
          result := result.(docsEvicted := result.docsEvicted + 1, bytesFreed := result.bytesFreed + r.value,
                            byClass := result.byClass[c.cls := Tally(result.byClass, c.cls) + 1]);
          if result.bytesFreed + result.compressionSavings >= needed {
            break;
          }
        } else {
          result := result.(failures := result.failures + 1);
          auditLog.Record(FailedEntry(c.docId, c.cls));
        }
      }
    }

    /** Compresses what may be compressed, keeping only results that are smaller. */
    method CompressEligibleDocuments(now: nat) returns (savings: nat, compressions: nat, ghost entries: seq<AuditEntry>)
      requires Valid()
      modifies storage, auditLog
      ensures Valid() && storage.Gap() == old(storage.Gap())
      ensures storage.documents == CompressedDocs(old(storage.TakeSnapshot(now)), compressionCallback, {})
      ensures storage.currentStorageBytes == old(storage.currentStorageBytes) - savings
      ensures compressions == |Shrunk(old(storage.TakeSnapshot(now)), compressionCallback, {})|
      ensures auditLog.history == old(auditLog.history) + entries && EvictionsIn(entries) == []
      ensures CountAction(entries, Compressed) == compressions
      ensures forall e :: e in entries ==> Truthful(old(storage.TakeSnapshot(now)), compressionCallback, e)
    {
      hide CompressedDocs, TotalBytes, Shrunk, EvictionsIn, CountAction, EvictionAuditLog.Valid, QoSAwareStorage.Valid, QoSAwareStorage.Gap;
      ghost var s := storage.TakeSnapshot(now);
      savings, compressions, entries := 0, 0, [];
      CompressNothing(s, compressionCallback);
      NothingLogged();
      if compressionCallback.None? {
        return;
      }
      var ids := storage.GetCompressionCandidates(now);
      ghost var pending := s.docs.Keys;
      assert auditLog.history == old(auditLog.history) + entries;
      forall j | 0 <= j < |ids| ensures ids[j] in pending { assert ids[j] in ids; }
      for i := 0 to |ids|
        invariant storage.Valid() && auditLog.Valid() && storage.Gap() == old(storage.Gap())
        invariant storage.documents == CompressedDocs(s, compressionCallback, pending)
        invariant forall j :: i <= j < |ids| ==> ids[j] in pending
        invariant forall id :: id in s.docs && id !in pending ==> id in ids[..i]
        invariant forall id :: id in ids[..i] ==> id !in pending
        invariant storage.currentStorageBytes == old(storage.currentStorageBytes) - savings
        invariant auditLog.history == old(auditLog.history) + entries && EvictionsIn(entries) == []
        invariant compressions == |Shrunk(s, compressionCallback, pending)| == CountAction(entries, Compressed)
        invariant forall e :: e in entries ==> Truthful(s, compressionCallback, e)
      {
        var id := ids[i];
        assert id in ids;
        CompressOne(s, compressionCallback, pending, id);
        ShrunkOne(s, compressionCallback, pending, id);
        pending := pending - {id};
        var doc := storage.documents[id];
        var newSize := compressionCallback.value(id);
        if newSize.Some? {
          if newSize.value < doc.size {
            var diff := storage.UpdateCompressed(id, newSize.value);
            auditLog.Record(AuditEntry(Compressed, id, doc.cls, newSize));
            EvictionsInSnoc(entries, AuditEntry(Compressed, id, doc.cls, newSize));
            entries := entries + [AuditEntry(Compressed, id, doc.cls, newSize)];
            savings, compressions := savings + (doc.size - newSize.value), compressions + 1;
          }
        } else {
          auditLog.Record(FailedEntry(id, doc.cls));
          EvictionsInSnoc(entries, FailedEntry(id, doc.cls));
          entries := entries + [FailedEntry(id, doc.cls)];
        }
      }
      assert ids[..|ids|] == ids;
      CompressRest(s, compressionCallback, pending);
    }

    /** Down to the target pressure, unless the caller names a number of bytes. */
    function BytesNeeded(target: Option<nat>): nat
      reads this, storage
    {
      if target.Some? then target.value else
        var goal := (storage.maxStorageBytes as real * config.targetPressure).Floor;
        var over := Shown(storage.currentStorageBytes) - if goal < 0 then 0 else goal;
        if over < 0 then 0 else over
    }

    /** Selection and eviction, once compression has not sufficed. */
    method EvictSelected(needed: nat, start: EvictionResult, now: nat, clock: nat -> nat)
      returns (result: EvictionResult, ghost selected: seq<Candidate>, ghost seen: seq<Candidate>)
      requires Valid() && start.compressionSavings < needed
      requires start.docsEvicted == start.bytesFreed == start.failures == 0 && start.byClass == map[]
      modifies storage, auditLog
      ensures Valid() && seen <= selected && storage.Gap() == old(storage.Gap())
      ensures Selection(old(storage.TakeSnapshot(now)), needed - start.compressionSavings, selected)
      ensures Stopped(TheGuard(), config, selected, needed, start.compressionSavings, clock, |seen|)
      ensures storage.documents == old(storage.documents) - Ids(Gone(TheGuard(), seen))
      ensures storage.currentStorageBytes == old(storage.currentStorageBytes) - result.bytesFreed
      ensures Accounts(TheGuard(), seen, result)
      ensures result.compressionSavings == start.compressionSavings && result.compressions == start.compressions
      ensures result.pressureBefore == start.pressureBefore
      ensures auditLog.history == old(auditLog.history) + Trail(TheGuard(), seen)
    {
      hide Gone, Trail, CountFailures, SumSizes, CountClass, Ids, TotalBytes, Stopped, QoSAwareStorage.Gap;
      var chosen := storage.GetEvictionCandidates(needed - start.compressionSavings, now);
      selected := chosen;
      SelectionMatches(storage.TakeSnapshot(now), needed - start.compressionSavings, chosen);
      ghost var n;
      result, n := EvictCandidates(chosen, needed, start, clock);
      seen := selected[..n];
    }

    /** Runs regardless of the pressure; `clock` gives the milliseconds elapsed at each turn of the eviction loop. */
    method ExecuteEvictionCycle(target: Option<nat>, now: nat, clock: nat -> nat)
      returns (result: EvictionResult, ghost cycle: Cycle)
      requires Valid()
      modifies storage, auditLog, this`recentStats
      ensures Valid() && storage.Gap() == old(storage.Gap())
      ensures cycle.needed == old(BytesNeeded(target)) && cycle.before == old(storage.TakeSnapshot(now))
      ensures Lawful(cycle, TheGuard(), compressionCallback, config, clock, result)
      ensures storage.documents == cycle.middle.docs - Ids(Gone(TheGuard(), cycle.seen))
      ensures old(storage.currentStorageBytes)
           == storage.currentStorageBytes + result.bytesFreed + result.compressionSavings
      ensures Audited(old(auditLog.history), auditLog.history, Gone(TheGuard(), cycle.seen))
      ensures result.pressureBefore == old(storage.StoragePressure()) && result.pressureAfter == storage.StoragePressure()
      ensures recentStats == if cycle.needed <= result.compressionSavings then old(recentStats)
                             else LastOf(old(recentStats) + [result], 10)
    {
      hide Gone, Trail, CountFailures, SumSizes, CountClass, Ids, TotalBytes, Stopped, CompressedDocs, EvictionsIn,
        EntriesOf, Selection, Audited, LastOf, Shrunk, Truthful, Snapshot.Gap, EvictionAuditLog.Valid, QoSAwareStorage.Valid, QoSAwareStorage.Gap;
      ghost var g := TheGuard();
      ghost var before, history := storage.TakeSnapshot(now), auditLog.history;
      storage.SnapshotGap(now);
      var needed := BytesNeeded(target);
      result := EvictionResult(0, 0, map[], 0, 0, 0, storage.StoragePressure(), storage.StoragePressure());
      cycle := Cycle(needed, before, before, [], []);
      NothingSeen(g, []);
      NothingAudited(history);
      if needed == 0 {
        return;
      }
      ghost var entries: seq<AuditEntry> := [];
      if config.compressBeforeEviction {
        var savings, compressions;
        savings, compressions, entries := CompressEligibleDocuments(now);
        result := result.(compressions := compressions, compressionSavings := savings);
        cycle := cycle.(middle := storage.TakeSnapshot(now));
        storage.SnapshotGap(now);
          if savings >= needed {
          result := result.(pressureAfter := storage.StoragePressure());
          RecordCompletion(result);
          CycleAudited(history, entries, g, [], auditLog.history);
          return;
        }
      }
      ghost var selected, seen;
      result, selected, seen := EvictSelected(needed, result, now, clock);
      cycle := cycle.(selected := selected, seen := seen);
      result := result.(pressureAfter := storage.StoragePressure());
      RecordCompletion(result);
      CycleAudited(history, entries, g, seen, auditLog.history);
      StoreStats(result);
    }

    /** Keeps the last ten results. */
    method StoreStats(result: EvictionResult)
      requires |recentStats| <= 10
      modifies this`recentStats
      ensures recentStats == LastOf(old(recentStats) + [result], 10) && |recentStats| <= 10
    {
      if |recentStats| >= 10 {
        recentStats := recentStats[1..];
      }
      recentStats := recentStats + [result];
    }

    /** Cycles aim at the smallest number of bytes that brings the use down to the target pressure. */
    lemma NeededIff(n: nat)
      requires config.targetPressure >= 0.0
      ensures n >= BytesNeeded(None) <==>
                Meets(Shown(storage.currentStorageBytes), n, storage.maxStorageBytes, config.targetPressure)
    {
      hide Shown;
      var goal := storage.maxStorageBytes as real * config.targetPressure;
      assert goal >= 0.0;
      FloorIff(Shown(storage.currentStorageBytes) - n, goal);
    }

    method RunEvictionCycle(now: nat, clock: nat -> nat) returns (r: Option<EvictionResult>, ghost cycle: Cycle)
      requires Valid()
      modifies storage, auditLog, this`recentStats
      ensures Valid() && storage.Gap() == old(storage.Gap())
      ensures r.None? <==> old(storage.StoragePressure()) < config.evictionThreshold
      ensures r.None? ==> unchanged(storage) && unchanged(auditLog) && unchanged(this)
      ensures r.Some? ==>
                && cycle.needed == old(BytesNeeded(None)) && cycle.before == old(storage.TakeSnapshot(now))
                && Lawful(cycle, TheGuard(), compressionCallback, config, clock, r.value)
                && storage.documents == cycle.middle.docs - Ids(Gone(TheGuard(), cycle.seen))
                && old(storage.currentStorageBytes)
                   == storage.currentStorageBytes + r.value.bytesFreed + r.value.compressionSavings
                && Audited(old(auditLog.history), auditLog.history, Gone(TheGuard(), cycle.seen))
                && r.value.pressureBefore == old(storage.StoragePressure()) && r.value.pressureAfter == storage.StoragePressure()
      ensures r.Some? && config.targetPressure >= 0.0 ==>
                forall n: nat ::
                  Meets(Shown(old(storage.currentStorageBytes)), n, storage.maxStorageBytes, config.targetPressure)
                  <==> n >= cycle.needed
    {
      hide Lawful, Gone, Ids, Audited, Shown, QoSAwareStorage.Gap, QoSAwareStorage.StoragePressure, BytesNeeded, Meets;
      if config.targetPressure >= 0.0 {
        forall n: nat
          ensures Meets(Shown(storage.currentStorageBytes), n, storage.maxStorageBytes, config.targetPressure)
                  <==> n >= BytesNeeded(None)
        {
          NeededIff(n);
        }
      }
      cycle := Cycle(0, storage.TakeSnapshot(now), storage.TakeSnapshot(now), [], []);
      if storage.StoragePressure() < config.evictionThreshold {
        return None, cycle;
      }
      var result;
      result, cycle := ExecuteEvictionCycle(None, now, clock);
      return Some(result), cycle;
    }

    method ForceEviction(bytesToFree: nat, now: nat, clock: nat -> nat)
      returns (result: EvictionResult, ghost cycle: Cycle)
      requires Valid()
      modifies storage, auditLog, this`recentStats
      ensures Valid() && storage.Gap() == old(storage.Gap())
      ensures cycle.needed == bytesToFree && cycle.before == old(storage.TakeSnapshot(now))
      ensures Lawful(cycle, TheGuard(), compressionCallback, config, clock, result)
      ensures storage.documents == cycle.middle.docs - Ids(Gone(TheGuard(), cycle.seen))
      ensures old(storage.currentStorageBytes)
           == storage.currentStorageBytes + result.bytesFreed + result.compressionSavings
      ensures Audited(old(auditLog.history), auditLog.history, Gone(TheGuard(), cycle.seen))
    {
      result, cycle := ExecuteEvictionCycle(Some(bytesToFree), now, clock);
    }

    /** The entry that closes a cycle. */
    method RecordCompletion(result: EvictionResult)
      requires Valid()
      modifies auditLog
      ensures Valid()
      ensures auditLog.history == old(auditLog.history)
           + [AuditEntry(CleanupCompleted, "system", Normal, Some(result.bytesFreed + result.compressionSavings))]
    {
      auditLog.Record(AuditEntry(CleanupCompleted, "system", Normal, Some(result.bytesFreed + result.compressionSavings)));
    }
  }

  /** With `n` bytes less, the use is down to the target share of the capacity. */
  predicate Meets(used: nat, n: nat, capacity: nat, target: real) {
    (used - n) as real <= capacity as real * target
  }

  lemma FloorIff(k: int, x: real)
    ensures k <= x.Floor <==> k as real <= x
  {
  }

  lemma RemoveMore(docs: Documents, ids: set<DocId>, id: DocId)
    ensures docs - (ids + {id}) == (docs - ids) - {id}
  {
  }

  /** A candidate not yet seen has not been evicted. */
  lemma StillTracked(g: Guard, cs: seq<Candidate>, i: nat)
    requires DistinctIds(cs) && i < |cs|
    ensures cs[i].docId !in Ids(Gone(g, cs[..i]))
  {
    GoneAreSeen(g, cs[..i], cs[i].docId);
  }

  lemma NothingSeen(g: Guard, cs: seq<Candidate>)
    ensures cs[..0] == [] && Gone(g, []) == [] && Ids([]) == {} && SumSizes([]) == 0 && CountFailures(g, []) == 0
    ensures Trail(g, []) == [] && forall c: QoSClass :: CountClass([], c) == 0 && Tally(map[], c) == 0
  {
  }

  lemma SelectionMatches(s: Snapshot, needed: nat, cs: seq<Candidate>)
    requires Selection(s, needed, cs)
    ensures DistinctIds(cs)
    ensures forall i :: 0 <= i < |cs| ==> cs[i].docId in s.docs && s.docs[cs[i].docId].size == cs[i].size
  {
  }

  /** The figures of a result are those of the candidates it saw. */
  ghost predicate Accounts(g: Guard, seen: seq<Candidate>, result: EvictionResult) {
    && result.docsEvicted == |Gone(g, seen)|
    && result.bytesFreed == SumSizes(Gone(g, seen))
    && result.failures == CountFailures(g, seen)
    && forall c: QoSClass :: Tally(result.byClass, c) == CountClass(Gone(g, seen), c)
  }

  /** The log grew, and the evictions it gained are exactly those of `gone`, in order, with their sizes. */
  ghost predicate Audited(before: seq<AuditEntry>, after: seq<AuditEntry>, gone: seq<Candidate>) {
    before <= after && EvictionsIn(after[|before|..]) == EntriesOf(gone)
  }

  lemma NothingAudited(history: seq<AuditEntry>)
    ensures Audited(history, history, []) && EvictionsIn([]) == []
  {
  }

  lemma CycleAudited(before: seq<AuditEntry>, entries: seq<AuditEntry>, g: Guard, seen: seq<Candidate>,
                     after: seq<AuditEntry>)
    requires EvictionsIn(entries) == []
    requires exists e: AuditEntry :: e.action != Evicted && after == before + entries + Trail(g, seen) + [e]
    ensures Audited(before, after, Gone(g, seen))
  {
    hide Trail, Gone, EntriesOf, EvictionsIn;
    var e: AuditEntry :| e.action != Evicted && after == before + entries + Trail(g, seen) + [e];
    assert after[|before|..] == entries + Trail(g, seen) + [e];
    EvictionsInSnoc(entries + Trail(g, seen), e);
    EvictionsInConcat(entries, Trail(g, seen));
    TrailNamesGone(g, seen);
  }

  /** The documents and the bytes used before selection: compressed first when so configured, otherwise as found. */
  ghost predicate CompressedFirst(cycle: Cycle, compression: Option<CompressionCallback>, config: EvictionConfig,
                                  result: EvictionResult)
  {
    && cycle.before.Gap() == cycle.middle.Gap()
    && (if cycle.needed == 0 || !config.compressBeforeEviction then
          cycle.middle == cycle.before && result.compressionSavings == result.compressions == 0
        else
          && cycle.middle == cycle.before.(docs := CompressedDocs(cycle.before, compression, {}),
                                           used := cycle.before.used - result.compressionSavings)
          && result.compressions == |Shrunk(cycle.before, compression, {})|)
  }

  /** What a cycle does, from the documents it found to the candidates it saw. */
  ghost predicate Lawful(cycle: Cycle, g: Guard, compression: Option<CompressionCallback>, config: EvictionConfig,
                         clock: nat -> nat, result: EvictionResult)
  {
    && cycle.seen <= cycle.selected
    && Accounts(g, cycle.seen, result)
    && CompressedFirst(cycle, compression, config, result)
    && (if result.compressionSavings >= cycle.needed then cycle.selected == []
        else
          && Selection(cycle.middle, cycle.needed - result.compressionSavings, cycle.selected)
          && Stopped(g, config, cycle.selected, cycle.needed, result.compressionSavings, clock, |cycle.seen|))
  }

  /** Why the loop stopped after `seen` candidates, and that it did not go on once the target was met. */
  ghost predicate Stopped(g: Guard, config: EvictionConfig, cs: seq<Candidate>, needed: nat, savings: nat,
                          clock: nat -> nat, seen: nat)
    requires seen <= |cs|
  {
    && (|| seen == |cs|
        || clock(seen) > config.maxCycleDurationMs
        || |Gone(g, cs[..seen])| >= config.maxEvictionsPerCycle
        || SumSizes(Gone(g, cs[..seen])) + savings >= needed)
    && Unmet(g, cs, needed, savings, seen)
  }

  /** The target is not met by the evictions among the first k candidates, for every k below `n`. */
  ghost predicate Unmet(g: Guard, cs: seq<Candidate>, needed: nat, savings: nat, n: nat)
    requires n <= |cs| + 1
  {
    forall k :: 0 <= k < n && k <= |cs| ==> Gone(g, cs[..k]) == [] || SumSizes(Gone(g, cs[..k])) + savings < needed
  }
}
