/** The bounded audit log of eviction events (src/qos/audit.rs). */
module Audit {
  import opened Wrappers
  import opened Qos

  datatype AuditAction =
    | Evicted
    | Compressed
    | MarkedProtected
    | UnmarkedProtected
    | FailedEviction
    | TtlExpired
    | SoftDeleted
    | CleanupCompleted

  datatype AuditEntry = AuditEntry(action: AuditAction, docId: string, cls: QoSClass, size: Option<nat>)

  /** The last `n` elements, or all of them. */
  function LastOf<T>(s: seq<T>, n: nat): seq<T> {
    if |s| <= n then s else s[|s| - n..]
  }

  lemma LastOfSnoc<T>(s: seq<T>, x: T, n: nat)
    requires n > 0
    ensures LastOf(s + [x], n) == (if |s| < n then s else LastOf(s, n)[1..]) + [x]
  {
  }

  lemma LastOfLast<T>(s: seq<T>, n: nat, k: nat)
    ensures LastOf(LastOf(s, n), k) == LastOf(s, if k <= n then k else n)
  {
  }

  // --- Counting ---

  function CountAction(es: seq<AuditEntry>, action: AuditAction): nat {
    if es == [] then 0 else
      CountAction(es[..|es| - 1], action) + if es[|es| - 1].action == action then 1 else 0
  }

  function CountEvictions(es: seq<AuditEntry>, cls: QoSClass): nat {
    if es == [] then 0 else
      var e := es[|es| - 1];
      CountEvictions(es[..|es| - 1], cls) + if e.action == Evicted && e.cls == cls then 1 else 0
  }

  function BytesEvicted(es: seq<AuditEntry>): nat {
    if es == [] then 0 else
      var e := es[|es| - 1];
      BytesEvicted(es[..|es| - 1]) + if e.action == Evicted && e.size.Some? then e.size.value else 0
  }

  function Tally(m: map<QoSClass, nat>, cls: QoSClass): nat {
    if cls in m then m[cls] else 0
  }

  /** The per-class counts of a run of entries add up to its evictions. */
  lemma {:induction false} ClassesAddUp(es: seq<AuditEntry>)
    ensures CountAction(es, Evicted)
         == CountEvictions(es, Critical) + CountEvictions(es, High) + CountEvictions(es, Normal)
            + CountEvictions(es, Low) + CountEvictions(es, Bulk)
  {
    if es != [] {
      ClassesAddUp(es[..|es| - 1]);
    }
  }

  datatype AuditSummary = AuditSummary(
    totalEntries: nat, totalEvictions: nat, bytesEvicted: nat, totalCompressions: nat, failedEvictions: nat,
    evictionsByClass: map<QoSClass, nat>)

  class EvictionAuditLog {
    const maxEntries: nat
    var entries: seq<AuditEntry>
    /** Everything ever recorded. */
    ghost var history: seq<AuditEntry>

    /** A log made for no entries still holds one. */
    function Capacity(): nat { if maxEntries == 0 then 1 else maxEntries }

    ghost predicate Valid()
      reads this
    {
      entries == LastOf(history, Capacity())
    }

    constructor (maxEntries: nat)
      ensures Valid() && history == [] && this.maxEntries == maxEntries
    {
      this.maxEntries := maxEntries;
      entries, history := [], [];
    }

    method Record(entry: AuditEntry)
      requires Valid()
      modifies this
      ensures Valid() && history == old(history) + [entry]
      ensures |entries| <= maxEntries <==> maxEntries > 0
    {
      LastOfSnoc(history, entry, Capacity());
      if |entries| >= maxEntries {
        if entries != [] {
          entries := entries[1..];
        }
      }
      entries := entries + [entry];
      history := history + [entry];
    }

    /** The most recent entries, oldest first: walks back from the end and reverses. */
    method GetRecent(count: nat) returns (recent: seq<AuditEntry>)
      requires Valid()
      ensures recent == LastOf(history, if count <= Capacity() then count else Capacity())
    {
      recent := [];
      while |recent| < count && |recent| < |entries|
        invariant |recent| <= count && |recent| <= |entries|
        invariant recent == entries[|entries| - |recent|..]
      {
        recent := [entries[|entries| - |recent| - 1]] + recent;
      }
      LastOfLast(history, Capacity(), count);
    }

    method Summary() returns (s: AuditSummary)
      ensures s.totalEntries == |entries|
      ensures s.totalEvictions == CountAction(entries, Evicted)
      ensures s.bytesEvicted == BytesEvicted(entries)
      ensures s.totalCompressions == CountAction(entries, Compressed)
      ensures s.failedEvictions == CountAction(entries, FailedEviction)
      ensures forall c: QoSClass :: Tally(s.evictionsByClass, c) == CountEvictions(entries, c)
    {
      s := AuditSummary(0, 0, 0, 0, 0, map[]);
      for i := 0 to |entries|
        invariant s.totalEntries == i
        invariant s.totalEvictions == CountAction(entries[..i], Evicted)
        invariant s.bytesEvicted == BytesEvicted(entries[..i])
        invariant s.totalCompressions == CountAction(entries[..i], Compressed)
        invariant s.failedEvictions == CountAction(entries[..i], FailedEviction)
        invariant forall c: QoSClass :: Tally(s.evictionsByClass, c) == CountEvictions(entries[..i], c)
      {
        var entry := entries[i];
        assert entries[..i + 1][..i] == entries[..i];
        s := s.(totalEntries := s.totalEntries + 1);
        match entry.action {
          case Evicted =>
            s := s.(totalEvictions := s.totalEvictions + 1);
            if entry.size.Some? {
              s := s.(bytesEvicted := s.bytesEvicted + entry.size.value);
            }
            s := s.(evictionsByClass := s.evictionsByClass[entry.cls := Tally(s.evictionsByClass, entry.cls) + 1]);
          case Compressed =>
            s := s.(totalCompressions := s.totalCompressions + 1);
          case FailedEviction =>
            s := s.(failedEvictions := s.failedEvictions + 1);
          case _ =>
        }
      }
      assert entries[..|entries|] == entries;
    }
  }

  /** A log made for no entries keeps one. */
  method ZeroCapacityKeepsOne(entry: AuditEntry) returns (kept: seq<AuditEntry>)
    ensures kept == [entry]
  {
    var log := new EvictionAuditLog(0);
    log.Record(entry);
    kept := log.GetRecent(1);
  }
}
