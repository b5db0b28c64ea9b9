/** Retention policies per class (src/qos/retention.rs), with pressures as exact reals. */
module Retention {
  import opened Qos

  const FOREVER: nat := 0xffff_ffff_ffff_ffff

  datatype RetentionPolicy = RetentionPolicy(
    cls: QoSClass, minRetain: nat, maxRetain: nat, evictionPriority: nat, compressionEligible: bool)
  {
    /** Young data stays, overdue data goes, and between the two the pressure decides by class. */
    predicate ShouldRetain(age: nat, pressure: real) {
      if age < minRetain then true
      else if age > maxRetain then false
      else match cls
        case Critical => true
        case High => pressure < 0.95
        case Normal => pressure < 0.85
        case Low => pressure < 0.75
        case Bulk => pressure < 0.65
    }

    predicate ShouldEvict(age: nat, pressure: real) { !ShouldRetain(age, pressure) }

    predicate ShouldCompress(pressure: real) { compressionEligible && pressure > 0.7 }
  }

  function ForQosClass(cls: QoSClass): RetentionPolicy {
    match cls
    case Critical => RetentionPolicy(cls, 7 * 24 * 3600, FOREVER, 5, false)
    case High => RetentionPolicy(cls, 24 * 3600, 7 * 24 * 3600, 4, true)
    case Normal => RetentionPolicy(cls, 3600, 24 * 3600, 3, true)
    case Low => RetentionPolicy(cls, 300, 3600, 2, true)
    case Bulk => RetentionPolicy(cls, 60, 300, 1, true)
  }

  /** The eviction priority is clamped to 1..5. */
  function Custom(cls: QoSClass, minRetain: nat, maxRetain: nat, priority: nat, compressible: bool): RetentionPolicy {
    RetentionPolicy(cls, minRetain, maxRetain, if priority < 1 then 1 else if priority > 5 then 5 else priority, compressible)
  }

  datatype RetentionPolicies = RetentionPolicies(
    critical: RetentionPolicy, high: RetentionPolicy, normal: RetentionPolicy, low: RetentionPolicy, bulk: RetentionPolicy)
  {
    function Get(cls: QoSClass): RetentionPolicy {
      match cls
      case Critical => critical
      case High => high
      case Normal => normal
      case Low => low
      case Bulk => bulk
    }

    /** Less urgent classes are evicted first, by priorities between 1 and 5. */
    predicate Ranked() {
      && (forall c: QoSClass :: 1 <= Get(c).evictionPriority <= 5)
      && (forall c: QoSClass, d: QoSClass :: c.CanPreempt(d) ==> Get(d).evictionPriority < Get(c).evictionPriority)
    }
  }

  function DefaultTactical(): RetentionPolicies {
    RetentionPolicies(ForQosClass(Critical), ForQosClass(High), ForQosClass(Normal), ForQosClass(Low), ForQosClass(Bulk))
  }

  function StorageConstrained(): RetentionPolicies {
    RetentionPolicies(
      ForQosClass(Critical),
      Custom(High, 12 * 3600, 3 * 24 * 3600, 4, true),
      Custom(Normal, 30 * 60, 12 * 3600, 3, true),
      Custom(Low, 120, 30 * 60, 2, true),
      Custom(Bulk, 30, 120, 1, true))
  }

  lemma PresetsAreRanked()
    ensures DefaultTactical().Ranked() && StorageConstrained().Ranked()
  {
  }

  /** A custom policy keeps its times and its priority, brought between one and five. */
  lemma CustomIsClamped(cls: QoSClass, minRetain: nat, maxRetain: nat, priority: nat, compressible: bool)
    ensures var p := Custom(cls, minRetain, maxRetain, priority, compressible);
            && p == RetentionPolicy(cls, minRetain, maxRetain, p.evictionPriority, compressible)
            && 1 <= p.evictionPriority <= 5
            && (1 <= priority <= 5 ==> p.evictionPriority == priority)
            && (priority > 5 ==> p.evictionPriority == 5)
  {
  }

  /** What may go stays so as it ages and as the pressure rises. */
  lemma EvictMonotone(policy: RetentionPolicy, age: nat, age': nat, pressure: real, pressure': real)
    requires age <= age' && pressure <= pressure' && policy.ShouldEvict(age, pressure)
    ensures policy.ShouldEvict(age', pressure')
  {
  }

  const MINUTE := 60
  const HOUR := 3600
  const DAY := 86400

  /** Between the two ages the pressure decides; below the first nothing goes, above the second everything. */
  predicate Due(age: nat, pressure: real, youngest: nat, oldest: nat, limit: real) {
    youngest <= age && (age <= oldest ==> pressure >= limit)
  }

  /** The default policies in hours and percent. Critical data of any age a clock can measure stays. */
  lemma DefaultRules(cls: QoSClass, age: nat, pressure: real)
    ensures var policy := DefaultTactical().Get(cls);
            && (policy.ShouldEvict(age, pressure) <==>
                  match cls
                  case Critical => age > 0xffff_ffff_ffff_ffff
                  case High => Due(age, pressure, DAY, 7 * DAY, 0.95)
                  case Normal => Due(age, pressure, HOUR, DAY, 0.85)
                  case Low => Due(age, pressure, 5 * MINUTE, HOUR, 0.75)
                  case Bulk => Due(age, pressure, MINUTE, 5 * MINUTE, 0.65))
            && (policy.ShouldCompress(pressure) <==> !cls.Critical? && pressure > 0.7)
  {
  }

  /** The storage-constrained policies: shorter times, the same pressures. */
  lemma ConstrainedRules(cls: QoSClass, age: nat, pressure: real)
    ensures var policy := StorageConstrained().Get(cls);
            && (policy.ShouldEvict(age, pressure) <==>
                  match cls
                  case Critical => age > 0xffff_ffff_ffff_ffff
                  case High => Due(age, pressure, 12 * HOUR, 3 * DAY, 0.95)
                  case Normal => Due(age, pressure, 30 * MINUTE, 12 * HOUR, 0.85)
                  case Low => Due(age, pressure, 2 * MINUTE, 30 * MINUTE, 0.75)
                  case Bulk => Due(age, pressure, 30, 2 * MINUTE, 0.65))
            && (policy.ShouldCompress(pressure) <==> !cls.Critical? && pressure > 0.7)
  {
  }
}
