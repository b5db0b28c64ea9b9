/** The five priority classes (src/qos/mod.rs). */
module Qos {
  datatype QoSClass = Critical | High | Normal | Low | Bulk {
    /** 1 is the most urgent, 5 the least. */
    function AsU8(): (n: nat)
      ensures 1 <= n <= 5
    {
      match this
      case Critical => 1
      case High => 2
      case Normal => 3
      case Low => 4
      case Bulk => 5
    }

    predicate CanPreempt(other: QoSClass) {
      AsU8() < other.AsU8()
    }
  }
}
