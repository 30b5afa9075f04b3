/**
 Generation-qualified identities, fixed-width integers and the canonical orders on them
 (include/sff/core/identity.hpp).
 */
module Identity {

  type U16 = x: nat | x < 0x1_0000
  type U32 = x: nat | x < 0x1_0000_0000
  type U64 = x: nat | x < 0x1_0000_0000_0000_0000

  const U64_MAX: U64 := 0xFFFF_FFFF_FFFF_FFFF

  /** A switch identity together with the generation of its configuration. */
  datatype SwitchKey = SwitchKey(id: U64, generation: U64) {
    /** Generation 0 means "no generation asserted". */
    predicate Valid() {
      id != 0 && generation != 0
    }
  }

  datatype DependentKind = UnknownDependent | Port | Link | Path | Service

  /** A resource whose forwarding authority a switch failure can invalidate. */
  datatype DependentRef = DependentRef(kind: DependentKind, id: U64) {
    predicate Valid() {
      !kind.UnknownDependent? && id != 0
    }
  }

  function KindRank(kind: DependentKind): (rank: nat) {
    match kind
    case UnknownDependent => 0
    case Port => 1
    case Link => 2
    case Path => 3
    case Service => 4
  }

  predicate KeyLess(a: SwitchKey, b: SwitchKey) {
    a.id < b.id || (a.id == b.id && a.generation < b.generation)
  }

  predicate DependentLess(a: DependentRef, b: DependentRef) {
    KindRank(a.kind) < KindRank(b.kind) || (a.kind == b.kind && a.id < b.id)
  }
}
