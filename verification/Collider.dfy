// What all colliders share: the contact flags that drive every early exit.
module Collider {

  // The bits of mFlags.
  datatype Flags = Flags(firstContact: bool, temporalCoherence: bool, contact: bool, temporalHit: bool) {
    // A first contact has been found and the query can stop.
    predicate ContactFound() { firstContact && contact }

    // What InitQueryEx leaves of the flags.
    function Cleared(): Flags { this.(contact := false, temporalHit := false) }

    function Touched(): Flags { this.(contact := true) }

    function TemporallyTouched(): Flags { this.(contact := true, temporalHit := true) }
  }
}
