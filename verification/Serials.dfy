// SOA serial numbers: 32-bit, compared in sequence space (section 3.2 of RFC 1982).
module Serials {

  const MODULUS: int := 0x1_0000_0000
  const HALF: int := 0x8000_0000

  type Serial = s: int | 0 <= s < 0x1_0000_0000

  /** serial_is_newer(a, b): the 32-bit difference a - b, read as a signed number, is positive. */
  predicate Newer(a: Serial, b: Serial) {
    0 < (a - b) % MODULUS < HALF
  }

  /** xfr_serial_behind(): the primary's serial is older than ours. */
  predicate Behind(ours: Serial, theirs: Serial) {
    ours != theirs && !Newer(theirs, ours)
  }

  /** The definition of "greater than" as section 3.2 of RFC 1982 words it, by cases on the plain integers. */
  predicate GreaterRfc1982(a: Serial, b: Serial) {
    (b > a && b - a > HALF) || (a > b && a - b < HALF)
  }

  lemma NewerIsRfc1982(a: Serial, b: Serial)
    ensures Newer(a, b) <==> GreaterRfc1982(a, b)
  {
    if a >= b {
      assert (a - b) % MODULUS == a - b;
    } else {
      assert (a - b) % MODULUS == a - b + MODULUS;
    }
  }

  /**
   * Two serials are equal, ordered one way, or exactly half the space apart; a primary that is exactly half the
   * space away counts as behind whichever side looks at it.
   */
  lemma NewerTrichotomy(a: Serial, b: Serial)
    ensures !(Newer(a, b) && Newer(b, a))
    ensures Newer(a, b) || Newer(b, a) <==> a != b && a != (b + HALF) % MODULUS
    ensures Behind(a, b) && Behind(b, a) <==> a == (b + HALF) % MODULUS
  {
    NewerIsRfc1982(a, b);
    NewerIsRfc1982(b, a);
    if b + HALF < MODULUS {
      assert (b + HALF) % MODULUS == b + HALF;
    } else {
      assert (b + HALF) % MODULUS == b + HALF - MODULUS;
    }
  }
}
