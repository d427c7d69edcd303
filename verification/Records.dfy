// Resource records and zone contents as the transfer code sees them.
module Records {
  import opened Serials

  datatype Option<+T> = None | Some(value: T)

  /**
   * The owner of a record, relative to the zone being transferred: the apex, a name below it, or a name outside it.
   * Names are in canonical form, so equality is the case-insensitive comparison of the code.
   */
  datatype Owner = Apex | Below(name: nat) | Outside(name: nat)

  /** UndecodedSoa is what is left of a wrapped SOA whose RDATA could not be read. */
  datatype Rdata =
    | Soa(serial: Serial, refresh: nat, retry: nat, expire: nat, names: nat)
    | UndecodedSoa
    | Other(rtype: nat, octets: seq<int>)

  datatype RR = RR(owner: Owner, ttl: nat, rdata: Rdata) {
    predicate IsSoa() { rdata.Soa? }
    predicate IsApexSoa() { rdata.Soa? && owner.Apex? }
  }

  type Zone = seq<RR>

  /** compare_records() with ignore_ttl: what a deletion of a difference sequence is matched with. */
  predicate SameRecord(a: RR, b: RR) {
    a.owner == b.owner && a.rdata == b.rdata
  }

  /** No record is in the zone twice, not even with another TTL. */
  ghost predicate Distinct(z: Zone) {
    forall i, j {:trigger SameRecord(z[i], z[j])} :: 0 <= i < j < |z| ==> !SameRecord(z[i], z[j])
  }

  /** Exactly one SOA, at the apex, and every other record in the zone. */
  ghost predicate OneSoa(z: Zone, k: nat) {
    && k < |z| && z[k].IsApexSoa()
    && forall i :: 0 <= i < |z| && i != k ==> z[i].rdata.Other? && !z[i].owner.Outside?
  }

  ghost predicate WellFormed(z: Zone) {
    Distinct(z) && exists k :: OneSoa(z, k)
  }

  /** The index of the first SOA at the apex (zone_image_apex_soa), or |z|. */
  function ApexSoaIndex(z: Zone): (k: nat)
    ensures k <= |z|
    ensures k < |z| ==> z[k].IsApexSoa()
    ensures forall i :: 0 <= i < k ==> !z[i].IsApexSoa()
  {
    if z == [] then 0
    else if z[0].IsApexSoa() then 0
    else 1 + ApexSoaIndex(z[1..])
  }

  lemma ApexSoaUnique(z: Zone, k: nat)
    requires OneSoa(z, k)
    ensures ApexSoaIndex(z) == k
  {
  }

  function ApexSerial(z: Zone): (s: Serial)
    requires ApexSoaIndex(z) < |z|
  {
    z[ApexSoaIndex(z)].rdata.serial
  }

  lemma WellFormedHasSoa(z: Zone)
    requires WellFormed(z)
    ensures ApexSoaIndex(z) < |z|
    ensures OneSoa(z, ApexSoaIndex(z))
  {
    var k :| OneSoa(z, k);
    ApexSoaUnique(z, k);
  }

  /** A distinct sequence holds each of its records once. */
  lemma DistinctMultiplicity(z: Zone, r: RR)
    requires Distinct(z)
    ensures multiset(z)[r] == if r in z then 1 else 0
  {
    if z != [] {
      var t := z[1..];
      assert z == [z[0]] + t;
      forall i, j | 0 <= i < j < |t| ensures !SameRecord(t[i], t[j]) {
        assert t[i] == z[i + 1] && t[j] == z[j + 1];
      }
      DistinctMultiplicity(t, r);
      forall j | 0 <= j < |t| ensures t[j] != z[0] {
        assert !SameRecord(z[0], z[j + 1]);
      }
    }
  }

  /** Two orderings of the same records: what "the same zone content" means. */
  ghost predicate SameContent(a: Zone, b: Zone) {
    multiset(a) == multiset(b)
  }

  lemma TwiceInSequence(b: Zone, i: nat, j: nat)
    requires i < j < |b| && b[i] == b[j]
    ensures multiset(b)[b[i]] >= 2
  {
    assert b == b[..j] + b[j..];
    assert b[..j][i] == b[i] && b[j..][0] == b[j];
    assert b[i] in multiset(b[..j]) && b[j] in multiset(b[j..]);
  }

  /** Distinctness does not depend on the order. */
  lemma DistinctReordered(a: Zone, b: Zone)
    requires Distinct(a) && SameContent(a, b)
    ensures Distinct(b)
  {
    forall i, j | 0 <= i < j < |b| ensures !SameRecord(b[i], b[j]) {
      assert b[i] in multiset(b) && b[j] in multiset(b);
      assert b[i] in a && b[j] in a;
      var p :| 0 <= p < |a| && a[p] == b[i];
      var q :| 0 <= q < |a| && a[q] == b[j];
      assert p < q ==> !SameRecord(a[p], a[q]);
      assert q < p ==> !SameRecord(a[q], a[p]);
      if b[i] == b[j] {
        TwiceInSequence(b, i, j);
        DistinctMultiplicity(a, b[i]);
      }
    }
  }
}
