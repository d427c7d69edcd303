/**
 * The difference between two published versions of a zone (compute_ixfr_diff, ixfr_collect) and the order in which it
 * is sent (section 4 of RFC 1995).
 */
module IxfrDiff {
  import opened Serials
  import opened Records

  const MAX_DELTA: nat := 10000

  /** One stored difference: the records to delete and to add to get from one serial to the next. */
  datatype Txn = Txn(oldSerial: Serial, newSerial: Serial, deleted: Zone, added: Zone)

  /** The records of z that other does not have, in file order; here the TTL counts. */
  function Missing(z: Zone, other: Zone): Zone {
    if z == [] then []
    else (if z[0] in other then [] else [z[0]]) + Missing(z[1..], other)
  }

  lemma MissingAppend(z: Zone, r: RR, other: Zone)
    ensures Missing(z + [r], other) == Missing(z, other) + (if r in other then [] else [r])
  {
    if z != [] {
      MissingAppend(z[1..], r, other);
      assert (z + [r])[1..] == z[1..] + [r];
    } else {
      assert ([r])[1..] == [];
    }
  }

  /** ixfr_collect(): the records of z that other does not have, or None when they are more than cap. */
  method Collect(z: Zone, other: Zone, cap: nat) returns (out: Option<Zone>)
    ensures out == if |Missing(z, other)| <= cap then Some(Missing(z, other)) else None
  {
    var found: Zone := [];
    var i := 0;
    while i < |z|
      invariant 0 <= i <= |z|
      invariant found == Missing(z[..i], other) && |found| <= cap
    {
      MissingAppend(z[..i], z[i], other);
      assert z[..i + 1] == z[..i] + [z[i]];
      if z[i] !in other {
        if |found| >= cap {
          MissingGrows(z, i + 1, other);
          return None;
        }
        found := found + [z[i]];
      }
      i := i + 1;
    }
    assert z[..i] == z;
    return Some(found);
  }

  lemma MissingGrows(z: Zone, i: nat, other: Zone)
    requires i <= |z|
    ensures |Missing(z[..i], other)| <= |Missing(z, other)|
    decreases |z| - i
  {
    if i < |z| {
      MissingAppend(z[..i], z[i], other);
      assert z[..i + 1] == z[..i] + [z[i]];
      MissingGrows(z, i + 1, other);
    } else {
      assert z[..i] == z;
    }
  }

  function SerialOrZero(z: Zone): Serial {
    if ApexSoaIndex(z) < |z| then ApexSerial(z) else 0
  }

  /** The difference between two versions, when one is recorded at all. */
  function Diff(depth: nat, old_: Option<Zone>, new_: Option<Zone>): Option<Txn> {
    if old_.None? || new_.None? || depth == 0 then None
    else
      var (a, b) := (old_.value, new_.value);
      var (s, t) := (SerialOrZero(a), SerialOrZero(b));
      if s == 0 || t == 0 || !Newer(t, s) then None
      else if |Missing(a, b)| + |Missing(b, a)| > MAX_DELTA then None
      else Some(Txn(s, t, Missing(a, b), Missing(b, a)))
  }

  /** compute_ixfr_diff() up to the storing of the difference. */
  method ComputeDiff(depth: nat, old_: Option<Zone>, new_: Option<Zone>) returns (t: Option<Txn>)
    ensures t == Diff(depth, old_, new_)
  {
    if old_.None? || new_.None? || depth == 0 { return None; }
    var oldSerial, newSerial := SerialOrZero(old_.value), SerialOrZero(new_.value);
    if oldSerial == 0 || newSerial == 0 || !Newer(newSerial, oldSerial) { return None; }
    var deleted := Collect(old_.value, new_.value, MAX_DELTA);
    if deleted.None? { return None; }
    var added := Collect(new_.value, old_.value, MAX_DELTA - |deleted.value|);
    if added.None? { return None; }
    return Some(Txn(oldSerial, newSerial, deleted.value, added.value));
  }

  /** t is the difference between the published versions a and b. */
  ghost predicate IsDiff(t: Txn, a: Zone, b: Zone) {
    && WellFormed(a) && WellFormed(b)
    && Diff(1, Some(a), Some(b)) == Some(t)
  }

  // ---- deleting what was deleted and adding what was added gives the new version ----

  lemma MissingMembers(z: Zone, other: Zone, r: RR)
    ensures r in Missing(z, other) <==> r in z && r !in other
    ensures multiset(Missing(z, other))[r] == if r in other then 0 else multiset(z)[r]
  {
    if z != [] {
      assert z == [z[0]] + z[1..];
      MissingMembers(z[1..], other, r);
    }
  }

  lemma DiffIsExact(a: Zone, b: Zone)
    requires Distinct(a) && Distinct(b)
    ensures multiset(Missing(a, b)) <= multiset(a)
    ensures multiset(a) - multiset(Missing(a, b)) + multiset(Missing(b, a)) == multiset(b)
  {
    var d, p := Missing(a, b), Missing(b, a);
    forall r ensures multiset(d)[r] <= multiset(a)[r]
             ensures (multiset(a) - multiset(d) + multiset(p))[r] == multiset(b)[r]
    {
      MissingMembers(a, b, r);
      MissingMembers(b, a, r);
      DistinctMultiplicity(a, r);
      DistinctMultiplicity(b, r);
    }
  }

  // ---- the order on the wire ----

  /** The first SOA of a list, or its length. */
  function SoaIndex(z: Zone): (k: nat)
    ensures k <= |z|
    ensures k < |z| ==> z[k].IsSoa()
    ensures forall i :: 0 <= i < k ==> !z[i].IsSoa()
  {
    if z == [] || z[0].IsSoa() then 0 else 1 + SoaIndex(z[1..])
  }

  function Rest(z: Zone): Zone {
    var k := SoaIndex(z);
    if k < |z| then z[..k] + z[k + 1..] else z
  }

  /** The SOA first, then the others in order. */
  function SoaFirst(z: Zone): Zone {
    var k := SoaIndex(z);
    if k < |z| then [z[k]] + Rest(z) else z
  }

  function EmitTxn(t: Txn): Zone {
    SoaFirst(t.deleted) + SoaFirst(t.added)
  }

  function EmitTxns(chain: seq<Txn>): Zone {
    if chain == [] then [] else EmitTxn(chain[0]) + EmitTxns(chain[1..])
  }

  /** The answer with differences: the current SOA, the difference sequences oldest first, the current SOA again. */
  function EmitChain(soa: RR, chain: seq<Txn>): Zone {
    [soa] + EmitTxns(chain) + [soa]
  }

  function WithoutApexSoa(z: Zone): Zone {
    if z == [] then [] else (if z[0].IsApexSoa() then [] else [z[0]]) + WithoutApexSoa(z[1..])
  }

  /** The reference SOA of a version; every version that is published has one. */
  function TheSoa(z: Zone): RR {
    if ApexSoaIndex(z) < |z| then z[ApexSoaIndex(z)] else RR(Apex, 0, UndecodedSoa)
  }

  /** A full transfer: the SOA, the other records in file order, the SOA. */
  function EmitFull(z: Zone): Zone {
    [TheSoa(z)] + WithoutApexSoa(z) + [TheSoa(z)]
  }

  /** Each half of a difference holds exactly one SOA: the version's own. */
  lemma HalfHasItsSoa(a: Zone, b: Zone)
    requires WellFormed(a) && WellFormed(b) && SerialOrZero(a) != SerialOrZero(b)
    ensures var m := Missing(a, b); var k := SoaIndex(m);
      && k < |m| && m[k] == a[ApexSoaIndex(a)] && m[k].IsApexSoa()
      && forall i :: 0 <= i < |m| && i != k ==> m[i].rdata.Other? && !m[i].owner.Outside?
  {
    WellFormedHasSoa(a);
    WellFormedHasSoa(b);
    var m, soa := Missing(a, b), a[ApexSoaIndex(a)];
    assert soa !in b by {
      forall i | 0 <= i < |b| ensures b[i] != soa {
        assert i == ApexSoaIndex(b) ==> b[i].rdata.serial != soa.rdata.serial;
      }
    }
    assert soa in a;
    MissingMembers(a, b, soa);
    var j :| 0 <= j < |m| && m[j] == soa;
    forall i | 0 <= i < |m| ensures m[i] == soa || (m[i].rdata.Other? && !m[i].owner.Outside?) {
      assert m[i] in m;
      MissingMembers(a, b, m[i]);
      assert m[i] in a;
    }
    DistinctMultiplicity(a, soa);
    OnlyOnce(m, soa, j);
  }

  lemma OnlyOnce(m: Zone, r: RR, j: nat)
    requires j < |m| && m[j] == r && multiset(m)[r] <= 1
    ensures forall i :: 0 <= i < |m| && i != j ==> m[i] != r
  {
    forall i | 0 <= i < |m| && i != j ensures m[i] != r {
      if m[i] == r { TwiceInSequence(m, if i < j then i else j, if i < j then j else i); }
    }
  }
}
