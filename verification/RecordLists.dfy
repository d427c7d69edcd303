/**
 * The records of a zone under construction: an array that grows by doubling, of which the first `count` are used.
 */
module RecordLists {
  import opened Records
  import opened TransferParser

  class RecordList {
    var records: array<RR>
    var count: nat

    ghost predicate Valid()
      reads this
    {
      count <= records.Length
    }

    function Contents(): Zone
      requires Valid()
      reads this, records
    {
      records[..count]
    }

    constructor ()
      ensures Valid() && Contents() == [] && fresh(records)
    {
      records := new RR[0];
      count := 0;
    }

    /** Room for one record more: 16 slots at first, then twice as many. */
    method MakeRoom()
      requires Valid()
      modifies `records
      ensures Valid() && count < records.Length && Contents() == old(Contents())
      ensures records == old(records) || fresh(records)
    {
      if count < records.Length { return; }
      var larger := new RR[if records.Length == 0 then 16 else 2 * records.Length];
      var i := 0;
      while i < count
        invariant records == old(records) && 0 <= i <= count && larger[..i] == records[..i]
      {
        larger[i] := records[i];
        i := i + 1;
      }
      records := larger;
    }

    /** The next record, in the slot after the last. */
    method Append(rr: RR)
      requires Valid()
      modifies this, records
      ensures Valid() && Contents() == old(Contents()) + [rr]
      ensures records == old(records) || fresh(records)
    {
      MakeRoom();
      records[count] := rr;
      count := count + 1;
    }

    /** The last record is not one to keep. */
    method TakeBack()
      requires Valid() && count > 0
      modifies `count
      ensures Valid() && Contents() == old(Contents())[..old(count) - 1]
    {
      count := count - 1;
    }

    method Clear()
      requires Valid()
      modifies `count
      ensures Valid() && Contents() == []
    {
      count := 0;
    }

    /** The records of a published version. */
    method Load(z: Zone)
      requires Valid()
      modifies this
      ensures Valid() && Contents() == z && fresh(records)
    {
      records := new RR[|z|](i requires 0 <= i < |z| => z[i]);
      count := |z|;
    }

    /** The last record names one to delete: it goes, and the first match goes, with the last one left in its place. */
    method DeleteNamedByLast()
      requires Valid() && count > 0
      modifies `count, records
      ensures Valid()
      ensures var z := old(Contents()); Contents() == Delete(z[..|z| - 1], z[|z| - 1])
    {
      ghost var z := Contents();
      count := count - 1;
      var rr := records[count];
      var k := 0;
      while k < count && !SameRecord(records[k], rr)
        invariant 0 <= k <= count && Contents() == z[..|z| - 1]
        invariant forall i :: 0 <= i < k ==> !SameRecord(records[i], rr)
      {
        k := k + 1;
      }
      FirstMatchIs(Contents(), rr, k);
      if k < count {
        count := count - 1;
        records[k] := records[count];
        assert Contents() == TakeOut(z[..|z| - 1], k);
      }
    }

    /** The last record is a newer SOA: it takes the place of the first SOA at the apex before it, or stays. */
    method SwapInLast()
      requires Valid() && count > 0
      modifies `count, records
      ensures Valid()
      ensures var z := old(Contents()); Contents() == ReplaceSoa(z[..|z| - 1], z[|z| - 1])
    {
      ghost var z := Contents();
      ghost var front := z[..|z| - 1];
      var k := 0;
      while k < count - 1 && !records[k].IsApexSoa()
        invariant 0 <= k <= count - 1 && Contents() == z
        invariant forall i :: 0 <= i < k ==> !front[i].IsApexSoa()
      {
        k := k + 1;
      }
      assert k < |front| ==> records[k] == front[k];
      FirstSoaIs(front, k);
      if k < count - 1 {
        records[k] := records[count - 1];
        count := count - 1;
        assert Contents() == front[k := z[|z| - 1]];
      }
    }
  }

  lemma {:induction false} FirstMatchIs(z: Zone, rr: RR, k: nat)
    requires k <= |z| && (k < |z| ==> SameRecord(z[k], rr)) && forall i :: 0 <= i < k ==> !SameRecord(z[i], rr)
    ensures MatchIndex(z, rr) == k
  {
  }

  lemma {:induction false} FirstSoaIs(z: Zone, k: nat)
    requires k <= |z| && (k < |z| ==> z[k].IsApexSoa()) && forall i :: 0 <= i < k ==> !z[i].IsApexSoa()
    ensures ApexSoaIndex(z) == k
  {
  }
}
