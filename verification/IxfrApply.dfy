/**
 * A difference sequence read by the secondary turns the old version into the new one, and a chain of them turns the
 * client's version into the current one.
 */
module IxfrApply {
  import opened Serials
  import opened Records
  import opened TransferParser
  import opened MessageCuts
  import opened IxfrDiff

  /** The records as they arrive: plain, of class IN. */
  function Wire(z: Zone): seq<Item> {
    if z == [] then [] else [Plain(z[0], CLASS_IN)] + Wire(z[1..])
  }

  lemma WireConcat(a: Zone, b: Zone)
    ensures Wire(a + b) == Wire(a) + Wire(b)
  {
    if a == [] {
      assert a + b == b;
    } else {
      assert (a + b)[1..] == a[1..] + b;
      WireConcat(a[1..], b);
    }
  }

  /** Reading the items leads from s to t, and none of them ends the transfer. */
  ghost predicate Leads(env: Env, s: State, items: seq<Item>, t: State)
    decreases |items|
  {
    if items == [] then s == t
    else
      var (u, v) := Step(env, s, items[0], false, false);
      v == Next && !u.finished && Leads(env, u, items[1..], t)
  }

  lemma {:induction false} LeadsOn(env: Env, s: State, xs: seq<Item>, t: State, ys: seq<Item>, u: State)
    requires Leads(env, s, xs, t) && Leads(env, t, ys, u)
    ensures Leads(env, s, xs + ys, u)
    decreases |xs|
  {
    if xs == [] {
      assert xs + ys == ys;
    } else {
      assert (xs + ys)[0] == xs[0] && (xs + ys)[1..] == xs[1..] + ys;
      LeadsOn(env, Step(env, s, xs[0], false, false).0, xs[1..], t, ys, u);
    }
  }

  /** A stream that leads up to its last record runs to the end, and ends as that record says. */
  lemma {:induction false} LeadsToLast(env: Env, s: State, xs: seq<Item>, t: State, last: Item)
    requires Leads(env, s, xs, t)
    ensures RunsToTheEnd(env, s, xs + [last])
    ensures Flat(env, s, xs + [last]) == Flat(env, t, [last])
    decreases |xs|
  {
    if xs == [] {
      assert xs + [last] == [last];
    } else {
      assert (xs + [last])[0] == xs[0] && (xs + [last])[1..] == xs[1..] + [last];
      LeadsToLast(env, Step(env, s, xs[0], false, false).0, xs[1..], t, last);
    }
  }

  /** ... and so does a stream that goes on after a point it leads to. */
  lemma {:induction false} LeadsThenFlat(env: Env, s: State, xs: seq<Item>, t: State, ys: seq<Item>)
    requires Leads(env, s, xs, t) && ys != []
    ensures Flat(env, s, xs + ys) == Flat(env, t, ys)
    decreases |xs|
  {
    if xs == [] {
      assert xs + ys == ys;
    } else {
      assert (xs + ys)[0] == xs[0] && (xs + ys)[1..] == xs[1..] + ys;
      LeadsThenFlat(env, Step(env, s, xs[0], false, false).0, xs[1..], t, ys);
    }
  }

  ghost predicate PlainData(z: Zone) {
    forall i :: 0 <= i < |z| ==> z[i].rdata.Other? && !z[i].owner.Outside?
  }

  // ---- deletions ----

  function DeleteAll(z: Zone, ds: Zone): Zone
    decreases |ds|
  {
    if ds == [] then z else DeleteAll(Delete(z, ds[0]), ds[1..])
  }

  lemma {:induction false} DeletionsRead(env: Env, s: State, ds: Zone)
    requires s.ixfr && s.deleting && s.soaCount >= 2 && !s.finished && PlainData(ds)
    ensures Leads(env, s, Wire(ds), s.(records := DeleteAll(s.records, ds)))
    decreases |ds|
  {
    if ds == [] {
      assert s == s.(records := DeleteAll(s.records, ds));
    } else {
      var t := s.(records := Delete(s.records, ds[0]));
      assert Step(env, s, Plain(ds[0], CLASS_IN), false, false) == (t, Next);
      DeletionsRead(env, t, ds[1..]);
      assert Wire(ds)[0] == Plain(ds[0], CLASS_IN) && Wire(ds)[1..] == Wire(ds[1..]);
    }
  }

  lemma TakeOutContent(z: Zone, k: nat)
    requires k < |z|
    ensures multiset(TakeOut(z, k)) == multiset(z) - multiset{z[k]}
  {
    var n := |z| - 1;
    assert z == z[..n] + [z[n]];
    if k < n {
      assert TakeOut(z, k) == z[..n][k := z[n]];
      assert multiset(z[..n][k := z[n]]) == multiset(z[..n]) - multiset{z[k]} + multiset{z[n]};
    } else {
      assert TakeOut(z, k) == z[..n];
    }
  }

  /** In a distinct zone a deletion takes out exactly the record it names, although it does not look at TTLs. */
  lemma DeleteContent(z: Zone, r: RR)
    requires Distinct(z) && r in z
    ensures multiset(Delete(z, r)) == multiset(z) - multiset{r}
    ensures Distinct(Delete(z, r))
  {
    var k := MatchIndex(z, r);
    var j :| 0 <= j < |z| && z[j] == r;
    assert k <= j;
    assert z[k] == r;
    TakeOutContent(z, k);
    var y := TakeOut(z, k);
    forall p, q | 0 <= p < q < |y| ensures !SameRecord(y[p], y[q]) {
      var p' := if p == k then |z| - 1 else p;
      var q' := if q == k then |z| - 1 else q;
      assert y[p] == z[p'] && y[q] == z[q'];
      assert !SameRecord(z[if p' < q' then p' else q'], z[if p' < q' then q' else p']);
    }
  }

  /** In any list, a deletion takes out the record it names exactly when that is the first with its owner, type and data. */
  lemma {:induction false} DeleteIsExact(z: Zone, r: RR)
    requires r in z
    ensures MatchIndex(z, r) < |z|
    ensures multiset(Delete(z, r)) == multiset(z) - multiset{r} <==> z[MatchIndex(z, r)] == r
  {
    var j :| 0 <= j < |z| && z[j] == r;
    var k := MatchIndex(z, r);
    assert k <= j;
    TakeOutContent(z, k);
    assert z[k] in multiset(z) && r in multiset(z);
    if z[k] != r {
      assert (multiset(z) - multiset{z[k]})[r] == multiset(z)[r];
      assert (multiset(z) - multiset{r})[r] == multiset(z)[r] - 1;
    }
  }

  /** Differences count TTLs and deletions do not: of two records that differ in the TTL alone, the wrong one can go. */
  lemma {:induction false} TwinDeletesTheOther()
    ensures var a, b := RR(Below(1), 1, Other(1, [7])), RR(Below(1), 2, Other(1, [7]));
      Missing([a, b], [a]) == [b] && Delete([a, b], b) == [b]
  {
    var a, b := RR(Below(1), 1, Other(1, [7])), RR(Below(1), 2, Other(1, [7]));
    assert [a, b][1..] == [b] && [b][1..] == [];
    assert Missing([a, b], [a]) == [] + Missing([b], [a]) && Missing([b], [a]) == [b] + Missing([], [a]);
  }

  lemma {:induction false} DeleteAllContent(z: Zone, ds: Zone)
    requires Distinct(z) && multiset(ds) <= multiset(z)
    ensures multiset(DeleteAll(z, ds)) == multiset(z) - multiset(ds)
    ensures Distinct(DeleteAll(z, ds))
    decreases |ds|
  {
    if ds != [] {
      assert ds == [ds[0]] + ds[1..];
      assert ds[0] in multiset(z);
      DeleteContent(z, ds[0]);
      var y := Delete(z, ds[0]);
      assert multiset(ds[1..]) == multiset(ds) - multiset{ds[0]};
      DeleteAllContent(y, ds[1..]);
    }
  }

  // ---- additions ----

  lemma {:induction false} AdditionsRead(env: Env, s: State, ps: Zone)
    requires s.ixfr && !s.deleting && s.soaCount >= 2 && !s.finished && PlainData(ps)
    ensures Leads(env, s, Wire(ps), s.(records := s.records + ps))
    decreases |ps|
  {
    if ps == [] {
      assert s.records + ps == s.records;
      assert s == s.(records := s.records + ps);
    } else {
      var t := s.(records := s.records + [ps[0]]);
      assert Step(env, s, Plain(ps[0], CLASS_IN), false, false) == (t, Next);
      AdditionsRead(env, t, ps[1..]);
      assert t.records + ps[1..] == s.records + ps;
      assert Wire(ps)[0] == Plain(ps[0], CLASS_IN) && Wire(ps)[1..] == Wire(ps[1..]);
    }
  }

  // ---- one difference sequence ----

  /** The session is about to read a difference that starts from version a. */
  ghost predicate ReadyFor(env: Env, s: State, a: Zone) {
    && s.ixfr && !s.finished && !s.deleting
    && if s.soaCount == 1
       then env.active.Some? && env.clientSerial == SerialOrZero(a) && SameContent(env.active.value, a)
       else && s.soaCount >= 3 && s.expectedSerial == SerialOrZero(a) && s.expectedSerial != s.openSerial
            && SameContent(s.records, a)
  }

  /** The session has read a difference that ends at version b. */
  ghost predicate Reached(s: State, open: Serial, b: Zone) {
    && s.ixfr && !s.finished && !s.deleting && s.soaCount >= 3 && s.openSerial == open
    && s.expectedSerial == SerialOrZero(b) && SameContent(s.records, b)
  }

  /** The older SOA starts the deletions, from the version we serve or from the records built so far. */
  lemma OlderSoaRead(env: Env, s: State, a: Zone, soa: RR)
    requires WellFormed(a) && ReadyFor(env, s, a) && soa == a[ApexSoaIndex(a)]
    ensures var (t, v) := Step(env, s, Plain(soa, CLASS_IN), false, false);
      && v == Next && t.ixfr && t.deleting && !t.finished && t.soaCount == s.soaCount + 1
      && t.openSerial == s.openSerial && SameContent(t.records, a)
  {
    WellFormedHasSoa(a);
  }

  /** The newer SOA takes the place of the older one and starts the additions. */
  lemma {:induction false} NewerSoaRead(env: Env, s: State, a: Zone, mid: Zone, soa: RR)
    requires s.ixfr && s.deleting && !s.finished && s.soaCount >= 2 && soa.IsApexSoa()
    requires WellFormed(a) && s.records == mid && a[ApexSoaIndex(a)] in mid
    requires multiset(mid) <= multiset(a)
    ensures var (t, v) := Step(env, s, Plain(soa, CLASS_IN), false, false);
      && v == Next && t.ixfr && !t.deleting && !t.finished && t.soaCount == s.soaCount + 1
      && t.openSerial == s.openSerial && t.expectedSerial == soa.rdata.serial
      && multiset(t.records) == multiset(mid) - multiset{a[ApexSoaIndex(a)]} + multiset{soa}
  {
    var k := ApexSoaIndex(mid);
    SoaOfPart(a, mid);
    assert Step(env, s, Plain(soa, CLASS_IN), false, false).0.records == mid[k := soa];
    assert multiset(mid[k := soa]) == multiset(mid) - multiset{mid[k]} + multiset{soa};
  }

  /** Where a part of a zone that has the zone's SOA has it. */
  lemma {:induction false} SoaOfPart(a: Zone, mid: Zone)
    requires WellFormed(a) && multiset(mid) <= multiset(a) && ApexSoaIndex(a) < |a| && a[ApexSoaIndex(a)] in mid
    ensures ApexSoaIndex(mid) < |mid| && mid[ApexSoaIndex(mid)] == a[ApexSoaIndex(a)]
  {
    WellFormedHasSoa(a);
    var old_ := a[ApexSoaIndex(a)];
    var k := ApexSoaIndex(mid);
    var j :| 0 <= j < |mid| && mid[j] == old_;
    assert k <= j;
    assert mid[k] in multiset(mid) && mid[k] in a;
  }

  /** Taking out ds, putting y in the place of x and adding ps is the whole change. */
  lemma {:induction false} WholeChange(a: multiset<RR>, ds: multiset<RR>, x: RR, y: RR, ps: multiset<RR>, b: multiset<RR>)
    requires ds + multiset{x} <= a
    requires a - (ds + multiset{x}) + (ps + multiset{y}) == b
    ensures ds <= a && x in a - ds
    ensures a - ds - multiset{x} + multiset{y} + ps == b
  {
    assert (a - ds)[x] == a[x] - ds[x];
  }

  lemma {:induction false} TxnRead(env: Env, s: State, t: Txn, a: Zone, b: Zone) returns (u: State)
    requires IsDiff(t, a, b) && ReadyFor(env, s, a)
    ensures Leads(env, s, Wire(EmitTxn(t)), u) && Reached(u, s.openSerial, b)
  {
    var oldSoa, ds, newSoa, ps := TxnShape(t, a, b);
    // the older SOA
    OlderSoaRead(env, s, a, oldSoa);
    var s1 := Step(env, s, Plain(oldSoa, CLASS_IN), false, false).0;
    // the deletions
    var s2 := s1.(records := DeleteAll(s1.records, ds));
    DeletionsRead(env, s1, ds);
    assert multiset(s2.records) == multiset(a) - multiset(ds) by {
      DistinctReordered(a, s1.records);
      DeleteAllContent(s1.records, ds);
    }
    // the newer SOA
    assert oldSoa in multiset(s2.records);
    NewerSoaRead(env, s2, a, s2.records, newSoa);
    var s3 := Step(env, s2, Plain(newSoa, CLASS_IN), false, false).0;
    // the additions
    u := s3.(records := s3.records + ps);
    AdditionsRead(env, s3, ps);
    Assemble(env, s, oldSoa, s1, ds, s2, newSoa, s3, ps, u);
  }

  /** The four parts of a difference on the wire, and what they add up to. */
  lemma {:induction false} TxnShape(t: Txn, a: Zone, b: Zone) returns (oldSoa: RR, ds: Zone, newSoa: RR, ps: Zone)
    requires IsDiff(t, a, b)
    ensures EmitTxn(t) == [oldSoa] + ds + [newSoa] + ps
    ensures PlainData(ds) && PlainData(ps)
    ensures ApexSoaIndex(a) < |a| && oldSoa == a[ApexSoaIndex(a)] && oldSoa.rdata.serial == t.oldSerial
    ensures newSoa.IsApexSoa() && newSoa.rdata.serial == SerialOrZero(b) == t.newSerial != t.oldSerial
    ensures multiset(ds) <= multiset(a) && oldSoa in multiset(a) - multiset(ds)
    ensures multiset(a) - multiset(ds) - multiset{oldSoa} + multiset{newSoa} + multiset(ps) == multiset(b)
  {
    ds, ps := Rest(t.deleted), Rest(t.added);
    oldSoa := HalfShape(a, b);
    newSoa := HalfShape(b, a);
    TxnChange(t, a, b, oldSoa, ds, newSoa, ps);
    TxnRegrouped(t, oldSoa, ds, newSoa, ps);
  }

  /** What the two halves do to the content. */
  lemma {:induction false} TxnChange(t: Txn, a: Zone, b: Zone, oldSoa: RR, ds: Zone, newSoa: RR, ps: Zone)
    requires IsDiff(t, a, b)
    requires multiset(t.deleted) == multiset(ds) + multiset{oldSoa} && multiset(t.added) == multiset(ps) + multiset{newSoa}
    ensures multiset(ds) <= multiset(a) && oldSoa in multiset(a) - multiset(ds)
    ensures multiset(a) - multiset(ds) - multiset{oldSoa} + multiset{newSoa} + multiset(ps) == multiset(b)
  {
    DiffIsExact(a, b);
    WholeChange(multiset(a), multiset(ds), oldSoa, newSoa, multiset(ps), multiset(b));
  }

  lemma {:induction false} TxnRegrouped(t: Txn, oldSoa: RR, ds: Zone, newSoa: RR, ps: Zone)
    requires SoaFirst(t.deleted) == [oldSoa] + ds && SoaFirst(t.added) == [newSoa] + ps
    ensures EmitTxn(t) == [oldSoa] + ds + [newSoa] + ps
  {
    Regrouped([oldSoa] + ds, newSoa, ps);
  }

  lemma {:induction false} Regrouped(p: Zone, y: RR, q: Zone)
    ensures p + ([y] + q) == p + [y] + q
  {
  }

  /** One half of a difference: its SOA, and other records. */
  lemma {:induction false} HalfShape(a: Zone, b: Zone) returns (soa: RR)
    requires WellFormed(a) && WellFormed(b) && SerialOrZero(a) != SerialOrZero(b)
    ensures ApexSoaIndex(a) < |a| && soa == a[ApexSoaIndex(a)]
    ensures soa.IsApexSoa() && soa.rdata.serial == SerialOrZero(a)
    ensures var m := Missing(a, b);
      SoaFirst(m) == [soa] + Rest(m) && PlainData(Rest(m)) && multiset(m) == multiset(Rest(m)) + multiset{soa}
  {
    WellFormedHasSoa(a);
    HalfHasItsSoa(a, b);
    soa := a[ApexSoaIndex(a)];
    RestContent(Missing(a, b), soa);
  }

  lemma WithoutOne(z: Zone, k: nat)
    requires k < |z|
    ensures multiset(z) == multiset(z[..k] + z[k + 1..]) + multiset{z[k]}
  {
    assert z == z[..k] + [z[k]] + z[k + 1..];
  }

  lemma {:induction false} RestContent(z: Zone, soa: RR)
    requires SoaIndex(z) < |z| && z[SoaIndex(z)] == soa
    requires forall i :: 0 <= i < |z| && i != SoaIndex(z) ==> z[i].rdata.Other? && !z[i].owner.Outside?
    ensures multiset(z) == multiset(Rest(z)) + multiset{soa}
    ensures PlainData(Rest(z))
  {
    var k := SoaIndex(z);
    WithoutOne(z, k);
    forall i | 0 <= i < |z| - 1 ensures Rest(z)[i] == z[if i < k then i else i + 1] {
    }
  }

  lemma Assemble(env: Env, s: State, x: RR, s1: State, ds: Zone, s2: State, y: RR, s3: State, ps: Zone, u: State)
    requires Leads(env, s, [Plain(x, CLASS_IN)], s1) && Leads(env, s1, Wire(ds), s2)
    requires Leads(env, s2, [Plain(y, CLASS_IN)], s3) && Leads(env, s3, Wire(ps), u)
    ensures Leads(env, s, Wire([x] + ds + [y] + ps), u)
  {
    LeadsOn(env, s, [Plain(x, CLASS_IN)], s1, Wire(ds), s2);
    LeadsOn(env, s, [Plain(x, CLASS_IN)] + Wire(ds), s2, [Plain(y, CLASS_IN)], s3);
    LeadsOn(env, s, [Plain(x, CLASS_IN)] + Wire(ds) + [Plain(y, CLASS_IN)], s3, Wire(ps), u);
    WireConcat([x], ds);
    WireConcat([x] + ds, [y]);
    WireConcat([x] + ds + [y], ps);
    assert Wire([x]) == [Plain(x, CLASS_IN)] && Wire([y]) == [Plain(y, CLASS_IN)];
  }
}
