/**
 * From the primary's answer to the secondary's zone: an incremental transfer gives exactly the current version, a full
 * one gives it in file order, for every run of the primary and every way of cutting the answer into messages.
 */
module EndToEnd {
  import opened Serials
  import opened Records
  import opened TransferParser
  import opened MessageCuts
  import opened IxfrDiff
  import opened IxfrApply
  import opened IxfrAnswer

  // ---- a chain of differences ----

  /** chain[i] is the difference from olds[i] to news[i], and each one starts with the content the one before ended with. */
  ghost predicate Linked(chain: seq<Txn>, olds: seq<Zone>, news: seq<Zone>) {
    && |olds| == |chain| && |news| == |chain|
    && (forall i :: 0 <= i < |chain| ==> IsDiff(chain[i], olds[i], news[i]))
    && (forall i: nat :: i < |chain| - 1 ==> Joined(chain, olds, news, i))
  }

  ghost predicate Joined(chain: seq<Txn>, olds: seq<Zone>, news: seq<Zone>, i: nat)
    requires |olds| == |chain| && |news| == |chain| && i < |chain| - 1
  {
    SameContent(news[i], olds[i + 1]) && chain[i].newSerial == chain[i + 1].oldSerial
  }

  /** Some difference but the last ends at the serial the whole chain ends at. */
  predicate Revisits(chain: seq<Txn>, current: Serial) {
    exists i :: 0 <= i < |chain| - 1 && chain[i].newSerial == current
  }

  lemma {:induction false} LinkedTail(chain: seq<Txn>, olds: seq<Zone>, news: seq<Zone>)
    requires Linked(chain, olds, news) && chain != []
    ensures Linked(chain[1..], olds[1..], news[1..])
  {
    var c, o, n := chain[1..], olds[1..], news[1..];
    forall i | 0 <= i < |c| ensures IsDiff(c[i], o[i], n[i]) {
      assert IsDiff(chain[i + 1], olds[i + 1], news[i + 1]);
    }
    forall i: nat | i < |c| - 1 ensures Joined(c, o, n, i) {
      assert Joined(chain, olds, news, i + 1);
    }
  }

  lemma {:induction false} NextReady(env: Env, t: State, chain: seq<Txn>, olds: seq<Zone>, news: seq<Zone>)
    requires Linked(chain, olds, news) && |chain| > 1
    requires Reached(t, t.openSerial, news[0]) && chain[0].newSerial != t.openSerial
    ensures ReadyFor(env, t, olds[1])
  {
    assert Joined(chain, olds, news, 0);
    assert IsDiff(chain[0], olds[0], news[0]);
    assert IsDiff(chain[1], olds[1], news[1]);
  }

  lemma NoRevisitTail(chain: seq<Txn>, current: Serial)
    requires |chain| > 1 && !Revisits(chain, current)
    ensures chain[0].newSerial != current && !Revisits(chain[1..], current)
  {
    forall i | 0 <= i < |chain[1..]| - 1 ensures chain[1..][i].newSerial != current {
      assert chain[i + 1].newSerial != current;
    }
  }

  lemma {:induction false} FirstOfChain(chain: seq<Txn>)
    requires chain != []
    ensures Wire(EmitTxns(chain)) == Wire(EmitTxn(chain[0])) + Wire(EmitTxns(chain[1..]))
    ensures |chain| == 1 ==> Wire(EmitTxns(chain)) == Wire(EmitTxn(chain[0]))
  {
    WireConcat(EmitTxn(chain[0]), EmitTxns(chain[1..]));
    assert |chain| == 1 ==> EmitTxns(chain[1..]) == [];
  }

  lemma {:induction false} ChainRead(env: Env, s: State, chain: seq<Txn>, olds: seq<Zone>, news: seq<Zone>) returns (u: State)
    requires Linked(chain, olds, news) && chain != [] && ReadyFor(env, s, olds[0])
    requires !Revisits(chain, s.openSerial)
    ensures Leads(env, s, Wire(EmitTxns(chain)), u) && Reached(u, s.openSerial, news[|news| - 1])
    decreases |chain|
  {
    assert IsDiff(chain[0], olds[0], news[0]);
    var t := TxnRead(env, s, chain[0], olds[0], news[0]);
    FirstOfChain(chain);
    if |chain| == 1 {
      u := t;
    } else {
      NoRevisitTail(chain, s.openSerial);
      NextReady(env, t, chain, olds, news);
      LinkedTail(chain, olds, news);
      u := ChainRead(env, t, chain[1..], olds[1..], news[1..]);
      LeadsOn(env, s, Wire(EmitTxn(chain[0])), t, Wire(EmitTxns(chain[1..])), u);
    }
  }

  /** The opening SOA of an answer that brings something newer. */
  lemma OpeningRead(env: Env, s: State, soa: RR)
    requires s.soaCount == 0 && !s.finished && !s.deleting && soa.IsApexSoa()
    requires env.clientSerial != 0 ==> Newer(soa.rdata.serial, env.clientSerial)
    requires s.ixfr ==> env.clientSerial != 0
    ensures Step(env, s, Plain(soa, CLASS_IN), false, false)
            == (s.(soaCount := 1, openOwner := Apex, openSerial := soa.rdata.serial, records := s.records + [soa]), Next)
  {
  }

  /** A secondary that asks for differences from the version it serves. */
  ghost predicate Asking(env: Env, s: State) {
    && s.ixfr && s.soaCount == 0 && !s.finished && !s.deleting && s.records == []
    && env.clientSerial != 0 && env.active.Some?
  }

  ghost predicate SoaOf(soa: RR, z: Zone) {
    ApexSoaIndex(z) < |z| && soa == TheSoa(z)
  }

  lemma {:induction false} ChainShape(soa: RR, chain: seq<Txn>)
    ensures Wire(EmitChain(soa, chain)) == [Plain(soa, CLASS_IN)] + Wire(EmitTxns(chain)) + [Plain(soa, CLASS_IN)]
  {
    WireConcat([soa], EmitTxns(chain));
    WireConcat([soa] + EmitTxns(chain), [soa]);
    assert Wire([soa]) == [Plain(soa, CLASS_IN)];
  }

  /** A chain of differences from the asking secondary's version, opened by a SOA that is newer than that version. */
  ghost predicate Offered(env: Env, s: State, soa: RR, chain: seq<Txn>, olds: seq<Zone>, news: seq<Zone>) {
    && Asking(env, s) && Linked(chain, olds, news) && chain != [] && soa.IsApexSoa()
    && env.clientSerial == chain[0].oldSerial && SameContent(env.active.value, olds[0])
    && Newer(soa.rdata.serial, env.clientSerial)
  }

  /** The opening SOA and the differences after it. */
  lemma {:induction false} OpenedChainRead(env: Env, s: State, soa: RR, chain: seq<Txn>, olds: seq<Zone>, news: seq<Zone>)
    returns (u: State)
    requires Offered(env, s, soa, chain, olds, news) && !Revisits(chain, soa.rdata.serial)
    ensures Leads(env, s, [Plain(soa, CLASS_IN)] + Wire(EmitTxns(chain)), u)
    ensures Reached(u, soa.rdata.serial, news[|news| - 1])
  {
    var item := Plain(soa, CLASS_IN);
    assert IsDiff(chain[0], olds[0], news[0]);
    OpeningRead(env, s, soa);
    var s1 := Step(env, s, item, false, false).0;
    assert Leads(env, s, [item], s1) by { assert [item][1..] == []; }
    u := ChainRead(env, s1, chain, olds, news);
    LeadsOn(env, s, [item], s1, Wire(EmitTxns(chain)), u);
  }

  lemma ClosingRead(env: Env, u: State, soa: RR, z: Zone)
    requires soa.IsApexSoa() && SoaOf(soa, z) && Reached(u, soa.rdata.serial, z)
    ensures var (t, ok) := Flat(env, u, [Plain(soa, CLASS_IN)]);
      ok && t.finished && t.records == u.records
  {
    assert [Plain(soa, CLASS_IN)][1..] == [];
  }

  /** The answer is accepted when it is newer and does not pass through its own end. */
  lemma {:induction false} DifferencesAccepted(env: Env, s: State, soa: RR, chain: seq<Txn>, olds: seq<Zone>, news: seq<Zone>)
    requires Offered(env, s, soa, chain, olds, news) && SoaOf(soa, news[|news| - 1])
    requires !Revisits(chain, soa.rdata.serial)
    ensures RunsToTheEnd(env, s, Wire(EmitChain(soa, chain)))
    ensures var (t, ok) := Flat(env, s, Wire(EmitChain(soa, chain)));
      ok && t.finished && SameContent(t.records, news[|news| - 1])
  {
    var item := Plain(soa, CLASS_IN);
    var u := OpenedChainRead(env, s, soa, chain, olds, news);
    ChainShape(soa, chain);
    LeadsToLast(env, s, [item] + Wire(EmitTxns(chain)), u, item);
    ClosingRead(env, u, soa, news[|news| - 1]);
  }

  // ---- when it is refused ----

  lemma EmitTxnsSplit(a: seq<Txn>, b: seq<Txn>)
    ensures EmitTxns(a + b) == EmitTxns(a) + EmitTxns(b)
  {
    if a == [] {
      assert a + b == b;
    } else {
      assert (a + b)[1..] == a[1..] + b;
      EmitTxnsSplit(a[1..], b);
    }
  }

  lemma {:induction false} OneDataAfterEnd(env: Env, s: State, d: RR, last: bool)
    requires s.ixfr && !s.deleting && s.soaCount >= 2 && d.rdata.Other? && !d.owner.Outside?
    ensures Step(env, s, Plain(d, CLASS_IN), false, last) == (s.(records := s.records + [d]), Next)
  {
  }

  lemma {:induction false} FirstAfterEnd(env: Env, s: State, ds: Zone, rest: seq<Item>)
    requires s.ixfr && !s.deleting && s.soaCount >= 2 && PlainData(ds) && ds != [] && rest != []
    ensures Flat(env, s, Wire(ds) + rest) == Flat(env, s.(records := s.records + [ds[0]]), Wire(ds[1..]) + rest)
  {
    OneDataAfterEnd(env, s, ds[0], false);
    WireAhead(ds, rest);
    FlatNext(env, s, Plain(ds[0], CLASS_IN), s.(records := s.records + [ds[0]]), Wire(ds[1..]) + rest);
  }

  /** After the transfer is over, records in the same message are still appended. */
  lemma {:induction false} DataAfterEnd(env: Env, s: State, ds: Zone, rest: seq<Item>)
    requires s.ixfr && !s.deleting && s.soaCount >= 2 && PlainData(ds) && rest != []
    ensures Flat(env, s, Wire(ds) + rest) == Flat(env, s.(records := s.records + ds), rest)
    decreases |ds|
  {
    if ds == [] {
      assert Wire(ds) + rest == rest;
      assert s.(records := s.records + ds) == s by { assert s.records + ds == s.records; }
    } else {
      var t := s.(records := s.records + [ds[0]]);
      FirstAfterEnd(env, s, ds, rest);
      DataAfterEnd(env, t, ds[1..], rest);
      assert t.records + ds[1..] == s.records + ds;
    }
  }

  lemma {:induction false} WireAhead(ds: Zone, rest: seq<Item>)
    requires ds != []
    ensures Wire(ds) + rest == [Plain(ds[0], CLASS_IN)] + (Wire(ds[1..]) + rest)
  {
  }

  lemma {:induction false} TxnWire(x: RR, ds: Zone, y: RR, ps: Zone)
    ensures Wire([x] + ds + [y] + ps) == [Plain(x, CLASS_IN)] + (Wire(ds) + ([Plain(y, CLASS_IN)] + Wire(ps)))
  {
    WireConcat([x] + ds + [y], ps);
    WireConcat([x] + ds, [y]);
    WireConcat([x], ds);
    assert Wire([x]) == [Plain(x, CLASS_IN)] && Wire([y]) == [Plain(y, CLASS_IN)];
  }

  lemma FlatNext(env: Env, s: State, item: Item, t: State, rest: seq<Item>)
    requires Step(env, s, item, false, false) == (t, Next) && rest != []
    ensures Flat(env, s, [item] + rest) == Flat(env, t, rest)
  {
    assert ([item] + rest)[1..] == rest;
  }

  /** A SOA of the serial the transfer has reached ends it. */
  lemma EndRead(env: Env, s: State, x: RR)
    requires s.ixfr && !s.deleting && s.soaCount >= 3 && x.IsApexSoa()
    requires x.rdata.serial == s.openSerial && s.expectedSerial == s.openSerial
    ensures Step(env, s, Plain(x, CLASS_IN), false, false) == (s.(soaCount := s.soaCount + 1, finished := true), Next)
  {
  }

  /** Two SOAs after the end, with data between them: the second one is refused. */
  lemma {:induction false} AfterEnd(env: Env, s: State, x: RR, ds: Zone, y: RR, tail: seq<Item>)
    requires s.ixfr && !s.deleting && s.soaCount >= 3 && x.IsApexSoa() && y.IsApexSoa() && PlainData(ds)
    requires x.rdata.serial == s.openSerial && s.expectedSerial == s.openSerial && y.rdata.serial != s.openSerial
    ensures !Flat(env, s, [Plain(x, CLASS_IN)] + (Wire(ds) + ([Plain(y, CLASS_IN)] + tail))).1
  {
    var s1 := s.(soaCount := s.soaCount + 1, finished := true);
    var rest := [Plain(y, CLASS_IN)] + tail;
    EndRead(env, s, x);
    FlatNext(env, s, Plain(x, CLASS_IN), s1, Wire(ds) + rest);
    DataAfterEnd(env, s1, ds, rest);
    NewerSoaRefused(env, s1.(records := s1.records + ds), y, rest);
  }

  /** A difference that follows the end of the transfer in the same message is refused at its newer SOA. */
  lemma {:induction false} TxnAfterEnd(env: Env, s: State, t: Txn, a: Zone, b: Zone, more: seq<Item>)
    requires IsDiff(t, a, b) && s.ixfr && !s.deleting && s.soaCount >= 3
    requires s.openSerial == t.oldSerial && s.expectedSerial == t.oldSerial
    ensures !Flat(env, s, Wire(EmitTxn(t)) + more).1
  {
    var x, ds, y, ps := TxnShape(t, a, b);
    TxnWireAhead(x, ds, y, ps, more);
    AfterEnd(env, s, x, ds, y, Wire(ps) + more);
  }

  lemma {:induction false} TxnWireAhead(x: RR, ds: Zone, y: RR, ps: Zone, more: seq<Item>)
    ensures Wire([x] + ds + [y] + ps) + more == [Plain(x, CLASS_IN)] + (Wire(ds) + ([Plain(y, CLASS_IN)] + (Wire(ps) + more)))
  {
    TxnWire(x, ds, y, ps);
  }

  lemma NewerSoaRefused(env: Env, s: State, y: RR, rest: seq<Item>)
    requires s.ixfr && !s.deleting && s.soaCount >= 3 && rest != [] && rest[0] == Plain(y, CLASS_IN)
    requires y.IsApexSoa() && y.rdata.serial != s.expectedSerial && s.expectedSerial == s.openSerial
    ensures !Flat(env, s, rest).1
  {
  }

  /** A chain that passes through its own end is refused when it comes in one message. */
  lemma {:induction false} RevisitingRefused(env: Env, s: State, soa: RR, chain: seq<Txn>, olds: seq<Zone>, news: seq<Zone>)
    requires Offered(env, s, soa, chain, olds, news) && Revisits(chain, soa.rdata.serial)
    ensures !Flat(env, s, Wire(EmitChain(soa, chain))).1
  {
    var i := FirstRevisit(chain, soa.rdata.serial);
    RefusedAt(env, s, soa, chain, olds, news, i);
  }

  lemma {:induction false} RefusedAt(env: Env, s: State, soa: RR, chain: seq<Txn>, olds: seq<Zone>, news: seq<Zone>, i: nat)
    requires Offered(env, s, soa, chain, olds, news)
    requires i < |chain| - 1 && chain[i].newSerial == soa.rdata.serial && !Revisits(chain[..i + 1], soa.rdata.serial)
    ensures !Flat(env, s, Wire(EmitChain(soa, chain))).1
  {
    var front := [Plain(soa, CLASS_IN)] + Wire(EmitTxns(chain[..i + 1]));
    var u := UpToRevisit(env, s, soa, chain, olds, news, i);
    var more := Wire(EmitTxns(chain[i + 2..])) + [Plain(soa, CLASS_IN)];
    var rest := Wire(EmitTxn(chain[i + 1])) + more;
    assert Wire(EmitChain(soa, chain)) == front + rest by { RevisitingShape(soa, chain, i + 1); }
    assert !Flat(env, u, rest).1 by { TxnAfterEnd(env, u, chain[i + 1], olds[i + 1], news[i + 1], more); }
    RefusedLater(env, s, front, u, rest, Wire(EmitChain(soa, chain)));
  }

  lemma {:induction false} RefusedLater(env: Env, s: State, front: seq<Item>, u: State, rest: seq<Item>, whole: seq<Item>)
    requires Leads(env, s, front, u) && !Flat(env, u, rest).1 && whole == front + rest
    ensures !Flat(env, s, whole).1
  {
    LeadsThenFlat(env, s, front, u, rest);
  }

  lemma {:induction false} UpToRevisit(env: Env, s: State, soa: RR, chain: seq<Txn>, olds: seq<Zone>, news: seq<Zone>, i: nat)
    returns (u: State)
    requires Offered(env, s, soa, chain, olds, news)
    requires i < |chain| - 1 && chain[i].newSerial == soa.rdata.serial && !Revisits(chain[..i + 1], soa.rdata.serial)
    ensures Leads(env, s, [Plain(soa, CLASS_IN)] + Wire(EmitTxns(chain[..i + 1])), u)
    ensures IsDiff(chain[i + 1], olds[i + 1], news[i + 1])
    ensures u.ixfr && !u.deleting && u.soaCount >= 3 && SameContent(u.records, news[i])
    ensures u.openSerial == chain[i + 1].oldSerial && u.expectedSerial == chain[i + 1].oldSerial
  {
    assert Offered(env, s, soa, chain[..i + 1], olds[..i + 1], news[..i + 1]) by { LinkedPrefix(chain, olds, news, i + 1); }
    u := OpenedChainRead(env, s, soa, chain[..i + 1], olds[..i + 1], news[..i + 1]);
    assert news[..i + 1][i] == news[i];
    assert IsDiff(chain[i], olds[i], news[i]);
    assert Joined(chain, olds, news, i);
  }

  lemma {:induction false} RevisitingShape(soa: RR, chain: seq<Txn>, n: nat)
    requires n < |chain|
    ensures Wire(EmitChain(soa, chain))
         == ([Plain(soa, CLASS_IN)] + Wire(EmitTxns(chain[..n])))
            + (Wire(EmitTxn(chain[n])) + (Wire(EmitTxns(chain[n + 1..])) + [Plain(soa, CLASS_IN)]))
  {
    var (a, b) := (chain[..n], chain[n..]);
    assert chain == a + b && b[0] == chain[n] && b[1..] == chain[n + 1..];
    ChainShape(soa, chain);
    EmitTxnsSplit(a, b);
    WireConcat(EmitTxns(a), EmitTxns(b));
    WireConcat(EmitTxn(b[0]), EmitTxns(b[1..]));
    Regroup([Plain(soa, CLASS_IN)], Wire(EmitTxns(a)), Wire(EmitTxn(b[0])), Wire(EmitTxns(b[1..])));
  }

  lemma Regroup(f: seq<Item>, a: seq<Item>, b: seq<Item>, c: seq<Item>)
    ensures f + (a + (b + c)) + f == (f + a) + (b + (c + f))
  {
  }

  lemma {:induction false} FirstRevisit(chain: seq<Txn>, current: Serial) returns (i: nat)
    requires Revisits(chain, current)
    ensures i < |chain| - 1 && chain[i].newSerial == current
    ensures !Revisits(chain[..i + 1], current)
  {
    i := 0;
    while chain[i].newSerial != current
      invariant i < |chain| - 1
      invariant forall j :: 0 <= j < i ==> chain[j].newSerial != current
      invariant exists k :: i <= k < |chain| - 1 && chain[k].newSerial == current
      decreases |chain| - i
    {
      i := i + 1;
    }
  }

  lemma {:induction false} LinkedPrefix(chain: seq<Txn>, olds: seq<Zone>, news: seq<Zone>, n: nat)
    requires Linked(chain, olds, news) && n <= |chain|
    ensures Linked(chain[..n], olds[..n], news[..n])
  {
    var c, o, w := chain[..n], olds[..n], news[..n];
    forall i | 0 <= i < |c| ensures IsDiff(c[i], o[i], w[i]) {
      assert IsDiff(chain[i], olds[i], news[i]);
    }
    forall i: nat | i < |c| - 1 ensures Joined(c, o, w, i) {
      assert Joined(chain, olds, news, i);
    }
  }
}
