/**
 * Transfers as streams of messages, cut in any way: when every cut of an answer is taken, what an accepted one brings,
 * and full transfers of what the emitter packs.
 */
module CutTransfers {
  import opened Serials
  import opened Records
  import opened TransferParser
  import opened MessageCuts
  import opened IxfrDiff
  import opened IxfrApply
  import opened IxfrAnswer
  import opened EndToEnd
  import opened Packing
  import opened TransferTheorems

  // ---- a chain that passes through its own end ----

  lemma {:induction false} LeadsPart(env: Env, s: State, xs: seq<Item>, u: State, n: nat)
    requires Leads(env, s, xs, u) && !s.finished && n <= |xs|
    ensures var (t, ok) := Flat(env, s, xs[..n]); ok && !t.finished
    decreases n
  {
    if n > 0 {
      LastIsNoDifferent(env, s, xs[0]);
      assert xs[..n][0] == xs[0] && xs[..n][1..] == xs[1..][..n - 1];
      LeadsPart(env, Step(env, s, xs[0], false, false).0, xs[1..], u, n - 1);
    }
  }

  lemma {:induction false} FlatOne(env: Env, s: State, item: Item, t: State, rest: seq<Item>)
    requires Step(env, s, item, false, rest == []) == (t, Next)
    ensures Flat(env, s, [item] + rest) == Flat(env, t, rest)
  {
    assert ([item] + rest)[1..] == rest;
  }

  lemma {:induction false} DataOnlyAfterEnd(env: Env, s: State, ds: Zone)
    requires s.ixfr && !s.deleting && s.soaCount >= 2 && PlainData(ds)
    ensures Flat(env, s, Wire(ds)) == (s.(records := s.records + ds), true)
    decreases |ds|
  {
    if ds == [] {
      assert s.records + ds == s.records;
    } else {
      var t := s.(records := s.records + [ds[0]]);
      OneDataAfterEnd(env, s, ds[0], Wire(ds[1..]) == []);
      FlatOne(env, s, Plain(ds[0], CLASS_IN), t, Wire(ds[1..]));
      DataOnlyAfterEnd(env, t, ds[1..]);
      assert t.records + ds[1..] == s.records + ds;
    }
  }

  /** The transfer is over with this SOA; the deletions after it in the same message are appended. */
  lemma {:induction false} EndThenData(env: Env, s: State, x: RR, ds: Zone)
    requires s.ixfr && !s.deleting && s.soaCount >= 3 && x.IsApexSoa() && PlainData(ds)
    requires x.rdata.serial == s.openSerial && s.expectedSerial == s.openSerial
    ensures var (t, ok) := Flat(env, s, [Plain(x, CLASS_IN)] + Wire(ds)); ok && t.finished && t.records == s.records + ds
  {
    var s1 := s.(soaCount := s.soaCount + 1, finished := true);
    assert Step(env, s, Plain(x, CLASS_IN), false, Wire(ds) == []) == (s1, Next);
    FlatOne(env, s, Plain(x, CLASS_IN), s1, Wire(ds));
    DataOnlyAfterEnd(env, s1, ds);
  }

  lemma {:induction false} WirePart(ds: Zone, n: nat)
    requires n <= |ds|
    ensures |Wire(ds)| == |ds| && Wire(ds)[..n] == Wire(ds[..n])
    decreases |ds|
  {
    if ds != [] {
      WirePart(ds[1..], if n > 0 then n - 1 else 0);
      assert n > 0 ==> ds[..n][1..] == ds[1..][..n - 1];
    }
  }

  lemma PartBefore(x: Item, ds: seq<Item>, y: Item, tail: seq<Item>, m: nat)
    requires 0 < m <= 1 + |ds|
    ensures ([x] + (ds + ([y] + tail)))[..m] == [x] + ds[..m - 1]
  {
  }

  lemma PartAfter(x: Item, ds: seq<Item>, y: Item, tail: seq<Item>, m: nat)
    requires 1 + |ds| < m <= 2 + |ds| + |tail|
    ensures ([x] + (ds + ([y] + tail)))[..m] == [x] + (ds + ([y] + tail[..m - 2 - |ds|]))
  {
  }

  /** However far a message reads on after the end, it is refused or appends some of the deletions. */
  lemma {:induction false} ReadOnAfterEnd(env: Env, s: State, x: RR, ds: Zone, y: RR, tail: seq<Item>, m: nat)
    requires s.ixfr && !s.deleting && s.soaCount >= 3 && x.IsApexSoa() && y.IsApexSoa() && PlainData(ds)
    requires x.rdata.serial == s.openSerial && s.expectedSerial == s.openSerial && y.rdata.serial != s.openSerial
    requires 0 < m <= 2 + |Wire(ds)| + |tail|
    ensures var (t, ok) := Flat(env, s, ([Plain(x, CLASS_IN)] + (Wire(ds) + ([Plain(y, CLASS_IN)] + tail)))[..m]);
      ok ==> t.finished && m - 1 <= |ds| && t.records == s.records + ds[..m - 1]
  {
    var (a, b) := (Plain(x, CLASS_IN), Plain(y, CLASS_IN));
    WirePart(ds, 0);
    if m <= 1 + |ds| {
      PartBefore(a, Wire(ds), b, tail, m);
      WirePart(ds, m - 1);
      EndThenData(env, s, x, ds[..m - 1]);
    } else {
      PartAfter(a, Wire(ds), b, tail, m);
      AfterEnd(env, s, x, ds, y, tail[..m - 2 - |ds|]);
    }
  }

  ghost predicate SameRecords(a: Zone, b: Zone) {
    forall r :: r in a <==> r in b
  }

  /** If a stream that was read so far is taken and over, it brings the records of z. */
  ghost predicate Brings(outcome: (State, bool), z: Zone) {
    outcome.1 && outcome.0.finished ==> SameRecords(outcome.0.records, z)
  }

  lemma {:induction false} MoreOfTheSame(a: Zone, b: Zone, ds: Zone, z: Zone, n: nat)
    requires SameContent(a, b) && SameContent(b, z) && multiset(ds) <= multiset(b) && n <= |ds|
    ensures SameRecords(a + ds[..n], z)
  {
    forall r ensures r in a + ds[..n] <==> r in z {
      assert r in a <==> r in multiset(a);
      assert r in z <==> r in multiset(z);
      if r in ds[..n] { assert r in ds && r in multiset(ds) && r in multiset(b); }
    }
  }

  lemma {:induction false} EarlierPart(env: Env, s: State, front: seq<Item>, u: State, whole: seq<Item>, z: Zone, n: nat)
    requires front <= whole && Leads(env, s, front, u) && !s.finished && n <= |front|
    ensures Brings(Flat(env, s, whole[..n]), z)
  {
    assert whole[..n] == front[..n];
    LeadsPart(env, s, front, u, n);
  }

  lemma {:induction false} LaterPart(env: Env, s: State, front: seq<Item>, u: State, rest: seq<Item>,
      whole: seq<Item>, z: Zone, n: nat)
    requires whole == front + rest && Leads(env, s, front, u) && |front| < n <= |whole|
    requires Brings(Flat(env, u, rest[..n - |front|]), z)
    ensures Brings(Flat(env, s, whole[..n]), z)
  {
    assert whole[..n] == front + rest[..n - |front|];
    LeadsThenFlat(env, s, front, u, rest[..n - |front|]);
  }

  /** A chain through its own end, cut after any record: refused, not finished, or the content of the end. */
  lemma {:induction false} RevisitingCut(env: Env, s: State, soa: RR, chain: seq<Txn>, olds: seq<Zone>, news: seq<Zone>,
      z: Zone, n: nat)
    requires Offered(env, s, soa, chain, olds, news) && Revisits(chain, soa.rdata.serial)
    requires EndsAs(chain, news, z) && SerialOrZero(z) == soa.rdata.serial
    requires 0 < n <= |Wire(EmitChain(soa, chain))|
    ensures Brings(Flat(env, s, Wire(EmitChain(soa, chain))[..n]), z)
  {
    var i := FirstRevisit(chain, soa.rdata.serial);
    CutAtRevisit(env, s, soa, chain, olds, news, z, n, i);
  }

  lemma {:induction false} CutAtRevisit(env: Env, s: State, soa: RR, chain: seq<Txn>, olds: seq<Zone>, news: seq<Zone>,
      z: Zone, n: nat, i: nat)
    requires Offered(env, s, soa, chain, olds, news)
    requires i < |chain| - 1 && chain[i].newSerial == soa.rdata.serial && !Revisits(chain[..i + 1], soa.rdata.serial)
    requires SameContent(news[i], z) && 0 < n <= |Wire(EmitChain(soa, chain))|
    ensures Brings(Flat(env, s, Wire(EmitChain(soa, chain))[..n]), z)
  {
    var front := [Plain(soa, CLASS_IN)] + Wire(EmitTxns(chain[..i + 1]));
    var more := Wire(EmitTxns(chain[i + 2..])) + [Plain(soa, CLASS_IN)];
    var u := UpToRevisit(env, s, soa, chain, olds, news, i);
    RevisitingShape(soa, chain, i + 1);
    assert SameContent(news[i], olds[i + 1]) by { assert Joined(chain, olds, news, i); }
    EitherPart(env, s, front, u, chain[i + 1], olds[i + 1], news[i + 1], more, Wire(EmitChain(soa, chain)), z, n);
  }

  lemma {:induction false} EitherPart(env: Env, s: State, front: seq<Item>, u: State, t: Txn, a: Zone, b: Zone, more: seq<Item>,
      whole: seq<Item>, z: Zone, n: nat)
    requires whole == front + (Wire(EmitTxn(t)) + more) && Leads(env, s, front, u) && !s.finished && 0 < n <= |whole|
    requires IsDiff(t, a, b) && u.ixfr && !u.deleting && u.soaCount >= 3
    requires u.openSerial == t.oldSerial && u.expectedSerial == t.oldSerial
    requires SameContent(u.records, a) && SameContent(a, z)
    ensures Brings(Flat(env, s, whole[..n]), z)
  {
    if n <= |front| {
      EarlierPart(env, s, front, u, whole, z, n);
    } else {
      CutAfterEnd(env, u, t, a, b, more, z, n - |front|);
      LaterPart(env, s, front, u, Wire(EmitTxn(t)) + more, whole, z, n);
    }
  }

  lemma {:induction false} CutAfterEnd(env: Env, s: State, t: Txn, a: Zone, b: Zone, more: seq<Item>, z: Zone, m: nat)
    requires IsDiff(t, a, b) && s.ixfr && !s.deleting && s.soaCount >= 3
    requires s.openSerial == t.oldSerial && s.expectedSerial == t.oldSerial
    requires SameContent(s.records, a) && SameContent(a, z) && 0 < m <= |Wire(EmitTxn(t)) + more|
    ensures Brings(Flat(env, s, (Wire(EmitTxn(t)) + more)[..m]), z)
  {
    var x, ds, y, ps := TxnShape(t, a, b);
    TxnWireAhead(x, ds, y, ps, more);
    ReadOnAfterEnd(env, s, x, ds, y, Wire(ps) + more, m);
    if m - 1 <= |ds| { MoreOfTheSame(s.records, a, ds, z, m - 1); }
  }

  // ---- incremental transfers ----

  lemma {:induction false} BehindCut(env: Env, s: State, soa: RR, chain: seq<Txn>, n: nat)
    requires s.soaCount == 0 && soa.IsApexSoa() && env.clientSerial != 0
    requires soa.rdata.serial != env.clientSerial && !Newer(soa.rdata.serial, env.clientSerial)
    requires 0 < n <= |Wire(EmitChain(soa, chain))|
    ensures !Flat(env, s, Wire(EmitChain(soa, chain))[..n]).1
  {
    var rest := StartsWithSoa(soa, chain, n);
    NotNewerRefused(env, s, soa, rest);
  }

  lemma {:induction false} StartsWithSoa(soa: RR, chain: seq<Txn>, n: nat) returns (rest: seq<Item>)
    requires 0 < n <= |Wire(EmitChain(soa, chain))|
    ensures Wire(EmitChain(soa, chain))[..n] == [Plain(soa, CLASS_IN)] + rest
  {
    var tail := Wire(EmitTxns(chain)) + [Plain(soa, CLASS_IN)];
    ChainShape(soa, chain);
    assert Wire(EmitChain(soa, chain)) == [Plain(soa, CLASS_IN)] + tail;
    rest := tail[..n - 1];
  }

  lemma {:induction false} SameContentSameRecords(a: Zone, z: Zone)
    requires SameContent(a, z)
    ensures SameRecords(a, z)
  {
    forall r ensures r in a <==> r in z {
      assert r in a <==> r in multiset(a);
      assert r in z <==> r in multiset(z);
    }
  }

  ghost predicate AnswerCut(acts: seq<Act>, chain: seq<Txn>, msgs: seq<Message>)
    requires Live(acts).versions != []
  {
    msgs != [] && Sendable(msgs) && Concat(msgs) == Wire(Emit(Current(Live(acts)), Differences(chain)))
  }

  /**
   * Whatever differences a primary answers with and however they are cut into messages, a transfer that is taken brings
   * the records of the current version, and no others; some may come twice when the chain passes through its own end.
   */
  lemma {:induction false} AcceptedIsCurrent(acts: seq<Act>, env: Env, provideIxfr: bool, chain: seq<Txn>, msgs: seq<Message>)
    requires VersionsOk(acts) && AnsweredWith(Live(acts), env, provideIxfr, chain) && AnswerCut(acts, chain, msgs)
    ensures var (t, ok) := ParseStream(env, Start(true), msgs);
      ok ==> t.finished && SameRecords(t.records, Current(Live(acts)))
  {
    var z, options := Current(Live(acts)), OptionsOf(msgs[0]);
    if Newer(SerialOrZero(z), env.clientSerial) && !Revisits(chain, SerialOrZero(z)) {
      IncrementalTransferExact(acts, env, provideIxfr, chain, msgs);
      SameContentSameRecords(ParseStream(env, Start(true), msgs).0.records, z);
    } else {
      IncrementalTransferAccepted(acts, env, provideIxfr, chain, options);
      OtherCuts(acts, env, provideIxfr, chain, options);
      ByPart(env, msgs, z);
    }
  }

  /** Every part of the stream that ends the transfer brings the records of z. */
  ghost predicate PartsBring(env: Env, s: State, items: seq<Item>, z: Zone) {
    forall n :: 0 < n <= |items| ==> Brings(Flat(env, s, items[..n]), z)
  }

  lemma {:induction false} ByPart(env: Env, msgs: seq<Message>, z: Zone)
    requires msgs != [] && Sendable(msgs) && env.clientSerial != 0
    requires !Flat(env, Start(true).(options := OptionsOf(msgs[0])), Concat(msgs)).1
    requires PartsBring(env, Start(true).(options := OptionsOf(msgs[0])), Concat(msgs), z)
    ensures var (t, ok) := ParseStream(env, Start(true), msgs); ok ==> t.finished && SameRecords(t.records, z)
  {
    var n := StreamIsPrefix(env, Start(true), msgs);
    var s := Start(true).(options := OptionsOf(msgs[0]));
    assert ReadOptions(Start(true), msgs[0]) == s;
    assert Concat(msgs)[..|Concat(msgs)|] == Concat(msgs);
    assert Brings(Flat(env, s, Concat(msgs)[..n]), z);
  }

  function OptionsOf(m: Message): Options {
    Options(m.expireOption, m.extended)
  }

  lemma {:induction false} OtherCuts(acts: seq<Act>, env: Env, provideIxfr: bool, chain: seq<Txn>, options: Options)
    requires VersionsOk(acts) && AnsweredWith(Live(acts), env, provideIxfr, chain)
    requires var z := Current(Live(acts)); !Newer(SerialOrZero(z), env.clientSerial) || Revisits(chain, SerialOrZero(z))
    ensures env.clientSerial != 0 && Wire(Emit(Current(Live(acts)), Differences(chain))) != []
    ensures var z := Current(Live(acts));
      PartsBring(env, Start(true).(options := options), Wire(Emit(z, Differences(chain))), z)
  {
    var p, z, s := Live(acts), Current(Live(acts)), Start(true).(options := options);
    HistoryIsTrue(acts);
    CurrentWellFormed(p);
    WellFormedHasSoa(z);
    var olds, news := AnswerLinked(p, env, provideIxfr, chain);
    ChainShape(TheSoa(z), chain);
    CutsBring(env, s, TheSoa(z), chain, olds, news, z);
  }

  lemma {:induction false} CutsBring(env: Env, s: State, soa: RR, chain: seq<Txn>, olds: seq<Zone>, news: seq<Zone>, z: Zone)
    requires Asking(env, s) && Linked(chain, olds, news) && chain != [] && soa.IsApexSoa()
    requires env.clientSerial == chain[0].oldSerial && SameContent(env.active.value, olds[0])
    requires EndsAs(chain, news, z) && SerialOrZero(z) == soa.rdata.serial != env.clientSerial
    requires !Newer(soa.rdata.serial, env.clientSerial) || Revisits(chain, soa.rdata.serial)
    ensures PartsBring(env, s, Wire(EmitChain(soa, chain)), z)
  {
    var items := Wire(EmitChain(soa, chain));
    forall n: nat | 0 < n <= |items| ensures Brings(Flat(env, s, items[..n]), z) {
      if Newer(soa.rdata.serial, env.clientSerial) {
        RevisitingCut(env, s, soa, chain, olds, news, z, n);
      } else {
        BehindCut(env, s, soa, chain, n);
      }
    }
  }

  ghost predicate TakenAs(env: Env, msgs: seq<Message>, z: Zone) {
    var (t, ok) := ParseStream(env, Start(true), msgs);
    ok && t.finished && SameContent(t.records, z) && t.options.expire == msgs[0].expireOption
  }

  /**
   * Incremental transfer over messages: every way of cutting the primary's answer is taken with exactly the current
   * content if and only if the current serial is newer than the secondary's and the chain does not pass through it
   * before its end.
   */
  lemma {:induction false} TakenHoweverCut(acts: seq<Act>, env: Env, provideIxfr: bool, chain: seq<Txn>)
    requires VersionsOk(acts) && AnsweredWith(Live(acts), env, provideIxfr, chain)
    ensures var z := Current(Live(acts));
      (forall msgs :: AnswerCut(acts, chain, msgs) ==> TakenAs(env, msgs, z))
      <==> Newer(SerialOrZero(z), env.clientSerial) && !Revisits(chain, SerialOrZero(z))
  {
    var z := Current(Live(acts));
    if Newer(SerialOrZero(z), env.clientSerial) && !Revisits(chain, SerialOrZero(z)) {
      forall msgs | AnswerCut(acts, chain, msgs) ensures TakenAs(env, msgs, z) {
        IncrementalTransferExact(acts, env, provideIxfr, chain, msgs);
      }
    } else {
      var m := Message(true, Wire(Emit(z, Differences(chain))), None, false);
      IncrementalTransferAccepted(acts, env, provideIxfr, chain, OptionsOf(m));
      OtherCuts(acts, env, provideIxfr, chain, OptionsOf(m));
      OneMessageCut(env, m);
      assert AnswerCut(acts, chain, [m]) && !TakenAs(env, [m], z);
    }
  }

  lemma {:induction false} OneMessageCut(env: Env, m: Message)
    requires m.framed && m.items != [] && env.clientSerial != 0
    requires !Flat(env, Start(true).(options := OptionsOf(m)), m.items).1
    ensures Sendable([m]) && Concat([m]) == m.items && !ParseStream(env, Start(true), [m]).1
  {
    assert [m][1..] == [];
    MessageIsFlat(env, Start(true), m);
    assert ReadOptions(Start(true), m) == Start(true).(options := OptionsOf(m));
  }

  // ---- full transfers ----

  /** How a full transfer of z ends for a secondary that asked for differences or for the whole zone. */
  ghost predicate FullOutcome(ixfr: bool, z: Zone, outcome: (State, bool)) {
    var (t, ok) := outcome;
    && (ok <==> !ixfr || WithoutApexSoa(z) != [])
    && (ok ==> t.finished && t.records == [TheSoa(z)] + WithoutApexSoa(z) && SameContent(t.records, z))
    && (!ok ==> t.marks.badSequence)
  }

  /** A full transfer, however it is cut into messages. */
  lemma {:induction false} FullTransferHoweverCut(env: Env, ixfr: bool, z: Zone, msgs: seq<Message>)
    requires WellFormed(z) && (ixfr ==> env.clientSerial != 0)
    requires env.clientSerial != 0 ==> Newer(SerialOrZero(z), env.clientSerial)
    requires msgs != [] && Sendable(msgs) && Concat(msgs) == Wire(Emit(z, Whole))
    ensures ApexSoaIndex(z) < |z| && FullOutcome(ixfr, z, ParseStream(env, Start(ixfr), msgs))
    ensures ParseStream(env, Start(ixfr), msgs).0.options.expire == msgs[0].expireOption
  {
    var s := ReadOptions(Start(ixfr), msgs[0]);
    WellFormedHasSoa(z);
    FullTransfer(env, s, z);
    RunningDoesNotEndEarly(env, s, Concat(msgs));
    StreamIsFlat(env, Start(ixfr), msgs);
    FlatKeepsOptions(env, s, Concat(msgs));
  }

  /** A full transfer as the emitter packs it, with the EXPIRE option that was sent. */
  lemma {:induction false} PackedFullTransfer(env: Env, ixfr: bool, z: Zone, sent: seq<Sent>, sendOpt: bool,
      expire: Option<nat>)
    requires WellFormed(z) && (ixfr ==> env.clientSerial != 0)
    requires env.clientSerial != 0 ==> Newer(SerialOrZero(z), env.clientSerial)
    requires RecordsOf(sent) == Emit(z, Whole) && NoneEmpty(sent) && Framed(sent, sendOpt)
    ensures ApexSoaIndex(z) < |z|
    ensures var outcome := ParseStream(env, Start(ixfr), Received(sent, expire, false));
      FullOutcome(ixfr, z, outcome) && outcome.0.options.expire == (if sendOpt then expire else None)
  {
    ReceivedIsEmitted(sent, sendOpt, expire, false);
    ReceivedAt(sent, expire, false);
    WellFormedHasSoa(z);
    assert RecordsOf(sent) != [];
    FullTransferHoweverCut(env, ixfr, z, Received(sent, expire, false));
  }
}
