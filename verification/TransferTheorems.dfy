/**
 * The end-to-end theorems of zone transfer: every answer a primary can give, read by a secondary that serves one of
 * its earlier versions.
 */
module TransferTheorems {
  import opened Serials
  import opened Records
  import opened TransferParser
  import opened MessageCuts
  import opened IxfrDiff
  import opened IxfrApply
  import opened IxfrAnswer
  import opened EndToEnd
  import opened Packing

  /** A serial is never given to two different contents. */
  ghost predicate SerialsDetermine(vs: seq<Zone>) {
    forall a, b {:trigger Agree(a, b)} :: a in vs && b in vs ==> Agree(a, b)
  }

  ghost predicate Agree(a: Zone, b: Zone) {
    SerialOrZero(a) == SerialOrZero(b) ==> SameContent(a, b)
  }

  lemma DiffSerials(t: Txn, a: Zone, b: Zone)
    requires IsDiff(t, a, b)
    ensures t.oldSerial == SerialOrZero(a) && t.newSerial == SerialOrZero(b) && t.oldSerial != 0
  {
  }

  ghost predicate AllDiffs(chain: seq<Txn>, vs: seq<Zone>) {
    forall i :: 0 <= i < |chain| ==> DiffOfVersions(chain[i], vs)
  }

  /** olds[i] and news[i] are versions, with the serials that chain[i] starts and ends at. */
  ghost predicate Ends(chain: seq<Txn>, olds: seq<Zone>, news: seq<Zone>, vs: seq<Zone>) {
    && |olds| == |chain| && |news| == |chain|
    && forall i :: 0 <= i < |chain| ==> EndsAt(chain[i], olds[i], news[i], vs)
  }

  ghost predicate EndsAt(t: Txn, a: Zone, b: Zone, vs: seq<Zone>) {
    a in vs && b in vs && t.oldSerial == SerialOrZero(a) && t.newSerial == SerialOrZero(b) && t.oldSerial != 0
  }

  lemma {:induction false} DiffEnds(t: Txn, vs: seq<Zone>) returns (a: Zone, b: Zone)
    requires DiffOfVersions(t, vs)
    ensures IsDiff(t, a, b) && EndsAt(t, a, b, vs)
  {
    var i: nat :| DiffAt(t, vs, i);
    a, b := vs[i], vs[i + 1];
    DiffSerials(t, a, b);
  }

  /** The versions before and after each difference. */
  lemma {:induction false} ChainEnds(chain: seq<Txn>, vs: seq<Zone>) returns (olds: seq<Zone>, news: seq<Zone>)
    requires AllDiffs(chain, vs)
    ensures Ends(chain, olds, news, vs)
    ensures forall i :: 0 <= i < |chain| ==> IsDiff(chain[i], olds[i], news[i])
    decreases |chain|
  {
    olds, news := [], [];
    if chain != [] {
      var last := |chain| - 1;
      olds, news := ChainEnds(chain[..last], vs);
      var a, b := DiffEnds(chain[last], vs);
      olds, news := olds + [a], news + [b];
    }
  }

  lemma ContinuousAt(chain: seq<Txn>, from: Serial, i: nat)
    requires Continuous(chain, from) && i < |chain| - 1
    ensures chain[i].newSerial == chain[i + 1].oldSerial
  {
    if i > 0 {
      ContinuousAt(chain[1..], chain[0].newSerial, i - 1);
      assert chain[1..][i - 1] == chain[i] && chain[1..][i] == chain[i + 1];
    } else {
      assert chain[1..][0] == chain[1];
    }
  }

  lemma {:induction false} JoinedAt(vs: seq<Zone>, chain: seq<Txn>, from: Serial, olds: seq<Zone>, news: seq<Zone>, i: nat)
    requires SerialsDetermine(vs) && Continuous(chain, from) && Ends(chain, olds, news, vs) && i < |chain| - 1
    ensures Joined(chain, olds, news, i)
  {
    ContinuousAt(chain, from, i);
    assert EndsAt(chain[i], olds[i], news[i], vs) && EndsAt(chain[i + 1], olds[i + 1], news[i + 1], vs);
    assert Agree(news[i], olds[i + 1]);
  }

  /** A continuous run of differences links the contents of the versions it goes through. */
  lemma {:induction false} ContinuousIsLinked(vs: seq<Zone>, chain: seq<Txn>, from: Serial)
    returns (olds: seq<Zone>, news: seq<Zone>)
    requires SerialsDetermine(vs) && Continuous(chain, from) && AllDiffs(chain, vs)
    ensures Linked(chain, olds, news) && Ends(chain, olds, news, vs)
  {
    olds, news := ChainEnds(chain, vs);
    forall i: nat | i < |chain| - 1 ensures Joined(chain, olds, news, i) { JoinedAt(vs, chain, from, olds, news, i); }
  }

  /** The primary has published something, and the secondary serves the content of some version of it. */
  ghost predicate Serving(p: Primary, env: Env) {
    && p.versions != [] && env.active.Some? && !env.loader
    && exists v :: v in AllVersions(p) && SerialOrZero(v) == env.clientSerial && SameContent(env.active.value, v)
  }

  function Current(p: Primary): Zone
    requires p.versions != []
  {
    p.versions[|p.versions| - 1]
  }

  ghost predicate AnsweredWith(p: Primary, env: Env, provideIxfr: bool, chain: seq<Txn>) {
    && Serving(p, env) && SerialsDetermine(AllVersions(p))
    && Respond(p.ring.items, Current(p), true, env.clientSerial, provideIxfr) == Differences(chain)
  }

  lemma {:induction false} ChainIsDiffs(p: Primary, client: Serial, provideIxfr: bool, chain: seq<Txn>)
    requires Good(p) && p.versions != []
    requires Respond(p.ring.items, Current(p), true, client, provideIxfr) == Differences(chain)
    ensures chain != [] && Continuous(chain, client)
    ensures chain[0].oldSerial == client && chain[|chain| - 1].newSerial == SerialOrZero(Current(p))
    ensures AllDiffs(chain, AllVersions(p))
  {
    ChainIsSuffix(p.ring.items, client, SerialOrZero(Current(p)), chain);
    forall k | 0 <= k < |chain| ensures DiffOfVersions(chain[k], AllVersions(p)) { assert chain[k] in p.ring.items; }
  }

  lemma {:induction false} ChainIsSuffix(ring: seq<Txn>, client: Serial, current: Serial, chain: seq<Txn>)
    requires Chain(ring, client, current) == Some(chain)
    ensures chain != [] && Continuous(chain, client)
    ensures chain[0].oldSerial == client && chain[|chain| - 1].newSerial == current
    ensures forall k :: 0 <= k < |chain| ==> chain[k] in ring
  {
    assert chain == ring[FindStart(ring, client)..];
  }

  /** The chain of an answer leads from the content the secondary serves to the current content. */
  lemma {:induction false} AnswerLinked(p: Primary, env: Env, provideIxfr: bool, chain: seq<Txn>)
    returns (olds: seq<Zone>, news: seq<Zone>)
    requires Good(p) && AnsweredWith(p, env, provideIxfr, chain)
    ensures Linked(chain, olds, news) && chain != [] && chain[0].oldSerial == env.clientSerial && env.clientSerial != 0
    ensures SameContent(env.active.value, olds[0]) && SameContent(news[|news| - 1], Current(p))
    ensures EndsAs(chain, news, Current(p))
  {
    ChainIsDiffs(p, env.clientSerial, provideIxfr, chain);
    olds, news := ServedChainLinked(p, env, chain);
  }

  lemma {:induction false} ServedChainLinked(p: Primary, env: Env, chain: seq<Txn>) returns (olds: seq<Zone>, news: seq<Zone>)
    requires Serving(p, env) && SerialsDetermine(AllVersions(p)) && AllDiffs(chain, AllVersions(p))
    requires chain != [] && Continuous(chain, env.clientSerial) && chain[0].oldSerial == env.clientSerial
    requires chain[|chain| - 1].newSerial == SerialOrZero(Current(p))
    ensures Linked(chain, olds, news) && env.clientSerial != 0
    ensures SameContent(env.active.value, olds[0]) && SameContent(news[|news| - 1], Current(p))
    ensures EndsAs(chain, news, Current(p))
  {
    olds, news := ContinuousIsLinked(AllVersions(p), chain, env.clientSerial);
    CurrentIsVersion(p);
    StartsAsServed(p, env, chain, olds, news);
    ChainEndsAs(AllVersions(p), chain, olds, news, Current(p));
  }

  lemma CurrentIsVersion(p: Primary)
    requires p.versions != []
    ensures Current(p) in AllVersions(p)
  {
    assert AllVersions(p)[|p.versions| - 1] == Current(p);
  }

  /** Wherever the chain passes through the serial of z, it has the content of z. */
  ghost predicate EndsAs(chain: seq<Txn>, news: seq<Zone>, z: Zone)
    requires |news| == |chain|
  {
    forall i :: 0 <= i < |chain| && chain[i].newSerial == SerialOrZero(z) ==> SameContent(news[i], z)
  }

  lemma {:induction false} ChainEndsAs(vs: seq<Zone>, chain: seq<Txn>, olds: seq<Zone>, news: seq<Zone>, z: Zone)
    requires SerialsDetermine(vs) && Ends(chain, olds, news, vs) && z in vs
    ensures EndsAs(chain, news, z)
  {
    forall i | 0 <= i < |chain| && chain[i].newSerial == SerialOrZero(z) ensures SameContent(news[i], z) {
      assert EndsAt(chain[i], olds[i], news[i], vs);
      assert Agree(news[i], z);
    }
  }

  lemma {:induction false} StartsAsServed(p: Primary, env: Env, chain: seq<Txn>, olds: seq<Zone>, news: seq<Zone>)
    requires Serving(p, env) && SerialsDetermine(AllVersions(p)) && Ends(chain, olds, news, AllVersions(p))
    requires chain != [] && chain[0].oldSerial == env.clientSerial
    ensures env.clientSerial != 0 && SameContent(env.active.value, olds[0])
  {
    var v :| v in AllVersions(p) && SerialOrZero(v) == env.clientSerial && SameContent(env.active.value, v);
    assert EndsAt(chain[0], olds[0], news[0], AllVersions(p));
    assert Agree(v, olds[0]);
  }

  /** Well-formed versions of the same content have the same SOA. */
  lemma SameContentSameSoa(a: Zone, b: Zone)
    requires WellFormed(a) && WellFormed(b) && SameContent(a, b)
    ensures ApexSoaIndex(a) < |a| && ApexSoaIndex(b) < |b| && TheSoa(a) == TheSoa(b)
  {
    WellFormedHasSoa(a);
    WellFormedHasSoa(b);
    var soa := a[ApexSoaIndex(a)];
    assert soa in multiset(a);
    assert soa in b;
  }

  /** An answer whose SOA is not newer than the secondary's serial is refused at once. */
  lemma NotNewerRefused(env: Env, s: State, soa: RR, rest: seq<Item>)
    requires s.soaCount == 0 && soa.IsApexSoa() && env.clientSerial != 0
    requires soa.rdata.serial != env.clientSerial && !Newer(soa.rdata.serial, env.clientSerial)
    ensures var (t, ok) := Flat(env, s, [Plain(soa, CLASS_IN)] + rest); !ok && t.marks.behind
  {
  }

  /**
   * Incremental transfer, end to end.  Take any run of the primary in which no serial stands for two contents, and a
   * secondary that serves the content of some version.  When the primary answers its request with a chain of
   * differences, the secondary takes the chain (sent as one message) if and only if the current serial is newer than
   * its own and the chain does not pass through the current serial before its end.
   */
  lemma {:induction false} IncrementalTransferAccepted(acts: seq<Act>, env: Env, provideIxfr: bool, chain: seq<Txn>,
      options: Options)
    requires VersionsOk(acts) && AnsweredWith(Live(acts), env, provideIxfr, chain)
    ensures var z := Current(Live(acts));
      Flat(env, Start(true).(options := options), Wire(Emit(z, Differences(chain)))).1
      <==> Newer(SerialOrZero(z), env.clientSerial) && !Revisits(chain, SerialOrZero(z))
  {
    var p := Live(acts);
    HistoryIsTrue(acts);
    CurrentWellFormed(p);
    var z := Current(p);
    WellFormedHasSoa(z);
    var soa, s := TheSoa(z), Start(true).(options := options);
    var olds, news := AnswerLinked(p, env, provideIxfr, chain);
    if !Newer(soa.rdata.serial, env.clientSerial) {
      RefusedBehind(env, s, soa, chain);
    } else if Revisits(chain, soa.rdata.serial) {
      RevisitingRefused(env, s, soa, chain, olds, news);
    } else {
      LastHasSoa(chain, olds, news, z);
      DifferencesAccepted(env, s, soa, chain, olds, news);
    }
  }

  lemma {:induction false} RefusedBehind(env: Env, s: State, soa: RR, chain: seq<Txn>)
    requires s.soaCount == 0 && soa.IsApexSoa() && env.clientSerial != 0
    requires soa.rdata.serial != env.clientSerial && !Newer(soa.rdata.serial, env.clientSerial)
    ensures !Flat(env, s, Wire(EmitChain(soa, chain))).1
  {
    var rest := Wire(EmitTxns(chain)) + [Plain(soa, CLASS_IN)];
    ChainShape(soa, chain);
    assert Wire(EmitChain(soa, chain)) == [Plain(soa, CLASS_IN)] + rest;
    NotNewerRefused(env, s, soa, rest);
  }

  lemma CurrentWellFormed(p: Primary)
    requires Good(p) && p.versions != []
    ensures WellFormed(Current(p))
  {
    assert AllVersions(p)[|p.versions| - 1] == Current(p);
  }

  lemma LastHasSoa(chain: seq<Txn>, olds: seq<Zone>, news: seq<Zone>, z: Zone)
    requires Linked(chain, olds, news) && chain != [] && WellFormed(z) && SameContent(news[|news| - 1], z)
    ensures SoaOf(TheSoa(z), news[|news| - 1])
  {
    assert IsDiff(chain[|chain| - 1], olds[|chain| - 1], news[|chain| - 1]);
    SameContentSameSoa(news[|news| - 1], z);
  }

  /**
   * ... and then, however the answer is cut into messages, the secondary ends with exactly the records of the
   * primary's current version.
   */
  lemma {:induction false} IncrementalTransferExact(acts: seq<Act>, env: Env, provideIxfr: bool, chain: seq<Txn>, msgs: seq<Message>)
    requires VersionsOk(acts) && AnsweredWith(Live(acts), env, provideIxfr, chain)
    requires var serial := SerialOrZero(Current(Live(acts))); Newer(serial, env.clientSerial) && !Revisits(chain, serial)
    requires msgs != [] && Sendable(msgs) && Concat(msgs) == Wire(Emit(Current(Live(acts)), Differences(chain)))
    ensures var (t, ok) := ParseStream(env, Start(true), msgs);
      ok && t.finished && SameContent(t.records, Current(Live(acts))) && t.options.expire == msgs[0].expireOption
  {
    var p := Live(acts);
    HistoryIsTrue(acts);
    CurrentWellFormed(p);
    var z := Current(p);
    WellFormedHasSoa(z);
    var s := ReadOptions(Start(true), msgs[0]);
    var olds, news := AnswerLinked(p, env, provideIxfr, chain);
    LastHasSoa(chain, olds, news, z);
    DifferencesAccepted(env, s, TheSoa(z), chain, olds, news);
    RunningDoesNotEndEarly(env, s, Concat(msgs));
    StreamIsFlat(env, Start(true), msgs);
    FlatKeepsOptions(env, s, Concat(msgs));
  }

  /**
   * The same for what the emitter packs: any messages it completes for this answer, one record each or as full as
   * they get, bring the secondary to the current version and bring it the EXPIRE option that was sent.
   */
  lemma {:induction false} PackedTransferExact(acts: seq<Act>, env: Env, provideIxfr: bool, chain: seq<Txn>,
      sent: seq<Sent>, sendOpt: bool, expire: Option<nat>)
    requires VersionsOk(acts) && AnsweredWith(Live(acts), env, provideIxfr, chain)
    requires var serial := SerialOrZero(Current(Live(acts))); Newer(serial, env.clientSerial) && !Revisits(chain, serial)
    requires RecordsOf(sent) == Emit(Current(Live(acts)), Differences(chain)) && NoneEmpty(sent) && Framed(sent, sendOpt)
    ensures var (t, ok) := ParseStream(env, Start(true), Received(sent, expire, false));
      && ok && t.finished && SameContent(t.records, Current(Live(acts)))
      && t.options.expire == (if sendOpt then expire else None)
  {
    ReceivedIsEmitted(sent, sendOpt, expire, false);
    ReceivedAt(sent, expire, false);
    assert RecordsOf(sent) != [];
    IncrementalTransferExact(acts, env, provideIxfr, chain, Received(sent, expire, false));
  }

  lemma {:induction false} FlatKeepsOptions(env: Env, s: State, items: seq<Item>)
    ensures Flat(env, s, items).0.options == s.options
    decreases |items|
  {
    if items != [] {
      var (t, v) := Step(env, s, items[0], false, |items| == 1);
      if v == Next { FlatKeepsOptions(env, t, items[1..]); }
    }
  }

  // ---- full transfers ----

  lemma WithoutApexSoaData(z: Zone)
    requires forall i :: 0 <= i < |z| ==> z[i].IsApexSoa() || (z[i].rdata.Other? && !z[i].owner.Outside?)
    ensures PlainData(WithoutApexSoa(z))
  {
    if z != [] { WithoutApexSoaData(z[1..]); }
  }

  lemma WithoutApexSoaContent(z: Zone, k: nat)
    requires OneSoa(z, k)
    ensures multiset(WithoutApexSoa(z)) + multiset{z[k]} == multiset(z)
    decreases |z|
  {
    assert z == [z[0]] + z[1..];
    if k == 0 {
      WithoutApexSoaSame(z[1..]);
    } else {
      WithoutApexSoaContent(z[1..], k - 1);
    }
  }

  lemma WithoutApexSoaSame(z: Zone)
    requires PlainData(z)
    ensures WithoutApexSoa(z) == z
  {
    if z != [] { WithoutApexSoaSame(z[1..]); }
  }

  lemma {:induction false} FullDataRead(env: Env, s: State, ds: Zone)
    requires !s.ixfr && !s.finished && PlainData(ds)
    ensures Leads(env, s, Wire(ds), s.(records := s.records + ds))
    decreases |ds|
  {
    if ds == [] {
      assert s.records + ds == s.records;
    } else {
      var t := s.(records := s.records + [ds[0]]);
      assert Step(env, s, Plain(ds[0], CLASS_IN), false, false) == (t, Next);
      FullDataRead(env, t, ds[1..]);
      assert t.records + ds[1..] == s.records + ds;
      assert Wire(ds)[0] == Plain(ds[0], CLASS_IN) && Wire(ds)[1..] == Wire(ds[1..]);
    }
  }

  /** The first record of a full transfer after its SOA, also when differences were asked for. */
  lemma FirstDataRead(env: Env, s: State, d: RR)
    requires s.soaCount == 1 && !s.finished && !s.deleting && d.rdata.Other? && !d.owner.Outside?
    ensures Step(env, s, Plain(d, CLASS_IN), false, false) == (s.(ixfr := false, records := s.records + [d]), Next)
  {
  }

  lemma {:induction false} BodyRead(env: Env, s: State, ds: Zone)
    requires s.soaCount == 1 && !s.finished && !s.deleting && PlainData(ds) && (ds != [] || !s.ixfr)
    ensures Leads(env, s, Wire(ds), s.(ixfr := false, records := s.records + ds))
  {
    if ds == [] {
      assert s.records + ds == s.records;
    } else {
      FirstDataRead(env, s, ds[0]);
      var t := s.(ixfr := false, records := s.records + [ds[0]]);
      FullDataRead(env, t, ds[1..]);
      assert t.records + ds[1..] == s.records + ds;
      assert Wire(ds)[0] == Plain(ds[0], CLASS_IN) && Wire(ds)[1..] == Wire(ds[1..]);
    }
  }

  lemma FullCloses(env: Env, u: State, soa: RR)
    requires !u.ixfr && u.soaCount == 1 && soa.IsApexSoa() && u.soaSet.NoSet?
    requires u.openOwner == Apex && u.openSerial == soa.rdata.serial
    ensures var (t, ok) := Flat(env, u, [Plain(soa, CLASS_IN)]);
      ok && t.finished && t.records == u.records
  {
    assert [Plain(soa, CLASS_IN)][1..] == [];
  }

  /** Two SOAs in a row in answer to a request for differences do not start from the secondary's serial. */
  lemma SoaOnlyRefused(env: Env, u: State, soa: RR)
    requires u.ixfr && u.soaCount == 1 && soa.IsApexSoa() && soa.rdata.serial != env.clientSerial
    ensures var (t, ok) := Flat(env, u, [Plain(soa, CLASS_IN)]); !ok && t.marks.badSequence
  {
  }

  /** A secondary about to read the answer to a request of either kind. */
  ghost predicate Expecting(env: Env, s: State) {
    && s.soaCount == 0 && !s.finished && !s.deleting && s.soaSet.NoSet? && s.records == []
    && (s.ixfr ==> env.clientSerial != 0)
  }

  lemma {:induction false} FullTaken(env: Env, s: State, soa: RR, body: Zone)
    requires Expecting(env, s) && soa.IsApexSoa() && PlainData(body) && (!s.ixfr || body != [])
    requires env.clientSerial != 0 ==> Newer(soa.rdata.serial, env.clientSerial)
    ensures RunsToTheEnd(env, s, Wire([soa] + body + [soa]))
    ensures var (t, ok) := Flat(env, s, Wire([soa] + body + [soa])); ok && t.finished && t.records == [soa] + body
  {
    var item := Plain(soa, CLASS_IN);
    OpeningRead(env, s, soa);
    var s1 := Step(env, s, item, false, false).0;
    assert Leads(env, s, [item], s1) by { assert [item][1..] == []; }
    var u := s1.(ixfr := false, records := s1.records + body);
    BodyRead(env, s1, body);
    LeadsOn(env, s, [item], s1, Wire(body), u);
    FullShape(soa, body);
    LeadsToLast(env, s, [item] + Wire(body), u, item);
    FullCloses(env, u, soa);
  }

  lemma {:induction false} SoaOnlyNotTaken(env: Env, s: State, soa: RR)
    requires Expecting(env, s) && soa.IsApexSoa() && s.ixfr && Newer(soa.rdata.serial, env.clientSerial)
    ensures RunsToTheEnd(env, s, Wire([soa] + [] + [soa]))
    ensures var (t, ok) := Flat(env, s, Wire([soa] + [] + [soa])); !ok && t.marks.badSequence
  {
    var item := Plain(soa, CLASS_IN);
    OpeningRead(env, s, soa);
    var s1 := Step(env, s, item, false, false).0;
    assert Leads(env, s, [item], s1) by { assert [item][1..] == []; }
    FullShape(soa, []);
    assert [item] + Wire([]) + [item] == [item] + [item];
    LeadsToLast(env, s, [item], s1, item);
    SoaOnlyRefused(env, s1, soa);
  }

  /**
   * A full transfer of a well-formed zone that is newer than what the secondary has (or when it has nothing): a
   * secondary that asked for the whole zone always ends with the SOA and the other records in file order; one that
   * asked for differences does so if and only if the zone has another record than its SOA, and is otherwise told to
   * ask again for the whole zone.
   */
  lemma {:induction false} FullTransfer(env: Env, s: State, z: Zone)
    requires WellFormed(z) && Expecting(env, s)
    requires env.clientSerial != 0 ==> Newer(SerialOrZero(z), env.clientSerial)
    ensures RunsToTheEnd(env, s, Wire(Emit(z, Whole)))
    ensures var (t, ok) := Flat(env, s, Wire(Emit(z, Whole)));
      && (ok <==> !s.ixfr || WithoutApexSoa(z) != [])
      && (ok ==> t.finished && t.records == [TheSoa(z)] + WithoutApexSoa(z) && SameContent(t.records, z))
      && (!ok ==> t.marks.badSequence)
  {
    WellFormedHasSoa(z);
    WithoutApexSoaData(z);
    WithoutApexSoaContent(z, ApexSoaIndex(z));
    if s.ixfr && WithoutApexSoa(z) == [] {
      SoaOnlyNotTaken(env, s, TheSoa(z));
    } else {
      FullTaken(env, s, TheSoa(z), WithoutApexSoa(z));
    }
  }

  lemma {:induction false} FullShape(soa: RR, body: Zone)
    ensures Wire([soa] + body + [soa]) == [Plain(soa, CLASS_IN)] + Wire(body) + [Plain(soa, CLASS_IN)]
  {
    WireConcat([soa], body);
    WireConcat([soa] + body, [soa]);
    assert Wire([soa]) == [Plain(soa, CLASS_IN)];
  }

  /** The one-SOA answer: "up to date" for the same serial, and refused as behind for a secondary that is ahead. */
  lemma UpToDateAnswer(env: Env, s: State, soa: RR)
    requires s.soaCount == 0 && !s.finished && soa.IsApexSoa() && env.clientSerial != 0
    ensures var (t, ok) := Flat(env, s, Wire([soa]));
      && (soa.rdata.serial == env.clientSerial ==> ok && t.finished && t.records == [])
      && (Newer(env.clientSerial, soa.rdata.serial) ==> !ok && t.marks.behind)
  {
    assert Wire([soa]) == [Plain(soa, CLASS_IN)];
    NewerTrichotomy(env.clientSerial, soa.rdata.serial);
  }
}
