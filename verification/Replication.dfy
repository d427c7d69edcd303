/**
 * Both ends of a refresh together: whatever a primary answers, packed into messages, received with its checks and
 * installed, the secondary that completes the exchange has the primary's current serial and records.
 */
module Replication {
  import opened Serials
  import opened Records
  import opened TransferParser
  import opened MessageCuts
  import opened IxfrDiff
  import opened IxfrApply
  import opened IxfrAnswer
  import opened EndToEnd
  import opened Packing
  import opened TransferTheorems
  import opened CutTransfers
  import opened TransferSafety
  import opened TransferReceiver
  import opened TransferInstall

  // ---- the two ends ----

  /** The secondary has no zone and asks for the whole one, or it serves the content of some version of the primary. */
  ghost predicate Asks(p: Primary, env: Env, ixfr: bool, e: Entry) {
    && p.versions != [] && SerialsDetermine(AllVersions(p)) && e.serial == env.clientSerial
    && (env.clientSerial != 0 ==> Serving(p, env) && e.version == env.active.value)
    && (ixfr ==> env.clientSerial != 0)
  }

  /** The primary's answer, as the emitter completed it. */
  ghost predicate Sends(p: Primary, env: Env, ixfr: bool, provideIxfr: bool, sent: seq<Sent>, sendOpt: bool)
    requires p.versions != []
  {
    && RecordsOf(sent) == Emit(Current(p), Respond(p.ring.items, Current(p), ixfr, env.clientSerial, provideIxfr))
    && NoneEmpty(sent) && Framed(sent, sendOpt)
  }

  /** The entry after a complete exchange. */
  function Refreshed(e: Entry, w: World, t: State): Entry {
    if t.records == [] then NotedUpToDate(e, w, t) else Installed(e, w, t)
  }

  // ---- what the parser is left with ----

  /** The parser saw that we are up to date, or brings the records of z, and each as often as z has it if exact. */
  ghost predicate Brought(env: Env, t: State, z: Zone, exact: bool) {
    if t.records == [] then env.clientSerial == SerialOrZero(z) != 0
    else t.soaSet.NoSet? && SameRecords(t.records, z) && (exact ==> SameContent(t.records, z))
  }

  ghost predicate AllPlain(items: seq<Item>) {
    forall i :: 0 <= i < |items| ==> items[i].Plain?
  }

  lemma {:induction false} SoaStepNoSet(env: Env, s: State, soa: RR, only: bool, last: bool)
    requires soa.IsSoa() && s.soaSet.NoSet?
    ensures SoaStep(env, s, soa, only, last).0.soaSet.NoSet?
  {
  }

  lemma {:induction false} PlainStepNoSet(env: Env, s: State, item: Item, only: bool, last: bool)
    requires item.Plain? && s.soaSet.NoSet?
    ensures Step(env, s, item, only, last).0.soaSet.NoSet?
  {
    if item.rr.IsSoa() { SoaStepNoSet(env, s.(soaCount := s.soaCount + 1), item.rr, only, last); }
  }

  lemma {:induction false} FlatNoSet(env: Env, s: State, items: seq<Item>)
    requires AllPlain(items) && s.soaSet.NoSet?
    ensures Flat(env, s, items).0.soaSet.NoSet?
    decreases |items|
  {
    if items != [] {
      PlainStepNoSet(env, s, items[0], false, |items| == 1);
      var (t, v) := Step(env, s, items[0], false, |items| == 1);
      if v == Next { FlatNoSet(env, t, items[1..]); }
    }
  }

  lemma {:induction false} WireIsPlain(z: Zone)
    ensures |Wire(z)| == |z| && AllPlain(Wire(z))
    decreases |z|
  {
    if z != [] { WireIsPlain(z[1..]); }
  }

  /** A stream of zone records announces no SOA set. */
  lemma {:induction false} StreamNoSet(env: Env, ixfr: bool, msgs: seq<Message>, z: Zone)
    requires msgs != [] && Sendable(msgs) && Concat(msgs) == Wire(z) && (ixfr ==> env.clientSerial != 0)
    ensures ParseStream(env, Start(ixfr), msgs).0.soaSet.NoSet?
  {
    var n := StreamIsPrefix(env, Start(ixfr), msgs);
    WireIsPlain(z);
    FlatNoSet(env, ReadOptions(Start(ixfr), msgs[0]), Wire(z)[..n]);
  }

  // ---- each answer ----

  lemma {:induction false} ServedIsCurrent(p: Primary, env: Env)
    requires Serving(p, env) && SerialsDetermine(AllVersions(p)) && env.clientSerial == SerialOrZero(Current(p))
    ensures SameContent(env.active.value, Current(p))
  {
    var vs := AllVersions(p);
    assert Current(p) in vs by { assert vs[|p.versions| - 1] == Current(p); }
    var v :| v in vs && SerialOrZero(v) == env.clientSerial && SameContent(env.active.value, v);
    assert Agree(v, Current(p));
  }

  /** A stream whose first SOA is not newer than ours: up to date, or refused. */
  lemma {:induction false} NotNewerStream(env: Env, ixfr: bool, msgs: seq<Message>, soa: RR, rest: seq<Item>)
    requires msgs != [] && Sendable(msgs) && Concat(msgs) == [Plain(soa, CLASS_IN)] + rest && soa.IsApexSoa()
    requires env.clientSerial != 0 && !Newer(soa.rdata.serial, env.clientSerial)
    ensures var (t, ok) := ParseStream(env, Start(ixfr), msgs);
      ok ==> t.finished && t.records == [] && env.clientSerial == soa.rdata.serial
  {
    var s := ReadOptions(Start(ixfr), msgs[0]);
    var item := Plain(soa, CLASS_IN);
    var n := StreamIsPrefix(env, Start(ixfr), msgs);
    assert Concat(msgs)[..n] == [item] + rest[..n - 1];
    FirstDecides(env, s, soa, rest[..n - 1]);
  }

  lemma {:induction false} FirstDecides(env: Env, s: State, soa: RR, rest: seq<Item>)
    requires s.soaCount == 0 && soa.IsApexSoa() && env.clientSerial != 0 && !Newer(soa.rdata.serial, env.clientSerial)
    ensures var (t, ok) := Flat(env, s, [Plain(soa, CLASS_IN)] + rest);
      ok ==> t.finished && t.records == [] && env.clientSerial == soa.rdata.serial
  {
  }

  /** Every answer but a chain that passes through its own end brings the content exactly. */
  ghost predicate Exact(a: Answer, serial: Serial) {
    a.Differences? ==> !Revisits(a.chain, serial)
  }

  lemma {:induction false} UpToDateBrings(env: Env, ixfr: bool, msgs: seq<Message>, z: Zone)
    requires WellFormed(z) && msgs != [] && Sendable(msgs) && Concat(msgs) == Wire([TheSoa(z)])
    requires env.clientSerial != 0 && (env.clientSerial == SerialOrZero(z) || Newer(env.clientSerial, SerialOrZero(z)))
    ensures var (t, ok) := ParseStream(env, Start(ixfr), msgs); ok ==> t.finished && Brought(env, t, z, true)
  {
    WellFormedHasSoa(z);
    NewerTrichotomy(env.clientSerial, SerialOrZero(z));
    assert Wire([TheSoa(z)]) == [Plain(TheSoa(z), CLASS_IN)] + [];
    NotNewerStream(env, ixfr, msgs, TheSoa(z), []);
  }

  lemma {:induction false} ChainBrings(acts: seq<Act>, env: Env, provideIxfr: bool, chain: seq<Txn>, msgs: seq<Message>)
    requires VersionsOk(acts) && AnsweredWith(Live(acts), env, provideIxfr, chain) && AnswerCut(acts, chain, msgs)
    requires env.clientSerial != 0
    ensures var (t, ok) := ParseStream(env, Start(true), msgs); var z := Current(Live(acts));
      ok ==> t.finished && Brought(env, t, z, !Revisits(chain, SerialOrZero(z)))
  {
    var z := Current(Live(acts));
    var (t, ok) := ParseStream(env, Start(true), msgs);
    AcceptedIsCurrent(acts, env, provideIxfr, chain, msgs);
    StreamNoSet(env, true, msgs, Emit(z, Differences(chain)));
    CurrentNotEmpty(acts);
    if ok {
      SameNotEmpty(t.records, z);
      ChainExact(acts, env, provideIxfr, chain, msgs);
    }
  }

  lemma {:induction false} SameNotEmpty(a: Zone, z: Zone)
    requires SameRecords(a, z) && z != []
    ensures a != []
  {
    assert z[0] in z && z[0] in a;
  }

  lemma {:induction false} ChainExact(acts: seq<Act>, env: Env, provideIxfr: bool, chain: seq<Txn>, msgs: seq<Message>)
    requires VersionsOk(acts) && AnsweredWith(Live(acts), env, provideIxfr, chain) && AnswerCut(acts, chain, msgs)
    requires env.clientSerial != 0 && ParseStream(env, Start(true), msgs).1
    requires ParseStream(env, Start(true), msgs).0.records != []
    ensures var z := Current(Live(acts));
      !Revisits(chain, SerialOrZero(z)) ==> SameContent(ParseStream(env, Start(true), msgs).0.records, z)
  {
    OnlyNewerTaken(acts, env, provideIxfr, chain, msgs);
    if !Revisits(chain, SerialOrZero(Current(Live(acts)))) {
      IncrementalTransferExact(acts, env, provideIxfr, chain, msgs);
    }
  }

  lemma CurrentNotEmpty(acts: seq<Act>)
    requires VersionsOk(acts) && Live(acts).versions != []
    ensures WellFormed(Current(Live(acts))) && Current(Live(acts)) != []
  {
    HistoryIsTrue(acts);
    CurrentWellFormed(Live(acts));
    WellFormedHasSoa(Current(Live(acts)));
  }

  lemma {:induction false} OnlyNewerTaken(acts: seq<Act>, env: Env, provideIxfr: bool, chain: seq<Txn>, msgs: seq<Message>)
    requires VersionsOk(acts) && AnsweredWith(Live(acts), env, provideIxfr, chain) && AnswerCut(acts, chain, msgs)
    requires env.clientSerial != 0 && ParseStream(env, Start(true), msgs).1
    requires ParseStream(env, Start(true), msgs).0.records != []
    ensures Newer(SerialOrZero(Current(Live(acts))), env.clientSerial)
  {
    CurrentNotEmpty(acts);
    WellFormedHasSoa(Current(Live(acts)));
    NewerChainTaken(env, msgs, TheSoa(Current(Live(acts))), chain);
  }

  lemma {:induction false} NewerChainTaken(env: Env, msgs: seq<Message>, soa: RR, chain: seq<Txn>)
    requires msgs != [] && Sendable(msgs) && Concat(msgs) == Wire(EmitChain(soa, chain)) && soa.IsApexSoa()
    requires env.clientSerial != 0 && ParseStream(env, Start(true), msgs).1
    requires ParseStream(env, Start(true), msgs).0.records != []
    ensures Newer(soa.rdata.serial, env.clientSerial)
  {
    if !Newer(soa.rdata.serial, env.clientSerial) {
      var rest := Wire(EmitTxns(chain)) + [Plain(soa, CLASS_IN)];
      ChainShape(soa, chain);
      SoaAhead(soa, Wire(EmitTxns(chain)));
      NotNewerStream(env, true, msgs, soa, rest);
    }
  }

  lemma SoaAhead(soa: RR, items: seq<Item>)
    ensures var x := [Plain(soa, CLASS_IN)]; x + items + x == x + (items + x)
  {
  }

  lemma {:induction false} WholeBrings(env: Env, ixfr: bool, msgs: seq<Message>, z: Zone)
    requires WellFormed(z) && msgs != [] && Sendable(msgs) && Concat(msgs) == Wire(Emit(z, Whole))
    requires ixfr ==> env.clientSerial != 0
    ensures var (t, ok) := ParseStream(env, Start(ixfr), msgs); ok ==> t.finished && Brought(env, t, z, true)
  {
    WellFormedHasSoa(z);
    if env.clientSerial != 0 && !Newer(SerialOrZero(z), env.clientSerial) {
      FullShape(TheSoa(z), WithoutApexSoa(z));
      NotNewerStream(env, ixfr, msgs, TheSoa(z), Wire(WithoutApexSoa(z)) + [Plain(TheSoa(z), CLASS_IN)]);
    } else {
      FullTransferHoweverCut(env, ixfr, z, msgs);
      StreamNoSet(env, ixfr, msgs, Emit(z, Whole));
      var t := ParseStream(env, Start(ixfr), msgs).0;
      if SameContent(t.records, z) { SameContentSameRecords(t.records, z); }
    }
  }

  lemma {:induction false} AnswerNotEmpty(z: Zone, a: Answer)
    ensures Emit(z, a) != []
  {
  }

  /** The stream of any answer. */
  lemma {:induction false} AnswerBrings(acts: seq<Act>, env: Env, ixfr: bool, provideIxfr: bool, e: Entry, msgs: seq<Message>)
    requires VersionsOk(acts) && Asks(Live(acts), env, ixfr, e)
    requires var p := Live(acts); var a := Respond(p.ring.items, Current(p), ixfr, env.clientSerial, provideIxfr);
      msgs != [] && Sendable(msgs) && Concat(msgs) == Wire(Emit(Current(p), a))
    ensures var p := Live(acts); var z := Current(p);
      var a := Respond(p.ring.items, z, ixfr, env.clientSerial, provideIxfr);
      var (t, ok) := ParseStream(env, Start(ixfr), msgs);
      ok ==> t.finished && Brought(env, t, z, Exact(a, SerialOrZero(z)))
  {
    var p := Live(acts);
    CurrentNotEmpty(acts);
    match Respond(p.ring.items, Current(p), ixfr, env.clientSerial, provideIxfr)
    case UpToDate => UpToDateBrings(env, ixfr, msgs, Current(p));
    case Differences(chain) => ChainBrings(acts, env, provideIxfr, chain, msgs);
    case Whole => WholeBrings(env, ixfr, msgs, Current(p));
  }

  // ---- what is installed ----

  lemma {:induction false} AllKept(z: Zone, keep: RR -> bool)
    requires forall r :: r in z ==> keep(r)
    ensures Encodable(z, keep) == z
    decreases |z|
  {
    if z != [] {
      assert z[0] in z;
      AllKept(z[1..], keep);
    }
  }

  /** Records that are those of a well-formed version have its SOA as their first one at the apex. */
  lemma {:induction false} SoaOfSame(a: Zone, z: Zone)
    requires WellFormed(z) && SameRecords(a, z)
    ensures ApexSoaIndex(a) < |a| && a[ApexSoaIndex(a)].rdata.serial == SerialOrZero(z)
  {
    WellFormedHasSoa(z);
    assert z[ApexSoaIndex(z)] in z && z[ApexSoaIndex(z)] in a;
    var k := ApexSoaIndex(a);
    assert a[k] in z;
  }

  lemma {:induction false} RefreshedIs(env: Env, e: Entry, w: World, t: State, z: Zone, exact: bool)
    requires WellFormed(z) && Brought(env, t, z, exact) && e.serial == env.clientSerial
    requires t.records == [] ==> SameContent(e.version, z)
    requires forall r :: r in z ==> w.encodable(r)
    ensures var r := Refreshed(e, w, t);
      r.serial == SerialOrZero(z) && SameRecords(r.version, z) && (exact ==> SameContent(r.version, z))
  {
    if t.records == [] {
      SameContentSameRecords(e.version, z);
    } else {
      AllKept(t.records, w.encodable);
      SoaOfSame(t.records, z);
    }
  }

  // ---- what is received ----

  lemma {:induction false} MessagesSplit(a: seq<Packet>, b: seq<Packet>)
    ensures Messages(a + b) == Messages(a) + Messages(b)
    decreases |a|
  {
    if a == [] {
      assert a + b == b;
    } else {
      assert (a + b)[1..] == a[1..] + b;
      MessagesSplit(a[1..], b);
    }
  }

  /** What comes after the message that ended the transfer is not read. */
  lemma {:induction false} RestUnread(env: Env, s: State, msgs: seq<Message>, more: seq<Message>)
    requires ParseStream(env, s, msgs).1 && ParseStream(env, s, msgs).0.finished
    ensures ParseStream(env, s, msgs + more) == ParseStream(env, s, msgs)
    decreases |msgs|
  {
    if msgs != [] && !s.finished {
      assert (msgs + more)[0] == msgs[0] && (msgs + more)[1..] == msgs[1..] + more;
      RestUnread(env, ParseMessage(env, s, msgs[0]).0, msgs[1..], more);
    }
  }

  /** A complete reception of a beginning of a stream is the parser's reading of the whole of it. */
  lemma {:induction false} ReceivedIsParsed(c: Config, ixfr: bool, requestMac: TransferReceiver.Octets, ps: seq<Packet>,
      msgs: seq<Message>)
    requires Receive(c, StartLoop(Start(ixfr), requestMac), ps).Complete? && Messages(ps) <= msgs
    ensures var o := Receive(c, StartLoop(Start(ixfr), requestMac), ps);
      o.state.finished && ParseStream(c.env, Start(ixfr), msgs) == (o.state, true)
  {
    var l := StartLoop(Start(ixfr), requestMac);
    var used := Receive(c, l, ps).used;
    CompleteIsParsed(c, l, ps);
    assert ps == ps[..used] + ps[used..];
    MessagesSplit(ps[..used], ps[used..]);
    var head := Messages(ps[..used]);
    assert msgs == head + msgs[|head|..];
    RestUnread(c.env, Start(ixfr), head, msgs[|head|..]);
  }

  // ---- the theorem ----

  /**
   * Replication is safe.  Take any run of a primary in which no serial stands for two contents, and a secondary without
   * the zone or with the content of some version.  Whatever the primary answers, however it is packed, and whatever
   * part of it arrives: if the secondary completes the exchange and can encode the primary's records, its entry has the
   * primary's current serial and the records of the current version, each as often as there unless the chain of
   * differences passed through its own end.
   */
  lemma {:induction false} ReplicaIsCurrent(acts: seq<Act>, c: Config, ixfr: bool, provideIxfr: bool, sent: seq<Sent>,
      sendOpt: bool, expire: Option<nat>, requestMac: TransferReceiver.Octets, ps: seq<Packet>, e: Entry, w: World)
    requires VersionsOk(acts) && Asks(Live(acts), c.env, ixfr, e)
    requires Sends(Live(acts), c.env, ixfr, provideIxfr, sent, sendOpt)
    requires Messages(ps) <= Received(sent, expire, false)
    requires Receive(c, StartLoop(Start(ixfr), requestMac), ps).Complete?
    requires forall r :: r in Current(Live(acts)) ==> w.encodable(r)
    ensures var p := Live(acts); var z := Current(p);
      var a := Respond(p.ring.items, z, ixfr, c.env.clientSerial, provideIxfr);
      var r := Refreshed(e, w, Receive(c, StartLoop(Start(ixfr), requestMac), ps).state);
      && r.serial == SerialOrZero(z) && SameRecords(r.version, z)
      && (Exact(a, SerialOrZero(z)) ==> SameContent(r.version, z))
  {
    var p := Live(acts);
    var z, msgs := Current(p), Received(sent, expire, false);
    var a := Respond(p.ring.items, z, ixfr, c.env.clientSerial, provideIxfr);
    CurrentNotEmpty(acts);
    ReceivedIsEmitted(sent, sendOpt, expire, false);
    AnswerNotEmpty(z, a);
    assert sent != [];
    ReceivedAt(sent, expire, false);
    AnswerBrings(acts, c.env, ixfr, provideIxfr, e, msgs);
    ReceivedIsParsed(c, ixfr, requestMac, ps, msgs);
    var t := Receive(c, StartLoop(Start(ixfr), requestMac), ps).state;
    if t.records == [] { ServedIsCurrent(p, c.env); }
    RefreshedIs(c.env, e, w, t, z, Exact(a, SerialOrZero(z)));
  }

  // ---- when it completes ----

  lemma {:induction false} RunningPart(env: Env, s: State, xs: seq<Item>, ys: seq<Item>)
    requires RunsToTheEnd(env, s, xs + ys) && ys != [] && !s.finished
    ensures var (t, ok) := Flat(env, s, xs); ok && !t.finished && RunsToTheEnd(env, t, ys)
    decreases |xs|
  {
    if xs == [] {
      assert xs + ys == ys;
    } else {
      assert (xs + ys)[0] == xs[0] && (xs + ys)[1..] == xs[1..] + ys;
      LastIsNoDifferent(env, s, xs[0]);
      RunningPart(env, Step(env, s, xs[0], false, false).0, xs[1..], ys);
    }
  }

  /** A stream that ends with its last record ends with its last message, however it is cut. */
  lemma {:induction false} EndsWithLastHoweverCut(env: Env, s: State, msgs: seq<Message>)
    requires Sendable(msgs) && msgs != [] && Askable(env, s) && !s.finished
    requires RunsToTheEnd(env, ReadOptions(s, msgs[0]), Concat(msgs))
    requires var (t, ok) := Flat(env, ReadOptions(s, msgs[0]), Concat(msgs)); ok && t.finished
    ensures EndsWithLast(env, s, msgs)
    decreases |msgs|
  {
    var s0 := ReadOptions(s, msgs[0]);
    var xs, rest := msgs[0].items, msgs[1..];
    MessageIsFlat(env, s, msgs[0]);
    if rest == [] {
      assert Concat(msgs) == xs;
    } else {
      assert rest[0].items != [] && Concat(rest) != [];
      RunningPart(env, s0, xs, Concat(rest));
      FlatSplits(env, s0, xs, Concat(rest));
      var t := Flat(env, s0, xs).0;
      assert ReadOptions(t, rest[0]) == t;
      EndsWithLastHoweverCut(env, t, rest);
    }
  }

  /** The answers that every secondary which asked for them takes, whichever way they are cut. */
  ghost predicate Takes(env: Env, ixfr: bool, z: Zone, a: Answer) {
    match a
    case UpToDate => env.clientSerial == SerialOrZero(z)
    case Differences(chain) => Newer(SerialOrZero(z), env.clientSerial) && !Revisits(chain, SerialOrZero(z))
    case Whole =>
      (env.clientSerial != 0 ==> Newer(SerialOrZero(z), env.clientSerial)) && (ixfr ==> WithoutApexSoa(z) != [])
  }

  /** A stream of records that ends the transfer with its last record. */
  ghost predicate EndsIt(env: Env, s: State, items: seq<Item>) {
    RunsToTheEnd(env, s, items) && Flat(env, s, items).1 && Flat(env, s, items).0.finished
  }

  lemma {:induction false} ChainEndsIt(acts: seq<Act>, env: Env, provideIxfr: bool, chain: seq<Txn>, s: State)
    requires VersionsOk(acts) && AnsweredWith(Live(acts), env, provideIxfr, chain) && s == Start(true).(options := s.options)
    requires Takes(env, true, Current(Live(acts)), Differences(chain))
    ensures EndsIt(env, s, Wire(Emit(Current(Live(acts)), Differences(chain))))
  {
    var p, z := Live(acts), Current(Live(acts));
    HistoryIsTrue(acts);
    CurrentWellFormed(p);
    WellFormedHasSoa(z);
    var olds, news := AnswerLinked(p, env, provideIxfr, chain);
    LastHasSoa(chain, olds, news, z);
    DifferencesAccepted(env, s, TheSoa(z), chain, olds, news);
  }

  lemma {:induction false} AnswerEndsIt(acts: seq<Act>, env: Env, ixfr: bool, provideIxfr: bool, e: Entry, a: Answer, s: State)
    requires VersionsOk(acts) && Asks(Live(acts), env, ixfr, e) && s == Start(ixfr).(options := s.options)
    requires var p := Live(acts); a == Respond(p.ring.items, Current(p), ixfr, env.clientSerial, provideIxfr)
    requires Takes(env, ixfr, Current(Live(acts)), a)
    ensures EndsIt(env, s, Wire(Emit(Current(Live(acts)), a)))
  {
    var z := Current(Live(acts));
    CurrentNotEmpty(acts);
    WellFormedHasSoa(z);
    match a
    case UpToDate => UpToDateAnswer(env, s, TheSoa(z));
    case Differences(chain) => ChainEndsIt(acts, env, provideIxfr, chain, s);
    case Whole => FullTransfer(env, s, z);
  }

  /**
   * Replication comes about.  When the answer is one that is taken, all of it arrives, and every message passes the
   * checks of the receiving loop (header, size and record limits, and with a key the stream is authenticated), the
   * exchange completes with the last message, and the secondary that can encode the primary's records has its current
   * serial and exactly its current content.
   */
  lemma {:induction false} ReplicaGetsCurrent(acts: seq<Act>, c: Config, ixfr: bool, provideIxfr: bool, sent: seq<Sent>,
      sendOpt: bool, expire: Option<nat>, requestMac: TransferReceiver.Octets, ps: seq<Packet>, e: Entry, w: World)
    requires VersionsOk(acts) && Asks(Live(acts), c.env, ixfr, e)
    requires Sends(Live(acts), c.env, ixfr, provideIxfr, sent, sendOpt)
    requires var p := Live(acts);
      Takes(c.env, ixfr, Current(p), Respond(p.ring.items, Current(p), ixfr, c.env.clientSerial, provideIxfr))
    requires Messages(ps) == Received(sent, expire, false)
    requires HeadersFit(true, ps) && OctetsFit(c, 0, ps) && RecordsFit(c, Start(ixfr), Messages(ps)) && !c.extProbe
    requires c.keyed ==> Authenticated(c.verify, ps, StartTsig(requestMac).prior, false)
    requires forall r :: r in Current(Live(acts)) ==> w.encodable(r)
    ensures var o := Receive(c, StartLoop(Start(ixfr), requestMac), ps); var z := Current(Live(acts));
      && o.Complete? && o.used == |ps|
      && Refreshed(e, w, o.state).serial == SerialOrZero(z) && SameContent(Refreshed(e, w, o.state).version, z)
  {
    var p := Live(acts);
    var a := Respond(p.ring.items, Current(p), ixfr, c.env.clientSerial, provideIxfr);
    ReceivedIsEmitted(sent, sendOpt, expire, false);
    AnswerNotEmpty(Current(p), a);
    assert sent != [];
    ReceivedAt(sent, expire, false);
    AnswerEndsIt(acts, c.env, ixfr, provideIxfr, e, a, ReadOptions(Start(ixfr), Messages(ps)[0]));
    EndsWithLastHoweverCut(c.env, Start(ixfr), Messages(ps));
    CompletesExactly(c, Start(ixfr), requestMac, ps);
    ReplicaIsCurrent(acts, c, ixfr, provideIxfr, sent, sendOpt, expire, requestMac, ps, e, w);
  }
}
