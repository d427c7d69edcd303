/**
 * A whole inbound transfer (handle_axfr_event()): the receiving loop, then the install of the new version or the
 * restart of the timers, and what a failure leaves behind.
 */
module TransferInstall {
  import opened Serials
  import opened Records
  import opened TransferParser
  import opened TransferSession
  import opened TransferSafety
  import opened TransferReceiver
  import opened TsigStreams
  import Expiry

  /** min/max-refresh-time and min/max-retry-time of the zone. */
  datatype Limits = Limits(minRefresh: nat, maxRefresh: nat, minRetry: nat, maxRetry: nat)

  const MAX_EXPIRE: nat := 14515200

  function Range(a: nat, lo: nat, hi: nat): nat {
    if a < lo then lo else if a < hi then a else hi
  }

  /** xfr_clamp_timers() */
  function Clamp(l: Option<Limits>, t: Timers): Timers {
    if l.None? then t
    else
      var r := Range(t.refresh, l.value.minRefresh, l.value.maxRefresh);
      var y := Range(t.retry, l.value.minRetry, l.value.maxRetry);
      Timers(r, y, Range(t.expire, r + y, MAX_EXPIRE))
  }

  /** What is outside the code: the clock, and what the image builder and the other transfers say. */
  datatype World = World(
    now: nat,
    limits: Option<Limits>,
    encodable: RR -> bool,
    withinLimits: Zone -> bool,
    outboundIdle: bool,
    imageBuilds: Zone -> bool)

  /** The zone entry: serial, timers and the published version. */
  datatype Entry = Entry(serial: Serial, timers: Timers, nextCheck: nat, expireAt: nat, lastOk: nat, version: Zone)

  function ExpiryOption(t: State): Expiry.Option {
    match t.options.expire
    case None => Expiry.Absent
    case Some(v) => Expiry.Present(v)
  }

  /** The zone-wide numbers: the frame's for a SOA set, else those of the first SOA at the apex. */
  function SoaNumbers(t: State, kept: Zone): Option<(Serial, Timers)> {
    if t.soaSet.Announced? then Some((t.openSerial, t.soaSet.frame))
    else
      var k := ApexSoaIndex(kept);
      if k == |kept| then None
      else
        var soa := kept[k].rdata;
        Some((soa.serial, Timers(soa.refresh, soa.retry, soa.expire)))
  }

  /** The entry with the serial and the timers of the new version. */
  function WithNumbers(e: Entry, w: World, t: State, n: (Serial, Timers)): Entry {
    var timers := Clamp(w.limits, n.1);
    Entry(n.0, timers, w.now + timers.refresh,
          Expiry.NewDeadline(true, ExpiryOption(t), timers.expire, 0, w.now), w.now, e.version)
  }

  /** xfr_note_uptodate() */
  function NotedUpToDate(e: Entry, w: World, t: State): Entry {
    var timers := Clamp(w.limits, e.timers);
    var cur := Expiry.Deadline(Expiry.Timer(e.expireAt, e.lastOk, timers.expire));
    Entry(e.serial, timers, w.now + timers.refresh,
          Expiry.NewDeadline(false, ExpiryOption(t), timers.expire, cur, w.now), w.now, e.version)
  }

  /** The entry after an install: the records that can be encoded, and the numbers of their SOA when they have one. */
  function Installed(e: Entry, w: World, t: State): Entry {
    var kept := Encodable(t.records, w.encodable);
    var n := SoaNumbers(t, kept);
    (if n.Some? then WithNumbers(e, w, t, n.value) else e).(version := kept)
  }

  // ---- the entry afterwards, field by field ----

  /** a when it is within the bounds, else the bound it passes. */
  ghost predicate Held(v: nat, a: nat, lo: nat, hi: nat) {
    && (lo <= a <= hi ==> v == a)
    && (a < lo ==> v == lo)
    && (lo <= a && hi < a ==> v == hi)
  }

  /** Refresh and retry held to the zone's limits, expire to no less than their sum and no more than 24 weeks. */
  ghost predicate TimersWithin(v: Timers, l: Option<Limits>, got: Timers) {
    && (l.None? ==> v == got)
    && (l.Some? ==>
          && Held(v.refresh, got.refresh, l.value.minRefresh, l.value.maxRefresh)
          && Held(v.retry, got.retry, l.value.minRetry, l.value.maxRetry)
          && Held(v.expire, got.expire, v.refresh + v.retry, MAX_EXPIRE))
  }

  /** Checked again after the refresh time, and last good now. */
  ghost predicate Restarted(after: Entry, w: World) {
    after.nextCheck == w.now + after.timers.refresh && after.lastOk == w.now
  }

  /** The option's seconds, or those of the SOA when they are fewer (0 there means none). */
  function Fewer(seconds: nat, soaExpire: nat): nat {
    if 0 < soaExpire < seconds then soaExpire else seconds
  }

  /** A new version with this serial and these timers. */
  ghost predicate NewNumbers(after: Entry, w: World, t: State, serial: Serial, timers: Timers) {
    && after.serial == serial && TimersWithin(after.timers, w.limits, timers) && Restarted(after, w)
    && (t.options.expire.None? ==> after.expireAt == 0)
    && (t.options.expire.Some? ==> after.expireAt == w.now + Fewer(t.options.expire.value, after.timers.expire))
  }

  /** The first of the records that is a SOA at the apex and can be encoded. */
  ghost predicate FirstApexSoa(z: Zone, keep: RR -> bool, i: nat) {
    && i < |z| && z[i].IsApexSoa() && keep(z[i])
    && forall j :: 0 <= j < i ==> !(z[j].IsApexSoa() && keep(z[j]))
  }

  ghost predicate NoApexSoa(z: Zone, keep: RR -> bool) {
    forall j :: 0 <= j < |z| ==> !(z[j].IsApexSoa() && keep(z[j]))
  }

  /** After an install. */
  ghost predicate HasNewVersion(before: Entry, after: Entry, w: World, t: State) {
    && after.version == Encodable(t.records, w.encodable)
    && (t.soaSet.Announced? ==> NewNumbers(after, w, t, t.openSerial, t.soaSet.frame))
    && (!t.soaSet.Announced? ==>
          && (forall i: nat :: FirstApexSoa(t.records, w.encodable, i) ==>
                var soa := t.records[i].rdata;
                NewNumbers(after, w, t, soa.serial, Timers(soa.refresh, soa.retry, soa.expire)))
          && (NoApexSoa(t.records, w.encodable) ==> after == before.(version := after.version)))
  }

  /**
   * After an up-to-date answer: with the option, the later of it and the running deadline, within SOA EXPIRE from now.
   */
  ghost predicate HasNewDeadline(before: Entry, after: Entry, w: World, t: State) {
    && after.serial == before.serial && after.version == before.version
    && TimersWithin(after.timers, w.limits, before.timers) && Restarted(after, w)
    && (t.options.expire.None? ==> after.expireAt == 0)
    && (t.options.expire.Some? ==>
          var offered, soaExpire := w.now + Fewer(t.options.expire.value, after.timers.expire), after.timers.expire;
          var running := Expiry.Deadline(Expiry.Timer(before.expireAt, before.lastOk, soaExpire));
          && (running <= offered ==> after.expireAt == offered)
          && (offered < running && (soaExpire == 0 || running <= w.now + soaExpire) ==> after.expireAt == running)
          && (offered < running && 0 < soaExpire && w.now + soaExpire < running ==> after.expireAt == w.now + soaExpire))
  }

  lemma {:induction false} KeptNext(z: Zone, keep: RR -> bool)
    requires z != []
    ensures var kept, rest := Encodable(z, keep), Encodable(z[1..], keep);
      && (keep(z[0]) && z[0].IsApexSoa() ==> |kept| > 0 && ApexSoaIndex(kept) == 0 && kept[0] == z[0])
      && (keep(z[0]) && !z[0].IsApexSoa() ==> kept == [z[0]] + rest && ApexSoaIndex(kept) == 1 + ApexSoaIndex(rest))
      && (!keep(z[0]) ==> kept == rest)
  {
    var rest := Encodable(z[1..], keep);
    if keep(z[0]) { assert ([z[0]] + rest)[1..] == rest; }
  }

  lemma {:induction false} ApexSoaNext(z: Zone, keep: RR -> bool, j: nat)
    requires z != [] && !(z[0].IsApexSoa() && keep(z[0]))
    ensures FirstApexSoa(z[1..], keep, j) ==> FirstApexSoa(z, keep, j + 1)
    ensures NoApexSoa(z[1..], keep) ==> NoApexSoa(z, keep)
  {
    assert forall m :: 0 < m < |z| ==> z[m] == z[1..][m - 1];
  }

  lemma {:induction false} FirstApexSoaKept(z: Zone, keep: RR -> bool) returns (i: nat)
    ensures var kept := Encodable(z, keep); var k := ApexSoaIndex(kept);
      if k < |kept| then FirstApexSoa(z, keep, i) && z[i] == kept[k] else NoApexSoa(z, keep)
  {
    i := 0;
    if z != [] {
      KeptNext(z, keep);
      if !(z[0].IsApexSoa() && keep(z[0])) {
        var j := FirstApexSoaKept(z[1..], keep);
        ApexSoaNext(z, keep, j);
        i := j + 1;
      }
    }
  }

  lemma {:induction false} OneFirstApexSoa(z: Zone, keep: RR -> bool, i: nat, j: nat)
    requires FirstApexSoa(z, keep, i) && FirstApexSoa(z, keep, j)
    ensures i == j
  {
  }

  lemma {:induction false} NumbersMeaning(e: Entry, w: World, t: State, n: (Serial, Timers), version: Zone)
    ensures NewNumbers(WithNumbers(e, w, t, n).(version := version), w, t, n.0, n.1)
  {
  }

  lemma {:induction false} InstalledMeaning(e: Entry, w: World, t: State)
    ensures HasNewVersion(e, Installed(e, w, t), w, t)
  {
    var kept := Encodable(t.records, w.encodable);
    var n := SoaNumbers(t, kept);
    if n.Some? { NumbersMeaning(e, w, t, n.value, kept); }
    var k := FirstApexSoaKept(t.records, w.encodable);
    forall i: nat | FirstApexSoa(t.records, w.encodable, i) && FirstApexSoa(t.records, w.encodable, k) ensures i == k {
      OneFirstApexSoa(t.records, w.encodable, i, k);
    }
  }

  lemma {:induction false} NotedMeaning(e: Entry, w: World, t: State)
    ensures HasNewDeadline(e, NotedUpToDate(e, w, t), w, t)
  {
  }

  // ---- the transfer ----

  datatype Result = Failed | Transferred | UpToDate

  /** The gate, the outbound transfers and the image builder let the new version in. */
  predicate Accepted(w: World, t: State) {
    var kept := Encodable(t.records, w.encodable);
    w.withinLimits(kept) && w.outboundIdle && w.imageBuilds(kept)
  }

  class Secondary {
    var entry: Entry

    constructor (e: Entry)
      ensures entry == e
    {
      entry := e;
    }

    /** The install step, with the serial and the timers put back when the image cannot be built. */
    method Install(w: World, t: State) returns (r: Result)
      requires t.records != []
      modifies this
      ensures r != UpToDate
      ensures r == Failed ==> entry == old(entry)
      ensures r == Transferred <==> Accepted(w, t)
      ensures r == Transferred ==> entry == Installed(old(entry), w, t) && HasNewVersion(old(entry), entry, w, t)
    {
      InstalledMeaning(entry, w, t);
      var kept := Encodable(t.records, w.encodable);
      var n := SoaNumbers(t, kept);
      if !w.withinLimits(kept) { return Failed; }
      if !w.outboundIdle { return Failed; }
      var before := entry;
      if n.Some? {
        entry := WithNumbers(entry, w, t, n.value);
      }
      if !w.imageBuilds(kept) {
        entry := entry.(serial := before.serial, timers := before.timers);
        entry := entry.(nextCheck := before.nextCheck, expireAt := before.expireAt, lastOk := before.lastOk);
        return Failed;
      }
      entry := entry.(version := kept);
      return Transferred;
    }

    /** handle_axfr_event(): the messages ps are what can be read from the connection before it fails. */
    method HandleTransfer(c: Config, ixfr: bool, requestMac: Octets, ps: seq<Packet>, w: World) returns (r: Result)
      modifies this
      ensures var o := Receive(c, StartLoop(Start(ixfr), requestMac), ps);
        && (r == UpToDate <==> o.Complete? && o.state.records == [])
        && (r == Transferred <==> o.Complete? && o.state.records != [] && Accepted(w, o.state))
      ensures var o := Receive(c, StartLoop(Start(ixfr), requestMac), ps);
        match r
        case Failed => entry == old(entry)
        case UpToDate => entry == NotedUpToDate(old(entry), w, o.state) && HasNewDeadline(old(entry), entry, w, o.state)
        case Transferred => entry == Installed(old(entry), w, o.state) && HasNewVersion(old(entry), entry, w, o.state)
    {
      var o := ReceiveAll(c, ixfr, requestMac, ps);
      if o.Lost? { return Failed; }
      if o.state.records == [] {
        NotedMeaning(entry, w, o.state);
        entry := NotedUpToDate(entry, w, o.state);
        return UpToDate;
      }
      r := Install(w, o.state);
    }
  }

  /** One round of the loop: size, header and TSIG are checked before the parser sees the message. */
  method TakeMessage(c: Config, session: Session, tsig: TsigStream, first: bool, total: nat, p: Packet) returns (r: Round)
    requires session.list.Valid() && tsig.Valid()
    modifies session, session.list, session.list.records, tsig, tsig.prior, tsig.unsigned
    ensures session.list.Valid() && (session.list.records == old(session.list.records) || fresh(session.list.records))
    ensures tsig.Valid() && (tsig.unsigned == old(tsig.unsigned) || fresh(tsig.unsigned))
    ensures r == OneRound(c, Loop(old(session.View()), old(tsig.View()), first, total), p)
    ensures !r.Fail? ==> r.loop.state == session.View() && r.loop.tsig == tsig.View()
  {
    var total' := total + |p.octets|;
    if c.maxBytes > 0 && total' > c.maxBytes { return Fail; }
    if !HeaderOk(p, first) { return Fail; }
    if c.keyed {
      var checked := tsig.Check(c.verify, p);
      if !checked { return Fail; }
    }
    var ok := session.ParsePacket(c.env, p.message);
    if !ok { return Fail; }
    if c.maxRecords > 0 && session.list.count > c.maxRecords { return Fail; }
    if first && c.extProbe && !session.options.extended { return Fail; }
    var next := Loop(session.View(), tsig.View(), false, total');
    if !session.finished { return More(next); }
    return if c.keyed && tsig.unsignedLen > 0 then Fail else Done(next);
  }

  lemma {:induction false} RoundContinues(c: Config, l: Loop, ps: seq<Packet>, i: nat, whole: Outcome)
    requires i < |ps| && Continues(whole, Receive(c, l, ps[i..]), i)
    ensures match OneRound(c, l, ps[i])
      case Fail => whole == Lost
      case Done(next) => whole == Complete(next.state, i + 1)
      case More(next) => Continues(whole, Receive(c, next, ps[i + 1..]), i + 1)
  {
    assert ps[i..][0] == ps[i] && ps[i..][1..] == ps[i + 1..];
  }

  lemma {:induction false} NothingLeft(c: Config, l: Loop, ps: seq<Packet>, whole: Outcome)
    requires Continues(whole, Receive(c, l, ps[|ps|..]), |ps|)
    ensures whole == Lost
  {
  }

  /** The receiving loop. */
  method ReceiveAll(c: Config, ixfr: bool, requestMac: Octets, ps: seq<Packet>) returns (o: Outcome)
    ensures o == Receive(c, StartLoop(Start(ixfr), requestMac), ps)
  {
    var session := new Session(ixfr);
    var tsig := new TsigStream(requestMac);
    var first := true;
    var total: nat := 0;
    ghost var l := StartLoop(Start(ixfr), requestMac);
    ghost var whole := Receive(c, l, ps);
    var i := 0;
    assert ps[0..] == ps;
    while i < |ps|
      invariant 0 <= i <= |ps|
      invariant fresh(session.list.records) && fresh(tsig.unsigned) && session.list.Valid() && tsig.Valid()
      invariant l == Loop(session.View(), tsig.View(), first, total)
      invariant Continues(whole, Receive(c, l, ps[i..]), i)
    {
      RoundContinues(c, l, ps, i, whole);
      var round := TakeMessage(c, session, tsig, first, total, ps[i]);
      match round
      case Fail => return Lost;
      case Done(next) => return Complete(session.View(), i + 1);
      case More(next) =>
        l := next;
        first, total := next.first, next.total;
      i := i + 1;
    }
    NothingLeft(c, l, ps, whole);
    return Lost;
  }

  /** The outcome of the whole transfer is that of the rest of it, i messages later. */
  ghost predicate Continues(whole: Outcome, rest: Outcome, i: nat) {
    if rest.Lost? then whole.Lost? else whole == Complete(rest.state, rest.used + i)
  }

  // ---- when a transfer takes the zone back ----

  /**
   * Whatever is received, by a secondary that serves the serial of the entry: a transfer that installs a version opened
   * with a serial newer than that one (0 means that it has no zone), and an up-to-date answer with that one.  The entry
   * gets the opening serial if and only if a SOA set was announced or the first SOA at the apex of the new records that
   * can be encoded has it.
   */
  lemma {:induction false} TransfersMoveForward(c: Config, ixfr: bool, requestMac: Octets, ps: seq<Packet>, e: Entry, w: World)
    requires Receive(c, StartLoop(Start(ixfr), requestMac), ps).Complete?
    requires e.serial == c.env.clientSerial
    ensures var t := Receive(c, StartLoop(Start(ixfr), requestMac), ps).state;
      && (t.records == [] ==> t.openSerial == e.serial)
      && (t.records != [] && e.serial != 0 ==> Newer(t.openSerial, e.serial))
      && (t.records != [] && t.openSerial != e.serial ==>
            (Installed(e, w, t).serial == t.openSerial
             <==> t.soaSet.Announced? || FirstEncodable(t.records, w.encodable) == Some(t.openSerial)))
  {
    var l := StartLoop(Start(ixfr), requestMac);
    CompleteIsParsed(c, l, ps);
    var o := Receive(c, l, ps);
    NoRollback(c.env, ixfr, Messages(ps[..o.used]));
    FirstKept(o.state.records, w.encodable);
  }

  /**
   * The transfer opens for the apex and all its SOAs can be encoded: then the entry moves forward to the opening
   * serial.
   */
  lemma {:induction false} EncodableMovesForward(c: Config, ixfr: bool, requestMac: Octets, ps: seq<Packet>, e: Entry, w: World)
    requires Receive(c, StartLoop(Start(ixfr), requestMac), ps).Complete?
    requires e.serial == c.env.clientSerial != 0
    requires var o := Receive(c, StartLoop(Start(ixfr), requestMac), ps);
      && o.state.records != []
      && OpensForTheApex(o.state, SeeStream(c.env, Start(ixfr), Messages(ps[..o.used]), NOTHING))
      && (forall r :: r in o.state.records && r.IsApexSoa() ==> w.encodable(r))
    ensures var t := Receive(c, StartLoop(Start(ixfr), requestMac), ps).state;
      Installed(e, w, t).serial == t.openSerial && Newer(t.openSerial, e.serial)
  {
    var l := StartLoop(Start(ixfr), requestMac);
    CompleteIsParsed(c, l, ps);
    var o := Receive(c, l, ps);
    NoRollback(c.env, ixfr, Messages(ps[..o.used]));
    TransfersMoveForward(c, ixfr, requestMac, ps, e, w);
    AllEncodable(o.state.records, w.encodable);
  }

  // ---- transfers that do not move forward ----

  function ApexSoa(serial: Serial): RR {
    RR(Apex, 0, Soa(serial, 1, 1, 1, 0))
  }

  /** A primary's full transfer in one unsigned message. */
  function OneMessage(zone: Zone): Packet {
    var items := seq(|zone|, i requires 0 <= i < |zone| => Plain(zone[i], CLASS_IN));
    Packet(seq(HEADER_SIZE, _ => 0), Header(true, true, 1, true, 0), false, Message(true, items, None, false))
  }

  function Unkeyed(serial: Serial): Config {
    Config(Env(serial, None, false), false, (_, _, _, _) => None, 0, 0, false)
  }

  /** All but the SOAs of serial 9 can be encoded. */
  function NoNines(now: nat): World {
    World(now, None, (r: RR) => !(r.IsSoa() && r.rdata.serial == 9), _ => true, true, _ => true)
  }

  lemma {:induction false} ThreeRead(a: RR, b: RR)
    requires a == ApexSoa(9) && !b.owner.Outside? && (b.rdata.Other? || (b.IsSoa() && b.rdata.serial != 9))
    ensures var o := Receive(Unkeyed(5), StartLoop(Start(false), []), [OneMessage([a, b, a])]);
      o.Complete? && o.state.records == [a, b] && o.state.openSerial == 9 && o.state.soaSet.NoSet?
  {
    var c, l, p := Unkeyed(5), StartLoop(Start(false), []), OneMessage([a, b, a]);
    var items := p.message.items;
    assert items == [Plain(a, CLASS_IN), Plain(b, CLASS_IN), Plain(a, CLASS_IN)];
    var s0 := Start(false);
    assert ReadOptions(s0, p.message) == s0;
    var s1 := Step(c.env, s0, items[0], false, false).0;
    var s2 := Step(c.env, s1, items[1], false, false).0;
    var s3 := Step(c.env, s2, items[2], false, true).0;
    ParseOne(c.env, s0, items, 0);
    ParseOne(c.env, s1, items, 1);
    ParseOne(c.env, s2, items, 2);
    assert ParseMessage(c.env, s0, p.message) == (s3, true);
    assert s3.records == [a, b];
    assert OneRound(c, l, p) == Done(Loop(s3, l.tsig, false, HEADER_SIZE));
  }

  /** An apex SOA that cannot be encoded: the new version is installed without it, under the old serial. */
  lemma {:induction false} UnencodableSoaKeepsOldSerial(e: Entry, now: nat)
    requires e.serial == 5
    ensures var a := RR(Below(1), 0, Other(1, []));
      var o := Receive(Unkeyed(5), StartLoop(Start(false), []), [OneMessage([ApexSoa(9), a, ApexSoa(9)])]);
      && o.Complete? && o.state.openSerial == 9
      && Installed(e, NoNines(now), o.state).version == [a] && Installed(e, NoNines(now), o.state).serial == 5
  {
    var a := RR(Below(1), 0, Other(1, []));
    ThreeRead(ApexSoa(9), a);
    TwoKept(ApexSoa(9), a, NoNines(now).encodable);
  }

  /** And with a second one after it in the body that can: the zone is taken back to that one's serial. */
  lemma {:induction false} UnencodableSoaRollsBack(e: Entry, now: nat)
    requires e.serial == 5
    ensures var o := Receive(Unkeyed(5), StartLoop(Start(false), []), [OneMessage([ApexSoa(9), ApexSoa(2), ApexSoa(9)])]);
      && o.Complete? && o.state.openSerial == 9
      && Installed(e, NoNines(now), o.state).version == [ApexSoa(2)] && Installed(e, NoNines(now), o.state).serial == 2
      && Newer(5, 2)
  {
    ThreeRead(ApexSoa(9), ApexSoa(2));
    TwoKept(ApexSoa(9), ApexSoa(2), NoNines(now).encodable);
  }

  lemma {:induction false} TwoKept(a: RR, b: RR, keep: RR -> bool)
    requires !keep(a) && keep(b)
    ensures Encodable([a, b], keep) == [b]
  {
    assert [a, b][1..] == [b] && [b][1..] == [];
    assert Encodable([b], keep) == [b] + Encodable([], keep);
  }
}
