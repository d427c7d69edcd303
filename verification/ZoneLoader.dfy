/**
 * One zone from the database loader (dns_db_install.c): the loader's messages go through the transfer parser, and the
 * zone is installed only when exactly the declared number of records came and the last of them was the closing SOA.
 */
module ZoneLoader {
  import opened Serials
  import opened Records
  import opened TransferParser
  import opened TransferSafety
  import opened TransferSession

  /** The loader's stream is a plain full transfer: no serial of ours, no version to apply differences to. */
  const LOADER: Env := Env(0, None, true)

  // ---- counting ----

  function One(b: bool): nat {
    if b then 1 else 0
  }

  /** Every record read is stored, skipped, counted as an extension record, the closing SOA, or the frame of a SOA set. */
  ghost predicate Accounted(s: State, read: nat) {
    read == |s.records| + s.counts.extRecords + s.counts.outside + One(s.finished) + One(s.soaSet.Announced?)
  }

  /** A loader session: the account is right, unless records followed the closing SOA in one message. */
  ghost predicate Consistent(s: State, read: nat) {
    !s.ixfr && (s.marks.trailing || Accounted(s, read))
  }

  lemma SoaStepCounts(s: State, soa: RR, only: bool, last: bool, read: nat)
    requires soa.IsSoa() && !s.ixfr && !s.finished && Accounted(s, read)
    ensures var (t, v) := SoaStep(LOADER, s.(soaCount := s.soaCount + 1), soa, only, last);
      v != Stop && (v == Next ==> Consistent(t, read + 1) && (t.finished ==> last || t.marks.trailing))
  {
  }

  lemma RecordStepCounts(s: State, rr: RR, c: nat, w: bool, only: bool, last: bool, read: nat)
    requires !s.ixfr && !s.finished && Accounted(s, read)
    ensures var (t, v) := RecordStep(LOADER, s, rr, c, w, only, last);
      v != Stop && (v == Next ==> Consistent(t, read + 1) && (t.finished ==> last || t.marks.trailing))
  {
    if rr.IsSoa() { SoaStepCounts(s, rr, only, last, read); }
  }

  lemma WrappedCounts(s: State, d: bool, rr: RR, c: nat, only: bool, last: bool, read: nat)
    requires !s.ixfr && !s.finished && Accounted(s, read)
    ensures var (t, v) := Step(LOADER, s, Wrapped(d, rr, c), only, last);
      v != Stop && (v == Next ==> Consistent(t, read + 1) && (t.finished ==> last || t.marks.trailing))
  {
    if d {
      var u := s.(counts := s.counts.(extWrapped := s.counts.extWrapped + 1));
      assert Accounted(u, read);
      RecordStepCounts(u, rr, c, rr.IsSoa(), only, last, read);
      assert Step(LOADER, s, Wrapped(d, rr, c), only, last) == RecordStep(LOADER, u, rr, c, rr.IsSoa(), only, last);
    }
  }

  lemma MarkerCounts(s: State, item: Item, only: bool, last: bool, read: nat)
    requires !s.ixfr && !s.finished && Accounted(s, read) && (item.Marker? || item.SoaSetMarker?)
    ensures var (t, v) := Step(LOADER, s, item, only, last);
      v != Stop && (v == Next ==> Consistent(t, read + 1) && !t.finished)
  {
  }

  lemma StepCounts(s: State, item: Item, only: bool, last: bool, read: nat)
    requires !s.ixfr && !s.finished && Accounted(s, read)
    ensures var (t, v) := Step(LOADER, s, item, only, last);
      v != Stop && (v == Next ==> Consistent(t, read + 1) && (t.finished ==> last || t.marks.trailing))
  {
    match item
    case Plain(rr, c) => RecordStepCounts(s, rr, c, false, only, last, read);
    case Wrapped(d, rr, c) => WrappedCounts(s, d, rr, c, only, last, read);
    case Undecodable =>
    case _ => MarkerCounts(s, item, only, last, read);
  }

  ghost predicate Trailing(s: State) {
    !s.ixfr && s.marks.trailing && s.soaCount > 0
  }

  lemma RecordStepKeepsTrailing(s: State, rr: RR, c: nat, w: bool, only: bool, last: bool)
    requires Trailing(s)
    ensures var (t, v) := RecordStep(LOADER, s, rr, c, w, only, last); v == Next ==> Trailing(t)
  {
  }

  /** Once records followed the closing SOA, the mark stays. */
  lemma StepKeepsTrailing(s: State, item: Item, only: bool, last: bool)
    requires Trailing(s)
    ensures var (t, v) := Step(LOADER, s, item, only, last); v == Next ==> Trailing(t)
  {
    match item
    case Plain(rr, c) => RecordStepKeepsTrailing(s, rr, c, false, only, last);
    case Wrapped(d, rr, c) =>
      if d {
        var u := s.(counts := s.counts.(extWrapped := s.counts.extWrapped + 1));
        assert Step(LOADER, s, item, only, last) == RecordStep(LOADER, u, rr, c, rr.IsSoa(), only, last);
        RecordStepKeepsTrailing(u, rr, c, rr.IsSoa(), only, last);
      }
    case _ =>
  }

  lemma {:induction false} ParseFromKeepsTrailing(s: State, items: seq<Item>, i: nat)
    requires i <= |items| && Trailing(s)
    ensures var (t, ok) := ParseFrom(LOADER, s, items, i); ok ==> Trailing(t)
    decreases |items| - i
  {
    if i < |items| {
      StepKeepsTrailing(s, items[i], |items| == 1, i == |items| - 1);
      var (t, v) := Step(LOADER, s, items[i], |items| == 1, i == |items| - 1);
      if v == Next { ParseFromKeepsTrailing(t, items, i + 1); }
    }
  }

  ghost predicate TrailingAfterSoa(r: (State, Verdict)) {
    r.1 == Next && (r.0.marks.trailing || r.0.finished) ==> r.0.soaCount > 0 && r.0.finished
  }

  lemma {:induction false} RecordTrailing(s: State, rr: RR, c: nat, w: bool, only: bool, last: bool)
    requires !s.ixfr && !s.finished && !s.marks.trailing
    ensures TrailingAfterSoa(RecordStep(LOADER, s, rr, c, w, only, last))
  {
  }

  lemma {:induction false} TrailingHasSoa(s: State, item: Item, only: bool, last: bool)
    requires !s.ixfr && !s.finished && !s.marks.trailing
    ensures TrailingAfterSoa(Step(LOADER, s, item, only, last))
  {
    match item
    case Plain(rr, c) => RecordTrailing(s, rr, c, false, only, last);
    case Wrapped(d, rr, c) =>
      if d {
        var u := s.(counts := s.counts.(extWrapped := s.counts.extWrapped + 1));
        assert Step(LOADER, s, item, only, last) == RecordStep(LOADER, u, rr, c, rr.IsSoa(), only, last);
        RecordTrailing(u, rr, c, rr.IsSoa(), only, last);
      }
    case _ =>
  }

  lemma {:induction false} ParseFromCounts(s: State, items: seq<Item>, i: nat, read: nat)
    requires i <= |items| && !s.ixfr && !s.marks.trailing && Accounted(s, read)
    requires s.finished ==> i == |items|
    ensures var (t, ok) := ParseFrom(LOADER, s, items, i);
      ok ==> Consistent(t, read + |items| - i)
    decreases |items| - i
  {
    if i < |items| {
      StepCounts(s, items[i], |items| == 1, i == |items| - 1, read);
      TrailingHasSoa(s, items[i], |items| == 1, i == |items| - 1);
      var (t, v) := Step(LOADER, s, items[i], |items| == 1, i == |items| - 1);
      if v == Next {
        if t.marks.trailing {
          ParseFromKeepsTrailing(t, items, i + 1);
        } else {
          ParseFromCounts(t, items, i + 1, read + 1);
        }
      }
    }
  }

  // ---- the closing SOA ----

  /** The record is a SOA with the owner and the serial of the opening one. */
  ghost predicate Closes(item: Item, t: State) {
    var r := ItemRecord(item);
    r.Some? && r.value.IsSoa() && r.value.owner == t.openOwner && r.value.rdata.serial == t.openSerial
  }

  lemma {:induction false} RecordEnds(s: State, rr: RR, c: nat, w: bool, only: bool, last: bool)
    requires !s.ixfr && !s.finished
    ensures var (t, v) := RecordStep(LOADER, s, rr, c, w, only, last);
      v != Stop && !t.ixfr &&
      (v == Next && t.finished ==>
         rr.IsSoa() && rr.owner == t.openOwner && rr.rdata.serial == t.openSerial && (last || t.marks.trailing))
  {
  }

  /** A record that ends a loader's stream is its closing SOA, and a record after it in the message is noted. */
  lemma {:induction false} StepEnds(s: State, item: Item, only: bool, last: bool)
    requires !s.ixfr && !s.finished
    ensures var (t, v) := Step(LOADER, s, item, only, last);
      v != Stop && !t.ixfr && (v == Next && t.finished ==> Closes(item, t) && (last || t.marks.trailing))
  {
    match item
    case Plain(rr, c) => RecordEnds(s, rr, c, false, only, last);
    case Wrapped(d, rr, c) =>
      if d {
        var u := s.(counts := s.counts.(extWrapped := s.counts.extWrapped + 1));
        assert Step(LOADER, s, item, only, last) == RecordStep(LOADER, u, rr, c, rr.IsSoa(), only, last);
        RecordEnds(u, rr, c, rr.IsSoa(), only, last);
      }
    case _ =>
  }

  /** A message that ends the stream without the note ends with the closing SOA. */
  lemma {:induction false} ClosingIsLast(s: State, items: seq<Item>, i: nat)
    requires i <= |items| && !s.ixfr && !s.finished && !s.marks.trailing
    ensures var (t, ok) := ParseFrom(LOADER, s, items, i);
      ok && t.finished && !t.marks.trailing ==> i < |items| && Closes(items[|items| - 1], t)
    decreases |items| - i
  {
    if i < |items| {
      StepEnds(s, items[i], |items| == 1, i == |items| - 1);
      TrailingHasSoa(s, items[i], |items| == 1, i == |items| - 1);
      ParseOne(LOADER, s, items, i);
      var (t, v) := Step(LOADER, s, items[i], |items| == 1, i == |items| - 1);
      if v == Next {
        if t.marks.trailing {
          ParseFromKeepsTrailing(t, items, i + 1);
        } else if !t.finished {
          ClosingIsLast(t, items, i + 1);
        }
      }
    }
  }

  // ---- the builder ----

  function RecordsIn(msgs: seq<Message>): nat {
    if msgs == [] then 0 else RecordsIn(msgs[..|msgs| - 1]) + |msgs[|msgs| - 1].items|
  }

  /** db_zone_build_feed(): None when the message is refused. */
  function Fed(extendedZone: bool, s: State, m: Message): Option<State> {
    if s.finished then None
    else
      var (t, ok) := ParseMessage(LOADER, s, m);
      if !ok then None
      else if !extendedZone && (t.counts.extRecords > 0 || t.counts.extWrapped > 0) then None
      else if t.counts.outside > 0 || t.marks.trailing then None
      else Some(t)
  }

  function FedAll(extendedZone: bool, msgs: seq<Message>): Option<State> {
    if msgs == [] then Some(Start(false))
    else
      var s := FedAll(extendedZone, msgs[..|msgs| - 1]);
      if s.None? then None else Fed(extendedZone, s.value, msgs[|msgs| - 1])
  }

  /** What is known of a builder that took all its messages. */
  ghost predicate Counted(s: State, read: nat) {
    !s.ixfr && !s.marks.trailing && s.counts.outside == 0 && Accounted(s, read)
  }

  lemma FedCounts(extendedZone: bool, s: State, m: Message, read: nat)
    requires Counted(s, read) && Fed(extendedZone, s, m).Some?
    ensures Counted(Fed(extendedZone, s, m).value, read + |m.items|)
  {
    ParseFromCounts(ReadOptions(s, m), m.items, 0, read);
  }

  /** Over all messages a builder took: stored + extension records + closing SOA + unstored frame is the number read. */
  lemma {:induction false} FedAllCounts(extendedZone: bool, msgs: seq<Message>)
    requires FedAll(extendedZone, msgs).Some?
    ensures Counted(FedAll(extendedZone, msgs).value, RecordsIn(msgs))
    decreases |msgs|
  {
    if msgs != [] {
      var front := msgs[..|msgs| - 1];
      FedAllCounts(extendedZone, front);
      FedCounts(extendedZone, FedAll(extendedZone, front).value, msgs[|msgs| - 1], RecordsIn(front));
    }
  }

  function SoasIn(z: Zone): nat {
    if z == [] then 0 else SoasIn(z[..|z| - 1]) + One(z[|z| - 1].IsSoa())
  }

  /** The count and framing checks of db_zone_build_install(). */
  predicate Installable(s: State, declared: nat) {
    && s.finished
    && |s.records| + 1 + s.counts.extRecords + One(s.soaSet.Announced?) == declared
    && s.openOwner.Apex?
    && (if s.soaSet.Announced?
        then SoasIn(s.records) == s.soaSet.announced == s.soaSet.seen
        else s.records != [] && s.records[0].IsApexSoa() && SoasIn(s.records) == 1)
  }

  /**
   * The count check is exact: for a stream the builder took up to the closing SOA, the check on the number of stored
   * records passes if and only if the number of records sent is the number declared.
   */
  lemma {:induction false} CountIsExact(extendedZone: bool, msgs: seq<Message>, declared: nat)
    requires FedAll(extendedZone, msgs).Some? && FedAll(extendedZone, msgs).value.finished
    ensures var s := FedAll(extendedZone, msgs).value;
      |s.records| + 1 + s.counts.extRecords + One(s.soaSet.Announced?) == declared <==> RecordsIn(msgs) == declared
  {
    FedAllCounts(extendedZone, msgs);
  }

  /**
   * A zone is installed only if exactly the declared number of records was sent, and the last of all of them is the
   * closing SOA: of the apex, and with the opening serial.
   */
  lemma {:induction false} InstallsOnlyTheDeclared(extendedZone: bool, msgs: seq<Message>, declared: nat)
    requires FedAll(extendedZone, msgs).Some? && Installable(FedAll(extendedZone, msgs).value, declared)
    ensures RecordsIn(msgs) == declared && msgs != []
    ensures var before := FedAll(extendedZone, msgs[..|msgs| - 1]); before.Some? && !before.value.finished
    ensures var items := msgs[|msgs| - 1].items; var t := FedAll(extendedZone, msgs).value;
      items != [] && Closes(items[|items| - 1], t) && t.openOwner.Apex?
  {
    FedAllCounts(extendedZone, msgs);
    FedAllCounts(extendedZone, msgs[..|msgs| - 1]);
    var m := msgs[|msgs| - 1];
    var before := FedAll(extendedZone, msgs[..|msgs| - 1]).value;
    ClosingIsLast(ReadOptions(before, m), m.items, 0);
  }

  // ---- the serial ----

  lemma {:induction false} RecordNeverStops(s: State, rr: RR, c: nat, w: bool, only: bool, last: bool)
    requires !s.ixfr
    ensures var (t, v) := RecordStep(LOADER, s, rr, c, w, only, last); v != Stop && !t.ixfr
  {
  }

  lemma {:induction false} NeverStops(s: State, item: Item, only: bool, last: bool)
    requires !s.ixfr
    ensures var (t, v) := Step(LOADER, s, item, only, last); v != Stop && !t.ixfr
  {
    match item
    case Plain(rr, c) => RecordNeverStops(s, rr, c, false, only, last);
    case Wrapped(d, rr, c) =>
      if d {
        var u := s.(counts := s.counts.(extWrapped := s.counts.extWrapped + 1));
        assert Step(LOADER, s, item, only, last) == RecordStep(LOADER, u, rr, c, rr.IsSoa(), only, last);
        RecordNeverStops(u, rr, c, rr.IsSoa(), only, last);
      }
    case _ =>
  }

  lemma {:induction false} LoaderParseSound(s: State, items: seq<Item>, i: nat, w: Seen)
    requires i <= |items| && Sound(LOADER, s, w) && !s.ixfr
    ensures var (t, ok) := ParseFrom(LOADER, s, items, i); ok ==> Sound(LOADER, t, SeeFrom(LOADER, s, items, i, w))
    decreases |items| - i
  {
    if i < |items| {
      StepSound(LOADER, s, items[i], |items| == 1, i == |items| - 1, w);
      NeverStops(s, items[i], |items| == 1, i == |items| - 1);
      ParseOne(LOADER, s, items, i);
      var (t, v) := Step(LOADER, s, items[i], |items| == 1, i == |items| - 1);
      if v == Next { LoaderParseSound(t, items, i + 1, See(s, items[i], w)); }
    }
  }

  /** A builder's session is a sound one. */
  lemma {:induction false} FedSound(extendedZone: bool, msgs: seq<Message>) returns (w: Seen)
    requires FedAll(extendedZone, msgs).Some?
    ensures Sound(LOADER, FedAll(extendedZone, msgs).value, w)
    decreases |msgs|
  {
    w := NOTHING;
    if msgs != [] {
      var m, before := msgs[|msgs| - 1], FedAll(extendedZone, msgs[..|msgs| - 1]).value;
      var w' := FedSound(extendedZone, msgs[..|msgs| - 1]);
      FedAllCounts(extendedZone, msgs[..|msgs| - 1]);
      OptionsAreImmaterial(LOADER, before, m, w');
      LoaderParseSound(ReadOptions(before, m), m.items, 0, w');
      w := SeeFrom(LOADER, ReadOptions(before, m), m.items, 0, w');
    }
  }

  /** The new version's serial: the frame's for a SOA set, else that of the first SOA at the apex that can be encoded. */
  function NewSerial(s: State, keep: RR -> bool): Option<Serial> {
    var first := FirstEncodable(s.records, keep);
    if s.soaSet.Announced? && first.Some? then Some(s.openSerial) else first
  }

  lemma {:induction false} SoasInSplit(a: Zone, b: Zone)
    ensures SoasIn(a + b) == SoasIn(a) + SoasIn(b)
    decreases |b|
  {
    if b == [] {
      assert a + b == a;
    } else {
      assert (a + b)[..|a + b| - 1] == a + b[..|b| - 1];
      SoasInSplit(a, b[..|b| - 1]);
    }
  }

  lemma {:induction false} OnlySoa(z: Zone)
    requires z != [] && z[0].IsSoa() && SoasIn(z) == 1
    ensures SoasIn(z[1..]) == 0
  {
    SoasInSplit([z[0]], z[1..]);
    assert [z[0]] + z[1..] == z && [z[0]][..0] == [];
    assert SoasIn([z[0]]) == SoasIn([]) + 1;
  }

  lemma {:induction false} NoSoaNoSerial(z: Zone, keep: RR -> bool)
    requires SoasIn(z) == 0
    ensures FirstEncodable(z, keep) == None
    decreases |z|
  {
    if z != [] {
      SoasInSplit([z[0]], z[1..]);
      assert [z[0]] + z[1..] == z && [z[0]][..0] == [];
      assert SoasIn([z[0]]) == SoasIn([]) + One(z[0].IsSoa());
      NoSoaNoSerial(z[1..], keep);
    }
  }

  /** With one SOA, at the head, the first serial that can be encoded is that one. */
  lemma {:induction false} OneSoaOneSerial(z: Zone, keep: RR -> bool)
    requires z != [] && z[0].IsApexSoa() && SoasIn(z) == 1 && FirstEncodable(z, keep).Some?
    ensures FirstEncodable(z, keep) == FirstSerial(z)
  {
    OnlySoa(z);
    NoSoaNoSerial(z[1..], keep);
  }

  /** Unlike a transfer, a load that passes its checks always brings the serial it opened with. */
  lemma {:induction false} LoadBringsTheOpeningSerial(extendedZone: bool, msgs: seq<Message>, declared: nat,
      keep: RR -> bool)
    requires FedAll(extendedZone, msgs).Some? && Installable(FedAll(extendedZone, msgs).value, declared)
    requires NewSerial(FedAll(extendedZone, msgs).value, keep).Some?
    ensures var s := FedAll(extendedZone, msgs).value; NewSerial(s, keep) == Some(s.openSerial)
  {
    var s := FedAll(extendedZone, msgs).value;
    if s.soaSet.NoSet? {
      OneSoaOneSerial(s.records, keep);
      FedOpensWith(extendedZone, msgs);
    }
  }

  lemma {:induction false} FedOpensWith(extendedZone: bool, msgs: seq<Message>)
    requires FedAll(extendedZone, msgs).Some? && FedAll(extendedZone, msgs).value.finished
    ensures var s := FedAll(extendedZone, msgs).value;
      s.openOwner.Apex? && s.soaSet.NoSet? ==> FirstSerial(s.records) == Some(s.openSerial)
  {
    var w := FedSound(extendedZone, msgs);
    FedAllCounts(extendedZone, msgs);
  }

  /** All that db_zone_build_install() asks for. */
  predicate MayInstall(s: State, declared: nat, serial: Option<Serial>, rules: Zone -> bool, keep: RR -> bool) {
    && Installable(s, declared) && (s.soaSet.Announced? ==> rules(s.records))
    && NewSerial(s, keep).Some? && (serial.Some? ==> serial == NewSerial(s, keep))
  }

  lemma FedNext(extendedZone: bool, msgs: seq<Message>, m: Message)
    requires FedAll(extendedZone, msgs).Some?
    ensures FedAll(extendedZone, msgs + [m]) == Fed(extendedZone, FedAll(extendedZone, msgs).value, m)
  {
    assert (msgs + [m])[..|msgs|] == msgs;
  }

  /** The loader's zone under construction, and the entry it is installed into. */
  class ZoneBuild {
    const extendedZone: bool
    const declared: nat
    const serial: Option<Serial>
    const session: Session
    ghost var taken: seq<Message>

    ghost predicate Valid()
      reads this, session, session.list, session.list.records
    {
      session.list.Valid() && FedAll(extendedZone, taken) == Some(session.View())
    }

    constructor (extendedZone: bool, declared: nat, serial: Option<Serial>)
      ensures Valid() && taken == [] && fresh(session) && fresh(session.list) && fresh(session.list.records)
      ensures this.extendedZone == extendedZone && this.declared == declared && this.serial == serial
    {
      this.extendedZone, this.declared, this.serial := extendedZone, declared, serial;
      session := new Session(false);
      taken := [];
    }

    /** Reads one message and looks at what the parser noted about it. */
    method TakePacket(m: Message) returns (ok: bool)
      requires session.list.Valid()
      modifies session, session.list, session.list.records
      ensures session.list.Valid() && (session.list.records == old(session.list.records) || fresh(session.list.records))
      ensures Fed(extendedZone, old(session.View()), m) == if ok then Some(session.View()) else None
    {
      if session.finished { return false; }
      var parsed := session.ParsePacket(LOADER, m);
      if !parsed { return false; }
      if !extendedZone && (session.counts.extRecords > 0 || session.counts.extWrapped > 0) { return false; }
      return session.counts.outside == 0 && !session.marks.trailing;
    }

    /** db_zone_build_feed(); after a refusal the caller gives the zone up. */
    method Feed(m: Message) returns (ok: bool)
      requires Valid()
      modifies `taken, session, session.list, session.list.records
      ensures session.list.Valid() && (session.list.records == old(session.list.records) || fresh(session.list.records))
      ensures ok == Fed(extendedZone, old(session.View()), m).Some?
      ensures ok ==> Valid() && taken == old(taken) + [m]
    {
      FedNext(extendedZone, taken, m);
      ok := TakePacket(m);
      if ok { taken := taken + [m]; }
    }

    /** The SOAs among the records. */
    method CountSoas() returns (soas: nat)
      requires session.list.Valid()
      ensures soas == SoasIn(session.list.Contents())
    {
      soas := 0;
      var z := session.list.Contents();
      var k := 0;
      while k < |z|
        invariant 0 <= k <= |z| && soas == SoasIn(z[..k])
      {
        assert z[..k + 1][..k] == z[..k];
        if z[k].IsSoa() { soas := soas + 1; }
        k := k + 1;
      }
      assert z[..k] == z;
    }

    /** The count and framing checks. */
    method Complete() returns (ok: bool)
      requires session.list.Valid()
      ensures ok == Installable(session.View(), declared)
    {
      if !session.finished { return false; }
      var set_ := session.soaSet.Announced?;
      var got := session.list.count + 1 + session.counts.extRecords + if set_ then 1 else 0;
      if got != declared || !session.openOwner.Apex? { return false; }
      if !set_ && (session.list.count == 0 || !session.list.records[0].IsApexSoa()) { return false; }
      var soas := CountSoas();
      return if set_ then soas == session.soaSet.announced == session.soaSet.seen else soas == 1;
    }

    /**
     * The checks of db_zone_build_install(): the serial of the version that may be published.  The rules of a SOA set
     * and which records can be encoded are decided elsewhere.
     */
    method CheckInstall(rules: Zone -> bool, keep: RR -> bool) returns (r: Option<Serial>)
      requires Valid()
      ensures r.Some? <==> MayInstall(session.View(), declared, serial, rules, keep)
      ensures r.Some? ==> r == Some(session.openSerial) && RecordsIn(taken) == declared && (serial.Some? ==> serial == r)
    {
      var ok := Complete();
      if !ok { return None; }
      var z := session.list.Contents();
      if session.soaSet.Announced? && !rules(z) { return None; }
      var kept := Encodable(z, keep);
      FirstKept(z, keep);
      var k := 0;
      while k < |kept| && !kept[k].IsApexSoa()
        invariant 0 <= k <= |kept| && forall i :: 0 <= i < k ==> !kept[i].IsApexSoa()
      {
        k := k + 1;
      }
      ApexSoaIndexIs(kept, k);
      if k == |kept| { return None; }
      var found := if session.soaSet.Announced? then session.openSerial else kept[k].rdata.serial;
      if serial.Some? && serial.value != found { return None; }
      InstallsOnlyTheDeclared(extendedZone, taken, declared);
      LoadBringsTheOpeningSerial(extendedZone, taken, declared, keep);
      return Some(found);
    }
  }
}
