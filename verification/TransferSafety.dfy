/**
 * Rollback safety: which serial a transfer that is installed brings, whatever messages arrive, and when that is the one
 * it opened with, which is newer than the one being served.
 */
module TransferSafety {
  import opened Serials
  import opened Records
  import opened TransferParser

  function ItemRecord(item: Item): Option<RR> {
    match item
    case Plain(rr, _) => Some(rr)
    case Wrapped(_, rr, _) => Some(rr)
    case _ => None
  }

  /** The serial of the first SOA at the apex, which is what the install step reads. */
  function FirstSerial(z: Zone): Option<Serial> {
    if ApexSoaIndex(z) < |z| then Some(ApexSerial(z)) else None
  }

  /** The serial the install step gives the zone: the frame's for a SOA set, else that of the first SOA at the apex. */
  function InstalledSerial(s: State): Option<Serial> {
    if s.soaSet.Announced? then Some(s.openSerial) else FirstSerial(s.records)
  }

  lemma {:induction false} FirstSerialAppend(z: Zone, r: RR)
    ensures FirstSerial(z + [r]) ==
            if FirstSerial(z).Some? then FirstSerial(z) else if r.IsApexSoa() then Some(r.rdata.serial) else None
  {
    var k := ApexSoaIndex(z);
    if k < |z| {
      ApexSoaIndexIs(z + [r], k);
    } else {
      assert forall i :: 0 <= i < |z| ==> (z + [r])[i] == z[i];
      ApexSoaIndexIs(z + [r], if r.IsApexSoa() then |z| else |z| + 1);
    }
  }

  lemma {:induction false} ApexSoaIndexIs(z: Zone, k: nat)
    requires k <= |z| && (k < |z| ==> z[k].IsApexSoa())
    requires forall i :: 0 <= i < k ==> !z[i].IsApexSoa()
    ensures ApexSoaIndex(z) == k
  {
  }

  ghost predicate AtMostOneApexSoa(z: Zone) {
    forall i, j :: 0 <= i < j < |z| ==> !(z[i].IsApexSoa() && z[j].IsApexSoa())
  }

  /** A newer SOA at the apex is then the first one there; one below takes the only one there away. */
  lemma {:induction false} ReplaceSoaFirst(z: Zone, soa: RR)
    requires soa.IsSoa()
    ensures soa.owner.Apex? ==> FirstSerial(ReplaceSoa(z, soa)) == Some(soa.rdata.serial)
    ensures AtMostOneApexSoa(z) ==>
      AtMostOneApexSoa(ReplaceSoa(z, soa)) && (!soa.owner.Apex? ==> FirstSerial(ReplaceSoa(z, soa)) == None)
  {
    var k := ApexSoaIndex(z);
    var y := ReplaceSoa(z, soa);
    if soa.owner.Apex? {
      ApexSoaIndexIs(y, k);
    } else if AtMostOneApexSoa(z) {
      assert forall i :: 0 <= i < |z| && i != k ==> !z[i].IsApexSoa() by {
        forall i | 0 <= i < |z| && i != k ensures !z[i].IsApexSoa() {
          if k < i { assert z[k].IsApexSoa(); }
        }
      }
      ApexSoaIndexIs(y, |y|);
    }
  }

  lemma {:induction false} DeleteKeepsOne(z: Zone, rr: RR)
    requires AtMostOneApexSoa(z)
    ensures AtMostOneApexSoa(Delete(z, rr))
  {
    var k := MatchIndex(z, rr);
    if k < |z| {
      var y, n := TakeOut(z, k), |z| - 1;
      forall i, j | 0 <= i < j < |y| ensures !(y[i].IsApexSoa() && y[j].IsApexSoa()) {
        var i', j' := if i == k then n else i, if j == k then n else j;
        assert y[i] == z[i'] && y[j] == z[j'];
        assert i' < j' ==> !(z[i'].IsApexSoa() && z[j'].IsApexSoa());
        assert j' < i' ==> !(z[j'].IsApexSoa() && z[i'].IsApexSoa());
      }
    }
  }

  // ---- what can be encoded ----

  /** The records that the image builder can write; the others are dropped. */
  function Encodable(z: Zone, keep: RR -> bool): Zone {
    if z == [] then [] else (if keep(z[0]) then [z[0]] else []) + Encodable(z[1..], keep)
  }

  /** The serial of the first SOA at the apex that can be encoded. */
  function FirstEncodable(z: Zone, keep: RR -> bool): Option<Serial> {
    if z == [] then None
    else if z[0].IsApexSoa() && keep(z[0]) then Some(z[0].rdata.serial)
    else FirstEncodable(z[1..], keep)
  }

  /** What is left when the others are dropped has that serial first. */
  lemma {:induction false} FirstKept(z: Zone, keep: RR -> bool)
    ensures FirstSerial(Encodable(z, keep)) == FirstEncodable(z, keep)
    decreases |z|
  {
    if z != [] {
      FirstKept(z[1..], keep);
      var rest := Encodable(z[1..], keep);
      if keep(z[0]) {
        assert Encodable(z, keep) == [z[0]] + rest && ([z[0]] + rest)[1..] == rest;
      } else {
        assert Encodable(z, keep) == rest;
      }
    }
  }

  lemma {:induction false} AllEncodable(z: Zone, keep: RR -> bool)
    requires forall r :: r in z && r.IsApexSoa() ==> keep(r)
    ensures FirstEncodable(z, keep) == FirstSerial(z)
    decreases |z|
  {
    if z != [] {
      if z[0].IsApexSoa() {
        assert z[0] in z;
      } else {
        forall r | r in z[1..] && r.IsApexSoa() ensures keep(r) { assert r in z; }
        AllEncodable(z[1..], keep);
      }
    }
  }

  // ---- what the stream has shown ----

  /** The serial of the first SOA at the apex in the stream, and the newer SOA of the last difference read. */
  datatype Seen = Seen(first: Option<Serial>, newer: Option<RR>)

  const NOTHING := Seen(None, None)

  function See(s: State, item: Item, w: Seen): Seen {
    var r := ItemRecord(item);
    if r.None? || !r.value.IsSoa() then w
    else
      Seen(if w.first.None? && r.value.owner.Apex? then Some(r.value.rdata.serial) else w.first,
           if s.ixfr && s.deleting then r else w.newer)
  }

  /** Along the records of a message from number i on. */
  function SeeFrom(env: Env, s: State, items: seq<Item>, i: nat, w: Seen): Seen
    requires i <= |items|
    decreases |items| - i
  {
    if i == |items| then w
    else
      var (t, v) := Step(env, s, items[i], |items| == 1, i == |items| - 1);
      if v == Next then SeeFrom(env, t, items, i + 1, See(s, items[i], w)) else See(s, items[i], w)
  }

  /** Along the messages, as far as they are read. */
  function SeeStream(env: Env, s: State, msgs: seq<Message>, w: Seen): Seen
    decreases |msgs|
  {
    if msgs == [] || s.finished then w
    else
      var (t, ok) := ParseMessage(env, s, msgs[0]);
      if !ok then w
      else SeeStream(env, t, msgs[1..], SeeFrom(env, ReadOptions(s, msgs[0]), msgs[0].items, 0, w))
  }

  // ---- what every reachable session keeps ----

  ghost predicate UpToDate(env: Env, s: State) {
    s.finished && s.records == [] && s.openSerial == env.clientSerial
  }

  ghost predicate Sound(env: Env, s: State, w: Seen) {
    if s.soaCount == 0 then
      !s.finished && s.soaSet.NoSet? && !s.deleting && w == NOTHING && FirstSerial(s.records) == None
    else
      && (env.clientSerial != 0 ==> Newer(s.openSerial, env.clientSerial))
      && if s.ixfr && s.soaCount >= 2 then IncrementalSound(env, s, w) else FullSound(s, w)
  }

  ghost predicate OneApexSoaServed(env: Env) {
    env.active.Some? ==> AtMostOneApexSoa(env.active.value)
  }

  ghost predicate IncrementalSound(env: Env, s: State, w: Seen) {
    && (s.soaCount == 2 ==> s.deleting)
    && (s.finished ==> !s.deleting && s.expectedSerial == s.openSerial)
    && (OneApexSoaServed(env) && s.soaSet.NoSet? ==> AtMostOneApexSoa(s.records))
    && (!s.deleting ==> NewerSound(env, s, w))
  }

  ghost predicate NewerSound(env: Env, s: State, w: Seen) {
    && w.newer.Some? && w.newer.value.IsSoa() && w.newer.value.rdata.serial == s.expectedSerial && s.records != []
    && (w.newer.value.owner.Apex? ==> FirstSerial(s.records) == Some(s.expectedSerial))
    && (OneApexSoaServed(env) && s.soaSet.NoSet? && !w.newer.value.owner.Apex? ==> FirstSerial(s.records) == None)
  }

  ghost predicate FullSound(s: State, w: Seen) {
    && (s.soaSet.NoSet? ==> s.records != [] && FirstSerial(s.records) == w.first)
    && (s.soaSet.Announced? ==> s.soaSet.announced > 0 && s.soaSet.seen <= |s.records|)
    && (s.soaSet.Announced? && s.finished ==> s.soaSet.seen == s.soaSet.announced)
    && (s.openOwner.Apex? ==> w.first == Some(s.openSerial))
    && (s.soaCount == 1 ==> !s.finished)
    && (s.ixfr ==> s.soaCount == 1)
    && !s.deleting
  }

  /** What a step from a sound session leads to. */
  ghost predicate SoundAfter(env: Env, r: (State, Verdict), w: Seen) {
    (r.1 == Stop ==> UpToDate(env, r.0)) && (r.1 == Next ==> Sound(env, r.0, w))
  }

  function SeeSoa(s: State, soa: RR, w: Seen): Seen
    requires soa.IsSoa()
  {
    Seen(if w.first.None? && soa.owner.Apex? then Some(soa.rdata.serial) else w.first,
         if s.ixfr && s.deleting then Some(soa) else w.newer)
  }

  lemma {:induction false} OpeningSoaSound(env: Env, s: State, soa: RR, only: bool, w: Seen)
    requires soa.IsSoa() && s.soaCount == 1 && Sound(env, s.(soaCount := 0), w)
    ensures SoundAfter(env, OpeningSoa(env, s, soa, only), SeeSoa(s, soa, w))
  {
    FirstSerialAppend(s.records, soa);
  }

  lemma {:induction false} DifferenceSoaSound(env: Env, s: State, soa: RR, w: Seen)
    requires soa.IsSoa() && s.ixfr && s.soaCount >= 2 && Sound(env, s.(soaCount := s.soaCount - 1), w)
    ensures DifferenceSoa(env, s, soa).1 != Stop && SoundAfter(env, DifferenceSoa(env, s, soa), SeeSoa(s, soa, w))
  {
    ReplaceSoaFirst(s.records, soa);
  }

  lemma {:induction false} LaterSoaSound(env: Env, s: State, soa: RR, last: bool, w: Seen)
    requires soa.IsSoa() && !s.ixfr && s.soaCount >= 2 && Sound(env, s.(soaCount := s.soaCount - 1), w)
    ensures LaterSoa(s, soa, last).1 != Stop && SoundAfter(env, LaterSoa(s, soa, last), SeeSoa(s, soa, w))
  {
    FirstSerialAppend(s.records, soa);
  }

  lemma {:induction false} DataStepSound(env: Env, s: State, rr: RR, w: Seen)
    requires rr.rdata.Other? && Sound(env, s, w)
    ensures Sound(env, DataStep(s, rr), w)
  {
    FirstSerialAppend(s.records, rr);
    if s.ixfr && s.soaCount >= 2 && OneApexSoaServed(env) && s.soaSet.NoSet? {
      DeleteKeepsOne(s.records, rr);
      assert AtMostOneApexSoa(s.records + [rr]);
    }
  }

  lemma {:induction false} BodySoaSound(env: Env, s: State, rr: RR, w: Seen)
    requires Sound(env, s, w) && rr.IsSoa() && s.soaSet.Announced?
    ensures SoundAfter(env, BodySoaStep(s, rr), SeeSoa(s, rr, w))
  {
    FirstSerialAppend(s.records, rr);
  }

  lemma {:induction false} SoaStepSound(env: Env, s: State, soa: RR, only: bool, last: bool, w: Seen)
    requires soa.IsSoa() && Sound(env, s, w)
    ensures SoundAfter(env, SoaStep(env, s.(soaCount := s.soaCount + 1), soa, only, last), SeeSoa(s, soa, w))
  {
    var t := s.(soaCount := s.soaCount + 1);
    assert t.(soaCount := t.soaCount - 1) == s;
    if t.soaCount == 1 { OpeningSoaSound(env, t, soa, only, w); }
    else if t.ixfr { DifferenceSoaSound(env, t, soa, w); }
    else { LaterSoaSound(env, t, soa, last, w); }
  }

  lemma {:induction false} OutsideSound(env: Env, s: State, rr: RR, w: Seen)
    requires Sound(env, s, w)
    ensures SoundAfter(env, OutsideStep(s, rr), w)
  {
    CountsAreImmaterial(env, s, OutsideStep(s, rr).0.counts, w);
  }

  lemma {:induction false} RecordStepSound(env: Env, s: State, rr: RR, c: nat, wrapped: bool, only: bool, last: bool,
      w: Seen)
    requires Sound(env, s, w)
    ensures SoundAfter(env, RecordStep(env, s, rr, c, wrapped, only, last), if rr.IsSoa() then SeeSoa(s, rr, w) else w)
  {
    var r := RecordStep(env, s, rr, c, wrapped, only, last);
    if c != CLASS_IN || rr.rdata.UndecodedSoa? {
      assert r.1 == Reject;
    } else if rr.owner.Outside? {
      assert r == OutsideStep(s, rr);
      OutsideSound(env, s, rr, w);
    } else if rr.rdata.Other? {
      assert r == (DataStep(s, rr), Next);
      DataStepSound(env, s, rr, w);
    } else if wrapped && s.soaSet.Announced? {
      assert r == BodySoaStep(s, rr);
      BodySoaSound(env, s, rr, w);
    } else {
      assert r == SoaStep(env, s.(soaCount := s.soaCount + 1), rr, only, last);
      SoaStepSound(env, s, rr, only, last, w);
    }
  }

  lemma {:induction false} CountsAreImmaterial(env: Env, s: State, c: Counts, w: Seen)
    requires Sound(env, s, w)
    ensures Sound(env, s.(counts := c), w)
  {
  }

  lemma {:induction false} MarkerSound(env: Env, s: State, item: Item, only: bool, last: bool, w: Seen)
    requires Sound(env, s, w) && (item.SoaSetMarker? || item.Marker?)
    ensures SoundAfter(env, Step(env, s, item, only, last), See(s, item, w))
  {
    CountsAreImmaterial(env, s, CountExt(s).counts, w);
  }

  lemma {:induction false} WrappedSound(env: Env, s: State, d: bool, rr: RR, c: nat, only: bool, last: bool, w: Seen)
    requires Sound(env, s, w)
    ensures SoundAfter(env, Step(env, s, Wrapped(d, rr, c), only, last), See(s, Wrapped(d, rr, c), w))
  {
    if !(env.loader && !d) {
      var t := s.(counts := s.counts.(extWrapped := s.counts.extWrapped + 1));
      assert Sound(env, t, w) by { CountsAreImmaterial(env, s, t.counts, w); }
      assert Step(env, s, Wrapped(d, rr, c), only, last) == RecordStep(env, t, rr, c, d && rr.IsSoa(), only, last);
      RecordStepSound(env, t, rr, c, d && rr.IsSoa(), only, last, w);
    }
  }

  lemma {:induction false} PlainSound(env: Env, s: State, rr: RR, c: nat, only: bool, last: bool, w: Seen)
    requires Sound(env, s, w)
    ensures SoundAfter(env, Step(env, s, Plain(rr, c), only, last), See(s, Plain(rr, c), w))
  {
    RecordStepSound(env, s, rr, c, false, only, last, w);
  }

  lemma {:induction false} StepSound(env: Env, s: State, item: Item, only: bool, last: bool, w: Seen)
    requires Sound(env, s, w)
    ensures SoundAfter(env, Step(env, s, item, only, last), See(s, item, w))
  {
    match item
    case Plain(rr, c) => PlainSound(env, s, rr, c, only, last, w);
    case Wrapped(d, rr, c) => WrappedSound(env, s, d, rr, c, only, last, w);
    case Undecodable =>
    case _ => MarkerSound(env, s, item, only, last, w);
  }

  lemma {:induction false} ParseFromSound(env: Env, s: State, items: seq<Item>, i: nat, w: Seen)
    requires i <= |items| && Sound(env, s, w)
    ensures var (t, ok) := ParseFrom(env, s, items, i);
      ok ==> UpToDate(env, t) || Sound(env, t, SeeFrom(env, s, items, i, w))
    decreases |items| - i
  {
    if i < |items| {
      StepSound(env, s, items[i], |items| == 1, i == |items| - 1, w);
      var (t, v) := Step(env, s, items[i], |items| == 1, i == |items| - 1);
      if v == Next { ParseFromSound(env, t, items, i + 1, See(s, items[i], w)); }
    }
  }

  lemma {:induction false} OptionsAreImmaterial(env: Env, s: State, m: Message, w: Seen)
    requires Sound(env, s, w)
    ensures Sound(env, ReadOptions(s, m), w)
  {
  }

  lemma {:induction false} ParseStreamSound(env: Env, s: State, msgs: seq<Message>, w: Seen)
    requires UpToDate(env, s) || Sound(env, s, w)
    ensures var (t, ok) := ParseStream(env, s, msgs);
      ok ==> UpToDate(env, t) || Sound(env, t, SeeStream(env, s, msgs, w))
    decreases |msgs|
  {
    if msgs != [] && !s.finished {
      OptionsAreImmaterial(env, s, msgs[0], w);
      ParseFromSound(env, ReadOptions(s, msgs[0]), msgs[0].items, 0, w);
      var (t, ok) := ParseMessage(env, s, msgs[0]);
      if ok { ParseStreamSound(env, t, msgs[1..], SeeFrom(env, ReadOptions(s, msgs[0]), msgs[0].items, 0, w)); }
    }
  }

  // ---- the theorem ----

  /**
   * The condition under which the opening serial is installed: a SOA set was announced; or the first SOA at the apex in
   * a full transfer has the opening serial; or the newer SOA of the last difference of an incremental one is at the apex.
   */
  ghost predicate OpensForTheApex(t: State, w: Seen) {
    || t.soaSet.Announced?
    || (!t.ixfr && w.first == Some(t.openSerial))
    || (t.ixfr && w.newer.Some? && w.newer.value.owner.Apex?)
  }

  /**
   * Whatever messages arrive: a transfer that ends with records opened with a serial that is newer than ours, if we have
   * one, and one that ends with no records ("up to date") with our own.  What is installed is the opening serial if and
   * only if the stream opens for the apex; of an incremental transfer the second half is said when the version it is
   * applied to has no two SOAs at the apex, as every published version.
   */
  lemma {:induction false} NoRollback(env: Env, ixfr: bool, msgs: seq<Message>)
    requires var (t, ok) := ParseStream(env, Start(ixfr), msgs); ok && t.finished
    ensures var t := ParseStream(env, Start(ixfr), msgs).0;
      && (t.records == [] ==> t.openSerial == env.clientSerial)
      && (env.clientSerial != 0 ==> (t.records != [] <==> Newer(t.openSerial, env.clientSerial)))
    ensures var t := ParseStream(env, Start(ixfr), msgs).0; var w := SeeStream(env, Start(ixfr), msgs, NOTHING);
      t.records != [] ==>
        && (OpensForTheApex(t, w) ==> InstalledSerial(t) == Some(t.openSerial))
        && (!t.ixfr || OneApexSoaServed(env) ==> (InstalledSerial(t) == Some(t.openSerial) ==> OpensForTheApex(t, w)))
  {
    ParseStreamSound(env, Start(ixfr), msgs, NOTHING);
  }

  /** A full transfer that opens with a SOA at the apex opens for the apex, whatever SOAs stand below it. */
  lemma {:induction false} ApexFrameIsSafe(env: Env, ixfr: bool, msgs: seq<Message>)
    requires var (t, ok) := ParseStream(env, Start(ixfr), msgs);
      ok && t.finished && t.records != [] && !t.ixfr && t.openOwner.Apex?
    ensures var t := ParseStream(env, Start(ixfr), msgs).0; InstalledSerial(t) == Some(t.openSerial)
  {
    ParseStreamSound(env, Start(ixfr), msgs, NOTHING);
  }

  /**
   * The condition is needed: a stream framed by a SOA below the apex installs the serial of an apex SOA
   * in its body, here one older than ours.
   */
  lemma FrameBelowApexRollsBack()
    ensures
      var frame := Plain(RR(Below(1), 0, Soa(9, 1, 1, 1, 0)), CLASS_IN);
      var body := Plain(RR(Apex, 0, Soa(2, 1, 1, 1, 0)), CLASS_IN);
      var (t, ok) := ParseStream(Env(5, None, false), Start(false), [Message(true, [frame, body, frame], None, false)]);
      ok && t.finished && InstalledSerial(t) == Some(2) && Newer(5, 2)
  {
    var frame := Plain(RR(Below(1), 0, Soa(9, 1, 1, 1, 0)), CLASS_IN);
    var body := Plain(RR(Apex, 0, Soa(2, 1, 1, 1, 0)), CLASS_IN);
    var m := Message(true, [frame, body, frame], None, false);
    var env, s0 := Env(5, None, false), Start(false);
    var s1 := Step(env, s0, frame, false, false).0;
    var s2 := Step(env, s1, body, false, false).0;
    var s3 := Step(env, s2, frame, false, true).0;
    assert ParseFrom(env, s1, m.items, 1) == ParseFrom(env, s3, m.items, 3);
    assert ParseFrom(env, s0, m.items, 0) == ParseFrom(env, s1, m.items, 1);
    assert [m][1..] == [];
    ApexSoaIndexIs(s3.records, 1);
  }
}
