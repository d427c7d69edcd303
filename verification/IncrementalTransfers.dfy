/**
 * What any stream of messages must have shown before it is taken as differences: a version to apply them to, and a
 * chain of serials from ours to the opening one.
 */
module IncrementalTransfers {
  import opened Serials
  import opened Records
  import opened TransferParser
  import opened MessageCuts
  import opened TransferContent
  import opened FullTransfers

  // ---- the serials of a stream ----

  predicate Counts(before: seq<Item>, item: Item) {
    InsideSoa(item) && !OfTheSet(before, item)
  }

  /** The serials of the SOAs in the order they came, but not of those in a SOA set. */
  function SoaSerials(items: seq<Item>): seq<Serial> {
    if items == [] then []
    else
      var front, last := items[..|items| - 1], items[|items| - 1];
      SoaSerials(front) + if Counts(front, last) then [last.rr.rdata.serial] else []
  }

  /**
   * After the opening serial, the serials are the old and the new one of each difference in turn: the first starts at
   * ours, and each further one where the one before it ended.
   */
  ghost predicate IsChain(ss: seq<Serial>, ours: Serial) {
    && (|ss| > 1 ==> ss[1] == ours)
    && forall i, j :: 2 <= i < j < |ss| && j == i + 1 && i % 2 == 0 ==> ss[j] == ss[i]
  }

  /** The opening serial comes again where the next difference would start: the chain has reached it. */
  ghost predicate Reaches(ss: seq<Serial>, ours: Serial) {
    |ss| >= 4 && |ss| % 2 == 0 && IsChain(ss, ours) && ss[|ss| - 1] == ss[0]
  }

  ghost predicate HasReached(ss: seq<Serial>, ours: Serial) {
    exists n :: 0 <= n <= |ss| && Reaches(ss[..n], ours)
  }

  // ---- a session ----

  /** The session has seen these serials. */
  ghost predicate Seen(s: State, ss: seq<Serial>) {
    s.soaCount == |ss| && (ss != [] ==> s.openSerial == ss[0])
  }

  /** What an incremental session has made of them. */
  ghost predicate Follows(env: Env, s: State, ss: seq<Serial>) {
    s.ixfr && |ss| > 1 ==>
      && env.active.Some?
      && (!s.finished ==>
            && IsChain(ss, env.clientSerial) && (s.deleting <==> |ss| % 2 == 0)
            && (|ss| % 2 == 1 ==> s.expectedSerial == ss[|ss| - 1]))
      && (s.finished ==> HasReached(ss, env.clientSerial) && !s.deleting && s.expectedSerial == s.openSerial)
  }

  ghost predicate On(env: Env, s: State, items: seq<Item>) {
    && Seen(s, SoaSerials(items)) && Follows(env, s, SoaSerials(items))
    && (s.soaSet.Announced? <==> SetSize(items).Some?) && (s.finished ==> s.soaCount > 1)
  }

  lemma {:induction false} OneSerialMore(before: seq<Item>, item: Item)
    ensures SoaSerials(before + [item]) ==
      SoaSerials(before) + if Counts(before, item) then [item.rr.rdata.serial] else []
  {
    assert (before + [item])[..|before|] == before;
  }

  ghost predicate GoesOn(env: Env, r: (State, Verdict), items: seq<Item>) {
    r.1 == Next ==> On(env, r.0, items)
  }

  /** Without a further serial. */
  lemma {:induction false} SameSerials(env: Env, s: State, t: State, before: seq<Item>, item: Item)
    requires On(env, s, before) && !Counts(before, item) && !item.SoaSetMarker?
    requires t.soaCount == s.soaCount && t.openSerial == s.openSerial && (t.soaSet.Announced? <==> s.soaSet.Announced?)
    requires t.finished == s.finished && (t.ixfr ==> s.ixfr) && t.deleting == s.deleting && t.expectedSerial == s.expectedSerial
    ensures On(env, t, before + [item])
  {
    OneSerialMore(before, item);
    OneMoreRead(before, item);
    assert SoaSerials(before) + [] == SoaSerials(before);
  }

  lemma {:induction false} ChainGrows(ss: seq<Serial>, serial: Serial, ours: Serial)
    requires IsChain(ss, ours) && (|ss| == 1 ==> serial == ours)
    requires |ss| >= 3 && |ss| % 2 == 1 ==> serial == ss[|ss| - 1]
    ensures IsChain(ss + [serial], ours)
  {
  }

  lemma {:induction false} ReachedGrows(ss: seq<Serial>, serial: Serial, ours: Serial)
    requires HasReached(ss, ours)
    ensures HasReached(ss + [serial], ours)
  {
    var n :| 0 <= n <= |ss| && Reaches(ss[..n], ours);
    assert (ss + [serial])[..n] == ss[..n];
  }

  lemma {:induction false} DifferenceGoesOn(env: Env, s: State, before: seq<Item>, item: Item)
    requires On(env, s, before) && Counts(before, item) && s.ixfr && s.soaCount > 0
    ensures GoesOn(env, DifferenceSoa(env, s.(soaCount := s.soaCount + 1), item.rr), before + [item])
  {
    var ss, serial := SoaSerials(before), item.rr.rdata.serial;
    var more := ss + [serial];
    OneSerialMore(before, item);
    OneMoreRead(before, item);
    var (t, v) := DifferenceSoa(env, s.(soaCount := s.soaCount + 1), item.rr);
    if v == Next {
      if s.finished {
        ReachedGrows(ss, serial, env.clientSerial);
      } else {
        ChainGrows(ss, serial, env.clientSerial);
        assert more[..|more|] == more;
      }
    }
  }

  /**
   * While the transfer is not over, a SOA is refused as out of sequence exactly when its serial breaks the chain, and
   * otherwise only when there is no version to apply differences to.
   */
  lemma {:induction false} RefusedExactly(env: Env, s: State, before: seq<Item>, item: Item)
    requires On(env, s, before) && Counts(before, item) && s.ixfr && s.soaCount > 0 && !s.finished && !s.marks.badSequence
    ensures var (t, v) := DifferenceSoa(env, s.(soaCount := s.soaCount + 1), item.rr);
      var broken := !IsChain(SoaSerials(before) + [item.rr.rdata.serial], env.clientSerial);
      && v != Stop && (t.marks.badSequence <==> broken)
      && (v == Reject <==> broken || (s.soaCount == 1 && env.active.None?))
  {
    ChainBroken(SoaSerials(before), item.rr.rdata.serial, env.clientSerial);
  }

  lemma {:induction false} ChainBroken(ss: seq<Serial>, serial: Serial, ours: Serial)
    requires IsChain(ss, ours) && ss != []
    ensures IsChain(ss + [serial], ours) <==>
      (|ss| == 1 ==> serial == ours) && (|ss| >= 3 && |ss| % 2 == 1 ==> serial == ss[|ss| - 1])
  {
    var more, n := ss + [serial], |ss|;
    assert forall i :: 0 <= i < n ==> more[i] == ss[i];
    if n >= 3 && n % 2 == 1 && serial != ss[n - 1] { assert more[n] != more[n - 1]; }
    if (n == 1 ==> serial == ours) && (n >= 3 && n % 2 == 1 ==> serial == ss[n - 1]) { ChainGrows(ss, serial, ours); }
  }

  /** One serial more in a session that has not started differences, or is a full transfer. */
  lemma {:induction false} NotFollowing(env: Env, s: State, t: State, before: seq<Item>, item: Item)
    requires On(env, s, before) && Counts(before, item)
    requires t.soaCount == s.soaCount + 1 && (t.soaSet.Announced? <==> s.soaSet.Announced?) && (!t.ixfr || t.soaCount == 1)
    requires t.openSerial == if s.soaCount == 0 then item.rr.rdata.serial else s.openSerial
    requires t.finished ==> t.soaCount > 1
    ensures On(env, t, before + [item])
  {
    OneSerialMore(before, item);
    OneMoreRead(before, item);
  }

  lemma {:induction false} OtherSoaGoesOn(env: Env, s: State, before: seq<Item>, item: Item, only: bool, last: bool)
    requires On(env, s, before) && Counts(before, item) && (s.soaCount == 0 || !s.ixfr)
    ensures GoesOn(env, SoaStep(env, s.(soaCount := s.soaCount + 1), item.rr, only, last), before + [item])
  {
    var r := SoaStep(env, s.(soaCount := s.soaCount + 1), item.rr, only, last);
    if r.1 == Next { NotFollowing(env, s, r.0, before, item); }
  }

  /**
   * A record that brings no serial changes nothing that a chain depends on; it can only make the transfer a full one.
   */
  ghost predicate KeepsSerials(s: State, r: (State, Verdict)) {
    r.1 == Next ==>
      && r.0.soaCount == s.soaCount && r.0.openSerial == s.openSerial && (r.0.soaSet.Announced? <==> s.soaSet.Announced?)
      && r.0.finished == s.finished && (r.0.ixfr ==> s.ixfr) && r.0.deleting == s.deleting
      && r.0.expectedSerial == s.expectedSerial
  }

  lemma {:induction false} OtherKeepsSerials(env: Env, s: State, rr: RR, c: nat, w: bool, only: bool, last: bool)
    requires rr.IsSoa() && !rr.owner.Outside? ==> w && s.soaSet.Announced?
    ensures KeepsSerials(s, RecordStep(env, s, rr, c, w, only, last))
  {
    var r := RecordStep(env, s, rr, c, w, only, last);
    if c != CLASS_IN {
      assert r.1 == Reject;
    } else if rr.owner.Outside? {
      assert r == OutsideStep(s, rr);
    } else if rr.IsSoa() {
      assert r == BodySoaStep(s, rr);
    } else if rr.rdata.Other? {
      assert r == (DataStep(s, rr), Next);
    } else {
      assert r.1 == Reject;
    }
  }

  lemma {:induction false} RecordGoesOn(env: Env, s: State, before: seq<Item>, item: Item, only: bool, last: bool)
    requires On(env, s, before) && IsRecord(item)
    ensures var w := item.Wrapped? && item.decoded && item.rr.IsSoa();
      GoesOn(env, RecordStep(env, s, item.rr, item.class_, w, only, last), before + [item])
  {
    var w := item.Wrapped? && item.decoded && item.rr.IsSoa();
    var r := RecordStep(env, s, item.rr, item.class_, w, only, last);
    if !Counts(before, item) {
      OtherKeepsSerials(env, s, item.rr, item.class_, w, only, last);
      if r.1 == Next { SameSerials(env, s, r.0, before, item); }
    } else if item.class_ == CLASS_IN {
      assert r == SoaStep(env, s.(soaCount := s.soaCount + 1), item.rr, only, last);
      if s.soaCount > 0 && s.ixfr {
        DifferenceGoesOn(env, s, before, item);
      } else {
        OtherSoaGoesOn(env, s, before, item, only, last);
      }
    }
  }

  lemma {:induction false} StepGoesOn(env: Env, s: State, before: seq<Item>, item: Item, only: bool, last: bool)
    requires On(env, s, before)
    ensures GoesOn(env, Step(env, s, item, only, last), before + [item])
  {
    match item
    case Undecodable =>
    case Plain(_, _) => RecordGoesOn(env, s, before, item, only, last);
    case Wrapped(d, rr, c) =>
      var u := s.(counts := s.counts.(extWrapped := s.counts.extWrapped + 1));
      if !(env.loader && !d) {
        assert Step(env, s, item, only, last) == RecordStep(env, u, rr, c, d && rr.IsSoa(), only, last);
        RecordGoesOn(env, u, before, item, only, last);
      }
    case Marker(_, _) =>
      SameSerials(env, s, CountExt(s), before, item);
    case SoaSetMarker(_, _) =>
      OneSerialMore(before, item);
      OneMoreRead(before, item);
  }

  // ---- messages and streams ----

  ghost predicate LeadsOn(env: Env, r: (State, bool), items: seq<Item>) {
    r.1 && !Nothing(r.0) ==> On(env, r.0, items)
  }

  lemma {:induction false} MessageGoesOn(env: Env, s: State, items: seq<Item>, i: nat, before: seq<Item>)
    requires On(env, s, before) && i <= |items|
    ensures LeadsOn(env, ParseFrom(env, s, items, i), before + items[i..])
    decreases |items| - i
  {
    if i == |items| {
      assert before + items[i..] == before;
    } else {
      var only, last := |items| == 1, i == |items| - 1;
      var (t, v) := Step(env, s, items[i], only, last);
      assert GoesOn(env, (t, v), before + [items[i]]) by { StepGoesOn(env, s, before, items[i], only, last); }
      ParseOne(env, s, items, i);
      if v == Next {
        MessageGoesOn(env, t, items, i + 1, before + [items[i]]);
        OneOn(before, items, i);
      } else if v == Stop {
        StopIsNothing(env, s, items[i], only, last);
      }
    }
  }

  lemma {:induction false} RecordStops(env: Env, s: State, rr: RR, c: nat, w: bool, only: bool, last: bool)
    ensures var (t, v) := RecordStep(env, s, rr, c, w, only, last); v == Stop ==> Nothing(t)
  {
    if c == CLASS_IN && !rr.owner.Outside? && rr.IsSoa() && !(w && s.soaSet.Announced?) {
      assert RecordStep(env, s, rr, c, w, only, last) == SoaStep(env, s.(soaCount := s.soaCount + 1), rr, only, last);
    }
  }

  lemma {:induction false} StopIsNothing(env: Env, s: State, item: Item, only: bool, last: bool)
    ensures var (t, v) := Step(env, s, item, only, last); v == Stop ==> Nothing(t)
  {
    match item
    case Plain(rr, c) => RecordStops(env, s, rr, c, false, only, last);
    case Wrapped(d, rr, c) =>
      var u := s.(counts := s.counts.(extWrapped := s.counts.extWrapped + 1));
      if !(env.loader && !d) {
        assert Step(env, s, item, only, last) == RecordStep(env, u, rr, c, d && rr.IsSoa(), only, last);
        RecordStops(env, u, rr, c, d && rr.IsSoa(), only, last);
      }
    case _ =>
  }

  lemma {:induction false} FirstGoesOn(env: Env, s: State, m: Message, read: seq<Item>)
    requires On(env, s, read)
    ensures LeadsOn(env, ParseMessage(env, s, m), read + m.items)
  {
    var u := ReadOptions(s, m);
    assert On(env, u, read);
    MessageGoesOn(env, u, m.items, 0, read);
    assert m.items[0..] == m.items;
  }

  lemma {:induction false} StreamGoesOn(env: Env, s: State, msgs: seq<Message>, read: seq<Item>) returns (k: nat)
    requires On(env, s, read) && !s.finished
    ensures k <= |msgs| && LeadsOn(env, ParseStream(env, s, msgs), read + Concat(msgs[..k]))
    decreases |msgs|
  {
    k := 0;
    if msgs == [] {
      assert read + Concat(msgs[..0]) == read;
    } else {
      FirstGoesOn(env, s, msgs[0], read);
      var (t, ok) := ParseMessage(env, s, msgs[0]);
      if ok && !t.finished {
        var j := StreamGoesOn(env, t, msgs[1..], read + msgs[0].items);
        FirstMessages(msgs, read, j + 1);
        k := j + 1;
      } else {
        OneMessage(msgs, read);
        k := 1;
      }
    }
  }

  lemma {:induction false} OneMessage(msgs: seq<Message>, read: seq<Item>)
    requires msgs != []
    ensures read + Concat(msgs[..1]) == read + msgs[0].items
  {
    FirstMessages(msgs, read, 1);
    assert msgs[1..][..0] == [];
  }

  /**
   * Whatever messages arrive, a transfer that is taken as differences had a version to apply them to, and its SOAs
   * showed a chain of serials, old and new in turn, from ours to the serial it opened with.
   */
  lemma {:induction false} TakenIsChain(env: Env, msgs: seq<Message>) returns (k: nat)
    requires var (t, ok) := ParseStream(env, Start(true), msgs); ok && t.finished && t.ixfr && t.records != []
    ensures k <= |msgs| && env.active.Some?
    ensures var t, ss := ParseStream(env, Start(true), msgs).0, SoaSerials(Concat(msgs[..k]));
      HasReached(ss, env.clientSerial) && ss != [] && ss[0] == t.openSerial
  {
    k := StreamGoesOn(env, Start(true), msgs, []);
    assert [] + Concat(msgs[..k]) == Concat(msgs[..k]);
  }
}
