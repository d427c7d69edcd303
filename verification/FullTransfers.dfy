/**
 * Exactly which streams a full transfer accepts and what it makes of them, with SOA sets, wrapped records and markers:
 * each record is judged by the records before it.
 */
module FullTransfers {
  import opened Serials
  import opened Records
  import opened TransferParser
  import opened MessageCuts
  import opened TransferContent

  // ---- what the records read so far amount to ----

  /** The size that was announced for the SOA set. */
  function SetSize(items: seq<Item>): Option<nat> {
    if items == [] then None
    else
      var size, last := SetSize(items[..|items| - 1]), items[|items| - 1];
      if size.None? && last.SoaSetMarker? then Some(last.announced) else size
  }

  predicate InsideSoa(item: Item) {
    InsideRecord(item) && item.rr.IsSoa()
  }

  /** A SOA of the announced set comes wrapped. */
  predicate OfTheSet(before: seq<Item>, item: Item) {
    SetSize(before).Some? && item.Wrapped? && item.decoded && InsideSoa(item)
  }

  function SetSeen(items: seq<Item>): nat {
    if items == [] then 0
    else
      var front, last := items[..|items| - 1], items[|items| - 1];
      SetSeen(front) + if OfTheSet(front, last) then 1 else 0
  }

  /** The other SOAs of the zone. */
  function SoasRead(items: seq<Item>): nat {
    if items == [] then 0
    else
      var front, last := items[..|items| - 1], items[|items| - 1];
      SoasRead(front) + if InsideSoa(last) && !OfTheSet(front, last) then 1 else 0
  }

  /** The record repeats the opening SOA, which ends the transfer. */
  predicate Closing(before: seq<Item>, item: Item) {
    InsideSoa(item) && !OfTheSet(before, item) && Repeats(FirstSoa(before), item.rr)
  }

  predicate Closed(items: seq<Item>) {
    items != [] && (Closed(items[..|items| - 1]) || Closing(items[..|items| - 1], items[|items| - 1]))
  }

  /** The records of the zone in order, but not those that close it, nor the opening SOA when it frames a SOA set. */
  function Kept(items: seq<Item>): Zone {
    if items == [] then []
    else
      var front, last := items[..|items| - 1], items[|items| - 1];
      if last.SoaSetMarker? then []
      else Kept(front) + if InsideRecord(last) && !Closing(front, last) then [last.rr] else []
  }

  function Extensions(items: seq<Item>): nat {
    if items == [] then 0
    else
      var last := items[|items| - 1];
      Extensions(items[..|items| - 1]) + if last.Marker? || last.SoaSetMarker? then 1 else 0
  }

  function WrappedOnes(items: seq<Item>): nat {
    if items == [] then 0 else WrappedOnes(items[..|items| - 1]) + if items[|items| - 1].Wrapped? then 1 else 0
  }

  // ---- which record may come next ----

  /** The opening SOA is the only record of the zone so far. */
  predicate OnlyTheOpening(before: seq<Item>) {
    SoasRead(before) == 1 && |Kept(before)| == 1 && Kept(before)[0].IsSoa()
  }

  /** A SOA of the set has the opening serial and a place in it; the closing one comes when all of these are there. */
  predicate SoaMayCome(env: Env, before: seq<Item>, item: Item)
    requires InsideSoa(item)
  {
    var open, serial := FirstSoa(before), item.rr.rdata.serial;
    if OfTheSet(before, item) then
      && item.rr.owner.Apex? && open.Some? && serial == open.value.rdata.serial
      && SetSeen(before) < SetSize(before).value
    else if open.None? then env.clientSerial == 0 || Newer(serial, env.clientSerial)
    else Closing(before, item) && SetSize(before).Some? ==> SetSeen(before) == SetSize(before).value
  }

  predicate RecordMayCome(env: Env, before: seq<Item>, item: Item)
    requires IsRecord(item)
  {
    && item.class_ == CLASS_IN
    && (item.rr.rdata.Other? || (InsideSoa(item) && SoaMayCome(env, before, item)))
  }

  predicate MayCome(env: Env, before: seq<Item>, item: Item) {
    match item
    case Undecodable => false
    case Marker(refused, over) => !over && !(refused && env.loader)
    case SoaSetMarker(ok, n) => ok && 1 <= n <= 4096 && SetSize(before).None? && OnlyTheOpening(before)
    case Wrapped(decoded, _, _) => (env.loader ==> decoded) && RecordMayCome(env, before, item)
    case Plain(_, _) => RecordMayCome(env, before, item)
  }

  /** The opening SOA has our serial: there is nothing to transfer. */
  predicate SaysUpToDate(env: Env, before: seq<Item>, item: Item) {
    && InsideSoa(item) && FirstSoa(before).None? && !OfTheSet(before, item) && item.class_ == CLASS_IN
    && item.rr.rdata.serial == env.clientSerial != 0 && !(env.loader && item.Wrapped? && !item.decoded)
  }

  // ---- a session of a full transfer ----

  function TimersOf(soa: RR): Timers
    requires soa.IsSoa()
  {
    Timers(soa.rdata.refresh, soa.rdata.retry, soa.rdata.expire)
  }

  /** A transfer that has been closed brings something. */
  ghost predicate Brings(items: seq<Item>) {
    && (Closed(items) ==> SoasRead(items) >= 2 && Kept(items) != [])
    && (SetSize(items).None? && SoasRead(items) > 0 ==> Kept(items) != [])
    && (SetSeen(items) > 0 ==> Kept(items) != [])
    && (SetSize(items).Some? ==> SetSize(items).value > 0)
  }

  /** The session has read these, and is about to unwrap one when `unwrapping` is 1. */
  ghost predicate At(s: State, items: seq<Item>, unwrapping: nat) {
    && s.records == Kept(items) && s.finished == Closed(items) && !s.ixfr && !s.deleting
    && s.soaCount == SoasRead(items) && Opened(s, items) && Brings(items)
    && s.counts == Counts(OutsideCount(items), Extensions(items), WrappedOnes(items) + unwrapping)
    && match SetSize(items)
       case None =>
         s.soaSet == NoSet && SetSeen(items) == 0 && (OnlyTheOpening(items) ==> FirstSoa(items) == Some(Kept(items)[0]))
       case Some(n) =>
         FirstSoa(items).Some? && s.soaSet == Announced(n, SetSeen(items), TimersOf(FirstSoa(items).value))
  }

  lemma {:induction false} OneMoreRead(before: seq<Item>, item: Item)
    ensures var items := before + [item]; items[..|before|] == before && items[|items| - 1] == item
    ensures SetSize(before + [item]) ==
      if SetSize(before).None? && item.SoaSetMarker? then Some(item.announced) else SetSize(before)
    ensures SetSeen(before + [item]) == SetSeen(before) + if OfTheSet(before, item) then 1 else 0
    ensures SoasRead(before + [item]) == SoasRead(before) + if InsideSoa(item) && !OfTheSet(before, item) then 1 else 0
    ensures Closed(before + [item]) <==> Closed(before) || Closing(before, item)
    ensures Kept(before + [item]) ==
      if item.SoaSetMarker? then []
      else Kept(before) + if InsideRecord(item) && !Closing(before, item) then [item.rr] else []
    ensures Extensions(before + [item]) == Extensions(before) + if item.Marker? || item.SoaSetMarker? then 1 else 0
    ensures WrappedOnes(before + [item]) == WrappedOnes(before) + if item.Wrapped? then 1 else 0
  {
    assert (before + [item])[..|before|] == before;
  }

  /** What a step has to do with a record: take it, say that we are up to date, or refuse the transfer. */
  ghost predicate Judged(r: (State, Verdict), env: Env, s: State, before: seq<Item>, item: Item, last: bool) {
    && (MayCome(env, before, item) ==>
          && r.1 == Next && At(r.0, before + [item], 0)
          && r.0.marks.trailing == (s.marks.trailing || (Closing(before, item) && !last)))
    && (SaysUpToDate(env, before, item) ==> r.1 == Stop && Nothing(r.0))
    && (!MayCome(env, before, item) && !SaysUpToDate(env, before, item) ==> r.1 == Reject)
  }

  lemma {:induction false} MarkerJudged(env: Env, s: State, before: seq<Item>, item: Item, only: bool, last: bool)
    requires At(s, before, 0) && (item.Marker? || item.SoaSetMarker?)
    ensures Judged(Step(env, s, item, only, last), env, s, before, item, last)
  {
    OneMore(before, item);
    OneMoreRead(before, item);
  }

  function Unwrapping(item: Item): nat {
    if item.Wrapped? then 1 else 0
  }

  /** In a session of records that pass as records. */
  ghost predicate Reads(env: Env, s: State, before: seq<Item>, item: Item) {
    && At(s, before, Unwrapping(item)) && IsRecord(item) && item.class_ == CLASS_IN
    && (env.loader && item.Wrapped? ==> item.decoded)
  }

  lemma {:induction false} DataJudged(env: Env, s: State, before: seq<Item>, item: Item, last: bool)
    requires Reads(env, s, before, item) && item.rr.rdata.Other?
    ensures var r := if item.rr.owner.Outside? then OutsideStep(s, item.rr) else (DataStep(s, item.rr), Next);
      Judged(r, env, s, before, item, last)
  {
    OneMore(before, item);
    OneMoreRead(before, item);
  }

  lemma {:induction false} SetSoaJudged(env: Env, s: State, before: seq<Item>, item: Item, last: bool)
    requires Reads(env, s, before, item) && OfTheSet(before, item)
    ensures Judged(BodySoaStep(s, item.rr), env, s, before, item, last)
  {
    OneMore(before, item);
    OneMoreRead(before, item);
  }

  lemma {:induction false} OpeningJudged(env: Env, s: State, before: seq<Item>, item: Item, only: bool, last: bool)
    requires Reads(env, s, before, item) && InsideSoa(item) && !OfTheSet(before, item) && FirstSoa(before).None?
    ensures Judged(OpeningSoa(env, s.(soaCount := s.soaCount + 1), item.rr, only), env, s, before, item, last)
  {
    OneMore(before, item);
    OneMoreRead(before, item);
  }

  lemma {:induction false} LaterJudged(env: Env, s: State, before: seq<Item>, item: Item, last: bool)
    requires Reads(env, s, before, item) && InsideSoa(item) && !OfTheSet(before, item) && FirstSoa(before).Some?
    ensures Judged(LaterSoa(s.(soaCount := s.soaCount + 1), item.rr, last), env, s, before, item, last)
  {
    OneMore(before, item);
    OneMoreRead(before, item);
  }

  lemma {:induction false} RecordJudged(env: Env, s: State, before: seq<Item>, item: Item, only: bool, last: bool)
    requires At(s, before, Unwrapping(item)) && IsRecord(item) && (env.loader && item.Wrapped? ==> item.decoded)
    ensures var wrappedSoa := item.Wrapped? && item.decoded && item.rr.IsSoa();
      Judged(RecordStep(env, s, item.rr, item.class_, wrappedSoa, only, last), env, s, before, item, last)
  {
    var rr, w := item.rr, item.Wrapped? && item.decoded && item.rr.IsSoa();
    var r := RecordStep(env, s, rr, item.class_, w, only, last);
    if item.class_ != CLASS_IN || (!rr.rdata.Other? && !InsideSoa(item)) {
      assert r.1 == Reject;
    } else if rr.rdata.Other? {
      assert r == if rr.owner.Outside? then OutsideStep(s, rr) else (DataStep(s, rr), Next);
      DataJudged(env, s, before, item, last);
    } else if OfTheSet(before, item) {
      assert r == BodySoaStep(s, rr);
      SetSoaJudged(env, s, before, item, last);
    } else {
      assert r == SoaStep(env, s.(soaCount := s.soaCount + 1), rr, only, last);
      if FirstSoa(before).None? {
        OpeningJudged(env, s, before, item, only, last);
      } else {
        LaterJudged(env, s, before, item, last);
      }
    }
  }

  /** Every record is judged by those before it, whatever message it is in. */
  lemma {:induction false} StepJudged(env: Env, s: State, before: seq<Item>, item: Item, only: bool, last: bool)
    requires At(s, before, 0)
    ensures Judged(Step(env, s, item, only, last), env, s, before, item, last)
  {
    match item
    case Undecodable =>
    case Plain(_, _) => RecordJudged(env, s, before, item, only, last);
    case Wrapped(d, rr, c) =>
      var u := s.(counts := s.counts.(extWrapped := s.counts.extWrapped + 1));
      if !(env.loader && !d) {
        assert Step(env, s, item, only, last) == RecordStep(env, u, rr, c, d && rr.IsSoa(), only, last);
        RecordJudged(env, u, before, item, only, last);
      }
    case _ => MarkerJudged(env, s, before, item, only, last);
  }

  // ---- whole messages and streams ----

  /** Each of the items may come after those before it. */
  ghost predicate AllMayCome(env: Env, before: seq<Item>, items: seq<Item>)
    decreases |items|
  {
    items == [] || (MayCome(env, before, items[0]) && AllMayCome(env, before + [items[0]], items[1..]))
  }

  /** A record but the last closes the transfer. */
  predicate ClosesEarly(before: seq<Item>, items: seq<Item>)
    decreases |items|
  {
    |items| > 1 && (Closing(before, items[0]) || ClosesEarly(before + [items[0]], items[1..]))
  }

  /** Taken with all of these items, or not at all; and records after the closing one are noted. */
  ghost predicate Taken(r: (State, bool), env: Env, s: State, before: seq<Item>, items: seq<Item>) {
    && (AllMayCome(env, before, items) ==>
          && r.1 && At(r.0, before + items, 0)
          && r.0.marks.trailing == (s.marks.trailing || ClosesEarly(before, items)))
    && (!AllMayCome(env, before, items) ==> !r.1 || Nothing(r.0))
  }

  lemma {:induction false} MessageTaken(env: Env, s: State, before: seq<Item>, items: seq<Item>, i: nat)
    requires At(s, before, 0) && i <= |items|
    ensures Taken(ParseFrom(env, s, items, i), env, s, before, items[i..])
    decreases |items| - i
  {
    if i == |items| {
      assert before + items[i..] == before;
    } else {
      var only, last := |items| == 1, i == |items| - 1;
      var (t, v) := Step(env, s, items[i], only, last);
      assert Judged((t, v), env, s, before, items[i], last) by { StepJudged(env, s, before, items[i], only, last); }
      ParseOne(env, s, items, i);
      assert items[i..][0] == items[i] && items[i..][1..] == items[i + 1..];
      if v == Next {
        MessageTaken(env, t, before + [items[i]], items, i + 1);
        OneOn(before, items, i);
      }
    }
  }

  lemma {:induction false} AllMayComeSplits(env: Env, before: seq<Item>, a: seq<Item>, b: seq<Item>)
    ensures AllMayCome(env, before, a + b) <==> AllMayCome(env, before, a) && AllMayCome(env, before + a, b)
    decreases |a|
  {
    if a == [] {
      assert a + b == b && before + a == before;
    } else {
      assert (a + b)[1..] == a[1..] + b && before + [a[0]] + a[1..] == before + a;
      AllMayComeSplits(env, before + [a[0]], a[1..], b);
    }
  }

  /** The same, record by record. */
  lemma {:induction false} EachMayCome(env: Env, items: seq<Item>, k: nat)
    requires k <= |items|
    ensures AllMayCome(env, items[..k], items[k..]) <==> forall i :: k <= i < |items| ==> MayCome(env, items[..i], items[i])
    decreases |items| - k
  {
    if k < |items| {
      EachMayCome(env, items, k + 1);
      assert items[k..][0] == items[k] && items[k..][1..] == items[k + 1..] && items[..k] + [items[k]] == items[..k + 1];
    }
  }

  ghost predicate EachInItsPlace(env: Env, items: seq<Item>) {
    forall i :: 0 <= i < |items| ==> MayCome(env, items[..i], items[i])
  }

  lemma {:induction false} InItsPlace(env: Env, items: seq<Item>)
    ensures AllMayCome(env, [], items) <==> EachInItsPlace(env, items)
  {
    EachMayCome(env, items, 0);
    assert items[..0] == [] && items[0..] == items;
  }

  /** How many messages are read: up to the one in which the transfer is closed. */
  function Used(read: seq<Item>, msgs: seq<Message>): (k: nat)
    ensures k <= |msgs|
    decreases |msgs|
  {
    if msgs == [] || Closed(read) then 0 else 1 + Used(read + msgs[0].items, msgs[1..])
  }

  /** Records follow the closing one in its message. */
  predicate FollowedInMessage(read: seq<Item>, msgs: seq<Message>)
    decreases |msgs|
  {
    && msgs != [] && !Closed(read)
    && (ClosesEarly(read, msgs[0].items) || FollowedInMessage(read + msgs[0].items, msgs[1..]))
  }

  ghost predicate AllFramed(msgs: seq<Message>) {
    forall i :: 0 <= i < |msgs| ==> msgs[i].framed
  }

  /** The messages that are read can be, and each of their records may come. */
  ghost predicate Acceptable(env: Env, read: seq<Item>, msgs: seq<Message>) {
    AllFramed(msgs) && AllMayCome(env, read, Concat(msgs))
  }

  ghost predicate Exactly(r: (State, bool), env: Env, read: seq<Item>, msgs: seq<Message>) {
    && (r.1 && !Nothing(r.0) <==> Acceptable(env, read, msgs))
    && (Acceptable(env, read, msgs) ==> At(r.0, read + Concat(msgs), 0))
  }

  lemma {:induction false} OptionsJudgeNothing(s: State, m: Message, read: seq<Item>)
    requires At(s, read, 0)
    ensures At(ReadOptions(s, m), read, 0)
  {
  }

  lemma {:induction false} FirstTaken(env: Env, s: State, m: Message, read: seq<Item>)
    requires At(s, read, 0) && m.framed
    ensures Taken(ParseMessage(env, s, m), env, s, read, m.items)
  {
    OptionsJudgeNothing(s, m, read);
    MessageTaken(env, ReadOptions(s, m), read, m.items, 0);
    assert m.items[0..] == m.items;
  }

  lemma {:induction false} AcceptableNext(env: Env, read: seq<Item>, msgs: seq<Message>, k: nat)
    requires k < |msgs|
    ensures Acceptable(env, read, msgs[..k + 1]) <==>
      msgs[0].framed && AllMayCome(env, read, msgs[0].items) && Acceptable(env, read + msgs[0].items, msgs[1..][..k])
    ensures read + Concat(msgs[..k + 1]) == read + msgs[0].items + Concat(msgs[1..][..k])
  {
    var head, rest := msgs[..k + 1], msgs[1..][..k];
    FirstMessages(msgs, read, k + 1);
    assert head[0] == msgs[0] && head[1..] == rest;
    AllMayComeSplits(env, read, msgs[0].items, Concat(rest));
    assert AllFramed(head) <==> msgs[0].framed && AllFramed(rest) by {
      assert forall i :: 0 < i < |head| ==> head[i] == rest[i - 1];
      assert forall i :: 0 <= i < |rest| ==> rest[i] == head[i + 1];
    }
  }

  /** A stream is taken exactly when the messages up to the closing record can be read and each record may come. */
  lemma {:induction false} StreamTaken(env: Env, s: State, msgs: seq<Message>, read: seq<Item>)
    requires At(s, read, 0)
    ensures Exactly(ParseStream(env, s, msgs), env, read, msgs[..Used(read, msgs)])
    ensures Acceptable(env, read, msgs[..Used(read, msgs)]) ==>
      ParseStream(env, s, msgs).0.marks.trailing == (s.marks.trailing || FollowedInMessage(read, msgs))
    decreases |msgs|
  {
    if msgs == [] || s.finished {
      assert read + Concat(msgs[..0]) == read;
    } else {
      var (m, rest) := (msgs[0], msgs[1..]);
      var k := Used(read + m.items, rest);
      AcceptableNext(env, read, msgs, k);
      if m.framed {
        FirstTaken(env, s, m, read);
        var (t, ok) := ParseMessage(env, s, m);
        if AllMayCome(env, read, m.items) { StreamTaken(env, t, rest, read + m.items); }
      }
    }
  }

  /**
   * Exactly what a full transfer does with any stream of messages: it takes it if and only if the messages up to the
   * closing record can be read and each of their records may come where it does; then it has the records kept, it is
   * over if and only if the closing record came, and the counts and the SOA set are those of the records read.
   * Otherwise the stream is refused, or the primary said that we are up to date.
   */
  lemma {:induction false} FullTransferExactly(env: Env, msgs: seq<Message>)
    ensures var k := Used([], msgs); var items := Concat(msgs[..k]);
      var (t, ok) := ParseStream(env, Start(false), msgs);
      && (ok && !Nothing(t) <==> AllFramed(msgs[..k]) && EachInItsPlace(env, items))
      && (ok && !Nothing(t) ==> At(t, items, 0) && t.marks.trailing == FollowedInMessage([], msgs))
  {
    var items := Concat(msgs[..Used([], msgs)]);
    StreamTaken(env, Start(false), msgs, []);
    InItsPlace(env, items);
    assert [] + items == items;
  }
}
