/**
 * What an accepted transfer holds, as a filter on the records that were read: data outside the zone is counted and left
 * out, and a full transfer is the opening SOA and the other records of the zone in the order they came.
 */
module TransferContent {
  import opened Serials
  import opened Records
  import opened TransferParser
  import opened MessageCuts

  // ---- the filter ----

  predicate IsRecord(item: Item) {
    item.Plain? || item.Wrapped?
  }

  predicate OutsideData(item: Item) {
    IsRecord(item) && item.rr.owner.Outside? && item.rr.rdata.Other?
  }

  predicate InsideRecord(item: Item) {
    IsRecord(item) && !item.rr.owner.Outside?
  }

  function OutsideCount(items: seq<Item>): nat {
    if items == [] then 0 else OutsideCount(items[..|items| - 1]) + if OutsideData(items[|items| - 1]) then 1 else 0
  }

  /** The records of the zone among the items, in order. */
  function InsideRecords(items: seq<Item>): Zone {
    if items == [] then []
    else InsideRecords(items[..|items| - 1]) + if InsideRecord(items[|items| - 1]) then [items[|items| - 1].rr] else []
  }

  /** The opening SOA. */
  function FirstSoa(items: seq<Item>): (r: Option<RR>)
    ensures r.Some? ==> r.value.IsSoa()
  {
    if items == [] then None
    else
      var f, last := FirstSoa(items[..|items| - 1]), items[|items| - 1];
      if f.None? && IsRecord(last) && last.rr.IsSoa() then Some(last.rr) else f
  }

  predicate Repeats(open: Option<RR>, rr: RR)
    requires open.Some? ==> open.value.IsSoa()
  {
    open.Some? && rr.IsSoa() && rr.owner == open.value.owner && rr.rdata.serial == open.value.rdata.serial
  }

  /** The records of the zone, without those that repeat the opening SOA. */
  function FullRecords(items: seq<Item>): Zone {
    if items == [] then []
    else
      var front, last := items[..|items| - 1], items[|items| - 1];
      FullRecords(front) + if InsideRecord(last) && !Repeats(FirstSoa(front), last.rr) then [last.rr] else []
  }

  ghost predicate AllClassIn(items: seq<Item>) {
    forall i :: 0 <= i < |items| && IsRecord(items[i]) ==> items[i].class_ == CLASS_IN
  }

  ghost predicate InZone(z: Zone) {
    forall i :: 0 <= i < |z| ==> !z[i].owner.Outside?
  }

  /** The last item repeats the opening SOA, and the zone is every record of the zone before it. */
  ghost predicate UpToTheClosing(z: Zone, items: seq<Item>) {
    && items != [] && IsRecord(items[|items| - 1])
    && Repeats(FirstSoa(items[..|items| - 1]), items[|items| - 1].rr)
    && z == InsideRecords(items[..|items| - 1])
  }

  /** No record of the version we serve has an owner outside the zone. */
  ghost predicate ServesInZone(env: Env) {
    env.active.Some? ==> InZone(env.active.value)
  }

  // ---- a session and what it has read ----

  /** No difference has been read: the records so far are those of a full transfer. */
  predicate Plainly(s: State) {
    s.soaSet.NoSet? && (!s.ixfr || s.soaCount <= 1)
  }

  ghost predicate Opened(s: State, items: seq<Item>) {
    match FirstSoa(items)
    case None => s.soaCount == 0
    case Some(soa) => s.soaCount > 0 && soa.owner == s.openOwner && soa.rdata.serial == s.openSerial
  }

  ghost predicate Explained(env: Env, s: State, items: seq<Item>) {
    && AllClassIn(items) && (ServesInZone(env) ==> InZone(s.records)) && s.counts.outside == OutsideCount(items)
    && Opened(s, items)
    && (s.finished || s.deleting ==> s.soaCount > 1) && (s.soaSet.Announced? ==> s.soaCount > 0)
    && (Plainly(s) ==> s.records == FullRecords(items) && (!s.finished ==> FullRecords(items) == InsideRecords(items)))
  }

  /** In the middle of a message that has ended a full transfer, it is noted that something follows. */
  ghost predicate Midway(s: State) {
    !s.ixfr && s.finished ==> s.marks.trailing
  }

  /**
   * A full transfer that ended with nothing after it: the last record repeats the opening SOA, and all before are kept.
   */
  ghost predicate Closed(s: State, items: seq<Item>) {
    Plainly(s) && !s.ixfr && s.finished && !s.marks.trailing ==> UpToTheClosing(s.records, items)
  }

  ghost predicate ExplainedAfter(env: Env, r: (State, Verdict), items: seq<Item>, last: bool) {
    && (r.1 == Next ==> Explained(env, r.0, items) && (if last then Closed(r.0, items) else Midway(r.0)))
    && (r.1 == Stop ==> r.0.finished && r.0.records == [])
  }

  /** One item more in each part of the filter. */
  lemma {:induction false} OneMore(read: seq<Item>, item: Item)
    ensures OutsideCount(read + [item]) == OutsideCount(read) + if OutsideData(item) then 1 else 0
    ensures InsideRecords(read + [item]) == InsideRecords(read) + if InsideRecord(item) then [item.rr] else []
    ensures FirstSoa(read + [item]) ==
      if FirstSoa(read).None? && IsRecord(item) && item.rr.IsSoa() then Some(item.rr) else FirstSoa(read)
    ensures FullRecords(read + [item]) ==
      FullRecords(read) + if InsideRecord(item) && !Repeats(FirstSoa(read), item.rr) then [item.rr] else []
  {
    assert (read + [item])[..|read|] == read;
  }

  lemma {:induction false} ClassOfOneMore(read: seq<Item>, item: Item)
    requires AllClassIn(read) && (IsRecord(item) ==> item.class_ == CLASS_IN)
    ensures AllClassIn(read + [item])
  {
  }

  /** Read on in a session whose counts of wrapped and extension records do not matter here. */
  ghost predicate Goes(env: Env, s: State, read: seq<Item>, item: Item) {
    Explained(env, s, read) && Midway(s) && (IsRecord(item) ==> item.class_ == CLASS_IN)
  }

  lemma {:induction false} OutsideExplained(env: Env, s: State, read: seq<Item>, item: Item, last: bool)
    requires Goes(env, s, read, item) && IsRecord(item) && item.rr.owner.Outside?
    ensures ExplainedAfter(env, OutsideStep(s, item.rr), read + [item], last)
  {
    OneMore(read, item);
    ClassOfOneMore(read, item);
  }

  lemma {:induction false} DeleteInZone(z: Zone, rr: RR)
    ensures InZone(z) ==> InZone(Delete(z, rr))
  {
  }

  lemma {:induction false} DataExplained(env: Env, s: State, read: seq<Item>, item: Item, last: bool)
    requires Goes(env, s, read, item) && InsideRecord(item) && item.rr.rdata.Other?
    ensures ExplainedAfter(env, (DataStep(s, item.rr), Next), read + [item], last)
  {
    OneMore(read, item);
    ClassOfOneMore(read, item);
    DeleteInZone(s.records, item.rr);
  }

  lemma {:induction false} BodySoaExplained(env: Env, s: State, read: seq<Item>, item: Item, last: bool)
    requires Goes(env, s, read, item) && InsideRecord(item) && item.rr.IsSoa() && s.soaSet.Announced?
    ensures ExplainedAfter(env, BodySoaStep(s, item.rr), read + [item], last)
  {
    OneMore(read, item);
    ClassOfOneMore(read, item);
  }

  lemma {:induction false} OpeningExplained(env: Env, s: State, read: seq<Item>, item: Item, only: bool, last: bool)
    requires Goes(env, s, read, item) && InsideRecord(item) && item.rr.IsSoa() && s.soaCount == 0
    ensures ExplainedAfter(env, OpeningSoa(env, s.(soaCount := 1), item.rr, only), read + [item], last)
  {
    OneMore(read, item);
    ClassOfOneMore(read, item);
  }

  lemma {:induction false} DifferenceExplained(env: Env, s: State, read: seq<Item>, item: Item, last: bool)
    requires Goes(env, s, read, item) && InsideRecord(item) && item.rr.IsSoa() && s.soaCount > 0 && s.ixfr
    ensures ExplainedAfter(env, DifferenceSoa(env, s.(soaCount := s.soaCount + 1), item.rr), read + [item], last)
  {
    OneMore(read, item);
    ClassOfOneMore(read, item);
  }

  lemma {:induction false} LaterExplained(env: Env, s: State, read: seq<Item>, item: Item, last: bool)
    requires Goes(env, s, read, item) && InsideRecord(item) && item.rr.IsSoa() && s.soaCount > 0 && !s.ixfr
    ensures ExplainedAfter(env, LaterSoa(s.(soaCount := s.soaCount + 1), item.rr, last), read + [item], last)
  {
    OneMore(read, item);
    ClassOfOneMore(read, item);
    assert (read + [item])[..|read|] == read;
  }

  lemma {:induction false} MarkerExplained(env: Env, s: State, read: seq<Item>, item: Item, only: bool, last: bool)
    requires Goes(env, s, read, item) && (item.Marker? || item.SoaSetMarker?)
    ensures ExplainedAfter(env, Step(env, s, item, only, last), read + [item], last)
  {
    OneMore(read, item);
    ClassOfOneMore(read, item);
  }

  lemma {:induction false} SoaExplained(env: Env, s: State, read: seq<Item>, item: Item, only: bool, last: bool)
    requires Goes(env, s, read, item) && InsideRecord(item) && item.rr.IsSoa()
    ensures ExplainedAfter(env, SoaStep(env, s.(soaCount := s.soaCount + 1), item.rr, only, last), read + [item], last)
  {
    if s.soaCount == 0 {
      OpeningExplained(env, s, read, item, only, last);
    } else if s.ixfr {
      DifferenceExplained(env, s, read, item, last);
    } else {
      LaterExplained(env, s, read, item, last);
    }
  }

  lemma {:induction false} RecordExplained(env: Env, s: State, read: seq<Item>, item: Item, w: bool, only: bool, last: bool)
    requires Explained(env, s, read) && Midway(s) && IsRecord(item)
    ensures ExplainedAfter(env, RecordStep(env, s, item.rr, item.class_, w, only, last), read + [item], last)
  {
    var rr, r := item.rr, RecordStep(env, s, item.rr, item.class_, w, only, last);
    if item.class_ != CLASS_IN || (rr.rdata.UndecodedSoa? && !rr.owner.Outside?) {
      assert r.1 == Reject;
    } else if rr.owner.Outside? {
      assert r == OutsideStep(s, rr);
      OutsideExplained(env, s, read, item, last);
    } else if rr.rdata.Other? {
      assert r == (DataStep(s, rr), Next);
      DataExplained(env, s, read, item, last);
    } else if w && s.soaSet.Announced? {
      assert r == BodySoaStep(s, rr);
      BodySoaExplained(env, s, read, item, last);
    } else {
      assert r == SoaStep(env, s.(soaCount := s.soaCount + 1), rr, only, last);
      SoaExplained(env, s, read, item, only, last);
    }
  }

  lemma {:induction false} StepExplained(env: Env, s: State, read: seq<Item>, item: Item, only: bool, last: bool)
    requires Explained(env, s, read) && Midway(s)
    ensures ExplainedAfter(env, Step(env, s, item, only, last), read + [item], last)
  {
    match item
    case Plain(rr, c) => RecordExplained(env, s, read, item, false, only, last);
    case Wrapped(d, rr, c) =>
      var u := s.(counts := s.counts.(extWrapped := s.counts.extWrapped + 1));
      if !(env.loader && !d) {
        assert Step(env, s, item, only, last) == RecordStep(env, u, rr, c, d && rr.IsSoa(), only, last);
        RecordExplained(env, u, read, item, d && rr.IsSoa(), only, last);
      }
    case Undecodable =>
    case _ => MarkerExplained(env, s, read, item, only, last);
  }

  // ---- messages and streams ----

  /** "Up to date": the transfer is over and brings nothing. */
  predicate Nothing(s: State) {
    s.finished && s.records == []
  }

  /** What a message or a stream of them came to, after these items. */
  ghost predicate Held(env: Env, r: (State, bool), items: seq<Item>) {
    r.1 && !Nothing(r.0) ==> Explained(env, r.0, items) && Closed(r.0, items)
  }

  lemma {:induction false} ParseFromExplained(env: Env, s: State, items: seq<Item>, i: nat, read: seq<Item>)
    requires i <= |items| && Explained(env, s, read) && (if i == |items| then Closed(s, read) else Midway(s))
    ensures Held(env, ParseFrom(env, s, items, i), read + items[i..])
    decreases |items| - i
  {
    if i == |items| {
      assert read + items[i..] == read;
    } else {
      var only, last := |items| == 1, i == |items| - 1;
      var (t, v) := Step(env, s, items[i], only, last);
      assert ExplainedAfter(env, (t, v), read + [items[i]], last) by { StepExplained(env, s, read, items[i], only, last); }
      ParseOne(env, s, items, i);
      if v == Next {
        ParseFromExplained(env, t, items, i + 1, read + [items[i]]);
        OneOn(read, items, i);
      }
    }
  }

  lemma {:induction false} OneOn(read: seq<Item>, items: seq<Item>, i: nat)
    requires i < |items|
    ensures read + [items[i]] + items[i + 1..] == read + items[i..]
  {
  }

  lemma {:induction false} ParseMessageExplained(env: Env, s: State, m: Message, read: seq<Item>)
    requires Explained(env, s, read) && !s.finished
    ensures Held(env, ParseMessage(env, s, m), read + m.items)
  {
    var u := ReadOptions(s, m);
    assert Explained(env, u, read) && Midway(u) && Closed(u, read);
    ParseFromExplained(env, u, m.items, 0, read);
    assert m.items[0..] == m.items;
  }

  /** The stream is read up to its k-th message: the one that ended the transfer, or the last one. */
  ghost predicate Read(env: Env, s: State, msgs: seq<Message>, k: nat) {
    && k <= |msgs| && ParseStream(env, s, msgs[..k]) == ParseStream(env, s, msgs)
    && if ParseStream(env, s, msgs).0.finished then k > 0 && !ParseStream(env, s, msgs[..k - 1]).0.finished else k == |msgs|
  }

  ghost predicate Arrived(env: Env, s: State, msgs: seq<Message>, read: seq<Item>, k: nat) {
    && k <= |msgs| && Held(env, ParseStream(env, s, msgs), read + Concat(msgs[..k]))
    && var (t, ok) := ParseStream(env, s, msgs); ok && !Nothing(t) ==> Read(env, s, msgs, k)
  }

  lemma {:induction false} FirstMessages(msgs: seq<Message>, read: seq<Item>, k: nat)
    requires 0 < k <= |msgs|
    ensures msgs[..k][0] == msgs[0] && msgs[..k][1..] == msgs[1..][..k - 1]
    ensures read + Concat(msgs[..k]) == read + msgs[0].items + Concat(msgs[1..][..k - 1])
  {
    assert msgs[..k][1..] == msgs[1..][..k - 1];
  }

  lemma {:induction false} LastArrived(env: Env, s: State, msgs: seq<Message>, read: seq<Item>)
    requires msgs != [] && !s.finished && Held(env, ParseMessage(env, s, msgs[0]), read + msgs[0].items)
    requires var (t, ok) := ParseMessage(env, s, msgs[0]); !ok || t.finished
    ensures Arrived(env, s, msgs, read, 1)
  {
    var (t, ok) := ParseMessage(env, s, msgs[0]);
    assert ParseStream(env, s, msgs) == (t, ok);
    FirstMessages(msgs, read, 1);
    assert msgs[1..][..0] == [] && msgs[..0] == [];
    assert read + Concat(msgs[..1]) == read + msgs[0].items;
  }

  lemma {:induction false} MoreRead(env: Env, s: State, t: State, msgs: seq<Message>, j: nat)
    requires msgs != [] && !s.finished && ParseMessage(env, s, msgs[0]) == (t, true) && Read(env, t, msgs[1..], j)
    ensures Read(env, s, msgs, j + 1)
  {
    FirstMessages(msgs, [], j + 1);
    if j > 0 { FirstMessages(msgs, [], j); } else { assert msgs[..0] == []; }
  }

  lemma {:induction false} MoreArrived(env: Env, s: State, t: State, msgs: seq<Message>, read: seq<Item>, j: nat)
    requires msgs != [] && !s.finished && ParseMessage(env, s, msgs[0]) == (t, true)
    requires Arrived(env, t, msgs[1..], read + msgs[0].items, j)
    ensures Arrived(env, s, msgs, read, j + 1)
  {
    var r := ParseStream(env, s, msgs);
    assert r == ParseStream(env, t, msgs[1..]);
    FirstMessages(msgs, read, j + 1);
    if r.1 && !Nothing(r.0) { MoreRead(env, s, t, msgs, j); }
  }

  lemma {:induction false} ParseStreamExplained(env: Env, s: State, msgs: seq<Message>, read: seq<Item>) returns (k: nat)
    requires Explained(env, s, read) && !s.finished
    ensures Arrived(env, s, msgs, read, k)
    decreases |msgs|
  {
    k := 0;
    if msgs == [] {
      assert read + Concat(msgs[..0]) == read;
    } else {
      ParseMessageExplained(env, s, msgs[0], read);
      var (t, ok) := ParseMessage(env, s, msgs[0]);
      if ok && !t.finished {
        var j := ParseStreamExplained(env, t, msgs[1..], read + msgs[0].items);
        MoreArrived(env, s, t, msgs, read, j);
        k := j + 1;
      } else {
        LastArrived(env, s, msgs, read);
        k := 1;
      }
    }
  }

  // ---- the theorems ----

  /** Every record read was of class IN, and counts.outside is the number of data records whose owner is outside. */
  ghost predicate Counted(t: State, items: seq<Item>) {
    AllClassIn(items) && t.counts.outside == OutsideCount(items)
  }

  /**
   * Data from outside the zone stays outside: whatever messages arrive, if no record of the version we serve has an
   * owner outside the zone, no record of an accepted transfer has one, and what was left out is counted.
   */
  lemma {:induction false} OutsideStaysOut(env: Env, ixfr: bool, msgs: seq<Message>) returns (k: nat)
    ensures k <= |msgs|
    ensures var (t, ok) := ParseStream(env, Start(ixfr), msgs);
      && (ok && ServesInZone(env) ==> InZone(t.records))
      && (ok && !Nothing(t) ==> Read(env, Start(ixfr), msgs, k) && Counted(t, Concat(msgs[..k])))
  {
    k := ParseStreamExplained(env, Start(ixfr), msgs, []);
    assert [] + Concat(msgs[..k]) == Concat(msgs[..k]);
  }

  /**
   * An accepted full transfer without a SOA set holds the records of the zone that were read, in order, without the
   * repeats of the opening SOA.  When nothing followed the closing SOA, that is every record of the zone read before
   * it.
   */
  lemma {:induction false} FullTransferIsFilter(env: Env, ixfr: bool, msgs: seq<Message>) returns (k: nat)
    requires var (t, ok) := ParseStream(env, Start(ixfr), msgs);
      ok && t.finished && t.records != [] && !t.ixfr && t.soaSet.NoSet?
    ensures Read(env, Start(ixfr), msgs, k)
    ensures var t, items := ParseStream(env, Start(ixfr), msgs).0, Concat(msgs[..k]);
      && t.records == FullRecords(items)
      && FirstSoa(items).Some? && FirstSoa(items).value.owner == t.openOwner
      && FirstSoa(items).value.rdata.serial == t.openSerial
      && (!t.marks.trailing ==> UpToTheClosing(t.records, items))
  {
    k := ParseStreamExplained(env, Start(ixfr), msgs, []);
    assert [] + Concat(msgs[..k]) == Concat(msgs[..k]);
  }
}
