/**
 * Exactly which messages of the database loader become a zone, and which zone that is.
 */
module LoadedZones {
  import opened Serials
  import opened Records
  import opened TransferParser
  import opened MessageCuts
  import opened TransferContent
  import opened FullTransfers
  import opened ZoneLoader

  /** No message comes after the record that closes the zone, and no record after it in its message. */
  predicate ClosesAtTheEnd(msgs: seq<Message>) {
    msgs == [] ||
    (var front, m := msgs[..|msgs| - 1], msgs[|msgs| - 1];
     ClosesAtTheEnd(front) && !FullTransfers.Closed(Concat(front)) && !ClosesEarly(Concat(front), m.items))
  }

  /** Nothing from outside the zone, and extension records only in an extended zone. */
  predicate Allowed(extendedZone: bool, items: seq<Item>) {
    OutsideCount(items) == 0 && (extendedZone || (Extensions(items) == 0 && WrappedOnes(items) == 0))
  }

  /** The messages that a builder takes. */
  ghost predicate Feedable(extendedZone: bool, msgs: seq<Message>) {
    && AllFramed(msgs) && AllMayCome(LOADER, [], Concat(msgs))
    && ClosesAtTheEnd(msgs) && Allowed(extendedZone, Concat(msgs))
  }

  lemma {:induction false} ConcatLast(msgs: seq<Message>)
    requires msgs != []
    ensures Concat(msgs) == Concat(msgs[..|msgs| - 1]) + msgs[|msgs| - 1].items
    decreases |msgs|
  {
    var n := |msgs| - 1;
    if n == 0 {
      assert msgs[..0] == [] && msgs[1..] == [];
    } else {
      ConcatLast(msgs[1..]);
      assert msgs[1..][..n - 1] == msgs[..n][1..] && msgs[1..][n - 1] == msgs[n];
    }
  }

  lemma {:induction false} CountsGrow(a: seq<Item>, b: seq<Item>)
    ensures OutsideCount(a) <= OutsideCount(a + b) && Extensions(a) <= Extensions(a + b)
    ensures WrappedOnes(a) <= WrappedOnes(a + b)
    decreases |b|
  {
    if b == [] {
      assert a + b == a;
    } else {
      CountsGrow(a, b[..|b| - 1]);
      assert (a + b)[..|a + b| - 1] == a + b[..|b| - 1];
    }
  }

  lemma {:induction false} FramedFront(msgs: seq<Message>)
    requires msgs != []
    ensures AllFramed(msgs) <==> AllFramed(msgs[..|msgs| - 1]) && msgs[|msgs| - 1].framed
  {
  }

  lemma {:induction false} MayComeFront(msgs: seq<Message>)
    requires msgs != []
    ensures var front, m := msgs[..|msgs| - 1], msgs[|msgs| - 1];
      AllMayCome(LOADER, [], Concat(msgs)) <==>
        AllMayCome(LOADER, [], Concat(front)) && AllMayCome(LOADER, Concat(front), m.items)
  {
    var read := Concat(msgs[..|msgs| - 1]);
    ConcatLast(msgs);
    AllMayComeSplits(LOADER, [], read, msgs[|msgs| - 1].items);
    assert [] + read == read;
  }

  lemma {:induction false} FeedableFront(extendedZone: bool, msgs: seq<Message>)
    requires msgs != []
    ensures var front, m := msgs[..|msgs| - 1], msgs[|msgs| - 1];
      Feedable(extendedZone, msgs) <==>
        && Feedable(extendedZone, front) && m.framed && AllMayCome(LOADER, Concat(front), m.items)
        && !FullTransfers.Closed(Concat(front)) && !ClosesEarly(Concat(front), m.items)
        && Allowed(extendedZone, Concat(front) + m.items)
  {
    FramedFront(msgs);
    MayComeFront(msgs);
    ConcatLast(msgs);
    CountsGrow(Concat(msgs[..|msgs| - 1]), msgs[|msgs| - 1].items);
  }

  /** What the builder holds when it took all the messages. */
  ghost predicate Holds(r: Option<State>, extendedZone: bool, msgs: seq<Message>) {
    && (r.Some? <==> Feedable(extendedZone, msgs))
    && (r.Some? ==> At(r.value, Concat(msgs), 0) && !r.value.marks.trailing)
  }

  lemma {:induction false} FedOne(extendedZone: bool, s: State, m: Message, read: seq<Item>)
    requires At(s, read, 0) && !s.marks.trailing
    ensures var r := Fed(extendedZone, s, m);
      && (r.Some? <==>
            && m.framed && AllMayCome(LOADER, read, m.items) && !FullTransfers.Closed(read) && !ClosesEarly(read, m.items)
            && Allowed(extendedZone, read + m.items))
      && (r.Some? ==> At(r.value, read + m.items, 0) && !r.value.marks.trailing)
  {
    if m.framed {
      FirstTaken(LOADER, s, m, read);
      if !AllMayCome(LOADER, read, m.items) { NotUpToDate(s, m, read); }
    }
  }

  /** The loader has no serial, so a load is never up to date. */
  lemma {:induction false} NotUpToDate(s: State, m: Message, read: seq<Item>)
    requires At(s, read, 0) && m.framed && !AllMayCome(LOADER, read, m.items)
    ensures !ParseMessage(LOADER, s, m).1
  {
    OptionsJudgeNothing(s, m, read);
    assert m.items[0..] == m.items;
    NotStopped(ReadOptions(s, m), m.items, 0, read);
  }

  lemma {:induction false} NotStopped(s: State, items: seq<Item>, i: nat, read: seq<Item>)
    requires At(s, read, 0) && i <= |items| && !AllMayCome(LOADER, read, items[i..])
    ensures !ParseFrom(LOADER, s, items, i).1
    decreases |items| - i
  {
    if i < |items| {
      var only, last := |items| == 1, i == |items| - 1;
      StepJudged(LOADER, s, read, items[i], only, last);
      ParseOne(LOADER, s, items, i);
      assert items[i..][0] == items[i] && items[i..][1..] == items[i + 1..];
      if MayCome(LOADER, read, items[i]) {
        NotStopped(Step(LOADER, s, items[i], only, last).0, items, i + 1, read + [items[i]]);
      }
    }
  }

  lemma {:induction false} FeedsExactly(extendedZone: bool, msgs: seq<Message>)
    ensures Holds(FedAll(extendedZone, msgs), extendedZone, msgs)
    decreases |msgs|
  {
    if msgs != [] {
      var front, m := msgs[..|msgs| - 1], msgs[|msgs| - 1];
      FeedsExactly(extendedZone, front);
      FeedableFront(extendedZone, msgs);
      ConcatLast(msgs);
      var s := FedAll(extendedZone, front);
      if s.Some? { FedOne(extendedZone, s.value, m, Concat(front)); }
    }
  }

  lemma {:induction false} RecordsInAll(msgs: seq<Message>)
    ensures RecordsIn(msgs) == |Concat(msgs)|
    decreases |msgs|
  {
    if msgs != [] {
      RecordsInAll(msgs[..|msgs| - 1]);
      ConcatLast(msgs);
    }
  }

  /** As many as declared; framed by the apex SOA, and with no other SOA than that one or those of the announced set. */
  ghost predicate WellDeclared(items: seq<Item>, declared: nat) {
    && FullTransfers.Closed(items) && |items| == declared
    && FirstSoa(items).Some? && FirstSoa(items).value.owner.Apex?
    && match SetSize(items)
       case None => Kept(items) != [] && Kept(items)[0].IsApexSoa() && SoasIn(Kept(items)) == 1
       case Some(n) => SoasIn(Kept(items)) == n == SetSeen(items)
  }

  /**
   * The count and framing checks pass for exactly these streams: every message can be read and every record may come in
   * its place, nothing is outside the zone or of an extension the zone does not have, the closing SOA is the last
   * record of all, and what came is what was declared.  The zone is then the records kept.
   */
  lemma {:induction false} LoadsExactly(extendedZone: bool, msgs: seq<Message>, declared: nat)
    ensures var r, items := FedAll(extendedZone, msgs), Concat(msgs);
      && (r.Some? && Installable(r.value, declared) <==>
            && AllFramed(msgs) && EachInItsPlace(LOADER, items) && Allowed(extendedZone, items)
            && ClosesAtTheEnd(msgs) && WellDeclared(items, declared))
      && (r.Some? ==> r.value.records == Kept(items))
  {
    FeedsExactly(extendedZone, msgs);
    InItsPlace(LOADER, Concat(msgs));
    RecordsInAll(msgs);
    var r := FedAll(extendedZone, msgs);
    if r.Some? { FedAllCounts(extendedZone, msgs); }
  }
}
