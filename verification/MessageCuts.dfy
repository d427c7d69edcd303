// When the way a primary cuts its records into messages makes a difference to the secondary, and when it does not.
module MessageCuts {
  import opened Serials
  import opened Records
  import opened TransferParser

  /** The records of a stream read one after the other, with no messages at all. */
  function Flat(env: Env, s: State, items: seq<Item>): (State, bool)
    decreases |items|
  {
    if items == [] then (s, true)
    else
      var (t, v) := Step(env, s, items[0], false, |items| == 1);
      match v
      case Next => Flat(env, t, items[1..])
      case Stop => (t, true)
      case Reject => (t, false)
  }

  function Concat(msgs: seq<Message>): seq<Item> {
    if msgs == [] then [] else msgs[0].items + Concat(msgs[1..])
  }

  /** The transfer is neither over nor rejected before the last record of the stream. */
  ghost predicate RunsToTheEnd(env: Env, s: State, items: seq<Item>)
    decreases |items|
  {
    |items| <= 1 ||
    var (t, v) := Step(env, s, items[0], false, false);
    v == Next && !t.finished && RunsToTheEnd(env, t, items[1..])
  }

  /** Some record but the last ends the transfer, and the parser goes on to the next one. */
  ghost predicate EndsEarly(env: Env, s: State, items: seq<Item>)
    decreases |items|
  {
    |items| > 1 &&
    var (t, v) := Step(env, s, items[0], false, false);
    v == Next && (t.finished || EndsEarly(env, t, items[1..]))
  }

  lemma {:induction false} RunningDoesNotEndEarly(env: Env, s: State, items: seq<Item>)
    requires RunsToTheEnd(env, s, items)
    ensures !EndsEarly(env, s, items)
    decreases |items|
  {
    if |items| > 1 { RunningDoesNotEndEarly(env, Step(env, s, items[0], false, false).0, items[1..]); }
  }

  /** An IXFR is only asked for with a serial (xfr_attempt(): is_ixfr means a nonzero client serial). */
  ghost predicate Askable(env: Env, s: State) {
    s.ixfr ==> env.clientSerial != 0
  }

  /** Every message has a record, and options only come with the first. */
  ghost predicate Sendable(msgs: seq<Message>) {
    && (forall i :: 0 <= i < |msgs| ==> msgs[i].framed && msgs[i].items != [])
    && (forall i :: 1 <= i < |msgs| ==> msgs[i].expireOption.None? && !msgs[i].extended)
  }

  /** A record alone in its message changes the state as any other. */
  lemma {:induction false} AloneIsNoDifferent(env: Env, s: State, item: Item, only: bool, last: bool)
    requires Askable(env, s)
    ensures Step(env, s, item, only, last) == Step(env, s, item, false, last)
  {
  }

  /** So does a record that is last in its message, unless it ends the transfer. */
  lemma {:induction false} LastIsNoDifferent(env: Env, s: State, item: Item)
    requires !s.finished
    ensures var (t, v) := Step(env, s, item, false, false);
      v != Next || !t.finished ==> Step(env, s, item, false, true) == (t, v)
  {
  }

  /** A transfer that is over stays so; one that stops is over. */
  ghost predicate StaysOver(s: State, r: (State, Verdict)) {
    (s.finished ==> r.0.finished) && (r.1 == Stop ==> r.0.finished)
  }

  lemma {:induction false} SoaStaysOver(env: Env, s: State, soa: RR, last: bool)
    requires soa.IsSoa()
    ensures StaysOver(s, SoaStep(env, s, soa, false, last))
  {
  }

  lemma {:induction false} RecordStaysOver(env: Env, s: State, rr: RR, c: nat, w: bool, last: bool)
    ensures StaysOver(s, RecordStep(env, s, rr, c, w, false, last))
  {
    if rr.IsSoa() { SoaStaysOver(env, s.(soaCount := s.soaCount + 1), rr, last); }
  }

  lemma {:induction false} FinishedStays(env: Env, s: State, item: Item, last: bool)
    ensures StaysOver(s, Step(env, s, item, false, last))
  {
    match item
    case Plain(rr, c) => RecordStaysOver(env, s, rr, c, false, last);
    case Wrapped(d, rr, c) =>
      var u := s.(counts := s.counts.(extWrapped := s.counts.extWrapped + 1));
      if !(env.loader && !d) {
        assert Step(env, s, item, false, last) == RecordStep(env, u, rr, c, d && rr.IsSoa(), false, last);
        RecordStaysOver(env, u, rr, c, d && rr.IsSoa(), last);
      }
    case _ =>
  }

  /** A transfer that is not incremental does not become so. */
  lemma {:induction false} StaysAskable(env: Env, s: State, item: Item, only: bool, last: bool)
    requires Askable(env, s)
    ensures Askable(env, Step(env, s, item, only, last).0)
  {
  }

  lemma {:induction false} ParseFromIsFlat(env: Env, s: State, items: seq<Item>, i: nat)
    requires i <= |items| && Askable(env, s)
    ensures ParseFrom(env, s, items, i) == Flat(env, s, items[i..])
    decreases |items| - i
  {
    if i < |items| {
      AloneIsNoDifferent(env, s, items[i], |items| == 1, i == |items| - 1);
      StaysAskable(env, s, items[i], false, i == |items| - 1);
      var (t, v) := Step(env, s, items[i], |items| == 1, i == |items| - 1);
      assert items[i..][1..] == items[i + 1..];
      if v == Next {
        ParseFromIsFlat(env, t, items, i + 1);
      }
    }
  }

  lemma {:induction false} FlatKeepsFinished(env: Env, s: State, items: seq<Item>)
    requires s.finished
    ensures Flat(env, s, items).0.finished
    decreases |items|
  {
    if items != [] {
      FinishedStays(env, s, items[0], |items| == 1);
      var (t, v) := Step(env, s, items[0], false, |items| == 1);
      if v == Next { FlatKeepsFinished(env, t, items[1..]); }
    }
  }

  /** A stream may be read in two parts, as long as the first does not end or reject the transfer. */
  lemma {:induction false} FlatSplits(env: Env, s: State, xs: seq<Item>, ys: seq<Item>)
    requires Askable(env, s)
    requires var (t, ok) := Flat(env, s, xs); ok && !t.finished
    ensures var t := Flat(env, s, xs).0; Askable(env, t) && Flat(env, s, xs + ys) == Flat(env, t, ys)
    decreases |xs|
  {
    if xs == [] {
      assert xs + ys == ys;
    } else {
      var x := xs[0];
      assert (xs + ys)[0] == x && (xs + ys)[1..] == xs[1..] + ys;
      SplitsAfterOne(env, s, x, xs[1..]);
      var t := Step(env, s, x, false, |xs| == 1).0;
      StaysAskable(env, s, x, false, |xs| == 1);
      FlatSplits(env, t, xs[1..], ys);
    }
  }

  lemma {:induction false} SplitsAfterOne(env: Env, s: State, x: Item, rest: seq<Item>)
    requires var (t, ok) := Flat(env, s, [x] + rest); ok && !t.finished
    ensures !s.finished
    ensures var (t, v) := Step(env, s, x, false, rest == []);
      && v == Next && !t.finished && Flat(env, s, [x] + rest) == Flat(env, t, rest)
      && Step(env, s, x, false, false) == (t, v) && Step(env, s, x, false, true) == (t, v)
  {
    var xs := [x] + rest;
    assert xs[0] == x && xs[1..] == rest;
    if s.finished { FlatKeepsFinished(env, s, xs); }
    FinishedStays(env, s, x, rest == []);
    var t := Step(env, s, x, false, rest == []).0;
    if t.finished { FlatKeepsFinished(env, t, rest); }
    LastIsNoDifferent(env, s, x);
    NextAnyway(env, s, x);
  }

  /** Whether the transfer ends at a record does not depend on what follows in the message. */
  lemma {:induction false} NextAnyway(env: Env, s: State, x: Item)
    ensures var (t, v) := Step(env, s, x, false, false); var (u, w) := Step(env, s, x, false, true);
      v == w && t.finished == u.finished && t.(marks := u.marks) == u
  {
  }

  /** A part in which the transfer ends with the last record, stops or is rejected decides, unless it ended early. */
  lemma {:induction false} FlatDecides(env: Env, s: State, xs: seq<Item>, ys: seq<Item>)
    requires ys != [] && !s.finished && !EndsEarly(env, s, xs + ys)
    requires var (t, ok) := Flat(env, s, xs); !ok || t.finished
    ensures Flat(env, s, xs + ys) == Flat(env, s, xs)
    decreases |xs|
  {
    var x := xs[0];
    assert (xs + ys)[0] == x && (xs + ys)[1..] == xs[1..] + ys;
    LastIsNoDifferent(env, s, x);
    var (t, v) := Step(env, s, x, false, false);
    if v == Next { FlatDecides(env, t, xs[1..], ys); }
  }

  lemma {:induction false} EndsNoEarlierInRest(env: Env, s: State, xs: seq<Item>, ys: seq<Item>)
    requires ys != [] && !EndsEarly(env, s, xs + ys)
    requires var (t, ok) := Flat(env, s, xs); ok && !t.finished
    ensures !EndsEarly(env, Flat(env, s, xs).0, ys)
    decreases |xs|
  {
    if xs == [] {
      assert xs + ys == ys;
    } else {
      var x := xs[0];
      assert (xs + ys)[0] == x && (xs + ys)[1..] == xs[1..] + ys && xs == [x] + xs[1..];
      SplitsAfterOne(env, s, x, xs[1..]);
      EndsNoEarlierInRest(env, Step(env, s, x, false, false).0, xs[1..], ys);
    }
  }

  lemma {:induction false} MessageIsFlat(env: Env, s: State, m: Message)
    requires m.framed && Askable(env, s)
    ensures ParseMessage(env, s, m) == Flat(env, ReadOptions(s, m), m.items)
  {
    ParseFromIsFlat(env, ReadOptions(s, m), m.items, 0);
    assert m.items[0..] == m.items;
  }

  /** Reading the messages is reading their records in a row, if the transfer does not end before the last one. */
  lemma {:induction false} StreamIsFlat(env: Env, s: State, msgs: seq<Message>)
    requires Sendable(msgs) && msgs != [] && Askable(env, s) && !s.finished
    requires !EndsEarly(env, ReadOptions(s, msgs[0]), Concat(msgs))
    ensures ParseStream(env, s, msgs) == Flat(env, ReadOptions(s, msgs[0]), Concat(msgs))
    decreases |msgs|
  {
    var s0 := ReadOptions(s, msgs[0]);
    var xs, rest := msgs[0].items, msgs[1..];
    MessageIsFlat(env, s, msgs[0]);
    var (t, ok) := Flat(env, s0, xs);
    if rest == [] {
      assert Concat(msgs) == xs;
    } else {
      assert rest[0].items != [] && Concat(rest) != [];
      if ok && !t.finished {
        FlatSplits(env, s0, xs, Concat(rest));
        EndsNoEarlierInRest(env, s0, xs, Concat(rest));
        assert ReadOptions(t, rest[0]) == t;
        StreamIsFlat(env, t, rest);
      } else {
        FlatDecides(env, s0, xs, Concat(rest));
      }
    }
  }

  /** Any stream is read up to the end of some message: the last one, or the one in which the transfer is decided. */
  lemma {:induction false} StreamIsPrefix(env: Env, s: State, msgs: seq<Message>) returns (n: nat)
    requires Sendable(msgs) && msgs != [] && Askable(env, s) && !s.finished
    ensures 0 < n <= |Concat(msgs)|
    ensures ParseStream(env, s, msgs) == Flat(env, ReadOptions(s, msgs[0]), Concat(msgs)[..n])
    ensures var (t, ok) := ParseStream(env, s, msgs); n == |Concat(msgs)| || !ok || t.finished
    decreases |msgs|
  {
    var s0 := ReadOptions(s, msgs[0]);
    var xs, rest := msgs[0].items, msgs[1..];
    MessageIsFlat(env, s, msgs[0]);
    var (t, ok) := Flat(env, s0, xs);
    n := |xs|;
    assert Concat(msgs) == xs + Concat(rest) && (xs + Concat(rest))[..n] == xs;
    if ok && !t.finished && rest != [] {
      assert ReadOptions(t, rest[0]) == t;
      assert Askable(env, t) by { FlatSplits(env, s0, xs, []); }
      var m := StreamIsPrefix(env, t, rest);
      FlatSplits(env, s0, xs, Concat(rest)[..m]);
      n := |xs| + m;
      assert (xs + Concat(rest))[..n] == xs + Concat(rest)[..m];
    }
  }

  // ---- when the cut matters ----

  /** The ways to cut a stream into messages with these options in the first. */
  ghost predicate CutOf(msgs: seq<Message>, items: seq<Item>, options: Options) {
    && Sendable(msgs) && msgs != [] && Concat(msgs) == items
    && msgs[0].expireOption == options.expire && msgs[0].extended == options.extended
  }

  /** Both refused, or both taken with the same result; the marks are only notes. */
  ghost predicate SameOutcome(a: (State, bool), b: (State, bool)) {
    a.1 == b.1 && (a.1 ==> a.0.(marks := b.0.marks) == b.0)
  }

  ghost predicate CutsAgree(env: Env, s: State, items: seq<Item>, options: Options) {
    forall a, b :: CutOf(a, items, options) && CutOf(b, items, options) ==>
      SameOutcome(ParseStream(env, s, a), ParseStream(env, s, b))
  }

  /** A session right after the record that ended its transfer. */
  ghost predicate Ended(s: State) {
    s.finished && s.soaCount >= 2 && (s.ixfr ==> s.soaCount >= 3 && !s.deleting && s.expectedSerial == s.openSerial)
  }

  /** What has been read so far, in one number. */
  function Progress(s: State): nat {
    |s.records| + s.counts.extRecords + s.counts.extWrapped + s.counts.outside + s.soaCount
  }

  ghost predicate EndsEnded(r: (State, Verdict)) {
    r.1 == Next && r.0.finished ==> Ended(r.0)
  }

  lemma {:induction false} SoaEndsEnded(env: Env, s: State, soa: RR, last: bool)
    requires !s.finished && soa.IsSoa() && s.soaCount > 0
    ensures EndsEnded(SoaStep(env, s, soa, false, last))
  {
  }

  lemma {:induction false} RecordEndsEnded(env: Env, s: State, rr: RR, c: nat, w: bool, last: bool)
    requires !s.finished
    ensures EndsEnded(RecordStep(env, s, rr, c, w, false, last))
  {
    if rr.IsSoa() { SoaEndsEnded(env, s.(soaCount := s.soaCount + 1), rr, last); }
  }

  lemma {:induction false} EndIsEnded(env: Env, s: State, item: Item, last: bool)
    requires !s.finished
    ensures EndsEnded(Step(env, s, item, false, last))
  {
    match item
    case Plain(rr, c) => RecordEndsEnded(env, s, rr, c, false, last);
    case Wrapped(d, rr, c) =>
      var u := s.(counts := s.counts.(extWrapped := s.counts.extWrapped + 1));
      if !(env.loader && !d) {
        assert Step(env, s, item, false, last) == RecordStep(env, u, rr, c, d && rr.IsSoa(), false, last);
        RecordEndsEnded(env, u, rr, c, d && rr.IsSoa(), last);
      }
    case _ =>
  }

  /** After the end, every record is refused or leaves a trace. */
  lemma {:induction false} RecordShows(env: Env, s: State, rr: RR, c: nat, w: bool, last: bool)
    requires Ended(s)
    ensures var (t, v) := RecordStep(env, s, rr, c, w, false, last);
      v == Reject || (v == Next && Ended(t) && Progress(t) > Progress(s))
  {
  }

  lemma {:induction false} RecordAfterEndShows(env: Env, s: State, item: Item, last: bool)
    requires Ended(s)
    ensures var (t, v) := Step(env, s, item, false, last);
      v == Reject || (v == Next && Ended(t) && Progress(t) > Progress(s))
  {
    match item
    case Plain(rr, c) => RecordShows(env, s, rr, c, false, last);
    case Wrapped(d, rr, c) =>
      var u := s.(counts := s.counts.(extWrapped := s.counts.extWrapped + 1));
      if !(env.loader && !d) {
        assert Step(env, s, item, false, last) == RecordStep(env, u, rr, c, d && rr.IsSoa(), false, last);
        RecordShows(env, u, rr, c, d && rr.IsSoa(), last);
      }
    case _ =>
  }

  lemma {:induction false} RecordsAfterEndShow(env: Env, s: State, items: seq<Item>)
    requires Ended(s)
    ensures var (t, ok) := Flat(env, s, items); !ok || Progress(t) >= Progress(s) + One(items != [])
    decreases |items|
  {
    if items != [] {
      RecordAfterEndShows(env, s, items[0], |items| == 1);
      var (t, v) := Step(env, s, items[0], false, |items| == 1);
      if v == Next { RecordsAfterEndShow(env, t, items[1..]); }
    }
  }

  function One(b: bool): nat {
    if b then 1 else 0
  }

  /** Where a stream that ends early ends: cut there it is taken, and read on it is refused or goes further. */
  lemma {:induction false} EarlyEnd(env: Env, s: State, items: seq<Item>) returns (n: nat)
    requires !s.finished && EndsEarly(env, s, items)
    ensures 0 < n < |items|
    ensures var (t, ok) := Flat(env, s, items[..n]); ok && t.finished
    ensures var (t, ok) := Flat(env, s, items); !ok || Progress(t) > Progress(Flat(env, s, items[..n]).0)
    decreases |items|
  {
    var x, rest := items[0], items[1..];
    var t := Step(env, s, x, false, false).0;
    NextAnyway(env, s, x);
    if t.finished {
      n := 1;
      EndIsEnded(env, s, x, false);
      RecordsAfterEndShow(env, t, rest);
      assert items[..1][0] == x && items[..1][1..] == [];
    } else {
      var m := EarlyEnd(env, t, rest);
      n := m + 1;
      assert items[..n][0] == x && items[..n][1..] == rest[..m];
    }
  }

  lemma {:induction false} EarlyEndShows(env: Env, s: State, items: seq<Item>, options: Options)
    requires items != [] && Askable(env, s) && !s.finished
    requires EndsEarly(env, ReadOptions(s, Message(true, items, options.expire, options.extended)), items)
    ensures !CutsAgree(env, s, items, options)
  {
    var whole := Message(true, items, options.expire, options.extended);
    var s0 := ReadOptions(s, whole);
    var n := EarlyEnd(env, s0, items);
    var first, second := whole.(items := items[..n]), Message(true, items[n..], None, false);
    var one, two := [whole], [first, second];
    assert CutOf(one, items, options) by { assert one[1..] == []; }
    assert CutOf(two, items, options) by {
      assert two[1..] == [second] && [second][1..] == [] && Concat([second]) == items[n..];
      assert items == items[..n] + items[n..];
    }
    MessageIsFlat(env, s, whole);
    MessageIsFlat(env, s, first);
    assert one[1..] == [] && two[1..] == [second];
    assert ParseStream(env, s, one) == Flat(env, s0, items);
    assert ParseStream(env, s, two) == Flat(env, s0, items[..n]);
  }

  /**
   * The result of a transfer does not depend on how the primary cuts its records into messages, if and only if no
   * record but the last one of the stream ends the transfer and lets the parser go on.
   */
  lemma {:induction false} CutsDoNotMatter(env: Env, s: State, items: seq<Item>, options: Options)
    requires items != [] && Askable(env, s) && !s.finished
    ensures CutsAgree(env, s, items, options) <==>
      !EndsEarly(env, ReadOptions(s, Message(true, items, options.expire, options.extended)), items)
  {
    var s0 := ReadOptions(s, Message(true, items, options.expire, options.extended));
    if EndsEarly(env, s0, items) {
      EarlyEndShows(env, s, items, options);
    } else {
      forall a, b | CutOf(a, items, options) && CutOf(b, items, options)
        ensures SameOutcome(ParseStream(env, s, a), ParseStream(env, s, b))
      {
        StreamIsFlat(env, s, a);
        StreamIsFlat(env, s, b);
      }
    }
  }

  /**
   * A stream in which the cut is visible: a record after the closing SOA is kept when it is in the same
   * message and never read when it is in the next one.
   */
  lemma TrailingRecordsDependOnTheCut()
    ensures
      var soa := Plain(RR(Apex, 0, Soa(7, 1, 1, 1, 0)), CLASS_IN);
      var rec := RR(Below(1), 0, Other(1, []));
      var a, b := Plain(rec, CLASS_IN), Plain(rec.(owner := Below(2)), CLASS_IN);
      var one := [Message(true, [soa, a, soa, b], None, false)];
      var two := [Message(true, [soa, a, soa], None, false), Message(true, [b], None, false)];
      && Concat(one) == Concat(two)
      && |ParseStream(Env(0, None, false), Start(false), one).0.records| == 3
      && |ParseStream(Env(0, None, false), Start(false), two).0.records| == 2
  {
    var soa := Plain(RR(Apex, 0, Soa(7, 1, 1, 1, 0)), CLASS_IN);
    var rec := RR(Below(1), 0, Other(1, []));
    var a, b := Plain(rec, CLASS_IN), Plain(rec.(owner := Below(2)), CLASS_IN);
    var one := Message(true, [soa, a, soa, b], None, false);
    var two := [Message(true, [soa, a, soa], None, false), Message(true, [b], None, false)];
    assert two[1..] == [two[1]] && Concat([two[1]]) == [b];
    assert [one][1..] == [];
    assert Concat([one]) == Concat(two);
    var env, s0 := Env(0, None, false), Start(false);
    var s1 := Step(env, s0, soa, false, false).0;
    var s2 := Step(env, s1, a, false, false).0;
    var s3 := Step(env, s2, soa, false, false).0;
    var s4 := Step(env, s3, b, false, true).0;
    assert ReadOptions(s0, one) == s0;
    assert ParseFrom(env, s2, one.items, 2) == ParseFrom(env, s4, one.items, 4);
    assert ParseFrom(env, s0, one.items, 0) == ParseFrom(env, s2, one.items, 2);
    var t3 := Step(env, s2, soa, false, true).0;
    assert ParseFrom(env, s2, two[0].items, 2) == ParseFrom(env, t3, two[0].items, 3);
    assert ParseFrom(env, s0, two[0].items, 0) == ParseFrom(env, s2, two[0].items, 2);
  }
}
