/**
 * Secondaries in a ring, each refreshing from the one before it as soon as that one has taken its answer up: the time
 * left is not reduced by the time an answer takes, so that it goes round without becoming less.  This makes the bound
 * on the refresh interval exact.
 */
module ExpiryRing {
  import opened Expiry
  import opened ExpiryGraph
  import opened ExpiryPaths

  function Following(c: Node, n: nat): Node {
    if c + 1 < n then c + 1 else 0
  }

  /** How many exchanges ago x took an answer up, when c just did. */
  function Age(x: Node, c: Node, n: nat): int {
    if x <= c then c - x else c + n - x
  }

  /** The one that answered last has all its time in hand; the others took their answers up an exchange apart. */
  ghost predicate InHand(net: Net, soaExpire: nat, s: Schedule, c: Node) {
    && net.flights == [] && net.heard == 10 && 10 <= net.now && c < s.n
    && c in net.timers && net.timers[c] == Timer(net.now + soaExpire, net.now, soaExpire)
    && forall x :: x in net.timers ==> Waiting(net, net.timers[x], soaExpire, s, Age(x, c, s.n)) && x < s.n
  }

  ghost predicate Waiting(net: Net, t: Timer, soaExpire: nat, s: Schedule, age: int) {
    0 < t.expireAt <= net.now + soaExpire && t.lastOk + age * s.delay <= net.now
  }

  function Asked(net: Net, soaExpire: nat, c: Node, s: Schedule): Net {
    Next(net, soaExpire, Ask(Following(c, s.n), c))
  }

  lemma {:induction false} AskInHand(net: Net, soaExpire: nat, s: Schedule, c: Node)
    requires InHand(net, soaExpire, s, c) && soaExpire > 0 && Spare(s) <= 0
    ensures Keeps(net, Ask(Following(c, s.n), c), s)
    ensures Asked(net, soaExpire, c, s) == net.(flights := [Flight(Following(c, s.n), soaExpire, net.now)])
  {
    var y := Following(c, s.n);
    TripIs(s.n - 1, s);
    assert Age(y, c, s.n) == s.n - 1;
    assert y in net.timers ==> Waiting(net, net.timers[y], soaExpire, s, Age(y, c, s.n));
  }

  lemma {:induction false} WaitingOn(net: Net, net': Net, t: Timer, soaExpire: nat, s: Schedule, age: int)
    requires Waiting(net, t, soaExpire, s, age) && net'.now == net.now + s.delay
    ensures Waiting(net', t, soaExpire, s, age + 1)
  {
    assert (age + 1) * s.delay == age * s.delay + s.delay;
  }

  /** One exchange later the next one has all its time in hand. */
  lemma {:induction false} TakenInHand(net: Net, soaExpire: nat, s: Schedule, c: Node)
    requires InHand(net, soaExpire, s, c) && soaExpire > 0
    ensures
      var y := Following(c, s.n);
      var later := net.(flights := [Flight(y, soaExpire, net.now)], now := net.now + s.delay);
      && Keeps(later, TakeUp(0, false, soaExpire), s)
      && InHand(Next(later, soaExpire, TakeUp(0, false, soaExpire)), soaExpire, s, y)
  {
    var y := Following(c, s.n);
    var later := net.(flights := [Flight(y, soaExpire, net.now)], now := net.now + s.delay);
    var after := Next(later, soaExpire, TakeUp(0, false, soaExpire));
    forall x | x in net.timers ensures Waiting(after, net.timers[x], soaExpire, s, Age(x, c, s.n) + 1) && x < s.n {
      WaitingOn(net, after, net.timers[x], soaExpire, s, Age(x, c, s.n));
    }
    assert CurrentDeadline(later, y) <= later.now + soaExpire by {
      if y in net.timers { assert Waiting(after, net.timers[y], soaExpire, s, Age(y, c, s.n) + 1); }
    }
    assert after.timers == net.timers[y := Timer(after.now + soaExpire, after.now, soaExpire)];
    forall x | x in after.timers ensures Waiting(after, after.timers[x], soaExpire, s, Age(x, y, s.n)) && x < s.n {
      if x != y { assert Age(x, y, s.n) == Age(x, c, s.n) + 1; }
    }
  }

  // ---- the run ----

  function Holder(n: nat, k: nat): Node {
    if k == 0 then 0 else Following(Holder(n, k - 1), n)
  }

  /** Secondary 0 hears the primary once; after that they only hear each other. */
  function Round(soaExpire: nat, s: Schedule, k: nat): seq<Event> {
    if k == 0 then [AskPrimary(0), Tick(s.delay), TakeUp(0, true, soaExpire)]
    else
      var c := Holder(s.n, k - 1);
      Round(soaExpire, s, k - 1) + [Ask(Following(c, s.n), c), Tick(s.delay), TakeUp(0, false, soaExpire)]
  }

  lemma {:induction false} OneMore(soaExpire: nat, s: Schedule, es: seq<Event>, e: Event)
    requires OnSchedule(BEGINNING, soaExpire, es, s) && Keeps(Run(BEGINNING, soaExpire, es), e, s)
    ensures OnSchedule(BEGINNING, soaExpire, es + [e], s)
    ensures Run(BEGINNING, soaExpire, es + [e]) == Next(Run(BEGINNING, soaExpire, es), soaExpire, e)
  {
    assert (es + [e])[..|es|] == es;
  }

  lemma {:induction false} ThreeMore(soaExpire: nat, s: Schedule, es: seq<Event>, a: Event, b: Event, c: Event)
    requires OnSchedule(BEGINNING, soaExpire, es, s)
    requires
      var n0 := Run(BEGINNING, soaExpire, es);
      var n1 := Next(n0, soaExpire, a);
      var n2 := Next(n1, soaExpire, b);
      Keeps(n0, a, s) && Keeps(n1, b, s) && Keeps(n2, c, s)
    ensures OnSchedule(BEGINNING, soaExpire, es + [a, b, c], s)
    ensures Run(BEGINNING, soaExpire, es + [a, b, c]) ==
      Next(Next(Next(Run(BEGINNING, soaExpire, es), soaExpire, a), soaExpire, b), soaExpire, c)
  {
    OneMore(soaExpire, s, es, a);
    OneMore(soaExpire, s, es + [a], b);
    OneMore(soaExpire, s, es + [a] + [b], c);
    assert es + [a, b, c] == es + [a] + [b] + [c];
  }

  lemma {:induction false} FirstRound(soaExpire: nat, s: Schedule)
    requires soaExpire > 0 && s.n > 0
    ensures OnSchedule(BEGINNING, soaExpire, Round(soaExpire, s, 0), s)
    ensures
      var r := Run(BEGINNING, soaExpire, Round(soaExpire, s, 0));
      InHand(r, soaExpire, s, 0) && r.now == 10 + s.delay
  {
    ThreeMore(soaExpire, s, [], AskPrimary(0), Tick(s.delay), TakeUp(0, true, soaExpire));
    assert [] + Round(soaExpire, s, 0) == Round(soaExpire, s, 0);
    var f := Flight(0, soaExpire, 10);
    var later := Net(map[], [f], 10, 10 + s.delay);
    assert Next(Next(BEGINNING, soaExpire, AskPrimary(0)), soaExpire, Tick(s.delay)) == later;
    assert Without([f], 0) == [];
    assert Next(later, soaExpire, TakeUp(0, true, soaExpire)).timers ==
      map[0 := Timer(later.now + soaExpire, later.now, soaExpire)];
  }

  lemma {:induction false} NextRound(soaExpire: nat, s: Schedule, es: seq<Event>, c: Node)
    requires soaExpire > 0 && Spare(s) <= 0
    requires OnSchedule(BEGINNING, soaExpire, es, s) && InHand(Run(BEGINNING, soaExpire, es), soaExpire, s, c)
    ensures var all := es + [Ask(Following(c, s.n), c), Tick(s.delay), TakeUp(0, false, soaExpire)];
      && OnSchedule(BEGINNING, soaExpire, all, s)
      && InHand(Run(BEGINNING, soaExpire, all), soaExpire, s, Following(c, s.n))
      && Run(BEGINNING, soaExpire, all).now == Run(BEGINNING, soaExpire, es).now + s.delay
  {
    var net := Run(BEGINNING, soaExpire, es);
    AskInHand(net, soaExpire, s, c);
    TakenInHand(net, soaExpire, s, c);
    ThreeMore(soaExpire, s, es, Ask(Following(c, s.n), c), Tick(s.delay), TakeUp(0, false, soaExpire));
  }

  /**
   * When the refresh interval is not longer than n - 1 exchanges take, n secondaries in a ring that keep to it never
   * come any closer to their deadline, whatever SOA EXPIRE is and however long the primary is gone.
   */
  lemma {:induction false} RingNeverExpires(soaExpire: nat, s: Schedule, k: nat)
    requires soaExpire > 0 && s.n > 0 && s.delay > 0 && Spare(s) <= 0
    ensures OnSchedule(BEGINNING, soaExpire, Round(soaExpire, s, k), s)
    ensures
      var r := Run(BEGINNING, soaExpire, Round(soaExpire, s, k));
      InHand(r, soaExpire, s, Holder(s.n, k)) && r.now >= 10 + k
    decreases k
  {
    if k == 0 {
      FirstRound(soaExpire, s);
    } else {
      RingNeverExpires(soaExpire, s, k - 1);
      NextRound(soaExpire, s, Round(soaExpire, s, k - 1), Holder(s.n, k - 1));
    }
  }

  lemma {:induction false} RingRefutes(soaExpire: nat, s: Schedule, time: nat)
    requires soaExpire > 0 && s.n > 0 && s.delay > 0 && Spare(s) <= 0
    ensures !ExpireWithin(soaExpire, s, time)
  {
    RingNeverExpires(soaExpire, s, time);
    var es, c := Round(soaExpire, s, time), Holder(s.n, time);
    assert !ExpiredAfter(Run(BEGINNING, soaExpire, es), c, time);
  }

  // ---- the exact conditions ----

  lemma {:induction false} NoDelays(soaExpire: nat, es: seq<Event>, s: Schedule)
    requires OnSchedule(BEGINNING, soaExpire, es, s) && s.delay == 0
    ensures Delays(BEGINNING, soaExpire, es) == 0
    decreases |es|
  {
    if es != [] { NoDelays(soaExpire, es[..|es| - 1], s); }
  }

  lemma {:induction false} NoDelaysExpire(soaExpire: nat, s: Schedule)
    requires s.delay == 0
    ensures ExpireWithin(soaExpire, s, soaExpire)
  {
    forall es, n | OnSchedule(BEGINNING, soaExpire, es, s)
      ensures ExpiredAfter(Run(BEGINNING, soaExpire, es), n, soaExpire)
    {
      NoDelays(soaExpire, es, s);
      var r := Run(BEGINNING, soaExpire, es);
      if n in r.timers && r.now >= r.heard + soaExpire { AllExpire(BEGINNING, soaExpire, es, n); }
    }
  }

  /**
   * Secondaries that refresh from each other, in every graph and every order, all expire some fixed time after the
   * primary was last heard if and only if both clocks of every exchange read the same second, or the refresh interval
   * they keep to is longer than n - 1 exchanges take.
   */
  lemma {:induction false} ExpiryThreshold(soaExpire: nat, s: Schedule)
    requires soaExpire > 0 && s.n > 0
    ensures (exists time :: ExpireWithin(soaExpire, s, time)) <==> s.delay == 0 || (s.n - 1) * s.delay < s.refresh
  {
    TripIs(s.n - 1, s);
    if s.delay == 0 {
      NoDelaysExpire(soaExpire, s);
    } else if Spare(s) > 0 {
      var time := soaExpire + Trip(MostHops(soaExpire, s), s);
      forall es, n | OnSchedule(BEGINNING, soaExpire, es, s)
        ensures ExpiredAfter(Run(BEGINNING, soaExpire, es), n, time)
      {
        PacedAllExpire(BEGINNING, soaExpire, es, s, n);
      }
      assert ExpireWithin(soaExpire, s, time);
    } else {
      forall time ensures !ExpireWithin(soaExpire, s, time) { RingRefutes(soaExpire, s, time); }
    }
  }

  /**
   * What section 4 of RFC 7314 is for: all expire within SOA EXPIRE of the primary's last word.  That is so if and
   * only if both clocks of every exchange read the same second.
   */
  lemma {:induction false} PromiseNeedsNoDelay(soaExpire: nat, s: Schedule)
    requires soaExpire > 0 && s.n > 0
    ensures ExpireWithin(soaExpire, s, soaExpire) <==> s.delay == 0
  {
    if s.delay == 0 {
      NoDelaysExpire(soaExpire, s);
    } else {
      var wait := Tick(if s.delay < soaExpire then soaExpire - s.delay else 0);
      FirstRound(soaExpire, s);
      OneMore(soaExpire, s, Round(soaExpire, s, 0), wait);
      assert !ExpiredAfter(Run(BEGINNING, soaExpire, Round(soaExpire, s, 0) + [wait]), 0, soaExpire);
    }
  }
}
