/**
 * The expire timers in a graph of secondaries that refresh from each other, with any number of exchanges under way at
 * once.  A parent reads the clock when it answers, the child when it takes the answer up.
 */
module ExpiryGraph {
  import opened Expiry

  type Node = nat

  /** An answer on its way: what the EXPIRE option said, and when the one who answered read the clock. */
  datatype Flight = Flight(child: Node, value: nat, sentAt: nat)

  /** The secondaries that have the zone, the answers under way, when the primary last answered one, and the clock. */
  datatype Net = Net(timers: map<Node, Timer>, flights: seq<Flight>, heard: nat, now: nat)

  /**
   * A secondary asks the primary, or a parent that has the zone; later it takes the answer up, as a transfer or as
   * "up to date".  expire is the SOA EXPIRE value as the child keeps it (with its own limits applied).
   */
  datatype Event =
    | Tick(seconds: nat)
    | AskPrimary(child: Node)
    | Ask(child: Node, parent: Node)
    | TakeUp(flight: nat, transferred: bool, expire: nat)

  function CurrentDeadline(net: Net, n: Node): nat {
    if n in net.timers then Deadline(net.timers[n]) else 0
  }

  function Taken(net: Net, f: Flight, transferred: bool, expire: nat): Timer {
    Timer(NewDeadline(transferred, Present(f.value), expire, CurrentDeadline(net, f.child), net.now), net.now, expire)
  }

  function Without<T>(s: seq<T>, i: nat): seq<T>
    requires i < |s|
  {
    s[..i] + s[i + 1..]
  }

  lemma {:induction false} WithoutAt<T>(s: seq<T>, i: nat, k: nat)
    requires i < |s| && k < |s| - 1
    ensures Without(s, i)[k] == s[if k < i then k else k + 1]
  {
  }

  function Next(net: Net, soaExpire: nat, e: Event): Net {
    match e
    case Tick(s) => net.(now := net.now + s)
    case AskPrimary(child) => net.(flights := net.flights + [Flight(child, soaExpire, net.now)], heard := net.now)
    case Ask(child, parent) =>
      if parent !in net.timers then net
      else net.(flights := net.flights + [Flight(child, OptionValue(net.timers[parent], net.now), net.now)])
    case TakeUp(i, transferred, expire) =>
      if i >= |net.flights| then net
      else
        var f := net.flights[i];
        net.(timers := net.timers[f.child := Taken(net, f, transferred, expire)], flights := Without(net.flights, i))
  }

  function Run(net: Net, soaExpire: nat, es: seq<Event>): Net {
    if es == [] then net else Next(Run(net, soaExpire, es[..|es| - 1]), soaExpire, es[|es| - 1])
  }

  /** How far apart the two clock readings of an exchange are. */
  function Delay(net: Net, e: Event): nat {
    if e.TakeUp? && e.flight < |net.flights| && net.flights[e.flight].sentAt <= net.now
    then net.now - net.flights[e.flight].sentAt
    else 0
  }

  function Delays(net: Net, soaExpire: nat, es: seq<Event>): nat {
    if es == [] then 0
    else Delays(net, soaExpire, es[..|es| - 1]) + Delay(Run(net, soaExpire, es[..|es| - 1]), es[|es| - 1])
  }

  function Max(a: nat, b: nat): nat {
    if a > b then a else b
  }

  /** No secondary has the zone yet. */
  ghost predicate Beginning(net: Net) {
    net.timers == map[] && net.flights == [] && 0 < net.now && net.heard <= net.now
  }

  const BEGINNING := Net(map[], [], 10, 10)

  // ---- what the exchanges add ----

  /** No deadline, and no answer under way, allows more than the primary's last word does, up to slack. */
  ghost predicate Bounded(net: Net, soaExpire: nat, slack: nat) {
    && 0 < net.now && net.heard <= net.now
    && (forall n :: n in net.timers ==> 0 < net.timers[n].expireAt <= Max(net.now, net.heard + soaExpire + slack))
    && (forall i :: 0 <= i < |net.flights| ==> FlightBounded(net, net.flights[i], soaExpire + slack))
  }

  ghost predicate FlightBounded(net: Net, f: Flight, time: nat) {
    f.sentAt <= net.now && (f.value == 0 || f.sentAt + f.value <= net.heard + time)
  }

  lemma {:induction false} TakeUpBounded(net: Net, soaExpire: nat, slack: nat, e: Event)
    requires Bounded(net, soaExpire, slack) && e.TakeUp? && e.flight < |net.flights|
    ensures Bounded(Next(net, soaExpire, e), soaExpire, slack + Delay(net, e))
  {
    var f := net.flights[e.flight];
    assert FlightBounded(net, f, soaExpire + slack);
    NewDeadlineMeaning(e.transferred, f.value, e.expire, CurrentDeadline(net, f.child), net.now);
    var left := Without(net.flights, e.flight);
    forall i | 0 <= i < |left| ensures FlightBounded(net, left[i], soaExpire + slack) {
      WithoutAt(net.flights, e.flight, i);
    }
  }

  lemma {:induction false} NextBounded(net: Net, soaExpire: nat, slack: nat, e: Event)
    requires Bounded(net, soaExpire, slack)
    ensures Bounded(Next(net, soaExpire, e), soaExpire, slack + Delay(net, e))
  {
    if e.TakeUp? {
      if e.flight < |net.flights| { TakeUpBounded(net, soaExpire, slack, e); }
    } else {
      var net' := Next(net, soaExpire, e);
      forall i | 0 <= i < |net.flights| ensures FlightBounded(net', net.flights[i], soaExpire + slack) {
        assert FlightBounded(net, net.flights[i], soaExpire + slack);
      }
    }
  }

  /**
   * In every graph and every order of exchanges that carry the EXPIRE option, cycles and overlaps included: no
   * deadline is later than the last word of the primary plus SOA EXPIRE plus all the delays (and the present).
   */
  lemma {:induction false} DeadlinesBounded(net: Net, soaExpire: nat, es: seq<Event>)
    requires Beginning(net)
    ensures Bounded(Run(net, soaExpire, es), soaExpire, Delays(net, soaExpire, es))
    decreases |es|
  {
    if es != [] {
      var before := es[..|es| - 1];
      DeadlinesBounded(net, soaExpire, before);
      NextBounded(Run(net, soaExpire, before), soaExpire, Delays(net, soaExpire, before), es[|es| - 1]);
    }
  }

  /** When both clocks of every exchange read the same second, all expire SOA EXPIRE after the primary is last heard. */
  lemma {:induction false} AllExpire(net: Net, soaExpire: nat, es: seq<Event>, n: Node)
    requires Beginning(net) && Delays(net, soaExpire, es) == 0
    requires var r := Run(net, soaExpire, es); n in r.timers && r.now >= r.heard + soaExpire
    ensures var r := Run(net, soaExpire, es); Deadline(r.timers[n]) <= r.now && OptionValue(r.timers[n], r.now) == 0
  {
    DeadlinesBounded(net, soaExpire, es);
  }

  // ---- schedules ----

  /** n secondaries; one asks no sooner than `refresh` after it last took an answer up; an exchange takes `delay` at most. */
  datatype Schedule = Schedule(n: nat, refresh: nat, delay: nat)

  ghost predicate Keeps(net: Net, e: Event, c: Schedule) {
    match e
    case Tick(_) => true
    case AskPrimary(child) => child < c.n
    case Ask(child, _) => child < c.n && (child in net.timers ==> net.timers[child].lastOk + c.refresh <= net.now)
    case TakeUp(i, _, _) => i < |net.flights| ==> net.now <= net.flights[i].sentAt + c.delay
  }

  ghost predicate OnSchedule(net: Net, soaExpire: nat, es: seq<Event>, c: Schedule) {
    || es == []
    || (OnSchedule(net, soaExpire, es[..|es| - 1], c) && Keeps(Run(net, soaExpire, es[..|es| - 1]), es[|es| - 1], c))
  }

  /** However they refresh from each other, all have expired when the primary was not heard for `time` seconds. */
  ghost predicate ExpireWithin(soaExpire: nat, c: Schedule, time: nat) {
    forall es, n :: OnSchedule(BEGINNING, soaExpire, es, c) ==> ExpiredAfter(Run(BEGINNING, soaExpire, es), n, time)
  }

  ghost predicate ExpiredAfter(net: Net, n: Node, time: nat) {
    n in net.timers && net.now >= net.heard + time ==> Deadline(net.timers[n]) <= net.now
  }
}
