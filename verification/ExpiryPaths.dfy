/**
 * Why secondaries that keep to their refresh interval do expire.  Every deadline goes back to an answer of the primary
 * along a path of exchanges; a path that comes back to a secondary has waited for its refresh interval.
 */
module ExpiryPaths {
  import opened Expiry
  import opened ExpiryGraph

  /** One exchange of a path: who asked, when the answer was given, and when it was taken up. */
  datatype Hop = Hop(node: Node, asked: nat, taken: nat)

  ghost predicate Prompt(h: Hop, c: Schedule) {
    h.node < c.n && h.asked <= h.taken <= h.asked + c.delay
  }

  /** A later exchange asks after the earlier one was over, and by the refresh interval later if the same secondary asks. */
  ghost predicate Apart(a: Hop, b: Hop, c: Schedule) {
    a.taken <= b.asked && (a.node == b.node ==> a.taken + c.refresh <= b.asked)
  }

  ghost predicate Timely(p: seq<Hop>, c: Schedule) {
    && (forall i :: 0 <= i < |p| ==> Prompt(p[i], c))
    && (forall i, j {:trigger Apart(p[i], p[j], c)} :: 0 <= i < j < |p| ==> Apart(p[i], p[j], c))
  }

  /** The time in exchanges, and the time between them. */
  function Travelled(p: seq<Hop>): int {
    if p == [] then 0 else Travelled(p[..|p| - 1]) + p[|p| - 1].taken - p[|p| - 1].asked
  }

  function Waited(p: seq<Hop>): int {
    if |p| <= 1 then 0 else Waited(p[..|p| - 1]) + p[|p| - 1].asked - p[|p| - 2].taken
  }

  lemma {:induction false} TimeAdds(p: seq<Hop>)
    requires p != []
    ensures p[|p| - 1].taken == p[0].asked + Travelled(p) + Waited(p)
    decreases |p|
  {
    if |p| > 1 {
      TimeAdds(p[..|p| - 1]);
    } else {
      assert Travelled(p[..0]) == 0;
    }
  }

  lemma {:induction false} TimelyPart(p: seq<Hop>, k: nat, c: Schedule)
    requires Timely(p, c) && k <= |p|
    ensures Timely(p[..k], c)
  {
    forall i, j | 0 <= i < j < k ensures Apart(p[..k][i], p[..k][j], c) { assert Apart(p[i], p[j], c); }
  }

  /** The time m exchanges take at most. */
  function Trip(m: nat, c: Schedule): nat {
    if m == 0 then 0 else Trip(m - 1, c) + c.delay
  }

  lemma {:induction false} TripIs(m: nat, c: Schedule)
    ensures Trip(m, c) == m * c.delay
    decreases m
  {
    if m > 0 { TripIs(m - 1, c); }
  }

  lemma {:induction false} TripGrows(a: nat, b: nat, c: Schedule)
    requires a <= b
    ensures Trip(a, c) <= Trip(b, c)
    decreases b
  {
    if a < b { TripGrows(a, b - 1, c); }
  }

  lemma {:induction false} TravelBound(p: seq<Hop>, j: nat, k: nat, c: Schedule)
    requires Timely(p, c) && j <= k <= |p|
    ensures 0 <= Travelled(p[..k]) - Travelled(p[..j]) <= Trip(k - j, c)
    decreases k
  {
    if j < k {
      assert p[..k][..k - 1] == p[..k - 1];
      TravelBound(p, j, k - 1, c);
    }
  }

  lemma {:induction false} WaitsAddUp(p: seq<Hop>, j: nat, k: nat, c: Schedule)
    requires Timely(p, c) && j <= k <= |p|
    ensures Waited(p[..j]) <= Waited(p[..k])
    decreases k
  {
    if j < k {
      assert p[..k][..k - 1] == p[..k - 1];
      WaitsAddUp(p, j, k - 1, c);
      assert k > 1 ==> Apart(p[k - 2], p[k - 1], c);
    }
  }

  /** Between two visits to one secondary the refresh interval was spent in exchanges and waiting. */
  lemma {:induction false} ReturnTakes(p: seq<Hop>, j: nat, k: nat, c: Schedule)
    requires Timely(p, c) && j < k < |p| && p[j].node == p[k].node
    ensures Waited(p[..k + 1]) - Waited(p[..j + 1]) >= c.refresh - (Travelled(p[..k]) - Travelled(p[..j + 1]))
  {
    assert Apart(p[j], p[k], c);
    TimeAdds(p[..j + 1]);
    TimeAdds(p[..k + 1]);
    assert p[..k + 1][..k] == p[..k];
  }

  /** What n - 1 exchanges leave of a refresh interval. */
  function Spare(c: Schedule): int {
    c.refresh - Trip(if c.n > 0 then c.n - 1 else 0, c)
  }

  lemma {:induction false} ReturnWaits(p: seq<Hop>, j: nat, k: nat, c: Schedule)
    requires Timely(p, c) && j < k < |p| && p[j].node == p[k].node && k - j <= c.n
    ensures Waited(p[..k + 1]) - Waited(p[..j + 1]) >= Spare(c)
  {
    ReturnTakes(p, j, k, c);
    TravelBound(p, j + 1, k, c);
    TripGrows(k - j - 1, c.n - 1, c);
  }

  // ---- among n + 1 visits to n secondaries two are to the same one ----

  function Visited(p: seq<Hop>, from: nat, m: nat): set<Node>
    requires from + m <= |p|
  {
    if m == 0 then {} else Visited(p, from, m - 1) + {p[from + m - 1].node}
  }

  lemma {:induction false} VisitedIs(p: seq<Hop>, from: nat, m: nat, x: Node)
    requires from + m <= |p| && x in Visited(p, from, m)
    ensures exists i :: from <= i < from + m && p[i].node == x
    decreases m
  {
    if x != p[from + m - 1].node { VisitedIs(p, from, m - 1, x); }
  }

  lemma {:induction false} VisitedBelow(p: seq<Hop>, from: nat, m: nat, n: nat)
    requires from + m <= |p| && forall i :: 0 <= i < |p| ==> p[i].node < n
    ensures forall x :: x in Visited(p, from, m) ==> x < n
    decreases m
  {
    if m > 0 { VisitedBelow(p, from, m - 1, n); }
  }

  lemma {:induction false} FewBelow(s: set<Node>, n: nat)
    requires forall x :: x in s ==> x < n
    ensures |s| <= n
    decreases n
  {
    if n > 0 { FewBelow(s - {n - 1}, n - 1); }
  }

  lemma {:induction false} AllDifferent(p: seq<Hop>, from: nat, m: nat)
    requires from + m <= |p| && forall a, b :: from <= a < b < from + m ==> p[a].node != p[b].node
    ensures |Visited(p, from, m)| == m
    decreases m
  {
    if m > 0 {
      AllDifferent(p, from, m - 1);
      if p[from + m - 1].node in Visited(p, from, m - 1) { VisitedIs(p, from, m - 1, p[from + m - 1].node); }
    }
  }

  lemma {:induction false} Repeats(p: seq<Hop>, from: nat, n: nat) returns (j: nat, k: nat)
    requires from + n < |p| && forall i :: 0 <= i < |p| ==> p[i].node < n
    ensures from <= j < k <= from + n && p[j].node == p[k].node
  {
    if forall a, b :: from <= a < b < from + n + 1 ==> p[a].node != p[b].node {
      AllDifferent(p, from, n + 1);
      VisitedBelow(p, from, n + 1, n);
      FewBelow(Visited(p, from, n + 1), n);
      assert false;
    }
    j, k :| from <= j < k < from + n + 1 && p[j].node == p[k].node;
  }

  lemma {:induction false} ComesBack(p: seq<Hop>, c: Schedule) returns (j: nat, k: nat)
    requires Timely(p, c) && c.n < |p|
    ensures |p| - c.n - 1 <= j < k < |p| && p[j].node == p[k].node
  {
    j, k := Repeats(p, |p| - c.n - 1, c.n);
  }

  /** Every n exchanges of a path waited for what n - 1 exchanges leave of a refresh interval. */
  lemma {:induction false} RoundWaits(p: seq<Hop>, c: Schedule)
    requires Timely(p, c) && c.n < |p|
    ensures Waited(p) >= Waited(p[..|p| - c.n]) + Spare(c)
  {
    var j, k := ComesBack(p, c);
    ReturnWaits(p, j, k, c);
    WaitsBetween(p, |p| - c.n, j + 1, k + 1, c);
  }

  lemma {:induction false} WaitsBetween(p: seq<Hop>, from: nat, j: nat, k: nat, c: Schedule)
    requires Timely(p, c) && from <= j <= k <= |p|
    ensures Waited(p) - Waited(p[..from]) >= Waited(p[..k]) - Waited(p[..j])
  {
    assert p[..|p|] == p;
    WaitsAddUp(p, from, j, c);
    WaitsAddUp(p, k, |p|, c);
  }

  lemma {:induction false} WaitsGrow(p: seq<Hop>, c: Schedule, rounds: nat)
    requires Timely(p, c) && rounds * c.n < |p|
    ensures Waited(p) >= rounds * Spare(c)
    decreases rounds
  {
    if rounds == 0 {
      assert p[..|p|] == p && Waited(p[..1]) == 0;
      WaitsAddUp(p, 1, |p|, c);
    } else {
      TimesLess(rounds, c.n);
      TimesLess(rounds, Spare(c));
      RoundWaits(p, c);
      TimelyPart(p, |p| - c.n, c);
      WaitsGrow(p[..|p| - c.n], c, rounds - 1);
    }
  }

  lemma TimesLess(k: int, x: int)
    ensures k * x == (k - 1) * x + x
  {
  }

  // ---- the paths of a run ----

  /** The path behind every deadline, and behind every answer under way. */
  datatype Trace = Trace(paths: map<Node, seq<Hop>>, carried: seq<seq<Hop>>)

  /** The deadline that an answer brings comes with the answer's path; the running one has its own. */
  function NewPath(net: Net, tr: Trace, f: Flight, p: seq<Hop>, t: Timer): seq<Hop> {
    if f.child in tr.paths && t.expireAt > net.now + f.value then tr.paths[f.child]
    else p + [Hop(f.child, f.sentAt, net.now)]
  }

  function NextTrace(net: Net, tr: Trace, e: Event): Trace {
    match e
    case Tick(_) => tr
    case AskPrimary(_) => tr.(carried := tr.carried + [[]])
    case Ask(_, parent) =>
      if parent !in net.timers || parent !in tr.paths then tr else tr.(carried := tr.carried + [tr.paths[parent]])
    case TakeUp(i, transferred, expire) =>
      if i >= |net.flights| || i >= |tr.carried| then tr
      else
        var f := net.flights[i];
        var p := NewPath(net, tr, f, tr.carried[i], Taken(net, f, transferred, expire));
        Trace(tr.paths[f.child := p], Without(tr.carried, i))
  }

  /** The primary's answer at the start of a path, its EXPIRE value, and the time the exchanges took. */
  function Reach(p: seq<Hop>, sentAt: nat, soaExpire: nat): int {
    (if p == [] then sentAt else p[0].asked) + soaExpire + Travelled(p)
  }

  /** The path is one of this run: the primary did answer, and all the secondaries on it took their answers up. */
  ghost predicate Happened(net: Net, p: seq<Hop>, c: Schedule) {
    && Timely(p, c) && (p != [] ==> p[0].asked <= net.heard && p[|p| - 1].taken <= net.now)
    && forall i :: 0 <= i < |p| ==> p[i].node in net.timers && p[i].taken <= net.timers[p[i].node].lastOk
  }

  ghost predicate TimerHasPath(net: Net, t: Timer, p: seq<Hop>, soaExpire: nat, c: Schedule) {
    && p != [] && Happened(net, p, c)
    && 0 < t.expireAt && (t.expireAt <= net.now || t.expireAt <= Reach(p, 0, soaExpire))
  }

  ghost predicate FlightHasPath(net: Net, f: Flight, p: seq<Hop>, soaExpire: nat, c: Schedule) {
    && f.child < c.n && f.sentAt <= net.now && Happened(net, p, c)
    && (if p == [] then f.sentAt <= net.heard else p[|p| - 1].taken <= f.sentAt)
    && (forall i :: 0 <= i < |p| && p[i].node == f.child ==> p[i].taken + c.refresh <= f.sentAt)
    && (f.value == 0 || f.sentAt + f.value <= Reach(p, f.sentAt, soaExpire))
  }

  ghost predicate TimersTraced(net: Net, timers: map<Node, Timer>, paths: map<Node, seq<Hop>>, soaExpire: nat, c: Schedule)
  {
    && timers.Keys == paths.Keys
    && forall n {:trigger paths[n]} :: n in paths ==> TimerHasPath(net, timers[n], paths[n], soaExpire, c)
  }

  ghost predicate FlightsTraced(net: Net, flights: seq<Flight>, carried: seq<seq<Hop>>, soaExpire: nat, c: Schedule) {
    && |flights| == |carried|
    && forall i :: 0 <= i < |flights| ==> FlightHasPath(net, flights[i], carried[i], soaExpire, c)
  }

  ghost predicate Past(net: Net) {
    0 < net.now && net.heard <= net.now && forall n :: n in net.timers ==> net.timers[n].lastOk <= net.now
  }

  ghost predicate Traced(net: Net, tr: Trace, soaExpire: nat, c: Schedule) {
    && Past(net)
    && TimersTraced(net, net.timers, tr.paths, soaExpire, c)
    && FlightsTraced(net, net.flights, tr.carried, soaExpire, c)
  }

  lemma {:induction false} Longer(p: seq<Hop>, h: Hop, soaExpire: nat, c: Schedule)
    requires Timely(p, c) && h.node < c.n && h.asked <= h.taken <= h.asked + c.delay
    requires p != [] ==> p[|p| - 1].taken <= h.asked
    requires forall i :: 0 <= i < |p| && p[i].node == h.node ==> p[i].taken + c.refresh <= h.asked
    ensures Timely(p + [h], c)
    ensures Reach(p + [h], 0, soaExpire) == Reach(p, h.asked, soaExpire) + h.taken - h.asked
  {
    assert (p + [h])[..|p|] == p;
    var q := p + [h];
    forall i, j | 0 <= i < j < |q| ensures Apart(q[i], q[j], c) {
      if j < |p| { assert Apart(p[i], p[j], c); }
      else if i < |p| - 1 { assert Apart(p[i], p[|p| - 1], c); }
    }
  }

  /** Time only goes on: no timer goes, and none was set earlier than before. */
  ghost predicate Later(net: Net, net': Net) {
    && net.now <= net'.now && net.heard <= net'.heard
    && forall n :: n in net.timers ==> n in net'.timers && net.timers[n].lastOk <= net'.timers[n].lastOk
  }

  lemma {:induction false} TimerKeepsPath(net: Net, net': Net, t: Timer, p: seq<Hop>, soaExpire: nat, c: Schedule)
    requires Later(net, net') && TimerHasPath(net, t, p, soaExpire, c)
    ensures TimerHasPath(net', t, p, soaExpire, c)
  {
  }

  lemma {:induction false} FlightKeepsPath(net: Net, net': Net, f: Flight, p: seq<Hop>, soaExpire: nat, c: Schedule)
    requires Later(net, net') && FlightHasPath(net, f, p, soaExpire, c)
    ensures FlightHasPath(net', f, p, soaExpire, c)
  {
  }

  lemma {:induction false} AnswerHasPath(net: Net, t: Timer, p: seq<Hop>, child: Node, soaExpire: nat, c: Schedule)
    requires TimerHasPath(net, t, p, soaExpire, c) && Keeps(net, Ask(child, 0), c)
    ensures FlightHasPath(net, Flight(child, OptionValue(t, net.now), net.now), p, soaExpire, c)
  {
  }

  lemma {:induction false} TimersLater(net: Net, net': Net, timers: map<Node, Timer>, paths: map<Node, seq<Hop>>,
      soaExpire: nat, c: Schedule)
    requires Later(net, net') && TimersTraced(net, timers, paths, soaExpire, c)
    ensures TimersTraced(net', timers, paths, soaExpire, c)
  {
    forall n {:trigger paths[n]} | n in paths ensures TimerHasPath(net', timers[n], paths[n], soaExpire, c) {
      TimerKeepsPath(net, net', timers[n], paths[n], soaExpire, c);
    }
  }

  lemma {:induction false} TimersSet(net: Net, timers: map<Node, Timer>, paths: map<Node, seq<Hop>>, n: Node, t: Timer,
      p: seq<Hop>, soaExpire: nat, c: Schedule)
    requires TimersTraced(net, timers, paths, soaExpire, c) && TimerHasPath(net, t, p, soaExpire, c)
    ensures TimersTraced(net, timers[n := t], paths[n := p], soaExpire, c)
  {
  }

  lemma {:induction false} FlightsLater(net: Net, net': Net, flights: seq<Flight>, carried: seq<seq<Hop>>,
      soaExpire: nat, c: Schedule)
    requires Later(net, net') && FlightsTraced(net, flights, carried, soaExpire, c)
    ensures FlightsTraced(net', flights, carried, soaExpire, c)
  {
    forall i | 0 <= i < |flights| ensures FlightHasPath(net', flights[i], carried[i], soaExpire, c) {
      FlightKeepsPath(net, net', flights[i], carried[i], soaExpire, c);
    }
  }

  lemma {:induction false} FlightsMore(net: Net, flights: seq<Flight>, carried: seq<seq<Hop>>, f: Flight, p: seq<Hop>,
      soaExpire: nat, c: Schedule)
    requires FlightsTraced(net, flights, carried, soaExpire, c) && FlightHasPath(net, f, p, soaExpire, c)
    ensures FlightsTraced(net, flights + [f], carried + [p], soaExpire, c)
  {
  }

  lemma {:induction false} FlightsLess(net: Net, flights: seq<Flight>, carried: seq<seq<Hop>>, k: nat,
      soaExpire: nat, c: Schedule)
    requires FlightsTraced(net, flights, carried, soaExpire, c) && k < |flights|
    ensures FlightsTraced(net, Without(flights, k), Without(carried, k), soaExpire, c)
  {
    var less, paths := Without(flights, k), Without(carried, k);
    forall i | 0 <= i < |less| ensures FlightHasPath(net, less[i], paths[i], soaExpire, c) {
      WithoutAt(flights, k, i);
      WithoutAt(carried, k, i);
    }
  }

  /** A deadline that came with an answer has the answer's path, one exchange longer. */
  lemma {:induction false} NewDeadlineHasPath(net: Net, net': Net, f: Flight, p: seq<Hop>, t: Timer,
      soaExpire: nat, c: Schedule)
    requires FlightHasPath(net, f, p, soaExpire, c) && net.now <= f.sentAt + c.delay
    requires Later(net, net') && net'.now == net.now && f.child in net'.timers && net'.timers[f.child] == t
    requires 0 < t.expireAt <= net.now + f.value && t.lastOk == net.now
    ensures TimerHasPath(net', t, p + [Hop(f.child, f.sentAt, net.now)], soaExpire, c)
  {
    var h := Hop(f.child, f.sentAt, net.now);
    var q := p + [h];
    Longer(p, h, soaExpire, c);
    forall i | 0 <= i < |q| ensures q[i].node in net'.timers && q[i].taken <= net'.timers[q[i].node].lastOk {
      if i < |p| { assert p[i].node in net.timers; }
    }
  }

  /** A deadline that stays has its old path. */
  lemma {:induction false} OldDeadlineHasPath(net: Net, net': Net, t: Timer, t': Timer, p: seq<Hop>,
      soaExpire: nat, c: Schedule)
    requires TimerHasPath(net, t, p, soaExpire, c) && Later(net, net')
    requires 0 < t'.expireAt <= t.expireAt
    ensures TimerHasPath(net', t', p, soaExpire, c)
  {
  }

  /** The new deadline is the answer's or no later than the running one, and has the path of that one. */
  lemma {:induction false} NewPathFits(net: Net, net': Net, tr: Trace, f: Flight, p: seq<Hop>, t': Timer,
      soaExpire: nat, c: Schedule)
    requires FlightHasPath(net, f, p, soaExpire, c) && net.now <= f.sentAt + c.delay
    requires Later(net, net') && net'.now == net.now && f.child in net'.timers && net'.timers[f.child] == t'
    requires 0 < t'.expireAt && t'.lastOk == net.now
    requires t'.expireAt <= net.now + f.value
      || (f.child in net.timers && f.child in tr.paths && t'.expireAt <= net.timers[f.child].expireAt
          && TimerHasPath(net, net.timers[f.child], tr.paths[f.child], soaExpire, c))
    ensures TimerHasPath(net', t', NewPath(net, tr, f, p, t'), soaExpire, c)
  {
    if t'.expireAt > net.now + f.value {
      OldDeadlineHasPath(net, net', net.timers[f.child], t', tr.paths[f.child], soaExpire, c);
    } else {
      NewDeadlineHasPath(net, net', f, p, t', soaExpire, c);
    }
  }

  lemma {:induction false} TakeUpIsLater(net: Net, soaExpire: nat, e: Event)
    requires Past(net) && e.TakeUp?
    ensures Later(net, Next(net, soaExpire, e)) && Past(Next(net, soaExpire, e))
  {
  }

  /** The path of the secondary that takes an answer up. */
  lemma {:induction false} TakenHasPath(net: Net, tr: Trace, soaExpire: nat, c: Schedule, e: Event)
    requires Traced(net, tr, soaExpire, c) && e.TakeUp? && e.flight < |net.flights| && Keeps(net, e, c)
    requires Later(net, Next(net, soaExpire, e))
    ensures
      var child := net.flights[e.flight].child;
      var net', tr' := Next(net, soaExpire, e), NextTrace(net, tr, e);
      child in tr'.paths && TimerHasPath(net', net'.timers[child], tr'.paths[child], soaExpire, c)
  {
    var f := net.flights[e.flight];
    var net' := Next(net, soaExpire, e);
    var t' := net'.timers[f.child];
    NewDeadlineMeaning(e.transferred, f.value, e.expire, CurrentDeadline(net, f.child), net.now);
    assert f.child in net.timers ==> TimerHasPath(net, net.timers[f.child], tr.paths[f.child], soaExpire, c);
    NewPathFits(net, net', tr, f, tr.carried[e.flight], t', soaExpire, c);
  }

  lemma {:induction false} TakeUpTraced(net: Net, tr: Trace, soaExpire: nat, c: Schedule, e: Event)
    requires Traced(net, tr, soaExpire, c) && e.TakeUp? && e.flight < |net.flights| && Keeps(net, e, c)
    ensures Traced(Next(net, soaExpire, e), NextTrace(net, tr, e), soaExpire, c)
  {
    var net', tr' := Next(net, soaExpire, e), NextTrace(net, tr, e);
    var child := net.flights[e.flight].child;
    TakeUpIsLater(net, soaExpire, e);
    TakenHasPath(net, tr, soaExpire, c, e);
    TimersLater(net, net', net.timers, tr.paths, soaExpire, c);
    TimersSet(net', net.timers, tr.paths, child, net'.timers[child], tr'.paths[child], soaExpire, c);
    FlightsLater(net, net', net.flights, tr.carried, soaExpire, c);
    FlightsLess(net', net.flights, tr.carried, e.flight, soaExpire, c);
  }

  lemma {:induction false} NextTraced(net: Net, tr: Trace, soaExpire: nat, c: Schedule, e: Event)
    requires Traced(net, tr, soaExpire, c) && Keeps(net, e, c)
    ensures Traced(Next(net, soaExpire, e), NextTrace(net, tr, e), soaExpire, c)
  {
    var net' := Next(net, soaExpire, e);
    if e.TakeUp? {
      if e.flight < |net.flights| { TakeUpTraced(net, tr, soaExpire, c, e); }
    } else {
      TimersLater(net, net', net.timers, tr.paths, soaExpire, c);
      FlightsLater(net, net', net.flights, tr.carried, soaExpire, c);
      if e.AskPrimary? {
        FlightsMore(net', net.flights, tr.carried, Flight(e.child, soaExpire, net.now), [], soaExpire, c);
      } else if e.Ask? && e.parent in net.timers {
        AnswerHasPath(net', net.timers[e.parent], tr.paths[e.parent], e.child, soaExpire, c);
        FlightsMore(net', net.flights, tr.carried, net'.flights[|net.flights|], tr.paths[e.parent], soaExpire, c);
      }
    }
  }

  function RunTrace(net: Net, soaExpire: nat, es: seq<Event>): Trace {
    if es == [] then Trace(map[], [])
    else
      NextTrace(Run(net, soaExpire, es[..|es| - 1]), RunTrace(net, soaExpire, es[..|es| - 1]), es[|es| - 1])
  }

  lemma {:induction false} RunTraced(net: Net, soaExpire: nat, es: seq<Event>, c: Schedule)
    requires Beginning(net) && OnSchedule(net, soaExpire, es, c)
    ensures Traced(Run(net, soaExpire, es), RunTrace(net, soaExpire, es), soaExpire, c)
    decreases |es|
  {
    if es != [] {
      var before := es[..|es| - 1];
      RunTraced(net, soaExpire, before, c);
      NextTraced(Run(net, soaExpire, before), RunTrace(net, soaExpire, before), soaExpire, c, es[|es| - 1]);
    }
  }

  // ---- all expire ----

  /** How many exchanges a path can have before all the time is gone. */
  function MostHops(soaExpire: nat, c: Schedule): nat
    requires Spare(c) > 0
  {
    c.n * (soaExpire / Spare(c) + 1)
  }

  lemma {:induction false} LongPathsWait(p: seq<Hop>, soaExpire: nat, c: Schedule)
    requires Timely(p, c) && Spare(c) > 0 && |p| > MostHops(soaExpire, c)
    ensures Waited(p) >= soaExpire
  {
    var rounds := soaExpire / Spare(c) + 1;
    assert rounds * c.n == MostHops(soaExpire, c);
    WaitsGrow(p, c, rounds);
    assert rounds * Spare(c) >= soaExpire;
  }

  /** A path that still allows time after now is short, so that its exchanges took little time. */
  lemma {:induction false} PathIsOver(net: Net, p: seq<Hop>, soaExpire: nat, c: Schedule)
    requires p != [] && Happened(net, p, c) && Spare(c) > 0
    requires net.now >= net.heard + soaExpire + Trip(MostHops(soaExpire, c), c)
    ensures Reach(p, 0, soaExpire) <= net.now
  {
    TimeAdds(p);
    if |p| > MostHops(soaExpire, c) {
      LongPathsWait(p, soaExpire, c);
    } else {
      assert p[..|p|] == p && p[..0] == [];
      TravelBound(p, 0, |p|, c);
      TripGrows(|p|, MostHops(soaExpire, c), c);
    }
  }

  /**
   * With n secondaries that keep to a refresh interval longer than n - 1 exchanges take, in every graph and every order
   * of exchanges: all have expired SOA EXPIRE and a fixed time after the primary was last heard.
   */
  lemma {:induction false} PacedAllExpire(net: Net, soaExpire: nat, es: seq<Event>, c: Schedule, n: Node)
    requires Beginning(net) && OnSchedule(net, soaExpire, es, c) && Spare(c) > 0
    ensures ExpiredAfter(Run(net, soaExpire, es), n, soaExpire + Trip(MostHops(soaExpire, c), c))
  {
    RunTraced(net, soaExpire, es, c);
    var r, tr := Run(net, soaExpire, es), RunTrace(net, soaExpire, es);
    if n in r.timers && r.now >= r.heard + soaExpire + Trip(MostHops(soaExpire, c), c) {
      assert TimerHasPath(r, r.timers[n], tr.paths[n], soaExpire, c);
      PathIsOver(r, tr.paths[n], soaExpire, c);
    }
  }
}
