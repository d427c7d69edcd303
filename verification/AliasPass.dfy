/**
 * One pass of the ALIAS scheduler over the jobs: which targets are asked, what an answer or a failure does to a job, and
 * in which order they come.
 */
module AliasPass {
  import opened Records
  import opened NameDecoding
  import opened AliasJobs

  const QUERIES_PER_PASS: nat := 20
  const RETRY_MIN: nat := 5
  const RETRY_MAX: nat := 320
  const DEAD_SECS: nat := 10

  // ---- the delay after failures ----

  function Power2(n: nat): nat {
    if n == 0 then 1 else 2 * Power2(n - 1)
  }

  /** 5 seconds after the first failure, twice as long after each further one, 320 at most. */
  function RetryDelay(fails: nat): nat {
    var d := RETRY_MIN * Power2(if fails == 0 then 0 else fails - 1);
    if d > RETRY_MAX then RETRY_MAX else d
  }

  lemma {:induction false} Power2Grows(a: nat, b: nat)
    requires a <= b
    ensures Power2(a) <= Power2(b)
    decreases b
  {
    if a < b { Power2Grows(a, b - 1); }
  }

  /** retry_delay(): the loop stops doubling once it has reached the most. */
  method ComputeRetryDelay(fails: nat) returns (d: nat)
    ensures d == RetryDelay(fails)
  {
    d := RETRY_MIN;
    var i := 1;
    while i < fails && d < RETRY_MAX
      invariant 1 <= i && (i <= fails || i == 1)
      invariant d == RETRY_MIN * Power2(i - 1)
    {
      d := d * 2;
      i := i + 1;
    }
    if i <= fails { Power2Grows(i - 1, fails - 1); }
    if d > RETRY_MAX { d := RETRY_MAX; }
  }

  // ---- one job ----

  datatype Outcome = Resolved(addrs: seq<Octets>, ttl: nat) | Unusable | Silent

  /** What the resolvers do when the job in turn is asked, and when that is over. */
  datatype Reply = Reply(outcome: Outcome, at: int)

  /** A pass under way. tried: the jobs asked so far, by their place in the list. */
  datatype Pass = Pass(jobs: seq<Job>, dead: seq<int>, now: int, budget: nat, changed: bool, tried: seq<nat>)

  ghost predicate SetsKnown(p: Pass) {
    forall i :: 0 <= i < |p.jobs| ==> p.jobs[i].rset < |p.dead|
  }

  /** Two thirds of the TTL, and 5 seconds at least, after the answer. */
  function RefreshDelay(ttl: nat): nat {
    if ttl * 2 / 3 > MIN_REFRESH then ttl * 2 / 3 else MIN_REFRESH
  }

  function Asked(j: Job, r: Reply): Job {
    match r.outcome
    case Resolved(addrs, ttl) =>
      j.(result := Some(Answer(addrs, ttl, r.at)), timing := Timing(r.at + RefreshDelay(ttl), 0))
    case _ =>
      j.(timing := Timing(r.at + RetryDelay(j.timing.fails + 1), j.timing.fails + 1))
  }

  predicate Due(j: Job, now: int) {
    j.timing.nextTry <= now
  }

  function Visit(p: Pass, i: nat, r: Reply): (q: Pass)
    requires i < |p.jobs| && SetsKnown(p) && p.budget > 0
    ensures SetsKnown(q) && |q.jobs| == |p.jobs|
  {
    var j := p.jobs[i];
    if !Due(j, p.now) then p
    else if p.dead[j.rset] > p.now then p.(jobs := p.jobs[i := j.(timing := j.timing.(nextTry := p.dead[j.rset]))])
    else
      Pass(p.jobs[i := Asked(j, r)], if r.outcome.Silent? then p.dead[j.rset := r.at + DEAD_SECS] else p.dead, r.at,
           p.budget - 1, p.changed || r.outcome.Resolved?, p.tried + [i])
  }

  /** The jobs from the k-th in turn on. */
  ghost function VisitFrom(p: Pass, rot: nat, k: nat, replies: seq<Reply>): (q: Pass)
    requires SetsKnown(p) && |replies| == |p.jobs|
    ensures SetsKnown(q) && |q.jobs| == |p.jobs|
    decreases |p.jobs| - k
  {
    if k >= |p.jobs| || p.budget == 0 then p
    else VisitFrom(Visit(p, (rot + k) % |p.jobs|, replies[k]), rot, k + 1, replies)
  }

  function Begin(jobs: seq<Job>, dead: seq<int>, now: int, changed: bool): Pass {
    Pass(jobs, dead, now, QUERIES_PER_PASS, changed, [])
  }

  /** Replies come one after the other. */
  ghost predicate InOrder(now: int, replies: seq<Reply>) {
    && (forall i :: 0 <= i < |replies| ==> now <= replies[i].at)
    && (forall i, j :: 0 <= i < j < |replies| ==> replies[i].at <= replies[j].at)
  }

  // ---- the whole pass ----

  function ExpireJob(j: Job, now: int): Job {
    if j.result.Some? && Expired(j.result.value, now) then j.(result := None) else j
  }

  /** What has run out of its stale time is given up. */
  function ExpireJobs(jobs: seq<Job>, now: int): (r: seq<Job>)
    ensures |r| == |jobs| && forall i :: 0 <= i < |jobs| ==> r[i] == ExpireJob(jobs[i], now)
  {
    seq(|jobs|, i requires 0 <= i < |jobs| => ExpireJob(jobs[i], now))
  }

  ghost predicate SomeExpired(jobs: seq<Job>, now: int) {
    exists i :: 0 <= i < |jobs| && jobs[i].result.Some? && Expired(jobs[i].result.value, now)
  }

  function NextRot(rot: nat, n: nat): nat {
    if n == 0 then rot else (rot + 1) % n
  }

  // ---- what every visit keeps ----

  /** Keys, sets and marks stay; without a change reported, so do the answers. */
  ghost predicate SameJobs(p: Pass, q: Pass) {
    && |q.jobs| == |p.jobs| && |q.dead| == |p.dead|
    && (forall i :: 0 <= i < |p.jobs| ==>
          && q.jobs[i].key == p.jobs[i].key && q.jobs[i].rset == p.jobs[i].rset && q.jobs[i].wanted == p.jobs[i].wanted
          && (!q.changed ==> q.jobs[i].result == p.jobs[i].result))
    && (p.changed ==> q.changed)
    && |q.tried| + q.budget == |p.tried| + p.budget
    && p.tried <= q.tried
  }

  lemma {:induction false} VisitKeeps(p: Pass, i: nat, r: Reply)
    requires i < |p.jobs| && SetsKnown(p) && p.budget > 0
    ensures SameJobs(p, Visit(p, i, r))
  {
  }

  lemma {:induction false} SameJobsTransitive(p: Pass, q: Pass, r: Pass)
    requires SameJobs(p, q) && SameJobs(q, r)
    ensures SameJobs(p, r)
  {
  }

  lemma {:induction false} VisitFromKeeps(p: Pass, rot: nat, k: nat, replies: seq<Reply>)
    requires SetsKnown(p) && |replies| == |p.jobs|
    ensures SameJobs(p, VisitFrom(p, rot, k, replies))
    decreases |p.jobs| - k
  {
    if k < |p.jobs| && p.budget > 0 {
      var q := Visit(p, (rot + k) % |p.jobs|, replies[k]);
      VisitKeeps(p, (rot + k) % |p.jobs|, replies[k]);
      VisitFromKeeps(q, rot, k + 1, replies);
      SameJobsTransitive(p, q, VisitFrom(q, rot, k + 1, replies));
    }
  }

  /** A pass asks 20 times at most. */
  lemma {:induction false} AtMostTwenty(jobs: seq<Job>, dead: seq<int>, now: int, changed: bool, rot: nat, replies: seq<Reply>)
    requires SetsKnown(Begin(jobs, dead, now, changed)) && |replies| == |jobs|
    ensures |VisitFrom(Begin(jobs, dead, now, changed), rot, 0, replies).tried| <= 20
  {
    VisitFromKeeps(Begin(jobs, dead, now, changed), rot, 0, replies);
  }

  // ---- fairness ----

  /** The job a pass starts with is asked when it is due and its resolvers are not resting. */
  lemma {:induction false} FirstIsAsked(jobs: seq<Job>, dead: seq<int>, now: int, changed: bool, rot: nat, replies: seq<Reply>)
    requires SetsKnown(Begin(jobs, dead, now, changed)) && |replies| == |jobs| > 0
    ensures var first := rot % |jobs|; var q := VisitFrom(Begin(jobs, dead, now, changed), rot, 0, replies);
      Due(jobs[first], now) && dead[jobs[first].rset] <= now ==> |q.tried| > 0 && q.tried[0] == first
  {
    var p := Begin(jobs, dead, now, changed);
    var q := Visit(p, rot % |jobs|, replies[0]);
    VisitFromKeeps(q, rot, 1, replies);
    assert (rot + 0) % |jobs| == rot % |jobs|;
    assert VisitFrom(p, rot, 0, replies) == VisitFrom(q, rot, 1, replies);
  }

  /** Where the k-th of a row of passes over n jobs starts. */
  function RotAfter(rot: nat, n: nat, k: nat): nat {
    if k == 0 then rot else NextRot(RotAfter(rot, n, k - 1), n)
  }

  lemma {:induction false} MultipleOf(x: int, n: nat)
    requires n > 0
    ensures x * n >= n || x * n <= -(n as int) || x == 0
  {
    if x >= 1 {
      assert x * n == (x - 1) * n + n;
    } else if x <= -1 {
      assert x * n == (x + 1) * n - n;
    }
  }

  /** The remainder is the only one. */
  lemma {:induction false} RemainderIs(a: nat, q: int, r: nat, n: nat)
    requires n > 0 && r < n && a == q * n + r
    ensures a % n == r
  {
    assert a == (a / n) * n + a % n;
    assert (q - a / n) * n == a % n - r;
    MultipleOf(q - a / n, n);
  }

  lemma {:induction false} RemainderOfNext(a: nat, n: nat)
    requires n > 0
    ensures (a + 1) % n == if a % n + 1 == n then 0 else a % n + 1
  {
    assert a == (a / n) * n + a % n;
    if a % n + 1 == n {
      assert a + 1 == (a / n + 1) * n;
      RemainderIs(a + 1, a / n + 1, 0, n);
    } else {
      RemainderIs(a + 1, a / n, a % n + 1, n);
    }
  }

  lemma {:induction false} RotSteps(rot: nat, n: nat, k: nat)
    requires k < n
    ensures RotAfter(rot, n, k) % n == if rot % n + k < n then rot % n + k else rot % n + k - n
    decreases k
  {
    if k > 0 {
      RotSteps(rot, n, k - 1);
      RemainderOfNext(RotAfter(rot, n, k - 1), n);
      RemainderIs(RotAfter(rot, n, k), 0, RotAfter(rot, n, k), n);
    }
  }

  /** Over n jobs, n passes in a row start with every job, each with another one. */
  lemma {:induction false} EveryJobIsFirstOnce(rot: nat, n: nat, job: nat) returns (k: nat)
    requires job < n
    ensures k < n && RotAfter(rot, n, k) % n == job
    ensures forall l :: 0 <= l < n && RotAfter(rot, n, l) % n == job ==> l == k
  {
    var r := rot % n;
    k := if job >= r then job - r else job + n - r;
    RotSteps(rot, n, k);
    forall l | 0 <= l < n && RotAfter(rot, n, l) % n == job ensures l == k { RotSteps(rot, n, l); }
  }

  /** After an answer, the target is asked again before the answer's time is over. */
  lemma RefreshedInTime(j: Job, r: Reply)
    requires r.outcome.Resolved?
    ensures Asked(j, r).result == Some(Answer(r.outcome.addrs, r.outcome.ttl, r.at))
    ensures Asked(j, r).timing.nextTry <= r.at + Validity(Asked(j, r).result.value)
  {
  }
}
