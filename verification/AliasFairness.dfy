/**
 * Passes of the ALIAS scheduler one after the other: no job is left waiting.
 */
module AliasFairness {
  import opened AliasJobs
  import opened AliasPass
  import opened AliasKeys

  /** What a pass leaves for the next: the jobs, until when each resolver set rests, the rotating start, and the time. */
  datatype Board = Board(jobs: seq<Job>, dead: seq<int>, rot: nat, now: int)

  /** One pass: the flag it finds, what the resolvers do in it, and how long it is until the next one. */
  datatype Turn = Turn(changed: bool, replies: seq<Reply>, wait: nat)

  ghost predicate Playable(b: Board, t: Turn) {
    |t.replies| == |b.jobs| && SetsKnown(Begin(b.jobs, b.dead, b.now, t.changed))
  }

  ghost function PassOf(b: Board, t: Turn): Pass
    requires Playable(b, t)
  {
    VisitFrom(Begin(b.jobs, b.dead, b.now, t.changed), b.rot, 0, t.replies)
  }

  ghost function After(b: Board, t: Turn): (r: Board)
    requires Playable(b, t)
    ensures |r.jobs| == |b.jobs|
  {
    var p, q := Begin(b.jobs, b.dead, b.now, t.changed), PassOf(b, t);
    Board(AfterPass(p, b.rot, t.replies), q.dead, NextRot(b.rot, |b.jobs|), q.now + t.wait)
  }

  /** The board k passes later. */
  ghost function Later(b: Board, turns: seq<Turn>, k: nat): (r: Board)
    requires k <= |turns| && SetsKnown(Begin(b.jobs, b.dead, b.now, false))
    requires forall i :: 0 <= i < |turns| ==> |turns[i].replies| == |b.jobs|
    ensures |r.jobs| == |b.jobs| && SetsKnown(Begin(r.jobs, r.dead, r.now, false)) && r.rot == RotAfter(b.rot, |b.jobs|, k)
  {
    if k == 0 then b else After(Later(b, turns, k - 1), turns[k - 1])
  }

  // ---- within one pass ----

  /** The job is due, or will be as soon as its resolvers have rested. */
  ghost predicate Waits(jobs: seq<Job>, dead: seq<int>, now: int, job: nat)
    requires job < |jobs| && jobs[job].rset < |dead|
  {
    jobs[job].timing.nextTry <= now || jobs[job].timing.nextTry <= dead[jobs[job].rset]
  }

  lemma {:induction false} VisitAsksOrWaits(p: Pass, i: nat, r: Reply, job: nat)
    requires i < |p.jobs| && job < |p.jobs| && SetsKnown(p) && p.budget > 0 && p.now <= r.at
    requires Waits(p.jobs, p.dead, p.now, job)
    ensures var q := Visit(p, i, r); p.now <= q.now && (q.now == p.now || q.now == r.at)
    ensures var q := Visit(p, i, r); job in q.tried || Waits(q.jobs, q.dead, q.now, job)
  {
  }

  lemma {:induction false} PassAsksOrWaits(p: Pass, rot: nat, k: nat, replies: seq<Reply>, job: nat)
    requires job < |p.jobs| && SetsKnown(p) && |replies| == |p.jobs| && k <= |replies| && InOrder(p.now, replies[k..])
    requires Waits(p.jobs, p.dead, p.now, job)
    ensures var q := VisitFrom(p, rot, k, replies); job in q.tried || Waits(q.jobs, q.dead, q.now, job)
    decreases |p.jobs| - k
  {
    if k < |p.jobs| && p.budget > 0 {
      var i, r := (rot + k) % |p.jobs|, replies[k];
      var q := Visit(p, i, r);
      assert replies[k..][0] == r;
      VisitAsksOrWaits(p, i, r, job);
      if job in q.tried {
        VisitFromKeeps(q, rot, k + 1, replies);
      } else {
        OrderGoesOn(p.now, replies, k, q.now);
        PassAsksOrWaits(q, rot, k + 1, replies, job);
      }
    }
  }

  lemma {:induction false} OrderGoesOn(now: int, replies: seq<Reply>, k: nat, later: int)
    requires k < |replies| && InOrder(now, replies[k..]) && (later == now || later == replies[k].at)
    ensures InOrder(later, replies[k + 1..])
  {
    var rest := replies[k..];
    assert rest[1..] == replies[k + 1..];
    forall i | 0 <= i < |rest[1..]| ensures later <= rest[1..][i].at {
      assert rest[1..][i] == rest[i + 1] && rest[0] == replies[k];
    }
    forall i, j | 0 <= i < j < |rest[1..]| ensures rest[1..][i].at <= rest[1..][j].at {
      assert rest[1..][i] == rest[i + 1] && rest[1..][j] == rest[j + 1];
    }
  }

  // ---- over many passes ----

  /** A row of passes: the replies in each come in order, and it is clear when the next one starts. */
  ghost predicate Row(b: Board, turns: seq<Turn>) {
    && SetsKnown(Begin(b.jobs, b.dead, b.now, false))
    && (forall i :: 0 <= i < |turns| ==> |turns[i].replies| == |b.jobs|)
    && (forall i :: 0 <= i < |turns| ==> TurnInOrder(b, turns, i))
  }

  ghost predicate TurnInOrder(b: Board, turns: seq<Turn>, i: nat)
    requires i < |turns| && SetsKnown(Begin(b.jobs, b.dead, b.now, false))
    requires forall j :: 0 <= j < |turns| ==> |turns[j].replies| == |b.jobs|
  {
    InOrder(Later(b, turns, i).now, turns[i].replies)
  }

  ghost function AskedIn(b: Board, turns: seq<Turn>, k: nat): seq<nat>
    requires Row(b, turns) && k < |turns|
  {
    PassOf(Later(b, turns, k), turns[k]).tried
  }

  ghost predicate StillWaits(b: Board, job: nat) {
    job < |b.jobs| && b.jobs[job].rset < |b.dead| && Waits(b.jobs, b.dead, b.now, job)
  }

  lemma {:induction false} PassKeepsWaiting(b: Board, t: Turn, job: nat)
    requires Playable(b, t) && InOrder(b.now, t.replies) && StillWaits(b, job)
    ensures job in PassOf(b, t).tried || StillWaits(After(b, t), job)
  {
    assert t.replies[0..] == t.replies;
    PassAsksOrWaits(Begin(b.jobs, b.dead, b.now, t.changed), b.rot, 0, t.replies, job);
  }

  lemma {:induction false} WaitsUntilAsked(b: Board, turns: seq<Turn>, k: nat, job: nat)
    requires Row(b, turns) && k <= |turns| && StillWaits(b, job)
    requires forall i :: 0 <= i < k ==> job !in AskedIn(b, turns, i)
    ensures StillWaits(Later(b, turns, k), job)
    decreases k
  {
    if k > 0 {
      WaitsUntilAsked(b, turns, k - 1, job);
      assert TurnInOrder(b, turns, k - 1) && job !in AskedIn(b, turns, k - 1);
      PassKeepsWaiting(Later(b, turns, k - 1), turns[k - 1], job);
    }
  }

  /** The resolvers of the job are not resting. */
  ghost predicate Awake(b: Board, job: nat) {
    job < |b.jobs| && b.jobs[job].rset < |b.dead| && b.dead[b.jobs[job].rset] <= b.now
  }

  /** The k-th pass starts with the job. */
  ghost predicate FirstIn(b: Board, k: nat, job: nat) {
    b.jobs != [] && RotAfter(b.rot, |b.jobs|, k) % |b.jobs| == job
  }

  /**
   * In n passes one after the other over n jobs, with whatever answers and failures the resolvers give: a job that is
   * due at the first one is asked in one of them, unless its own resolvers are resting when the pass comes that starts
   * with it.
   */
  lemma {:induction false} EveryDueJobIsAsked(b: Board, turns: seq<Turn>, job: nat) returns (k: nat)
    requires Row(b, turns) && |turns| == |b.jobs| && job < |b.jobs| && Due(b.jobs[job], b.now)
    ensures k < |turns| && (job in AskedIn(b, turns, k) || (FirstIn(b, k, job) && !Awake(Later(b, turns, k), job)))
  {
    k := EveryJobIsFirstOnce(b.rot, |b.jobs|, job);
    if i :| 0 <= i < k && job in AskedIn(b, turns, i) {
      k := i;
    } else {
      WaitsUntilAsked(b, turns, k, job);
      var c, t := Later(b, turns, k), turns[k];
      if Awake(c, job) { FirstIsAsked(c.jobs, c.dead, c.now, t.changed, c.rot, t.replies); }
    }
  }

  /** So a job whose resolvers are not resting when a pass starts is asked within n passes. */
  lemma {:induction false} AwakeJobIsAsked(b: Board, turns: seq<Turn>, job: nat) returns (k: nat)
    requires Row(b, turns) && |turns| == |b.jobs| && job < |b.jobs| && Due(b.jobs[job], b.now)
    requires forall i :: 0 <= i < |turns| ==> Awake(Later(b, turns, i), job)
    ensures k < |turns| && job in AskedIn(b, turns, k)
  {
    k := EveryDueJobIsAsked(b, turns, job);
  }
}
