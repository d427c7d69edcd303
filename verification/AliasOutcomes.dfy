/**
 * What a pass of the ALIAS scheduler leaves behind: how long each job waits after an answer or a failure, and which
 * resolver sets rest.
 */
module AliasOutcomes {
  import opened Records
  import opened AliasJobs
  import opened AliasPass
  import opened AliasFairness

  // ---- the delay ----

  /** 5 seconds after the first failure, and twice the delay before, up to 320, after each further one. */
  function Backoff(fails: nat): nat {
    if fails <= 1 then 5
    else if 2 * Backoff(fails - 1) < 320 then 2 * Backoff(fails - 1)
    else 320
  }

  lemma {:induction false} DelayIsBackoff(fails: nat)
    ensures RetryDelay(fails) == Backoff(fails)
    decreases fails
  {
    if fails > 1 { DelayIsBackoff(fails - 1); }
  }

  // ---- one job in a pass ----

  /** After its turn: an answer replaces the one before it, a failure leaves it and counts. */
  ghost predicate Settled(before: Job, after: Job, r: Reply) {
    && after.key == before.key && after.rset == before.rset && after.wanted == before.wanted
    && match r.outcome
       case Resolved(addrs, ttl) =>
         && after.result == Some(Answer(addrs, ttl, r.at)) && after.timing.fails == 0
         && after.timing.nextTry == r.at + Max(ttl * 2 / 3, 5)
       case _ =>
         && after.result == before.result && after.timing.fails == before.timing.fails + 1
         && after.timing.nextTry == r.at + Backoff(after.timing.fails)
  }

  /** Not asked: at most put off, because its resolvers rest. */
  ghost predicate LeftAlone(before: Job, after: Job) {
    && after == before.(timing := before.timing.(nextTry := after.timing.nextTry))
    && before.timing.nextTry <= after.timing.nextTry
  }

  /** When the turn of a job comes, over n jobs from a start. */
  function TurnOf(rot: nat, n: nat, job: nat): (k: nat)
    requires job < n
    ensures k < n
  {
    if rot % n <= job then job - rot % n else job + n - rot % n
  }

  lemma {:induction false} TurnIs(rot: nat, n: nat, job: nat, k: nat)
    requires job < n && k < n
    ensures (rot + k) % n == job <==> k == TurnOf(rot, n, job)
  {
    var r := rot % n;
    assert rot == (rot / n) * n + r;
    if r + k < n {
      RemainderIs(rot + k, rot / n, r + k, n);
    } else {
      assert rot + k == (rot / n + 1) * n + (r + k - n);
      RemainderIs(rot + k, rot / n + 1, r + k - n, n);
    }
  }

  ghost predicate Came(before: Job, after: Job, r: Reply, asked: bool) {
    if asked then Settled(before, after, r) else LeftAlone(before, after)
  }

  lemma {:induction false} VisitSettles(p: Pass, i: nat, r: Reply)
    requires i < |p.jobs| && SetsKnown(p) && p.budget > 0 && i !in p.tried
    ensures var q := Visit(p, i, r); Came(p.jobs[i], q.jobs[i], r, i in q.tried)
  {
    DelayIsBackoff(p.jobs[i].timing.fails + 1);
  }

  lemma {:induction false} VisitLeavesOthers(p: Pass, i: nat, r: Reply, job: nat)
    requires i < |p.jobs| && job < |p.jobs| && job != i && SetsKnown(p) && p.budget > 0
    ensures var q := Visit(p, i, r); q.jobs[job] == p.jobs[job] && (job in q.tried <==> job in p.tried)
  {
  }

  /** The k-th turn and those after it: they settle the job once, if its turn is among them. */
  lemma {:induction false} JobInPass(p: Pass, rot: nat, k: nat, replies: seq<Reply>, job: nat)
    requires SetsKnown(p) && |replies| == |p.jobs| && job < |p.jobs| && job !in p.tried
    ensures var q, turn := VisitFrom(p, rot, k, replies), TurnOf(rot, |p.jobs|, job);
      && (turn < k ==> q.jobs[job] == p.jobs[job] && job !in q.tried)
      && (turn >= k ==> Came(p.jobs[job], q.jobs[job], replies[turn], job in q.tried))
    decreases |p.jobs| - k
  {
    if k < |p.jobs| && p.budget > 0 {
      var i := (rot + k) % |p.jobs|;
      var v := Visit(p, i, replies[k]);
      TurnIs(rot, |p.jobs|, job, k);
      if i == job {
        VisitSettles(p, job, replies[k]);
        TurnsOver(v, rot, k + 1, replies, job);
      } else {
        VisitLeavesOthers(p, i, replies[k], job);
        JobInPass(v, rot, k + 1, replies, job);
      }
    }
  }

  /** After its turn a job is left as it is. */
  lemma {:induction false} TurnsOver(p: Pass, rot: nat, k: nat, replies: seq<Reply>, job: nat)
    requires SetsKnown(p) && |replies| == |p.jobs| && job < |p.jobs| && TurnOf(rot, |p.jobs|, job) < k
    ensures var q := VisitFrom(p, rot, k, replies); q.jobs[job] == p.jobs[job] && (job in q.tried <==> job in p.tried)
    decreases |p.jobs| - k
  {
    if k < |p.jobs| && p.budget > 0 {
      TurnIs(rot, |p.jobs|, job, k);
      VisitLeavesOthers(p, (rot + k) % |p.jobs|, replies[k], job);
      TurnsOver(Visit(p, (rot + k) % |p.jobs|, replies[k]), rot, k + 1, replies, job);
    }
  }

  // ---- the resolver sets ----

  /** The job was asked, and its resolvers did not answer at all. */
  ghost predicate WasSilent(q: Pass, rot: nat, replies: seq<Reply>, job: nat) {
    && job < |q.jobs| == |replies| && job in q.tried
    && replies[TurnOf(rot, |q.jobs|, job)].outcome.Silent?
  }

  lemma {:induction false} VisitRests(p: Pass, i: nat, r: Reply, s: nat)
    requires i < |p.jobs| && SetsKnown(p) && p.budget > 0 && s < |p.dead|
    ensures var q := Visit(p, i, r);
      && |q.dead| == |p.dead| && q.jobs[i].rset == p.jobs[i].rset
      && (q.dead[s] != p.dead[s] ==> i in q.tried && r.outcome.Silent? && p.jobs[i].rset == s && q.dead[s] == r.at + 10)
  {
  }

  /** The set rests as before, or because of such a job, for 10 seconds after it. */
  ghost predicate RestsBecause(dead: seq<int>, q: Pass, rot: nat, replies: seq<Reply>, s: nat, job: nat) {
    && s < |dead| == |q.dead|
    && (q.dead[s] == dead[s] ||
          (WasSilent(q, rot, replies, job) && q.jobs[job].rset == s
           && q.dead[s] == replies[TurnOf(rot, |q.jobs|, job)].at + 10))
  }

  lemma {:induction false} SilentTurn(p: Pass, rot: nat, k: nat, replies: seq<Reply>, s: nat)
    requires SetsKnown(p) && |replies| == |p.jobs| && k < |p.jobs| && p.budget > 0 && s < |p.dead|
    requires var i := (rot + k) % |p.jobs|; var v := Visit(p, i, replies[k]);
      var q := VisitFrom(p, rot, k, replies);
      |q.dead| == |v.dead| == |p.dead| && q.dead[s] == v.dead[s] != p.dead[s]
    ensures RestsBecause(p.dead, VisitFrom(p, rot, k, replies), rot, replies, s, (rot + k) % |p.jobs|)
  {
    var i := (rot + k) % |p.jobs|;
    VisitRests(p, i, replies[k], s);
    VisitFromKeeps(Visit(p, i, replies[k]), rot, k + 1, replies);
    TurnIs(rot, |p.jobs|, i, k);
  }

  lemma {:induction false} RestsOnlyAfterSilence(p: Pass, rot: nat, k: nat, replies: seq<Reply>, s: nat) returns (job: nat)
    requires SetsKnown(p) && |replies| == |p.jobs| && s < |p.dead|
    ensures RestsBecause(p.dead, VisitFrom(p, rot, k, replies), rot, replies, s, job)
    decreases |p.jobs| - k
  {
    job := 0;
    if k < |p.jobs| && p.budget > 0 {
      var i := (rot + k) % |p.jobs|;
      var v := Visit(p, i, replies[k]);
      VisitRests(p, i, replies[k], s);
      job := RestsOnlyAfterSilence(v, rot, k + 1, replies, s);
      if VisitFrom(v, rot, k + 1, replies).dead[s] == v.dead[s] != p.dead[s] {
        SilentTurn(p, rot, k, replies, s);
        job := i;
      }
    }
  }

  /** While replies come in order, no rest gets shorter. */
  lemma {:induction false} RestsGrow(p: Pass, rot: nat, k: nat, replies: seq<Reply>, s: nat)
    requires SetsKnown(p) && |replies| == |p.jobs| && k <= |replies| && InOrder(p.now, replies[k..]) && s < |p.dead|
    ensures var q := VisitFrom(p, rot, k, replies); |q.dead| == |p.dead| && p.dead[s] <= q.dead[s]
    decreases |p.jobs| - k
  {
    if k < |p.jobs| && p.budget > 0 {
      var v := Visit(p, (rot + k) % |p.jobs|, replies[k]);
      assert replies[k..][0] == replies[k];
      OrderGoesOn(p.now, replies, k, v.now);
      RestsGrow(v, rot, k + 1, replies, s);
    }
  }

  /**
   * In its turn: a job whose resolvers were silent makes them rest, and a due job that is not asked waits for a rest.
   */
  ghost predicate RestsFor(p: Pass, q: Pass, r: Reply, job: nat)
    requires job < |p.jobs| == |q.jobs|
  {
    var rset := p.jobs[job].rset;
    && rset < |q.dead|
    && (job in q.tried && r.outcome.Silent? ==> r.at + 10 <= q.dead[rset])
    && (job !in q.tried && Due(p.jobs[job], p.now) && q.budget > 0 ==> p.now < q.jobs[job].timing.nextTry <= q.dead[rset])
  }

  lemma {:induction false} TurnRests(p: Pass, rot: nat, k: nat, replies: seq<Reply>, job: nat)
    requires SetsKnown(p) && |replies| == |p.jobs| && k < |replies| && InOrder(p.now, replies[k..]) && p.budget > 0
    requires job == (rot + k) % |p.jobs| && job !in p.tried
    ensures RestsFor(p, VisitFrom(p, rot, k, replies), replies[k], job)
  {
    var v, s := Visit(p, job, replies[k]), p.jobs[job].rset;
    assert replies[k..][0] == replies[k];
    OrderGoesOn(p.now, replies, k, v.now);
    RestsGrow(v, rot, k + 1, replies, s);
    TurnIs(rot, |p.jobs|, job, k);
    TurnsOver(v, rot, k + 1, replies, job);
  }

  lemma {:induction false} PassRests(p: Pass, rot: nat, k: nat, replies: seq<Reply>, job: nat)
    requires SetsKnown(p) && |replies| == |p.jobs| && k <= |replies| && InOrder(p.now, replies[k..])
    requires job < |p.jobs| && job !in p.tried && k <= TurnOf(rot, |p.jobs|, job)
    ensures RestsFor(p, VisitFrom(p, rot, k, replies), replies[TurnOf(rot, |p.jobs|, job)], job)
    decreases |p.jobs| - k
  {
    if p.budget > 0 {
      var i := (rot + k) % |p.jobs|;
      TurnIs(rot, |p.jobs|, job, k);
      if i == job {
        TurnRests(p, rot, k, replies, job);
      } else {
        var v := Visit(p, i, replies[k]);
        assert replies[k..][0] == replies[k];
        OrderGoesOn(p.now, replies, k, v.now);
        VisitLeavesOthers(p, i, replies[k], job);
        PassRests(v, rot, k + 1, replies, job);
      }
    }
  }

  // ---- the pass ----

  /**
   * In a pass that starts anywhere, with whatever the resolvers do: a job that is asked is settled by the reply of its
   * turn, and makes its resolvers rest if they were silent; one that is not keeps its answer and its failures, and
   * waits for a rest if it was due and there was time for it.
   */
  lemma {:induction false} PassSettles(b: Board, t: Turn, job: nat)
    requires Playable(b, t) && InOrder(b.now, t.replies) && job < |b.jobs|
    ensures var p, q, r := Begin(b.jobs, b.dead, b.now, t.changed), PassOf(b, t), t.replies[TurnOf(b.rot, |b.jobs|, job)];
      Came(b.jobs[job], q.jobs[job], r, job in q.tried) && RestsFor(p, q, r, job)
  {
    var p := Begin(b.jobs, b.dead, b.now, t.changed);
    assert t.replies[0..] == t.replies;
    JobInPass(p, b.rot, 0, t.replies, job);
    PassRests(p, b.rot, 0, t.replies, job);
  }

  /** And a resolver set rests otherwise than before only because one of its jobs met silence, 10 seconds from then. */
  lemma {:induction false} OnlySilenceRests(b: Board, t: Turn, s: nat) returns (job: nat)
    requires Playable(b, t) && s < |b.dead|
    ensures RestsBecause(b.dead, PassOf(b, t), b.rot, t.replies, s, job)
  {
    job := RestsOnlyAfterSilence(Begin(b.jobs, b.dead, b.now, t.changed), b.rot, 0, t.replies, s);
  }

  // ---- what there is to publish ----

  ghost predicate WasAnswered(q: Pass, rot: nat, replies: seq<Reply>, job: nat) {
    && job < |q.jobs| == |replies| && job in q.tried
    && replies[TurnOf(rot, |q.jobs|, job)].outcome.Resolved?
  }

  lemma {:induction false} VisitNews(p: Pass, i: nat, r: Reply)
    requires i < |p.jobs| && SetsKnown(p) && p.budget > 0
    ensures var q := Visit(p, i, r); q.changed && !p.changed ==> i in q.tried && r.outcome.Resolved?
  {
  }

  lemma {:induction false} AnsweredTurn(p: Pass, rot: nat, k: nat, replies: seq<Reply>, i: nat)
    requires SetsKnown(p) && |replies| == |p.jobs| && k < |p.jobs| && i == (rot + k) % |p.jobs|
    requires i in p.tried && replies[k].outcome.Resolved?
    ensures WasAnswered(VisitFrom(p, rot, k + 1, replies), rot, replies, i)
  {
    VisitFromKeeps(p, rot, k + 1, replies);
    TurnIs(rot, |p.jobs|, i, k);
  }

  lemma {:induction false} ChangeIsAnswer(p: Pass, rot: nat, k: nat, replies: seq<Reply>) returns (job: nat)
    requires SetsKnown(p) && |replies| == |p.jobs| && !p.changed
    ensures VisitFrom(p, rot, k, replies).changed ==> WasAnswered(VisitFrom(p, rot, k, replies), rot, replies, job)
    decreases |p.jobs| - k
  {
    job := 0;
    if k < |p.jobs| && p.budget > 0 {
      var i := (rot + k) % |p.jobs|;
      var v := Visit(p, i, replies[k]);
      if v.changed {
        VisitNews(p, i, replies[k]);
        AnsweredTurn(v, rot, k, replies, i);
        job := i;
      } else {
        job := ChangeIsAnswer(v, rot, k + 1, replies);
      }
    }
  }

  lemma {:induction false} AnswerIsChange(p: Pass, rot: nat, k: nat, replies: seq<Reply>, job: nat)
    requires SetsKnown(p) && |replies| == |p.jobs| && job !in p.tried
    requires WasAnswered(VisitFrom(p, rot, k, replies), rot, replies, job)
    ensures VisitFrom(p, rot, k, replies).changed
    decreases |p.jobs| - k
  {
    if k < |p.jobs| && p.budget > 0 {
      var i := (rot + k) % |p.jobs|;
      var v := Visit(p, i, replies[k]);
      TurnIs(rot, |p.jobs|, job, k);
      if i == job {
        TurnsOver(v, rot, k + 1, replies, job);
        VisitFromKeeps(v, rot, k + 1, replies);
      } else {
        VisitLeavesOthers(p, i, replies[k], job);
        AnswerIsChange(v, rot, k + 1, replies, job);
      }
    }
  }

  /** The flag is set by a pass if and only if some job it asked was answered. */
  lemma {:induction false} AnswersAreNews(b: Board, t: Turn)
    requires Playable(b, t) && !t.changed
    ensures PassOf(b, t).changed <==> exists job: nat :: WasAnswered(PassOf(b, t), b.rot, t.replies, job)
  {
    var p, q := Begin(b.jobs, b.dead, b.now, t.changed), PassOf(b, t);
    if q.changed {
      var job := ChangeIsAnswer(p, b.rot, 0, t.replies);
    } else if job: nat :| WasAnswered(q, b.rot, t.replies, job) {
      AnswerIsChange(p, b.rot, 0, t.replies, job);
    }
  }
}
