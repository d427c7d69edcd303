/**
 * The keys of jobs and entries, and what a job index and a published table have to be.
 */
module AliasKeys {
  import opened Records
  import opened NameDecoding
  import opened OpenAddressing
  import opened AliasJobs
  import opened AliasPass

  function JobKeys(jobs: seq<Job>): (r: seq<JobKey>)
    ensures |r| == |jobs| && forall i :: 0 <= i < |jobs| ==> r[i] == jobs[i].key
  {
    seq(|jobs|, i requires 0 <= i < |jobs| => jobs[i].key)
  }

  function EntryKeys(entries: seq<Entry>): (r: seq<JobKey>)
    ensures |r| == |entries| && forall i :: 0 <= i < |entries| ==> r[i] == entries[i].key
  {
    seq(|entries|, i requires 0 <= i < |entries| => entries[i].key)
  }

  ghost predicate GoodKeys(jobs: seq<Job>) {
    DifferentKeys(jobs) && |jobs| <= MAX_JOBS && forall i :: 0 <= i < |jobs| ==> GoodKey(jobs[i].key)
  }

  ghost predicate GoodJobs(jobs: seq<Job>, sets: nat) {
    GoodKeys(jobs) && forall i :: 0 <= i < |jobs| ==> jobs[i].rset < sets
  }

  ghost predicate GoodEntries(es: seq<Entry>) {
    && (forall i, j :: 0 <= i < j < |es| ==> es[i].key != es[j].key)
    && (forall i :: 0 <= i < |es| ==> GoodKey(es[i].key))
  }

  lemma {:induction false} KeyFound(jobs: seq<Job>, key: JobKey, r: Option<nat>)
    requires DifferentKeys(jobs)
    requires match r case Some(i) => i < |jobs| && JobKeys(jobs)[i] == key case None => key !in JobKeys(jobs)
    ensures r == JobOf(jobs, key)
  {
    var s := JobOf(jobs, key);
    if s.Some? { assert JobKeys(jobs)[s.value] == key; }
    if r.Some? { assert jobs[r.value].key == key; }
  }

  /** The item found in a table with different keys is what is stored. */
  lemma {:induction false} EntryFound(entries: seq<Entry>, key: JobKey, r: Option<nat>)
    requires GoodEntries(entries)
    requires match r case Some(i) => i < |entries| && entries[i].key == key case None => key !in EntryKeys(entries)
    ensures Stored(entries, key) == if r.Some? then Some(entries[r.value].answer) else None
    decreases |entries|
  {
    if entries != [] {
      if entries[0].key != key {
        var rest := entries[1..];
        if r.Some? {
          EntryFound(rest, key, Some(r.value - 1));
        } else {
          forall i | 0 <= i < |rest| ensures EntryKeys(rest)[i] != key { assert EntryKeys(entries)[i + 1] != key; }
          EntryFound(rest, key, None);
        }
      } else {
        assert EntryKeys(entries)[0] == key;
      }
    }
  }

  /** Entries come from jobs, so their keys differ too. */
  lemma {:induction false} UnexpiredKeys(jobs: seq<Job>, now: int)
    requires DifferentKeys(jobs)
    ensures |Unexpired(jobs, now)| <= |jobs|
    ensures forall e :: e in Unexpired(jobs, now) ==> exists i :: 0 <= i < |jobs| && jobs[i].key == e.key
    ensures var es := Unexpired(jobs, now); forall i, j :: 0 <= i < j < |es| ==> es[i].key != es[j].key
    decreases |jobs|
  {
    if jobs != [] {
      var rest := jobs[1..];
      var es := Unexpired(rest, now);
      UnexpiredKeys(rest, now);
      forall e | e in es ensures exists i :: 0 < i < |jobs| && jobs[i].key == e.key {
        var i :| 0 <= i < |rest| && rest[i].key == e.key;
        assert jobs[i + 1].key == e.key;
      }
    }
  }

  lemma {:induction false} WantKeepsGoodKeys(jobs: seq<Job>, key: JobKey, rset: nat, memory: bool, sets: nat)
    requires GoodJobs(jobs, sets) && GoodKey(key) && rset < sets
    ensures GoodJobs(WantOne(jobs, key, rset, memory), sets)
  {
    WantKeepsKeysDifferent(jobs, key, rset, memory);
  }

  lemma {:induction false} SweepKeepsGoodKeys(jobs: seq<Job>, sets: nat)
    requires GoodJobs(jobs, sets)
    ensures GoodJobs(Swept(jobs), sets) && (Swept(jobs) == jobs || |Swept(jobs)| < |jobs|)
  {
    SweptJobs(jobs);
    SweptDifferent(jobs);
    var kept := Swept(jobs);
    forall i | 0 <= i < |kept| ensures GoodKey(kept[i].key) && kept[i].rset < sets { assert kept[i] in kept; }
  }

  lemma {:induction false} SweptStep(jobs: seq<Job>, i: nat)
    requires i < |jobs|
    ensures SweepsAnswers(jobs[..i + 1]) <==> SweepsAnswers(jobs[..i]) || (!jobs[i].wanted && jobs[i].result.Some?)
  {
    if SweepsAnswers(jobs[..i]) {
      var k :| 0 <= k < i && !jobs[..i][k].wanted && jobs[..i][k].result.Some?;
      assert jobs[..i + 1][k] == jobs[..i][k];
    }
    if !jobs[i].wanted && jobs[i].result.Some? { assert jobs[..i + 1][i] == jobs[i]; }
    if SweepsAnswers(jobs[..i + 1]) {
      var k :| 0 <= k < i + 1 && !jobs[..i + 1][k].wanted && jobs[..i + 1][k].result.Some?;
      if k < i { assert jobs[..i][k] == jobs[..i + 1][k]; }
    }
  }

  lemma {:induction false} NoBadKey(entries: seq<Entry>, key: JobKey)
    requires !GoodKey(key) && forall i :: 0 <= i < |entries| ==> GoodKey(entries[i].key)
    ensures Stored(entries, key) == None
    decreases |entries|
  {
    if entries != [] { NoBadKey(entries[1..], key); }
  }

  lemma {:induction false} BuiltKeys(jobs: seq<Job>, now: int)
    requires GoodKeys(jobs)
    ensures GoodEntries(Unexpired(jobs, now))
  {
    UnexpiredKeys(jobs, now);
    var es := Unexpired(jobs, now);
    forall i | 0 <= i < |es| ensures GoodKey(es[i].key) { assert es[i] in es; }
  }

  lemma {:induction false} ScanKeepsResults(jobs: seq<Job>, wishes: seq<Wish>)
    requires !SweepsAnswers(WantAll(Unmarked(jobs), wishes))
    ensures Results(Scanned(jobs, wishes)) == Results(jobs)
  {
    SweepKeepsResults(WantAll(Unmarked(jobs), wishes));
    WantAllKeepsResults(Unmarked(jobs), wishes);
    ResultsOf(Unmarked(jobs), jobs);
  }

  /** Every job is wanted after these wishes. */
  ghost predicate SweepsNothing(jobs: seq<Job>, wishes: seq<Wish>) {
    Scanned(jobs, wishes) == WantAll(Unmarked(jobs), wishes)
  }

  /** The wishes up to number i, and what they make of the jobs. */
  lemma {:induction false} WantAllStep(jobs: seq<Job>, wishes: seq<Wish>, i: nat, done: seq<Wish>)
    requires i < |wishes| && done == wishes[..i]
    ensures var w := wishes[i];
      && done + [w] == wishes[..i + 1]
      && WantAll(jobs, done + [w]) == WantOne(WantAll(jobs, done), w.key, w.rset, w.memory)
  {
    assert (done + [wishes[i]])[..i] == done;
  }

  ghost predicate GoodWishes(wishes: seq<Wish>, sets: nat) {
    forall i :: 0 <= i < |wishes| ==> GoodKey(wishes[i].key) && wishes[i].rset < sets
  }

  lemma {:induction false} WantAllGood(jobs: seq<Job>, wishes: seq<Wish>, sets: nat)
    requires GoodJobs(jobs, sets) && GoodWishes(wishes, sets)
    ensures GoodJobs(WantAll(jobs, wishes), sets)
    decreases |wishes|
  {
    if wishes != [] {
      var n := |wishes| - 1;
      WantAllGood(jobs, wishes[..n], sets);
      WantKeepsGoodKeys(WantAll(jobs, wishes[..n]), wishes[n].key, wishes[n].rset, wishes[n].memory, sets);
    }
  }

  /** The index finds the jobs, and is at most half full. */
  ghost predicate ValidIndex(index: seq<nat>, jobs: seq<Job>, hash: JobKey -> nat) {
    Table(index, JobKeys(jobs), hash) && 2 * |jobs| + 16 <= |index| && PowerOfTwo(|index|)
  }

  ghost predicate ValidTable(slots: seq<nat>, entries: seq<Entry>, hash: JobKey -> nat) {
    Table(slots, EntryKeys(entries), hash) && 2 * |entries| + 2 <= |slots| && PowerOfTwo(|slots|)
  }

  ghost predicate SameKeys(a: seq<Job>, b: seq<Job>) {
    |a| == |b| && forall i :: 0 <= i < |a| ==> b[i].key == a[i].key
  }

  /** Marks, answers and timing do not matter to the index. */
  lemma {:induction false} SameIndex(index: seq<nat>, jobs: seq<Job>, jobs': seq<Job>, hash: JobKey -> nat)
    requires ValidIndex(index, jobs, hash) && SameKeys(jobs, jobs')
    ensures ValidIndex(index, jobs', hash)
  {
    assert JobKeys(jobs') == JobKeys(jobs);
  }

  // ---- passes ----

  /** The jobs after a pass. */
  ghost function AfterPass(p: Pass, rot: nat, replies: seq<Reply>): seq<Job>
    requires SetsKnown(p) && |replies| == |p.jobs|
  {
    var q := VisitFrom(p, rot, 0, replies);
    ExpireJobs(q.jobs, q.now)
  }

  /** The jobs, and until when each set of resolvers rests, after a pass. */
  ghost predicate PassLeaves(p: Pass, rot: nat, replies: seq<Reply>, jobs: seq<Job>, dead: seq<int>) {
    && SetsKnown(p) && |replies| == |p.jobs|
    && jobs == AfterPass(p, rot, replies) && dead == VisitFrom(p, rot, 0, replies).dead
  }

  /** A pass changes what is to be served: it brought an answer, or one ran out of its stale time. */
  ghost predicate HasNews(p: Pass, rot: nat, replies: seq<Reply>) {
    && SetsKnown(p) && |replies| == |p.jobs|
    && var q := VisitFrom(p, rot, 0, replies); q.changed || SomeExpired(q.jobs, q.now)
  }

  lemma {:induction false} ExpireStep(jobs: seq<Job>, i: nat, now: int)
    requires i < |jobs|
    ensures ExpireJobs(jobs[..i + 1], now) == ExpireJobs(jobs[..i], now) + [ExpireJob(jobs[i], now)]
    ensures SomeExpired(jobs[..i + 1], now) <==>
      SomeExpired(jobs[..i], now) || (jobs[i].result.Some? && Expired(jobs[i].result.value, now))
  {
    if SomeExpired(jobs[..i], now) {
      var k :| 0 <= k < i && jobs[..i][k].result.Some? && Expired(jobs[..i][k].result.value, now);
      assert jobs[..i + 1][k] == jobs[..i][k];
    }
    if jobs[i].result.Some? && Expired(jobs[i].result.value, now) { assert jobs[..i + 1][i] == jobs[i]; }
    if SomeExpired(jobs[..i + 1], now) {
      var k :| 0 <= k < i + 1 && jobs[..i + 1][k].result.Some? && Expired(jobs[..i + 1][k].result.value, now);
      if k < i { assert jobs[..i][k] == jobs[..i + 1][k]; }
    }
  }

  /** A pass keeps the jobs; one that reports no change leaves the answers alone. */
  lemma {:induction false} PassKeepsJobs(p: Pass, q: Pass)
    requires SameJobs(p, q) && GoodJobs(p.jobs, |p.dead|)
    ensures var js := ExpireJobs(q.jobs, q.now); SameKeys(p.jobs, js) && GoodJobs(js, |q.dead|)
    ensures !q.changed && !SomeExpired(q.jobs, q.now) ==> Results(ExpireJobs(q.jobs, q.now)) == Results(p.jobs)
  {
    if !q.changed && !SomeExpired(q.jobs, q.now) { ResultsOf(p.jobs, ExpireJobs(q.jobs, q.now)); }
  }

  lemma {:induction false} TableAgrees(jobs: seq<Job>, now: int)
    requires GoodKeys(jobs)
    ensures AllAgree(Unexpired(jobs, now), jobs, now)
  {
    forall key ensures Agree(Stored(Unexpired(jobs, now), key), Stored(Results(jobs), key), now) {
      BuiltAgrees(jobs, key, now);
    }
  }

  /** While no change waits, a lookup serves exactly what the jobs hold. */
  lemma {:induction false} ServesTheJobs(entries: seq<Entry>, jobs: seq<Job>, built: int, key: JobKey, now: int)
    requires AllAgree(entries, jobs, built) && built <= now
    ensures HitOf(Stored(entries, key), now) == HitOf(Stored(Results(jobs), key), now)
  {
    AgreeingServesTheSame(Stored(entries, key), Stored(Results(jobs), key), built, now);
  }
}
