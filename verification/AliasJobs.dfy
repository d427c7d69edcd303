/**
 * The jobs of the ALIAS expander and what they mean: one job per resolver set, record type and target name, with the
 * last usable answer of the resolvers. The entries of the published table, and what a lookup returns, are defined on
 * them here; the code that keeps them in step is in AliasExpander.
 */
module AliasJobs {
  import opened Records
  import opened NameDecoding

  const MAX_JOBS: nat := 16384
  const MIN_REFRESH: nat := 5
  const STALE_MAX: nat := 86400
  const STALE_TTL: nat := 30

  datatype JobKey = JobKey(resolvers: nat, qtype: nat, name: Octets)

  /** A usable answer of the resolvers, and when it came (seconds of the monotonic clock). */
  datatype Answer = Answer(addrs: seq<Octets>, ttl: nat, fetched: int)

  /** When to ask next, and how often it has failed since the last answer. */
  datatype Timing = Timing(nextTry: int, fails: nat)

  datatype Job = Job(key: JobKey, rset: nat, wanted: bool, result: Option<Answer>, timing: Timing)

  datatype Entry = Entry(key: JobKey, answer: Answer)

  // ---- what is served ----

  datatype Hit = Hit(addrs: seq<Octets>, ttl: nat, stale: bool)

  function Max(a: int, b: int): int {
    if a < b then b else a
  }

  /** An answer is good for its TTL, but for 5 seconds at least. */
  function Validity(a: Answer): nat {
    if a.ttl > MIN_REFRESH then a.ttl else MIN_REFRESH
  }

  /** Past its time, an answer is served for a day more, and then not at all. */
  predicate Expired(a: Answer, now: int) {
    now - a.fetched >= Validity(a) + STALE_MAX
  }

  function Serve(a: Answer, now: int): Option<Hit> {
    var age := Max(now - a.fetched, 0);
    if age < Validity(a) then Some(Hit(a.addrs, if age < a.ttl then a.ttl - age else 0, false))
    else if age < Validity(a) + STALE_MAX then Some(Hit(a.addrs, STALE_TTL, true))
    else None
  }

  /**
   * What may be said of an answer at a time: it is served until a day after its TTL and after its first 5 seconds, with
   * the addresses the resolvers gave.  It is stale once both of these are over, with the short TTL of section 5 of RFC
   * 8767; before that, its TTL is what is left of theirs.
   */
  ghost predicate Honest(a: Answer, now: int, h: Option<Hit>) {
    && (h.None? <==> now >= a.fetched + a.ttl + 86400 && now >= a.fetched + 5 + 86400)
    && (h.Some? ==>
          && h.value.addrs == a.addrs
          && (h.value.stale <==> now >= a.fetched + a.ttl && now >= a.fetched + 5)
          && (h.value.stale ==> h.value.ttl == 30)
          && (!h.value.stale && a.fetched <= now ==> h.value.ttl == Max(a.fetched + a.ttl - now, 0))
          && (now < a.fetched ==> h.value.ttl == a.ttl))
  }

  lemma ServedIsHonest(a: Answer, now: int)
    ensures Honest(a, now, Serve(a, now))
    ensures Serve(a, now).None? <==> Expired(a, now)
  {
  }

  // ---- entries ----

  /** The answer stored for a key. */
  function Stored(entries: seq<Entry>, key: JobKey): Option<Answer> {
    if entries == [] then None
    else if entries[0].key == key then Some(entries[0].answer)
    else Stored(entries[1..], key)
  }

  /** The answers the jobs hold. */
  function Results(jobs: seq<Job>): seq<Entry> {
    if jobs == [] then []
    else (if jobs[0].result.Some? then [Entry(jobs[0].key, jobs[0].result.value)] else []) + Results(jobs[1..])
  }

  /** A job holds an answer that can still be served. */
  predicate Usable(j: Job, now: int) {
    j.result.Some? && !Expired(j.result.value, now)
  }

  /** The entries of a table built now. */
  function Unexpired(jobs: seq<Job>, now: int): seq<Entry> {
    if jobs == [] then []
    else (if Usable(jobs[0], now) then [Entry(jobs[0].key, jobs[0].result.value)] else []) + Unexpired(jobs[1..], now)
  }

  ghost predicate DifferentKeys(jobs: seq<Job>) {
    forall i, j :: 0 <= i < j < |jobs| ==> jobs[i].key != jobs[j].key
  }

  predicate GoodKey(k: JobKey) {
    k.resolvers > 0 && 1 <= |k.name| <= 255
  }

  lemma {:induction false} NotStored(jobs: seq<Job>, key: JobKey, now: int)
    requires forall i :: 0 <= i < |jobs| ==> jobs[i].key != key
    ensures Stored(Results(jobs), key) == None && Stored(Unexpired(jobs, now), key) == None
    decreases |jobs|
  {
    if jobs != [] {
      NotStored(jobs[1..], key, now);
      StoredAfter(jobs[0], Results(jobs[1..]), key);
      StoredAfter(jobs[0], Unexpired(jobs[1..], now), key);
    }
  }

  /** One entry in front of others, or none. */
  lemma {:induction false} StoredAfter(j: Job, rest: seq<Entry>, key: JobKey)
    ensures Stored([] + rest, key) == Stored(rest, key)
    ensures j.result.Some? ==>
      Stored([Entry(j.key, j.result.value)] + rest, key) == if j.key == key then j.result else Stored(rest, key)
  {
    assert [] + rest == rest;
    if j.result.Some? {
      assert ([Entry(j.key, j.result.value)] + rest)[1..] == rest;
    }
  }

  /**
   * A table agrees with the jobs: it stores what they hold, except that what had expired at some time may be missing.
   */
  predicate Agree(e: Option<Answer>, j: Option<Answer>, at: int) {
    e == j || (e.None? && Expired(j.value, at))
  }

  ghost predicate AllAgree(entries: seq<Entry>, jobs: seq<Job>, at: int) {
    forall key :: Agree(Stored(entries, key), Stored(Results(jobs), key), at)
  }

  /** A table built now agrees with the jobs. */
  lemma {:induction false} BuiltAgrees(jobs: seq<Job>, key: JobKey, now: int)
    requires DifferentKeys(jobs)
    ensures Agree(Stored(Unexpired(jobs, now), key), Stored(Results(jobs), key), now)
    decreases |jobs|
  {
    if jobs != [] {
      StoredAfter(jobs[0], Results(jobs[1..]), key);
      StoredAfter(jobs[0], Unexpired(jobs[1..], now), key);
      if jobs[0].key == key {
        NotStored(jobs[1..], key, now);
      } else {
        BuiltAgrees(jobs[1..], key, now);
      }
    }
  }

  function HitOf(a: Option<Answer>, now: int): Option<Hit> {
    if a.None? then None else Serve(a.value, now)
  }

  /** From then on, a table that agrees serves what the jobs hold. */
  lemma AgreeingServesTheSame(e: Option<Answer>, j: Option<Answer>, at: int, now: int)
    requires Agree(e, j, at) && at <= now
    ensures HitOf(e, now) == HitOf(j, now)
  {
  }

  // ---- wanting and sweeping ----

  ghost predicate HasJob(jobs: seq<Job>, key: JobKey) {
    exists i :: 0 <= i < |jobs| && jobs[i].key == key
  }

  /** The job of a key. */
  ghost function JobOf(jobs: seq<Job>, key: JobKey): (r: Option<nat>)
    ensures r.Some? <==> HasJob(jobs, key)
    ensures r.Some? ==> r.value < |jobs| && jobs[r.value].key == key
  {
    if HasJob(jobs, key) then
      var i :| 0 <= i < |jobs| && jobs[i].key == key;
      Some(i)
    else None
  }

  function NewJob(key: JobKey, rset: nat): Job {
    Job(key, rset, true, None, Timing(0, 0))
  }

  /** One key wanted: its job marked, or added; nothing when there are too many jobs or no memory. */
  ghost function WantOne(jobs: seq<Job>, key: JobKey, rset: nat, memory: bool): seq<Job> {
    var at := JobOf(jobs, key);
    if at.Some? then jobs[at.value := jobs[at.value].(wanted := true)]
    else if |jobs| >= MAX_JOBS || !memory then jobs
    else jobs + [NewJob(key, rset)]
  }

  function Unmarked(jobs: seq<Job>): (r: seq<Job>)
    ensures |r| == |jobs| && forall i :: 0 <= i < |jobs| ==> r[i] == jobs[i].(wanted := false)
  {
    seq(|jobs|, i requires 0 <= i < |jobs| => jobs[i].(wanted := false))
  }

  function Swept(jobs: seq<Job>): seq<Job> {
    if jobs == [] then []
    else Swept(jobs[..|jobs| - 1]) + if jobs[|jobs| - 1].wanted then [jobs[|jobs| - 1]] else []
  }

  /** A job that is swept away held an answer. */
  ghost predicate SweepsAnswers(jobs: seq<Job>) {
    exists i :: 0 <= i < |jobs| && !jobs[i].wanted && jobs[i].result.Some?
  }

  lemma {:induction false} ResultsConcat(a: seq<Job>, b: seq<Job>)
    ensures Results(a + b) == Results(a) + Results(b)
    decreases |a|
  {
    if a == [] {
      assert a + b == b;
    } else {
      assert (a + b)[1..] == a[1..] + b;
      ResultsConcat(a[1..], b);
    }
  }

  /** Keys and answers alone decide the results. */
  lemma {:induction false} ResultsOf(a: seq<Job>, b: seq<Job>)
    requires |a| == |b| && forall i :: 0 <= i < |a| ==> a[i].key == b[i].key && a[i].result == b[i].result
    ensures Results(a) == Results(b)
    decreases |a|
  {
    if a != [] { ResultsOf(a[1..], b[1..]); }
  }

  lemma {:induction false} WantKeepsResults(jobs: seq<Job>, key: JobKey, rset: nat, memory: bool)
    ensures Results(WantOne(jobs, key, rset, memory)) == Results(jobs)
  {
    var at := JobOf(jobs, key);
    if at.Some? {
      ResultsOf(jobs, WantOne(jobs, key, rset, memory));
    } else {
      ResultsConcat(jobs, [NewJob(key, rset)]);
      assert Results([NewJob(key, rset)]) == [];
    }
  }

  lemma {:induction false} SweepKeepsResults(jobs: seq<Job>)
    requires !SweepsAnswers(jobs)
    ensures Results(Swept(jobs)) == Results(jobs)
    decreases |jobs|
  {
    if jobs != [] {
      var n := |jobs| - 1;
      var front, last := jobs[..n], jobs[n];
      assert forall i :: 0 <= i < n ==> front[i] == jobs[i];
      SweepKeepsResults(front);
      assert jobs == front + [last];
      ResultsConcat(front, [last]);
      ResultsConcat(Swept(front), if last.wanted then [last] else []);
    }
  }

  lemma {:induction false} WantKeepsKeysDifferent(jobs: seq<Job>, key: JobKey, rset: nat, memory: bool)
    requires DifferentKeys(jobs)
    ensures DifferentKeys(WantOne(jobs, key, rset, memory))
  {
  }

  /** Sweeping keeps the wanted jobs, in order, and no others. */
  lemma {:induction false} SweptJobs(jobs: seq<Job>)
    ensures |Swept(jobs)| <= |jobs|
    ensures forall j :: j in Swept(jobs) <==> j in jobs && j.wanted
    ensures Swept(jobs) == jobs || |Swept(jobs)| < |jobs|
    decreases |jobs|
  {
    if jobs != [] {
      var n := |jobs| - 1;
      SweptJobs(jobs[..n]);
      assert jobs == jobs[..n] + [jobs[n]];
    }
  }

  lemma {:induction false} SweptDifferent(jobs: seq<Job>)
    requires DifferentKeys(jobs)
    ensures DifferentKeys(Swept(jobs))
    decreases |jobs|
  {
    if jobs != [] {
      var n := |jobs| - 1;
      var front := jobs[..n];
      SweptDifferent(front);
      if jobs[n].wanted {
        forall j | j in Swept(front) ensures j.key != jobs[n].key {
          SweptJobs(front);
          var i :| 0 <= i < n && front[i] == j;
        }
        OneMoreDifferent(Swept(front), jobs[n]);
      } else {
        assert Swept(jobs) == Swept(front);
      }
    }
  }

  lemma {:induction false} OneMoreDifferent(jobs: seq<Job>, last: Job)
    requires DifferentKeys(jobs) && forall j :: j in jobs ==> j.key != last.key
    ensures DifferentKeys(jobs + [last])
  {
  }

  // ---- a scan of the zones ----

  /** One record type of one ALIAS target that a scan meets, and whether there is memory for a new job then. */
  datatype Wish = Wish(key: JobKey, rset: nat, memory: bool)

  ghost function WantAll(jobs: seq<Job>, wishes: seq<Wish>): seq<Job> {
    if wishes == [] then jobs
    else
      var n := |wishes| - 1;
      WantOne(WantAll(jobs, wishes[..n]), wishes[n].key, wishes[n].rset, wishes[n].memory)
  }

  /** No wish was turned down: not for the number of jobs, not for memory. */
  ghost predicate AllTaken(jobs: seq<Job>, wishes: seq<Wish>) {
    forall i :: 0 <= i < |wishes| ==> HasJob(WantAll(jobs, wishes[..i + 1]), wishes[i].key)
  }

  ghost predicate Wished(wishes: seq<Wish>, key: JobKey) {
    exists i :: 0 <= i < |wishes| && wishes[i].key == key
  }

  /** A new job, for the resolvers of some wish, without an answer and to be asked at once. */
  ghost predicate FreshFor(j: Job, wishes: seq<Wish>) {
    j.result.None? && j.timing == Timing(0, 0) && exists i :: 0 <= i < |wishes| && wishes[i].key == j.key && wishes[i].rset == j.rset
  }

  /** Job i after wanting: the same but for its mark, which it has only if some wish was for it. */
  ghost predicate OnlyMarked(jobs: seq<Job>, after: seq<Job>, wishes: seq<Wish>, i: nat)
    requires i < |after|
  {
    && (i < |jobs| ==> after[i] == jobs[i].(wanted := after[i].wanted))
    && (i >= |jobs| ==> FreshFor(after[i], wishes))
    && (after[i].wanted ==> Wished(wishes, after[i].key) || (i < |jobs| && jobs[i].wanted))
  }

  lemma {:induction false} WantAllMarks(jobs: seq<Job>, wishes: seq<Wish>)
    ensures |jobs| <= |WantAll(jobs, wishes)|
    ensures forall i :: 0 <= i < |WantAll(jobs, wishes)| ==> OnlyMarked(jobs, WantAll(jobs, wishes), wishes, i)
    decreases |wishes|
  {
    if wishes != [] {
      var n := |wishes| - 1;
      var before, after := WantAll(jobs, wishes[..n]), WantAll(jobs, wishes);
      WantAllMarks(jobs, wishes[..n]);
      forall i | 0 <= i < |after| ensures OnlyMarked(jobs, after, wishes, i) {
        if i < |before| {
          assert OnlyMarked(jobs, before, wishes[..n], i);
          WishedMore(wishes, before[i].key);
          if i >= |jobs| { FreshForMore(before[i], after[i], wishes); }
        } else {
          assert wishes[n].key == after[i].key && wishes[n].rset == after[i].rset;
        }
        assert after[i].key == wishes[n].key ==> Wished(wishes, after[i].key);
      }
    }
  }

  lemma {:induction false} WishedMore(wishes: seq<Wish>, key: JobKey)
    requires wishes != []
    ensures Wished(wishes[..|wishes| - 1], key) ==> Wished(wishes, key)
  {
    var front := wishes[..|wishes| - 1];
    if Wished(front, key) {
      var i :| 0 <= i < |front| && front[i].key == key;
      assert wishes[i].key == key;
    }
  }

  lemma {:induction false} FreshForMore(j: Job, k: Job, wishes: seq<Wish>)
    requires wishes != [] && FreshFor(j, wishes[..|wishes| - 1]) && k == j.(wanted := k.wanted)
    ensures FreshFor(k, wishes)
  {
    var front := wishes[..|wishes| - 1];
    var i :| 0 <= i < |front| && front[i].key == j.key && front[i].rset == j.rset;
    assert wishes[i].key == k.key && wishes[i].rset == k.rset;
  }

  ghost predicate Marked(jobs: seq<Job>, key: JobKey) {
    exists i :: 0 <= i < |jobs| && jobs[i].key == key && jobs[i].wanted
  }

  /** A job that is marked stays marked; a wish that is not turned down has its job marked. */
  lemma {:induction false} WantMarks(jobs: seq<Job>, key: JobKey, w: Wish)
    requires if key == w.key then HasJob(WantOne(jobs, w.key, w.rset, w.memory), key) else Marked(jobs, key)
    ensures Marked(WantOne(jobs, w.key, w.rset, w.memory), key)
  {
    var after := WantOne(jobs, w.key, w.rset, w.memory);
    if key != w.key {
      var i :| 0 <= i < |jobs| && jobs[i].key == key && jobs[i].wanted;
      assert after[i].key == key && after[i].wanted;
    } else {
      var i := if HasJob(jobs, key) then JobOf(jobs, key).value else |jobs|;
      assert after[i].key == key && after[i].wanted;
    }
  }

  lemma {:induction false} TakenBefore(jobs: seq<Job>, wishes: seq<Wish>)
    requires wishes != [] && AllTaken(jobs, wishes)
    ensures AllTaken(jobs, wishes[..|wishes| - 1])
  {
    var n := |wishes| - 1;
    var front := wishes[..n];
    forall k | 0 <= k < n ensures HasJob(WantAll(jobs, front[..k + 1]), front[k].key) {
      assert front[..k + 1] == wishes[..k + 1];
    }
  }

  lemma {:induction false} TakenAreMarked(jobs: seq<Job>, wishes: seq<Wish>, key: JobKey)
    requires AllTaken(jobs, wishes) && Wished(wishes, key)
    ensures Marked(WantAll(jobs, wishes), key)
    decreases |wishes|
  {
    var n := |wishes| - 1;
    var front := wishes[..n];
    assert wishes[..n + 1] == wishes;
    if key != wishes[n].key {
      var i :| 0 <= i < |wishes| && wishes[i].key == key;
      assert front[i].key == key;
      TakenBefore(jobs, wishes);
      TakenAreMarked(jobs, front, key);
    }
    WantMarks(WantAll(jobs, front), key, wishes[n]);
  }

  lemma {:induction false} WantAllDifferent(jobs: seq<Job>, wishes: seq<Wish>)
    requires DifferentKeys(jobs)
    ensures DifferentKeys(WantAll(jobs, wishes))
    decreases |wishes|
  {
    if wishes != [] {
      var n := |wishes| - 1;
      WantAllDifferent(jobs, wishes[..n]);
      WantKeepsKeysDifferent(WantAll(jobs, wishes[..n]), wishes[n].key, wishes[n].rset, wishes[n].memory);
    }
  }

  lemma {:induction false} WantAllKeepsResults(jobs: seq<Job>, wishes: seq<Wish>)
    ensures Results(WantAll(jobs, wishes)) == Results(jobs)
    decreases |wishes|
  {
    if wishes != [] {
      var n := |wishes| - 1;
      WantAllKeepsResults(jobs, wishes[..n]);
      WantKeepsResults(WantAll(jobs, wishes[..n]), wishes[n].key, wishes[n].rset, wishes[n].memory);
    }
  }

  /** The jobs after a scan. */
  ghost function Scanned(jobs: seq<Job>, wishes: seq<Wish>): seq<Job> {
    Swept(WantAll(Unmarked(jobs), wishes))
  }

  /** After a scan no job is left whose target no zone has. */
  lemma {:induction false} ScannedAreWished(jobs: seq<Job>, wishes: seq<Wish>, j: Job)
    requires j in Scanned(jobs, wishes)
    ensures Wished(wishes, j.key)
  {
    var marked := WantAll(Unmarked(jobs), wishes);
    SweptJobs(marked);
    WantAllMarks(Unmarked(jobs), wishes);
    var i :| 0 <= i < |marked| && marked[i] == j;
    assert OnlyMarked(Unmarked(jobs), marked, wishes, i);
  }

  /** A target that was not there before gets a new job, for its resolvers. */
  lemma {:induction false} ScannedAreFresh(jobs: seq<Job>, wishes: seq<Wish>, j: Job)
    requires j in Scanned(jobs, wishes) && !HasJob(jobs, j.key)
    ensures FreshFor(j, wishes)
  {
    var marked := WantAll(Unmarked(jobs), wishes);
    SweptJobs(marked);
    WantAllMarks(Unmarked(jobs), wishes);
    var i :| 0 <= i < |marked| && marked[i] == j;
    assert OnlyMarked(Unmarked(jobs), marked, wishes, i);
    assert forall k :: 0 <= k < |jobs| ==> jobs[k].key != j.key;
  }

  lemma {:induction false} WantAllAtMost(jobs: seq<Job>, wishes: seq<Wish>)
    ensures |WantAll(jobs, wishes)| <= |jobs| + |wishes|
    decreases |wishes|
  {
    if wishes != [] { WantAllAtMost(jobs, wishes[..|wishes| - 1]); }
  }

  /** No wish is turned down while there is memory and room for a job each. */
  lemma {:induction false} RoomForAll(jobs: seq<Job>, wishes: seq<Wish>)
    requires |jobs| + |wishes| <= 16384 && forall i :: 0 <= i < |wishes| ==> wishes[i].memory
    ensures AllTaken(jobs, wishes)
  {
    forall i | 0 <= i < |wishes| ensures HasJob(WantAll(jobs, wishes[..i + 1]), wishes[i].key) {
      var before, after := WantAll(jobs, wishes[..i]), WantAll(jobs, wishes[..i + 1]);
      WantAllAtMost(jobs, wishes[..i]);
      assert wishes[..i + 1][..i] == wishes[..i];
      assert after == WantOne(before, wishes[i].key, wishes[i].rset, true);
      var at := JobOf(before, wishes[i].key);
      var k := if at.Some? then at.value else |before|;
      assert after[k].key == wishes[i].key;
    }
  }

  /** If no wish is turned down, every target has its job then. */
  lemma {:induction false} WishedAreScanned(jobs: seq<Job>, wishes: seq<Wish>, key: JobKey)
    requires AllTaken(Unmarked(jobs), wishes) && Wished(wishes, key)
    ensures HasJob(Scanned(jobs, wishes), key)
  {
    var marked := WantAll(Unmarked(jobs), wishes);
    TakenAreMarked(Unmarked(jobs), wishes, key);
    SweptJobs(marked);
    var at :| 0 <= at < |marked| && marked[at].key == key && marked[at].wanted;
    assert marked[at] in Swept(marked);
  }

  /** A target that was there before keeps its job's answer and timing. */
  lemma {:induction false} ScannedKeepAnswers(jobs: seq<Job>, wishes: seq<Wish>, i: nat, j: Job)
    requires DifferentKeys(jobs) && i < |jobs| && j in Scanned(jobs, wishes) && j.key == jobs[i].key
    ensures j == jobs[i].(wanted := true)
  {
    var start := Unmarked(jobs);
    var marked := WantAll(start, wishes);
    SweptJobs(marked);
    WantAllMarks(start, wishes);
    WantAllDifferent(start, wishes);
    assert OnlyMarked(start, marked, wishes, i);
    var k :| 0 <= k < |marked| && marked[k] == j;
    assert marked[i].key == marked[k].key;
  }
}
