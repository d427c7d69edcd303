/**
 * The state of the ALIAS expander: the job list with its index, the published table, and the flag that says they
 * differ. Every operation keeps the index and the table searchable, and never loses a change: while the flag is clear,
 * the table serves exactly what the jobs hold.
 */
module AliasExpander {
  import opened Records
  import opened NameDecoding
  import opened OpenAddressing
  import opened Probing
  import opened AliasJobs
  import opened AliasKeys
  import opened AliasPass

  class Expander {
    const hash: JobKey -> nat
    var jobs: seq<Job>
    /** The job index: 0, or a place in the job list plus one. */
    var index: array?<nat>
    /** The published table: its slots and its entries. */
    var slots: array?<nat>
    var entries: seq<Entry>
    var changed: bool
    /** An earlier table waits for its last readers. */
    var waiting: bool
    var rot: nat
    /** Until when each resolver set rests. */
    var dead: seq<int>
    /** When the published table was built. */
    ghost var built: int

    ghost predicate IndexValid()
      reads `jobs, `index, index
    {
      if index == null then jobs == [] else ValidIndex(index[..], jobs, hash)
    }

    ghost predicate JobsValid()
      reads `jobs, `index, `dead, index
    {
      IndexValid() && GoodJobs(jobs, |dead|)
    }

    ghost predicate TableValid()
      reads `slots, `entries, slots
    {
      GoodEntries(entries) && if slots == null then entries == [] else ValidTable(slots[..], entries, hash)
    }

    ghost predicate Apart()
      reads `index, `slots
    {
      index != null ==> index != slots
    }

    ghost predicate Valid()
      reads `jobs, `index, `dead, index, `slots, `entries, slots
    {
      JobsValid() && TableValid() && Apart()
    }

    /** No change is lost. */
    ghost predicate Current()
      reads `changed, `entries, `jobs, `built
    {
      changed || AllAgree(entries, jobs, built)
    }

    constructor (hash: JobKey -> nat, sets: nat)
      ensures Valid() && Current() && jobs == [] && !changed && this.hash == hash
    {
      this.hash := hash;
      jobs, index, slots, entries := [], null, null, [];
      changed, waiting, rot, dead, built := false, false, 0, seq(sets, _ => 0), 0;
    }

    // ---- the index ----

    /** jidx_rebuild(): the least size from 1024 on, doubling, that has 16 slots more than twice the jobs. */
    method Rebuild(keys: seq<JobKey>, memory: bool) returns (fresh': array?<nat>)
      ensures fresh' == null <==> !memory
      ensures fresh' != null ==>
        && fresh(fresh') && Table(fresh'[..], keys, hash) && 2 * |keys| + 16 <= fresh'.Length && PowerOfTwo(fresh'.Length)
        && (fresh'.Length == 1024 || 1024 < fresh'.Length < 2 * (2 * |keys| + 16))
    {
      var size := 1024;
      StartSizes();
      while size < 2 * |keys| + 16
        invariant PowerOfTwo(size) && (size == 1024 || 1024 < size < 2 * (2 * |keys| + 16))
      {
        Doubled(size);
        size := 2 * size;
      }
      if !memory { return null; }
      fresh' := Build(keys, hash, size);
    }

    /** job_find() */
    method FindJob(key: JobKey) returns (r: Option<nat>)
      requires IndexValid() && DifferentKeys(jobs)
      ensures r == JobOf(jobs, key)
    {
      if index == null {
        return None;
      }
      r := Find(index, JobKeys(jobs), hash, key, Home(hash, key, index.Length));
      KeyFound(jobs, key, r);
    }

    // ---- wanting and sweeping ----

    /** The new job at the end of the list, and in the index, which grows first when it has to. */
    method AddJob(j: Job, memory: bool) returns (ok: bool)
      requires IndexValid()
      modifies this`jobs, this`index, index
      ensures IndexValid() && ok == memory && jobs == old(jobs) + (if ok then [j] else [])
      ensures changed == old(changed)
      ensures index == old(index) || (index != null && fresh(index))
    {
      var keys := JobKeys(jobs + [j]);
      assert keys[..|jobs|] == JobKeys(jobs);
      if index == null || 2 * (|jobs| + 1) + 16 > index.Length {
        var fresh' := Rebuild(keys, memory);
        if fresh' == null { return false; }
        index := fresh';
      } else {
        if !memory { return false; }
        Append(index, keys, hash, Home(hash, j.key, index.Length));
      }
      jobs := jobs + [j];
      return true;
    }

    method Mark(i: nat)
      requires IndexValid() && i < |jobs|
      modifies this`jobs
      ensures IndexValid() && jobs == old(jobs)[i := old(jobs)[i].(wanted := true)]
    {
      var marked := jobs[i := jobs[i].(wanted := true)];
      assert JobKeys(marked) == JobKeys(jobs);
      jobs := marked;
    }

    /** One turn of want(), without the jobs' own validity. */
    method WantInIndex(key: JobKey, rset: nat, memory: bool) returns (ok: bool)
      requires IndexValid() && DifferentKeys(jobs)
      modifies this`jobs, this`index, index
      ensures IndexValid() && (index == old(index) || (index != null && fresh(index)))
      ensures jobs == WantOne(old(jobs), key, rset, memory) && changed == old(changed)
      ensures ok <==> HasJob(old(jobs), key) || (|old(jobs)| < MAX_JOBS && memory)
    {
      var at := FindJob(key);
      if at.Some? {
        Mark(at.value);
        return true;
      }
      if |jobs| >= MAX_JOBS { return false; }
      ok := AddJob(NewJob(key, rset), memory);
    }

    /** One turn of want(). */
    method Want(key: JobKey, rset: nat, memory: bool) returns (ok: bool)
      requires JobsValid() && GoodKey(key) && rset < |dead|
      modifies this`jobs, this`index, index
      ensures JobsValid() && (index == old(index) || (index != null && fresh(index)))
      ensures jobs == WantOne(old(jobs), key, rset, memory)
      ensures ok <==> HasJob(old(jobs), key) || (|old(jobs)| < MAX_JOBS && memory)
    {
      WantKeepsGoodKeys(jobs, key, rset, memory, |dead|);
      ok := WantInIndex(key, rset, memory);
    }

    /** What sweep_unwanted() keeps, and whether an answer goes. */
    method KeepWanted() returns (kept: seq<Job>, lost: bool)
      ensures kept == Swept(jobs) && (lost <==> SweepsAnswers(jobs))
    {
      kept, lost := [], false;
      var i := 0;
      while i < |jobs|
        invariant 0 <= i <= |jobs|
        invariant kept == Swept(jobs[..i]) && (lost <==> SweepsAnswers(jobs[..i]))
      {
        assert jobs[..i + 1][..i] == jobs[..i];
        SweptStep(jobs, i);
        if jobs[i].wanted {
          kept := kept + [jobs[i]];
        } else if jobs[i].result.Some? {
          lost := true;
        }
        i := i + 1;
      }
      assert jobs[..i] == jobs;
    }

    /** Other jobs with a new index, or none without memory for one. */
    method Replace(kept: seq<Job>, memory: bool)
      requires GoodJobs(kept, |dead|)
      modifies this`jobs, this`index, this`changed
      ensures JobsValid() && (index == null || fresh(index))
      ensures if memory then jobs == kept && changed == old(changed) else jobs == [] && changed
    {
      var fresh' := Rebuild(JobKeys(kept), memory);
      if fresh' == null {
        jobs, index, changed := [], null, true;
      } else {
        jobs, index := kept, fresh';
      }
    }

    /** sweep_unwanted(): the jobs that no zone wants any more go; without memory for the index, all go. */
    method Sweep(memory: bool)
      requires JobsValid()
      modifies this`jobs, this`index, this`changed
      ensures JobsValid() && (index == old(index) || index == null || fresh(index))
      ensures if memory || Swept(old(jobs)) == old(jobs)
        then jobs == Swept(old(jobs)) && changed == (old(changed) || SweepsAnswers(old(jobs)))
        else jobs == [] && changed
    {
      var kept, lost := KeepWanted();
      SweepKeepsGoodKeys(jobs, |dead|);
      changed := changed || lost;
      if |kept| != |jobs| { Replace(kept, memory); }
    }

    /** The wants of a scan, one after the other. */
    method WantEach(ghost start: seq<Job>, wishes: seq<Wish>)
      requires IndexValid() && jobs == start && GoodJobs(start, |dead|) && GoodWishes(wishes, |dead|)
      modifies this`jobs, this`index, index
      ensures IndexValid() && jobs == WantAll(start, wishes) && (index == old(index) || (index != null && fresh(index)))
      ensures changed == old(changed)
    {
      var i := 0;
      ghost var done: seq<Wish> := [];
      while i < |wishes|
        invariant 0 <= i <= |wishes| && done == wishes[..i]
        invariant IndexValid() && (index == old(index) || (index != null && fresh(index)))
        invariant jobs == WantAll(start, done) && changed == old(changed)
      {
        WantAllStep(start, wishes, i, done);
        WantAllDifferent(start, done);
        var ok := WantInIndex(wishes[i].key, wishes[i].rset, wishes[i].memory);
        done := done + [wishes[i]];
        i := i + 1;
      }
      assert done == wishes;
    }

    method Unmark()
      requires IndexValid()
      modifies this`jobs
      ensures IndexValid() && jobs == Unmarked(old(jobs))
    {
      var unmarked := Unmarked(jobs);
      assert JobKeys(unmarked) == JobKeys(jobs);
      jobs := unmarked;
    }

    /** Unmark, want, sweep. */
    method ScanJobs(wishes: seq<Wish>, memory: bool)
      requires JobsValid() && GoodWishes(wishes, |dead|)
      modifies this`jobs, this`index, this`changed, index
      ensures JobsValid() && (index == old(index) || index == null || fresh(index))
      ensures if memory || SweepsNothing(old(jobs), wishes) then jobs == Scanned(old(jobs), wishes) else jobs == [] && changed
      ensures old(changed) ==> changed
      ensures !changed ==> Results(jobs) == Results(old(jobs))
    {
      ghost var before := jobs;
      WantAllGood(Unmarked(jobs), wishes, |dead|);
      Unmark();
      WantEach(Unmarked(before), wishes);
      Sweep(memory);
      if !changed { ScanKeepsResults(before, wishes); }
    }

    /** scan_zones() */
    method Scan(wishes: seq<Wish>, memory: bool)
      requires Valid() && GoodWishes(wishes, |dead|)
      modifies this`jobs, this`index, this`changed, index
      ensures Valid() && (old(Current()) ==> Current())
      ensures if memory || SweepsNothing(old(jobs), wishes) then jobs == Scanned(old(jobs), wishes) else jobs == [] && changed
    {
      ScanJobs(wishes, memory);
    }

    // ---- publishing ----

    /** tab_build(), first half: what goes into the table. */
    method Collect(now: int) returns (es: seq<Entry>)
      ensures es == Unexpired(jobs, now)
    {
      es := [];
      var i := |jobs|;
      while i > 0
        invariant 0 <= i <= |jobs| && es == Unexpired(jobs[i..], now)
      {
        i := i - 1;
        assert jobs[i..][1..] == jobs[i + 1..];
        es := (if Usable(jobs[i], now) then [Entry(jobs[i].key, jobs[i].result.value)] else []) + es;
      }
      assert jobs[i..] == jobs;
    }

    /** tab_build(), second half: the least size from 16 on, doubling, with two slots more than twice the entries. */
    method BuildSlots(es: seq<Entry>) returns (t: array<nat>)
      ensures fresh(t) && Table(t[..], EntryKeys(es), hash) && 2 * |es| + 2 <= t.Length && PowerOfTwo(t.Length)
      ensures t.Length == 16 || 16 < t.Length < 2 * (2 * |es| + 2)
    {
      var size := 16;
      StartSizes();
      while size < 2 * |es| + 2
        invariant PowerOfTwo(size) && (size == 16 || 16 < size < 2 * (2 * |es| + 2))
      {
        Doubled(size);
        size := 2 * size;
      }
      t := Build(EntryKeys(es), hash, size);
    }

    /**
     * publish(): the new table goes into service unless there is no memory for it, or an earlier one still has readers
     * (then the flag stays set). over: the readers of the earlier one are gone; overAfter: those of the one replaced.
     */
    method Publish(now: int, memory: bool, over: bool, overAfter: bool)
      requires TableValid() && GoodKeys(jobs)
      modifies this`slots, this`entries, this`changed, this`waiting, this`built
      ensures TableValid() && (slots == old(slots) || (slots != null && fresh(slots)))
      ensures if memory && (!old(waiting) || over) then !changed && built == now && entries == Unexpired(jobs, now)
        else changed == old(changed) && entries == old(entries) && built == old(built)
      ensures waiting == WaitsAfter(old(waiting), memory, over, old(slots) != null && !overAfter)
    {
      if !memory { return; }
      var es := Collect(now);
      var t := BuildSlots(es);
      waiting := waiting && !over;
      if waiting { return; }
      BuiltKeys(jobs, now);
      PutInService(t, es, now, overAfter);
    }

    /** Without memory nothing is looked at; else an earlier table still waits, or it is the one just replaced. */
    static predicate WaitsAfter(waiting: bool, memory: bool, over: bool, replacedWaits: bool) {
      if memory && (!waiting || over) then replacedWaits else waiting
    }

    method PutInService(t: array<nat>, es: seq<Entry>, ghost now: int, overAfter: bool)
      requires GoodEntries(es) && ValidTable(t[..], es, hash)
      modifies this`slots, this`entries, this`changed, this`waiting, this`built
      ensures TableValid() && slots == t && entries == es && !changed && built == now
      ensures waiting == (old(slots) != null && !overAfter)
    {
      waiting := slots != null && !overAfter;
      slots, entries, changed, built := t, es, false, now;
    }

    // ---- lookup ----

    /** The probe of the table for the key. */
    static method Probe(slots: array<nat>, entries: seq<Entry>, hash: JobKey -> nat, key: JobKey) returns (r: Option<nat>)
      requires ValidTable(slots[..], entries, hash)
      ensures r.Some? ==> r.value < |entries| && entries[r.value].key == key
      ensures r.None? ==> key !in EntryKeys(entries)
    {
      r := Find(slots, EntryKeys(entries), hash, key, Home(hash, key, slots.Length));
    }

    /** The search of alias_lookup(): the entry of the key. */
    method FindEntry(key: JobKey) returns (a: Option<Answer>)
      requires TableValid()
      ensures a == Stored(entries, key)
    {
      if slots == null { return None; }
      if !GoodKey(key) {
        NoBadKey(entries, key);
        return None;
      }
      var r := Probe(slots, entries, hash, key);
      EntryFound(entries, key, r);
      return if r.None? then None else Some(entries[r.value].answer);
    }

    /** alias_lookup(): while no change waits, it serves exactly what the jobs hold. */
    method Lookup(key: JobKey, now: int) returns (h: Option<Hit>)
      requires TableValid()
      ensures h == HitOf(Stored(entries, key), now)
      ensures match Stored(entries, key)
        case None => h.None?
        case Some(a) => Honest(a, now, h)
      ensures Current() && !changed && built <= now ==> h == HitOf(Stored(Results(jobs), key), now)
    {
      var a := FindEntry(key);
      h := if a.None? then None else Serve(a.value, now);
      if a.Some? { ServedIsHonest(a.value, now); }
      if Current() && !changed && built <= now { ServesTheJobs(entries, jobs, built, key, now); }
    }

    // ---- the scheduler ----

    /** The jobs in turn, from the rotating start. */
    static method VisitJobs(p: Pass, rot: nat, replies: seq<Reply>) returns (q: Pass)
      requires SetsKnown(p) && |replies| == |p.jobs|
      ensures q == VisitFrom(p, rot, 0, replies)
    {
      q := p;
      var n := |p.jobs|;
      var k := 0;
      while k < n && q.budget > 0
        invariant 0 <= k <= n == |q.jobs| && SetsKnown(q)
        invariant VisitFrom(q, rot, k, replies) == VisitFrom(p, rot, 0, replies)
      {
        q := Visit(q, (rot + k) % n, replies[k]);
        k := k + 1;
      }
    }

    /** What has run out of its stale time is given up. */
    static method GiveUpExpired(jobs: seq<Job>, now: int) returns (js: seq<Job>, any: bool)
      ensures js == ExpireJobs(jobs, now) && (any <==> SomeExpired(jobs, now))
    {
      js, any := [], false;
      var i := 0;
      while i < |jobs|
        invariant 0 <= i <= |jobs|
        invariant js == ExpireJobs(jobs[..i], now) && (any <==> SomeExpired(jobs[..i], now))
      {
        ExpireStep(jobs, i, now);
        js := js + [ExpireJob(jobs[i], now)];
        any := any || (jobs[i].result.Some? && Expired(jobs[i].result.value, now));
        i := i + 1;
      }
      assert jobs[..i] == jobs;
    }

    /** The jobs with other marks, answers and times. */
    method Adopt(js: seq<Job>)
      requires IndexValid() && SameKeys(jobs, js)
      modifies this`jobs
      ensures IndexValid() && jobs == js
    {
      if index != null { SameIndex(index[..], jobs, js, hash); }
      jobs := js;
    }

    /** The jobs and resolver sets after the visits. */
    static method VisitAndExpire(p: Pass, rot: nat, replies: seq<Reply>) returns (js: seq<Job>, dead: seq<int>, changed: bool)
      requires GoodJobs(p.jobs, |p.dead|) && SetsKnown(p) && |replies| == |p.jobs|
      ensures PassLeaves(p, rot, replies, js, dead) && SameKeys(p.jobs, js) && GoodJobs(js, |dead|)
      ensures changed == (p.changed || HasNews(p, rot, replies))
      ensures !changed ==> !p.changed && Results(js) == Results(p.jobs)
    {
      var q := VisitJobs(p, rot, replies);
      VisitFromKeeps(p, rot, 0, replies);
      PassKeepsJobs(p, q);
      var any;
      js, any := GiveUpExpired(q.jobs, q.now);
      dead, changed := q.dead, q.changed || any;
    }

    /** A pass, up to the publishing. */
    method Round(now: int, replies: seq<Reply>)
      requires JobsValid() && |replies| == |jobs|
      modifies this`jobs, this`dead, this`changed, this`rot
      ensures JobsValid()
      ensures rot == NextRot(old(rot), |old(jobs)|)
      ensures PassLeaves(Begin(old(jobs), old(dead), now, old(changed)), old(rot), replies, jobs, dead)
      ensures changed == (old(changed) || HasNews(Begin(old(jobs), old(dead), now, old(changed)), old(rot), replies))
      ensures !changed ==> !old(changed) && Results(jobs) == Results(old(jobs))
    {
      var js, dead', changed' := VisitAndExpire(Begin(jobs, dead, now, changed), rot, replies);
      rot := NextRot(rot, |jobs|);
      Adopt(js);
      dead, changed := dead', changed';
    }

    method PublishIfChanged(now: int, memory: bool, over: bool, overAfter: bool)
      requires TableValid() && GoodKeys(jobs)
      modifies this`slots, this`entries, this`changed, this`waiting, this`built
      ensures TableValid() && (slots == old(slots) || (slots != null && fresh(slots)))
      ensures old(Current()) ==> Current()
      ensures if old(changed) && memory && (!old(waiting) || over) then !changed && built == now && entries == Unexpired(jobs, now)
        else changed == old(changed) && entries == old(entries) && built == old(built)
    {
      if changed {
        Publish(now, memory, over, overAfter);
        TableAgrees(jobs, now);
      }
    }

    /** run_pass(). end: the time when the table is built. */
    method RunPass(now: int, replies: seq<Reply>, end: int, memory: bool, over: bool, overAfter: bool)
      requires Valid() && |replies| == |jobs|
      modifies `jobs, `dead, `changed, `rot, `slots, `entries, `waiting, `built
      ensures Valid() && (old(Current()) ==> Current())
      ensures rot == NextRot(old(rot), |old(jobs)|)
      ensures PassLeaves(Begin(old(jobs), old(dead), now, old(changed)), old(rot), replies, jobs, dead)
      ensures var news := old(changed) || HasNews(Begin(old(jobs), old(dead), now, old(changed)), old(rot), replies);
        if news && memory && (!old(waiting) || over) then !changed && built == end && entries == Unexpired(jobs, end)
        else changed == news && entries == old(entries) && built == old(built)
    {
      Round(now, replies);
      PublishIfChanged(end, memory, over, overAfter);
    }
  }
}
