/**
 * What the quota gives away and what it refuses: in every interleaving a request is refused only when as many
 * permissions as the limit are held for its primary, and one that is not disturbed is decided, by that number alone.
 */
module QuotaProgress {
  import opened Quota

  // ---- refused only at the limit ----

  /** What is counted in a key's slot is what is held for that key. */
  lemma {:induction false} SlotHolders(s: Table, limit: nat, x: nat, key: nat)
    requires Inv(s, limit) && x < SLOTS && key != 0 && s.keys[x] == key
    ensures Holders(s.threads, x) == HoldersOf(s.threads, key) && s.counts[x] == |HoldersOf(s.threads, key)|
  {
    forall t | t in s.threads ensures Counts(s.threads[t], x) <==> CountsFor(s.threads[t], key) {
      var pc := s.threads[t];
      assert PcOk(s.keys, pc);
      if CountsFor(pc, key) { OneSlotPerKey(s.keys, key, x, pc.place.slot); }
    }
  }

  predicate Asking(pc: Pc) {
    pc.Seek? || pc.Claim? || pc.Read? || pc.Add?
  }

  /**
   * In every interleaving, a step refuses a request exactly when it has found the slot of its primary and as many
   * permissions as the limit are held for that primary at that moment.
   */
  lemma {:induction false} RefusedExactlyAtTheLimit(
    threads: set<Thread>, limit: nat, steps: seq<(Thread, Action)>, t: Thread, a: Action)
    requires t in Run(threads, limit, steps).threads && Asking(Run(threads, limit, steps).threads[t])
    ensures var s := Run(threads, limit, steps); var pc := s.threads[t];
      Step(s, limit, t, a).threads[t].Idle? <==>
        (pc.Read? || pc.Add?) && |HoldersOf(s.threads, pc.key)| == limit
  {
    var s := Run(threads, limit, steps);
    EveryInterleaving(threads, limit, steps);
    var pc := s.threads[t];
    assert PcOk(s.keys, pc) && BelowLimit(pc, limit);
    if pc.Read? || pc.Add? { SlotHolders(s, limit, pc.slot, pc.key); }
  }

  // ---- one thread alone ----

  lemma {:induction false} StepSizes(s: Table, limit: nat, t: Thread, a: Action)
    requires |s.keys| == SLOTS && |s.counts| == SLOTS
    ensures var u := Step(s, limit, t, a); |u.keys| == SLOTS && |u.counts| == SLOTS
  {
  }

  /** n steps of one thread while the others stand still, with no compare-and-swap that fails without reason. */
  ghost function Alone(s: Table, limit: nat, t: Thread, n: nat): Table
    requires |s.keys| == SLOTS && |s.counts| == SLOTS
    decreases n
  {
    if n == 0 then s
    else
      StepSizes(s, limit, t, Go(false));
      Alone(Step(s, limit, t, Go(false)), limit, t, n - 1)
  }

  /** The thread has got its permission, counted in its primary's slot or nowhere, or was refused. */
  ghost predicate Decided(s: Table, u: Table, limit: nat, t: Thread, key: nat) {
    && t in u.threads && |s.counts| == SLOTS
    && match u.threads[t]
       case Idle => u.counts == s.counts && |HoldersOf(s.threads, key)| == limit && !FullWithout(s.keys, key)
       case Holding(k, Nowhere) => k == key && u.counts == s.counts && FullWithout(s.keys, key)
       case Holding(k, At(x)) =>
         && k == key && x < SLOTS && |u.keys| == SLOTS && u.keys[x] == key
         && u.counts == s.counts[x := s.counts[x] + 1]
         && |HoldersOf(s.threads, key)| < limit && !FullWithout(s.keys, key)
       case _ => false
  }

  /** A step that changes neither what is held nor whether there is room leaves the decision as it is. */
  lemma {:induction false} DecidedBefore(s: Table, limit: nat, t: Thread, key: nat, n: nat)
    requires |s.keys| == SLOTS && |s.counts| == SLOTS && t in s.threads && Asking(s.threads[t])
    requires var v := Step(s, limit, t, Go(false));
      && v.threads == s.threads[t := v.threads[t]] && Asking(v.threads[t]) && v.counts == s.counts
      && |v.keys| == SLOTS && (FullWithout(v.keys, key) <==> FullWithout(s.keys, key))
      && Decided(v, Alone(v, limit, t, n), limit, t, key)
    ensures Decided(s, Alone(s, limit, t, n + 1), limit, t, key)
  {
    var v := Step(s, limit, t, Go(false));
    assert HoldersOf(v.threads, key) == HoldersOf(s.threads, key);
  }

  lemma {:induction false} AddDecides(s: Table, limit: nat, t: Thread) returns (n: nat)
    requires Inv(s, limit) && t in s.threads && s.threads[t].Add?
    ensures n <= 2 && Decided(s, Alone(s, limit, t, n), limit, t, s.threads[t].key)
  {
    var Add(key, slot, cur) := s.threads[t];
    assert PcOk(s.keys, s.threads[t]) && BelowLimit(s.threads[t], limit);
    SlotHolders(s, limit, slot, key);
    assert !FullWithout(s.keys, key);
    if s.counts[slot] == cur || s.counts[slot] == limit {
      n := 1;
      assert Alone(s, limit, t, 1) == Step(s, limit, t, Go(false));
    } else {
      var v := Step(s, limit, t, Go(false));
      assert v.threads[t] == Add(key, slot, s.counts[slot]);
      StepKeeps(s, limit, t, Go(false));
      FreshAddDecides(v, limit, t);
      DecidedBefore(s, limit, t, key, 1);
      n := 2;
    }
  }

  lemma {:induction false} FreshAddDecides(s: Table, limit: nat, t: Thread)
    requires Inv(s, limit) && t in s.threads && s.threads[t].Add? && s.counts[s.threads[t].slot] == s.threads[t].cur
    ensures Decided(s, Alone(s, limit, t, 1), limit, t, s.threads[t].key)
  {
    var Add(key, slot, cur) := s.threads[t];
    assert PcOk(s.keys, s.threads[t]) && BelowLimit(s.threads[t], limit);
    SlotHolders(s, limit, slot, key);
    assert !FullWithout(s.keys, key);
    assert Alone(s, limit, t, 1) == Step(s, limit, t, Go(false));
  }

  lemma {:induction false} ReadDecides(s: Table, limit: nat, t: Thread) returns (n: nat)
    requires Inv(s, limit) && t in s.threads && s.threads[t].Read?
    ensures n <= 2 && Decided(s, Alone(s, limit, t, n), limit, t, s.threads[t].key)
  {
    var Read(key, slot) := s.threads[t];
    assert PcOk(s.keys, s.threads[t]);
    SlotHolders(s, limit, slot, key);
    assert !FullWithout(s.keys, key);
    var v := Step(s, limit, t, Go(false));
    if s.counts[slot] == limit {
      n := 1;
      assert Alone(s, limit, t, 1) == v;
    } else {
      assert v.threads[t] == Add(key, slot, s.counts[slot]);
      StepKeeps(s, limit, t, Go(false));
      FreshAddDecides(v, limit, t);
      DecidedBefore(s, limit, t, key, 1);
      n := 2;
    }
  }

  /** A claim of a slot that is still free, or that another thread has taken for the same key. */
  lemma {:induction false} ClaimHereDecides(s: Table, limit: nat, t: Thread) returns (n: nat)
    requires Inv(s, limit) && t in s.threads && s.threads[t].Claim?
    requires var Claim(key, i) := s.threads[t]; s.keys[Probe(key, i)] == 0 || s.keys[Probe(key, i)] == key
    ensures n <= 3 && Decided(s, Alone(s, limit, t, n), limit, t, s.threads[t].key)
  {
    var Claim(key, i) := s.threads[t];
    assert PcOk(s.keys, s.threads[t]);
    var v := Step(s, limit, t, Go(false));
    StepKeeps(s, limit, t, Go(false));
    assert v.keys[Probe(key, i)] == key;
    assert !FullWithout(s.keys, key) && !FullWithout(v.keys, key);
    var m := ReadDecides(v, limit, t);
    DecidedBefore(s, limit, t, key, m);
    n := m + 1;
  }

  lemma {:induction false} SeekDecides(s: Table, limit: nat, t: Thread) returns (n: nat)
    requires Inv(s, limit) && t in s.threads && s.threads[t].Seek?
    ensures n <= SLOTS - s.threads[t].i + 4 && Decided(s, Alone(s, limit, t, n), limit, t, s.threads[t].key)
    decreases SLOTS - s.threads[t].i
  {
    var Seek(key, i) := s.threads[t];
    assert PcOk(s.keys, s.threads[t]);
    var v := Step(s, limit, t, Go(false));
    StepKeeps(s, limit, t, Go(false));
    if i == SLOTS {
      PassedAll(s.keys, key);
      n := 1;
      assert Alone(s, limit, t, 1) == v;
    } else {
      var m;
      if s.keys[Probe(key, i)] == key {
        m := ReadDecides(v, limit, t);
      } else if s.keys[Probe(key, i)] == 0 {
        m := ClaimHereDecides(v, limit, t);
      } else {
        m := SeekDecides(v, limit, t);
      }
      DecidedBefore(s, limit, t, key, m);
      n := m + 1;
    }
  }

  /**
   * From any state that an interleaving reaches, a thread that asks and is not disturbed is done in at most as many
   * steps as there are slots and five.  It is refused exactly when as many permissions as the limit are held for its
   * primary; it gets one that is counted, in its primary's slot, exactly when fewer are; and one that is not counted
   * exactly when the table is full without its primary.
   */
  lemma {:induction false} AloneDecides(threads: set<Thread>, limit: nat, steps: seq<(Thread, Action)>, t: Thread)
    returns (n: nat)
    requires t in Run(threads, limit, steps).threads && Asking(Run(threads, limit, steps).threads[t])
    ensures n <= SLOTS + 5
    ensures var s := Run(threads, limit, steps); Decided(s, Alone(s, limit, t, n), limit, t, s.threads[t].key)
  {
    var s := Run(threads, limit, steps);
    EveryInterleaving(threads, limit, steps);
    assert PcOk(s.keys, s.threads[t]);
    match s.threads[t]
    case Seek(_, _) => n := SeekDecides(s, limit, t);
    case Read(_, _) => n := ReadDecides(s, limit, t);
    case Add(_, _, _) => n := AddDecides(s, limit, t);
    case Claim(key, i) =>
      if s.keys[Probe(key, i)] == 0 || s.keys[Probe(key, i)] == key {
        n := ClaimHereDecides(s, limit, t);
      } else {
        StepKeeps(s, limit, t, Go(false));
        var m := SeekDecides(Step(s, limit, t, Go(false)), limit, t);
        DecidedBefore(s, limit, t, key, m);
        n := m + 1;
      }
  }

  /** So is every acquire that is not disturbed. */
  lemma {:induction false} AloneAcquires(threads: set<Thread>, limit: nat, steps: seq<(Thread, Action)>, t: Thread, key: nat)
    returns (n: nat)
    requires t in Run(threads, limit, steps).threads && Run(threads, limit, steps).threads[t].Idle? && key != 0
    ensures n <= SLOTS + 5
    ensures var s := Run(threads, limit, steps); var u := Step(s, limit, t, Acquire(key));
      |u.keys| == SLOTS && |u.counts| == SLOTS && Decided(s, Alone(u, limit, t, n), limit, t, key)
  {
    var s := Run(threads, limit, steps);
    var u := Step(s, limit, t, Acquire(key));
    EveryInterleaving(threads, limit, steps);
    StepKeeps(s, limit, t, Acquire(key));
    n := SeekDecides(u, limit, t);
    assert HoldersOf(u.threads, key) == HoldersOf(s.threads, key);
  }

  /** The thread is done, and its counter, if it was counted, is one less; nothing else has changed. */
  ghost predicate GivenBack(s: Table, u: Table, t: Thread, w: Where) {
    && |s.counts| == SLOTS && u.keys == s.keys && u.threads == s.threads[t := Idle]
    && match w
       case Nowhere => u.counts == s.counts
       case At(x) => x < SLOTS && u.counts == s.counts[x := s.counts[x] - 1]
  }

  lemma {:induction false} SubGivesBack(s: Table, limit: nat, t: Thread)
    requires Inv(s, limit) && t in s.threads && s.threads[t].Sub?
    ensures GivenBack(s, Alone(s, limit, t, 1), t, s.threads[t].place)
  {
    assert PcOk(s.keys, s.threads[t]);
    assert Alone(s, limit, t, 1) == Step(s, limit, t, Go(false));
  }

  lemma {:induction false} SeekBackGivesBack(s: Table, limit: nat, t: Thread) returns (n: nat)
    requires Inv(s, limit) && t in s.threads && s.threads[t].SeekBack? && s.threads[t].i <= SLOTS
    ensures n <= SLOTS - s.threads[t].i + 1 && GivenBack(s, Alone(s, limit, t, n), t, s.threads[t].place)
    decreases SLOTS - s.threads[t].i
  {
    var SeekBack(key, i, w) := s.threads[t];
    assert PcOk(s.keys, s.threads[t]);
    var v := Step(s, limit, t, Go(false));
    StepKeeps(s, limit, t, Go(false));
    if i == SLOTS {
      n := 1;
      assert Alone(s, limit, t, 1) == v;
    } else {
      var m := 1;
      if s.keys[Probe(key, i)] == key {
        SubGivesBack(v, limit, t);
      } else {
        m := SeekBackGivesBack(v, limit, t);
      }
      assert s.threads[t := v.threads[t]][t := Idle] == s.threads[t := Idle];
      n := m + 1;
    }
  }

  /** A release that is not disturbed ends, and takes one off the counter of its acquire and off no other. */
  lemma {:induction false} AloneReleases(threads: set<Thread>, limit: nat, steps: seq<(Thread, Action)>, t: Thread)
    returns (n: nat)
    requires t in Run(threads, limit, steps).threads && Run(threads, limit, steps).threads[t].Holding?
    ensures n <= SLOTS + 1
    ensures var s := Run(threads, limit, steps); var u := Step(s, limit, t, Release);
      && |u.keys| == SLOTS && |u.counts| == SLOTS
      && GivenBack(s, Alone(u, limit, t, n), t, s.threads[t].place)
  {
    var s := Run(threads, limit, steps);
    EveryInterleaving(threads, limit, steps);
    StepKeeps(s, limit, t, Release);
    var u := Step(s, limit, t, Release);
    n := SeekBackGivesBack(u, limit, t);
    assert s.threads[t := u.threads[t]][t := Idle] == s.threads[t := Idle];
  }
}
