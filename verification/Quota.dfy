/**
 * The per-primary quota of inbound transfers: a table of slots that threads claim and count in with single atomic
 * operations (xfr_ns_slot, xfr_counter_acquire).  Each step below is one atomic load, compare-and-swap or decrement of
 * one thread; the theorems hold for every interleaving.
 */
module Quota {

  const SLOTS: nat := 256

  /** The slot a key is looked for at after i steps. */
  function Probe(key: nat, i: nat): (s: nat)
    ensures s < SLOTS
  {
    (key + i) % SLOTS
  }

  lemma ProbesDiffer(key: nat, i: nat, j: nat)
    requires i < j < SLOTS
    ensures Probe(key, i) != Probe(key, j)
  {
    var a, b := (key + i) / SLOTS, (key + j) / SLOTS;
    assert key + i == a * SLOTS + Probe(key, i) && key + j == b * SLOTS + Probe(key, j);
  }

  lemma ProbesReachAll(key: nat, s: nat) returns (i: nat)
    requires s < SLOTS
    ensures i < SLOTS && Probe(key, i) == s
  {
    var home := key % SLOTS;
    i := if home <= s then s - home else s + SLOTS - home;
    assert key == (key / SLOTS) * SLOTS + home;
    if home <= s {
      assert key + i == (key / SLOTS) * SLOTS + s;
    } else {
      assert key + i == (key / SLOTS + 1) * SLOTS + s;
    }
  }

  type Thread = nat

  /** Where a thread is; key is the folded address of the primary it asks, never 0. */
  datatype Pc =
    | Idle
      /** acquire: about to load the key of the i-th slot */
    | Seek(key: nat, i: nat)
      /** acquire: saw a free slot, about to compare-and-swap its key */
    | Claim(key: nat, i: nat)
      /** about to load the counter of the slot */
    | Read(key: nat, slot: nat)
      /** about to compare-and-swap the counter from cur to cur + 1 */
    | Add(key: nat, slot: nat, cur: int)
      /** has the permission; Nowhere when the table had no room and nothing was counted */
    | Holding(key: nat, place: Where)
      /** release: about to load the key of the i-th slot */
    | SeekBack(key: nat, i: nat, place: Where)
      /** release: about to decrement the counter of slot `found` */
    | Sub(key: nat, found: nat, place: Where)

  datatype Where = Nowhere | At(slot: nat)

  datatype Table = Table(keys: seq<nat>, counts: seq<int>, threads: map<Thread, Pc>)

  datatype Action =
    | Acquire(key: nat)
    | Release
      /** one atomic step; a weak compare-and-swap may fail without reason */
    | Go(spurious: bool)

  function Decide(key: nat, slot: nat, cur: int, limit: nat): Pc {
    if cur < 0 || cur >= limit then Idle else Add(key, slot, cur)
  }

  /** One step of thread t. */
  function Step(s: Table, limit: nat, t: Thread, a: Action): Table
    requires |s.keys| == SLOTS && |s.counts| == SLOTS
  {
    if t !in s.threads then s
    else
      match s.threads[t]
      case Idle => if a.Acquire? && a.key != 0 then Moved(s, t, Seek(a.key, 0)) else s
      case Holding(key, w) => if a.Release? then Moved(s, t, SeekBack(key, 0, w)) else s
      case Seek(key, i) =>
        if i >= SLOTS then Moved(s, t, Holding(key, Nowhere))
        else
          var cur := s.keys[Probe(key, i)];
          if cur == key then Moved(s, t, Read(key, Probe(key, i)))
          else if cur == 0 then Moved(s, t, Claim(key, i))
          else Moved(s, t, Seek(key, i + 1))
      case Claim(key, i) =>
        var slot := Probe(key, i);
        if s.keys[slot] == 0 then Moved(s.(keys := s.keys[slot := key]), t, Read(key, slot))
        else if s.keys[slot] == key then Moved(s, t, Read(key, slot))
        else Moved(s, t, Seek(key, i))
      case Read(key, slot) => if slot < SLOTS then Moved(s, t, Decide(key, slot, s.counts[slot], limit)) else s
      case Add(key, slot, cur) =>
        if slot >= SLOTS then s
        else if s.counts[slot] == cur && !(a.Go? && a.spurious)
        then Moved(s.(counts := s.counts[slot := cur + 1]), t, Holding(key, At(slot)))
        else Moved(s, t, Decide(key, slot, s.counts[slot], limit))
      case SeekBack(key, i, w) =>
        if i >= SLOTS then Moved(s, t, Idle)
        else if s.keys[Probe(key, i)] == key then Moved(s, t, Sub(key, Probe(key, i), w))
        else Moved(s, t, SeekBack(key, i + 1, w))
      case Sub(key, found, w) =>
        if found < SLOTS then Moved(s.(counts := s.counts[found := s.counts[found] - 1]), t, Idle) else s
  }

  function Moved(s: Table, t: Thread, pc: Pc): Table {
    s.(threads := s.threads[t := pc])
  }

  // ---- the keys ----

  /** No key is in two slots, and every slot before a key's own on its path is taken. */
  ghost predicate KeysOk(keys: seq<nat>) {
    && |keys| == SLOTS
    && forall key, i, j :: key != 0 && 0 <= i < SLOTS && 0 <= j < SLOTS && keys[Probe(key, i)] == key ==>
         (keys[Probe(key, j)] == key ==> i == j) && (j < i ==> keys[Probe(key, j)] != 0)
  }

  /** The key is nowhere and there is no free slot: it will never be in the table. */
  ghost predicate FullWithout(keys: seq<nat>, key: nat) {
    |keys| == SLOTS && forall i :: 0 <= i < SLOTS ==> keys[i] != 0 && keys[i] != key
  }

  ghost predicate Passed(keys: seq<nat>, key: nat, i: nat) {
    |keys| == SLOTS && forall j :: 0 <= j < i && j < SLOTS ==> keys[Probe(key, j)] != 0 && keys[Probe(key, j)] != key
  }

  /** What a thread may rely on about the slot it was counted in. */
  ghost predicate PlaceOk(keys: seq<nat>, key: nat, w: Where) {
    && |keys| == SLOTS && key != 0
    && match w
       case Nowhere => FullWithout(keys, key)
       case At(slot) => slot < SLOTS && keys[slot] == key
  }

  /** The slot is still ahead of a search that has done i steps. */
  ghost predicate Ahead(key: nat, i: nat, w: Where) {
    w.Nowhere? || exists d :: i <= d < SLOTS && Probe(key, d) == w.slot
  }

  ghost predicate PcOk(keys: seq<nat>, pc: Pc) {
    match pc
    case Idle => true
    case Seek(key, i) => key != 0 && i <= SLOTS && Passed(keys, key, i)
    case Claim(key, i) => key != 0 && i < SLOTS && Passed(keys, key, i)
    case Read(key, slot) => key != 0 && slot < SLOTS && |keys| == SLOTS && keys[slot] == key
    case Add(key, slot, cur) => key != 0 && slot < SLOTS && |keys| == SLOTS && keys[slot] == key
    case Holding(key, w) => PlaceOk(keys, key, w)
    case SeekBack(key, i, w) => PlaceOk(keys, key, w) && Ahead(key, i, w)
    case Sub(key, found, w) => PlaceOk(keys, key, w) && w == At(found)
  }

  /** A search that passed all slots passed every slot of the table. */
  lemma PassedAll(keys: seq<nat>, key: nat)
    requires Passed(keys, key, SLOTS)
    ensures FullWithout(keys, key)
  {
    forall s | 0 <= s < SLOTS ensures keys[s] != 0 && keys[s] != key {
      var i := ProbesReachAll(key, s);
    }
  }

  /** Claiming the free slot a search stands at keeps the keys in order. */
  lemma ClaimKeepsKeys(keys: seq<nat>, key: nat, i: nat)
    requires KeysOk(keys) && key != 0 && i < SLOTS && Passed(keys, key, i) && keys[Probe(key, i)] == 0
    ensures KeysOk(keys[Probe(key, i) := key])
  {
    var slot := Probe(key, i);
    var after := keys[slot := key];
    forall k, p, q | k != 0 && 0 <= p < SLOTS && 0 <= q < SLOTS && after[Probe(k, p)] == k
      ensures (after[Probe(k, q)] == k ==> p == q) && (q < p ==> after[Probe(k, q)] != 0)
    {
      if k == key {
        NoOtherPlace(keys, key, i, p);
        NoOtherPlace(keys, key, i, q);
      }
    }
  }

  lemma NoOtherPlace(keys: seq<nat>, key: nat, i: nat, p: nat)
    requires KeysOk(keys) && key != 0 && i < SLOTS && p < SLOTS && Passed(keys, key, i) && keys[Probe(key, i)] == 0
    ensures keys[Probe(key, p)] != key
    ensures Probe(key, p) == Probe(key, i) ==> p == i
  {
    if p < i { ProbesDiffer(key, p, i); } else if i < p { ProbesDiffer(key, i, p); }
  }

  /** What other threads rely on survives the claim of a free slot. */
  lemma ClaimKeepsOthers(keys: seq<nat>, slot: nat, key: nat, pc: Pc)
    requires |keys| == SLOTS && slot < SLOTS && keys[slot] == 0 && key != 0 && PcOk(keys, pc)
    ensures PcOk(keys[slot := key], pc)
  {
  }

  /** A release finds the slot it was counted in. */
  lemma FoundIsMine(keys: seq<nat>, key: nat, i: nat, w: Where)
    requires KeysOk(keys) && PlaceOk(keys, key, w) && i < SLOTS && keys[Probe(key, i)] == key
    ensures w == At(Probe(key, i))
  {
    if w.At? {
      var d := ProbesReachAll(key, w.slot);
      assert d == i;
    }
  }

  /** A release that has not found its slot yet still has it ahead. */
  lemma StillAhead(keys: seq<nat>, key: nat, i: nat, w: Where)
    requires PlaceOk(keys, key, w) && Ahead(key, i, w) && i < SLOTS && keys[Probe(key, i)] != key
    ensures Ahead(key, i + 1, w)
  {
  }

  // ---- the counters ----

  predicate Counts(pc: Pc, slot: nat) {
    match pc
    case Holding(_, w) => w == At(slot)
    case SeekBack(_, _, w) => w == At(slot)
    case Sub(_, _, w) => w == At(slot)
    case _ => false
  }

  /** The threads that hold a permission counted in a slot. */
  function Holders(threads: map<Thread, Pc>, slot: nat): set<Thread> {
    set t | t in threads && Counts(threads[t], slot)
  }

  /** A counter is only raised from a value that was seen below the limit. */
  ghost predicate BelowLimit(pc: Pc, limit: nat) {
    pc.Add? ==> 0 <= pc.cur < limit
  }

  ghost predicate Inv(s: Table, limit: nat) {
    && KeysOk(s.keys) && |s.counts| == SLOTS
    && (forall t :: t in s.threads ==> PcOk(s.keys, s.threads[t]) && BelowLimit(s.threads[t], limit))
    && (forall x :: 0 <= x < SLOTS ==> s.counts[x] == |Holders(s.threads, x)| && s.counts[x] <= limit)
  }

  lemma SameHolders(threads: map<Thread, Pc>, t: Thread, pc: Pc, x: nat)
    requires t in threads && (Counts(threads[t], x) <==> Counts(pc, x))
    ensures Holders(threads[t := pc], x) == Holders(threads, x)
  {
  }

  lemma OneMore(threads: map<Thread, Pc>, t: Thread, pc: Pc, x: nat)
    requires t in threads && !Counts(threads[t], x) && Counts(pc, x)
    ensures |Holders(threads[t := pc], x)| == |Holders(threads, x)| + 1
  {
    assert Holders(threads[t := pc], x) == Holders(threads, x) + {t};
  }

  lemma OneLess(threads: map<Thread, Pc>, t: Thread, pc: Pc, x: nat)
    requires t in threads && Counts(threads[t], x) && !Counts(pc, x)
    ensures |Holders(threads[t := pc], x)| == |Holders(threads, x)| - 1
  {
    assert Holders(threads[t := pc], x) == Holders(threads, x) - {t};
  }

  /** A thread that moves on without counting differently, on the same keys. */
  lemma MoveKeeps(s: Table, limit: nat, t: Thread, pc: Pc)
    requires Inv(s, limit) && t in s.threads && PcOk(s.keys, pc) && BelowLimit(pc, limit)
    requires forall x :: 0 <= x < SLOTS ==> (Counts(s.threads[t], x) <==> Counts(pc, x))
    ensures Inv(Moved(s, t, pc), limit)
  {
    forall x | 0 <= x < SLOTS ensures Holders(s.threads[t := pc], x) == Holders(s.threads, x) {
      SameHolders(s.threads, t, pc, x);
    }
  }

  lemma {:induction false} ClaimStep(s: Table, limit: nat, t: Thread)
    requires Inv(s, limit) && t in s.threads && s.threads[t].Claim?
    ensures Inv(Step(s, limit, t, Go(false)), limit)
  {
    var Claim(key, i) := s.threads[t];
    var slot := Probe(key, i);
    if s.keys[slot] == 0 {
      var keys := s.keys[slot := key];
      ClaimKeepsKeys(s.keys, key, i);
      forall u | u in s.threads ensures PcOk(keys, s.threads[u]) {
        ClaimKeepsOthers(s.keys, slot, key, s.threads[u]);
      }
      MoveKeeps(s.(keys := keys), limit, t, Read(key, slot));
    } else if s.keys[slot] == key {
      MoveKeeps(s, limit, t, Read(key, slot));
    } else {
      MoveKeeps(s, limit, t, Seek(key, i));
    }
  }

  lemma {:induction false} SeekStep(s: Table, limit: nat, t: Thread)
    requires Inv(s, limit) && t in s.threads && s.threads[t].Seek?
    ensures Inv(Step(s, limit, t, Go(false)), limit)
  {
    var Seek(key, i) := s.threads[t];
    if i >= SLOTS {
      PassedAll(s.keys, key);
      MoveKeeps(s, limit, t, Holding(key, Nowhere));
    } else {
      var cur := s.keys[Probe(key, i)];
      var pc := if cur == key then Read(key, Probe(key, i)) else if cur == 0 then Claim(key, i) else Seek(key, i + 1);
      assert PcOk(s.keys, pc);
      MoveKeeps(s, limit, t, pc);
    }
  }

  lemma {:induction false} AddStep(s: Table, limit: nat, t: Thread, a: Action)
    requires Inv(s, limit) && t in s.threads && s.threads[t].Add?
    ensures Inv(Step(s, limit, t, a), limit)
  {
    var Add(key, slot, cur) := s.threads[t];
    if s.counts[slot] == cur && !(a.Go? && a.spurious) {
      CountedStep(s, limit, t);
    } else {
      MoveKeeps(s, limit, t, Decide(key, slot, s.counts[slot], limit));
    }
  }

  /** The compare-and-swap that takes a permission: it can only succeed below the limit. */
  lemma {:induction false} CountedStep(s: Table, limit: nat, t: Thread)
    requires Inv(s, limit) && t in s.threads && s.threads[t].Add? && s.counts[s.threads[t].slot] == s.threads[t].cur
    ensures var Add(key, slot, cur) := s.threads[t];
      Inv(Moved(s.(counts := s.counts[slot := cur + 1]), t, Holding(key, At(slot))), limit)
  {
    var Add(key, slot, cur) := s.threads[t];
    var pc := Holding(key, At(slot));
    OneMore(s.threads, t, pc, slot);
    forall x | 0 <= x < SLOTS && x != slot ensures Holders(s.threads[t := pc], x) == Holders(s.threads, x) {
      SameHolders(s.threads, t, pc, x);
    }
  }

  lemma {:induction false} SeekBackStep(s: Table, limit: nat, t: Thread)
    requires Inv(s, limit) && t in s.threads && s.threads[t].SeekBack?
    ensures Inv(Step(s, limit, t, Go(false)), limit)
  {
    var SeekBack(key, i, w) := s.threads[t];
    if i >= SLOTS {
      MoveKeeps(s, limit, t, Idle);
    } else if s.keys[Probe(key, i)] == key {
      FoundIsMine(s.keys, key, i, w);
      MoveKeeps(s, limit, t, Sub(key, Probe(key, i), w));
    } else {
      StillAhead(s.keys, key, i, w);
      MoveKeeps(s, limit, t, SeekBack(key, i + 1, w));
    }
  }

  lemma {:induction false} SubStep(s: Table, limit: nat, t: Thread)
    requires Inv(s, limit) && t in s.threads && s.threads[t].Sub?
    ensures Inv(Step(s, limit, t, Go(false)), limit)
  {
    var Sub(key, found, w) := s.threads[t];
    OneLess(s.threads, t, Idle, found);
    forall x | 0 <= x < SLOTS && x != found ensures Holders(s.threads[t := Idle], x) == Holders(s.threads, x) {
      SameHolders(s.threads, t, Idle, x);
    }
  }

  lemma {:induction false} StepKeeps(s: Table, limit: nat, t: Thread, a: Action)
    requires Inv(s, limit)
    ensures Inv(Step(s, limit, t, a), limit)
  {
    if t in s.threads {
      match s.threads[t]
      case Idle => if a.Acquire? && a.key != 0 { MoveKeeps(s, limit, t, Seek(a.key, 0)); }
      case Holding(key, w) => if a.Release? { HoldingSlot(s, t); MoveKeeps(s, limit, t, SeekBack(key, 0, w)); }
      case Seek(_, _) => SeekStep(s, limit, t);
      case Claim(_, _) => ClaimStep(s, limit, t);
      case Read(key, slot) => MoveKeeps(s, limit, t, Decide(key, slot, s.counts[slot], limit));
      case Add(_, _, _) => AddStep(s, limit, t, a);
      case SeekBack(_, _, _) => SeekBackStep(s, limit, t);
      case Sub(_, _, _) => SubStep(s, limit, t);
    }
  }

  /** A release starts with its slot ahead. */
  lemma HoldingSlot(s: Table, t: Thread)
    requires t in s.threads && s.threads[t].Holding? && PcOk(s.keys, s.threads[t])
    ensures Ahead(s.threads[t].key, 0, s.threads[t].place)
  {
    if s.threads[t].place.At? {
      var d := ProbesReachAll(s.threads[t].key, s.threads[t].place.slot);
    }
  }

  // ---- every interleaving ----

  function Zeros<T>(n: nat, z: T): seq<T> {
    seq(n, _ => z)
  }

  function Start(threads: set<Thread>): Table {
    Table(Zeros(SLOTS, 0), Zeros(SLOTS, 0), map t | t in threads :: Idle)
  }

  function Run(threads: set<Thread>, limit: nat, steps: seq<(Thread, Action)>): (s: Table)
    ensures |s.keys| == SLOTS && |s.counts| == SLOTS
  {
    if steps == [] then Start(threads)
    else
      var n := |steps| - 1;
      Step(Run(threads, limit, steps[..n]), limit, steps[n].0, steps[n].1)
  }

  lemma StartInv(threads: set<Thread>, limit: nat)
    ensures Inv(Start(threads), limit)
  {
    var s := Start(threads);
    forall x | 0 <= x < SLOTS ensures Holders(s.threads, x) == {} {}
  }

  /**
   * For every interleaving: no key has two slots, every counter is the number of threads that hold a permission
   * counted in it, and no counter is above the limit.
   */
  lemma {:induction false} EveryInterleaving(threads: set<Thread>, limit: nat, steps: seq<(Thread, Action)>)
    ensures Inv(Run(threads, limit, steps), limit)
    decreases |steps|
  {
    if steps == [] {
      StartInv(threads, limit);
    } else {
      var n := |steps| - 1;
      EveryInterleaving(threads, limit, steps[..n]);
      StepKeeps(Run(threads, limit, steps[..n]), limit, steps[n].0, steps[n].1);
    }
  }

  /**
   * Acquire and release of one address reach the same counter: a release is about to decrement exactly the slot its
   * acquire counted in, and a release whose acquire found no room never finds a slot at all.
   */
  lemma {:induction false} ReleaseReachesItsSlot(threads: set<Thread>, limit: nat, steps: seq<(Thread, Action)>, t: Thread)
    requires t in Run(threads, limit, steps).threads
    ensures var s := Run(threads, limit, steps);
      && (s.threads[t].Sub? ==> s.threads[t].place == At(s.threads[t].found))
      && (s.threads[t].SeekBack? && s.threads[t].i >= SLOTS ==> s.threads[t].place == Nowhere)
  {
    EveryInterleaving(threads, limit, steps);
  }

  predicate CountsFor(pc: Pc, key: nat) {
    (pc.Holding? || pc.SeekBack? || pc.Sub?) && pc.key == key && pc.place.At?
  }

  /** The threads that hold a counted permission for a primary. */
  function HoldersOf(threads: map<Thread, Pc>, key: nat): set<Thread> {
    set t | t in threads && CountsFor(threads[t], key)
  }

  lemma OneSlotPerKey(keys: seq<nat>, key: nat, x: nat, y: nat)
    requires KeysOk(keys) && key != 0 && x < SLOTS && y < SLOTS && keys[x] == key && keys[y] == key
    ensures x == y
  {
    var i := ProbesReachAll(key, x);
    var j := ProbesReachAll(key, y);
  }

  lemma SubsetSize(a: set<Thread>, b: set<Thread>)
    requires a <= b
    ensures |a| <= |b|
  {
    assert b == a + (b - a);
  }

  /** In every interleaving at most `limit` threads hold a counted permission for one primary at a time. */
  lemma {:induction false} LimitHolds(threads: set<Thread>, limit: nat, steps: seq<(Thread, Action)>, key: nat)
    ensures |HoldersOf(Run(threads, limit, steps).threads, key)| <= limit
  {
    EveryInterleaving(threads, limit, steps);
    var s := Run(threads, limit, steps);
    var mine := HoldersOf(s.threads, key);
    if t :| t in mine {
      var x := s.threads[t].place.slot;
      forall u | u in mine ensures u in Holders(s.threads, x) {
        assert PcOk(s.keys, s.threads[t]) && PcOk(s.keys, s.threads[u]);
        OneSlotPerKey(s.keys, key, x, s.threads[u].place.slot);
      }
      SubsetSize(mine, Holders(s.threads, x));
    } else {
      assert mine == {};
    }
  }
}
