/**
 * The history of differences of one zone: a ring of reference-counted differences that responses in progress share.
 * `History` and its operations are the specification, proved over every interleaving.
 */
module IxfrHistory {
  import opened IxfrPool

  // ---- the whole history, with the responses in progress ----

  datatype History = History(ring: Ring<TxnId>, pool: Pool, responses: seq<seq<TxnId>>)

  function Flatten(rs: seq<seq<TxnId>>): seq<TxnId> {
    if rs == [] then [] else rs[0] + Flatten(rs[1..])
  }

  ghost function Claims(h: History): multiset<TxnId> {
    multiset(h.ring.items) + multiset(Flatten(h.responses))
  }

  ghost predicate Valid(h: History) {
    RingOk(h.ring) && NoRepeat(h.ring.items) && Balanced(h.pool, Claims(h))
  }

  function Empty(): History {
    History(Ring([], 0, DEFAULT_DEPTH), Pool(map[], 0, []), [])
  }

  datatype Event =
    | Store(id: TxnId, bytes: nat)
    | SetDepth(depth: int)
    | Reset
    | Begin(first: nat)
    | End(response: nat)

  /**
   * One step.  A new difference is freed at once when the depth is 0.  A response takes the differences from one of
   * them to the newest; when it ends it gives back every one it took.
   */
  function Apply(h: History, e: Event): History {
    match e
    case Store(id, bytes) =>
      if h.ring.depth == 0 then h.(pool := h.pool.(freed := h.pool.freed + [id]))
      else
        var p := ReleaseAll(h.pool, PushDrops(h.ring));
        h.(ring := Pushed(h.ring, id), pool := Pool(p.heap[id := Cell(1, bytes)], p.resident + bytes, p.freed))
    case SetDepth(d) =>
      var r := WithDepth(h.ring, d);
      h.(ring := r, pool := ReleaseAll(h.pool, Oldest(h.ring.items, |r.items|)))
    case Reset =>
      h.(ring := Resized(h.ring, 0), pool := ReleaseAll(h.pool, h.ring.items))
    case Begin(first) =>
      var ids := if first <= |h.ring.items| then h.ring.items[first..] else [];
      h.(pool := AcquireAll(h.pool, ids), responses := h.responses + [ids])
    case End(i) =>
      if i >= |h.responses| then h
      else h.(pool := ReleaseAll(h.pool, h.responses[i]), responses := h.responses[..i] + h.responses[i + 1..])
  }

  /** A stored difference is a new object: not in memory and not one that was freed. */
  ghost predicate Fresh(h: History, e: Event) {
    e.Store? ==> e.id !in h.pool.heap && e.id !in h.pool.freed
  }

  function Run(h: History, es: seq<Event>): History {
    if es == [] then h else Apply(Run(h, es[..|es| - 1]), es[|es| - 1])
  }

  ghost predicate AllFresh(h: History, es: seq<Event>) {
    es == [] || (AllFresh(h, es[..|es| - 1]) && Fresh(Run(h, es[..|es| - 1]), es[|es| - 1]))
  }

  /** In memory, or freed. */
  ghost predicate Known(p: Pool, id: TxnId) {
    id in p.heap || id in p.freed
  }

  lemma {:induction false} ReleaseAllKnows(p: Pool, ids: seq<TxnId>, id: TxnId)
    ensures Known(ReleaseAll(p, ids), id) <==> Known(p, id)
    decreases |ids|
  {
    if ids != [] { ReleaseAllKnows(if ids[0] in p.heap then Release(p, ids[0]) else p, ids[1..], id); }
  }

  lemma {:induction false} AcquireAllKnows(p: Pool, ids: seq<TxnId>, id: TxnId)
    ensures Known(AcquireAll(p, ids), id) <==> Known(p, id)
    decreases |ids|
  {
    if ids != [] { AcquireAllKnows(if ids[0] in p.heap then Acquire(p, ids[0]) else p, ids[1..], id); }
  }

  lemma FlattenSplit(a: seq<seq<TxnId>>, b: seq<seq<TxnId>>)
    ensures Flatten(a + b) == Flatten(a) + Flatten(b)
  {
    if a == [] {
      assert a + b == b;
    } else {
      assert (a + b)[1..] == a[1..] + b;
      FlattenSplit(a[1..], b);
    }
  }

  lemma {:induction false} FlattenWithout(rs: seq<seq<TxnId>>, i: nat)
    requires i < |rs|
    ensures multiset(Flatten(rs)) == multiset(rs[i]) + multiset(Flatten(rs[..i] + rs[i + 1..]))
  {
    assert rs == rs[..i] + ([rs[i]] + rs[i + 1..]);
    FlattenSplit(rs[..i], [rs[i]] + rs[i + 1..]);
    FlattenSplit(rs[..i], rs[i + 1..]);
    assert ([rs[i]] + rs[i + 1..])[1..] == rs[i + 1..];
  }

  lemma {:induction false} SplitOldest(s: seq<TxnId>, n: nat)
    ensures Oldest(s, n) + Newest(s, n) == s
    ensures multiset(s) == multiset(Oldest(s, n)) + multiset(Newest(s, n))
  {
    assert Oldest(s, n) + Newest(s, n) == s;
  }

  lemma {:induction false} ShrinkValid(h: History, n: nat)
    requires Valid(h)
    ensures Balanced(ReleaseAll(h.pool, Oldest(h.ring.items, n)),
                     multiset(Newest(h.ring.items, n)) + multiset(Flatten(h.responses)))
  {
    var out, kept := Oldest(h.ring.items, n), Newest(h.ring.items, n);
    SplitOldest(h.ring.items, n);
    ReleaseAllBalances(h.pool, Claims(h), out);
    assert Claims(h) - multiset(out) == multiset(kept) + multiset(Flatten(h.responses));
  }

  /** A push drops what PushDrops says, keeps the rest in order, and stays within the capacity. */
  lemma {:induction false} PushShape(r: Ring<TxnId>, t: TxnId) returns (kept: seq<TxnId>)
    requires RingOk(r) && r.depth > 0
    ensures r.items == PushDrops(r) + kept
    ensures Pushed(r, t).items == kept + [t] && RingOk(Pushed(r, t)) && Pushed(r, t).depth == r.depth
  {
    var g := Grown(r);
    assert g.items == r.items;
    kept := if PushDrops(r) == [] then g.items else g.items[1..];
  }

  lemma NoRepeatTail(a: seq<TxnId>, b: seq<TxnId>)
    requires NoRepeat(a + b)
    ensures NoRepeat(b)
  {
    forall i, j | 0 <= i < j < |b| ensures b[i] != b[j] {
      assert (a + b)[|a| + i] != (a + b)[|a| + j];
    }
  }

  lemma {:induction false} AppendFresh(kept: seq<TxnId>, id: TxnId)
    requires NoRepeat(kept) && id !in multiset(kept)
    ensures NoRepeat(kept + [id]) && multiset(kept + [id]) == multiset(kept) + multiset{id}
  {
    forall i | 0 <= i < |kept| ensures kept[i] != id { assert kept[i] in multiset(kept); }
  }

  lemma {:induction false} StoreDroppedValid(h: History, id: TxnId, bytes: nat)
    requires Valid(h) && Fresh(h, Store(id, bytes)) && h.ring.depth == 0
    ensures Valid(Apply(h, Store(id, bytes)))
  {
    assert Claims(Apply(h, Store(id, bytes))) == Claims(h);
  }

  /** Releasing the dropped differences and putting in the new one balances the new claims. */
  lemma {:induction false} StorePool(p: Pool, out: seq<TxnId>, rest: multiset<TxnId>, id: TxnId, bytes: nat)
    requires Balanced(p, multiset(out) + rest) && id !in p.heap && id !in p.freed
    ensures var q := ReleaseAll(p, out);
      && id !in rest
      && Balanced(Pool(q.heap[id := Cell(1, bytes)], q.resident + bytes, q.freed), rest + multiset{id})
  {
    ReleaseAllBalances(p, multiset(out) + rest, out);
    assert multiset(out) + rest - multiset(out) == rest;
    ReleaseAllKnows(p, out, id);
    InsertBalances(ReleaseAll(p, out), rest, id, bytes);
  }

  lemma {:induction false} StoredClaims(h: History, id: TxnId, bytes: nat, kept: seq<TxnId>)
    requires h.ring.depth > 0 && Pushed(h.ring, id).items == kept + [id]
    ensures Claims(Apply(h, Store(id, bytes))) == multiset(kept) + multiset(Flatten(h.responses)) + multiset{id}
  {
  }

  lemma {:induction false} ClaimsSplit(h: History, out: seq<TxnId>, kept: seq<TxnId>)
    requires h.ring.items == out + kept
    ensures Claims(h) == multiset(out) + (multiset(kept) + multiset(Flatten(h.responses)))
  {
  }

  lemma {:induction false} StoredBalances(h: History, id: TxnId, bytes: nat, kept: seq<TxnId>)
    requires Balanced(h.pool, Claims(h)) && Fresh(h, Store(id, bytes)) && h.ring.depth > 0
    requires h.ring.items == PushDrops(h.ring) + kept && Pushed(h.ring, id).items == kept + [id]
    ensures var h' := Apply(h, Store(id, bytes)); Balanced(h'.pool, Claims(h')) && id !in multiset(kept)
  {
    var out, held := PushDrops(h.ring), multiset(Flatten(h.responses));
    ClaimsSplit(h, out, kept);
    StorePool(h.pool, out, multiset(kept) + held, id, bytes);
    StoredClaims(h, id, bytes, kept);
  }

  lemma {:induction false} StoreValid(h: History, id: TxnId, bytes: nat)
    requires Valid(h) && Fresh(h, Store(id, bytes)) && h.ring.depth > 0
    ensures Valid(Apply(h, Store(id, bytes)))
  {
    var kept := PushShape(h.ring, id);
    StoredBalances(h, id, bytes, kept);
    NoRepeatTail(PushDrops(h.ring), kept);
    AppendFresh(kept, id);
  }

  lemma {:induction false} InsertBalances(p: Pool, claims: multiset<TxnId>, id: TxnId, bytes: nat)
    requires Balanced(p, claims) && id !in p.heap && id !in p.freed
    ensures Balanced(Pool(p.heap[id := Cell(1, bytes)], p.resident + bytes, p.freed), claims + multiset{id})
  {
    assert p.heap - {id} == p.heap;
    TotalUpdate(p.heap, id, Cell(1, bytes));
  }

  lemma {:induction false} EndValid(h: History, i: nat)
    requires Valid(h) && i < |h.responses|
    ensures Valid(Apply(h, End(i)))
  {
    var ids := h.responses[i];
    FlattenWithout(h.responses, i);
    ReleaseAllBalances(h.pool, Claims(h), ids);
    assert Claims(h) - multiset(ids) == Claims(Apply(h, End(i)));
  }

  lemma {:induction false} BeginValid(h: History, first: nat)
    requires Valid(h)
    ensures Valid(Apply(h, Begin(first)))
  {
    var ids := if first <= |h.ring.items| then h.ring.items[first..] else [];
    forall i | 0 <= i < |ids| ensures ids[i] in Claims(h) {
      assert ids[i] == h.ring.items[first + i];
      assert ids[i] in multiset(h.ring.items);
    }
    AcquireAllBalances(h.pool, Claims(h), ids);
    FlattenLast(h.responses, ids);
    assert Claims(h) + multiset(ids) == Claims(Apply(h, Begin(first)));
  }

  lemma {:induction false} FlattenLast(rs: seq<seq<TxnId>>, ids: seq<TxnId>)
    ensures multiset(Flatten(rs + [ids])) == multiset(Flatten(rs)) + multiset(ids)
  {
    FlattenSplit(rs, [ids]);
    assert Flatten([ids]) == ids + Flatten([]);
  }

  lemma {:induction false} SetDepthShape(r: Ring<TxnId>, d: int)
    requires RingOk(r)
    ensures RingOk(WithDepth(r, d)) && WithDepth(r, d).items == Newest(r.items, |WithDepth(r, d).items|)
  {
  }

  lemma {:induction false} SetDepthValid(h: History, d: int)
    requires Valid(h)
    ensures Valid(Apply(h, SetDepth(d)))
  {
    var r := WithDepth(h.ring, d);
    SetDepthShape(h.ring, d);
    var n := |r.items|;
    ShrinkValid(h, n);
    SplitOldest(h.ring.items, n);
    NoRepeatTail(Oldest(h.ring.items, n), Newest(h.ring.items, n));
  }

  lemma {:induction false} ResetValid(h: History)
    requires Valid(h)
    ensures Valid(Apply(h, Reset))
  {
    ShrinkValid(h, 0);
    assert Oldest(h.ring.items, 0) == h.ring.items && Newest(h.ring.items, 0) == [];
  }

  lemma {:induction false} ApplyValid(h: History, e: Event)
    requires Valid(h) && Fresh(h, e)
    ensures Valid(Apply(h, e))
  {
    match e
    case Store(id, bytes) =>
      if h.ring.depth > 0 { StoreValid(h, id, bytes); } else { StoreDroppedValid(h, id, bytes); }
    case SetDepth(d) => SetDepthValid(h, d);
    case Reset => ResetValid(h);
    case Begin(first) => BeginValid(h, first);
    case End(i) => if i < |h.responses| { EndValid(h, i); }
  }

  /**
   * Over every interleaving of stores, depth changes, resets and responses: what is in memory is what the ring or a
   * response holds, each reference count is the number of holders, the resident-bytes counter is the sum over the
   * differences in memory, and nothing freed is in memory.
   */
  lemma {:induction false} EveryRunValid(es: seq<Event>)
    requires AllFresh(Empty(), es)
    ensures Valid(Run(Empty(), es))
    decreases |es|
  {
    if es != [] {
      EveryRunValid(es[..|es| - 1]);
      ApplyValid(Run(Empty(), es[..|es| - 1]), es[|es| - 1]);
    }
  }

  // ---- every difference is freed exactly once ----

  /** The differences a run was given to store. */
  function StoredIds(es: seq<Event>): set<TxnId> {
    if es == [] then {}
    else StoredIds(es[..|es| - 1]) + if es[|es| - 1].Store? then {es[|es| - 1].id} else {}
  }

  lemma {:induction false} ApplyKnows(h: History, e: Event, id: TxnId)
    ensures Known(Apply(h, e).pool, id) <==> Known(h.pool, id) || (e.Store? && e.id == id)
  {
    match e
    case Store(_, _) => ReleaseAllKnows(h.pool, PushDrops(h.ring), id);
    case SetDepth(d) => ReleaseAllKnows(h.pool, Oldest(h.ring.items, |WithDepth(h.ring, d).items|), id);
    case Reset => ReleaseAllKnows(h.pool, h.ring.items, id);
    case Begin(first) => AcquireAllKnows(h.pool, if first <= |h.ring.items| then h.ring.items[first..] else [], id);
    case End(i) => if i < |h.responses| { ReleaseAllKnows(h.pool, h.responses[i], id); }
  }

  /** Nothing that was stored is lost, and nothing else appears. */
  lemma {:induction false} StoredIsKnown(es: seq<Event>, id: TxnId)
    ensures Known(Run(Empty(), es).pool, id) <==> id in StoredIds(es)
    decreases |es|
  {
    if es != [] {
      StoredIsKnown(es[..|es| - 1], id);
      ApplyKnows(Run(Empty(), es[..|es| - 1]), es[|es| - 1], id);
    }
  }

  lemma {:induction false} AtMostOnce(s: seq<TxnId>, id: TxnId)
    requires NoRepeat(s)
    ensures multiset(s)[id] == if id in s then 1 else 0
    decreases |s|
  {
    if s != [] {
      assert s == [s[0]] + s[1..];
      assert NoRepeat(s[1..]) by { NoRepeatTail([s[0]], s[1..]); }
      AtMostOnce(s[1..], id);
      assert id in s <==> id == s[0] || id in s[1..];
    }
  }

  /**
   * Over every interleaving, a stored difference is in memory exactly while the ring or a response holds it, and
   * it has been freed exactly once when none does.
   */
  lemma {:induction false} FreedExactlyOnce(es: seq<Event>, id: TxnId)
    requires AllFresh(Empty(), es)
    ensures var h := Run(Empty(), es);
      && (id in h.pool.heap <==> id in Claims(h))
      && (id in Claims(h) ==> id in StoredIds(es))
      && multiset(h.pool.freed)[id] == if id in StoredIds(es) && id !in Claims(h) then 1 else 0
  {
    var h := Run(Empty(), es);
    EveryRunValid(es);
    StoredIsKnown(es, id);
    AtMostOnce(h.pool.freed, id);
  }

  /** Without a response in progress, what is in memory is what is in the ring. */
  lemma {:induction false} MemoryIsTheRing(h: History)
    requires Valid(h) && h.responses == []
    ensures h.pool.heap.Keys == set id | id in h.ring.items
  {
    assert Claims(h) == multiset(h.ring.items);
    forall id ensures id in h.pool.heap.Keys <==> id in h.ring.items {
      assert id in h.ring.items <==> id in multiset(h.ring.items);
    }
  }

  /** When all responses have ended and the history is reset, everything ever stored has been freed exactly once. */
  lemma {:induction false} NothingLeaks(es: seq<Event>)
    requires AllFresh(Empty(), es) && Run(Empty(), es).responses == []
    ensures var p := Run(Empty(), es + [Reset]).pool;
      && p.heap == map[] && p.resident == 0
      && forall id :: multiset(p.freed)[id] == if id in StoredIds(es) then 1 else 0
  {
    var all := es + [Reset];
    assert all[..|all| - 1] == es;
    var h := Run(Empty(), all);
    EveryRunValid(all);
    MemoryIsTheRing(h);
    assert h.ring.items == [];
    assert h.pool.heap.Keys == {};
    forall id ensures multiset(h.pool.freed)[id] == if id in StoredIds(es) then 1 else 0 {
      FreedExactlyOnce(all, id);
      assert id !in Claims(h);
    }
  }

  // ---- the ring holds the newest differences ----

  function StoredBy(h: History, e: Event): seq<TxnId> {
    if e.Store? && h.ring.depth > 0 then [e.id] else []
  }

  /** Every difference a run put into the ring, oldest first. */
  function StoredLog(h: History, es: seq<Event>): seq<TxnId> {
    if es == [] then []
    else StoredLog(h, es[..|es| - 1]) + StoredBy(Run(h, es[..|es| - 1]), es[|es| - 1])
  }

  ghost predicate IsSuffix(a: seq<TxnId>, b: seq<TxnId>) {
    |a| <= |b| && a == b[|b| - |a|..]
  }

  lemma SuffixOfSuffix(a: seq<TxnId>, n: nat, log: seq<TxnId>)
    requires IsSuffix(a, log)
    ensures IsSuffix(Newest(a, n), log)
  {
  }

  lemma {:induction false} NewestStored(r: Ring<TxnId>, id: TxnId, log: seq<TxnId>)
    requires RingOk(r) && IsSuffix(r.items, log)
    ensures IsSuffix(Pushed(r, id).items, log + [id])
  {
    var g := Grown(r);
    assert g.items == r.items;
    assert IsSuffix(g.items + [id], log + [id]);
    SuffixOfSuffix(g.items + [id], g.cap, log + [id]);
  }

  lemma {:induction false} NewestStep(h: History, e: Event, log: seq<TxnId>)
    requires RingOk(h.ring) && IsSuffix(h.ring.items, log)
    ensures IsSuffix(Apply(h, e).ring.items, log + StoredBy(h, e))
  {
    match e
    case Store(id, _) => if h.ring.depth > 0 { NewestStored(h.ring, id, log); }
    case SetDepth(d) =>
      SetDepthShape(h.ring, d);
      SuffixOfSuffix(h.ring.items, |WithDepth(h.ring, d).items|, log);
    case _ =>
  }

  /** The ring is always the newest of the stored differences, in the order they were stored, with none left out. */
  lemma {:induction false} RingIsNewest(es: seq<Event>)
    requires AllFresh(Empty(), es)
    ensures IsSuffix(Run(Empty(), es).ring.items, StoredLog(Empty(), es))
    decreases |es|
  {
    if es != [] {
      var before, e := es[..|es| - 1], es[|es| - 1];
      RingIsNewest(before);
      EveryRunValid(before);
      NewestStep(Run(Empty(), before), e, StoredLog(Empty(), before));
    }
  }

  /** While the depth is not changed and the history not reset, the ring is the newest stored ones up to the depth. */
  lemma {:induction false} StoresKeepNewest(h: History, es: seq<Event>)
    requires Valid(h) && h.ring.depth > 0 && AllFresh(h, es)
    requires forall i :: 0 <= i < |es| ==> es[i].Store? || es[i].Begin? || es[i].End?
    ensures Valid(Run(h, es)) && Run(h, es).ring.depth == h.ring.depth
    ensures Run(h, es).ring.items == Newest(h.ring.items + StoredLog(h, es), h.ring.depth)
    decreases |es|
  {
    if es == [] {
      assert h.ring.items + StoredLog(h, es) == h.ring.items;
    } else {
      var before, e := es[..|es| - 1], es[|es| - 1];
      StoresKeepNewest(h, before);
      var g := Run(h, before);
      ApplyValid(g, e);
      KeepStep(g, e, h.ring.items + StoredLog(h, before));
      LogGrows(h.ring.items, StoredLog(h, before), StoredBy(g, e));
    }
  }

  lemma LogGrows(items: seq<TxnId>, log: seq<TxnId>, more: seq<TxnId>)
    ensures items + (log + more) == items + log + more
  {
  }

  lemma {:induction false} KeepStep(h: History, e: Event, log: seq<TxnId>)
    requires RingOk(h.ring) && h.ring.depth > 0 && (e.Store? || e.Begin? || e.End?)
    requires h.ring.items == Newest(log, h.ring.depth)
    ensures Apply(h, e).ring.items == Newest(log + StoredBy(h, e), h.ring.depth)
    ensures Apply(h, e).ring.depth == h.ring.depth
  {
    if e.Store? {
      assert Grown(h.ring).items == h.ring.items && Grown(h.ring).cap == h.ring.depth;
      NewestTwice(log, e.id, h.ring.depth);
    } else {
      assert log + StoredBy(h, e) == log;
    }
  }

  lemma NewestTwice(s: seq<TxnId>, id: TxnId, n: nat)
    requires n > 0
    ensures Newest(Newest(s, n) + [id], n) == Newest(s + [id], n)
  {
  }
}
