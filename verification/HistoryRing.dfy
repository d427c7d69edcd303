/**
 * The history ring as the code keeps it: a circular array of `cap` slots, `count` differences ending before `head`.
 * Every method is proved to do what the specification in IxfrHistory says.
 */
module HistoryCode {
  import opened IxfrPool
  import opened IxfrHistory
  import opened RingSlots

  class HistoryRing {
    var entries: array?<TxnId>
    var cap: nat
    var head: nat
    var count: nat
    var depthP1: nat
    var pool: Pool
    var responses: seq<seq<TxnId>>
    /** The differences in the ring, oldest first. */
    ghost var items: seq<TxnId>

    ghost predicate Ok()
      reads this, entries
    {
      && |items| == count
      && if entries == null then cap == 0 && Holds([], head, items) else cap == entries.Length > 0 && Holds(entries[..], head, items)
    }

    function Depth(): nat
      reads this
    {
      if depthP1 > 0 then depthP1 - 1 else DEFAULT_DEPTH
    }

    /** The i-th difference, oldest first. */
    method Entry(i: nat) returns (t: TxnId)
      requires Ok() && i < count
      ensures t == items[i]
    {
      SlotIsRemainder(head, cap, count, i);
      t := entries[(head + cap - count + i) % cap];
    }

    ghost function View(): History
      reads this
    {
      History(Ring(items, cap, Depth()), pool, responses)
    }

    constructor ()
      ensures Ok() && View() == Empty()
    {
      entries, cap, head, count, depthP1 := null, 0, 0, 0, 0;
      pool, responses := Pool(map[], 0, []), [];
      items := [];
    }

    method ReleaseTxn(t: TxnId)
      modifies this`pool
      ensures pool == ReleaseAll(old(pool), [t])
    {
      if t in pool.heap { pool := Release(pool, t); }
    }

    /** The first half of ixfr_ring_resize(): the newest differences go to a new array, the others are released. */
    method CopyNewest(n: nat) returns (ring: array?<TxnId>, keep: nat)
      requires Ok()
      modifies this`pool
      ensures keep == if count < n then count else n
      ensures if n == 0 then ring == null else ring != null && fresh(ring) && ring.Length == n
      ensures forall k :: 0 <= k < keep ==> ring[k] == items[count - keep + k]
      ensures pool == ReleaseAll(old(pool), items[..count - keep])
    {
      ring := null;
      if n > 0 { ring := new TxnId[n]; }
      keep := if count < n then count else n;
      var i := 0;
      while i < count
        invariant 0 <= i <= count
        invariant pool == ReleaseAll(old(pool), items[..if i < count - keep then i else count - keep])
        invariant forall k :: 0 <= k < i - (count - keep) ==> ring[k] == items[count - keep + k]
      {
        var t := Entry(i);
        if i >= count - keep {
          ring[i - (count - keep)] := t;
        } else {
          ReleaseTxn(t);
          ReleaseAllNext(old(pool), items, i);
        }
        i := i + 1;
      }
    }

    /** The slot after the kept ones in a ring of n. */
    static method HeadAfter(keep: nat, n: nat) returns (h: nat)
      requires keep <= n
      ensures h == if keep == n then 0 else keep
    {
      if n > 0 { Remainder(keep, n); }
      h := if n > 0 then keep % n else 0;
    }

    /** ixfr_ring_resize(): a new array of n slots with the newest differences from slot 0. */
    method Resize(n: nat)
      requires Ok()
      modifies `entries, `cap, `head, `count, `items, `pool
      ensures Ok() && cap == n && (entries != null ==> fresh(entries))
      ensures items == Newest(old(items), n) && pool == ReleaseAll(old(pool), Oldest(old(items), n))
    {
      var ring, keep := CopyNewest(n);
      assert items[..count - keep] == Oldest(items, n);
      Adopt(ring, n, keep);
    }

    /** The second half: the new array, with the kept differences from slot 0. */
    method Adopt(ring: array?<TxnId>, n: nat, keep: nat)
      requires |items| == count && keep == if count < n then count else n
      requires if n == 0 then ring == null else ring != null && ring.Length == n
      requires forall k :: 0 <= k < keep ==> ring[k] == items[count - keep + k]
      modifies `entries, `cap, `head, `count, `items
      ensures Ok() && cap == n && entries == ring && items == Newest(old(items), n)
    {
      items := Newest(items, n);
      entries, cap, count := ring, n, keep;
      head := HeadAfter(keep, n);
      if n > 0 { HoldsCopied(entries[..], items); }
    }

    method SetDepth(depth: int)
      requires Ok()
      modifies this
      ensures Ok() && View() == Apply(old(View()), Event.SetDepth(depth))
    {
      var d := if depth < 0 then 0 else if depth > MAX_HISTORY then MAX_HISTORY else depth;
      depthP1 := d + 1;
      if entries != null && d < cap {
        Resize(d);
      } else {
        assert Oldest(items, count) == [];
      }
    }

    method Reset()
      requires Ok()
      modifies this
      ensures Ok() && View() == Apply(old(View()), Event.Reset)
    {
      assert Oldest(items, 0) == items;
      if entries != null {
        Resize(0);
      }
    }

    /** Writes the slot at head, and moves head on. */
    method WriteSlot(id: TxnId)
      requires entries != null && cap == entries.Length && head < cap
      modifies `head, entries
      ensures entries[..] == old(entries[..])[old(head) := id] && head == NextSlot(old(head), cap)
    {
      NextIsRemainder(head, cap);
      entries[head] := id;
      head := (head + 1) % cap;
    }

    /** Puts a difference into the slot at head, in the place of the oldest one when the ring is full. */
    method Put(id: TxnId)
      requires Ok() && cap > 0
      modifies `head, `count, `items, `pool, entries
      ensures Ok()
      ensures items == Newest(old(items) + [id], cap)
      ensures pool == ReleaseAll(old(pool), if old(count) == cap then [old(items[0])] else [])
    {
      if count == cap {
        HoldsInstead(entries[..], head, items, id);
        ReleaseTxn(entries[head]);
        items := items[1..] + [id];
      } else {
        HoldsMore(entries[..], head, items, id);
        count := count + 1;
        items := items + [id];
      }
      WriteSlot(id);
    }

    /** Makes the ring, or makes it larger, for the configured depth. */
    method Grow()
      requires Ok() && RingOk(View().ring)
      modifies this
      ensures Ok() && View() == old(View()).(ring := Grown(old(View().ring)))
      ensures entries == old(entries) || (entries != null && fresh(entries))
    {
      var depth := Depth();
      if depth > 0 && (entries == null || cap < depth) {
        assert Oldest(items, depth) == [] && Newest(items, depth) == items;
        Resize(depth);
      }
    }

    /** The storing half of compute_ixfr_diff(): the ring is made or grown here, and a depth of 0 frees the difference. */
    method Store(id: TxnId, bytes: nat)
      requires Ok() && RingOk(View().ring)
      modifies this, entries
      ensures Ok() && View() == Apply(old(View()), Event.Store(id, bytes))
    {
      if Depth() == 0 {
        pool := pool.(freed := pool.freed + [id]);
        return;
      }
      StoreIs(View(), id, bytes);
      Grow();
      Put(id);
      pool := Pool(pool.heap[id := Cell(1, bytes)], pool.resident + bytes, pool.freed);
    }

    /** A response takes a reference on each difference from the first it needs to the newest. */
    method Begin(first: nat)
      requires Ok() && first <= count
      modifies this
      ensures Ok() && View() == Apply(old(View()), Event.Begin(first))
    {
      var taken: seq<TxnId> := [];
      var i := first;
      while i < count
        invariant entries == old(entries) && cap == old(cap) && head == old(head) && count == old(count)
        invariant depthP1 == old(depthP1) && responses == old(responses) && items == old(items)
        invariant first <= i <= count && taken == items[first..i]
        invariant pool == AcquireAll(old(pool), taken)
      {
        var t := Entry(i);
        if t in pool.heap { pool := Acquire(pool, t); }
        AcquireAllAppend(old(pool), taken, t);
        taken := taken + [t];
        i := i + 1;
      }
      assert taken == items[first..];
      responses := responses + [taken];
    }

    /** A response that ended (or failed) gives back what it took. */
    method End(r: nat)
      requires Ok() && r < |responses|
      modifies this
      ensures Ok() && View() == Apply(old(View()), Event.End(r))
    {
      var taken := responses[r];
      var i := 0;
      while i < |taken|
        invariant 0 <= i <= |taken|
        invariant pool == ReleaseAll(old(pool), taken[..i])
        invariant entries == old(entries) && cap == old(cap) && head == old(head) && count == old(count)
        invariant depthP1 == old(depthP1) && responses == old(responses) && items == old(items)
      {
        ReleaseTxn(taken[i]);
        ReleaseAllAppend(old(pool), taken[..i], taken[i]);
        assert taken[..i + 1] == taken[..i] + [taken[i]];
        i := i + 1;
      }
      assert taken[..i] == taken;
      responses := responses[..r] + responses[r + 1..];
    }
  }

  /** Storing, step by step: grow, drop the oldest when full, append, account. */
  lemma {:induction false} StoreIs(h: History, id: TxnId, bytes: nat)
    requires RingOk(h.ring) && h.ring.depth > 0
    ensures var g := Grown(h.ring);
      g.cap > 0 && var p := ReleaseAll(h.pool, if |g.items| == g.cap then [g.items[0]] else []);
      Apply(h, Event.Store(id, bytes)) == History(Ring(Newest(g.items + [id], g.cap), g.cap, g.depth),
                                                 Pool(p.heap[id := Cell(1, bytes)], p.resident + bytes, p.freed), h.responses)
  {
  }

  lemma {:induction false} AcquireAllAppend(p: Pool, ids: seq<TxnId>, t: TxnId)
    ensures AcquireAll(p, ids + [t]) == AcquireAll(AcquireAll(p, ids), [t])
    decreases |ids|
  {
    if ids == [] {
      assert ids + [t] == [t];
    } else {
      assert (ids + [t])[0] == ids[0] && (ids + [t])[1..] == ids[1..] + [t];
      AcquireAllAppend(if ids[0] in p.heap then Acquire(p, ids[0]) else p, ids[1..], t);
    }
  }

  lemma {:induction false} ReleaseAllNext(p: Pool, ids: seq<TxnId>, i: nat)
    requires i < |ids|
    ensures ReleaseAll(p, ids[..i + 1]) == ReleaseAll(ReleaseAll(p, ids[..i]), [ids[i]])
  {
    ReleaseAllAppend(p, ids[..i], ids[i]);
    assert ids[..i + 1] == ids[..i] + [ids[i]];
  }

  lemma {:induction false} ReleaseAllAppend(p: Pool, ids: seq<TxnId>, t: TxnId)
    ensures ReleaseAll(p, ids + [t]) == ReleaseAll(ReleaseAll(p, ids), [t])
    decreases |ids|
  {
    if ids == [] {
      assert ids + [t] == [t];
    } else {
      assert (ids + [t])[0] == ids[0] && (ids + [t])[1..] == ids[1..] + [t];
      ReleaseAllAppend(if ids[0] in p.heap then Release(p, ids[0]) else p, ids[1..], t);
    }
  }
}
