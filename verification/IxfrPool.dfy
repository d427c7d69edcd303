/**
 * The parts of a difference history: the ring of the newest differences, and the pool of differences in memory with their
 * reference counts and the resident-bytes counter.
 */
module IxfrPool {

  const MAX_HISTORY: nat := 32
  const DEFAULT_DEPTH: nat := 4

  // ---- the ring as a list, oldest first ----

  function Newest<T>(s: seq<T>, n: nat): seq<T> {
    if |s| <= n then s else s[|s| - n..]
  }

  function Oldest<T>(s: seq<T>, n: nat): seq<T> {
    if |s| <= n then [] else s[..|s| - n]
  }

  /** cap is the number of slots there are (0: no ring yet), depth the configured number. */
  datatype Ring<T> = Ring(items: seq<T>, cap: nat, depth: nat)

  ghost predicate RingOk<T>(r: Ring<T>) {
    |r.items| <= r.cap <= r.depth <= MAX_HISTORY
  }

  function Resized<T>(r: Ring<T>, n: nat): Ring<T> {
    r.(items := Newest(r.items, n), cap := n)
  }

  function ClampDepth(d: int): nat {
    if d < 0 then 0 else if d > MAX_HISTORY then MAX_HISTORY else d
  }

  /** A lower depth drops the oldest differences now; a higher one grows the ring at the next stored one. */
  function WithDepth<T>(r: Ring<T>, d: int): Ring<T> {
    var n := ClampDepth(d);
    var s := r.(depth := n);
    if n < r.cap then Resized(s, n) else s
  }

  /** The ring with its slots made (or made more) for the configured depth. */
  function Grown<T>(r: Ring<T>): Ring<T> {
    if r.cap < r.depth then Resized(r, r.depth) else r
  }

  function Pushed<T>(r: Ring<T>, t: T): Ring<T> {
    var g := Grown(r);
    g.(items := Newest(g.items + [t], g.cap))
  }

  /** What a push drops: nothing, or the oldest difference when all slots are taken. */
  function PushDrops<T>(r: Ring<T>): seq<T> {
    var g := Grown(r);
    if |g.items| == g.cap && g.items != [] then [g.items[0]] else []
  }

  // ---- the shared differences ----

  type TxnId = int

  /** A difference in memory: how many hold it, and what it adds to the resident bytes. */
  datatype Cell = Cell(refs: int, bytes: nat)

  /** The differences in memory, the resident-bytes counter, and those that were freed, in order. */
  datatype Pool = Pool(heap: map<TxnId, Cell>, resident: int, freed: seq<TxnId>)

  lemma HasKey(heap: map<TxnId, Cell>)
    requires heap != map[]
    ensures exists id :: id in heap
  {
    if forall id :: id !in heap {}
  }

  ghost function Total(heap: map<TxnId, Cell>): nat
    decreases |heap|
  {
    if heap == map[] then 0
    else
      HasKey(heap);
      var id: TxnId :| id in heap;
      heap[id].bytes + Total(heap - {id})
  }

  /** ixfr_txn_release(): one holder less; the last one frees it and takes its bytes off the counter. */
  function Release(p: Pool, id: TxnId): Pool
    requires id in p.heap
  {
    var c := p.heap[id];
    if c.refs == 1 then Pool(p.heap - {id}, p.resident - c.bytes, p.freed + [id])
    else p.(heap := p.heap[id := c.(refs := c.refs - 1)])
  }

  function Acquire(p: Pool, id: TxnId): Pool
    requires id in p.heap
  {
    p.(heap := p.heap[id := p.heap[id].(refs := p.heap[id].refs + 1)])
  }

  function ReleaseAll(p: Pool, ids: seq<TxnId>): Pool
    decreases |ids|
  {
    if ids == [] then p
    else if ids[0] in p.heap then ReleaseAll(Release(p, ids[0]), ids[1..])
    else ReleaseAll(p, ids[1..])
  }

  function AcquireAll(p: Pool, ids: seq<TxnId>): Pool
    decreases |ids|
  {
    if ids == [] then p
    else if ids[0] in p.heap then AcquireAll(Acquire(p, ids[0]), ids[1..])
    else AcquireAll(p, ids[1..])
  }

  ghost predicate NoRepeat(s: seq<TxnId>) {
    forall i, j :: 0 <= i < j < |s| ==> s[i] != s[j]
  }

  /**
   * The pool and the claims on it agree: what is in memory is what is claimed, each reference count is the number of
   * claims, the counter is the sum of the sizes, and nothing freed is in memory or was freed before.
   */
  ghost predicate Balanced(p: Pool, claims: multiset<TxnId>) {
    && (forall id :: id in p.heap <==> id in claims)
    && (forall id :: id in p.heap ==> p.heap[id].refs == claims[id])
    && p.resident == Total(p.heap)
    && NoRepeat(p.freed)
    && (forall i :: 0 <= i < |p.freed| ==> p.freed[i] !in p.heap)
  }

  lemma {:induction false} TotalRemove(heap: map<TxnId, Cell>, id: TxnId)
    requires id in heap
    ensures Total(heap) == heap[id].bytes + Total(heap - {id})
    decreases |heap|
  {
    var k: TxnId :| k in heap && Total(heap) == heap[k].bytes + Total(heap - {k});
    if k != id {
      TotalRemove(heap - {k}, id);
      TotalRemove(heap - {id}, k);
      assert heap - {k} - {id} == heap - {id} - {k};
    }
  }

  lemma {:induction false} TotalUpdate(heap: map<TxnId, Cell>, id: TxnId, c: Cell)
    ensures Total(heap[id := c]) == c.bytes + Total(heap - {id})
  {
    TotalRemove(heap[id := c], id);
    assert heap[id := c] - {id} == heap - {id};
  }

  lemma {:induction false} ReleaseBalances(p: Pool, claims: multiset<TxnId>, id: TxnId)
    requires Balanced(p, claims) && id in claims
    ensures Balanced(Release(p, id), claims - multiset{id})
    ensures Release(p, id).freed == p.freed + (if claims[id] == 1 then [id] else [])
  {
    TotalRemove(p.heap, id);
    TotalUpdate(p.heap, id, p.heap[id].(refs := p.heap[id].refs - 1));
  }

  lemma {:induction false} ReleaseAllBalances(p: Pool, claims: multiset<TxnId>, ids: seq<TxnId>)
    requires Balanced(p, claims) && multiset(ids) <= claims
    ensures Balanced(ReleaseAll(p, ids), claims - multiset(ids))
    decreases |ids|
  {
    if ids == [] {
      assert claims - multiset(ids) == claims;
    } else {
      assert ids == [ids[0]] + ids[1..];
      assert multiset(ids) == multiset{ids[0]} + multiset(ids[1..]);
      ReleaseBalances(p, claims, ids[0]);
      ReleaseAllBalances(Release(p, ids[0]), claims - multiset{ids[0]}, ids[1..]);
      assert claims - multiset{ids[0]} - multiset(ids[1..]) == claims - multiset(ids);
    }
  }

  lemma {:induction false} AcquireAllBalances(p: Pool, claims: multiset<TxnId>, ids: seq<TxnId>)
    requires Balanced(p, claims) && forall i :: 0 <= i < |ids| ==> ids[i] in claims
    ensures Balanced(AcquireAll(p, ids), claims + multiset(ids))
    decreases |ids|
  {
    if ids == [] {
      assert claims + multiset(ids) == claims;
    } else {
      var id := ids[0];
      assert ids == [id] + ids[1..];
      assert id in claims;
      TotalRemove(p.heap, id);
      TotalUpdate(p.heap, id, p.heap[id].(refs := p.heap[id].refs + 1));
      AcquireAllBalances(Acquire(p, id), claims + multiset{id}, ids[1..]);
      assert claims + multiset{id} + multiset(ids[1..]) == claims + multiset(ids);
    }
  }
}
