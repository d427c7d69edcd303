/**
 * Open addressing with linear probing, as the job index and the published table of the ALIAS expander and the zone
 * index of a view use it: a slot holds 0 (free) or the number of an item plus one, and the items of one home slot are
 * found by walking from there to the first free slot.
 */
module OpenAddressing {
  import opened Records

  /** The slot d steps from h, going round. */
  function At(h: nat, d: nat, n: nat): (s: nat)
    requires h < n && d < n
    ensures s < n
  {
    if h + d < n then h + d else h + d - n
  }

  function Home<K>(hash: K -> nat, key: K, n: nat): (h: nat)
    requires n > 0
    ensures h < n
  {
    hash(key) % n
  }

  /** The first d slots from h on are taken. */
  ghost predicate Taken(slots: seq<nat>, h: nat, d: nat)
    requires h < |slots| && d <= |slots|
  {
    forall e :: 0 <= e < d ==> slots[At(h, e, |slots|)] != 0
  }

  /** Probing from s meets the item before it meets a free slot, and within that many steps. */
  ghost predicate Meets(slots: seq<nat>, s: nat, item: nat, steps: nat)
    requires s < |slots|
    decreases steps
  {
    && steps > 0 && slots[s] != 0
    && (slots[s] == item + 1 || Meets(slots, if s + 1 == |slots| then 0 else s + 1, item, steps - 1))
  }

  ghost predicate Reached(slots: seq<nat>, h: nat, item: nat)
    requires h < |slots|
  {
    Meets(slots, h, item, |slots|)
  }

  /** How far from its home slot an item stands. */
  lemma {:induction false} Stands(slots: seq<nat>, h: nat, item: nat, e: nat) returns (d: nat)
    requires h < |slots| && e < |slots| && Taken(slots, h, e) && Meets(slots, At(h, e, |slots|), item, |slots| - e)
    ensures d < |slots| && slots[At(h, d, |slots|)] == item + 1 && Taken(slots, h, d)
    decreases |slots| - e
  {
    d := e;
    if slots[At(h, e, |slots|)] != item + 1 { d := Stands(slots, h, item, e + 1); }
  }

  lemma {:induction false} StandsIsMet(slots: seq<nat>, h: nat, item: nat, d: nat, e: nat)
    requires h < |slots| && e <= d < |slots| && slots[At(h, d, |slots|)] == item + 1 && Taken(slots, h, d)
    ensures Meets(slots, At(h, e, |slots|), item, |slots| - e)
    decreases d - e
  {
    if e < d { StandsIsMet(slots, h, item, d, e + 1); }
  }

  ghost function Occupied(slots: seq<nat>): nat {
    if slots == [] then 0 else Occupied(slots[..|slots| - 1]) + if slots[|slots| - 1] == 0 then 0 else 1
  }

  /** The slots hold items of the list, and each of the items of the set where its probe reaches it. */
  ghost predicate Held<K(!new)>(slots: seq<nat>, keys: seq<K>, hash: K -> nat, items: set<nat>) {
    && |slots| > 0
    && (forall i {:trigger i in items} :: i in items ==> i < |keys| && Reached(slots, Home(hash, keys[i], |slots|), i))
    && (forall s :: 0 <= s < |slots| ==> slots[s] <= |keys|)
  }

  ghost function Upto(n: nat): (r: set<nat>)
    ensures forall i: nat :: i in r <==> i < n
  {
    if n == 0 then {} else Upto(n - 1) + {n - 1}
  }

  /** The slots hold exactly the items of the list. */
  ghost predicate Table<K(!new)>(slots: seq<nat>, keys: seq<K>, hash: K -> nat) {
    Held(slots, keys, hash, Upto(|keys|)) && Occupied(slots) == |keys|
  }

  /** Sizes are powers of two: taking the low bits of a hash is the remainder. */
  predicate PowerOfTwo(n: nat) {
    n == 1 || (n > 0 && n % 2 == 0 && PowerOfTwo(n / 2))
  }

  // ---- counting ----

  lemma {:induction false} OccupiedBySet(slots: seq<nat>, s: nat, x: nat)
    requires s < |slots| && slots[s] == 0 && x != 0
    ensures Occupied(slots[s := x]) == Occupied(slots) + 1
    decreases |slots|
  {
    var n := |slots| - 1;
    if s < n {
      OccupiedBySet(slots[..n], s, x);
      assert slots[s := x][..n] == slots[..n][s := x];
    } else {
      assert slots[s := x][..n] == slots[..n];
    }
  }

  lemma {:induction false} NoneOccupied(slots: seq<nat>)
    requires forall s :: 0 <= s < |slots| ==> slots[s] == 0
    ensures Occupied(slots) == 0
    decreases |slots|
  {
    if slots != [] { NoneOccupied(slots[..|slots| - 1]); }
  }

  /** Fewer items than slots: one slot is free. */
  lemma {:induction false} OneIsFree(slots: seq<nat>) returns (s: nat)
    requires Occupied(slots) < |slots|
    ensures s < |slots| && slots[s] == 0
    decreases |slots|
  {
    var n := |slots| - 1;
    if slots[n] == 0 {
      s := n;
    } else {
      s := OneIsFree(slots[..n]);
    }
  }

  /** A free slot is met from everywhere. */
  lemma {:induction false} FreeIsMet(slots: seq<nat>, h: nat) returns (d: nat)
    requires h < |slots| && Occupied(slots) < |slots|
    ensures d < |slots| && slots[At(h, d, |slots|)] == 0
  {
    var s := OneIsFree(slots);
    d := if s >= h then s - h else s + |slots| - h;
  }

  // ---- inserting ----

  lemma {:induction false} StillReached(slots: seq<nat>, h: nat, item: nat, s: nat, x: nat)
    requires h < |slots| && s < |slots| && slots[s] == 0 && x != 0 && Reached(slots, h, item)
    ensures Reached(slots[s := x], h, item)
  {
    var n := |slots|;
    var d := Stands(slots, h, item, 0);
    assert slots[s := x][At(h, d, n)] == item + 1 && Taken(slots[s := x], h, d);
    StandsIsMet(slots[s := x], h, item, d, 0);
  }

  lemma {:induction false} Inserted<K(!new)>(slots: seq<nat>, keys: seq<K>, hash: K -> nat, items: set<nat>, item: nat, d: nat)
    requires Held(slots, keys, hash, items) && item < |keys| && d < |slots|
    requires var h := Home(hash, keys[item], |slots|); slots[At(h, d, |slots|)] == 0 && Taken(slots, h, d)
    ensures var s := At(Home(hash, keys[item], |slots|), d, |slots|);
      Held(slots[s := item + 1], keys, hash, items + {item}) && Occupied(slots[s := item + 1]) == Occupied(slots) + 1
  {
    var n := |slots|;
    var h := Home(hash, keys[item], n);
    var s := At(h, d, n);
    var slots' := slots[s := item + 1];
    OccupiedBySet(slots, s, item + 1);
    forall i | i in items + {item} ensures i < |keys| && Reached(slots', Home(hash, keys[i], n), i) {
      if i == item {
        assert slots'[At(h, d, n)] == i + 1 && Taken(slots', h, d);
        StandsIsMet(slots', h, i, d, 0);
      } else {
        StillReached(slots, Home(hash, keys[i], n), i, s, item + 1);
      }
    }
  }

  // ---- searching ----

  /** What a probe that has passed d slots knows: none of them holds the key. */
  ghost predicate Passed<K(!new)>(slots: seq<nat>, keys: seq<K>, h: nat, d: nat, key: K)
    requires h < |slots| && d <= |slots|
  {
    forall e :: 0 <= e < d ==> var x := slots[At(h, e, |slots|)]; 0 < x <= |keys| && keys[x - 1] != key
  }

  lemma {:induction false} PassedOne<K(!new)>(slots: seq<nat>, keys: seq<K>, h: nat, d: nat, key: K)
    requires h < |slots| && d < |slots| && Passed(slots, keys, h, d, key)
    requires var x := slots[At(h, d, |slots|)]; 0 < x <= |keys| && keys[x - 1] != key
    ensures Passed(slots, keys, h, d + 1, key)
  {
  }

  /** A probe that meets a free slot has passed every item of that key. */
  lemma {:induction false} NotThere<K(!new)>(slots: seq<nat>, keys: seq<K>, hash: K -> nat, key: K, d: nat)
    requires Table(slots, keys, hash) && d < |slots|
    requires var h := Home(hash, key, |slots|); Passed(slots, keys, h, d, key) && slots[At(h, d, |slots|)] == 0
    ensures key !in keys
  {
    var n := |slots|;
    var h := Home(hash, key, n);
    forall i | 0 <= i < |keys| ensures keys[i] != key {
      assert i in Upto(|keys|) && Reached(slots, Home(hash, keys[i], n), i);
      if Home(hash, keys[i], n) == h {
        var e := Stands(slots, h, i, 0);
        assert e < d;
      }
    }
  }

  // ---- moving to a new table ----

  lemma {:induction false} OccupiedStep(slots: seq<nat>, k: nat)
    requires k < |slots|
    ensures Occupied(slots[..k + 1]) == Occupied(slots[..k]) + if slots[k] == 0 then 0 else 1
    ensures Occupied(slots[..k + 1]) <= Occupied(slots)
    decreases |slots| - k
  {
    assert slots[..k + 1][..k] == slots[..k];
    if k + 1 < |slots| {
      OccupiedStep(slots, k + 1);
    } else {
      assert slots[..k + 1] == slots;
    }
  }

  ghost predicate Moved(slots: seq<nat>, items: set<nat>) {
    forall s :: 0 <= s < |slots| && slots[s] != 0 ==> slots[s] - 1 in items
  }

  /** The items of the first k slots of the old table are in the new one. */
  ghost predicate Moving<K(!new)>(slots: seq<nat>, keys: seq<K>, hash: K -> nat, was: seq<nat>, k: nat, items: set<nat>) {
    k <= |was| && Held(slots, keys, hash, items) && Occupied(slots) == Occupied(was[..k]) && Moved(was[..k], items)
  }

  lemma {:induction false} MovedOne(slots: seq<nat>, k: nat, items: set<nat>)
    requires k < |slots| && Moved(slots[..k], items)
    ensures Moved(slots[..k + 1], if slots[k] == 0 then items else items + {slots[k] - 1})
  {
    forall s | 0 <= s < k + 1 && slots[s] != 0 ensures s == k || slots[s] - 1 in items {
      if s < k { assert slots[..k][s] == slots[s]; }
    }
  }

  /** Every item of a table stands in some slot. */
  lemma {:induction false} AllMoved<K(!new)>(slots: seq<nat>, keys: seq<K>, hash: K -> nat, items: set<nat>)
    requires Table(slots, keys, hash) && Moved(slots, items)
    ensures Upto(|keys|) <= items
  {
    forall i | i in Upto(|keys|) ensures i in items {
      var n := |slots|;
      var h := Home(hash, keys[i], n);
      assert Reached(slots, h, i);
      var d := Stands(slots, h, i, 0);
      assert slots[At(h, d, n)] != 0;
    }
  }

  lemma {:induction false} HeldLess<K(!new)>(slots: seq<nat>, keys: seq<K>, hash: K -> nat, items: set<nat>, fewer: set<nat>)
    requires Held(slots, keys, hash, items) && fewer <= items
    ensures Held(slots, keys, hash, fewer)
  {
  }

  lemma {:induction false} Doubled(n: nat)
    requires PowerOfTwo(n)
    ensures PowerOfTwo(2 * n)
  {
  }

  lemma {:induction false} StartSizes()
    ensures PowerOfTwo(16) && PowerOfTwo(1024)
  {
    Doubled(1); Doubled(2); Doubled(4); Doubled(8);
    Doubled(16); Doubled(32); Doubled(64); Doubled(128); Doubled(256); Doubled(512);
  }
}
