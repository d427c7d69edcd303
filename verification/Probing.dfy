/**
 * The probes of the code, and the tables it builds.
 */
module Probing {
  import opened Records
  import opened OpenAddressing

  /** The probe for a free slot from the item's own slot on, and the item put there. */
  method Insert<K(!new)>(slots: array<nat>, ghost keys: seq<K>, ghost hash: K -> nat, ghost items: set<nat>, item: nat, h: nat)
    requires Held(slots[..], keys, hash, items) && item < |keys| && Occupied(slots[..]) < slots.Length
    requires h == Home(hash, keys[item], slots.Length)
    modifies slots
    ensures Held(slots[..], keys, hash, items + {item})
    ensures Occupied(slots[..]) == old(Occupied(slots[..])) + 1
  {
    var n := slots.Length;
    var s := h;
    ghost var d := 0;
    ghost var free := FreeIsMet(slots[..], h);
    while slots[s] != 0
      invariant 0 <= d <= free && s == At(h, d, n) && Taken(slots[..], h, d)
      decreases free - d
    {
      d := d + 1;
      s := if s + 1 == n then 0 else s + 1;
    }
    Inserted(slots[..], keys, hash, items, item, d);
    ghost var before: seq<nat> := slots[..];
    slots[s] := item + 1;
    assert slots[..] == before[s := item + 1];
  }

  /** The list gets one more item, and the table with it. */
  method Append<K(!new)>(slots: array<nat>, keys: seq<K>, ghost hash: K -> nat, h: nat)
    requires |keys| > 0 && Table(slots[..], keys[..|keys| - 1], hash) && |keys| <= slots.Length
    requires h == Home(hash, keys[|keys| - 1], slots.Length)
    modifies slots
    ensures Table(slots[..], keys, hash)
  {
    var n := |keys| - 1;
    Insert(slots, keys, hash, Upto(n), n, h);
    assert Upto(n) + {n} == Upto(|keys|);
  }

  /** The probe for a key from its own slot on: it ends at the item of that key, or at a free slot when there is none. */
  method Find<K(==, !new)>(slots: array<nat>, keys: seq<K>, ghost hash: K -> nat, key: K, h: nat) returns (r: Option<nat>)
    requires Table(slots[..], keys, hash) && |keys| < slots.Length && h == Home(hash, key, slots.Length)
    ensures r.Some? ==> r.value < |keys| && keys[r.value] == key
    ensures r.None? <==> key !in keys
  {
    var n := slots.Length;
    var s := h;
    ghost var d := 0;
    ghost var was: seq<nat> := slots[..];
    ghost var free := FreeIsMet(was, h);
    while slots[s] != 0
      invariant 0 <= d <= free && s == At(h, d, n) && Passed(was, keys, h, d, key)
      decreases free - d
    {
      var x := slots[s];
      assert x == was[s];
      if keys[x - 1] == key { return Some(x - 1); }
      PassedOne(was, keys, h, d, key);
      d := d + 1;
      s := if s + 1 == n then 0 else s + 1;
    }
    NotThere(was, keys, hash, key, d);
    return None;
  }

  method Empty<K(!new)>(ghost keys: seq<K>, ghost hash: K -> nat, size: nat) returns (slots: array<nat>)
    requires size > 0
    ensures fresh(slots) && slots.Length == size && Held(slots[..], keys, hash, {}) && Occupied(slots[..]) == 0
  {
    slots := new nat[size](_ => 0);
    NoneOccupied(slots[..]);
  }

  /** All items put into a new table, in the order of the list. */
  method Build<K(!new)>(keys: seq<K>, hash: K -> nat, size: nat) returns (slots: array<nat>)
    requires |keys| < size
    ensures fresh(slots) && slots.Length == size
    ensures Table(slots[..], keys, hash)
  {
    slots := Empty(keys, hash, size);
    var i := 0;
    assert Upto(0) == {};
    while i < |keys|
      invariant 0 <= i <= |keys|
      invariant Held(slots[..], keys, hash, Upto(i)) && Occupied(slots[..]) == i
    {
      Insert(slots, keys, hash, Upto(i), i, Home(hash, keys[i], size));
      assert Upto(i) + {i} == Upto(i + 1);
      i := i + 1;
    }
  }

  /** Growing: the item of one old slot is put into the new table; h is where it belongs there. */
  method MoveOne<K(!new)>(slots: array<nat>, ghost keys: seq<K>, ghost hash: K -> nat, ghost was: seq<nat>, ghost k: nat,
      ghost items: set<nat>, x: nat, h: nat)
    returns (ghost items': set<nat>)
    requires k < |was| && x == was[k] <= |keys| && Occupied(was) < slots.Length
    requires Moving(slots[..], keys, hash, was, k, items)
    requires x != 0 ==> h == Home(hash, keys[x - 1], slots.Length)
    modifies slots
    ensures Moving(slots[..], keys, hash, was, k + 1, items')
  {
    OccupiedStep(was, k);
    MovedOne(was, k, items);
    items' := items;
    if x != 0 {
      Insert(slots, keys, hash, items, x - 1, h);
      items' := items + {x - 1};
    }
  }
}
