/**
 * Where a circular array keeps its elements: `count` of them, ending before `head`.
 */
module RingSlots {
  import opened IxfrPool

  /** The slot of the i-th element, oldest first. */
  function SlotOf(head: nat, cap: nat, count: nat, i: nat): (s: nat)
    requires head < cap && i < count <= cap
    ensures s < cap
  {
    var x := head + cap - count + i;
    if x < cap then x else x - cap
  }

  function NextSlot(head: nat, cap: nat): (s: nat)
    requires head < cap
    ensures s < cap
  {
    if head + 1 < cap then head + 1 else 0
  }

  lemma {:induction false} Remainder(x: nat, n: nat)
    requires n > 0 && x < 2 * n
    ensures x % n == if x < n then x else x - n
  {
  }

  /** The remainders that the code takes. */
  lemma {:induction false} SlotIsRemainder(head: nat, cap: nat, count: nat, i: nat)
    requires head < cap && i < count <= cap
    ensures SlotOf(head, cap, count, i) == (head + cap - count + i) % cap
    ensures NextSlot(head, cap) == (head + 1) % cap
  {
    Remainder(head + cap - count + i, cap);
    Remainder(head + 1, cap);
  }

  lemma {:induction false} NextIsRemainder(head: nat, cap: nat)
    requires head < cap
    ensures NextSlot(head, cap) == (head + 1) % cap
  {
    Remainder(head + 1, cap);
  }

  /** The array holds these elements. */
  ghost predicate Holds(entries: seq<TxnId>, head: nat, items: seq<TxnId>) {
    && |items| <= |entries| && (if entries == [] then head == 0 else head < |entries|)
    && forall i :: 0 <= i < |items| ==> items[i] == entries[SlotOf(head, |entries|, |items|, i)]
  }

  /** Elements copied to the front of a new array. */
  lemma {:induction false} HoldsCopied(entries: seq<TxnId>, items: seq<TxnId>)
    requires |items| <= |entries| && forall i :: 0 <= i < |items| ==> entries[i] == items[i]
    ensures Holds(entries, if |items| == |entries| then 0 else |items|, items)
  {
  }

  /** A new element in the slot at head, while there is a free one. */
  lemma {:induction false} HoldsMore(entries: seq<TxnId>, head: nat, items: seq<TxnId>, id: TxnId)
    requires Holds(entries, head, items) && |items| < |entries|
    ensures Holds(entries[head := id], NextSlot(head, |entries|), items + [id])
  {
  }

  /** And when all are taken: it takes the place of the oldest one. */
  lemma {:induction false} HoldsInstead(entries: seq<TxnId>, head: nat, items: seq<TxnId>, id: TxnId)
    requires Holds(entries, head, items) && |items| == |entries| > 0
    ensures items[0] == entries[head]
    ensures Holds(entries[head := id], NextSlot(head, |entries|), items[1..] + [id])
  {
    var n := |entries|;
    assert SlotOf(head, n, n, 0) == head;
    var items' := items[1..] + [id];
    forall i | 0 <= i < n ensures items'[i] == entries[head := id][SlotOf(NextSlot(head, n), n, n, i)] {
      if i < n - 1 { assert items[i + 1] == entries[SlotOf(head, n, n, i + 1)]; }
    }
  }
}
