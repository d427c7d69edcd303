/**
 * The zones of a view and their index: a growing open-addressing table over the names, with the comparison and the hash
 * of names in text form. The index finds what the search of the list finds.
 */
module ZoneIndex {
  import opened Records
  import opened NameDecoding
  import opened OpenAddressing
  import opened Probing

  const BACKSLASH: Octet := 92
  const DOT: Octet := 46

  // ---- names as keys ----

  /** The number of backslashes just before a position. */
  function Backslashes(name: Octets, pos: nat): nat
    requires pos <= |name|
  {
    if pos > 0 && name[pos - 1] == BACKSLASH then Backslashes(name, pos - 1) + 1 else 0
  }

  /** dns_name_len_no_root(): without the last dot, unless that is an escaped one. */
  function LenNoRoot(name: Octets): (n: nat)
    ensures n <= |name|
  {
    var n := |name|;
    if n > 0 && name[n - 1] == DOT && Backslashes(name, n - 1) % 2 == 0 then n - 1 else n
  }

  /** domain_names_match_ci() */
  predicate Matches(a: Octets, b: Octets) {
    || LowerAll(a) == LowerAll(b)
    || (LenNoRoot(a) == LenNoRoot(b) && LowerAll(a[..LenNoRoot(a)]) == LowerAll(b[..LenNoRoot(a)]))
  }

  function Key(name: Octets): Octets {
    LowerAll(name[..LenNoRoot(name)])
  }

  lemma {:induction false} BackslashesLower(a: Octets, b: Octets, pos: nat)
    requires pos <= |a| && LowerAll(a) == LowerAll(b)
    ensures pos <= |b| && Backslashes(a, pos) == Backslashes(b, pos)
    decreases pos
  {
    assert |LowerAll(a)| == |a| && |LowerAll(b)| == |b|;
    if pos > 0 {
      assert LowerAll(a)[pos - 1] == LowerAll(b)[pos - 1];
      BackslashesLower(a, b, pos - 1);
    }
  }

  /** Two names match exactly when their keys are equal; so names that match have one hash. */
  lemma {:induction false} MatchIsSameKey(a: Octets, b: Octets)
    ensures Matches(a, b) <==> Key(a) == Key(b)
  {
    assert |Key(a)| == LenNoRoot(a) && |Key(b)| == LenNoRoot(b);
    if LowerAll(a) == LowerAll(b) {
      assert |LowerAll(a)| == |a| && |LowerAll(b)| == |b|;
      if |a| > 0 {
        BackslashesLower(a, b, |a| - 1);
        assert LowerAll(a)[|a| - 1] == LowerAll(b)[|a| - 1];
      }
      assert LenNoRoot(a) == LenNoRoot(b);
      assert forall i :: 0 <= i < LenNoRoot(a) ==> LowerAll(a)[i] == LowerAll(b)[i];
      assert Key(a) == Key(b);
    }
  }

  function Mix(h: bv32, c: Octet): bv32 {
    (h ^ (c as bv32)) * 16777619
  }

  /** FNV-1a over the octets. */
  function Fnv(s: Octets): bv32 {
    if s == [] then 2166136261 else Mix(Fnv(s[..|s| - 1]), s[|s| - 1])
  }

  lemma {:induction false} FnvStep(name: Octets, i: nat)
    requires i < |name|
    ensures Fnv(LowerAll(name[..i + 1])) == Mix(Fnv(LowerAll(name[..i])), Lower(name[i]))
  {
    assert LowerAll(name[..i + 1])[..i] == LowerAll(name[..i]);
  }

  function Hash(key: Octets): nat {
    Fnv(key) as int
  }

  /** dns_name_hash_ci(): it depends on the key of the name alone. */
  method HashName(name: Octets) returns (h: bv32)
    ensures h == Fnv(Key(name))
  {
    var len := LenNoRoot(name);
    h := 2166136261;
    var i := 0;
    while i < len
      invariant 0 <= i <= len && h == Fnv(LowerAll(name[..i]))
    {
      FnvStep(name, i);
      h := Mix(h, Lower(name[i]));
      i := i + 1;
    }
  }

  /** The slot of a name. */
  method HomeOf(name: Octets, size: nat) returns (h: nat)
    requires size > 0
    ensures h == Home(Hash, Key(name), size)
  {
    var full := HashName(name);
    h := full as int % size;
  }

  // ---- the list ----

  /** The first zone of the list whose name matches. */
  ghost predicate IsFirstMatch(zones: seq<Octets>, domain: Octets, r: Option<nat>) {
    match r
    case Some(i) => i < |zones| && Matches(zones[i], domain) && forall j :: 0 <= j < i ==> !Matches(zones[j], domain)
    case None => forall j :: 0 <= j < |zones| ==> !Matches(zones[j], domain)
  }

  ghost predicate AllDifferent(zones: seq<Octets>) {
    forall i, j :: 0 <= i < j < |zones| ==> !Matches(zones[i], zones[j])
  }

  function Keys(zones: seq<Octets>): (r: seq<Octets>)
    ensures |r| == |zones| && forall i :: 0 <= i < |zones| ==> r[i] == Key(zones[i])
  {
    seq(|zones|, i requires 0 <= i < |zones| => Key(zones[i]))
  }

  /** With different names, what has the key is the first match. */
  lemma {:induction false} ByKeyIsFirst(zones: seq<Octets>, domain: Octets, r: Option<nat>)
    requires AllDifferent(zones)
    requires match r case Some(i) => i < |zones| && Keys(zones)[i] == Key(domain) case None => Key(domain) !in Keys(zones)
    ensures IsFirstMatch(zones, domain, r)
  {
    forall j | 0 <= j < |zones| ensures Matches(zones[j], domain) <==> Keys(zones)[j] == Key(domain) {
      MatchIsSameKey(zones[j], domain);
    }
    if r.Some? {
      forall j | 0 <= j < r.value ensures !Matches(zones[j], domain) { MatchIsSameKey(zones[j], zones[r.value]); }
    }
  }

  lemma {:induction false} StillDifferent(zones: seq<Octets>, z: Octets)
    requires AllDifferent(zones) && IsFirstMatch(zones, z, None)
    ensures AllDifferent(zones + [z])
  {
  }

  // ---- the index ----

  datatype Insertion = Added | Duplicate(of: nat) | Failed

  class ViewZones {
    var zones: seq<Octets>
    var slots: array?<nat>

    /** The index holds the zones of the list, and is at most half full. */
    ghost predicate Indexed()
      reads this, slots
    {
      slots != null &&
      Table(slots[..], Keys(zones), Hash) && 2 * |zones| <= slots.Length && 16 <= slots.Length && PowerOfTwo(slots.Length)
    }

    ghost predicate IndexValid()
      reads this, slots
    {
      if slots == null then zones == [] else Indexed()
    }

    ghost predicate Valid()
      reads this, slots
    {
      AllDifferent(zones) && IndexValid()
    }

    constructor ()
      ensures Valid() && zones == []
    {
      zones, slots := [], null;
    }

    /** zone_cfg_index_find() */
    method FindIndexed(domain: Octets) returns (r: Option<nat>)
      requires Valid() && slots != null
      ensures IsFirstMatch(zones, domain, r)
    {
      var h := HomeOf(domain, slots.Length);
      r := Find(slots, Keys(zones), Hash, Key(domain), h);
      ByKeyIsFirst(zones, domain, r);
    }

    /** view_find_zone_config(): by the index, or along the list when there is none. */
    method FindZone(domain: Octets) returns (r: Option<nat>)
      requires slots == null || Valid()
      ensures IsFirstMatch(zones, domain, r)
    {
      if slots != null {
        r := FindIndexed(domain);
        return;
      }
      var i := 0;
      while i < |zones|
        invariant 0 <= i <= |zones| && forall j :: 0 <= j < i ==> !Matches(zones[j], domain)
      {
        if Matches(zones[i], domain) { return Some(i); }
        i := i + 1;
      }
      return None;
    }

    /** The zone of one old slot, put where it belongs in the new table. */
    static method MoveZone(zones: seq<Octets>, slots': array<nat>, x: nat, ghost was: seq<nat>, ghost k: nat,
        ghost items: set<nat>)
      returns (ghost items': set<nat>)
      requires k < |was| && x == was[k] <= |zones| && Occupied(was) < slots'.Length
      requires Moving(slots'[..], Keys(zones), Hash, was, k, items)
      modifies slots'
      ensures Moving(slots'[..], Keys(zones), Hash, was, k + 1, items')
    {
      var h := 0;
      if x != 0 { h := HomeOf(zones[x - 1], slots'.Length); }
      items' := MoveOne(slots', Keys(zones), Hash, was, k, items, x, h);
    }

    /** Growing: the zones of the old slots, in the order of the slots, put into a new table. */
    static method Regrow(zones: seq<Octets>, slots: array<nat>, cap: nat) returns (slots': array<nat>)
      requires Table(slots[..], Keys(zones), Hash) && |zones| < cap
      ensures fresh(slots') && slots'.Length == cap && Table(slots'[..], Keys(zones), Hash)
    {
      slots' := Empty(Keys(zones), Hash, cap);
      ghost var was: seq<nat> := slots[..];
      ghost var items: set<nat> := {};
      var k := 0;
      while k < slots.Length
        invariant 0 <= k <= slots.Length && slots[..] == was
        invariant Moving(slots'[..], Keys(zones), Hash, was, k, items)
      {
        items := MoveZone(zones, slots', slots[k], was, k, items);
        k := k + 1;
      }
      assert was[..k] == was;
      AllMoved(was, Keys(zones), Hash, items);
      HeldLess(slots'[..], Keys(zones), Hash, items, Upto(|zones|));
    }

    /** The zones in a table of that many slots. */
    method NewSlots(cap: nat) returns (slots': array<nat>)
      requires IndexValid() && |zones| < cap
      ensures fresh(slots') && slots'.Length == cap && Table(slots'[..], Keys(zones), Hash)
    {
      if slots == null {
        slots' := Build(Keys(zones), Hash, cap);
      } else {
        slots' := Regrow(zones, slots, cap);
      }
    }

    /** Room for one more zone: 16 slots at first, then twice as many, when more than half would be taken. */
    method MakeRoom(memory: bool) returns (ok: bool)
      requires IndexValid()
      modifies this`slots
      ensures ok ==> Indexed() && 2 * (|zones| + 1) <= slots.Length && (slots == old(slots) || fresh(slots))
      ensures !ok ==> slots == old(slots) && (memory ==> |zones| >= 0x4000_0000)
    {
      if slots != null && 2 * (|zones| + 1) <= slots.Length { return true; }
      var cap := if slots == null then 16 else 2 * slots.Length;
      if cap > 0xFFFF_FFFF || !memory { return false; }
      assert PowerOfTwo(cap) by {
        if slots == null { StartSizes(); } else { Doubled(slots.Length); }
      }
      var slots' := NewSlots(cap);
      slots := slots';
      return true;
    }

    /** The zone at the end of the list, and in the index. */
    method Enter(z: Octets)
      requires Indexed() && 2 * (|zones| + 1) <= slots.Length
      modifies this`zones, slots
      ensures zones == old(zones) + [z] && Indexed()
    {
      var keys := Keys(zones + [z]);
      assert keys[..|zones|] == Keys(zones);
      var h := HomeOf(z, slots.Length);
      Append(slots, keys, Hash, h);
      zones := zones + [z];
    }

    /** zone_cfg_index_insert(), and the new zone at the end of the list. */
    method AddZone(z: Octets, memory: bool) returns (r: Insertion)
      requires Valid()
      modifies this, slots
      ensures Valid()
      ensures match r
        case Added => zones == old(zones) + [z] && IsFirstMatch(old(zones), z, None)
        case Duplicate(i) => zones == old(zones) && IsFirstMatch(old(zones), z, Some(i))
        case Failed => zones == old(zones) && (memory ==> |zones| >= 0x4000_0000)
    {
      if slots != null {
        var found := FindIndexed(z);
        if found.Some? { return Duplicate(found.value); }
      }
      var ok := MakeRoom(memory);
      if !ok { return Failed; }
      StillDifferent(zones, z);
      Enter(z);
      return Added;
    }
  }
}
