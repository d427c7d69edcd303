/**
 * The answer of a resolver for an ALIAS target (alias_parse_response): the CNAME chain from the target is followed
 * inside the answer, and the addresses at its end are collected.
 */
module AliasAnswer {
  import opened Records
  import opened NameDecoding

  const MAX_CNAME: nat := 8
  const MAX_RR: nat := 32
  const MAX_TTL: nat := 86400
  const NEG_TTL: nat := 30
  const MAX_ANSWERS: nat := 1024
  const TYPE_CNAME: nat := 5
  const CLASS_IN: nat := 1

  /** One record of the answer: where its RDATA is, and what is before it. */
  datatype Rr = Rr(owner: Octets, rtype: nat, cls: nat, ttl: nat, rdata: nat, rdlen: nat)

  function Word(pkt: Octets, o: nat): nat
    requires o + 1 < |pkt|
  {
    var high: int := pkt[o];
    high * 256 + pkt[o + 1]
  }

  function Long(pkt: Octets, o: nat): nat
    requires o + 3 < |pkt|
  {
    Word(pkt, o) * 65536 + Word(pkt, o + 2)
  }

  datatype RrResult = NoRr | GotRr(rr: Rr, next: nat)

  /** next_rr(): the record at off and the offset after it. */
  ghost function RrAt(pkt: Octets, off: nat): (r: RrResult)
    ensures r.GotRr? ==> r.rr.rdata + r.rr.rdlen == r.next <= |pkt|
  {
    var d := Result(pkt, off);
    if d.Bad? || d.next + 10 > |pkt| then NoRr
    else
      var n := d.next;
      var rr := Rr(d.name, Word(pkt, n), Word(pkt, n + 2), Long(pkt, n + 4), n + 10, Word(pkt, n + 8));
      if rr.rdata + rr.rdlen > |pkt| then NoRr else GotRr(rr, rr.rdata + rr.rdlen)
  }

  method NextRr(pkt: Octets, off: nat) returns (r: RrResult)
    ensures r == RrAt(pkt, off)
  {
    var d := PktName(pkt, off);
    if d.Bad? || d.next + 10 > |pkt| { return NoRr; }
    var n := d.next;
    var rr := Rr(d.name, Word(pkt, n), Word(pkt, n + 2), Long(pkt, n + 4), n + 10, Word(pkt, n + 8));
    if rr.rdata + rr.rdlen > |pkt| { return NoRr; }
    return GotRr(rr, rr.rdata + rr.rdlen);
  }

  /** The n records from off on, when all of them can be read. */
  ghost function Rrs(pkt: Octets, off: nat, n: nat): Option<seq<Rr>>
    decreases n
  {
    if n == 0 then Some([])
    else
      var r := RrAt(pkt, off);
      if r.NoRr? then None
      else
        var rest := Rrs(pkt, r.next, n - 1);
        if rest.None? then None else Some([r.rr] + rest.value)
  }

  // ---- the CNAME chain ----

  predicate IsCname(r: Rr, name: Octets) {
    r.cls == CLASS_IN && r.rtype == TYPE_CNAME && r.owner == name
  }

  /** The target of a CNAME record: a name that fills its RDATA. */
  ghost function Target(pkt: Octets, r: Rr): Option<Octets> {
    var d := Result(pkt, r.rdata);
    if d.Name? && d.next == r.rdata + r.rdlen then Some(d.name) else None
  }

  function FirstCname(rrs: seq<Rr>, name: Octets): (k: nat)
    ensures k <= |rrs|
    ensures k < |rrs| ==> IsCname(rrs[k], name)
    ensures forall i :: 0 <= i < k ==> !IsCname(rrs[i], name)
  {
    if rrs == [] || IsCname(rrs[0], name) then 0 else 1 + FirstCname(rrs[1..], name)
  }

  /** Where the chain goes from a name: nowhere, to the target of its first CNAME record, or it is broken. */
  datatype Hop = End | To(name: Octets) | Broken

  ghost function HopFrom(pkt: Octets, rrs: seq<Rr>, name: Octets): Hop {
    var k := FirstCname(rrs, name);
    if k == |rrs| then End
    else
      var t := Target(pkt, rrs[k]);
      if t.None? then Broken else To(t.value)
  }

  /** The name the chain ends at, when it ends after at most `left` hops. */
  ghost function Chase(pkt: Octets, rrs: seq<Rr>, name: Octets, left: nat): Option<Octets>
    decreases left
  {
    match HopFrom(pkt, rrs, name)
    case End => Some(name)
    case Broken => None
    case To(next) => if left == 0 then None else Chase(pkt, rrs, next, left - 1)
  }

  /** names is a chain of CNAME records of the answer, from its first name to a name that has none. */
  ghost predicate ChainTo(pkt: Octets, rrs: seq<Rr>, names: seq<Octets>) {
    && names != []
    && HopFrom(pkt, rrs, names[|names| - 1]) == End
    && forall i :: 0 <= i < |names| - 1 ==> Hops(pkt, rrs, names, i)
  }

  ghost predicate Hops(pkt: Octets, rrs: seq<Rr>, names: seq<Octets>, i: nat)
    requires i < |names| - 1
  {
    HopFrom(pkt, rrs, names[i]) == To(names[i + 1])
  }

  /** A chase that ends gives a chain of at most `left` hops to the name it ends at. */
  lemma {:induction false} ChaseIsChain(pkt: Octets, rrs: seq<Rr>, name: Octets, left: nat) returns (names: seq<Octets>)
    requires Chase(pkt, rrs, name, left).Some?
    ensures ChainTo(pkt, rrs, names) && names[0] == name && |names| <= left + 1
    ensures Chase(pkt, rrs, name, left) == Some(names[|names| - 1])
    decreases left
  {
    if HopFrom(pkt, rrs, name) == End {
      names := [name];
    } else {
      var next := HopFrom(pkt, rrs, name).name;
      var rest := ChaseIsChain(pkt, rrs, next, left - 1);
      names := [name] + rest;
      forall i | 0 <= i < |names| - 1 ensures Hops(pkt, rrs, names, i) {
        if i > 0 { assert Hops(pkt, rrs, rest, i - 1); }
      }
    }
  }

  /** ... and a chain of at most `left` hops is found. */
  lemma {:induction false} ChainIsChased(pkt: Octets, rrs: seq<Rr>, names: seq<Octets>, left: nat)
    requires ChainTo(pkt, rrs, names) && |names| <= left + 1
    ensures Chase(pkt, rrs, names[0], left) == Some(names[|names| - 1])
    decreases left
  {
    if |names| > 1 {
      assert Hops(pkt, rrs, names, 0);
      var rest := names[1..];
      forall i | 0 <= i < |rest| - 1 ensures Hops(pkt, rrs, rest, i) { assert Hops(pkt, rrs, names, i + 1); }
      ChainIsChased(pkt, rrs, rest, left - 1);
    }
  }

  /** A set of names each of whose CNAME leads to another one of them: the chain never leaves it. */
  ghost predicate Loop(pkt: Octets, rrs: seq<Rr>, names: set<Octets>) {
    forall n {:trigger StaysIn(pkt, rrs, n, names)} :: n in names ==> StaysIn(pkt, rrs, n, names)
  }

  ghost predicate StaysIn(pkt: Octets, rrs: seq<Rr>, name: Octets, names: set<Octets>) {
    HopFrom(pkt, rrs, name).To? && HopFrom(pkt, rrs, name).name in names
  }

  /** A chase that runs into a CNAME loop, at once or later, does not end. */
  lemma {:induction false} LoopNeverEnds(pkt: Octets, rrs: seq<Rr>, name: Octets, loop: set<Octets>, left: nat)
    requires Loop(pkt, rrs, loop) && name in loop
    ensures Chase(pkt, rrs, name, left) == None
    decreases left
  {
    assert StaysIn(pkt, rrs, name, loop);
    if left > 0 { LoopNeverEnds(pkt, rrs, HopFrom(pkt, rrs, name).name, loop, left - 1); }
  }

  // ---- the addresses ----

  predicate IsAddress(r: Rr, name: Octets, qtype: nat, want: nat) {
    r.cls == CLASS_IN && r.rtype == qtype && r.owner == name && r.rdlen == want
  }

  function Rdata(pkt: Octets, r: Rr): Octets
    requires r.rdata + r.rdlen <= |pkt|
  {
    pkt[r.rdata..r.rdata + r.rdlen]
  }

  ghost predicate InPacket(pkt: Octets, rrs: seq<Rr>) {
    forall i :: 0 <= i < |rrs| ==> rrs[i].rdata + rrs[i].rdlen <= |pkt|
  }

  /** The RDATA of the address records of a name, in order, with repetitions. */
  ghost function Addresses(pkt: Octets, rrs: seq<Rr>, name: Octets, qtype: nat, want: nat): seq<Octets>
    requires InPacket(pkt, rrs)
  {
    if rrs == [] then []
    else
      var n := |rrs| - 1;
      Addresses(pkt, rrs[..n], name, qtype, want) + if IsAddress(rrs[n], name, qtype, want) then [Rdata(pkt, rrs[n])] else []
  }

  /** The different ones, in the order they first appear. */
  function Different(xs: seq<Octets>): (ys: seq<Octets>)
    ensures forall x :: x in ys <==> x in xs
    ensures forall i, j :: 0 <= i < j < |ys| ==> ys[i] != ys[j]
  {
    if xs == [] then []
    else
      var ys := Different(xs[..|xs| - 1]);
      var x := xs[|xs| - 1];
      assert xs == xs[..|xs| - 1] + [x];
      if x in ys then ys else ys + [x]
  }

  function Take(xs: seq<Octets>, n: nat): seq<Octets> {
    if |xs| <= n then xs else xs[..n]
  }

  /** The least TTL of the address records, or the start value when there are none. */
  ghost function LeastTtl(rrs: seq<Rr>, name: Octets, qtype: nat, want: nat): nat {
    if rrs == [] then 0xFFFF_FFFF
    else
      var n := |rrs| - 1;
      var t := LeastTtl(rrs[..n], name, qtype, want);
      if IsAddress(rrs[n], name, qtype, want) && rrs[n].ttl < t then rrs[n].ttl else t
  }

  lemma {:induction false} LeastTtlWitness(rrs: seq<Rr>, name: Octets, qtype: nat, want: nat) returns (k: nat)
    ensures forall i :: 0 <= i < |rrs| && IsAddress(rrs[i], name, qtype, want) ==> LeastTtl(rrs, name, qtype, want) <= rrs[i].ttl
    ensures if k < |rrs| then IsAddress(rrs[k], name, qtype, want) && rrs[k].ttl == LeastTtl(rrs, name, qtype, want)
            else LeastTtl(rrs, name, qtype, want) == 0xFFFF_FFFF
    decreases |rrs|
  {
    k := |rrs|;
    if rrs != [] {
      var n := |rrs| - 1;
      var j := LeastTtlWitness(rrs[..n], name, qtype, want);
      assert forall i :: 0 <= i < n ==> rrs[..n][i] == rrs[i];
      if IsAddress(rrs[n], name, qtype, want) && rrs[n].ttl < LeastTtl(rrs[..n], name, qtype, want) {
        k := n;
      } else if j < n {
        k := j;
      }
    }
  }

  /** LeastTtl is the least TTL of the address records, when there are any (a TTL has 32 bits). */
  lemma {:induction false} LeastTtlIsLeast(rrs: seq<Rr>, name: Octets, qtype: nat, want: nat, k: nat)
    requires k < |rrs| && IsAddress(rrs[k], name, qtype, want) && rrs[k].ttl <= 0xFFFF_FFFF
    ensures LeastTtl(rrs, name, qtype, want) <= rrs[k].ttl
    ensures exists i :: 0 <= i < |rrs| && IsAddress(rrs[i], name, qtype, want) && rrs[i].ttl == LeastTtl(rrs, name, qtype, want)
  {
    var j := LeastTtlWitness(rrs, name, qtype, want);
    var i := if j < |rrs| then j else k;
    assert IsAddress(rrs[i], name, qtype, want) && rrs[i].ttl == LeastTtl(rrs, name, qtype, want);
  }

  function AnswerTtl(found: bool, least: nat): nat {
    if !found then NEG_TTL else if least > MAX_TTL then MAX_TTL else least
  }

  // ---- the loops ----

  /** One search for the next hop: the records are read from the start, up to the first CNAME of the name. */
  method FindHop(pkt: Octets, start: nat, an: nat, name: Octets) returns (h: Hop)
    ensures Rrs(pkt, start, an).Some? ==> h == HopFrom(pkt, Rrs(pkt, start, an).value, name)
    ensures h == End ==> Rrs(pkt, start, an).Some?
  {
    var off := start;
    ghost var whole, left := Rrs(pkt, start, an), an;
    ghost var done: seq<Rr> := [];
    SplitStart(whole);
    var i := 0;
    while i < an
      invariant 0 <= i <= an && left == an - i
      invariant Split(whole, done, Rrs(pkt, off, left))
      invariant forall j :: 0 <= j < |done| ==> !IsCname(done[j], name)
    {
      var r := NextRr(pkt, off);
      if r.NoRr? {
        Unreadable(pkt, whole, done, off, left);
        return Broken;
      }
      if IsCname(r.rr, name) {
        var d := PktName(pkt, r.rr.rdata);
        CnameFound(pkt, start, off, an, i, done, name);
        if d.Bad? || d.next != r.rr.rdata + r.rr.rdlen { return Broken; }
        return To(d.name);
      }
      SplitStep(pkt, whole, done, off, left);
      done, left := done + [r.rr], left - 1;
      off := r.next;
      i := i + 1;
    }
    NoneFound(pkt, whole, done, off, name);
    return End;
  }

  lemma {:induction false} Unreadable(pkt: Octets, whole: Option<seq<Rr>>, done: seq<Rr>, off: nat, n: nat)
    requires n > 0 && Split(whole, done, Rrs(pkt, off, n)) && RrAt(pkt, off).NoRr?
    ensures whole.None?
  {
  }

  lemma {:induction false} NoneFound(pkt: Octets, whole: Option<seq<Rr>>, done: seq<Rr>, off: nat, name: Octets)
    requires Split(whole, done, Rrs(pkt, off, 0)) && forall j :: 0 <= j < |done| ==> !IsCname(done[j], name)
    ensures whole.Some? && HopFrom(pkt, whole.value, name) == End
  {
    assert done + [] == done;
  }

  /** The whole list is what was read and what is left to read. */
  ghost predicate Split(whole: Option<seq<Rr>>, done: seq<Rr>, rest: Option<seq<Rr>>) {
    if rest.None? then whole.None? else whole == Some(done + rest.value)
  }

  lemma SplitStart(whole: Option<seq<Rr>>)
    ensures Split(whole, [], whole)
  {
    if whole.Some? { assert [] + whole.value == whole.value; }
  }

  lemma SplitStep(pkt: Octets, whole: Option<seq<Rr>>, done: seq<Rr>, off: nat, n: nat)
    requires n > 0 && Split(whole, done, Rrs(pkt, off, n)) && RrAt(pkt, off).GotRr?
    ensures Split(whole, done + [RrAt(pkt, off).rr], Rrs(pkt, RrAt(pkt, off).next, n - 1))
  {
    var r := RrAt(pkt, off);
    var rest := Rrs(pkt, r.next, n - 1);
    if rest.Some? { assert done + ([r.rr] + rest.value) == (done + [r.rr]) + rest.value; }
  }

  lemma CnameFound(pkt: Octets, start: nat, off: nat, an: nat, i: nat, done: seq<Rr>, name: Octets)
    requires i < an && Split(Rrs(pkt, start, an), done, Rrs(pkt, off, an - i))
    requires forall j :: 0 <= j < |done| ==> !IsCname(done[j], name)
    requires RrAt(pkt, off).GotRr? && IsCname(RrAt(pkt, off).rr, name)
    ensures Rrs(pkt, start, an).Some? ==>
      var t := Target(pkt, RrAt(pkt, off).rr);
      HopFrom(pkt, Rrs(pkt, start, an).value, name) == if t.None? then Broken else To(t.value)
  {
    if Rrs(pkt, start, an).Some? {
      var rrs := Rrs(pkt, start, an).value;
      assert rrs[|done|] == RrAt(pkt, off).rr;
      forall j | 0 <= j < |done| ensures !IsCname(rrs[j], name) { assert rrs[j] == done[j]; }
    }
  }

  /** Where the chain from a name ends, in the records of the answer; nowhere when they cannot all be read. */
  ghost function ChaseIn(pkt: Octets, start: nat, an: nat, name: Octets, left: nat): Option<Octets> {
    var rrs := Rrs(pkt, start, an);
    if rrs.None? then None else Chase(pkt, rrs.value, name, left)
  }

  lemma {:induction false} ChaseOn(pkt: Octets, start: nat, an: nat, name: Octets, left: nat, h: Hop)
    requires Rrs(pkt, start, an).Some? ==> h == HopFrom(pkt, Rrs(pkt, start, an).value, name)
    requires h == End ==> Rrs(pkt, start, an).Some?
    ensures h == End ==> ChaseIn(pkt, start, an, name, left) == Some(name)
    ensures h == Broken || (h.To? && left == 0) ==> ChaseIn(pkt, start, an, name, left) == None
    ensures h.To? && left > 0 ==> ChaseIn(pkt, start, an, name, left) == ChaseIn(pkt, start, an, h.name, left - 1)
  {
  }

  /** One turn of the outer loop. */
  method NextHop(pkt: Octets, start: nat, an: nat, name: Octets, ghost left: nat) returns (h: Hop)
    ensures h == End ==> ChaseIn(pkt, start, an, name, left) == Some(name)
    ensures h == Broken || (h.To? && left == 0) ==> ChaseIn(pkt, start, an, name, left) == None
    ensures h.To? && left > 0 ==> ChaseIn(pkt, start, an, name, left) == ChaseIn(pkt, start, an, h.name, left - 1)
  {
    h := FindHop(pkt, start, an, name);
    ChaseOn(pkt, start, an, name, left, h);
  }

  /** The chain from the target, at most MAX_CNAME hops. */
  method FollowChain(pkt: Octets, start: nat, an: nat, target: Octets) returns (final: Option<Octets>)
    ensures final == ChaseIn(pkt, start, an, target, MAX_CNAME)
  {
    var cur := target;
    var hop := 0;
    while true
      invariant 0 <= hop <= MAX_CNAME
      invariant ChaseIn(pkt, start, an, target, MAX_CNAME) == ChaseIn(pkt, start, an, cur, MAX_CNAME - hop)
      decreases MAX_CNAME - hop
    {
      var h := NextHop(pkt, start, an, cur, MAX_CNAME - hop);
      if h == End { return Some(cur); }
      if h == Broken || hop >= MAX_CNAME { return None; }
      cur := h.name;
      hop := hop + 1;
    }
  }

  /** The addresses kept so far, and the least TTL so far. */
  datatype Found = Found(addrs: seq<Octets>, ttl: nat)

  /** What one record adds. */
  function Keep(pkt: Octets, f: Found, r: Rr, name: Octets, qtype: nat, want: nat): Found
    requires r.rdata + r.rdlen <= |pkt|
  {
    if !IsAddress(r, name, qtype, want) then f
    else
      var rd := Rdata(pkt, r);
      Found(if rd !in f.addrs && |f.addrs| < MAX_RR then f.addrs + [rd] else f.addrs, if r.ttl < f.ttl then r.ttl else f.ttl)
  }

  ghost function KeepAll(pkt: Octets, f: Found, rrs: seq<Rr>, name: Octets, qtype: nat, want: nat): Found
    requires InPacket(pkt, rrs)
    decreases |rrs|
  {
    if rrs == [] then f else KeepAll(pkt, Keep(pkt, f, rrs[0], name, qtype, want), rrs[1..], name, qtype, want)
  }

  const NOTHING := Found([], 0xFFFF_FFFF)

  lemma {:induction false} RrsInPacket(pkt: Octets, off: nat, n: nat)
    requires Rrs(pkt, off, n).Some?
    ensures InPacket(pkt, Rrs(pkt, off, n).value)
    decreases n
  {
    if n > 0 { RrsInPacket(pkt, RrAt(pkt, off).next, n - 1); }
  }

  /** Reading one more record: the rest is read into what is kept then. */
  lemma {:induction false} KeepOne(pkt: Octets, off: nat, n: nat, f: Found, name: Octets, qtype: nat, want: nat)
    requires n > 0 && Rrs(pkt, off, n).Some?
    ensures var r := RrAt(pkt, off); r.GotRr? && Rrs(pkt, r.next, n - 1).Some?
    ensures InPacket(pkt, Rrs(pkt, off, n).value) && InPacket(pkt, Rrs(pkt, RrAt(pkt, off).next, n - 1).value)
    ensures KeepAll(pkt, f, Rrs(pkt, off, n).value, name, qtype, want) ==
            KeepAll(pkt, Keep(pkt, f, RrAt(pkt, off).rr, name, qtype, want), Rrs(pkt, RrAt(pkt, off).next, n - 1).value, name, qtype, want)
  {
    RrsInPacket(pkt, off, n);
    RrsInPacket(pkt, RrAt(pkt, off).next, n - 1);
    assert Rrs(pkt, off, n).value[1..] == Rrs(pkt, RrAt(pkt, off).next, n - 1).value;
  }

  /** What the records from off on add to f. */
  ghost function KeptFrom(pkt: Octets, f: Found, off: nat, n: nat, name: Octets, qtype: nat, want: nat): Option<Found> {
    if Rrs(pkt, off, n).None? then None
    else
      RrsInPacket(pkt, off, n);
      Some(KeepAll(pkt, f, Rrs(pkt, off, n).value, name, qtype, want))
  }

  /** The last pass over the answer. */
  method CollectAddresses(pkt: Octets, start: nat, an: nat, name: Octets, qtype: nat, want: nat) returns (r: Option<Found>)
    ensures r == KeptFrom(pkt, NOTHING, start, an, name, qtype, want)
  {
    var f := NOTHING;
    var off := start;
    var left := an;
    while left > 0
      invariant KeptFrom(pkt, f, off, left, name, qtype, want) == KeptFrom(pkt, NOTHING, start, an, name, qtype, want)
    {
      var r := NextRr(pkt, off);
      if r.NoRr? { return None; }
      KeptStep(pkt, f, off, left, name, qtype, want);
      f := Keep(pkt, f, r.rr, name, qtype, want);
      off := r.next;
      left := left - 1;
    }
    return Some(f);
  }

  lemma {:induction false} KeptStep(pkt: Octets, f: Found, off: nat, n: nat, name: Octets, qtype: nat, want: nat)
    requires n > 0 && RrAt(pkt, off).GotRr?
    ensures KeptFrom(pkt, f, off, n, name, qtype, want) ==
            KeptFrom(pkt, Keep(pkt, f, RrAt(pkt, off).rr, name, qtype, want), RrAt(pkt, off).next, n - 1, name, qtype, want)
  {
    if Rrs(pkt, off, n).Some? { KeepOne(pkt, off, n, f, name, qtype, want); }
  }

  /** Searching only the kept addresses for a repetition is enough: a full table takes no more either way. */
  lemma {:induction false} DifferentStep(xs: seq<Octets>, x: Octets, n: nat)
    ensures Take(Different(xs + [x]), n) ==
            var ys := Take(Different(xs), n); if x !in ys && |ys| < n then ys + [x] else ys
  {
    assert (xs + [x])[..|xs|] == xs;
  }

  /** The first 32 different addresses of the name, and the least TTL of all its address records. */
  ghost function FirstDifferent(pkt: Octets, rrs: seq<Rr>, name: Octets, qtype: nat, want: nat): Found
    requires InPacket(pkt, rrs)
  {
    Found(Take(Different(Addresses(pkt, rrs, name, qtype, want)), MAX_RR), LeastTtl(rrs, name, qtype, want))
  }

  lemma {:induction false} KeepIsNext(pkt: Octets, done: seq<Rr>, r: Rr, name: Octets, qtype: nat, want: nat)
    requires InPacket(pkt, done) && r.rdata + r.rdlen <= |pkt|
    ensures InPacket(pkt, done + [r])
    ensures Keep(pkt, FirstDifferent(pkt, done, name, qtype, want), r, name, qtype, want) ==
            FirstDifferent(pkt, done + [r], name, qtype, want)
  {
    AddressesMore(pkt, done, r, name, qtype, want);
    LeastTtlMore(done, r, name, qtype, want);
    if IsAddress(r, name, qtype, want) { DifferentStep(Addresses(pkt, done, name, qtype, want), Rdata(pkt, r), MAX_RR); }
  }

  lemma {:induction false} AddressesMore(pkt: Octets, done: seq<Rr>, r: Rr, name: Octets, qtype: nat, want: nat)
    requires InPacket(pkt, done) && r.rdata + r.rdlen <= |pkt|
    ensures InPacket(pkt, done + [r])
    ensures var xs := Addresses(pkt, done, name, qtype, want);
      Addresses(pkt, done + [r], name, qtype, want) == if IsAddress(r, name, qtype, want) then xs + [Rdata(pkt, r)] else xs
  {
    assert (done + [r])[..|done|] == done;
  }

  lemma {:induction false} LeastTtlMore(done: seq<Rr>, r: Rr, name: Octets, qtype: nat, want: nat)
    ensures var t := LeastTtl(done, name, qtype, want);
      LeastTtl(done + [r], name, qtype, want) == if IsAddress(r, name, qtype, want) && r.ttl < t then r.ttl else t
  {
    assert (done + [r])[..|done|] == done;
  }

  lemma {:induction false} KeepsFirstDifferent(pkt: Octets, done: seq<Rr>, rrs: seq<Rr>, name: Octets, qtype: nat, want: nat)
    requires InPacket(pkt, done) && InPacket(pkt, rrs)
    ensures InPacket(pkt, done + rrs)
    ensures KeepAll(pkt, FirstDifferent(pkt, done, name, qtype, want), rrs, name, qtype, want) ==
            FirstDifferent(pkt, done + rrs, name, qtype, want)
    decreases |rrs|
  {
    if rrs == [] {
      assert done + rrs == done;
    } else {
      KeepIsNext(pkt, done, rrs[0], name, qtype, want);
      KeepsFirstDifferent(pkt, done + [rrs[0]], rrs[1..], name, qtype, want);
      assert (done + [rrs[0]]) + rrs[1..] == done + rrs;
    }
  }

  /** The last pass finds the first 32 different addresses of the name, and the least TTL of all its address records. */
  lemma {:induction false} KeptAreFirstDifferent(pkt: Octets, start: nat, an: nat, name: Octets, qtype: nat, want: nat)
    requires Rrs(pkt, start, an).Some?
    ensures InPacket(pkt, Rrs(pkt, start, an).value)
    ensures KeptFrom(pkt, NOTHING, start, an, name, qtype, want) ==
            Some(FirstDifferent(pkt, Rrs(pkt, start, an).value, name, qtype, want))
  {
    var rrs := Rrs(pkt, start, an).value;
    RrsInPacket(pkt, start, an);
    KeepsFirstDifferent(pkt, [], rrs, name, qtype, want);
    assert [] + rrs == rrs;
  }

  // ---- the whole response ----

  datatype Parsed = NotOurs | Malformed | Truncated | ErrorCode | Usable(addrs: seq<Octets>, ttl: nat)

  /** The header says: an answer to query id, with one question. */
  predicate HeaderMatches(pkt: Octets, id: nat)
    requires |pkt| >= 12
  {
    Word(pkt, 0) == id && pkt[2] >= 128 && (pkt[2] / 8) % 16 == 0 && Word(pkt, 4) == 1
  }

  /** The question is ours (section 9.1 of RFC 5452). */
  ghost predicate QuestionMatches(pkt: Octets, name: Octets, qtype: nat)
    requires |pkt| >= 12
  {
    var d := Result(pkt, 12);
    d.Name? && d.next + 4 <= |pkt| && d.name == name && Word(pkt, d.next) == qtype && Word(pkt, d.next + 2) == CLASS_IN
  }

  function Want(qtype: nat): nat {
    if qtype == 1 then 4 else 16
  }

  /**
   * What makes an answer usable, and what it then says: all its records can be read, the chain from the target ends
   * within 8 hops, and the result is the addresses of the name it ends at.
   */
  ghost predicate UsableAnswer(pkt: Octets, start: nat, an: nat, target: Octets, qtype: nat, addrs: seq<Octets>, ttl: nat) {
    var rrs := Rrs(pkt, start, an);
    && rrs.Some? && InPacket(pkt, rrs.value)
    && var final := Chase(pkt, rrs.value, target, MAX_CNAME);
    && final.Some?
    && var found := FirstDifferent(pkt, rrs.value, final.value, qtype, Want(qtype));
    && addrs == found.addrs
    && ttl == AnswerTtl(addrs != [], found.ttl)
  }

  ghost predicate Ours(pkt: Octets, id: nat, target: Octets, qtype: nat) {
    |pkt| >= 12 && HeaderMatches(pkt, id) && QuestionMatches(pkt, target, qtype)
  }

  /** The answer section can be read and the chain from the target ends in it. */
  ghost predicate Answers(pkt: Octets, target: Octets)
    requires |pkt| >= 12 && Result(pkt, 12).Name?
  {
    && Word(pkt, 6) <= MAX_ANSWERS
    && var rrs := Rrs(pkt, Result(pkt, 12).next + 4, Word(pkt, 6));
    rrs.Some? && Chase(pkt, rrs.value, target, MAX_CNAME).Some?
  }

  /** alias_parse_response() */
  method ParseResponse(pkt: Octets, id: nat, target: Octets, qtype: nat) returns (p: Parsed)
    ensures p == NotOurs <==> |pkt| >= 12 && !Ours(pkt, id, target, qtype)
    ensures p == Truncated <==> Ours(pkt, id, target, qtype) && pkt[2] % 4 >= 2
    ensures p == ErrorCode <==> Ours(pkt, id, target, qtype) && pkt[2] % 4 < 2 && pkt[3] % 16 != 0
    ensures p.Usable? <==> Ours(pkt, id, target, qtype) && pkt[2] % 4 < 2 && pkt[3] % 16 == 0 && Answers(pkt, target)
    ensures p.Usable? ==> UsableAnswer(pkt, Result(pkt, 12).next + 4, Word(pkt, 6), target, qtype, p.addrs, p.ttl)
  {
    if |pkt| < 12 { return Malformed; }
    if !HeaderMatches(pkt, id) { return NotOurs; }
    var q := PktName(pkt, 12);
    if q.Bad? || q.next + 4 > |pkt| || q.name != target { return NotOurs; }
    if Word(pkt, q.next) != qtype || Word(pkt, q.next + 2) != CLASS_IN { return NotOurs; }
    if pkt[2] % 4 >= 2 { return Truncated; }
    if pkt[3] % 16 != 0 { return ErrorCode; }
    var an := Word(pkt, 6);
    if an > MAX_ANSWERS { return Malformed; }
    var final := FollowChain(pkt, q.next + 4, an, target);
    if final.None? { return Malformed; }
    var r := CollectAddresses(pkt, q.next + 4, an, final.value, qtype, Want(qtype));
    var f := r.value;
    KeptAreFirstDifferent(pkt, q.next + 4, an, final.value, qtype, Want(qtype));
    return Usable(f.addrs, AnswerTtl(f.addrs != [], f.ttl));
  }

  lemma {:induction false} AddressSize(pkt: Octets, rrs: seq<Rr>, name: Octets, qtype: nat, want: nat, a: Octets)
    requires InPacket(pkt, rrs) && a in Addresses(pkt, rrs, name, qtype, want)
    ensures |a| == want
    decreases |rrs|
  {
    var n := |rrs| - 1;
    if a in Addresses(pkt, rrs[..n], name, qtype, want) { AddressSize(pkt, rrs[..n], name, qtype, want, a); }
  }

  /** A chain of at most 8 hops from the target is followed to its end. */
  lemma {:induction false} EightHopsAreFollowed(pkt: Octets, rrs: seq<Rr>, names: seq<Octets>)
    requires ChainTo(pkt, rrs, names) && |names| <= 9
    ensures Chase(pkt, rrs, names[0], MAX_CNAME) == Some(names[|names| - 1])
  {
    ChainIsChased(pkt, rrs, names, MAX_CNAME);
  }

  /** A usable answer comes with its CNAME chain: at most 8 hops, from the target to a name that has no CNAME. */
  lemma {:induction false} UsableHasChain(pkt: Octets, start: nat, an: nat, target: Octets, qtype: nat, addrs: seq<Octets>, ttl: nat)
    returns (names: seq<Octets>)
    requires UsableAnswer(pkt, start, an, target, qtype, addrs, ttl)
    ensures ChainTo(pkt, Rrs(pkt, start, an).value, names) && names[0] == target && |names| <= 9
    ensures |addrs| <= 32 && ttl <= 86400
    ensures InPacket(pkt, Rrs(pkt, start, an).value)
    ensures forall a :: a in addrs ==> a in Addresses(pkt, Rrs(pkt, start, an).value, names[|names| - 1], qtype, Want(qtype))
    ensures addrs == [] ==> ttl == 30
    ensures forall a :: a in addrs ==> |a| == if qtype == 1 then 4 else 16
  {
    var rrs := Rrs(pkt, start, an).value;
    names := ChaseIsChain(pkt, rrs, target, MAX_CNAME);
    forall a | a in addrs ensures |a| == Want(qtype) {
      AddressSize(pkt, rrs, names[|names| - 1], qtype, Want(qtype), a);
    }
  }

  /** An answer in which the target's CNAMEs run in a loop is never usable. */
  lemma {:induction false} LoopIsNotUsable(pkt: Octets, start: nat, an: nat, target: Octets, qtype: nat, loop: set<Octets>)
    requires Rrs(pkt, start, an).Some? && Loop(pkt, Rrs(pkt, start, an).value, loop) && target in loop
    ensures forall addrs, ttl :: !UsableAnswer(pkt, start, an, target, qtype, addrs, ttl)
  {
    LoopNeverEnds(pkt, Rrs(pkt, start, an).value, target, loop, MAX_CNAME);
  }
}
