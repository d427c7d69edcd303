/**
 * The primary: what it publishes, which differences its history holds, and how it answers an IXFR request
 * (the selection in send_axfr_response()).
 */
module IxfrAnswer {
  import opened Serials
  import opened Records
  import opened IxfrDiff
  import opened IxfrPool
  import opened IxfrHistory

  // ---- the selection of a chain ----

  function FindStart(ring: seq<Txn>, client: Serial): (i: nat)
    ensures i <= |ring|
    ensures i < |ring| ==> ring[i].oldSerial == client
    ensures forall j :: 0 <= j < i ==> ring[j].oldSerial != client
  {
    if ring == [] || ring[0].oldSerial == client then 0 else 1 + FindStart(ring[1..], client)
  }

  /** Each difference starts at the serial the one before it ended at. */
  predicate Continuous(chain: seq<Txn>, from: Serial) {
    chain == [] || (chain[0].oldSerial == from && Continuous(chain[1..], chain[0].newSerial))
  }

  function EndSerial(chain: seq<Txn>, from: Serial): Serial {
    if chain == [] then from else chain[|chain| - 1].newSerial
  }

  function SoaCount(z: Zone): nat {
    if z == [] then 0 else (if z[0].IsSoa() then 1 else 0) + SoaCount(z[1..])
  }

  /** A difference of a version with several SOAs cannot be sent. */
  predicate OneSoaEach(chain: seq<Txn>) {
    forall i :: 0 <= i < |chain| ==> OneSoaInBoth(chain[i])
  }

  predicate OneSoaInBoth(t: Txn) {
    SoaCount(t.deleted) <= 1 && SoaCount(t.added) <= 1
  }

  /** The differences from the client's serial to the current one, when the history has them all. */
  function Chain(ring: seq<Txn>, client: Serial, current: Serial): Option<seq<Txn>> {
    var i := FindStart(ring, client);
    if i == |ring| then None
    else
      var chain := ring[i..];
      if Continuous(chain, client) && EndSerial(chain, client) == current && OneSoaEach(chain) then Some(chain) else None
  }

  /** The first loop over the ring: the difference that starts at the client's serial. */
  method FindFirst(ring: seq<Txn>, client: Serial) returns (found: nat)
    ensures found == FindStart(ring, client)
  {
    found := 0;
    while found < |ring| && ring[found].oldSerial != client
      invariant 0 <= found <= |ring|
      invariant forall j :: 0 <= j < found ==> ring[j].oldSerial != client
    {
      found := found + 1;
    }
  }

  /** The second loop: the serial the differences lead to, when they are continuous. */
  method FollowSerials(chain: seq<Txn>, client: Serial) returns (end: Option<Serial>)
    ensures end == if Continuous(chain, client) then Some(EndSerial(chain, client)) else None
  {
    var expected := client;
    var i := 0;
    assert chain[0..] == chain;
    while i < |chain|
      invariant 0 <= i <= |chain|
      invariant expected == EndSerial(chain[..i], client)
      invariant Continuous(chain, client) <==> Continuous(chain[i..], expected)
    {
      if chain[i].oldSerial != expected { return None; }
      assert chain[i..][1..] == chain[i + 1..];
      expected := chain[i].newSerial;
      i := i + 1;
    }
    assert chain[..i] == chain && chain[i..] == [];
    return Some(expected);
  }

  /** The look at the SOAs of the differences taken. */
  method CheckSoas(chain: seq<Txn>) returns (ok: bool)
    ensures ok == OneSoaEach(chain)
  {
    var t := 0;
    while t < |chain|
      invariant 0 <= t <= |chain|
      invariant forall j :: 0 <= j < t ==> OneSoaInBoth(chain[j])
    {
      if !OneSoaInBoth(chain[t]) { return false; }
      t := t + 1;
    }
    return true;
  }

  method SelectChain(ring: seq<Txn>, client: Serial, current: Serial) returns (chain: Option<seq<Txn>>)
    ensures chain == Chain(ring, client, current)
  {
    var found := FindFirst(ring, client);
    if found == |ring| { return None; }
    var taken := ring[found..];
    var end := FollowSerials(taken, client);
    if end != Some(current) { return None; }
    var ok := CheckSoas(taken);
    return if ok then Some(taken) else None;
  }

  // ---- the answer ----

  datatype Answer = UpToDate | Differences(chain: seq<Txn>) | Whole

  function Respond(ring: seq<Txn>, current: Zone, ixfr: bool, client: Serial, provideIxfr: bool): Answer {
    var serial := SerialOrZero(current);
    if ixfr && (client == serial || Newer(client, serial)) then UpToDate
    else if !ixfr || !provideIxfr then Whole
    else
      var c := Chain(ring, client, serial);
      if c.Some? then Differences(c.value) else Whole
  }

  /** The records of the answer, in the order they are sent. */
  function Emit(current: Zone, a: Answer): Zone {
    match a
    case UpToDate => [TheSoa(current)]
    case Differences(chain) => EmitChain(TheSoa(current), chain)
    case Whole => EmitFull(current)
  }

  // ---- what is published ----

  /**
   * The versions published so far, a version whose difference is already in the history but which is not published
   * yet (the code stores the difference first), and the history.
   */
  datatype Primary = Primary(versions: seq<Zone>, pending: Option<Zone>, ring: Ring<Txn>)

  datatype Act =
      /** stored is false when the difference is not kept: out of memory, or the depth was 0 when it was computed. */
    | Prepare(version: Zone, stored: bool)
    | Publish
    | ChangeDepth(depth: int)
    | ResetHistory

  function Do(p: Primary, a: Act): Primary {
    match a
    case Prepare(z, stored) =>
      if p.pending.Some? then p
      else
        var t := if p.versions == [] then None else Diff(p.ring.depth, Some(p.versions[|p.versions| - 1]), Some(z));
        p.(pending := Some(z), ring := if stored && t.Some? then Pushed(p.ring, t.value) else p.ring)
    case Publish =>
      if p.pending.None? then p else p.(versions := p.versions + [p.pending.value], pending := None)
    case ChangeDepth(d) => p.(ring := WithDepth(p.ring, d))
    case ResetHistory => p.(ring := Resized(p.ring, 0))
  }

  function Init(): Primary {
    Primary([], None, Ring([], 0, DEFAULT_DEPTH))
  }

  function Live(acts: seq<Act>): Primary {
    if acts == [] then Init() else Do(Live(acts[..|acts| - 1]), acts[|acts| - 1])
  }

  ghost function AllVersions(p: Primary): seq<Zone> {
    p.versions + if p.pending.Some? then [p.pending.value] else []
  }

  ghost predicate VersionsOk(acts: seq<Act>) {
    forall i :: 0 <= i < |acts| && acts[i].Prepare? ==> WellFormed(acts[i].version)
  }

  /** t is the difference between two versions of the zone, one published right after the other. */
  ghost predicate DiffOfVersions(t: Txn, vs: seq<Zone>) {
    exists i: nat :: DiffAt(t, vs, i)
  }

  ghost predicate DiffAt(t: Txn, vs: seq<Zone>, i: nat) {
    i < |vs| - 1 && IsDiff(t, vs[i], vs[i + 1])
  }

  ghost predicate Good(p: Primary) {
    && (forall i :: 0 <= i < |AllVersions(p)| ==> WellFormed(AllVersions(p)[i]))
    && (forall i :: 0 <= i < |p.ring.items| ==> DiffOfVersions(p.ring.items[i], AllVersions(p)))
  }

  lemma DiffOfMore(t: Txn, vs: seq<Zone>, z: Zone)
    requires DiffOfVersions(t, vs)
    ensures DiffOfVersions(t, vs + [z])
  {
    var i: nat :| DiffAt(t, vs, i);
    assert DiffAt(t, vs + [z], i);
  }

  lemma {:induction false} PrepareGood(p: Primary, z: Zone, stored: bool)
    requires Good(p) && p.pending.None? && WellFormed(z)
    ensures Good(Do(p, Prepare(z, stored)))
  {
    var q := Do(p, Prepare(z, stored));
    var n := |p.versions|;
    assert AllVersions(p) == p.versions && AllVersions(q) == p.versions + [z];
    forall i | 0 <= i < |q.ring.items| ensures DiffOfVersions(q.ring.items[i], AllVersions(q)) {
      var t := q.ring.items[i];
      if t in p.ring.items {
        DiffOfMore(t, p.versions, z);
      } else {
        assert n > 0 && Diff(p.ring.depth, Some(p.versions[n - 1]), Some(z)) == Some(t);
        assert DiffAt(t, AllVersions(q), n - 1);
      }
    }
  }

  lemma {:induction false} DoGood(p: Primary, a: Act)
    requires Good(p) && (a.Prepare? ==> WellFormed(a.version))
    ensures Good(Do(p, a))
  {
    match a
    case Prepare(z, stored) => if p.pending.None? { PrepareGood(p, z, stored); }
    case Publish => assert AllVersions(Do(p, a)) == AllVersions(p);
    case ChangeDepth(d) => assert AllVersions(Do(p, a)) == AllVersions(p);
    case ResetHistory => assert AllVersions(Do(p, a)) == AllVersions(p);
  }

  /** Every difference in the history is the difference of two consecutive versions, whatever happened before. */
  lemma {:induction false} HistoryIsTrue(acts: seq<Act>)
    requires VersionsOk(acts)
    ensures Good(Live(acts))
    decreases |acts|
  {
    if acts != [] {
      HistoryIsTrue(acts[..|acts| - 1]);
      DoGood(Live(acts[..|acts| - 1]), acts[|acts| - 1]);
    }
  }
}
