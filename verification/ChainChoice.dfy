/**
 * When a primary answers an IXFR request with differences: exactly when its history leads from the client's serial to
 * the current one.  After any run, a client that is no more than the configured depth behind gets the differences it
 * missed.
 */
module ChainChoice {
  import opened Serials
  import opened Records
  import opened IxfrDiff
  import opened IxfrPool
  import opened IxfrAnswer

  // ---- one request ----

  /** No two of the records are SOAs. */
  ghost predicate AtMostOneSoa(z: Zone) {
    forall i, j :: 0 <= i < j < |z| ==> !(z[i].IsSoa() && z[j].IsSoa())
  }

  /** Every difference from the i-th on starts where the one before it ended. */
  ghost predicate Linked(ring: seq<Txn>, i: nat) {
    forall j, k :: i <= j < k < |ring| && k == j + 1 ==> ring[k].oldSerial == ring[j].newSerial
  }

  /** A difference with several SOAs in a half cannot be sent. */
  ghost predicate CanBeSent(ring: seq<Txn>, i: nat) {
    forall j :: i <= j < |ring| ==> AtMostOneSoa(ring[j].deleted) && AtMostOneSoa(ring[j].added)
  }

  /**
   * The i-th difference is the first that starts at the client's serial, and from there the history leads to the end.
   */
  ghost predicate LeadsFrom(ring: seq<Txn>, client: Serial, serial: Serial, i: nat) {
    && i < |ring| && ring[i].oldSerial == client && (forall j :: 0 <= j < i ==> ring[j].oldSerial != client)
    && Linked(ring, i) && ring[|ring| - 1].newSerial == serial && CanBeSent(ring, i)
  }

  lemma {:induction false} NoSoa(z: Zone)
    ensures SoaCount(z) == 0 <==> forall i :: 0 <= i < |z| ==> !z[i].IsSoa()
  {
    if z != [] {
      NoSoa(z[1..]);
      assert forall i :: 0 < i < |z| ==> z[i] == z[1..][i - 1];
      if SoaCount(z) == 0 { assert forall i :: 0 <= i < |z| ==> i == 0 || z[i] == z[1..][i - 1]; }
    }
  }

  lemma {:induction false} SoaCountMeaning(z: Zone)
    ensures SoaCount(z) <= 1 <==> AtMostOneSoa(z)
  {
    if z != [] {
      var rest := z[1..];
      SoaCountMeaning(rest);
      NoSoa(rest);
      assert forall i :: 0 < i < |z| ==> z[i] == rest[i - 1];
      assert forall i :: 0 <= i < |rest| ==> rest[i] == z[i + 1];
    }
  }

  lemma {:induction false} ContinuousMeaning(chain: seq<Txn>, from: Serial)
    ensures Continuous(chain, from) <==> (chain != [] ==> chain[0].oldSerial == from) && Linked(chain, 0)
  {
    if |chain| > 1 {
      var rest := chain[1..];
      ContinuousMeaning(rest, chain[0].newSerial);
      assert forall j :: 0 < j < |chain| ==> chain[j] == rest[j - 1];
      assert forall j :: 0 <= j < |rest| ==> rest[j] == chain[j + 1];
    }
  }

  lemma {:induction false} OneSoaEachMeaning(chain: seq<Txn>)
    ensures OneSoaEach(chain) <==> CanBeSent(chain, 0)
  {
    forall j | 0 <= j < |chain|
      ensures OneSoaInBoth(chain[j]) <==> AtMostOneSoa(chain[j].deleted) && AtMostOneSoa(chain[j].added)
    {
      SoaCountMeaning(chain[j].deleted);
      SoaCountMeaning(chain[j].added);
    }
  }

  lemma {:induction false} FromThere(ring: seq<Txn>, i: nat)
    requires i <= |ring|
    ensures Linked(ring, i) <==> Linked(ring[i..], 0)
    ensures CanBeSent(ring, i) <==> CanBeSent(ring[i..], 0)
  {
    var chain := ring[i..];
    assert forall j :: 0 <= j < |chain| ==> chain[j] == ring[i + j];
    assert forall j :: i <= j < |ring| ==> ring[j] == chain[j - i];
  }

  lemma {:induction false} LeadsFromStart(ring: seq<Txn>, client: Serial, serial: Serial)
    requires FindStart(ring, client) < |ring|
    ensures LeadsFrom(ring, client, serial, FindStart(ring, client)) <==> Chain(ring, client, serial).Some?
  {
    var f := FindStart(ring, client);
    var chain := ring[f..];
    ContinuousMeaning(chain, client);
    OneSoaEachMeaning(chain);
    FromThere(ring, f);
    assert chain[|chain| - 1] == ring[|ring| - 1] && chain[0] == ring[f];
  }

  lemma {:induction false} StartIsFirst(ring: seq<Txn>, client: Serial, serial: Serial, i: nat)
    requires LeadsFrom(ring, client, serial, i)
    ensures i == FindStart(ring, client)
  {
  }

  /** Taking the client's serial for a version that is not older than ours. */
  predicate NothingNewFor(client: Serial, current: Zone) {
    client == SerialOrZero(current) || Newer(client, SerialOrZero(current))
  }

  /**
   * Which of the three answers a request gets: the SOA alone exactly for an IXFR whose client is not behind, the
   * differences exactly when the history leads from its serial to ours and each can be sent, the whole zone otherwise.
   */
  lemma {:induction false} AnswerExactly(ring: seq<Txn>, current: Zone, ixfr: bool, client: Serial, provideIxfr: bool)
    ensures var a, serial := Respond(ring, current, ixfr, client, provideIxfr), SerialOrZero(current);
      && (a.UpToDate? <==> ixfr && NothingNewFor(client, current))
      && (a.Differences? <==>
            ixfr && !NothingNewFor(client, current) && provideIxfr && exists i: nat :: LeadsFrom(ring, client, serial, i))
      && forall i: nat :: a.Differences? && LeadsFrom(ring, client, serial, i) ==> a.chain == ring[i..]
  {
    var serial, f := SerialOrZero(current), FindStart(ring, client);
    if f < |ring| { LeadsFromStart(ring, client, serial); }
    forall i: nat | LeadsFrom(ring, client, serial, i) ensures i == f { StartIsFirst(ring, client, serial, i); }
  }

  // ---- after a run ----

  /** One version after the other, each with its difference kept. */
  function Publishes(zs: seq<Zone>): seq<Act> {
    if zs == [] then [] else Publishes(zs[..|zs| - 1]) + [Prepare(zs[|zs| - 1], true), Publish]
  }

  /**
   * A difference between the two is recorded: both have a serial, the second is newer, and not too much has changed.
   */
  ghost predicate Recordable(a: Zone, b: Zone) {
    && WellFormed(b) && SerialOrZero(a) != 0 && SerialOrZero(b) != 0 && Newer(SerialOrZero(b), SerialOrZero(a))
    && |Missing(a, b)| + |Missing(b, a)| <= 10000
  }

  /** The version before the i-th of these. */
  function Before(a: Zone, zs: seq<Zone>, i: nat): Zone
    requires i <= |zs|
  {
    if i == 0 then a else zs[i - 1]
  }

  ghost predicate AllRecordable(a: Zone, zs: seq<Zone>) {
    forall i {:trigger Before(a, zs, i)} :: 0 <= i < |zs| ==> Recordable(Before(a, zs, i), zs[i])
  }

  /** The difference from each version to the next. */
  ghost predicate AreDiffs(ds: seq<Txn>, a: Zone, zs: seq<Zone>) {
    |ds| == |zs| && forall i {:trigger ds[i]} :: 0 <= i < |ds| ==> IsDiff(ds[i], Before(a, zs, i), zs[i])
  }

  lemma {:induction false} RingStaysOk(acts: seq<Act>)
    ensures RingOk(Live(acts).ring)
    decreases |acts|
  {
    if acts != [] { RingStaysOk(acts[..|acts| - 1]); }
  }

  /** What a version adds to the history, at any depth. */
  lemma {:induction false} PublishOne(p: Primary, z: Zone) returns (t: Txn)
    requires RingOk(p.ring) && p.pending.None? && p.versions != []
    requires var a := p.versions[|p.versions| - 1]; WellFormed(a) && Recordable(a, z)
    ensures IsDiff(t, p.versions[|p.versions| - 1], z)
    ensures var q := Do(Do(p, Prepare(z, true)), Publish);
      && q.versions == p.versions + [z] && q.pending.None? && q.ring.depth == p.ring.depth
      && q.ring.items == Newest(p.ring.items + [t], p.ring.depth)
  {
    var a := p.versions[|p.versions| - 1];
    t := Txn(SerialOrZero(a), SerialOrZero(z), Missing(a, z), Missing(z, a));
    if p.ring.depth > 0 {
      assert Pushed(p.ring, t).items == Newest(p.ring.items + [t], p.ring.depth);
    } else {
      assert p.ring.items == [] && Newest([t], 0) == [];
    }
  }

  /** A version that is not newer, or has changed too much, leaves the history as it is. */
  lemma {:induction false} NotRecorded(p: Primary, z: Zone)
    requires p.pending.None? && p.versions != []
    requires var a := p.versions[|p.versions| - 1];
      || SerialOrZero(a) == 0 || SerialOrZero(z) == 0 || !Newer(SerialOrZero(z), SerialOrZero(a))
      || |Missing(a, z)| + |Missing(z, a)| > 10000
    ensures var q := Do(Do(p, Prepare(z, true)), Publish); q.versions == p.versions + [z] && q.ring == p.ring
  {
  }

  /** After every run, another depth, from 0 to 32, keeps the newest differences up to it, and a reset none. */
  lemma {:induction false} DepthKeepsNewest(acts: seq<Act>, d: int)
    ensures var p, q := Live(acts), Do(Live(acts), ChangeDepth(d));
      && q.versions == p.versions && q.pending == p.pending
      && q.ring.depth == (if d < 0 then 0 else if d > 32 then 32 else d) && q.ring.items == Newest(p.ring.items, q.ring.depth)
    ensures Do(Live(acts), ResetHistory).ring.items == []
  {
    RingStaysOk(acts);
    var items := Live(acts).ring.items;
    assert Newest(items, 0) == [];
  }

  lemma {:induction false} NewestTwice(s: seq<Txn>, t: Txn, n: nat)
    ensures Newest(Newest(s, n) + [t], n) == Newest(s + [t], n)
  {
  }

  lemma {:induction false} LiveTwoMore(acts: seq<Act>, zs: seq<Zone>)
    requires zs != []
    ensures var n := |zs| - 1;
      Live(acts + Publishes(zs)) == Do(Do(Live(acts + Publishes(zs[..n])), Prepare(zs[n], true)), Publish)
  {
    var before, x := acts + Publishes(zs[..|zs| - 1]), Prepare(zs[|zs| - 1], true);
    assert acts + Publishes(zs) == before + [x] + [Publish];
    assert (before + [x] + [Publish])[..|before| + 1] == before + [x];
    assert (before + [x])[..|before|] == before;
  }

  /** From p to q these versions were published, and the history is the newest of what it held and their differences. */
  ghost predicate Grew(p: Primary, q: Primary, zs: seq<Zone>, ds: seq<Txn>) {
    && q.versions == p.versions + zs && q.pending.None? && q.ring.depth == p.ring.depth
    && q.ring.items == Newest(p.ring.items + ds, p.ring.depth)
  }

  lemma {:induction false} GrewOne(p: Primary, u: Primary, zs: seq<Zone>, ds: seq<Txn>, z: Zone) returns (t: Txn)
    requires Grew(p, u, zs, ds) && RingOk(u.ring) && u.versions != []
    requires var a := u.versions[|u.versions| - 1]; WellFormed(a) && Recordable(a, z)
    ensures IsDiff(t, u.versions[|u.versions| - 1], z)
    ensures Grew(p, Do(Do(u, Prepare(z, true)), Publish), zs + [z], ds + [t])
  {
    t := PublishOne(u, z);
    NewestTwice(p.ring.items + ds, t, p.ring.depth);
    assert p.ring.items + ds + [t] == p.ring.items + (ds + [t]);
    assert p.versions + zs + [z] == p.versions + (zs + [z]);
  }

  lemma {:induction false} OneDiffMore(ds: seq<Txn>, a: Zone, zs: seq<Zone>, t: Txn, z: Zone)
    requires AreDiffs(ds, a, zs) && IsDiff(t, Before(a, zs, |zs|), z)
    ensures AreDiffs(ds + [t], a, zs + [z])
  {
    forall i | 0 <= i < |ds| + 1 ensures IsDiff((ds + [t])[i], Before(a, zs + [z], i), (zs + [z])[i]) {
      if i < |ds| { assert Before(a, zs + [z], i) == Before(a, zs, i); }
    }
  }

  lemma {:induction false} RecordableAt(a: Zone, zs: seq<Zone>, i: nat)
    requires AllRecordable(a, zs) && i < |zs|
    ensures Recordable(Before(a, zs, i), zs[i]) && WellFormed(zs[i])
  {
    assert Recordable(Before(a, zs, i), zs[i]);
  }

  lemma {:induction false} FrontRecordable(a: Zone, zs: seq<Zone>, n: nat)
    requires AllRecordable(a, zs) && n <= |zs|
    ensures AllRecordable(a, zs[..n])
  {
    var front := zs[..n];
    forall i | 0 <= i < n ensures Recordable(Before(a, front, i), front[i]) {
      assert Before(a, front, i) == Before(a, zs, i) && front[i] == zs[i];
      RecordableAt(a, zs, i);
    }
  }

  /** The version that the next one follows is well formed, and the difference to it is recorded. */
  lemma {:induction false} LastRecordable(a: Zone, zs: seq<Zone>)
    requires AllRecordable(a, zs) && zs != [] && WellFormed(a)
    ensures var n := |zs| - 1; WellFormed(Before(a, zs[..n], n)) && Recordable(Before(a, zs[..n], n), zs[n])
  {
    var n := |zs| - 1;
    RecordableAt(a, zs, n);
    assert Before(a, zs[..n], n) == Before(a, zs, n);
    if n > 0 { RecordableAt(a, zs, n - 1); }
  }

  lemma {:induction false} NoneMore(acts: seq<Act>)
    requires Live(acts).pending.None?
    ensures Grew(Live(acts), Live(acts + Publishes([])), [], [])
  {
    var p := Live(acts);
    RingStaysOk(acts);
    assert acts + Publishes([]) == acts && p.versions + [] == p.versions && p.ring.items + [] == p.ring.items;
  }

  lemma {:induction false} LastOf(vs: seq<Zone>, a: Zone, zs: seq<Zone>)
    requires vs != [] && a == vs[|vs| - 1]
    ensures (vs + zs)[|vs + zs| - 1] == Before(a, zs, |zs|)
  {
  }

  lemma {:induction false} OneVersionMore(p: Primary, u: Primary, a: Zone, zs: seq<Zone>, before: seq<Txn>)
    returns (ds: seq<Txn>)
    requires zs != [] && p.versions != [] && a == p.versions[|p.versions| - 1] && RingOk(u.ring)
    requires WellFormed(a) && AllRecordable(a, zs)
    requires AreDiffs(before, a, zs[..|zs| - 1]) && Grew(p, u, zs[..|zs| - 1], before)
    ensures AreDiffs(ds, a, zs) && Grew(p, Do(Do(u, Prepare(zs[|zs| - 1], true)), Publish), zs, ds)
  {
    var front, z := zs[..|zs| - 1], zs[|zs| - 1];
    assert front + [z] == zs;
    LastOf(p.versions, a, front);
    LastRecordable(a, zs);
    var t := GrewOne(p, u, front, before, z);
    OneDiffMore(before, a, front, t, z);
    ds := before + [t];
  }

  lemma {:induction false} HistoryAfter(acts: seq<Act>, a: Zone, zs: seq<Zone>) returns (ds: seq<Txn>)
    requires Live(acts).pending.None? && Live(acts).versions != []
    requires a == Live(acts).versions[|Live(acts).versions| - 1] && WellFormed(a) && AllRecordable(a, zs)
    ensures AreDiffs(ds, a, zs) && Grew(Live(acts), Live(acts + Publishes(zs)), zs, ds)
    decreases |zs|
  {
    if zs == [] {
      NoneMore(acts);
      ds := [];
    } else {
      FrontRecordable(a, zs, |zs| - 1);
      var before := HistoryAfter(acts, a, zs[..|zs| - 1]);
      RingStaysOk(acts + Publishes(zs[..|zs| - 1]));
      LiveTwoMore(acts, zs);
      ds := OneVersionMore(Live(acts), Live(acts + Publishes(zs[..|zs| - 1])), a, zs, before);
    }
  }

  lemma {:induction false} OneSoaPerHalf(t: Txn, a: Zone, b: Zone)
    requires IsDiff(t, a, b)
    ensures AtMostOneSoa(t.deleted) && AtMostOneSoa(t.added)
  {
    HalfHasItsSoa(a, b);
    HalfHasItsSoa(b, a);
  }

  /** The serials of the differences follow those of the versions, and each difference can be sent. */
  ghost predicate Shaped(ds: seq<Txn>, from: Serial, zs: seq<Zone>) {
    |ds| == |zs| && forall i {:trigger ds[i]} :: 0 <= i < |ds| ==>
      && ds[i].oldSerial == (if i == 0 then from else SerialOrZero(zs[i - 1])) && ds[i].newSerial == SerialOrZero(zs[i])
      && AtMostOneSoa(ds[i].deleted) && AtMostOneSoa(ds[i].added)
  }

  lemma {:induction false} DiffsAreShaped(ds: seq<Txn>, a: Zone, zs: seq<Zone>)
    requires AreDiffs(ds, a, zs)
    ensures Shaped(ds, SerialOrZero(a), zs)
  {
    forall i | 0 <= i < |ds| ensures AtMostOneSoa(ds[i].deleted) && AtMostOneSoa(ds[i].added) {
      OneSoaPerHalf(ds[i], Before(a, zs, i), zs[i]);
    }
  }

  lemma {:induction false} ShapedAreLinked(older: seq<Txn>, ds: seq<Txn>, from: Serial, zs: seq<Zone>)
    requires Shaped(ds, from, zs)
    ensures Linked(older + ds, |older|) && CanBeSent(older + ds, |older|)
  {
    var ring, n := older + ds, |older|;
    forall j, k | n <= j < k < |ring| && k == j + 1 ensures ring[k].oldSerial == ring[j].newSerial {
      assert ring[j] == ds[j - n] && ring[k] == ds[k - n];
    }
    forall j | n <= j < |ring| ensures AtMostOneSoa(ring[j].deleted) && AtMostOneSoa(ring[j].added) {
      assert ring[j] == ds[j - n];
    }
  }

  lemma {:induction false} ShapedLead(older: seq<Txn>, ds: seq<Txn>, from: Serial, zs: seq<Zone>)
    requires Shaped(ds, from, zs) && zs != [] && forall j :: 0 <= j < |older| ==> older[j].oldSerial != from
    ensures LeadsFrom(older + ds, from, SerialOrZero(zs[|zs| - 1]), |older|)
  {
    var ring := older + ds;
    ShapedAreLinked(older, ds, from, zs);
    assert ring[|older|] == ds[0] && ring[|ring| - 1] == ds[|ds| - 1];
  }

  /** Of what the history held before, the part that n newer differences leave in it. */
  function Left(r: Ring<Txn>, n: nat): seq<Txn> {
    Newest(r.items, if n <= r.depth then r.depth - n else 0)
  }

  /** No difference that is left starts at this serial too, and none after the first when the first is not kept. */
  ghost predicate OnlyStart(r: Ring<Txn>, serial: Serial, zs: seq<Zone>) {
    && (forall j :: 0 <= j < |Left(r, |zs|)| ==> Left(r, |zs|)[j].oldSerial != serial)
    && (|zs| > r.depth ==> forall i :: 0 <= i < |zs| - 1 ==> SerialOrZero(zs[i]) != serial)
  }

  lemma {:induction false} NewestOfBoth(s: seq<Txn>, ds: seq<Txn>, n: nat)
    requires |ds| <= n
    ensures Newest(s + ds, n) == Newest(s, n - |ds|) + ds
  {
    if |s| > n - |ds| { assert (s + ds)[|s| + |ds| - n..] == s[|s| + |ds| - n..] + ds; }
  }

  lemma {:induction false} AllKept(r: Ring<Txn>, ds: seq<Txn>, from: Serial, zs: seq<Zone>)
    requires Shaped(ds, from, zs) && zs != [] && |zs| <= r.depth && OnlyStart(r, from, zs)
    ensures var ring := Newest(r.items + ds, r.depth);
      ring == Left(r, |zs|) + ds && LeadsFrom(ring, from, SerialOrZero(zs[|zs| - 1]), |Left(r, |zs|)|)
  {
    NewestOfBoth(r.items, ds, r.depth);
    ShapedLead(Left(r, |zs|), ds, from, zs);
  }

  lemma {:induction false} FirstGone(r: Ring<Txn>, ds: seq<Txn>, from: Serial, zs: seq<Zone>, i: nat)
    requires Shaped(ds, from, zs) && |zs| > r.depth && OnlyStart(r, from, zs)
    ensures !LeadsFrom(Newest(r.items + ds, r.depth), from, SerialOrZero(zs[|zs| - 1]), i)
  {
    var ring, k := Newest(r.items + ds, r.depth), |ds| - r.depth + i;
    if i < |ring| {
      assert ring[i] == ds[k];
      assert SerialOrZero(zs[k - 1]) != from;
    }
  }

  lemma {:induction false} AnswerAfter(r: Ring<Txn>, ds: seq<Txn>, from: Serial, zs: seq<Zone>)
    requires Shaped(ds, from, zs) && zs != [] && OnlyStart(r, from, zs)
    ensures var b := zs[|zs| - 1];
      Respond(Newest(r.items + ds, r.depth), b, true, from, true) ==
        if NothingNewFor(from, b) then UpToDate
        else if |zs| <= r.depth then Differences(ds) else Whole
  {
    var ring, b := Newest(r.items + ds, r.depth), zs[|zs| - 1];
    AnswerExactly(ring, b, true, from, true);
    if |zs| <= r.depth {
      AllKept(r, ds, from, zs);
      assert ring[|Left(r, |zs|)|..] == ds;
    } else {
      forall i: nat ensures !LeadsFrom(ring, from, SerialOrZero(b), i) { FirstGone(r, ds, from, zs, i); }
    }
  }

  /**
   * A client that holds the last version of any run, and asks after these versions were published: it gets the
   * differences between them, one for each and in order, exactly when they are not more than the depth, and the whole
   * zone otherwise.
   */
  lemma {:induction false} HistoryServes(acts: seq<Act>, zs: seq<Zone>) returns (ds: seq<Txn>)
    requires VersionsOk(acts) && Live(acts).pending.None? && Live(acts).versions != [] && zs != []
    requires var p := Live(acts); var a := p.versions[|p.versions| - 1];
      AllRecordable(a, zs) && OnlyStart(p.ring, SerialOrZero(a), zs)
    ensures var p, q := Live(acts), Live(acts + Publishes(zs));
      var a, b := p.versions[|p.versions| - 1], zs[|zs| - 1];
      && AreDiffs(ds, a, zs) && q.versions == p.versions + zs
      && Respond(q.ring.items, b, true, SerialOrZero(a), true) ==
         if NothingNewFor(SerialOrZero(a), b) then UpToDate
         else if |zs| <= p.ring.depth then Differences(ds) else Whole
  {
    var p := Live(acts);
    var a, b := p.versions[|p.versions| - 1], zs[|zs| - 1];
    assert WellFormed(a) by {
      HistoryIsTrue(acts);
      assert AllVersions(p)[|p.versions| - 1] == a;
    }
    ds := HistoryAfter(acts, a, zs);
    DiffsAreShaped(ds, a, zs);
    AnswerAfter(p.ring, ds, SerialOrZero(a), zs);
  }
}
