/**
 * Runs of a primary that show the two conditions of incremental transfer are needed: a zone that has nothing but its SOA
 * goes through a list of serials, and a secondary that serves the first of them asks for differences.
 */
module TransferExamples {
  import opened Serials
  import opened Records
  import opened TransferParser
  import opened MessageCuts
  import opened IxfrDiff
  import opened IxfrPool
  import opened IxfrHistory
  import opened IxfrApply
  import opened IxfrAnswer
  import opened EndToEnd
  import opened TransferTheorems

  function SoaRecord(s: Serial): RR {
    RR(Apex, 0, Soa(s, 0, 0, 0, 0))
  }

  function SoaZone(s: Serial): Zone {
    [SoaRecord(s)]
  }

  function SoaStep(a: Serial, b: Serial): Txn {
    Txn(a, b, [SoaRecord(a)], [SoaRecord(b)])
  }

  function Versions(ss: seq<Serial>): (zs: seq<Zone>)
    ensures |zs| == |ss| && forall i :: 0 <= i < |ss| ==> zs[i] == SoaZone(ss[i])
  {
    seq(|ss|, i requires 0 <= i < |ss| => SoaZone(ss[i]))
  }

  /** From each serial to the next one. */
  function Steps(ss: seq<Serial>): seq<Txn> {
    if |ss| < 2 then [] else Steps(ss[..|ss| - 1]) + [SoaStep(ss[|ss| - 2], ss[|ss| - 1])]
  }

  function Run(ss: seq<Serial>): seq<Act> {
    if ss == [] then [] else Run(ss[..|ss| - 1]) + [Prepare(SoaZone(ss[|ss| - 1]), true), Publish]
  }

  predicate Rising(ss: seq<Serial>) {
    && (forall i :: 0 <= i < |ss| ==> ss[i] != 0)
    && (|ss| >= 2 ==> Newer(ss[|ss| - 1], ss[|ss| - 2]) && Rising(ss[..|ss| - 1]))
  }

  lemma {:induction false} SoaZoneFacts(s: Serial)
    ensures WellFormed(SoaZone(s)) && SerialOrZero(SoaZone(s)) == s
  {
    assert OneSoa(SoaZone(s), 0);
  }

  lemma {:induction false} SoaDiff(a: Serial, b: Serial, depth: nat)
    requires a != 0 && b != 0 && Newer(b, a) && depth > 0
    ensures Diff(depth, Some(SoaZone(a)), Some(SoaZone(b))) == Some(SoaStep(a, b))
  {
    SoaZoneFacts(a);
    SoaZoneFacts(b);
    assert Missing(SoaZone(a), SoaZone(b)) == [SoaRecord(a)] + Missing([], SoaZone(b)) == [SoaRecord(a)];
    assert Missing(SoaZone(b), SoaZone(a)) == [SoaRecord(b)] + Missing([], SoaZone(a)) == [SoaRecord(b)];
  }

  lemma {:induction false} StepsCount(ss: seq<Serial>)
    requires ss != []
    ensures |Steps(ss)| == |ss| - 1
    decreases |ss|
  {
    if |ss| >= 2 { StepsCount(ss[..|ss| - 1]); }
  }

  lemma {:induction false} RunUnfolds(ss: seq<Serial>)
    requires ss != []
    ensures Live(Run(ss)) == Do(Do(Live(Run(ss[..|ss| - 1])), Prepare(SoaZone(ss[|ss| - 1]), true)), Publish)
  {
    var before := Run(ss[..|ss| - 1]);
    var mid := before + [Prepare(SoaZone(ss[|ss| - 1]), true)];
    assert Run(ss)[..|Run(ss)| - 1] == mid && mid[..|mid| - 1] == before;
  }

  /** One more version: it is published, and the step to it is in the history, as long as that has room. */
  lemma {:induction false} OneMore(p: Primary, a: Serial, b: Serial)
    requires p.versions != [] && p.versions[|p.versions| - 1] == SoaZone(a) && p.pending.None? && a != 0 && b != 0 && Newer(b, a)
    requires p.ring.depth == DEFAULT_DEPTH && p.ring.cap <= DEFAULT_DEPTH && |p.ring.items| < DEFAULT_DEPTH
    requires |p.ring.items| <= p.ring.cap
    ensures Do(Do(p, Prepare(SoaZone(b), true)), Publish)
            == Primary(p.versions + [SoaZone(b)], None, Ring(p.ring.items + [SoaStep(a, b)], DEFAULT_DEPTH, DEFAULT_DEPTH))
  {
    SoaDiff(a, b, DEFAULT_DEPTH);
  }

  lemma {:induction false} FirstVersion(s: Serial)
    ensures Do(Do(Init(), Prepare(SoaZone(s), true)), Publish) == Primary([SoaZone(s)], None, Ring([], 0, DEFAULT_DEPTH))
  {
  }

  /** What a run leaves: all versions published, and the steps in the history. */
  lemma {:induction false} RunState(ss: seq<Serial>)
    requires 1 <= |ss| <= 5 && Rising(ss)
    ensures Live(Run(ss)) == Primary(Versions(ss), None, Ring(Steps(ss), if |ss| == 1 then 0 else DEFAULT_DEPTH, DEFAULT_DEPTH))
    decreases |ss|
  {
    var n := |ss| - 1;
    if n == 0 {
      assert Live(Run(ss)) == Primary([SoaZone(ss[0])], None, Ring([], 0, DEFAULT_DEPTH)) by {
        RunUnfolds(ss);
        assert Run(ss[..n]) == [];
        FirstVersion(ss[0]);
      }
      assert Versions(ss) == [SoaZone(ss[0])];
    } else {
      RunState(ss[..n]);
      RunMore(ss, Live(Run(ss[..n])));
      assert Versions(ss) == Versions(ss[..n]) + [SoaZone(ss[n])];
    }
  }

  lemma {:induction false} RunMore(ss: seq<Serial>, p: Primary)
    requires 2 <= |ss| <= 5 && Rising(ss) && p == Live(Run(ss[..|ss| - 1]))
    requires p.versions == Versions(ss[..|ss| - 1]) && p.pending.None? && p.ring.items == Steps(ss[..|ss| - 1])
    requires p.ring.depth == DEFAULT_DEPTH && p.ring.cap == if |ss| == 2 then 0 else DEFAULT_DEPTH
    ensures Live(Run(ss)) == Primary(p.versions + [SoaZone(ss[|ss| - 1])], None, Ring(Steps(ss), DEFAULT_DEPTH, DEFAULT_DEPTH))
  {
    var n := |ss| - 1;
    RunUnfolds(ss);
    StepsCount(ss[..n]);
    assert p.versions[n - 1] == SoaZone(ss[n - 1]);
    OneMore(p, ss[n - 1], ss[n]);
  }

  lemma {:induction false} RunVersionsOk(ss: seq<Serial>)
    ensures VersionsOk(Run(ss))
    decreases |ss|
  {
    if ss != [] {
      RunVersionsOk(ss[..|ss| - 1]);
      SoaZoneFacts(ss[|ss| - 1]);
    }
  }

  lemma {:induction false} AppendContinuous(chain: seq<Txn>, from: Serial, t: Txn)
    requires Continuous(chain, from) && t.oldSerial == EndSerial(chain, from)
    ensures Continuous(chain + [t], from)
    decreases |chain|
  {
    if chain == [] {
      assert [t][1..] == [];
    } else {
      assert (chain + [t])[1..] == chain[1..] + [t];
      AppendContinuous(chain[1..], chain[0].newSerial, t);
    }
  }

  lemma {:induction false} OneSoaInStep(a: Serial, b: Serial)
    ensures OneSoaInBoth(SoaStep(a, b))
  {
    var t := SoaStep(a, b);
    assert t.deleted[1..] == [] && t.added[1..] == [];
    assert SoaCount(t.deleted[1..]) == 0 && SoaCount(t.added[1..]) == 0;
  }

  lemma {:induction false} StepsChain(ss: seq<Serial>)
    requires ss != []
    ensures Continuous(Steps(ss), ss[0]) && EndSerial(Steps(ss), ss[0]) == ss[|ss| - 1]
    ensures OneSoaEach(Steps(ss)) && (|ss| >= 2 ==> Steps(ss)[0].oldSerial == ss[0])
    decreases |ss|
  {
    if |ss| >= 2 {
      var t := SoaStep(ss[|ss| - 2], ss[|ss| - 1]);
      StepsChain(ss[..|ss| - 1]);
      StepsCount(ss[..|ss| - 1]);
      AppendContinuous(Steps(ss[..|ss| - 1]), ss[0], t);
      OneSoaInStep(ss[|ss| - 2], ss[|ss| - 1]);
    }
  }

  /** The secondary that serves the first version. */
  function Asks(s: Serial): Env {
    Env(s, Some(SoaZone(s)), false)
  }

  lemma {:induction false} RunAnswers(ss: seq<Serial>)
    requires 2 <= |ss| <= 5 && Rising(ss) && ss[0] != ss[|ss| - 1] && !Newer(ss[0], ss[|ss| - 1])
    ensures AnsweredWith(Live(Run(ss)), Asks(ss[0]), true, Steps(ss))
    ensures Live(Run(ss)).versions != [] && SerialOrZero(Current(Live(Run(ss)))) == ss[|ss| - 1]
  {
    RunState(ss);
    StepsChain(ss);
    StepsCount(ss);
    var p := Live(Run(ss));
    forall i | 0 <= i < |ss| ensures SerialOrZero(Versions(ss)[i]) == ss[i] { SoaZoneFacts(ss[i]); }
    assert AllVersions(p) == Versions(ss);
    assert Current(p) == Versions(ss)[|ss| - 1];
    assert Chain(Steps(ss), ss[0], ss[|ss| - 1]) == Some(Steps(ss)) by { assert Steps(ss)[0..] == Steps(ss); }
    assert Serving(p, Asks(ss[0])) by { assert Versions(ss)[0] in AllVersions(p); }
    VersionsAgree(ss);
  }

  lemma {:induction false} VersionsAgree(ss: seq<Serial>)
    ensures SerialsDetermine(Versions(ss))
  {
    forall a, b | a in Versions(ss) && b in Versions(ss) ensures Agree(a, b) {
      var i :| 0 <= i < |ss| && Versions(ss)[i] == a;
      var j :| 0 <= j < |ss| && Versions(ss)[j] == b;
      SoaZoneFacts(ss[i]);
      SoaZoneFacts(ss[j]);
    }
  }

  /** Whether the secondary takes the answer of such a run. */
  ghost predicate Taken(ss: seq<Serial>)
    requires 2 <= |ss| <= 5 && Rising(ss) && ss[0] != ss[|ss| - 1] && !Newer(ss[0], ss[|ss| - 1])
  {
    RunState(ss);
    Flat(Asks(ss[0]), Start(true), Wire(Emit(Current(Live(Run(ss))), Differences(Steps(ss))))).1
  }

  /** Steps of a quarter of the serial space: the second one ends half the space away, and the answer is refused. */
  lemma {:induction false} HalfTheSpaceRefused()
    ensures var ss := [1, 0x4000_0001, 0x8000_0001]; Rising(ss) && !Taken(ss)
  {
    var ss: seq<Serial> := [1, 0x4000_0001, 0x8000_0001];
    assert ss[..2] == [1, 0x4000_0001] && ss[..2][..1] == [1];
    RunAnswers(ss);
    RunVersionsOk(ss);
    IncrementalTransferAccepted(Run(ss), Asks(1), true, Steps(ss), Options(None, false));
  }

  /** Once round the serial space, within the depth of the history: the answer passes through its last serial, and is refused. */
  lemma {:induction false} OnceRoundRefused()
    ensures var ss := [1, 2, 0x7FFF_FFFF, 0xFFFF_FFF0, 2]; Rising(ss) && !Taken(ss)
  {
    var ss: seq<Serial> := [1, 2, 0x7FFF_FFFF, 0xFFFF_FFF0, 2];
    RoundRises();
    RunAnswers(ss);
    RunVersionsOk(ss);
    assert Steps(ss)[0].newSerial == 2 by { FirstStep(ss); }
    StepsCount(ss);
    assert Revisits(Steps(ss), 2);
    IncrementalTransferAccepted(Run(ss), Asks(1), true, Steps(ss), Options(None, false));
  }

  lemma {:induction false} RisesOn(ss: seq<Serial>, s: Serial)
    requires ss != [] && Rising(ss) && s != 0 && Newer(s, ss[|ss| - 1])
    ensures Rising(ss + [s])
  {
    assert (ss + [s])[..|ss|] == ss;
  }

  lemma {:induction false} RoundRises()
    ensures Rising([1, 2, 0x7FFF_FFFF, 0xFFFF_FFF0, 2])
  {
    RisesOn([1], 2);
    RisesOn([1] + [2], 0x7FFF_FFFF);
    RisesOn([1] + [2] + [0x7FFF_FFFF], 0xFFFF_FFF0);
    RisesOn([1] + [2] + [0x7FFF_FFFF] + [0xFFFF_FFF0], 2);
    assert [1] + [2] + [0x7FFF_FFFF] + [0xFFFF_FFF0] + [2] == [1, 2, 0x7FFF_FFFF, 0xFFFF_FFF0, 2];
  }

  lemma {:induction false} FirstStep(ss: seq<Serial>)
    requires |ss| >= 2
    ensures Steps(ss) != [] && Steps(ss)[0] == SoaStep(ss[0], ss[1])
    decreases |ss|
  {
    if |ss| > 2 {
      FirstStep(ss[..|ss| - 1]);
    } else {
      assert Steps(ss[..1]) == [];
    }
  }
}
