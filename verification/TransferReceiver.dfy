/**
 * The receiving loop of a transfer (the first half of handle_axfr_event()): header checks, TSIG over the whole stream
 * (section 5.3.1 of RFC 8945), size limits and the parser, message by message.
 */
module TransferReceiver {
  import opened Serials
  import opened Records
  import opened TransferParser

  const HEADER_SIZE: nat := 12
  const UNSIGNED_MAX: nat := 99
  const MAC_MAX: nat := 64

  type Octets = seq<int>

  /** The header and question of a message, compared with the request. */
  datatype Header = Header(idMatches: bool, isAnswer: bool, questions: nat, questionMatches: bool, rcode: nat)

  datatype Packet = Packet(octets: Octets, header: Header, signed: bool, message: Message)

  /** xfr_check_response_header(): the message may be read on. */
  predicate HeaderOk(p: Packet, first: bool) {
    && |p.octets| >= HEADER_SIZE && p.header.idMatches && p.header.isAnswer
    && p.header.questions <= 1 && (p.header.questions == 0 ==> !first && p.header.rcode == 0)
    && (p.header.questions == 1 ==> p.header.questionMatches)
    && p.header.rcode == 0
  }

  /**
   * tsig_verify_packet(): given the prior MAC, the octets of the unsigned messages before this one, the message, and
   * whether it is a later message of the stream; the MAC of the message when it verifies.
   */
  type Verifier = (Octets, Octets, Packet, bool) -> Option<Octets>

  datatype Config = Config(env: Env, keyed: bool, verify: Verifier, maxBytes: nat, maxRecords: nat, extProbe: bool)

  /**
   * The TSIG variables of the loop: the MAC before, the octets and number of the unsigned messages since, and whether
   * one verified.
   */
  datatype Tsig = Tsig(prior: Octets, buffered: Octets, unsigned: nat, subsequent: bool)

  /** The loop's variables. */
  datatype Loop = Loop(state: State, tsig: Tsig, first: bool, total: nat)

  function StartTsig(requestMac: Octets): Tsig {
    Tsig(if UsableMac(requestMac) then requestMac else [], [], 0, false)
  }

  function StartLoop(s: State, requestMac: Octets): Loop {
    Loop(s, StartTsig(requestMac), true, 0)
  }

  predicate UsableMac(m: Octets) {
    1 <= |m| <= MAC_MAX
  }

  /** The TSIG part of one round; None rejects the transfer. */
  function CheckTsig(verify: Verifier, t: Tsig, p: Packet): Option<Tsig> {
    if !p.signed then
      if !t.subsequent || t.unsigned + 1 > UNSIGNED_MAX then None
      else Some(t.(unsigned := t.unsigned + 1, buffered := t.buffered + p.octets))
    else
      var m := verify(t.prior, t.buffered, p, t.subsequent);
      if m.None? then None
      else if UsableMac(m.value) then Some(Tsig(m.value, [], 0, true))
      else Some(t.(buffered := [], unsigned := 0))
  }

  datatype Round = Fail | More(loop: Loop) | Done(loop: Loop)

  function OneRound(c: Config, l: Loop, p: Packet): Round {
    var total := l.total + |p.octets|;
    if c.maxBytes > 0 && total > c.maxBytes then Fail
    else if !HeaderOk(p, l.first) then Fail
    else
      var tsig := if c.keyed then CheckTsig(c.verify, l.tsig, p) else Some(l.tsig);
      if tsig.None? then Fail
      else
        var (t, ok) := ParseMessage(c.env, l.state, p.message);
        if !ok then Fail
        else if c.maxRecords > 0 && |t.records| > c.maxRecords then Fail
        else if l.first && c.extProbe && !t.options.extended then Fail
        else
          var next := Loop(t, tsig.value, false, total);
          if !t.finished then More(next)
          else if c.keyed && tsig.value.buffered != [] then Fail
          else Done(next)
  }

  /** The outcome of the whole loop: the transfer is complete after the first `used` messages, or it failed. */
  datatype Outcome = Lost | Complete(state: State, used: nat)

  function Receive(c: Config, l: Loop, ps: seq<Packet>): (o: Outcome)
    ensures o.Complete? ==> o.used <= |ps|
    decreases |ps|
  {
    if ps == [] then Lost
    else
      match OneRound(c, l, ps[0])
      case Fail => Lost
      case Done(next) => Complete(next.state, 1)
      case More(next) =>
        var o := Receive(c, next, ps[1..]);
        if o.Lost? then Lost else Complete(o.state, o.used + 1)
  }

  // ---- what a complete transfer has been authenticated with ----

  function FirstSigned(ps: seq<Packet>): (k: nat)
    ensures k <= |ps|
    ensures k < |ps| ==> ps[k].signed
    ensures forall i :: 0 <= i < k ==> !ps[i].signed
  {
    if ps == [] || ps[0].signed then 0 else 1 + FirstSigned(ps[1..])
  }

  function AllOctets(ps: seq<Packet>): Octets {
    if ps == [] then [] else AllOctets(ps[..|ps| - 1]) + ps[|ps| - 1].octets
  }

  /**
   * The messages fall into runs, each some unsigned messages (at most 99, and none before the first signed message)
   * and a signed one whose MAC verifies over the MAC before it, all octets of the unsigned ones and itself.
   */
  ghost predicate Authenticated(verify: Verifier, ps: seq<Packet>, mac: Octets, subsequent: bool)
    decreases |ps|
  {
    ps == [] ||
    var k := FirstSigned(ps);
    && k < |ps| && k <= 99 && (k > 0 ==> subsequent)
    && var m := verify(mac, AllOctets(ps[..k]), ps[k], subsequent);
    && m.Some?
    && Authenticated(verify, ps[k + 1..], if UsableMac(m.value) then m.value else mac, subsequent || UsableMac(m.value))
  }

  lemma FirstSignedIs(ps: seq<Packet>, k: nat)
    requires k < |ps| && ps[k].signed && forall i :: 0 <= i < k ==> !ps[i].signed
    ensures FirstSigned(ps) == k
  {
  }

  /** The TSIG part alone, over a list of messages. */
  function CheckAll(verify: Verifier, t: Tsig, ps: seq<Packet>): Option<Tsig>
    decreases |ps|
  {
    if ps == [] then Some(t)
    else
      var u := CheckTsig(verify, t, ps[0]);
      if u.None? then None else CheckAll(verify, u.value, ps[1..])
  }

  /** The messages waiting for a signature: all unsigned, and their octets are what is kept. */
  ghost predicate Waiting(t: Tsig, pend: seq<Packet>) {
    && (forall i :: 0 <= i < |pend| ==> !pend[i].signed && |pend[i].octets| >= HEADER_SIZE)
    && t.buffered == AllOctets(pend) && t.unsigned == |pend| && |pend| <= UNSIGNED_MAX
    && (pend != [] ==> t.subsequent)
  }

  /** Messages are not empty, so nothing kept means nothing waits. */
  lemma NothingWaits(t: Tsig, pend: seq<Packet>)
    requires Waiting(t, pend) && t.buffered == []
    ensures pend == []
  {
  }

  lemma {:induction false} SignedRun(verify: Verifier, pend: seq<Packet>, p: Packet, rest: seq<Packet>, mac: Octets, subsequent: bool)
    requires forall i :: 0 <= i < |pend| ==> !pend[i].signed
    requires |pend| <= UNSIGNED_MAX && (pend != [] ==> subsequent) && p.signed
    requires verify(mac, AllOctets(pend), p, subsequent).Some?
    requires var m := verify(mac, AllOctets(pend), p, subsequent).value;
      Authenticated(verify, rest, if UsableMac(m) then m else mac, subsequent || UsableMac(m))
    ensures Authenticated(verify, pend + [p] + rest, mac, subsequent)
  {
    var ps := pend + [p] + rest;
    FirstSignedIs(ps, |pend|);
    assert ps[..|pend|] == pend && ps[|pend| + 1..] == rest;
  }

  lemma {:induction false} OneMoreWaits(verify: Verifier, t: Tsig, pend: seq<Packet>, p: Packet)
    requires Waiting(t, pend) && !p.signed && |p.octets| >= HEADER_SIZE && CheckTsig(verify, t, p).Some?
    ensures var u := CheckTsig(verify, t, p).value;
      Waiting(u, pend + [p]) && u.prior == t.prior && u.subsequent == t.subsequent
  {
    assert (pend + [p])[..|pend|] == pend;
  }

  /** Messages of at least a header each that pass the checks and leave nothing waiting are authenticated. */
  lemma {:induction false} CheckedIsAuthenticated(verify: Verifier, t: Tsig, pend: seq<Packet>, ps: seq<Packet>)
    requires Waiting(t, pend)
    requires forall i :: 0 <= i < |ps| ==> |ps[i].octets| >= HEADER_SIZE
    requires CheckAll(verify, t, ps).Some? && CheckAll(verify, t, ps).value.buffered == []
    ensures Authenticated(verify, pend + ps, t.prior, t.subsequent)
    decreases |ps|
  {
    if ps == [] {
      NothingWaits(t, pend);
      assert pend + ps == [];
    } else {
      var p, rest := ps[0], ps[1..];
      var u := CheckTsig(verify, t, p).value;
      assert pend + [p] + rest == pend + ps;
      if p.signed {
        CheckedIsAuthenticated(verify, u, [], rest);
        assert [] + rest == rest;
        SignedRun(verify, pend, p, rest, t.prior, t.subsequent);
      } else {
        OneMoreWaits(verify, t, pend, p);
        CheckedIsAuthenticated(verify, u, pend + [p], rest);
      }
    }
  }

  /** A run of unsigned messages is kept, one after the other. */
  lemma {:induction false} RunIsKept(verify: Verifier, t: Tsig, ps: seq<Packet>, k: nat)
    requires k <= |ps| && (k > 0 ==> t.subsequent) && t.unsigned + k <= UNSIGNED_MAX
    requires forall i :: 0 <= i < k ==> !ps[i].signed
    ensures CheckAll(verify, t, ps) ==
      CheckAll(verify, t.(buffered := t.buffered + AllOctets(ps[..k]), unsigned := t.unsigned + k), ps[k..])
    decreases k
  {
    if k == 0 {
      assert ps[0..] == ps && t.buffered + AllOctets(ps[..0]) == t.buffered;
    } else {
      RunIsKept(verify, t, ps, k - 1);
      assert ps[..k][..k - 1] == ps[..k - 1] && ps[k - 1..][1..] == ps[k..];
      assert t.buffered + AllOctets(ps[..k - 1]) + ps[k - 1].octets == t.buffered + AllOctets(ps[..k]);
    }
  }

  lemma {:induction false} SplitAt(ps: seq<Packet>, k: nat)
    requires k < |ps|
    ensures ps[k..] != [] && ps[k..][0] == ps[k] && ps[k..][1..] == ps[k + 1..]
  {
  }

  /** A run and the signed message after it pass. */
  lemma {:induction false} RunPasses(verify: Verifier, t: Tsig, ps: seq<Packet>, k: nat)
    requires t.buffered == [] && t.unsigned == 0 && k < |ps| && k <= UNSIGNED_MAX && (k > 0 ==> t.subsequent)
    requires ps[k].signed && (forall i :: 0 <= i < k ==> !ps[i].signed)
    requires verify(t.prior, AllOctets(ps[..k]), ps[k], t.subsequent).Some?
    ensures var m := verify(t.prior, AllOctets(ps[..k]), ps[k], t.subsequent).value;
      var u := if UsableMac(m) then Tsig(m, [], 0, true) else t;
      CheckAll(verify, t, ps) == CheckAll(verify, u, ps[k + 1..])
  {
    RunIsKept(verify, t, ps, k);
    assert [] + AllOctets(ps[..k]) == AllOctets(ps[..k]);
    SplitAt(ps, k);
  }

  /** And messages that are authenticated pass the checks and leave nothing waiting. */
  lemma {:induction false} AuthenticatedIsChecked(verify: Verifier, t: Tsig, ps: seq<Packet>)
    requires t.buffered == [] && t.unsigned == 0 && Authenticated(verify, ps, t.prior, t.subsequent)
    ensures CheckAll(verify, t, ps).Some? && CheckAll(verify, t, ps).value.buffered == []
    decreases |ps|
  {
    if ps != [] {
      var k := FirstSigned(ps);
      RunPasses(verify, t, ps, k);
      var m := verify(t.prior, AllOctets(ps[..k]), ps[k], t.subsequent).value;
      AuthenticatedIsChecked(verify, if UsableMac(m) then Tsig(m, [], 0, true) else t, ps[k + 1..]);
    }
  }

  // ---- what the key adds ----

  function WithoutKey(c: Config): Config {
    c.(keyed := false)
  }

  /**
   * A round with the key is the round without it, unless the TSIG check fails or the last message leaves some waiting.
   */
  lemma {:induction false} RoundWithKey(c: Config, l: Loop, t: Tsig, p: Packet)
    requires c.keyed
    ensures var u, plain := CheckTsig(c.verify, l.tsig, p), OneRound(WithoutKey(c), l.(tsig := t), p);
      && (plain.Fail? || u.None? ==> OneRound(c, l, p).Fail?)
      && (!plain.Fail? ==> plain.loop.tsig == t)
      && (plain.More? && u.Some? ==> OneRound(c, l, p) == More(plain.loop.(tsig := u.value)))
      && (plain.Done? && u.Some? ==>
            OneRound(c, l, p) == if u.value.buffered == [] then Done(plain.loop.(tsig := u.value)) else Fail)
  {
  }

  /** No message of a list fails the TSIG check, and none is left waiting at its end. */
  predicate Passes(verify: Verifier, t: Tsig, ps: seq<Packet>) {
    CheckAll(verify, t, ps).Some? && CheckAll(verify, t, ps).value.buffered == []
  }

  /** What comes out with the key, from what comes out without it. */
  ghost predicate OnlyChecked(c: Config, l: Loop, t: Tsig, ps: seq<Packet>) {
    var plain := Receive(WithoutKey(c), l.(tsig := t), ps);
    Receive(c, l, ps) == if plain.Complete? && Passes(c.verify, l.tsig, ps[..plain.used]) then plain else Lost
  }

  lemma {:induction false} KeyOnMore(c: Config, l: Loop, t: Tsig, ps: seq<Packet>, next: Loop)
    requires c.keyed && ps != [] && OneRound(WithoutKey(c), l.(tsig := t), ps[0]) == More(next)
    requires var u := CheckTsig(c.verify, l.tsig, ps[0]);
      u.Some? ==> OnlyChecked(c, next.(tsig := u.value), t, ps[1..])
    ensures OnlyChecked(c, l, t, ps)
  {
    RoundWithKey(c, l, t, ps[0]);
    assert next.(tsig := t) == next;
    var rest := Receive(WithoutKey(c), next, ps[1..]);
    if rest.Complete? {
      assert Receive(WithoutKey(c), l.(tsig := t), ps) == Complete(rest.state, rest.used + 1);
      HeadChecked(c.verify, l.tsig, ps, rest.used);
    }
  }

  lemma {:induction false} KeyOnlyChecks(c: Config, l: Loop, t: Tsig, ps: seq<Packet>)
    requires c.keyed
    ensures OnlyChecked(c, l, t, ps)
    decreases |ps|
  {
    if ps != [] {
      var u, plain := CheckTsig(c.verify, l.tsig, ps[0]), OneRound(WithoutKey(c), l.(tsig := t), ps[0]);
      if plain.More? {
        if u.Some? { KeyOnlyChecks(c, plain.loop.(tsig := u.value), t, ps[1..]); }
        KeyOnMore(c, l, t, ps, plain.loop);
      } else {
        RoundWithKey(c, l, t, ps[0]);
        HeadChecked(c.verify, l.tsig, ps, 0);
        assert ps[1..][..0] == [];
      }
    }
  }

  lemma {:induction false} HeadChecked(verify: Verifier, t: Tsig, ps: seq<Packet>, n: nat)
    requires n < |ps|
    ensures CheckAll(verify, t, ps[..n + 1]) ==
      var u := CheckTsig(verify, t, ps[0]);
      if u.None? then None else CheckAll(verify, u.value, ps[1..][..n])
  {
    assert ps[..n + 1][1..] == ps[1..][..n];
  }

  /** What a complete transfer has passed. */
  lemma {:induction false} CompleteIsChecked(c: Config, l: Loop, ps: seq<Packet>)
    requires c.keyed && Receive(c, l, ps).Complete?
    ensures var head := ps[..Receive(c, l, ps).used];
      && head != []
      && (forall i :: 0 <= i < |head| ==> |head[i].octets| >= HEADER_SIZE)
      && CheckAll(c.verify, l.tsig, head).Some? && CheckAll(c.verify, l.tsig, head).value.buffered == []
    decreases |ps|
  {
    var used := Receive(c, l, ps).used;
    var head := ps[..used];
    var next := RoundChecked(c, l, ps[0]);
    if OneRound(c, l, ps[0]).More? {
      CompleteIsChecked(c, next, ps[1..]);
      assert head[1..] == ps[1..][..used - 1];
    } else {
      assert head[1..] == [];
    }
    assert head[0] == ps[0];
    assert head == [ps[0]] + head[1..];
  }

  lemma RoundChecked(c: Config, l: Loop, p: Packet) returns (next: Loop)
    requires c.keyed && !OneRound(c, l, p).Fail?
    ensures next == OneRound(c, l, p).loop && |p.octets| >= HEADER_SIZE
    ensures CheckTsig(c.verify, l.tsig, p) == Some(next.tsig)
    ensures OneRound(c, l, p).Done? ==> next.tsig.buffered == []
  {
    next := OneRound(c, l, p).loop;
  }

  /**
   * With a key, every transfer that completes has had each of its messages covered by a MAC that verifies, in a chain
   * that starts from the MAC of the request; the first message was itself signed, and no more than 99 messages in a
   * row were not.
   */
  lemma {:induction false} CompleteIsAuthenticated(c: Config, s: State, requestMac: Octets, ps: seq<Packet>)
    requires c.keyed && Receive(c, StartLoop(s, requestMac), ps).Complete?
    ensures var head := ps[..Receive(c, StartLoop(s, requestMac), ps).used];
      Authenticated(c.verify, head, StartTsig(requestMac).prior, false) && head != [] && head[0].signed
  {
    var l := StartLoop(s, requestMac);
    var head := ps[..Receive(c, l, ps).used];
    CompleteIsChecked(c, l, ps);
    CheckedIsAuthenticated(c.verify, l.tsig, [], head);
    assert [] + head == head;
  }

  /**
   * With a key, a transfer comes out as it would without one if the messages it takes are authenticated from the MAC of
   * the request on; otherwise it is lost.
   */
  lemma {:induction false} KeyAddsAuthentication(c: Config, s: State, requestMac: Octets, ps: seq<Packet>)
    requires c.keyed
    ensures var l := StartLoop(s, requestMac); var plain := Receive(WithoutKey(c), l, ps);
      Receive(c, l, ps) ==
        if plain.Complete? && Authenticated(c.verify, ps[..plain.used], l.tsig.prior, false) then plain else Lost
  {
    var l := StartLoop(s, requestMac);
    var plain := Receive(WithoutKey(c), l, ps);
    KeyOnlyChecks(c, l, l.tsig, ps);
    assert l.(tsig := l.tsig) == l;
    if plain.Complete? {
      var head := ps[..plain.used];
      TakenHaveHeaders(WithoutKey(c), l, ps);
      if Passes(c.verify, l.tsig, head) {
        CheckedIsAuthenticated(c.verify, l.tsig, [], head);
        assert [] + head == head;
      }
      if Authenticated(c.verify, head, l.tsig.prior, false) { AuthenticatedIsChecked(c.verify, l.tsig, head); }
    }
  }

  lemma {:induction false} TakenHaveHeaders(c: Config, l: Loop, ps: seq<Packet>)
    requires Receive(c, l, ps).Complete?
    ensures forall i :: 0 <= i < Receive(c, l, ps).used ==> |ps[i].octets| >= HEADER_SIZE
    decreases |ps|
  {
    var used, r := Receive(c, l, ps).used, OneRound(c, l, ps[0]);
    if r.More? {
      TakenHaveHeaders(c, r.loop, ps[1..]);
      assert forall i :: 0 < i < used ==> ps[i] == ps[1..][i - 1];
    }
  }

  // ---- and what the parser made of it ----

  function Messages(ps: seq<Packet>): seq<Message> {
    if ps == [] then [] else [ps[0].message] + Messages(ps[1..])
  }

  /** A complete transfer is one the parser finished, on the messages that were read. */
  lemma {:induction false} CompleteIsParsed(c: Config, l: Loop, ps: seq<Packet>)
    requires Receive(c, l, ps).Complete? && !l.state.finished
    ensures var o := Receive(c, l, ps);
      o.used > 0 && o.state.finished && ParseStream(c.env, l.state, Messages(ps[..o.used])) == (o.state, true)
    decreases |ps|
  {
    var o := Receive(c, l, ps);
    var round := OneRound(c, l, ps[0]);
    var head := ps[..o.used];
    assert head[0] == ps[0];
    RoundParses(c, l, ps[0]);
    if round.More? {
      CompleteIsParsed(c, round.loop, ps[1..]);
      assert head[1..] == ps[1..][..o.used - 1];
    } else {
      assert head[1..] == [];
    }
    assert Messages(head)[0] == ps[0].message && Messages(head)[1..] == Messages(head[1..]);
  }

  lemma RoundParses(c: Config, l: Loop, p: Packet)
    requires !OneRound(c, l, p).Fail?
    ensures ParseMessage(c.env, l.state, p.message) == (OneRound(c, l, p).loop.state, true)
    ensures OneRound(c, l, p).Done? <==> OneRound(c, l, p).loop.state.finished
  {
  }

  // ---- when a transfer completes ----

  /** The transfer ends with the last message and not before. */
  ghost predicate EndsWithLast(env: Env, s: State, msgs: seq<Message>)
    decreases |msgs|
  {
    msgs != [] &&
    var (t, ok) := ParseMessage(env, s, msgs[0]);
    ok && if |msgs| == 1 then t.finished else !t.finished && EndsWithLast(env, t, msgs[1..])
  }

  /** An answer without an error to our request; the question may be missing from all but the first message. */
  predicate AnswersUs(p: Packet, first: bool) {
    && |p.octets| >= 12 && p.header.idMatches && p.header.isAnswer && p.header.rcode == 0
    && ((p.header.questions == 1 && p.header.questionMatches) || (p.header.questions == 0 && !first))
  }

  ghost predicate HeadersFit(first: bool, ps: seq<Packet>) {
    forall i :: 0 <= i < |ps| ==> AnswersUs(ps[i], first && i == 0)
  }

  function OctetCount(ps: seq<Packet>): nat {
    if ps == [] then 0 else |ps[0].octets| + OctetCount(ps[1..])
  }

  predicate OctetsFit(c: Config, before: nat, ps: seq<Packet>) {
    c.maxBytes > 0 ==> before + OctetCount(ps) <= c.maxBytes
  }

  /** No message leaves more records than the limit. */
  ghost predicate RecordsFit(c: Config, s: State, msgs: seq<Message>)
    decreases |msgs|
  {
    msgs == [] ||
    var t := ParseMessage(c.env, s, msgs[0]).0;
    (c.maxRecords > 0 ==> |t.records| <= c.maxRecords) && RecordsFit(c, t, msgs[1..])
  }

  /** A primary that was asked for the extension says so in its first message. */
  ghost predicate ProbeFits(c: Config, s: State, first: bool, msgs: seq<Message>) {
    first && c.extProbe && msgs != [] ==> ParseMessage(c.env, s, msgs[0]).0.options.extended
  }

  /** All that the receiving loop asks of messages besides their signatures. */
  ghost predicate Fits(c: Config, l: Loop, ps: seq<Packet>) {
    && EndsWithLast(c.env, l.state, Messages(ps)) && HeadersFit(l.first, ps) && OctetsFit(c, l.total, ps)
    && RecordsFit(c, l.state, Messages(ps)) && ProbeFits(c, l.state, l.first, Messages(ps))
  }

  lemma {:induction false} FitsNext(c: Config, l: Loop, ps: seq<Packet>, next: Loop)
    requires |ps| > 1
    requires var (t, ok) := ParseMessage(c.env, l.state, ps[0].message);
      ok && !t.finished && next == Loop(t, l.tsig, false, l.total + |ps[0].octets|)
    ensures Fits(c, l, ps) <==>
      && AnswersUs(ps[0], l.first) && (c.maxRecords > 0 ==> |next.state.records| <= c.maxRecords)
      && (l.first && c.extProbe ==> next.state.options.extended) && Fits(c, next, ps[1..])
  {
    assert Messages(ps)[0] == ps[0].message && Messages(ps)[1..] == Messages(ps[1..]);
    assert |Messages(ps[1..])| > 0;
    HeadersNext(l.first, ps);
  }

  lemma {:induction false} HeadersNext(first: bool, ps: seq<Packet>)
    requires ps != []
    ensures HeadersFit(first, ps) <==> AnswersUs(ps[0], first) && HeadersFit(false, ps[1..])
  {
    var rest := ps[1..];
    assert forall i :: 0 < i < |ps| ==> ps[i] == rest[i - 1];
    assert forall i :: 0 <= i < |rest| ==> rest[i] == ps[i + 1];
  }

  lemma {:induction false} LastFits(c: Config, l: Loop, ps: seq<Packet>)
    requires |ps| == 1
    ensures Fits(c, l, ps) <==>
      var (t, ok) := ParseMessage(c.env, l.state, ps[0].message);
      && ok && t.finished && AnswersUs(ps[0], l.first) && (c.maxRecords > 0 ==> |t.records| <= c.maxRecords)
      && (c.maxBytes > 0 ==> l.total + |ps[0].octets| <= c.maxBytes) && (l.first && c.extProbe ==> t.options.extended)
  {
    var t := ParseMessage(c.env, l.state, ps[0].message).0;
    assert ps[1..] == [] && Messages(ps) == [ps[0].message] && Messages(ps)[1..] == [];
    assert RecordsFit(c, t, []) && OctetCount(ps) == |ps[0].octets|;
    HeadersNext(l.first, ps);
  }

  /** What one message has to be. */
  ghost predicate MessageFits(c: Config, l: Loop, p: Packet) {
    var (t, ok) := ParseMessage(c.env, l.state, p.message);
    && ok && AnswersUs(p, l.first) && (c.maxBytes > 0 ==> l.total + |p.octets| <= c.maxBytes)
    && (c.maxRecords > 0 ==> |t.records| <= c.maxRecords) && (l.first && c.extProbe ==> t.options.extended)
  }

  lemma {:induction false} PlainRound(c: Config, l: Loop, p: Packet)
    requires !c.keyed
    ensures var t := ParseMessage(c.env, l.state, p.message).0;
      var next := Loop(t, l.tsig, false, l.total + |p.octets|);
      OneRound(c, l, p) == if !MessageFits(c, l, p) then Fail else if t.finished then Done(next) else More(next)
  {
  }

  lemma {:induction false} FirstFits(c: Config, l: Loop, ps: seq<Packet>)
    requires |ps| > 1 && Fits(c, l, ps)
    ensures MessageFits(c, l, ps[0]) && !ParseMessage(c.env, l.state, ps[0].message).0.finished
  {
    assert Messages(ps)[0] == ps[0].message && |Messages(ps[1..])| > 0;
    HeadersNext(l.first, ps);
  }

  lemma {:induction false} PlainCompletesExactly(c: Config, l: Loop, ps: seq<Packet>)
    requires !c.keyed
    ensures Receive(c, l, ps).Complete? && Receive(c, l, ps).used == |ps| <==> Fits(c, l, ps)
    decreases |ps|
  {
    if |ps| == 1 {
      PlainRound(c, l, ps[0]);
      LastFits(c, l, ps);
    } else if |ps| > 1 {
      PlainRound(c, l, ps[0]);
      var r := OneRound(c, l, ps[0]);
      if r.More? {
        FitsNext(c, l, ps, r.loop);
        PlainCompletesExactly(c, r.loop, ps[1..]);
      } else if Fits(c, l, ps) {
        FirstFits(c, l, ps);
      }
    }
  }

  /**
   * A transfer completes with its last message if and only if the parser finishes with it and not before, every header
   * answers our request, the limits are kept, and with a key the messages are authenticated.
   */
  lemma {:induction false} CompletesExactly(c: Config, s: State, requestMac: Octets, ps: seq<Packet>)
    ensures var l := StartLoop(s, requestMac);
      Receive(c, l, ps).Complete? && Receive(c, l, ps).used == |ps| <==>
        Fits(c, l, ps) && (c.keyed ==> Authenticated(c.verify, ps, StartTsig(requestMac).prior, false))
  {
    var l := StartLoop(s, requestMac);
    if c.keyed {
      KeyAddsAuthentication(c, s, requestMac, ps);
      PlainCompletesExactly(WithoutKey(c), l, ps);
      FitsWithoutKey(c, l, ps);
      assert ps[..|ps|] == ps;
    } else {
      PlainCompletesExactly(c, l, ps);
    }
  }

  lemma {:induction false} FitsWithoutKey(c: Config, l: Loop, ps: seq<Packet>)
    ensures Fits(WithoutKey(c), l, ps) <==> Fits(c, l, ps)
  {
    RecordsFitWithoutKey(c, l.state, Messages(ps));
  }

  lemma {:induction false} RecordsFitWithoutKey(c: Config, s: State, msgs: seq<Message>)
    ensures RecordsFit(WithoutKey(c), s, msgs) <==> RecordsFit(c, s, msgs)
    decreases |msgs|
  {
    if msgs != [] { RecordsFitWithoutKey(c, ParseMessage(c.env, s, msgs[0]).0, msgs[1..]); }
  }
}
