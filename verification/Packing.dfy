/**
 * The emitter of a transfer (axfr_emit_item, axfr_ec_finish): records are packed into messages in order, each message
 * as full as it gets, or with one record each.
 */
module Packing {
  import opened Records
  import opened TransferParser
  import opened MessageCuts
  import opened IxfrApply

  /** A message may grow to this many octets before its OPT and TSIG records are added. */
  const MESSAGE_LIMIT: nat := 65000
  /** The least a record takes: a compressed or root owner name, and the ten octets after it. */
  const MIN_RECORD: nat := 11

  /** A message that went out: its records, its two ANCOUNT octets, and whether it has the OPT record. */
  datatype Sent = Sent(records: Zone, ancountHigh: nat, ancountLow: nat, opt: bool)

  function RecordsOf(sent: seq<Sent>): Zone {
    if sent == [] then [] else RecordsOf(sent[..|sent| - 1]) + sent[|sent| - 1].records
  }

  /** The number a reader finds in the ANCOUNT field. */
  function Ancount(m: Sent): nat {
    m.ancountHigh * 256 + m.ancountLow
  }

  /**
   * What holds of every message of a transfer: the count is right, and the OPT is in the first one, when there is one
   * to send.
   */
  ghost predicate Framed(sent: seq<Sent>, sendOpt: bool) {
    forall i :: 0 <= i < |sent| ==> Ancount(sent[i]) == |sent[i].records| && (sent[i].opt <==> sendOpt && i == 0)
  }

  ghost predicate NoneEmpty(sent: seq<Sent>) {
    forall i :: 0 <= i < |sent| ==> sent[i].records != []
  }

  ghost predicate OneEach(sent: seq<Sent>) {
    forall i :: 0 <= i < |sent| ==> |sent[i].records| == 1
  }

  /** size(m, r): the octets record r takes in a message that holds the records m already; names are compressed. */
  type SizeOf = (Zone, RR) -> nat

  ghost predicate Plausible(size: SizeOf) {
    forall m, r :: size(m, r) >= MIN_RECORD
  }

  /** Where the records m end in a message. */
  function Filled(size: SizeOf, question: nat, m: Zone): nat {
    if m == [] then question
    else Filled(size, question, m[..|m| - 1]) + size(m[..|m| - 1], m[|m| - 1])
  }

  lemma {:induction false} FilledMore(size: SizeOf, question: nat, m: Zone, r: RR)
    ensures Filled(size, question, m + [r]) == Filled(size, question, m) + size(m, r)
  {
    assert (m + [r])[..|m|] == m;
  }

  /** The record goes past the limit of a message with the records m. */
  predicate NoRoom(size: SizeOf, question: nat, m: Zone, r: RR) {
    Filled(size, question, m) + size(m, r) > MESSAGE_LIMIT
  }

  /** Each message is within the limit, and the record that opens the next one would not have fitted. */
  ghost predicate AsFullAsItGets(size: SizeOf, question: nat, sent: seq<Sent>) {
    sent == [] ||
    (var front, m := sent[..|sent| - 1], sent[|sent| - 1].records;
     && AsFullAsItGets(size, question, front) && m != [] && Filled(size, question, m) <= MESSAGE_LIMIT
     && (front != [] ==> NoRoom(size, question, front[|front| - 1].records, m[0])))
  }

  class Emitter {
    const size: SizeOf
    /** Where the records start: the header and the question of the request. */
    const question: nat
    const oneAnswer: bool
    const sendOpt: bool
    var records: Zone
    var offset: nat
    var sent: seq<Sent>
    var optSent: bool

    ghost predicate Valid()
      reads this
    {
      && Plausible(size)
      && question + MIN_RECORD * |records| <= offset <= (if MESSAGE_LIMIT < question then question else MESSAGE_LIMIT)
      && offset == Filled(size, question, records)
      && (oneAnswer ==> |records| <= 1)
      && Framed(sent, sendOpt)
      && (optSent <==> sendOpt && sent != [])
    }

    ghost function All(): Zone
      reads this
    {
      RecordsOf(sent) + records
    }

    /** The message m went out, because r did not fit it or every message has one record, and r opens the next. */
    ghost predicate Opened(before: seq<Sent>, m: Zone, r: RR)
      reads this
    {
      && |sent| > 0 && sent[..|sent| - 1] == before && sent[|sent| - 1].records == m && records == [r]
      && (oneAnswer || NoRoom(size, question, m, r))
    }

    constructor (size: SizeOf, question: nat, oneAnswer: bool, sendOpt: bool)
      requires Plausible(size)
      ensures Valid() && sent == [] && records == []
      ensures this.size == size && this.question == question && this.oneAnswer == oneAnswer && this.sendOpt == sendOpt
    {
      this.size, this.question, this.oneAnswer, this.sendOpt := size, question, oneAnswer, sendOpt;
      records, offset, sent, optSent := [], question, [], false;
    }

    /** Writes the record into the message, or leaves the message as it is when it does not fit. */
    method Write(r: RR) returns (ok: bool)
      requires Valid() && (oneAnswer ==> records == [])
      modifies this`records, this`offset
      ensures Valid()
      ensures ok == !NoRoom(size, question, old(records), r)
      ensures records == if ok then old(records) + [r] else old(records)
      ensures !ok ==> offset == old(offset)
    {
      var n := size(records, r);
      FilledMore(size, question, records, r);
      ok := offset + n <= MESSAGE_LIMIT;
      if ok {
        records, offset := records + [r], offset + n;
      }
    }

    /** Sends the message; delivered is false when the client does not take it (or it cannot be signed). */
    method Flush(delivered: bool) returns (ok: bool)
      requires Valid() && |records| < 0x1_0000
      modifies this
      ensures ok == delivered
      ensures ok ==> Valid() && records == []
      ensures ok ==> sent == old(sent) + [Sent(old(records), |old(records)| / 256, |old(records)| % 256, sendOpt && old(sent) == [])]
      ensures !ok ==> sent == old(sent)
    {
      var withOpt := sendOpt && !optSent;
      var m := Sent(records, |records| / 256, |records| % 256, withOpt);
      if withOpt { optSent := true; }
      if !delivered { return false; }
      sent := sent + [m];
      records, offset := [], question;
      return true;
    }

    /** A message cannot hold so many records that their number does not fit the two octets of ANCOUNT. */
    lemma CountFits()
      requires Valid()
      ensures |records| < 0x1_0000
    {
    }

    lemma WithinLimit()
      requires Valid() && records != []
      ensures Filled(size, question, records) <= MESSAGE_LIMIT
    {
    }

    /** The message is full: it is sent, and the record opens the next one. */
    method OpenNext(r: RR, delivered: bool) returns (ok: bool)
      requires Valid()
      modifies this
      ensures ok ==> Valid() && records == [r]
      ensures ok ==> |sent| > 0 && sent[..|sent| - 1] == old(sent) && sent[|sent| - 1].records == old(records)
      ensures !ok && delivered ==> question + size([], r) > MESSAGE_LIMIT
      ensures RecordsOf(sent) == RecordsOf(old(sent)) || RecordsOf(sent) == RecordsOf(old(sent)) + old(records)
      ensures ok ==> RecordsOf(sent) == RecordsOf(old(sent)) + old(records)
      ensures ok && old(records) == [] ==> question + size([], r) <= MESSAGE_LIMIT
    {
      CountFits();
      ok := Flush(delivered);
      if ok {
        assert sent[..|sent| - 1] == old(sent);
        ok := Write(r);
      }
    }

    /** axfr_emit_item() */
    method EmitItem(r: RR, delivered: bool) returns (ok: bool)
      requires Valid()
      modifies this
      ensures ok ==> Valid() && records != [] && All() == old(All()) + [r]
      ensures ok && NoneEmpty(old(sent)) ==> NoneEmpty(sent)
      ensures ok && oneAnswer && OneEach(old(sent)) ==> OneEach(sent)
      ensures !ok && delivered ==> question + size([], r) > MESSAGE_LIMIT
      ensures RecordsOf(sent) <= old(All())
      ensures ok ==> (sent == old(sent) && records == old(records) + [r]) || Opened(old(sent), old(records), r)
    {
      if !(oneAnswer && records != []) {
        var fits := Write(r);
        if fits {
          AllAssociates(old(sent), old(records), r);
          return true;
        }
      }
      ghost var before := sent;
      ok := OpenNext(r, delivered);
      if ok {
        assert NoneEmpty(before) && old(records) != [] ==> NoneEmpty(sent);
        assert oneAnswer && OneEach(before) ==> OneEach(sent);
      }
    }

    /** axfr_ec_finish() */
    method Finish(delivered: bool) returns (ok: bool)
      requires Valid()
      modifies this
      ensures ok == (old(records) == [] || delivered)
      ensures ok ==> Valid() && records == [] && RecordsOf(sent) == old(All())
      ensures ok && NoneEmpty(old(sent)) ==> NoneEmpty(sent)
      ensures ok && oneAnswer && OneEach(old(sent)) ==> OneEach(sent)
      ensures !ok ==> sent == old(sent)
      ensures ok && old(records) == [] ==> sent == old(sent)
      ensures ok && old(records) != [] ==> |sent| > 0 && sent[..|sent| - 1] == old(sent) && sent[|sent| - 1].records == old(records)
    {
      if records == [] { return true; }
      CountFits();
      ok := Flush(delivered);
      assert ok ==> sent[..|sent| - 1] == old(sent);
    }
  }

  /** The messages so far are full, and the one under way is within the limit and there because of the one before it. */
  ghost predicate AllFull(size: SizeOf, question: nat, sent: seq<Sent>, m: Zone) {
    && AsFullAsItGets(size, question, sent) && (m != [] ==> Filled(size, question, m) <= MESSAGE_LIMIT)
    && (sent != [] ==> m != [] && NoRoom(size, question, sent[|sent| - 1].records, m[0]))
  }

  lemma {:induction false} FullMore(size: SizeOf, question: nat, before: seq<Sent>, last: Sent)
    requires AllFull(size, question, before, last.records) && last.records != []
    ensures AsFullAsItGets(size, question, before + [last])
  {
    assert (before + [last])[..|before|] == before;
  }

  lemma {:induction false} StaysFull(
    size: SizeOf, question: nat, before: seq<Sent>, m: Zone, sent: seq<Sent>, records: Zone, r: RR)
    requires AllFull(size, question, before, m) && Filled(size, question, records) <= MESSAGE_LIMIT
    requires (sent == before && records == m + [r]) ||
      (|sent| > 0 && sent[..|sent| - 1] == before && sent[|sent| - 1].records == m && records == [r]
       && NoRoom(size, question, m, r))
    ensures AllFull(size, question, sent, records)
  {
    if sent != before {
      FilledMore(size, question, [], r);
      assert [] + [r] == [r];
      FullMore(size, question, before, sent[|sent| - 1]);
      assert sent == before + [sent[|sent| - 1]];
    }
  }

  lemma AllAssociates(sent: seq<Sent>, m: Zone, r: RR)
    ensures RecordsOf(sent) + (m + [r]) == (RecordsOf(sent) + m) + [r]
  {
  }

  /** What the emitter has made of some items: all are there, in order, in full messages. */
  ghost predicate Emitted(e: Emitter, items: Zone)
    reads e
  {
    && e.Valid() && e.All() == items && (items != [] ==> e.records != []) && NoneEmpty(e.sent)
    && (e.oneAnswer ==> OneEach(e.sent)) && (!e.oneAnswer ==> AllFull(e.size, e.question, e.sent, e.records))
  }

  /** One item more. */
  method EmitNext(e: Emitter, ghost items: Zone, r: RR, delivered: bool) returns (ok: bool)
    requires Emitted(e, items)
    modifies e
    ensures ok ==> Emitted(e, items + [r])
    ensures !ok && delivered ==> e.question + e.size([], r) > MESSAGE_LIMIT
    ensures RecordsOf(e.sent) <= items
  {
    ghost var before, m := e.sent, e.records;
    ok := e.EmitItem(r, delivered);
    if ok {
      e.WithinLimit();
      if !e.oneAnswer { StaysFull(e.size, e.question, before, m, e.sent, e.records, r); }
    }
  }

  /** The items one after the other. */
  method EmitEach(e: Emitter, items: Zone, lostAfter: nat) returns (ok: bool)
    requires Emitted(e, [])
    modifies e
    ensures ok ==> Emitted(e, items)
    ensures !ok ==> |items| >= lostAfter || exists i :: 0 <= i < |items| && e.question + e.size([], items[i]) > MESSAGE_LIMIT
    ensures RecordsOf(e.sent) <= items
  {
    var i := 0;
    while i < |items|
      invariant 0 <= i <= |items| && Emitted(e, items[..i])
    {
      ok := EmitNext(e, items[..i], items[i], i < lostAfter);
      if !ok { return false; }
      assert items[..i + 1] == items[..i] + [items[i]];
      i := i + 1;
    }
    assert items[..i] == items;
    return true;
  }

  lemma {:induction false} LastIsFull(size: SizeOf, question: nat, before: seq<Sent>, m: Zone, sent: seq<Sent>)
    requires AllFull(size, question, before, m)
    requires if m == [] then sent == before
      else |sent| > 0 && sent[..|sent| - 1] == before && sent[|sent| - 1].records == m
    ensures AsFullAsItGets(size, question, sent)
  {
    if m != [] {
      FullMore(size, question, before, sent[|sent| - 1]);
      assert sent == before + [sent[|sent| - 1]];
    }
  }

  /**
   * A whole answer.  When it completes, the messages hold exactly the records, in order, none of them is empty, each
   * ANCOUNT is right, the OPT is in the first one only, and with one-answer every message has one record, otherwise as
   * many as fit.  Whatever happens, what went out is a beginning of the answer.  It does not complete only when the
   * client is lost or some record does not fit a message of its own.
   */
  method EmitAll(items: Zone, size: SizeOf, question: nat, oneAnswer: bool, sendOpt: bool, lostAfter: nat)
    returns (ok: bool, sent: seq<Sent>)
    requires Plausible(size)
    ensures RecordsOf(sent) <= items
    ensures ok ==> RecordsOf(sent) == items && NoneEmpty(sent) && Framed(sent, sendOpt)
    ensures ok ==> if oneAnswer then OneEach(sent) else AsFullAsItGets(size, question, sent)
    ensures !ok ==> |items| >= lostAfter || exists i :: 0 <= i < |items| && question + size([], items[i]) > MESSAGE_LIMIT
  {
    var e := new Emitter(size, question, oneAnswer, sendOpt);
    ok := EmitEach(e, items, lostAfter);
    if !ok { return false, e.sent; }
    ghost var before, m := e.sent, e.records;
    ok := e.Finish(|items| < lostAfter);
    sent := e.sent;
    if ok && !oneAnswer { LastIsFull(size, question, before, m, sent); }
  }

  // ---- what the secondary receives ----

  /** The messages as the secondary parses them; the first carries the EXPIRE option when one is sent. */
  function Received(sent: seq<Sent>, expire: Option<nat>, extended: bool): seq<Message> {
    if sent == [] then []
    else
      var m := sent[|sent| - 1];
      Received(sent[..|sent| - 1], expire, extended)
      + [Message(true, Wire(m.records), if m.opt then expire else None, m.opt && extended)]
  }

  lemma ReceivedAt(sent: seq<Sent>, expire: Option<nat>, extended: bool)
    ensures |Received(sent, expire, extended)| == |sent|
    ensures forall i :: 0 <= i < |sent| ==>
      Received(sent, expire, extended)[i]
      == Message(true, Wire(sent[i].records), if sent[i].opt then expire else None, sent[i].opt && extended)
  {
    if sent != [] { ReceivedAt(sent[..|sent| - 1], expire, extended); }
  }

  lemma ConcatLast(msgs: seq<Message>, m: Message)
    ensures Concat(msgs + [m]) == Concat(msgs) + m.items
  {
    if msgs == [] {
      assert msgs + [m] == [m];
      assert Concat([m]) == m.items + Concat([m][1..]);
    } else {
      assert (msgs + [m])[1..] == msgs[1..] + [m];
      ConcatLast(msgs[1..], m);
    }
  }

  /** What was emitted is what arrives: the records in order, in messages the secondary can read. */
  lemma {:induction false} ReceivedIsEmitted(sent: seq<Sent>, sendOpt: bool, expire: Option<nat>, extended: bool)
    requires Framed(sent, sendOpt) && NoneEmpty(sent)
    ensures Sendable(Received(sent, expire, extended))
    ensures Concat(Received(sent, expire, extended)) == Wire(RecordsOf(sent))
    decreases |sent|
  {
    ReceivedAt(sent, expire, extended);
    if sent != [] {
      var front, m := sent[..|sent| - 1], sent[|sent| - 1];
      ReceivedIsEmitted(front, sendOpt, expire, extended);
      ConcatLast(Received(front, expire, extended), Received(sent, expire, extended)[|sent| - 1]);
      WireConcat(RecordsOf(front), m.records);
    }
  }
}
