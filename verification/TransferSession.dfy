/**
 * The code of the transfer parser: a session, and the record list it fills.  Every record is written into the list
 * before it is known what it is, and taken back when it is not one to keep.
 */
module TransferSession {
  import opened Serials
  import opened Records
  import opened TransferParser
  import opened RecordLists

  class Session {
    const list: RecordList
    var finished: bool
    var ixfr: bool
    var deleting: bool
    var soaCount: nat
    var openOwner: Owner
    var openSerial: Serial
    var expectedSerial: Serial
    var marks: Marks
    var counts: Counts
    var soaSet: SoaSet
    var options: Options

    function View(): State
      requires list.Valid()
      reads this, list, list.records
    {
      State(list.Contents(), finished, ixfr, deleting, soaCount, openOwner, openSerial, expectedSerial,
            marks, counts, soaSet, options)
    }

    constructor (ixfr: bool)
      ensures list.Valid() && View() == Start(ixfr) && fresh(list) && fresh(list.records)
    {
      list := new RecordList();
      this.ixfr, finished, deleting, soaCount := ixfr, false, false, 0;
      openOwner, openSerial, expectedSerial := Apex, 0, 0;
      marks, counts, soaSet, options := Marks(false, false, false), Counts(0, 0, 0), NoSet, Options(None, false);
    }

    /** The opening SOA; it is in the list already. */
    method TakeOpeningSoa(ghost s: State, env: Env, soa: RR, only: bool) returns (v: Verdict)
      requires list.Valid() && soa.IsSoa() && View() == s.(records := s.records + [soa])
      modifies this, list
      ensures list.Valid() && list.records == old(list.records) && Did(OpeningSoa(env, s, soa, only), View(), v)
    {
      var serial := soa.rdata.serial;
      openOwner, openSerial := soa.owner, serial;
      if ixfr && only && serial == env.clientSerial {
        finished := true;
        list.Clear();
        return Stop;
      }
      if env.clientSerial != 0 {
        if serial == env.clientSerial {
          finished := true;
          list.Clear();
          return Stop;
        }
        if !Newer(serial, env.clientSerial) {
          marks := marks.(behind := true);
          return Reject;
        }
      }
      return Next;
    }

    /** A later SOA of an incremental transfer. */
    method TakeDifferenceSoa(ghost s: State, env: Env, soa: RR) returns (v: Verdict)
      requires list.Valid() && soa.IsSoa() && View() == s.(records := s.records + [soa])
      modifies this, list, list.records
      ensures list.Valid() && (list.records == old(list.records) || fresh(list.records))
      ensures Did(DifferenceSoa(env, s, soa), View(), v)
    {
      var serial := soa.rdata.serial;
      if soaCount == 2 {
        if serial != env.clientSerial {
          marks := marks.(badSequence := true);
          return Reject;
        }
        if env.active.None? { return Reject; }
        list.Load(env.active.value);
        deleting := true;
      } else if deleting {
        deleting, expectedSerial := false, serial;
        list.SwapInLast();
      } else if serial == openSerial && expectedSerial == openSerial {
        finished := true;
        list.TakeBack();
      } else if serial != expectedSerial {
        marks := marks.(badSequence := true);
        return Reject;
      } else {
        deleting := true;
        list.TakeBack();
      }
      return Next;
    }

    /** A later SOA of a full transfer. */
    method TakeLaterSoa(ghost s: State, soa: RR, last: bool) returns (v: Verdict)
      requires list.Valid() && soa.IsSoa() && View() == s.(records := s.records + [soa])
      modifies this, list
      ensures list.Valid() && list.records == old(list.records) && Did(LaterSoa(s, soa, last), View(), v)
    {
      if openOwner == soa.owner && openSerial == soa.rdata.serial {
        if soaSet.Announced? && soaSet.seen != soaSet.announced { return Reject; }
        finished := true;
        list.TakeBack();
        if !last { marks := marks.(trailing := true); }
      }
      return Next;
    }

    method TakeSoa(ghost s: State, env: Env, soa: RR, only: bool, last: bool) returns (v: Verdict)
      requires list.Valid() && soa.IsSoa() && View() == s.(records := s.records + [soa])
      modifies this, list, list.records
      ensures list.Valid() && (list.records == old(list.records) || fresh(list.records))
      ensures Did(SoaStep(env, s.(soaCount := s.soaCount + 1), soa, only, last), View(), v)
    {
      soaCount := soaCount + 1;
      ghost var t := s.(soaCount := s.soaCount + 1);
      if soaCount == 1 {
        v := TakeOpeningSoa(t, env, soa, only);
      } else if ixfr {
        v := TakeDifferenceSoa(t, env, soa);
      } else {
        v := TakeLaterSoa(t, soa, last);
      }
    }

    /** A record that is no SOA. */
    method TakeData(ghost s: State, rr: RR)
      requires list.Valid() && View() == s.(records := s.records + [rr])
      modifies this, list, list.records
      ensures list.Valid() && list.records == old(list.records) && View() == DataStep(s, rr)
    {
      if soaCount == 1 && ixfr { ixfr := false; }
      if ixfr && deleting { list.DeleteNamedByLast(); }
    }

    /** A record outside the zone is not kept; a SOA there is a breach. */
    method SkipOutside(ghost s: State, rr: RR) returns (v: Verdict)
      requires list.Valid() && View() == s.(records := s.records + [rr])
      modifies this, list
      ensures list.Valid() && list.records == old(list.records)
      ensures Did(OutsideStep(s, rr), View(), v)
    {
      if !rr.rdata.Other? { return Reject; }
      list.TakeBack();
      counts := counts.(outside := counts.outside + 1);
      return Next;
    }

    method TakeRecord(ghost s: State, env: Env, rr: RR, c: nat, wrappedSoa: bool, only: bool, last: bool)
      returns (v: Verdict)
      requires list.Valid() && View() == s.(records := s.records + [rr])
      modifies this, list, list.records
      ensures list.Valid() && (list.records == old(list.records) || fresh(list.records))
      ensures Did(RecordStep(env, s, rr, c, wrappedSoa, only, last), View(), v)
    {
      if c != CLASS_IN { return Reject; }
      if rr.owner.Outside? {
        v := SkipOutside(s, rr);
      } else if wrappedSoa && rr.IsSoa() && soaSet.Announced? {
        v := TakeBodySoa(s, rr);
      } else if rr.rdata.UndecodedSoa? {
        v := Reject;
      } else if rr.IsSoa() {
        v := TakeSoa(s, env, rr, only, last);
      } else {
        TakeData(s, rr);
        v := Next;
      }
    }

    /** An apex SOA of the body, when a SOA set was announced. */
    method TakeBodySoa(ghost s: State, rr: RR) returns (v: Verdict)
      requires list.Valid() && View() == s.(records := s.records + [rr]) && rr.IsSoa() && soaSet.Announced?
      modifies `soaSet
      ensures Did(BodySoaStep(s, rr), View(), v)
    {
      if !rr.owner.Apex? || rr.rdata.serial != openSerial || soaSet.seen >= soaSet.announced { return Reject; }
      soaSet := soaSet.(seen := soaSet.seen + 1);
      return Next;
    }

    /** The announcement of a SOA set, right after the opening SOA, which it takes out of the list. */
    method TakeSoaSet(ok: bool, n: nat) returns (v: Verdict)
      requires list.Valid()
      modifies this, list
      ensures list.Valid() && list.records == old(list.records)
      ensures Did(SoaSetStep(old(View()), ok, n), View(), v)
    {
      counts := counts.(extRecords := counts.extRecords + 1);
      if !ok || soaSet.Announced? || soaCount != 1 || list.count != 1 || !list.records[0].IsSoa() { return Reject; }
      if n == 0 || n > SOA_SET_MAX { return Reject; }
      var soa := list.records[0].rdata;
      soaSet := Announced(n, 0, Timers(soa.refresh, soa.retry, soa.expire));
      list.Clear();
      return Next;
    }

    method TakeWrapped(ghost s: State, env: Env, decoded: bool, rr: RR, c: nat, only: bool, last: bool)
      returns (v: Verdict)
      requires list.Valid() && View() == s.(records := s.records + [rr])
      modifies this, list, list.records
      ensures list.Valid() && (list.records == old(list.records) || fresh(list.records))
      ensures Did(Step(env, s, Wrapped(decoded, rr, c), only, last), View(), v)
    {
      counts := counts.(extWrapped := counts.extWrapped + 1);
      if env.loader && !decoded { return Reject; }
      v := TakeRecord(s.(counts := counts), env, rr, c, decoded && rr.IsSoa(), only, last);
    }

    /** One answer record, once it is in the list. */
    method TakeStored(ghost s: State, env: Env, item: Item, only: bool, last: bool) returns (v: Verdict)
      requires list.Valid() && !item.Undecodable? && View() == s.(records := s.records + [Slot(item)])
      modifies this, list, list.records
      ensures list.Valid() && (list.records == old(list.records) || fresh(list.records))
      ensures Did(Step(env, s, item, only, last), View(), v)
    {
      match item
      case Marker(refused, over) => v := TakeMarker(s, env, refused, over);
      case SoaSetMarker(ok, n) =>
        list.TakeBack();
        v := TakeSoaSet(ok, n);
      case Wrapped(decoded, rr, c) => v := TakeWrapped(s, env, decoded, rr, c, only, last);
      case Plain(rr, c) => v := TakeRecord(s, env, rr, c, false, only, last);
    }

    method TakeMarker(ghost s: State, env: Env, refused: bool, over: bool) returns (v: Verdict)
      requires list.Valid() && list.count > 0
      requires View() == s.(records := View().records) && View().records[..list.count - 1] == s.records
      modifies this, list
      ensures list.Valid() && list.records == old(list.records)
      ensures View() == CountExt(s) && v == if over || (refused && env.loader) then Reject else Next
    {
      list.TakeBack();
      counts := counts.(extRecords := counts.extRecords + 1);
      v := if over || (refused && env.loader) then Reject else Next;
    }

    /** One answer record. */
    method TakeItem(env: Env, item: Item, only: bool, last: bool) returns (v: Verdict)
      requires list.Valid()
      modifies this, list, list.records
      ensures list.Valid() && (list.records == old(list.records) || fresh(list.records))
      ensures Did(Step(env, old(View()), item, only, last), View(), v)
    {
      if item.Undecodable? { return Reject; }
      ghost var s := View();
      list.Append(Slot(item));
      v := TakeStored(s, env, item, only, last);
    }

    /** The EDNS options of a message. */
    method TakeOptions(m: Message)
      requires list.Valid()
      modifies `options
      ensures View() == ReadOptions(old(View()), m)
    {
      if soaCount == 0 {
        if m.expireOption.Some? { options := options.(expire := m.expireOption); }
        if m.extended { options := options.(extended := true); }
      }
    }

    /** The records of a message. */
    method TakeItems(env: Env, items: seq<Item>) returns (ok: bool)
      requires list.Valid()
      modifies this, list, list.records
      ensures list.Valid() && (list.records == old(list.records) || fresh(list.records))
      ensures Parsed(ParseFrom(env, old(View()), items, 0), View(), ok)
    {
      ghost var whole := ParseFrom(env, View(), items, 0);
      var i := 0;
      while i < |items|
        invariant 0 <= i <= |items| && list.Valid() && (list.records == old(list.records) || fresh(list.records))
        invariant whole == ParseFrom(env, View(), items, i)
      {
        ParseOne(env, View(), items, i);
        var v := TakeItem(env, items[i], |items| == 1, i == |items| - 1);
        if v == Stop { return true; }
        if v == Reject { return false; }
        i := i + 1;
      }
      return true;
    }

    /** parse_xfr_packet(): 0 (ok) or -1. */
    method ParsePacket(env: Env, m: Message) returns (ok: bool)
      requires list.Valid()
      modifies this, list, list.records
      ensures list.Valid() && (list.records == old(list.records) || fresh(list.records))
      ensures Parsed(ParseMessage(env, old(View()), m), View(), ok)
    {
      if !m.framed { return false; }
      TakeOptions(m);
      ok := TakeItems(env, m.items);
    }
  }
}
