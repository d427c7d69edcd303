/**
 * The secondary's reading of a zone transfer: what parse_xfr_packet() does to the session and to the records being
 * built, one answer record at a time.  This is the specification; the code, which keeps the records in an array that it
 * writes first and corrects afterwards, is in TransferSession.
 */
module TransferParser {
  import opened Serials
  import opened Records

  const CLASS_IN: nat := 1
  const SOA_SET_MAX: nat := 4096

  /** One record of an answer section, after parse_resource_record() and the unwrapping of an Extended AXFR record. */
  datatype Item =
    | Undecodable
      /** A state, definition or settings record: counted and not stored.  The loader's strict reading refuses some. */
    | Marker(refusedFromLoader: bool, overLimit: bool)
    | SoaSetMarker(wellFormed: bool, announced: nat)
      /** decoded: the RR inside could be rebuilt; otherwise rr is the stand-in the parser makes for it. */
    | Wrapped(decoded: bool, rr: RR, class_: nat)
    | Plain(rr: RR, class_: nat)

  /** One message; framed is false when the header or the question section cannot be read. */
  datatype Message = Message(framed: bool, items: seq<Item>, expireOption: Option<nat>, extended: bool)

  datatype Timers = Timers(refresh: nat, retry: nat, expire: nat)

  /** How many records were skipped, counted as extension records, or wrapped. */
  datatype Counts = Counts(outside: nat, extRecords: nat, extWrapped: nat)

  /** SOA_SET: the apex SOAs follow in the body, and the opening SOA is only the frame. */
  datatype SoaSet = NoSet | Announced(announced: nat, seen: nat, frame: Timers)

  datatype Options = Options(expire: Option<nat>, extended: bool)

  /** Why a transfer was refused, or that records followed its closing SOA. */
  datatype Marks = Marks(badSequence: bool, behind: bool, trailing: bool)

  /** The fields of axfr_session_t that the parser changes, and the records of the zone being built. */
  datatype State = State(
    records: Zone,
    finished: bool, ixfr: bool, deleting: bool,
    soaCount: nat, openOwner: Owner, openSerial: Serial, expectedSerial: Serial,
    marks: Marks, counts: Counts, soaSet: SoaSet, options: Options)

  /**
   * What does not change during a transfer: our serial (0 when we have no zone), the version we serve (which an
   * incremental transfer is applied to), and whether the messages come from the database loader.
   */
  datatype Env = Env(clientSerial: Serial, active: Option<Zone>, loader: bool)

  function Start(ixfr: bool): State {
    State([], false, ixfr, false, 0, Apex, 0, 0, Marks(false, false, false), Counts(0, 0, 0), NoSet, Options(None, false))
  }

  /** After one record: go on with the next, return success, or reject the transfer. */
  datatype Verdict = Next | Stop | Reject

  // ---- the two in-place edits of the record array ----

  /** The first record equal to rr up to its TTL, or |z|. */
  function MatchIndex(z: Zone, rr: RR): (k: nat)
    ensures k <= |z|
    ensures k < |z| ==> SameRecord(z[k], rr)
    ensures forall i :: 0 <= i < k ==> !SameRecord(z[i], rr)
  {
    if z == [] then 0
    else if SameRecord(z[0], rr) then 0
    else 1 + MatchIndex(z[1..], rr)
  }

  /** The last record takes the place of record k. */
  function TakeOut(z: Zone, k: nat): Zone
    requires k < |z|
  {
    z[k := z[|z| - 1]][..|z| - 1]
  }

  function Delete(z: Zone, rr: RR): Zone {
    var k := MatchIndex(z, rr);
    if k < |z| then TakeOut(z, k) else z
  }

  /** The newer SOA of a difference sequence takes the place of the first SOA at the apex, or is appended. */
  function ReplaceSoa(z: Zone, soa: RR): Zone {
    var k := ApexSoaIndex(z);
    if k < |z| then z[k := soa] else z + [soa]
  }

  // ---- one record ----

  function Step(env: Env, s: State, item: Item, only: bool, last: bool): (r: (State, Verdict))
    ensures r.0.options == s.options
  {
    match item
    case Undecodable => (s, Reject)
    case Marker(refused, over) => (CountExt(s), if over || (refused && env.loader) then Reject else Next)
    case SoaSetMarker(ok, n) => SoaSetStep(s, ok, n)
    case Wrapped(decoded, rr, c) =>
      var t := s.(counts := s.counts.(extWrapped := s.counts.extWrapped + 1));
      if env.loader && !decoded then (t, Reject)
      else RecordStep(env, t, rr, c, decoded && rr.IsSoa(), only, last)
    case Plain(rr, c) => RecordStep(env, s, rr, c, false, only, last)
  }

  /** The announcement of a SOA set, right after the opening SOA, which is then no longer a record of the zone. */
  function SoaSetStep(s: State, ok: bool, n: nat): (r: (State, Verdict))
    ensures r.0.options == s.options
  {
    if !ok || s.soaSet.Announced? || s.soaCount != 1 || |s.records| != 1 || !s.records[0].IsSoa() then (CountExt(s), Reject)
    else if n == 0 || n > SOA_SET_MAX then (CountExt(s), Reject)
    else
      var soa := s.records[0].rdata;
      (CountExt(s).(soaSet := Announced(n, 0, Timers(soa.refresh, soa.retry, soa.expire)), records := []), Next)
  }

  function CountExt(s: State): State {
    s.(counts := s.counts.(extRecords := s.counts.extRecords + 1))
  }

  function RecordStep(env: Env, s: State, rr: RR, c: nat, wrappedSoa: bool, only: bool, last: bool): (r: (State, Verdict))
    ensures r.0.options == s.options
  {
    if c != CLASS_IN then (s, Reject)
    else if rr.owner.Outside? then OutsideStep(s, rr)
    else if wrappedSoa && rr.IsSoa() && s.soaSet.Announced? then BodySoaStep(s, rr)
    else match rr.rdata
      case UndecodedSoa => (s, Reject)
      case Soa(_, _, _, _, _) => SoaStep(env, s.(soaCount := s.soaCount + 1), rr, only, last)
      case Other(_, _) => (DataStep(s, rr), Next)
  }

  /** A record outside the zone is not kept; a SOA there is a breach. */
  function OutsideStep(s: State, rr: RR): (r: (State, Verdict))
    ensures r.0.options == s.options
  {
    if !rr.rdata.Other? then (s, Reject) else (s.(counts := s.counts.(outside := s.counts.outside + 1)), Next)
  }

  /** An apex SOA of the body, when a SOA set was announced. */
  function BodySoaStep(s: State, rr: RR): (r: (State, Verdict))
    requires rr.IsSoa() && s.soaSet.Announced?
    ensures r.0.options == s.options
  {
    if rr.owner.Apex? && rr.rdata.serial == s.openSerial && s.soaSet.seen < s.soaSet.announced
    then (s.(soaSet := s.soaSet.(seen := s.soaSet.seen + 1), records := s.records + [rr]), Next)
    else (s, Reject)
  }

  /** A SOA; s.soaCount counts it already. */
  function SoaStep(env: Env, s: State, soa: RR, only: bool, last: bool): (r: (State, Verdict))
    requires soa.IsSoa()
    ensures r.0.options == s.options
  {
    if s.soaCount == 1 then OpeningSoa(env, s, soa, only)
    else if s.ixfr then DifferenceSoa(env, s, soa)
    else LaterSoa(s, soa, last)
  }

  function OpeningSoa(env: Env, s: State, soa: RR, only: bool): (r: (State, Verdict))
    requires soa.IsSoa()
    ensures r.0.options == s.options
  {
    var serial := soa.rdata.serial;
    var t := s.(openOwner := soa.owner, openSerial := serial);
    if (s.ixfr && only && serial == env.clientSerial) || (env.clientSerial != 0 && serial == env.clientSerial) then
      (t.(finished := true, records := []), Stop)
    else if env.clientSerial != 0 && !Newer(serial, env.clientSerial) then (t.(marks := t.marks.(behind := true)), Reject)
    else (t.(records := s.records + [soa]), Next)
  }

  /** A SOA of an incremental transfer after the opening one: it starts a deletion or an addition sequence, or ends the transfer. */
  function DifferenceSoa(env: Env, s: State, soa: RR): (r: (State, Verdict))
    requires soa.IsSoa()
    ensures r.0.options == s.options
  {
    var serial := soa.rdata.serial;
    if s.soaCount == 2 then
      if serial != env.clientSerial then (s.(marks := s.marks.(badSequence := true)), Reject)
      else if env.active.None? then (s.(records := []), Reject)
      else (s.(records := env.active.value, deleting := true), Next)
    else if s.deleting then
      (s.(deleting := false, expectedSerial := serial, records := ReplaceSoa(s.records, soa)), Next)
    else if serial == s.openSerial && s.expectedSerial == s.openSerial then (s.(finished := true), Next)
    else if serial != s.expectedSerial then (s.(marks := s.marks.(badSequence := true)), Reject)
    else (s.(deleting := true), Next)
  }

  /** A SOA of a full transfer after the opening one: the end of the transfer, or a record of the zone. */
  function LaterSoa(s: State, soa: RR, last: bool): (r: (State, Verdict))
    requires soa.IsSoa()
    ensures r.0.options == s.options
  {
    if s.openOwner == soa.owner && s.openSerial == soa.rdata.serial then
      if s.soaSet.Announced? && s.soaSet.seen != s.soaSet.announced then (s, Reject)
      else (s.(finished := true, marks := s.marks.(trailing := s.marks.trailing || !last)), Next)
    else (s.(records := s.records + [soa]), Next)
  }

  /** A first record that is not a SOA right after the opening SOA makes the transfer a full one. */
  function DataStep(s: State, rr: RR): State {
    var ixfr := s.ixfr && s.soaCount != 1;
    if ixfr && s.deleting then s.(records := Delete(s.records, rr))
    else s.(ixfr := ixfr, records := s.records + [rr])
  }

  // ---- one message, and a stream of messages ----

  /** The EDNS options of a message count only until the first SOA has been read. */
  function ReadOptions(s: State, m: Message): State {
    if s.soaCount != 0 then s
    else s.(options := Options(if m.expireOption.Some? then m.expireOption else s.options.expire,
                               s.options.extended || m.extended))
  }

  /** The records of a message from number i on; the flag is false when the transfer is rejected. */
  function ParseFrom(env: Env, s: State, items: seq<Item>, i: nat): (State, bool)
    requires i <= |items|
    decreases |items| - i
  {
    if i == |items| then (s, true)
    else
      var (t, v) := Step(env, s, items[i], |items| == 1, i == |items| - 1);
      match v
      case Next => ParseFrom(env, t, items, i + 1)
      case Stop => (t, true)
      case Reject => (t, false)
  }

  function ParseMessage(env: Env, s: State, m: Message): (State, bool)
  {
    if !m.framed then (s, false) else ParseFrom(env, ReadOptions(s, m), m.items, 0)
  }

  /** The messages in order, until the transfer is finished or rejected. */
  function ParseStream(env: Env, s: State, msgs: seq<Message>): (State, bool)
    decreases |msgs|
  {
    if msgs == [] || s.finished then (s, true)
    else
      var (t, ok) := ParseMessage(env, s, msgs[0]);
      if !ok then (t, false) else ParseStream(env, t, msgs[1..])
  }

  // ---- what the code has to do ----

  /** What the code got is what was specified; a refused transfer is thrown away with its records. */
  ghost predicate Did(spec: (State, Verdict), got: State, v: Verdict) {
    v == spec.1 && got.(records := spec.0.records) == spec.0 && (v != Reject ==> got.records == spec.0.records)
  }

  /** What is in the slot of an answer record; the data of a marker is not zone data. */
  function Slot(item: Item): RR {
    match item
    case Plain(rr, _) => rr
    case Wrapped(_, rr, _) => rr
    case _ => RR(Apex, 0, Other(0, []))
  }

  ghost predicate Parsed(spec: (State, bool), got: State, ok: bool) {
    ok == spec.1 && got.(records := spec.0.records) == spec.0 && (ok ==> got == spec.0)
  }

  lemma {:induction false} ParseOne(env: Env, s: State, items: seq<Item>, i: nat)
    requires i < |items|
    ensures var (t, v) := Step(env, s, items[i], |items| == 1, i == |items| - 1);
      ParseFrom(env, s, items, i) == if v == Next then ParseFrom(env, t, items, i + 1) else (t, v == Stop)
  {
  }
}
