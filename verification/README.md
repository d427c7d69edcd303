# KariDNS: a model of its zone transfer, ALIAS and configuration logic

KariDNS is an authoritative DNS server. This project models the parts of it that are hardest to get right, and proves
what they promise for every input, every run or every interleaving:

- **Zone transfer** (`dns_axfr_ixfr.c`). The transfer parser as a function (`TransferParser`) and as the code that
  fills an array (`RecordLists`, `TransferSession`); exactly which streams it takes and what it makes of them
  (`TransferContent`, `FullTransfers`, `IncrementalTransfers`, `TransferOptions`); what it means to cut a stream into
  messages (`MessageCuts`); that no transfer takes a zone back (`TransferSafety`); the difference of two versions
  (`IxfrDiff`) and its application (`IxfrApply`); the reference-counted history of differences as a state machine
  (`IxfrPool`, `IxfrHistory`) and as the circular array of the code (`RingSlots`, `HistoryRing`); the choice of an
  answer (`IxfrAnswer`, `ChainChoice`); packing into messages (`Packing`); and the end-to-end theorems (`EndToEnd`,
  `TransferTheorems`, `CutTransfers`) with runs that show their conditions are needed (`TransferExamples`). The
  receiving loop with TSIG over the stream (`TransferReceiver`, with its buffers in `TsigStreams`), the install step
  (`TransferInstall`), both ends of a refresh together (`Replication`), the expire timer and what it does in a graph
  of secondaries (`Expiry`, `ExpiryGraph`, `ExpiryPaths`, `ExpiryRing`), the lock-free quota table under every
  interleaving (`Quota`, `QuotaProgress`), and the loader that shares the parser (`ZoneLoader`, `LoadedZones`).
- **ALIAS expansion** (`dns_alias.c`). Compressed names (`NameDecoding`), answers of resolvers (`AliasAnswer`), open
  addressing as a theory and as code (`OpenAddressing`, `Probing`), jobs, published table and scheduler (`AliasJobs`,
  `AliasPass`, `AliasKeys`, `AliasFairness`, `AliasOutcomes`, `AliasExpander`).
- **Configuration** (`dns_config_parser.c`). The zone index of a view (`ZoneIndex`), the resolution of address match
  lists (`AclExpansion`, `AclStates`, `AclResolution`), and server statements by longest prefix (`ServerPrefixes`).
- **The line protocol** of the database loader's check (`dns_db_checkproto.c`; `LineText`, `LineProtocol`).

`Serials` and `Records` hold what they share. Code that updates an object or a buffer is a class or a method here,
proved against a function of the state before; the theorems are about those functions.

`dafny verify dfyconfig.toml` checks the whole project.

## What the theorems rest on

- A record is its owner (the apex, below it, or outside), its TTL and its data. Record comparison is equality, with the
  TTL where a difference is computed and without it where a deletion is matched, as in the code.
- Published versions are well formed: one SOA, at the apex, and no two records that differ in the TTL alone. In a run of
  a primary no serial stands for two contents.
- TSIG verification, image building, the resolvers, the clock, memory and the readers of an old table are parameters:
  the theorems hold for whatever they do. Clocks do not run backwards.

## What the code does not promise

These came out of the proofs. Each has a lemma with a concrete input or run, and a theorem beside it that says exactly
when the promise is kept.

- A chain of differences is refused by the secondary when the serials are exactly half the space apart, and when the
  chain passes through the current serial before its end (`HalfTheSpaceRefused`, `OnceRoundRefused`). Exactly otherwise
  every cut of it into messages is taken with the current content (`TakenHoweverCut`); a cut of a chain through its own
  end that is taken brings the current records, some of them twice (`AcceptedIsCurrent`).
- The whole zone in answer to an IXFR request is refused when it is nothing but a SOA (`FullTransfer`).
- Records after the closing SOA are kept or not depending on the cut into messages (`TrailingRecordsDependOnTheCut`).
  `CutsDoNotMatter` is the exact condition.
- A transfer that is framed by a SOA below the apex can bring an older serial (`FrameBelowApexRollsBack`); `NoRollback`
  says exactly when it brings the opening one.
- The install step drops records that cannot be encoded. An apex SOA that is dropped leaves the old serial on the new
  records (`UnencodableSoaKeepsOldSerial`), and with a second apex SOA in the body the zone is taken back to that one's
  older serial (`UnencodableSoaRollsBack`). `TransfersMoveForward` is the exact condition.
- The EXPIRE value of section 4 of RFC 7314 is not reduced by the time an exchange takes. So the deadline can be later
  than the primary's last word plus SOA EXPIRE unless both clocks of every exchange read the same second, which an
  exchange of any length can fail to do (`PromiseNeedsNoDelay`). `DeadlinesBounded` says how late a secondary can be.
  All secondaries expire after some fixed time if and only if the clocks agree so or they keep to a refresh interval
  longer than n - 1 exchanges among n of them (`ExpiryThreshold`); in a ring that refreshes back to back they never do
  (`RingNeverExpires`). The code waits for the refresh interval, 300 seconds at least by default, unless a refresh is
  forced or several primaries are asked in one refresh.
- A deletion that ignores TTLs can take the twin of the record it names (`TwinDeletesTheOther`, `DeleteIsExact`).

## Model

| member | source | states |
|---|---|---|
| `Serials.NewerIsRfc1982` | dns_utils.c:597-599 | the signed 32-bit comparison of serials is "greater than" of section 3.2 of RFC 1982, in both directions |
| `Serials.NewerTrichotomy` | dns_axfr_ixfr.c:133 | any two serials are equal, ordered exactly one way, or exactly half the space apart, and then each side is behind the other |
| `Records.DistinctReordered` | dns_zone_parser.c:128-162 | that no record is in a zone twice does not depend on the order of the records |
| `RecordLists.RecordList.MakeRoom` | dns_axfr_ixfr.c:588-608 | the array of records grows and keeps its records in order |
| `RecordLists.RecordList.DeleteNamedByLast` | dns_axfr_ixfr.c:954-961 | the record written last names one to delete: in the array the first record with that owner, type and data goes, with the last record put in its place |
| `RecordLists.RecordList.SwapInLast` | dns_axfr_ixfr.c:914-925 | the SOA written last takes the place of the first SOA at the apex in the array, or stays where it is |
| `TransferSession.Session.TakeItem` | dns_axfr_ixfr.c:610-963 | one answer record, written into the array before it is known what it is and taken back when it is not kept, changes array and session as the specified step on values does |
| `TransferSession.Session.TakeItems` | dns_axfr_ixfr.c:588-965 | the record loop with its early exits is the fold of the record step |
| `TransferSession.Session.ParsePacket` | dns_axfr_ixfr.c:542-966 | array and session after a message, and whether it was accepted, are the specified function of those before |
| `MessageCuts.FlatSplits` | dns_axfr_ixfr.c:588-965 | reading a stream in two parts is reading it in one, unless the first part ends or refuses the transfer |
| `MessageCuts.StreamIsPrefix` | dns_axfr_ixfr.c:588-965 | every stream of messages is read up to the end of some message: the last one, or the one in which the transfer ends or is refused |
| `MessageCuts.StreamIsFlat` | dns_axfr_ixfr.c:588-965 | reading the messages of a transfer is reading their records in a row, if no record but the last ends it |
| `MessageCuts.CutsDoNotMatter` | dns_axfr_ixfr.c:588-965 | for every non-empty stream: all ways of cutting it into non-empty messages with the same options give the same result if and only if no record but the last one ends the transfer with the parser going on |
| `MessageCuts.TrailingRecordsDependOnTheCut` | dns_axfr_ixfr.c:588-965 | a concrete record after the closing SOA is kept in one cut and never read in another |
| `TransferSafety.StepSound` | dns_axfr_ixfr.c:610-963 | every record keeps the invariant that ties the stored SOA, the opening serial and our own serial together |
| `TransferSafety.ParseStreamSound` | dns_axfr_ixfr.c:542-966 | so does every stream of messages |
| `TransferSafety.NoRollback` | dns_axfr_ixfr.c:864-963 | whatever arrives: a transfer with records opened with a serial strictly newer than ours, if we have one, and one without has ours; the serial of its first apex SOA is the opening one if and only if a SOA set was announced, the first apex SOA of a full stream has the opening serial, or the newer SOA of the last difference is at the apex |
| `TransferSafety.ApexFrameIsSafe` | dns_axfr_ixfr.c:864-963 | so a full transfer whose opening SOA is the first one and at the apex is safe, whatever SOAs stand below it |
| `TransferSafety.FrameBelowApexRollsBack` | dns_axfr_ixfr.c:864-950 | a concrete stream framed by a SOA below the apex brings an older serial |
| `TransferContent.OutsideStaysOut` | dns_axfr_ixfr.c:820-845 | whatever messages arrive: if no record of the version we serve is outside the zone, no record of a transfer that is taken is; what was left out is counted, and every record read was of class IN |
| `TransferContent.FullTransferIsFilter` | dns_axfr_ixfr.c:820-963 | a full transfer that is taken without a SOA set, in answer to either request, holds the records of the zone that were read, in order, without repeats of the opening SOA; when nothing followed the closing one, that is all of them before it |
| `FullTransfers.StepJudged` | dns_axfr_ixfr.c:610-963 | in a full transfer every record is taken, refused, or says that we are up to date, exactly as the records before it decide, SOA sets, wrapped records and markers included; and array, counts, SOA set and end of the transfer are those of the records read |
| `FullTransfers.FullTransferExactly` | dns_axfr_ixfr.c:542-966 | so any stream of messages is taken if and only if its messages up to the closing record can be read and each record may come in its place, and then the zone is the records kept |
| `IncrementalTransfers.RefusedExactly` | dns_axfr_ixfr.c:893-940 | in an incremental transfer a SOA is refused as out of sequence if and only if its serial breaks the chain of old and new serials, and otherwise only when there is no version to apply differences to |
| `IncrementalTransfers.TakenIsChain` | dns_axfr_ixfr.c:893-963 | whatever messages arrive: a transfer that is taken as differences had a version to apply them to, and its SOAs showed a chain of serials from ours to the opening one |
| `TransferOptions.OptionsOfTransfer` | dns_axfr_ixfr.c:566-586 | the EXPIRE value and the extension of a transfer are those of the messages up to the one that brings the opening SOA, the later EXPIRE value first |
| `IxfrDiff.Collect` | dns_axfr_ixfr.c:260-269 | the collected records are exactly those the other version lacks, in file order, or nothing when they are over the cap |
| `IxfrDiff.ComputeDiff` | dns_axfr_ixfr.c:331-374 | when a difference is recorded and what it is, for every pair of versions |
| `IxfrDiff.DiffIsExact` | dns_axfr_ixfr.c:331-374 | old version minus deleted plus added is the new version, as multisets |
| `IxfrDiff.HalfHasItsSoa` | dns_axfr_ixfr.c:2477-2499 | each half of a difference of two well-formed versions has that version's SOA and no other one |
| `IxfrApply.DeleteContent` | dns_axfr_ixfr.c:954-961 | in a zone without repetitions a deletion takes out exactly the record it names, although it ignores TTLs |
| `IxfrApply.DeleteIsExact` | dns_axfr_ixfr.c:954-961 | in any list it does so if and only if the first record with that owner, type and data is that record |
| `IxfrApply.TwinDeletesTheOther` | dns_axfr_ixfr.c:954-961 | two records that differ in the TTL alone: the difference names one and the deletion takes the other |
| `IxfrApply.DeleteAllContent` | dns_axfr_ixfr.c:954-961 | all deletions of a difference together |
| `IxfrApply.TxnShape` | dns_axfr_ixfr.c:2477-2499 | a difference on the wire is old SOA, deletions, new SOA, additions, and these add up to the new version |
| `IxfrApply.TxnRead` | dns_axfr_ixfr.c:893-963 | the parser that serves the older version and reads a difference holds the newer version |
| `IxfrPool.ReleaseBalances` | dns_axfr_ixfr.c:277-279 | a release takes one claim off; the last one frees the difference once and takes its bytes off the counter |
| `IxfrPool.ReleaseAllBalances` | dns_axfr_ixfr.c:289-294 | so do the releases of a whole list |
| `IxfrPool.AcquireAllBalances` | dns_axfr_ixfr.c:2414-2421 | the references a response takes keep counts, claims and resident bytes in balance |
| `IxfrHistory.ApplyValid` | dns_axfr_ixfr.c:282-318 | each of store, depth change, reset, begin and end of a response keeps the history valid |
| `IxfrHistory.EveryRunValid` | dns_axfr_ixfr.c:376-397 | over every interleaving: what is in memory is what the ring or a response holds, each reference count is the number of holders, the resident-bytes counter is the sum over differences in memory, and nothing freed is in memory |
| `IxfrHistory.FreedExactlyOnce` | dns_axfr_ixfr.c:277-279 | over every interleaving a difference that was stored is in memory if and only if the ring or a response holds it, and has been freed exactly once if and only if none does; nothing else is ever freed |
| `IxfrHistory.RingIsNewest` | dns_axfr_ixfr.c:376-397 | the ring is always a suffix, in order, of everything ever stored |
| `IxfrHistory.StoresKeepNewest` | dns_axfr_ixfr.c:376-397 | stores alone keep exactly the newest differences up to the depth |
| `IxfrHistory.MemoryIsTheRing` | dns_axfr_ixfr.c:2561-2580 | when no response is in progress, what is in memory is exactly what is in the ring |
| `IxfrHistory.NothingLeaks` | dns_axfr_ixfr.c:313-318 | after every run whose responses have ended, a reset leaves memory empty and the counter 0, with everything ever stored freed exactly once |
| `RingSlots.SlotIsRemainder` | dns_axfr_ixfr.c:2393-2396 | the slot of the i-th difference is the remainder the code takes |
| `RingSlots.HoldsInstead` | dns_axfr_ixfr.c:384-395 | writing the slot at head of a full circular array drops the oldest element and keeps the others in order |
| `HistoryCode.HistoryRing.constructor` | dns_server_internal.h:361-363 | an empty history of the default depth |
| `HistoryCode.HistoryRing.CopyNewest` | dns_axfr_ixfr.c:282-294 | a resize copies the newest differences in order and releases the others |
| `HistoryCode.HistoryRing.Resize` | dns_axfr_ixfr.c:282-300 | the circular array after a resize represents the newest differences |
| `HistoryCode.HistoryRing.SetDepth` | dns_axfr_ixfr.c:302-311 | the code's depth change is the specified one |
| `HistoryCode.HistoryRing.Reset` | dns_axfr_ixfr.c:313-318 | the code's reset is the specified one |
| `HistoryCode.HistoryRing.Put` | dns_axfr_ixfr.c:384-397 | a new difference at head, the oldest one released when the ring is full |
| `HistoryCode.HistoryRing.Store` | dns_axfr_ixfr.c:376-397 | the code's store, growing the ring included, is the specified one |
| `HistoryCode.HistoryRing.Begin` | dns_axfr_ixfr.c:2414-2421 | a response takes a reference on each difference it sends |
| `HistoryCode.HistoryRing.End` | dns_axfr_ixfr.c:2561-2580 | a response that ends gives back exactly what it took |
| `IxfrAnswer.SelectChain` | dns_axfr_ixfr.c:2391-2443 | the loops over the ring give the specified chain; AnswerExactly says by positions in the ring which one that is |
| `IxfrAnswer.FollowSerials` | dns_axfr_ixfr.c:2404-2412 | the serial a run of differences ends at, if and only if it is continuous |
| `IxfrAnswer.HistoryIsTrue` | dns_axfr_ixfr.c:331-401 | in every run of the primary, every difference in the history is the difference of two versions published one after the other |
| `ChainChoice.AnswerExactly` | dns_axfr_ixfr.c:2386-2443 | for every ring and request: one SOA if and only if the client is not behind; differences if and only if some difference is the first from its serial, each later one starts where the one before ended, the last ends at the current serial and no half has two SOAs, and then exactly those from there on; the whole zone otherwise |
| `ChainChoice.HistoryServes` | dns_axfr_ixfr.c:331-401 | after every run of the primary and k further versions whose differences are recorded: a client that was current before them, and whose serial no other kept difference starts at, gets exactly the k differences in order if k is at most the depth, and the whole zone if it is more |
| `ChainChoice.NotRecorded` | dns_axfr_ixfr.c:331-374 | a version without a serial, not newer, or with more than 10000 changes leaves the history as it is |
| `ChainChoice.DepthKeepsNewest` | dns_axfr_ixfr.c:302-318 | after every run a depth from 0 to 32 keeps the newest differences up to it, and a reset none |
| `EndToEnd.ChainRead` | dns_axfr_ixfr.c:893-963 | a linked chain of differences takes the parser from the content before its first to the content after its last |
| `EndToEnd.DifferencesAccepted` | dns_axfr_ixfr.c:864-963 | a newer chain that does not pass through its own end is accepted and ends with exactly the new content |
| `EndToEnd.RevisitingRefused` | dns_axfr_ixfr.c:926-940 | a chain that passes through its own end is refused when it comes in one message |
| `Packing.Emitter.EmitItem` | dns_axfr_ixfr.c:1848-1903 | a record goes into the open message, or that one goes out and the record opens the next, which happens only when it does not fit or with one-answer |
| `Packing.Emitter.Finish` | dns_axfr_ixfr.c:2130-2157 | the last message goes out |
| `Packing.EmitAll` | dns_axfr_ixfr.c:1848-1903 | when an answer completes, the messages hold exactly the records in order, none is empty, each ANCOUNT is right, the OPT is in the first only, and each has one record with one-answer and otherwise as many as fit |
| `Packing.ReceivedIsEmitted` | dns_axfr_ixfr.c:2130-2157 | what was emitted is what arrives |
| `TransferTheorems.ContinuousIsLinked` | dns_axfr_ixfr.c:2404-2412 | where a serial stands for one content, continuous serials mean linked contents, so a gap never gives a chain |
| `TransferTheorems.IncrementalTransferAccepted` | dns_axfr_ixfr.c:2386-2505 | for every run of the primary and every secondary that serves one of its versions: a chain answer in one message is taken if and only if the current serial is newer and the chain does not pass through it before its end |
| `TransferTheorems.IncrementalTransferExact` | dns_axfr_ixfr.c:864-963 | and then, however it is cut into messages, the secondary ends finished with exactly the primary's current records and the EXPIRE option that was sent |
| `TransferTheorems.PackedTransferExact` | dns_axfr_ixfr.c:1848-1903 | the same for whatever messages the emitter packs |
| `CutTransfers.TakenHoweverCut` | dns_axfr_ixfr.c:2386-2505 | every way of cutting a chain answer into messages is taken with exactly the current content if and only if the current serial is newer and the chain does not pass through it before its end |
| `CutTransfers.AcceptedIsCurrent` | dns_axfr_ixfr.c:893-963 | without that condition too, a cut that is taken brings the current records and no others, some of them perhaps twice |
| `TransferTheorems.FullTransfer` | dns_axfr_ixfr.c:2506-2556 | a newer full transfer ends with the SOA and the other records in file order; in answer to an IXFR request it does so if and only if the zone has another record than its SOA |
| `CutTransfers.FullTransferHoweverCut` | dns_axfr_ixfr.c:2506-2556 | the same however it is cut into messages, with the EXPIRE option of the first |
| `CutTransfers.PackedFullTransfer` | dns_axfr_ixfr.c:1848-1903 | the same for whatever messages the emitter packs |
| `TransferTheorems.UpToDateAnswer` | dns_axfr_ixfr.c:2386-2388 | the one-SOA answer means up to date for the same serial and is refused by a secondary that is ahead |
| `TransferExamples.HalfTheSpaceRefused` | dns_axfr_ixfr.c:2386-2427 | a concrete run whose answer is refused because the serials are half the space apart |
| `TransferExamples.OnceRoundRefused` | dns_axfr_ixfr.c:2386-2427 | a concrete run once round the serial space, within the default depth, whose answer is refused |
| `TransferReceiver.CheckedIsAuthenticated` | dns_axfr_ixfr.c:1172-1229 | messages that pass the TSIG checks and leave nothing waiting fall into runs, each covered by one verification chained to the one before, with at most 99 unsigned messages in a row |
| `TransferReceiver.AuthenticatedIsChecked` | dns_axfr_ixfr.c:1172-1229 | and messages that fall into such runs pass the checks and leave nothing waiting |
| `TransferReceiver.KeyAddsAuthentication` | dns_axfr_ixfr.c:1172-1260 | with a key a transfer comes out exactly as without one if the messages it takes are so authenticated, and is lost otherwise |
| `TransferReceiver.CompletesExactly` | dns_axfr_ixfr.c:1117-1260 | a transfer completes with its last message if and only if the parser ends with it and not before, every header answers our request, octets and records stay within the limits, the extension is there if it was asked for, and with a key the stream is authenticated |
| `TransferReceiver.CompleteIsAuthenticated` | dns_axfr_ixfr.c:1104-1260 | with a key, every message of a transfer that completes is covered by a verification chained from the request MAC, the first one itself signed |
| `TransferReceiver.CompleteIsParsed` | dns_axfr_ixfr.c:1104-1260 | a complete transfer is what the parser makes of exactly the messages that were checked |
| `TransferInstall.Secondary.Install` | dns_axfr_ixfr.c:1261-1380 | the version goes in if and only if it is within the limits, no outbound transfer is under way and its image can be built; then serial, timers, deadline and records are, field by field, those of the transfer, and else the entry is as it was |
| `TransferInstall.Secondary.HandleTransfer` | dns_axfr_ixfr.c:1087-1380 | up to date if and only if a complete reception brought no records, transferred if and only if it brought some and they could be installed, failed otherwise; the entry after each, field by field |
| `TransferInstall.InstalledMeaning` | dns_axfr_ixfr.c:1261-1337 | the entry after an install: the records that can be encoded; serial and timers of the frame of a SOA set or of the first apex SOA that can be encoded, each timer held to its limits, and as before when there is none; the next check, the last success and the deadline |
| `TransferInstall.NotedMeaning` | dns_axfr_ixfr.c:1069-1085 | the entry after an up-to-date answer: version and serial stay, the timers are held to their limits, and the deadline is the later of the option and the running one, within SOA EXPIRE |
| `TsigStreams.TsigStream.Buffer` | dns_axfr_ixfr.c:1172-1229 | an unsigned message goes behind the ones before it in a buffer that grows |
| `TsigStreams.TsigStream.Check` | dns_axfr_ixfr.c:1172-1229 | verification over the MAC and message buffers of the loop is the specified check on values |
| `TransferInstall.TakeMessage` | dns_axfr_ixfr.c:1135-1259 | one message through size, header, TSIG buffers, record array and limits, in that order, is the specified round on values |
| `TransferInstall.ReceiveAll` | dns_axfr_ixfr.c:1117-1260 | the receiving loop is the specified one |
| `TransferInstall.TransfersMoveForward` | dns_axfr_ixfr.c:1276-1337 | whatever is received: an install opened with a serial newer than the entry's, and the entry gets that serial if and only if a SOA set was announced or the first apex SOA of the records that can be encoded has it |
| `TransferInstall.EncodableMovesForward` | dns_axfr_ixfr.c:1276-1337 | so it does whenever the transfer opens for the apex and the apex SOAs received can be encoded |
| `TransferInstall.UnencodableSoaKeepsOldSerial` | dns_axfr_ixfr.c:1276-1288 | a concrete received transfer whose apex SOA cannot be encoded installs its records under the old serial |
| `TransferInstall.UnencodableSoaRollsBack` | dns_axfr_ixfr.c:1276-1288 | and one with a second apex SOA in its body takes the entry back to an older serial |
| `Replication.ReplicaIsCurrent` | dns_axfr_ixfr.c:1087-1380 | both ends together: for every run of the primary, every secondary without the zone or with one of its versions, every answer, packing and part that arrives, an exchange that completes leaves an entry with the current serial and the current records, exactly as often as in the current version unless the chain passed through its own end |
| `Replication.ReplicaGetsCurrent` | dns_axfr_ixfr.c:1087-1380 | when the answer is one that is taken, headers and limits fit and with a key the stream is authenticated, the exchange completes with the last message and the entry has exactly the current serial and content |
| `Expiry.NewDeadlineMeaning` | dns_axfr_ixfr.c:973-981 | after a transfer exactly the option, up to SOA EXPIRE; after an up-to-date answer the later of that and the running timer, never more than SOA EXPIRE from now |
| `Expiry.OptionValueMeaning` | dns_server_internal.h:520-540 | the EXPIRE value of an answer is what SOA EXPIRE and the running deadline both allow, no more and no less |
| `ExpiryGraph.DeadlinesBounded` | dns_axfr_ixfr.c:1069-1085 | in every graph and order of exchanges that carry the option, cycles and overlapping exchanges included, no deadline is later than the primary's last word plus SOA EXPIRE plus the clock differences of all exchanges |
| `ExpiryGraph.AllExpire` | dns_axfr_ixfr.c:1069-1085 | when both clocks of every exchange read the same second, every secondary has expired SOA EXPIRE after the primary was last heard |
| `ExpiryPaths.WaitsGrow` | dns_axfr_ixfr.c:1079-1080 | along every path of exchanges, n of them among n secondaries wait for what n - 1 exchanges leave of a refresh interval |
| `ExpiryPaths.PacedAllExpire` | dns_axfr_ixfr.c:1079-1080 | n secondaries that wait for a refresh interval longer than n - 1 exchanges all expire a fixed time after the primary was last heard, in every graph and order |
| `ExpiryRing.RingNeverExpires` | dns_server_internal.h:520-540 | for every SOA EXPIRE, n secondaries in a ring whose refresh interval is not longer than that never come closer to their deadline |
| `ExpiryRing.ExpiryThreshold` | dns_axfr_ixfr.c:1079-1085 | so all expire after some fixed time, in every graph and order, if and only if the clocks agree or the refresh interval is longer than n - 1 exchanges |
| `ExpiryRing.PromiseNeedsNoDelay` | dns_axfr_ixfr.c:973-981 | in every graph and order all have expired SOA EXPIRE after the primary's last word, if and only if both clocks of every exchange read the same second |
| `Quota.EveryInterleaving` | dns_axfr_ixfr.c:43-106 | for every interleaving of loads and compare-and-swaps: no key has two slots, every counter is the number of holders counted in it, no counter is above the limit |
| `Quota.ReleaseReachesItsSlot` | dns_axfr_ixfr.c:77-106 | a release decrements exactly the counter its acquire incremented, or none when the table was full |
| `Quota.LimitHolds` | dns_axfr_ixfr.c:43-51 | at most the limit of threads hold a counted permission for one primary |
| `QuotaProgress.RefusedExactlyAtTheLimit` | dns_axfr_ixfr.c:43-51 | for every interleaving: a step refuses a request if and only if it has found its primary's slot and exactly the limit of permissions is held for that primary at that moment |
| `QuotaProgress.AloneDecides` | dns_axfr_ixfr.c:43-75 | from every reachable table a thread that is not disturbed is decided within as many steps as there are slots and five: refused exactly at the limit, counted in its primary's slot exactly below it, let through uncounted exactly when the table is full without its primary |
| `QuotaProgress.AloneAcquires` | dns_axfr_ixfr.c:43-75 | so is every acquire that is not disturbed, by what is held when it starts |
| `QuotaProgress.AloneReleases` | dns_axfr_ixfr.c:77-106 | a release that is not disturbed ends and takes one off the counter of its acquire and off no other |
| `ZoneLoader.FedAllCounts` | dns_db_install.c:60-83 | over all messages the builder took: records read are records stored, skipped, extension records, the closing SOA and the unstored frame of a SOA set |
| `ZoneLoader.CountIsExact` | dns_db_install.c:94-109 | the count check passes if and only if exactly the declared number of records was sent |
| `ZoneLoader.InstallsOnlyTheDeclared` | dns_db_install.c:94-133 | a zone is installed only then, and only if the last record of the last message is the closing SOA, at the apex and with the opening serial |
| `ZoneLoader.LoadBringsTheOpeningSerial` | dns_db_install.c:156-176 | the serial of a load that passes the checks is always the one it opened with |
| `LoadedZones.LoadsExactly` | dns_db_install.c:60-133 | the builder takes the messages and the count and framing checks pass if and only if every message can be read, every record may come in its place, nothing is outside the zone or of an extension the zone does not have, the closing SOA is the last record of all and what came was declared; the zone is then the records kept |
| `ZoneLoader.ZoneBuild.Feed` | dns_db_install.c:60-83 | one message fed to the builder extends what it has taken, or is refused exactly when the parser, the extension, owner or trailing rules say so |
| `ZoneLoader.ZoneBuild.CheckInstall` | dns_db_install.c:94-176 | the checks pass if and only if count, framing, SOA-set rules, an encodable apex SOA and the declared serial do, and then the serial is the opening one and the declared number of records was sent |
| `NameDecoding.DenotesUnique` | dns_alias.c:182-212 | an offset of a message has at most one name (section 4.1.4 of RFC 1035) |
| `NameDecoding.DecodesExactlyNames` | dns_alias.c:182-212 | the decoder gives labels if and only if they are the name at the offset and it has at most 255 octets; it ends on every packet |
| `NameDecoding.PktName` | dns_alias.c:182-212 | the loop decodes that name, in lower case, and gives the offset after it |
| `NameDecoding.WireNameValid` | dns_alias.c:152-165 | the length of the one uncompressed name at the start |
| `NameDecoding.WireLower` | dns_alias.c:167-177 | the octets in lower case, if and only if they are exactly one name |
| `NameDecoding.UncompressedAgree` | dns_alias.c:152-212 | on octets without pointers the two readers accept the same and give the same name |
| `AliasAnswer.ChaseIsChain` | dns_alias.c:289-314 | a chase that ends has followed a chain of CNAMEs of the answer to a name without one |
| `AliasAnswer.ChainIsChased` | dns_alias.c:289-314 | every such chain of at most 8 hops is found |
| `AliasAnswer.EightHopsAreFollowed` | dns_alias.c:289-314 | a chain of at most 8 hops from the target is followed to its end |
| `AliasAnswer.LoopNeverEnds` | dns_alias.c:289-314 | a chase that is in a CNAME loop never ends |
| `AliasAnswer.FindHop` | dns_alias.c:294-312 | the inner loop finds the first CNAME of the name, or a broken answer |
| `AliasAnswer.FollowChain` | dns_alias.c:289-314 | the outer loop is the chase of at most 8 hops |
| `AliasAnswer.CollectAddresses` | dns_alias.c:315-330 | the last loop keeps addresses and the least TTL |
| `AliasAnswer.KeptAreFirstDifferent` | dns_alias.c:315-330 | what it keeps is the first 32 different addresses of the name in order, and the least TTL of all of them |
| `AliasAnswer.LeastTtlIsLeast` | dns_alias.c:324 | that TTL is a lower bound and the TTL of one of the records |
| `AliasAnswer.ParseResponse` | dns_alias.c:261-335 | exactly when an answer is not ours, truncated, an error or usable, and what a usable one says |
| `AliasAnswer.UsableHasChain` | dns_alias.c:261-335 | a usable answer has its CNAME chain of at most 8 hops, at most 32 addresses of the last name, of 4 or 16 octets, and a TTL of at most a day, 30 when there is no address |
| `AliasAnswer.LoopIsNotUsable` | dns_alias.c:289-314 | an answer in which the target's CNAMEs form a loop is never usable |
| `OpenAddressing.Inserted` | dns_alias.c:530-534 | an item put into the first free slot from its home is reached, and so are all others |
| `OpenAddressing.NotThere` | dns_alias.c:538-545 | a probe that meets a free slot has passed every item of the key |
| `Probing.Insert` | dns_alias.c:579-582 | the probe for a free slot ends, and the item put there is reached |
| `Probing.Find` | dns_alias.c:538-545 | the probe for a key ends, at its item if and only if there is one |
| `Probing.Build` | dns_alias.c:522-536 | a table of all items of a list |
| `ZoneIndex.MatchIsSameKey` | dns_utils.h:92-98 | two names match if and only if they are the same in lower case without an unescaped last dot |
| `ZoneIndex.HashName` | dns_utils.h:103-113 | the hash of a name depends on that key alone |
| `ZoneIndex.ViewZones.Regrow` | dns_config_parser.c:559-573 | a grown table, filled in the order of the old slots, still finds every zone |
| `ZoneIndex.ViewZones.FindIndexed` | dns_config_parser.c:541-546 | the index finds what the search of the list finds |
| `ZoneIndex.ViewZones.FindZone` | dns_config_parser.c:583-590 | with or without an index, the first zone of the list that matches |
| `ZoneIndex.ViewZones.MakeRoom` | dns_config_parser.c:557-573 | 16 slots at first and then twice as many, at most half of them taken |
| `ZoneIndex.ViewZones.AddZone` | dns_config_parser.c:548-581 | a zone is added, or is a duplicate of the one the list search finds, or there is no room; no two zones match |
| `AliasJobs.ServedIsHonest` | dns_alias.c:462-478 | a hit has the resolvers' addresses; it is stale if and only if their TTL and the first 5 seconds are both over, and then has TTL 30; before that its TTL is what is left of theirs; no hit if and only if a day more has passed |
| `AliasJobs.BuiltAgrees` | dns_alias.c:641-682 | a table built now stores what the jobs hold, except what has expired |
| `AliasJobs.AgreeingServesTheSame` | dns_alias.c:452-479 | from then on such a table serves what the jobs hold |
| `AliasJobs.WantKeepsResults` | dns_alias.c:548-586 | wanting a target changes no answer |
| `AliasJobs.SweepKeepsResults` | dns_alias.c:588-597 | sweeping changes no answer unless a swept job had one |
| `AliasJobs.ScannedAreWished` | dns_alias.c:779-832 | after a scan no job is left whose target no zone has |
| `AliasJobs.WishedAreScanned` | dns_alias.c:779-832 | and every target has its job, if no wish was turned down |
| `AliasJobs.RoomForAll` | dns_alias.c:548-586 | no wish is turned down while there is memory and room for a job each |
| `AliasJobs.ScannedAreFresh` | dns_alias.c:548-586 | a target that was not there before gets a job for its resolvers, without an answer and due at once |
| `AliasJobs.ScannedKeepAnswers` | dns_alias.c:779-832 | a target that was there before keeps its answer and timing |
| `AliasPass.ComputeRetryDelay` | dns_alias.c:714-718 | the delay after f failures is min(320, 5 * 2^(f-1)) |
| `AliasPass.VisitFromKeeps` | dns_alias.c:720-761 | a pass keeps keys, sets and marks of all jobs, and their answers unless it reports a change |
| `AliasPass.AtMostTwenty` | dns_alias.c:722-732 | a pass asks 20 times at most |
| `AliasPass.FirstIsAsked` | dns_alias.c:724-732 | the job a pass starts with is asked when due, unless its resolvers rest |
| `AliasPass.EveryJobIsFirstOnce` | dns_alias.c:762 | n passes in a row over n jobs start with each job exactly once |
| `AliasFairness.EveryDueJobIsAsked` | dns_alias.c:720-762 | in n passes one after the other over n jobs, whatever the resolvers do: a job due at the first pass is asked in one of them, unless its own resolvers are resting when the pass comes that starts with it |
| `AliasFairness.AwakeJobIsAsked` | dns_alias.c:720-762 | so it is asked within n passes when its resolvers are not resting at the start of a pass |
| `AliasPass.RefreshedInTime` | dns_alias.c:738-746 | after an answer the target is asked again before the answer's time is over |
| `AliasOutcomes.PassSettles` | dns_alias.c:724-761 | in a pass, whatever the resolvers do: a job that is asked gets the answer and two thirds of its TTL to wait, or keeps what it has and waits 5 seconds after the first failure and twice as long, up to 320, after each further one, and silence makes its resolvers rest; a job that is not asked keeps answer and failures, and was not due, waits for a rest, or came after the 20 queries |
| `AliasOutcomes.OnlySilenceRests` | dns_alias.c:748-756 | a resolver set rests otherwise than before a pass only because a job of it met silence, until 10 seconds after |
| `AliasOutcomes.AnswersAreNews` | dns_alias.c:738-756 | the visits of a pass set the flag if and only if some job was answered |
| `AliasKeys.ServesTheJobs` | dns_alias.c:452-479 | a table that agrees serves exactly what the jobs hold, at every later time |
| `AliasKeys.PassKeepsJobs` | dns_alias.c:763-771 | a pass that reports no change, expiry included, leaves every answer alone |
| `AliasKeys.TableAgrees` | dns_alias.c:641-682 | a newly built table agrees with the jobs for every key |
| `AliasExpander.Expander.constructor` | dns_alias.c:879-890 | an expander without jobs and without a table |
| `AliasExpander.Expander.Rebuild` | dns_alias.c:522-536 | the job index holds every key and has the least size from 1024 on, doubling, that is more than twice the jobs |
| `AliasExpander.Expander.FindJob` | dns_alias.c:538-545 | the job of a key, if and only if it is in the list |
| `AliasExpander.Expander.AddJob` | dns_alias.c:572-582 | a new job in list and index, or neither |
| `AliasExpander.Expander.Want` | dns_alias.c:548-586 | one type of a target wanted: marked, added, or turned down; no key is in the list twice |
| `AliasExpander.Expander.Sweep` | dns_alias.c:588-609 | exactly the wanted jobs stay, or none when some go and there is no memory for the index; the flag is set if and only if an answer goes or all do |
| `AliasExpander.Expander.Scan` | dns_alias.c:779-832 | a scan gives the specified jobs, keeps index and table valid, and loses no change |
| `AliasExpander.Expander.Publish` | dns_alias.c:695-708 | the new table goes into service and the flag is cleared, unless there is no memory or an earlier table still has readers, and then nothing changes; which table waits for its readers afterwards |
| `AliasExpander.Expander.FindEntry` | dns_alias.c:452-461 | the search of the published table ends and finds the entry of the key |
| `AliasExpander.Expander.Lookup` | dns_alias.c:452-479 | a hit is the stored answer with the TTL and the staleness of its age; while no change waits, it is exactly what the jobs hold |
| `AliasExpander.Expander.VisitJobs` | dns_alias.c:724-761 | the loop over the jobs is the specified pass |
| `AliasExpander.Expander.RunPass` | dns_alias.c:720-773 | a pass leaves the specified jobs and loses no change; a table is published if and only if there was news, memory and no earlier table in the way, and then it is that of the jobs |
| `AclExpansion.ExpansionUnique` | dns_config_parser.c:907-961 | a list has at most one full expansion |
| `AclExpansion.CycleHasNoExpansion` | dns_config_parser.c:963-978 | a list that names an acl of a reference cycle has none |
| `AclExpansion.UnderNegation` | dns_config_parser.c:946-951 | under a negation every key counts as negated |
| `AclExpansion.FlagsAddUp` | dns_config_parser.c:938-955 | adding up the flags element by element gives those of the full expansion |
| `AclResolution.Resolver.ResolveList` | dns_config_parser.c:907-961 | a success gives the expansion with the right flags and depth on every list in it; a failure means there is no expansion within the depth |
| `AclResolution.Resolver.ResolveElem` | dns_config_parser.c:915-937 | one element, with its address or key: addresses, keys, names of acls, bare keys, nested lists |
| `AclResolution.Resolver.ResolveAcl` | dns_config_parser.c:963-978 | a resolved acl is used again, one in progress is a cycle |
| `AclResolution.Resolver.ResolveAcls` | dns_config_parser.c:1056-1059 | the acl blocks resolve if and only if each has an expansion of depth at most 32, and then all are done |
| `AclResolution.Resolver.ResolveTop` | dns_config_parser.c:980-990 | so does a list of the options, a view or a zone |
| `ServerPrefixes.MaskIsFirstBits` | dns_config_parser.c:4222 | the masked comparison of an octet compares its first bits |
| `ServerPrefixes.CheckPrefix` | dns_config_parser.c:4208-4214 | a prefix is refused if and only if it is too long or has bits set after its length |
| `ServerPrefixes.PrefixCovers` | dns_config_parser.c:4218-4224 | a prefix covers an address if and only if family and all its bits are the same |
| `ServerPrefixes.SamePrefix` | dns_config_parser.c:4212-4224 | two padded prefixes of one length that cover one address are the same |
| `ServerPrefixes.FirstIsLongest` | dns_config_parser.c:4226-4231 | in an ordered list the first that covers an address is longer than every other that does |
| `ServerPrefixes.ServerList.Add` | dns_config_parser.c:4525-4534 | a statement is refused if and only if its prefix is there already, and else inserted; the list stays ordered |
| `ServerPrefixes.ServerList.Find` | dns_config_parser.c:4226-4231 | the one longest prefix that covers the address, or none if none does |
| `LineText.RoundTrip` | dns_db_checkproto.c:7-53 | unescaping an escaped text gives it back, and a cut one gives back a prefix |
| `LineText.EscapedIsPrintable` | dns_db_checkproto.c:12-23 | escaped text has no control octet, TAB or line feed |
| `LineText.SplitUndoesJoin` | dns_db_checkproto.c:55-66 | splitting undoes joining for every list of fields without TABs, of at least one |
| `LineText.LineRoundTrip` | dns_db_checkproto.c:7-66 | any fields, escaped, joined, split and unescaped, come back |
| `LineProtocol.Escape` | dns_db_checkproto.c:7-28 | the buffer holds the escaped longest prefix that fits with the NUL, and says whether it was cut |
| `LineProtocol.Unescape` | dns_db_checkproto.c:30-53 | a text if and only if it is an escaped one and fits, and then exactly that |
| `LineProtocol.Split` | dns_db_checkproto.c:55-66 | the fields in place if and only if there is no other control octet and they are not too many |

## Left out

- TransferTheorems.IncrementalTransferAccepted: speaks of one message; CutTransfers.TakenHoweverCut is the theorem for every cut.
- ExpiryGraph.DeadlinesBounded: all secondaries read one clock, and every answer carries the EXPIRE option; clocks that differ, and secondaries that count from their last success, are not modelled.
- ZoneLoader.ZoneBuild.CheckInstall: which records can be encoded and the rules of a SOA set are parameters; building and publishing the image after the checks is not modelled.
- AliasFairness.EveryDueJobIsAsked: the passes come without a scan of the zones between them, which can change the list of jobs.
- AliasExpander.Expander.Scan: takes the list of wanted targets as given; walking the zone images and the cap of 1024 targets per zone are not modelled.
- AclResolution.Resolver.ResolveAcl: an acl is copied where the code shares it by reference; after a failure nothing is said, because the code stops reading the configuration then (it would take the failed acl as resolved).
- Memory that runs out is a parameter of the ALIAS jobs and tables and of the zone index; elsewhere it is left out, and so is the resident-bytes counter's floor at zero.
- The 32-bit counters of the quota table do not overflow in the model: they are at most the number of threads.
- The teardown of a history (ixfr_history_clear), which is valid only when no response is in progress.
- Extended transfers: tags, settings, per-client records and restricted SOAs; only what the record counts need is kept.
- The octets of messages and images: sizes and decoded records are given, except for the names and records of resolver answers.
- The fallback from one primary or resolver to the next, rate limits, time budgets, logging, sockets and threads.
- The grammar of the configuration file, the text of addresses and the zone statements whose name is missing.
- Hash functions other than the one of zone names: the tables work with any.
- Views, catalog zones, dynamic update, DNSSEC and query answering, which would add members of another kind.
