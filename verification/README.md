# viy: a verified model of the evidence layer

viy emulates the functions of an IDA database and records what it learns as
facts in an evidence ledger. This project models the part of viy that does not
touch IDA or the emulator: the ledger and its conflict engine, the canonical
codec and the persisted envelope, the two-slot commit protocol, the worker pool,
the deobfuscation classifiers, the lifecycle of evidence generations, the content
hash and strict UTF-8. Properties are proved over all inputs, all runs or all
reachable states.

`dafny verify dfyconfig.toml` checks the whole project. Every lemma carries
`{:induction false}`: its body is its proof.

## Main results

* **Contradiction.** A set of payloads can all be true of one program if and only
  if no two of them contradict (`SatisfiableExactly`). Both scans, the lazily
  built index and the gate find exactly the contradictions of comparing all pairs,
  emissions keep a satisfiable view satisfiable, and everything a plan acts on can
  be true together.
* **Persistence.** A blob is accepted if and only if it is the serialisation of a
  canonical ledger within the limits. However writes are interrupted, reading
  returns the last committed envelope; a read succeeds whenever a slot is intact.
* **Worker pool.** In every state of every run the accepted tickets are
  partitioned, each settles once, with the result its history allows and about the
  job submitted under it; jobs start and results come out in order.
* **Classifiers.** What constant propagation, entry predicates and dispatch
  recovery report is true on every concrete run, exactly under stated conditions,
  and what they should find they do report.
* **Lifecycle.** Evidence is active exactly while it is current; a generation that
  was left never becomes active again.

## How the model is built

* **Values.** Words are integers with an explicit width (`U64`, `U32`, ...); wrap
  around is written as a remainder. Text is a byte string. Payload kinds, facts,
  instructions and pool states are datatypes.
* **Objects.** `EvidenceStore`, `ConflictAccumulator`, `DeobfSink`,
  `EvidenceAdapter`, `EmulationWorkerPool`, `EvidenceGenerationAllocator`,
  `EvidenceSession`, `Writer` and `Reader` are classes whose methods update their
  fields in place and are proved against functions on values.
* **Digests.** SHA-256 is an arbitrary function `sha` from bytes to 32 bytes. No
  property needs it to be free of collisions.
* **Concurrency.** Each section the pool executes under its mutex is one atomic
  step; an executor returns anything at any time. A write to persistent storage is
  a sequence of steps, each of which may be the last before an interruption.
* **Machines.** Instructions act on arbitrary registers, flags and a stack top. A
  write of fewer than eight bytes leaves the bytes above them arbitrary.

| file | models |
|---|---|
| `Words`, `Orders`, `Bits` | words, byte strings, strict orders, sorted sets, binary digits |
| `Text` | `valid_utf8`, `append_utf8`, `decode_utf8_exact` |
| `Facts`, `Unicode`, `Validation` | facts, what normalisation and validation accept |
| `Wire`, `Buffers`, `EnumCodes`, `FactCodec`, `CanonicalOrder` | the canonical codec and the order of its keys |
| `Conflicts`, `Divergence`, `Worlds`, `ConflictScan`, `ContradictionScan` | the pairwise relation, what it reports and means, and its two bucketed scans |
| `Ledger`, `Store`, `Gate`, `ApplyPolicy` | the ledger, its lazily built contradiction index, the gate and the planner |
| `Envelope`, `EnvelopeFormat`, `SlotCommit`, `SlotReads`, `LostSlot` | the store envelope, the two-slot commit protocol, what reading delivers and disks whose second read loses a slot |
| `WorkerPool`, `PoolJobs`, `EmulationWorkers` | the pool as a state machine, where its results come from, and the object that refines it |
| `Flags`, `Instructions`, `ConstantFolding`, `ConstantBlocks`, `ConstantRuns`, `EntryPredicates`, `Dispatch` | the deobfuscation classifiers, sound against a concrete machine |
| `ConstantReports`, `PredicateReports`, `DispatchReports` | what the classifiers do report: completeness |
| `Lifecycle`, `SessionLaws` | generation allocation, the active view, sessions and what they keep active |
| `ContentHash`, `HashDetection`, `ProgramModel` | the content hash and what it detects, loaded byte runs and segment search |

## What turned out to be conditional

* **Constant propagation** does not always stay true. `ExactlyHandled` gives the
  exact condition for one instruction: it holds if and only if no tracked
  register is loaded from the stack, no tracked stack pointer or loop counter is
  moved by an instruction that does not name it, no copy is wider than its tracked
  source, and a replacement of digits 16 to 31 at more than four bytes meets a
  tracked value below 2^32. `PoppedTargetIsStale` is a concrete block whose
  reported jump target is wrong on a concrete run. `UniformHandled` gives a
  condition on the instructions alone, for blocks and for the instructions before
  an entry predicate (`UniformVerdictTrue`).
* **Push-return targets.** An immediate pushed without a width of one to eight
  bytes is reported as a return to address 0 (`UnsizedReturnReported`).
  `InformativeExactly` gives the exact condition on the instructions: in a handled
  block a reported target says anything of every run if and only if it is not that
  of a return reached in line, padding aside, from such a push.
  `UnsizedPushMisleads` is a concrete block and run where it does not.
* **Reading after a lost commit marker** is repeatable if and only if the facts
  of both slots together fit the decode limits (`ReadRepeatable`): the union is
  written without checking it against them. When it does not fit, a second read
  finds only slot B. `SecondReadForgets` builds such a disk at all limits that
  admit an envelope of just over half the observations they allow;
  `DefaultReadForgets` is the one at the limits every slot is decoded with,
  500,001 jumps in each slot.
* **Dispatch defaults.** A chain that stops at a compare of another register
  reports no default although control goes there: the mismatching block is marked
  visited first. `Sound` states exactly when a default is reported;
  `MixedDefaultMissing` is a concrete chain without one.

## Model

| member | source | states |
|---|---|---|
| `Text.ValidUtf8` | src/analysis_facts.cpp:371-418 | accepts a byte string if and only if it is the encoding of some sequence of Unicode scalars |
| `Text.ReadContinuations` | src/runtime_enrich_core.cpp:145-151 | succeeds exactly on continuation bytes and returns the code point their low six bits extend the lead to |
| `Text.DecodeTextScalar` | src/runtime_enrich_core.cpp:120-162 | recognises a position exactly when a text scalar's encoding starts there, and returns that scalar and its length |
| `Unicode.TextExactly` | src/runtime_enrich_core.cpp:44-60 | text scalars are exactly those that are neither control characters, private, nor reserved for no character |
| `Text.DecodeUtf8Exact` | src/runtime_enrich_core.cpp:110-173 | succeeds exactly on encodings of enough text scalars, returns those scalars, and everything it accepts passes the ledger's validator |
| `Text.ParseOfEncoding` | src/runtime_enrich_core.cpp:62-86 | parsing the encoding of any scalar sequence gives it back |
| `Text.EncodingOfParse` | src/runtime_enrich_core.cpp:110-173 | every byte string that parses is the encoding of what it parses to |
| `Text.EncodingInjective` | src/runtime_enrich_core.cpp:62-86 | different scalar sequences have different encodings |
| `Facts.ValidIsNormal` | src/analysis_facts.cpp:1226-1247 | a payload that validates is its own normal form, so normalisation is idempotent on what is stored |
| `Facts.ValidEvidenceIsNormal` | src/analysis_facts.cpp:1249-1256 | evidence that validates is its own normal form |
| `Facts.ValidFactIsNormal` | src/analysis_facts.cpp:1258-1265 | a fact that validates is its own normal form |
| `Validation.NormalizedExactly` | src/analysis_facts.cpp:1226-1265 | normalising sorts cases, call values and support without repetition, clears the inactive fields of a trait value, and changes nothing else |
| `Validation.NormalizeTwice` | src/analysis_facts.cpp:1226-1247 | normalising any payload twice is normalising it once |
| `Validation.PayloadExactly` | src/analysis_facts.cpp:1267-1411 | a payload is valid exactly when its bytes all have addresses, its text is an encoding of scalars, each known selector and each place of a call value occurs once and in order, ends come after starts, and a trait has a value of its kind |
| `Validation.EvidenceExactly` | src/analysis_facts.cpp:1413-1443 | evidence is valid exactly with a producer, a method, a confidence of at most 10000, a function range that is not empty, and ascending support |
| `Validation.FactExactly` | src/analysis_facts.cpp:1445-1464 | a fact is valid exactly when both parts are and an edge is called unreachable only by a static or symbolic proof, an import or the user |
| `Unicode.Utf16Exactly` | src/analysis_facts.cpp:436-459 | the UTF-16 validator accepts exactly the encodings of scalar sequences in the given byte order |
| `Unicode.CheckUtf16` | src/analysis_facts.cpp:436-459 | the loop accepts exactly the encodings of scalar sequences |
| `Unicode.Utf32Exactly` | src/analysis_facts.cpp:477-488 | the same for UTF-32 |
| `Unicode.CheckUtf32` | src/analysis_facts.cpp:477-488 | the loop accepts exactly the encodings of scalar sequences |
| `Orders.SortUniqueSpec` | src/analysis_facts.cpp:545-549 | sorting and removing equal neighbours yields a strictly ascending sequence of exactly the given elements |
| `Orders.AscendingUnique` | src/analysis_facts.cpp:1226-1256 | two strictly ascending sequences with the same elements are equal, so a normalised vector is determined by its set |
| `Wire.IntegersRoundTrip` | src/analysis_facts.cpp:62-86 | every integer, signed integer and boolean written in front of any bytes is read back and leaves those bytes |
| `Wire.BytesRoundTrip` | src/analysis_facts.cpp:88-104 | a length-prefixed string is read back exactly when the decode limit admits it |
| `Wire.OptionsRoundTrip` | src/analysis_facts.cpp:278-291 | optional integers are read back, present or absent |
| `Wire.TagRoundTrip` | src/analysis_facts.cpp:293-297 | a magic and version are recognised and leave the body |
| `Buffers.Writer.HighFirst` | src/analysis_facts.cpp:66-84 | appends the value's bytes, the highest first, by shifting |
| `Buffers.Writer.U64` | src/analysis_facts.cpp:80-84 | appends what the wire format writes for a 64-bit integer |
| `Buffers.Writer.I64` | src/analysis_facts.cpp:86-86 | appends the two's-complement bytes of a signed integer |
| `Buffers.Writer.Blob` | src/analysis_facts.cpp:88-104 | appends length and bytes, and refuses exactly the strings too long for a four-byte length, leaving the buffer alone |
| `Buffers.Reader.Raw` | src/analysis_facts.cpp:120-128 | returns the next bytes and advances past them, or fails when fewer remain |
| `Buffers.Reader.Boolean` | src/analysis_facts.cpp:148-157 | reads exactly what the wire format parses as a boolean |
| `Buffers.Reader.HighFirst` | src/analysis_facts.cpp:180-189 | accumulates an n-byte number, the highest byte first, or fails when truncated |
| `Buffers.Reader.I64` | src/analysis_facts.cpp:191-201 | reads exactly what the wire format parses as a signed integer |
| `Buffers.Reader.Blob` | src/analysis_facts.cpp:203-230 | reads exactly what the wire format parses as a string within the limit |
| `Buffers.Reader.Count` | src/analysis_facts.cpp:232-239 | reads a vector length within the configured item limit |
| `FactCodec.BodyRoundTrip` | src/analysis_facts.cpp:915-1093 | for each of the thirteen payload kinds the body is read back exactly when the limits admit its fields |
| `FactCodec.PayloadRoundTrip` | src/analysis_facts.cpp:1467-1510 | decoding an encoded payload gives it back if and only if it is within the limits, and otherwise nothing |
| `FactCodec.PayloadInjective` | src/analysis_facts.cpp:730-866 | different payloads have different canonical bytes, so byte-keyed deduplication never merges two |
| `FactCodec.EvidenceRoundTrip` | src/analysis_facts.cpp:1512-1570 | the same exact round trip for evidence |
| `FactCodec.EvidenceInjective` | src/analysis_facts.cpp:868-893 | different evidence has different canonical bytes |
| `FactCodec.FactRoundTrip` | src/analysis_facts.cpp:1572-1620 | a whole fact within the limits decodes to itself |
| `FactCodec.DecodedFactCanonical` | src/analysis_facts.cpp:1593-1620 | whatever decodes is valid and the input is exactly its canonical encoding |
| `FactCodec.DecodedFactFits` | src/analysis_facts.cpp:1593-1620 | whatever decodes is within the limits |
| `EnvelopeFormat.FieldsWithin` | src/analysis_facts.cpp:915-1093 | a payload's fields fit the decode limits exactly when its texts, raw contents and lists are each within their own limit |
| `EnvelopeFormat.EvidenceWithin` | src/analysis_facts.cpp:1512-1570 | the same for evidence |
| `CanonicalOrder.KindsInOrder` | src/analysis_facts.cpp:730-866 | byte order of keys puts payloads of different kinds in the order of the kinds, whatever they hold |
| `CanonicalOrder.AddressesInOrder` | src/analysis_facts.cpp:730-866 | within a kind it puts them in order of their leading address, then of the address after it |
| `Conflicts.ConflictLessTotal` | src/evidence_store.cpp:726-732 | the reporting order is a strict total order, so "least" and "sorted" are determined |
| `Conflicts.TypesInOrder` | src/evidence_store.cpp:726-732 | conflicts are ordered by type as declared, then by severity, the mildest first |
| `Conflicts.SubjectsInOrder` | src/evidence_store.cpp:726-732 | then by subject, second subject with none first, and the two identities |
| `Conflicts.SealSymmetric` | src/evidence_store.cpp:189-193 | a conflict's digests do not depend on the order of the pair |
| `Conflicts.ContradictsIsReported` | src/evidence_store.cpp:214-235 | a contradiction-only comparison reports something exactly on contradicting pairs |
| `Conflicts.IssuesShareBucket` | src/evidence_store.cpp:384-650 | payloads of any two kinds conflict only inside one bucket or as overlapping regions |
| `Conflicts.ContradictionsShareSubject` | src/evidence_store.cpp:746-767 | contradicting payloads that are not regions have the same index subject |
| `Conflicts.RegionIssuesSymmetric` | src/evidence_store.cpp:172-182 | comparing two regions in either order reports the same |
| `Worlds.EdgesClash` | src/evidence_store.cpp:166-170 | two claims about an edge contradict exactly when they have the same ends and one says reached, the other proven unreachable |
| `Worlds.TargetsClash` | src/evidence_store.cpp:388-401 | two targets contradict exactly when instruction and kind are the same, the targets differ and one is asserted to be the only one |
| `Worlds.RegionsClash` | src/evidence_store.cpp:172-182 | two regions contradict exactly when they share a byte that one calls code and the other data or padding |
| `Worlds.ReturnsClash` | src/evidence_store.cpp:503-579 | two statements about a function contradict exactly when one says it never returns and the other that it does or did |
| `Worlds.MapsClashExactly` | src/evidence_store.cpp:309-382 | two valid maps of a site contradict exactly when one is complete and they clash on a selector or the default, or a complete one misses a target of the other |
| `Worlds.SatisfiableExactly` | src/evidence_store.cpp:384-650 | any set of valid payloads can all be true of one program if and only if no two of them contradict: the pairwise relation decides joint consistency |
| `Worlds.ContradictionExactly` | src/evidence_store.cpp:384-650 | two valid payloads contradict exactly when no program makes both true, in either order |
| `Worlds.AloneSatisfiable` | src/evidence_store.cpp:384-650 | every valid payload can be true and none contradicts itself |
| `Divergence.MemoryVaries` | src/evidence_store.cpp:454-467 | values of one access vary exactly when they are not the same; type, severity and subjects |
| `Divergence.RegistersVary` | src/evidence_store.cpp:581-595 | the same for a register at one point |
| `Divergence.StringsCompete` | src/evidence_store.cpp:469-485 | two strings at one address are an ambiguity exactly when they are not the same |
| `Divergence.CandidatesCompete` | src/evidence_store.cpp:487-501 | two candidates are an ambiguity exactly when both ends are known and differ |
| `Divergence.OutcomesVary` | src/evidence_store.cpp:565-578 | outcomes of a function vary exactly when they are not the same |
| `Divergence.TraitsCompete` | src/evidence_store.cpp:503-535 | returning and never returning contradict, other traits of one kind compete except those a function has many of; the severity of each |
| `Divergence.ReturnRefutes` | src/evidence_store.cpp:536-564 | a concrete return contradicts a no-return trait in either order, and nothing else is reported |
| `Divergence.TargetsReported` | src/evidence_store.cpp:388-401 | type, severity and subject of contradicting targets, and silence otherwise |
| `Divergence.EdgesReported` | src/evidence_store.cpp:403-452 | type, severity and ends of contradicting edges, and silence otherwise |
| `Divergence.RegionsReported` | src/evidence_store.cpp:629-643 | the two subjects delimit exactly the shared bytes |
| `Divergence.MapsReported` | src/evidence_store.cpp:309-382 | maps are reported exactly when they clash or a complete one misses a target; a contradiction if one is complete, else an ambiguity |
| `Divergence.ValuesDifferExactly` | src/evidence_store.cpp:283-308 | the binary search finds every place where two valid lists hold different bytes |
| `Divergence.CallsReported` | src/evidence_store.cpp:597-627 | calls are reported exactly when something known to both differs; an ambiguity if it is the kind, else a variation |
| `Divergence.OthersSilent` | src/evidence_store.cpp:384-650 | payloads of any other two kinds report nothing |
| `ConflictScan.FindSelector` | src/evidence_store.cpp:309-345 | finds the target of the first case with a selector |
| `ConflictScan.ConflictAccumulator.CompareDispatchMaps` | src/evidence_store.cpp:309-382 | adds exactly the dispatch issues of the pairwise relation |
| `ConflictScan.ConflictAccumulator.Compare` | src/evidence_store.cpp:384-650 | adds exactly what the pairwise relation reports for the pair |
| `ConflictScan.Group` | src/evidence_store.cpp:1072-1101 | every record is in the bucket of its subject in canonical order, every region in the sweep list in sweep order |
| `ConflictScan.Sweep` | src/evidence_store.cpp:1123-1139 | compares exactly the pairs of regions that overlap |
| `ConflictScan.ComparedExact` | src/evidence_store.cpp:1103-1139 | bucket pairs and swept pairs together report exactly what all pairs report |
| `ConflictScan.DetectConflicts` | src/evidence_store.cpp:1044-1146 | the sorted, duplicate-free list of exactly the conflicts of comparing all pairs in canonical order |
| `ContradictionScan.DispatchMapsContradict` | src/evidence_store.cpp:247-281 | the separate test agrees with the pairwise relation on every two dispatch maps |
| `ContradictionScan.MarkFunction` | src/evidence_store.cpp:1249-1282 | marks only records of some contradicting pair and both of every contradicting pair of the bucket |
| `ContradictionScan.MarkSpans` | src/evidence_store.cpp:1300-1318 | the same for regions, although the sweep stops early |
| `ContradictionScan.ParticipantsAreReported` | src/evidence_store.cpp:1148-1320 | the digests of contradicting records are those of the contradictions in the full report |
| `ContradictionScan.ContradictedPayloadDigests` | src/evidence_store.cpp:1148-1320 | exactly the digests that occur in contradictions of the all-pairs relation |
| `Ledger.AddSpec` | src/evidence_store.cpp:797-838 | adding unions the normalised fact into the contents if it is valid, keeps keys and observations strictly sorted, and the disposition says which of the four cases it was |
| `Ledger.ContentsDetermineLedger` | src/evidence_store.cpp:797-838 | two ledgers with the same facts are equal, keys, records and observation order included |
| `Ledger.InsertionOrderIrrelevant` | src/evidence_store.cpp:797-838 | the ledger depends only on the set of normalised facts added |
| `Ledger.FlattenContents` | src/evidence_store.cpp:894-904 | flattening lists exactly the facts of the ledger |
| `Ledger.MergeSpec` | src/evidence_store.cpp:840-869 | merging unions the facts |
| `Ledger.MergeCommutes` | src/evidence_store.cpp:840-869 | merging is commutative |
| `Ledger.MergeAssociates` | src/evidence_store.cpp:840-869 | merging is associative |
| `Ledger.MergeIdempotent` | src/evidence_store.cpp:840-869 | merging facts already present changes nothing |
| `Store.IndexInsertExact` | src/evidence_store.cpp:769-779 | inserting a new record keeps the subject buckets, the region list and the largest region exact |
| `Store.OverlapInWindow` | src/evidence_store.cpp:1025-1035 | a region that overlaps starts inside the window given by the largest region seen |
| `Store.LeastContradictionSpec` | src/evidence_store.cpp:966-1042 | the specification: the least contradiction of a scan of all active records, present exactly when that scan finds one and the payload is not already active |
| `Store.EvidenceStore.Add` | src/evidence_store.cpp:797-838 | the ledger function's result, with an index that exists kept exact |
| `Store.EvidenceStore.BuildIndex` | src/evidence_store.cpp:994-1001 | builds an exact index of the records |
| `Store.EvidenceStore.RegionCandidates` | src/evidence_store.cpp:1025-1035 | every record that contradicts the region is among the candidates of the window |
| `Store.EvidenceStore.NewContradiction` | src/evidence_store.cpp:966-1042 | returns exactly the specified least contradiction, whether the index was built now or maintained through any additions |
| `Store.EvidenceStore.FlattenedFacts` | src/evidence_store.cpp:894-904 | returns the flattened ledger |
| `Store.EvidenceStore.Merge` | src/evidence_store.cpp:840-869 | merges the facts; the four counts sum to the facts offered and match the growth of records and contents; conflicts are counted on request |
| `Store.EvidenceStore.Conflicts` | src/evidence_store.cpp:1044-1146 | exactly the all-pairs conflicts of the stored records, sorted |
| `Store.EvidenceStore.ContradictedPayloads` | src/evidence_store.cpp:1148-1320 | exactly the digests in contradictions of the stored records |
| `Store.EvidenceStore.Clear` | src/evidence_store.cpp:871-875 | an empty ledger with a valid index state |
| `Gate.EmitKeepsPairs` | src/deobf_analysis_store.cpp:40-81 | one emission leaves the set of contradicting pairs among active payloads unchanged |
| `Gate.EmissionsKeepPairs` | src/deobf_analysis_store.cpp:40-81 | any sequence of emissions at one generation leaves it unchanged, so a contradiction-free view stays so |
| `Gate.EmitExactly` | src/deobf_analysis_store.cpp:40-81 | a valid fact is suppressed if and only if it is in view, its payload is not there yet and one that is contradicts it; every other valid fact is stored, and nothing else changes |
| `Gate.StaleAlwaysStored` | src/deobf_analysis_store.cpp:11-17 | a computed fact of another generation than the active one is always stored |
| `Gate.ViewSatisfiable` | src/deobf_analysis_store.cpp:52-60 | what is in view can be true of one program exactly when no two active payloads contradict |
| `Gate.EmissionsStaySatisfiable` | src/deobf_analysis_store.cpp:40-81 | a view that can be true of one program still can after any sequence of emissions |
| `Gate.ReportAccounts` | src/deobf_analysis_store.cpp:62-80 | over any sequence the report counts new records, new observations and invalid facts exactly, and every emission once |
| `Gate.DeobfSink.EmitFact` | src/deobf_analysis_store.cpp:40-81 | stores the normalised fact exactly when it is valid and not blocked, and nothing else; counts the outcome and keeps the contradicting pairs |
| `ApplyPolicy.ActionNeedsTrust` | src/evidence_apply_policy.cpp:47-129 | whatever the classification acts on is uncontradicted and carries the proof its kind demands |
| `ApplyPolicy.CorroboratedExactly` | src/evidence_store.cpp:705-724 | counting runs and producers of confident observations is finding two different runs at a confidence of at least 8000 |
| `ApplyPolicy.ClassifyExactly` | src/evidence_apply_policy.cpp:47-129 | every action is the one of its payload, and each reason to act or not holds exactly when it should: supported kind, configuration, trust with its thresholds, contradiction |
| `ApplyPolicy.SuppressedExactly` | src/evidence_apply_policy.cpp:155-170 | a record is suppressed exactly when it, or one with its digest, contradicts another record |
| `ApplyPolicy.ActionsSatisfiable` | src/evidence_apply_policy.cpp:152-175 | some program makes everything a plan acts on true |
| `ApplyPolicy.ActionableAgree` | src/evidence_apply_policy.cpp:152-175 | two records classified as actionable never contradict each other |
| `ApplyPolicy.PlanApplication` | src/evidence_apply_policy.cpp:152-175 | one decision per record in canonical order, with counters equal to the numbers of decisions of each kind; each is the right one for its record, no decision to act contradicts a record, and all of them can be true together |
| `ApplyPolicy.PlanIsContradictionFree` | src/evidence_apply_policy.cpp:152-175 | no two actions of a plan contradict each other |
| `Envelope.FlattenAscends` | src/evidence_store.cpp:894-904 | the flattened facts of a canonical ledger strictly increase |
| `Envelope.FactsRoundTrip` | src/evidence_store.cpp:1351-1424 | reading written facts back in order rebuilds the ledger |
| `Envelope.StoreRoundTrip` | src/evidence_store.cpp:1322-1424 | a store within the limits survives serialisation exactly |
| `Envelope.DeserializeExact` | src/evidence_store.cpp:1351-1424 | a blob is accepted if and only if it is the serialisation of a canonical ledger within the limits, and that ledger is returned |
| `Envelope.SerializationInjective` | src/evidence_store.cpp:1322-1349 | no two ledgers have the same serialisation, whatever the digest function |
| `Envelope.ReadableExactly` | src/evidence_store.cpp:1351-1424 | a store's serialisation is readable if and only if the store fits the limits |
| `Envelope.Serialize` | src/evidence_store.cpp:1322-1349 | the loop writes the specified envelope |
| `Envelope.Deserialize` | src/evidence_store.cpp:1351-1424 | the loop accepts and returns exactly what the specification does |
| `EnvelopeFormat.WrittenExactly` | src/evidence_store.cpp:1322-1349 | a ledger can be written exactly when it has fewer than 2^64 facts and each of them fits a four-byte length |
| `EnvelopeFormat.HeaderBytes` | src/evidence_store.cpp:1329-1333 | magic, version 1.0, the SHA-256 flag and the number of facts, byte by byte |
| `EnvelopeFormat.EnvelopeBytes` | src/evidence_store.cpp:1322-1349 | the envelope starts with them, states the number of facts and ends with the digest of all before it |
| `SlotCommit.LostMarkerUnion` | src/ida_evidence_store.cpp:112-151 | without a marker and with two intact slots, reading returns the envelope of the union of their facts |
| `SlotCommit.ReadRepeatable` | src/ida_evidence_store.cpp:92-190 | a second read agrees with the first if and only if the facts of a recovered union together fit the decode limits; otherwise it returns slot B |
| `SlotCommit.TooManyTogether` | src/ida_evidence_store.cpp:129-151 | two readable slots with more facts together than the limit: the first read returns their union, the second only slot B |
| `LostSlot.SecondReadForgets` | src/ida_evidence_store.cpp:129-151 | at all decode limits that admit a jump and an envelope of just over half the observations allowed, such a disk exists: two disjoint ledgers of that many jumps, each readable; the first read returns the jumps of both slots, the second only those of slot B |
| `LostSlot.DefaultReadForgets` | src/ida_evidence_store.cpp:103-151 | at the default limits, with which every slot is decoded, 500,001 jumps in each slot are such a disk |
| `LostSlot.EnvelopeSize` | src/evidence_store.cpp:1322-1349 | the envelope of a ledger of n facts as large as a jump takes 56 + 82 n bytes |
| `SlotCommit.StepSafe` | src/ida_evidence_store.cpp:192-250 | every step and every interruption keeps the marker on an intact, untouched slot |
| `SlotCommit.CommittedAlwaysRead` | src/ida_evidence_store.cpp:192-250 | after any run of writes, torn and interrupted anywhere, reading returns the last committed envelope |
| `SlotReads.ReadSucceedsExactly` | src/ida_evidence_store.cpp:92-190 | a read succeeds exactly when the root exists and some slot is intact, unless it would have to write a union of 2^64 facts, which no limit below 2^63 observations lets arise; a failed one changes nothing |
| `SlotReads.ReadDelivers` | src/ida_evidence_store.cpp:92-168 | a read delivers exactly the facts the disk stands for, and leaves the marker on a slot holding what it returned |
| `SlotReads.UnionWritable` | src/ida_evidence_store.cpp:129-151 | the union of two intact slots can be written exactly when it has fewer than 2^64 facts |
| `SlotReads.UninterruptedCommits` | src/ida_evidence_store.cpp:192-250 | from any disk the uninterrupted steps of a write commit the envelope, and reading returns it |
| `SlotCommit.EvidenceAdapter.ReadBlob` | src/ida_evidence_store.cpp:92-168 | reads and repairs as specified |
| `SlotCommit.EvidenceAdapter.WriteBlob` | src/ida_evidence_store.cpp:192-250 | succeeds exactly when staging, verification and marker succeed; the whole new disk in every case; success is read back exactly, failure leaves the committed envelope readable |
| `WorkerPool.Drain` | src/emulation_workers.cpp:187-198 | empties the queue and touches no worker, ticket, delivery or generation |
| `WorkerPool.DrainSpec` | src/emulation_workers.cpp:187-198 | draining gives exactly the queued tickets the requested outcome and keeps earlier results |
| `WorkerPool.StepKeepsPool` | src/emulation_workers.cpp:200-293 | every locked section keeps delivered prefix, buffered, queued and running tickets a partition, all counters equal to it, the limits, and queued jobs at the current generation |
| `WorkerPool.NextKeeps` | src/emulation_workers.cpp:174-185 | no step revises a settled result, and outputs only grow |
| `WorkerPool.EveryRun` | src/emulation_workers.cpp:154-333 | the invariant holds in every state of every run from construction on |
| `WorkerPool.SettlesOnce` | src/emulation_workers.cpp:174-185 | between any two states of a run a settled result stays the same and earlier outputs stay a prefix |
| `WorkerPool.InvObserved` | src/emulation_workers.cpp:375-467 | results come out in strict ticket order; the pool is idle exactly when every accepted ticket is settled; undelivered work is at most the queue limit plus the workers; submitted is settled plus unsettled |
| `WorkerPool.CancelledWhateverReturned` | src/emulation_workers.cpp:278-293 | a ticket unsettled at a cancellation or shutdown can only settle as cancelled, in every continuation; one settled before keeps its result |
| `WorkerPool.FinishLogsOutcome` | src/emulation_workers.cpp:265-292 | what is logged for a returned job: its ticket and function, the executor's status when its generation is current, a cancellation otherwise, and the runs |
| `WorkerPool.JoinedLeavesNothing` | src/emulation_workers.cpp:295-310 | once stopped with all threads gone no accepted ticket is unsettled |
| `PoolJobs.NewResults` | src/emulation_workers.cpp:174-293 | every result a step adds is exactly the one its origin says: unavailable, cancelled, or what the executor returned under a current generation, always about the function of the job |
| `PoolJobs.TicketsKeepJobs` | src/emulation_workers.cpp:246-292 | over every run the queued or running item of an accepted ticket holds the submitted job, and its result, logged or handed out, is about that job's function |
| `PoolJobs.EveryResultHasOrigin` | src/emulation_workers.cpp:174-293 | over every run each logged result was added by one step, whose origin it has |
| `PoolJobs.StartsInOrder` | src/emulation_workers.cpp:246-263 | over every run jobs start in the order of their submission |
| `PoolJobs.AcceptedExactly` | src/emulation_workers.cpp:375-415 | a submission is accepted if and only if the pool is not stopping, tickets are left and queue and undelivered work are below their limits; it then waits at the end of the queue or is turned away, and a refused one changes nothing |
| `PoolJobs.SizeKept` | src/emulation_workers.cpp:335-346 | over every run the pool keeps its queue limit and the workers asked for, at least one |
| `EmulationWorkers.EmulationWorkerPool.constructor` | src/emulation_workers.cpp:335-346 | starts in the initial state, which satisfies the invariant, with at least one worker requested |
| `EmulationWorkers.EmulationWorkerPool.SettleLocked` | src/emulation_workers.cpp:174-185 | records a ticket's first result only |
| `EmulationWorkers.EmulationWorkerPool.DrainQueuedLocked` | src/emulation_workers.cpp:187-198 | the loop takes the drain step |
| `EmulationWorkers.EmulationWorkerPool.CreateThread` | src/emulation_workers.cpp:343-345 | adds one initialising worker and returns its index |
| `EmulationWorkers.EmulationWorkerPool.FinishConstruction` | src/emulation_workers.cpp:340-346 | ends construction once every requested thread exists |
| `EmulationWorkers.EmulationWorkerPool.CreationGaveOut` | src/emulation_workers.cpp:347-367 | threads never created count as unavailable initialisations |
| `EmulationWorkers.EmulationWorkerPool.ReportReady` | src/emulation_workers.cpp:222-240 | takes the initialisation step, draining when no worker is left |
| `EmulationWorkers.EmulationWorkerPool.TakeJob` | src/emulation_workers.cpp:246-256 | hands out the oldest queued job, or lets the thread leave when stopping |
| `EmulationWorkers.EmulationWorkerPool.FinishJob` | src/emulation_workers.cpp:278-292 | takes the completion step and keeps the invariant; the whole result buffered for the ticket |
| `EmulationWorkers.EmulationWorkerPool.TrySubmit` | src/emulation_workers.cpp:375-415 | takes the submission step and keeps the invariant; a ticket is returned exactly when nothing refuses |
| `EmulationWorkers.EmulationWorkerPool.TryTakeNext` | src/emulation_workers.cpp:417-429 | returns the next ticket's result if it is buffered, and takes the delivery step |
| `EmulationWorkers.EmulationWorkerPool.TakeReady` | src/emulation_workers.cpp:450-467 | returns the longest consecutive run of results within the maximum, as that many delivery steps |
| `EmulationWorkers.EmulationWorkerPool.CancelPendingJobs` | src/emulation_workers.cpp:469-478 | takes the cancellation step and keeps the invariant |
| `EmulationWorkers.EmulationWorkerPool.StopLocked` | src/emulation_workers.cpp:295-306 | takes the shutdown step and keeps the invariant |
| `Flags.TruncationIsRemainder` | src/deobf_analysis_core.cpp:14-25 | masking to a width is the remainder modulo 256 to the width |
| `Flags.CompareFlagsMean` | src/deobf_analysis_core.cpp:245-262 | for widths 1 to 8 and all operands: carry is unsigned less, zero is equality, sign and parity are those of the wrapped difference, overflow says the signed difference does not fit |
| `Flags.ConditionsCompare` | src/deobf_analysis_core.cpp:281-305 | each comparison condition decides the unsigned or two's-complement comparison it is named after |
| `Flags.ConditionsOfDifference` | src/deobf_analysis_core.cpp:281-305 | the sign, overflow and parity conditions decide those of the wrapped difference |
| `Flags.ConditionsTest` | src/deobf_analysis_core.cpp:281-305 | what the conditions decide after a test |
| `Flags.TestFlagsMean` | src/deobf_analysis_core.cpp:264-279 | zero exactly when no digit within the width is shared, sign from the top digit, no carry or overflow |
| `Flags.PartnersNegate` | src/deobf_analysis_core.cpp:281-305 | conditions whose codes differ by exclusive-or with one decide opposite ways on all flags |
| `ConstantFolding.UpdateWellFormed` | src/deobf_analysis_core.cpp:90-226 | tracked registers stay real, of width 1 to 8, with truncated values |
| `ConstantFolding.FoldIsComputed` | src/deobf_analysis_core.cpp:140-209 | the folded value equals what the instruction computes on the full register, at the instruction's width |
| `ConstantFolding.StepSound` | src/deobf_analysis_core.cpp:108-226 | a handled instruction keeps the low bytes of every tracked register equal to its tracked value on every concrete step |
| `ConstantFolding.ExactlyHandled` | src/deobf_analysis_core.cpp:108-226 | an instruction keeps the tracking true of all machines if and only if it is handled |
| `ConstantFolding.UniformStep` | src/deobf_analysis_core.cpp:108-226 | an instruction of a uniform block is handled in every state that tracks only what the block may, and leads to such a state |
| `ConstantReports.TrackedExactly` | src/deobf_analysis_core.cpp:108-226 | exactly which registers are tracked after an instruction, and with which width, steps, provenance and support: every load, copy and supported arithmetic on a tracked register leaves its destination tracked |
| `ConstantBlocks.EnteringTrue` | src/deobf_analysis_core.cpp:826-935 | on every run through a block, joins and gaps included, what the analysis knows at an instruction is true there |
| `ConstantBlocks.AnalysisSound` | src/deobf_analysis_core.cpp:826-957 | on every run of a handled block each reported call, jump and push-return target of one to eight bytes is where control goes in those bytes, and each final assignment holds; if every pushed immediate has such a width, so has every reported target |
| `ConstantBlocks.TargetTrue` | src/deobf_analysis_core.cpp:845-913 | the same for the target of one instruction |
| `ConstantReports.IndirectReported` | src/deobf_analysis_core.cpp:845-874 | an indirect call or jump is reported exactly when it goes through a tracked register of matching width with enough steps, and as what is tracked |
| `ConstantReports.PushedImmediateReported` | src/deobf_analysis_core.cpp:876-913 | a pushed immediate that a return reaches through padding is always reported |
| `ConstantReports.PushedRegisterReported` | src/deobf_analysis_core.cpp:885-913 | a pushed tracked register that a return reaches through padding is reported as what is tracked |
| `ConstantReports.ChainReported` | src/deobf_analysis_core.cpp:826-928 | a constant loaded and then transformed in line is resolved, however long the chain |
| `ConstantRuns.InformativeExactly` | src/deobf_analysis_core.cpp:876-913 | in a handled block a reported target agrees with the destination in at least the low byte on every run if and only if it is not the target of a return reached in line, through padding only, from an immediate pushed without a width of one to eight bytes; equivalently, if and only if its reported width is one to eight bytes |
| `ConstantRuns.UnsizedReturnReported` | src/deobf_analysis_core.cpp:876-913 | such a return is always reported, whatever the minimum number of steps, and as a return to address 0 |
| `ConstantRuns.RunExists` | src/deobf_analysis_core.cpp:826-957 | every block has a concrete run, so statements about all runs are never empty |
| `ConstantRuns.UnsizedPushMisleads` | src/deobf_analysis_core.cpp:876-884 | an immediate pushed without a width and a return: every instruction is handled, the report says 0, the run goes to 7 |
| `ConstantBlocks.UniformHandled` | src/deobf_analysis_core.cpp:826-928 | a condition on the instructions alone: if those that can track a register share one width, at most four bytes where the high half is replaced, and no instruction loads such a register from the stack or moves it unnamed, the block is handled throughout |
| `ConstantBlocks.PoppedTargetIsStale` | src/deobf_analysis_core.cpp:222-225 | a register tracked across a pop makes the analysis report a target the run does not go to |
| `ConstantBlocks.ScanBlock` | src/deobf_analysis_core.cpp:826-928 | the loop reports exactly the specified targets in block order and ends in the specified state |
| `ConstantBlocks.SortTargets` | src/deobf_analysis_core.cpp:946-955 | an ordered permutation of the targets |
| `ConstantReports.TargetsInOrder` | src/deobf_analysis_core.cpp:946-955 | targets come by instruction, then target, then calls before jumps before returns |
| `ConstantBlocks.ListAssignments` | src/deobf_analysis_core.cpp:930-945 | exactly one assignment per tracked register, ascending |
| `ConstantReports.AssignmentsTell` | src/deobf_analysis_core.cpp:930-945 | each assignment tells what is tracked, dated by the last supporting instruction |
| `ConstantBlocks.AnalyzeConstantBlock` | src/deobf_analysis_core.cpp:826-957 | ordered targets that are a permutation of the specified ones, and the final assignments |
| `EntryPredicates.ScanTrue` | src/deobf_analysis_core.cpp:639-747 | on every handled straight-line run the known flags are the machine's flags, and unwritten flags are those at entry |
| `EntryPredicates.ClassifyEntryPredicate` | src/deobf_analysis_core.cpp:639-747 | returns the verdict of the first decisive branch reached in line within the window, and nothing exactly when there is none or its flags are unknown |
| `EntryPredicates.VerdictTrue` | src/deobf_analysis_core.cpp:671-701 | a constant outcome is the way the branch goes on every handled run that reaches it; an unspecified one reads exactly the entry flags |
| `EntryPredicates.UniformHandled` | src/deobf_analysis_core.cpp:639-747 | the condition on the instructions alone, for those before a branch: if they are uniform, each is handled with the constants the scan has there |
| `EntryPredicates.UniformVerdictTrue` | src/deobf_analysis_core.cpp:671-701 | a verdict is true on every straight-line run when the instructions before the branch are uniform |
| `PredicateReports.UnwrittenReported` | src/deobf_analysis_core.cpp:693-699 | a first branch on the caller's flags is always reported as such |
| `PredicateReports.ComparedReported` | src/deobf_analysis_core.cpp:671-742 | a first branch after a flag writer is reported if and only if the last one compares or tests a register tracked at that width |
| `PredicateReports.LineToBranch` | src/deobf_analysis_core.cpp:652-670 | the classified branch is conditional on known flags with a target, and the instructions before it lie one after the other within the window |
| `PredicateReports.LineIsClassified` | src/deobf_analysis_core.cpp:652-670 | conversely every such line leads to a classified branch |
| `PredicateReports.ChainDecides` | src/deobf_analysis_core.cpp:671-742 | a constant built in the entry block and compared decides the branch its flags reach |
| `Dispatch.ChainEnded` | src/deobf_analysis_core.cpp:1000-1016 | the chain follows the nodes from its start on one register and width; says exactly when the block after it counts as visited |
| `Dispatch.SelectorTargetsExact` | src/deobf_analysis_core.cpp:1023-1036 | the selector map exists exactly when no selector has two targets and then lists exactly the chain's pairs |
| `Dispatch.FollowAll` | src/deobf_analysis_core.cpp:1000-1016 | for every register contents, following the chain exits at a listed selector's target and otherwise arrives after the chain |
| `Dispatch.CandidateSound` | src/deobf_analysis_core.cpp:1023-1062 | a candidate's cases, listed by ascending selector, and its default are where control goes for every value, cycles and duplicates included; a default is reported exactly when stated |
| `Dispatch.FoundComplete` | src/deobf_analysis_core.cpp:994-1061 | a start with a candidate is reported unless a lower start already spoke for its site |
| `DispatchReports.CandidateExactly` | src/deobf_analysis_core.cpp:1018-1062 | a chain has a candidate if and only if it sends no value to two targets and compares with enough values; the candidate tells its cases, sites, default and loop |
| `DispatchReports.ChainRecovered` | src/deobf_analysis_core.cpp:959-1070 | every chain of enough unambiguous compares of one register and width that starts at a head is reported with exactly its cases, unless a lower block compares at the same site |
| `DispatchReports.ReportedExactly` | src/deobf_analysis_core.cpp:999-1063 | the candidates reported are exactly those of the starts that are first to speak for their site; a long enough chain speaks even without a candidate |
| `DispatchReports.NodesExactly` | src/deobf_analysis_core.cpp:970-978 | the node of a block is the first one parsed for it |
| `Dispatch.BuildNodes` | src/deobf_analysis_core.cpp:970-978 | the first parsed node of each block start |
| `Dispatch.FindStarts` | src/deobf_analysis_core.cpp:980-997 | exactly the nodes without a compatible predecessor, ascending, or the lowest node of a pure cycle |
| `Dispatch.GrowChain` | src/deobf_analysis_core.cpp:1000-1016 | the loop grows the specified chain |
| `Dispatch.CollectSelectors` | src/deobf_analysis_core.cpp:1023-1034 | the loop fails exactly on inconsistent chains and otherwise tabulates them |
| `Dispatch.ListedIsMapped` | src/deobf_analysis_core.cpp:1045-1046 | looking a value up in the listed cases gives exactly what the selector map holds |
| `Dispatch.BuildCandidate` | src/deobf_analysis_core.cpp:1018-1062 | the candidate of a chain, its cases by ascending selector, or none exactly when the chain is short, inconsistent or has too few selectors |
| `Dispatch.MixedDefaultMissing` | src/deobf_analysis_core.cpp:1004-1014 | a chain of two compares before one of another register: control arrives at the third block, the candidate reports no default |
| `Dispatch.OneBitPercent` | src/deobf_analysis_core.cpp:418-430 | the percentage, rounded down, that the one bits are of all selector bits; zero without any, never above one hundred |
| `Flags.OnesCount` | src/deobf_analysis_core.cpp:237-243 | the bit loops count the binary digits that are one |
| `Dispatch.FindDispatchCandidates` | src/deobf_analysis_core.cpp:959-1070 | every candidate is sound, sites strictly ascend, and the candidates are exactly those the starts give |
| `Lifecycle.EvidenceGenerationAllocator.Seed` | src/evidence_lifecycle.cpp:9-22 | every generation in the history is in use and the cursor is after the largest, or one |
| `Lifecycle.EvidenceGenerationAllocator.Allocate` | src/evidence_lifecycle.cpp:24-36 | terminates while an identity is free and returns the first unused one on the cycle from the cursor, never zero |
| `Lifecycle.View` | src/evidence_lifecycle.cpp:66-74 | a store with exactly the active facts of the history |
| `Lifecycle.NextForward` | src/viy.cpp:749-800 | any session step lets a function keep its generation or take one never used before |
| `Lifecycle.NeverAgain` | src/viy.cpp:749-800 | a used generation that a function is not on is never its generation again, nor the provider's once it has moved on |
| `Lifecycle.RetiredForever` | src/evidence_lifecycle.cpp:38-64 | once inactive, a computed observation of a used generation stays inactive for the rest of the session |
| `Lifecycle.RunInUse` | src/viy.cpp:737-800 | in every state of every session from a restored history, each function's generation and the provider's are in use |
| `Lifecycle.LeftForever` | src/evidence_lifecycle.cpp:38-64 | in every such session: once a function has moved off a generation or has gone, no computed observation of a per-function producer stamped with it for that function is active again |
| `Lifecycle.ScanLeftForever` | src/evidence_lifecycle.cpp:38-64 | the same for a complete provider once its scan has moved on |
| `Lifecycle.RestoredNeverActive` | src/evidence_lifecycle.cpp:38-64 | computed observations restored from earlier sessions are never active |
| `SessionLaws.ActiveExactly` | src/evidence_lifecycle.cpp:38-64 | in a session exactly the user's assertions and the facts stamped with the current generation of their scan or function are active |
| `SessionLaws.AssertionsAlwaysActive` | src/evidence_lifecycle.cpp:38-42 | a user's assertion is active in every state of every session |
| `SessionLaws.KeptExactly` | src/viy.cpp:749-779 | after a snapshot a function keeps its generation if and only if the image is the same and its bytes hash as before; otherwise it has one never used |
| `SessionLaws.ListedExactly` | src/viy.cpp:749-779 | exactly the listed functions have a generation |
| `SessionLaws.ChangeTogether` | src/viy.cpp:749-779 | functions that change in one snapshot share their new generation |
| `SessionLaws.StampedIsActive` | src/viy.cpp:749-779 | evidence stamped with the generation a snapshot hands out is active after it, and was not before if the function changed |
| `SessionLaws.StaleExactly` | src/viy.cpp:781-800 | a function is stale exactly when it is listed without a cached run of its fingerprint |
| `SessionLaws.MovedExactly` | src/viy.cpp:781-800 | exactly the stale functions move, to a generation never used |
| `SessionLaws.RescanExactly` | src/viy.cpp:987-988 | a provider scan ends every earlier scan, activates its own facts about the scanned functions and leaves other producers' facts as they were |
| `Lifecycle.EvidenceSession.AssignFunctionGenerations` | src/viy.cpp:749-779 | unchanged functions keep their generation, all changed ones share one unused before |
| `Lifecycle.EvidenceSession.AssignEmulationGenerations` | src/viy.cpp:781-800 | functions without a cached run of the same fingerprint move to one unused generation, the others stay |
| `Lifecycle.EvidenceSession.BeginProviderScan` | src/viy.cpp:987-988 | the provider scan gets an unused generation |
| `Lifecycle.EvidenceSession.ActiveEvidenceView` | src/viy.cpp:818-826 | exactly the facts active under the session's generations |
| `ContentHash.ZeroRun` | src/program_model_core.cpp:172-178 | a run of n zero bytes multiplies the hash by the prime to the n, modulo 2^64 |
| `ContentHash.MultiplyPower` | src/program_model_core.cpp:193-201 | squaring once per exponent bit multiplies by the full power modulo 2^64 |
| `ContentHash.SkipZeroWords` | src/program_model_core.cpp:183-193 | ends a whole number of words later, after zero bytes only, and no further zero word follows |
| `ContentHash.HashBytes` | src/program_model_core.cpp:172-212 | equals hashing one byte at a time for every starting hash and byte vector |
| `HashDetection.OneByteDetected` | src/program_model_core.cpp:155-162 | changing any one byte of an image changes its hash, from every starting hash |
| `ProgramModel.LoadedView` | src/program_model_core.cpp:36-65 | the longest run of loaded bytes from the address that segment, stored bytes and maximum allow |
| `ProgramModel.SegmentAt` | src/program_model_core.cpp:91-110 | the one segment that contains the address, or none when none does |

## Left out

- SHA-256: any function from bytes to 32 bytes stands for it.
- Diagnostic texts of rejected inputs, scan statistics and the caching of digests: outcomes are modelled, messages and counters of work are not.
- Enumeration values outside their ranges: payload kinds are datatypes, so the range checks of the encoder have nothing to reject; the decoder's range checks are modelled.
- Composite encoders and decoders of the codec are functions that write in front of, and read off, the remaining bytes; update of one buffer in place is modelled for the primitives of `Writer` and `Reader` only.
- The nine bucket maps of the full scan are one map with tagged keys; the order in which buckets are visited is arbitrary.
- `latest_generation_view` and `summarize_support`: small folds over one record that no modelled property needs.
- The wording of conflict explanations: copied, with nothing stated about it.
- The numbers of enumeration values on the wire: as declared; only the order of payload kinds is stated.
- SlotCommit.EvidenceAdapter.ReadBlob: does not model the migration of the former same-node layout, nor a repair that storage refuses, because both are outside the commit protocol.
- Erasing the persisted envelope.
- Condition-variable wakeups, timeouts and progress of the pool: only changes of the locked state. The cancellation generation does not wrap.
- Names of registers in candidates: labels copied from the instruction.
- Block semantics inside `parse_dispatch_node`: the dispatch model starts from parsed nodes.
- Loop-counting branches change only the counter register named by the conventions of the machine. An instruction of kind `Other` with a destination may change every register, one without a destination none: a push of a memory operand, which the adapter leaves at that kind without a destination although it moves the stack pointer (src/deobf_analysis.cpp:416-432), is outside the machine.
- Get-program-counter gadgets, wrapper and jump-gap classifiers: address sums without wrap-around and short case tables.
- Emulation job fingerprints and the cache of runs: the values compared are arguments.
- `hash_chunk_bytes` and the per-function hashes built from `hash_bytes`.
- The IDA adapters, the emulation engine, configuration and user interface.
