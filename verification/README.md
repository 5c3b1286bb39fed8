# Saci verification project

A Dafny model of the parts of Saci whose behaviour is hardest to see from one
function at a time, with proofs of what they promise. `dafny verify dfyconfig.toml`
checks all of it.

## What is modelled

**Configuration language.** `Placeholders` is the scanner of `${name}` and
`${name:-default}` and the printer that inverts it. `Variables` is the recursive
expander with its cycle stack; its meaning is a set of equations between declared
names, and the expander is shown to compute their only solution. `KdlMapping` is
the schema-blind mapping of KDL nodes to tables, stated rule by rule, and
`KdlErrors` says which error a document is refused with. The process environment
is a fixed map and KDL is a datatype of nodes.

**In-memory channel.** `ChannelBridge` is the registry that pairs a sink with a
source by name, together with every channel it creates; `Step` is one call against
that world, and `ChannelPairing` says what it answers in terms of the calls made
before. `ChannelBacklog` splits a write and a backlog query into their atomic
steps, and lets the receiver act between any two; `ChannelCapacity` is what a sink
can always do. `ChannelRuns` joins them: any registry calls on any names,
interleaved with the atomic steps of every sink and source handed out. `Records`
holds the batches they carry.

**Go processor SDK.** `Components` is the canonical component list and its
fingerprint, `FingerprintText` that fingerprint from its definition, `HashedNames`
what the hashed bytes say about the names in it, `Fnv` the hash under it,
`Columns` the two transpositions, `Processor` the batch executor with its
decode-once cache and its writer, `BatchRows` what a batch does to each row and
when it fails, `StreamWriter` what that writer makes of whole streams, and
`FusedExecution` the comparison of the executor with one processor per system. The
Arrow codec is a parameter: what is assumed of it (`Columns.Lawful`) is that an
encoded component reads back under its own name with its own columns;
`SampleCodec` is a small one that does.

**Integrity run.** `IntegrityPublisher` is the publish loop over any sequence of
random draws, with the positive clock step its argument check demands;
`IntegrityRecords` every record a run leaves, as a formula over the draws;
`IntegrityVerifier` the accounting of window bodies that may arrive again in any
order, with the final check of every closed window; `IntegrityCheck` that check in
plain sums for any bodies; `IntegrityEmissions` what that check can tell about the
numbered emissions behind the bodies; and `IntegrityRun` the publisher's records
put through it.

**Wire framing.** `ByteStrings` holds little-endian words, `Messages` the parser
of the Arrow messages in one segment, `MessageLayout` a writer of such segments
and what is parsed of them, `Framing` the parser of a stream into segments and the
splice of one segment's body.

**Smaller codecs.** `SearchPage` is the tag-driven reader of the documentation
site's search index, `SearchTags` what each element does to a page, `Quoting` the
ClickHouse identifier and literal quoting, `Base64` the schema encoder of the
polyglot example.

Loops, fields and buffers of the program are methods, classes and arrays here,
each proved equal to a specification function; the laws are lemmas about those
functions. `Wrappers` holds the option and result types, `Sequences` facts about
concatenation, `IntegrityClock` the start of simulated time.

## Where the code and its documentation differ

The model follows the code.

- `one_or_many` is documented to undo the collapse of siblings
  (crates/saci-config/src/lib.rs:120-124). It does so exactly when there is not
  one single sibling that is itself an array, that is, not one node of nothing
  but two arguments or more: `KdlMapping.SiblingsReadBackExactly`, with such a
  node in `KdlMapping.OneListReadAsTwo`.
- `RunBatch` is documented to forward untouched segments and re-encode the
  others (packages/saci-sdk-go/saci.go:198-202). The writer also moves the
  `__alive` segment to the end and makes one up when there is none, so the order
  of segments is kept exactly when `__alive` was last and no label repeats:
  `FusedExecution.OrderKeptExactly`, with a batch that reorders in
  `SampleCodec.LivenessMoves`.
- When a stream repeats a name, a system reads the first copy while the writer
  keeps the last copied one, so the one batch and one processor per system can
  write different streams, both succeeding: `SampleCodec.RepeatedNamePartsWays`,
  and `FusedExecution.OneMoreAgreesExactly` for when they agree.
- A component used through two Go row types makes `RunBatch` fail although the
  same systems, run one processor each, can succeed:
  `FusedExecution.FusedEqualsChained`, with a batch in
  `SampleCodec.TwoRowTypesPartWays`.
- `fingerprint` is the value by which the host refuses a processor that disagrees
  about the component list (packages/saci-sdk-go/schema.go:156-163). It hashes
  names without separators, so what it sees of plain names is exactly the first
  component's name and, after each version, the field names run together with
  the next component's name: `HashedNames.SameBytesExactly`. Lists that differ
  only in where one of those names ends share their fingerprint. Adding a field
  does change what is hashed, as documented: `HashedNames.AddedFieldLengthens`.
- The identity of a window body is said to separate a retry from a genuine
  second firing (examples/integrity/integrity_check.rs:783-786). Two genuine
  emissions with equal content are taken for a retry, and the group is then
  reported although everything arrived:
  `IntegrityEmissions.FlaggedExactlyByEmission`, with two orders in
  `IntegrityEmissions.TwinOrdersAreFlagged`.
- `replace_segment` keeps the low 32 bits of the new length. An empty body, or
  one whose length is a multiple of 2^32, becomes a terminator and cuts the
  stream there: `Framing.EmptySpliceTruncates`.
- `quote_identifier` doubles backticks and leaves backslashes alone. Where
  backslash escapes are read inside backticks, a name that ends in a backslash, or
  holds one before a backslash or a backtick, is not read back:
  `Quoting.EscapedReadBackExactly`.
- The search reader clears its heading and title flags at the first end tag of
  that name, so text after a heading inside a heading, or content inside a title
  element, is filed elsewhere; `SearchPage.FiledExactly` says for which documents
  every text is filed where it stands.

## Model

| member | source | states |
|---|---|---|
| Placeholders.ScanPrintExactly | crates/saci-config/src/lib.rs:163-206 | printing a list of pieces and scanning it gives the list back exactly when the syntax can express it (no `}` or `:-` in names, no `}` in defaults, no plain `$` before a plain `{`) |
| Placeholders.PrintScanExactly | crates/saci-config/src/lib.rs:166-206 | scanning and printing gives the text back exactly when every `${` in it is closed |
| Placeholders.PrintScan | crates/saci-config/src/lib.rs:172-190 | in general the scan prints back to everything before the first unclosed `${`, and an unclosed one has no `}` after it |
| Placeholders.ScanExpressible | crates/saci-config/src/lib.rs:172-190 | a scan never yields a piece the syntax could not express: names end at the first `:-`, bodies at the first `}` |
| Placeholders.ScanPlain | crates/saci-config/src/lib.rs:203-205 | a text without `${` scans to its own characters |
| Variables.SubstitutionSucceedsExactly | crates/saci-config/src/lib.rs:241-272 | substitution succeeds exactly when no chain of declared references reaches a name twice, and every text a chain reaches has its placeholders closed and its bare names declared or in the environment |
| Variables.ErrorIsJustified | crates/saci-config/src/lib.rs:180-200 | each error has a chain of references leading to the text with the unclosed placeholder, to the bare name set nowhere, or to the name that repeats |
| Variables.SmallerStackSameValue | crates/saci-config/src/lib.rs:250-270 | what expands under one stack expands to the same value under any sub-stack, so two paths to one name are not a cycle |
| Variables.SubstitutionIsTheMeaning | crates/saci-config/src/lib.rs:226-245 | any solution of the declared-first equations that covers the text predicts the output: environment values and defaults go in verbatim, declared values through their own equation |
| Variables.MeaningExists | crates/saci-config/src/lib.rs:226-245 | after a success the equations do have a solution, defined on exactly the reachable declared names |
| Variables.EnvironmentAlone | crates/saci-config/src/lib.rs:222-224 | with nothing declared, substitution succeeds exactly when all is closed and every bare name without a default is set, and is one lookup per placeholder in order |
| Variables.SubstituteAfterPrint | crates/saci-config/src/lib.rs:163-224 | a printed list of pieces substitutes to the concatenation of the pieces' values |
| Variables.ReadToken | crates/saci-config/src/lib.rs:166-190 | the character loop takes exactly the scanner's next piece, or stops at a placeholder that is never closed |
| Variables.Expander.Substitute | crates/saci-config/src/lib.rs:159-209 | the loop over the text with the shared stack computes the expansion, ends, and on success leaves the stack as it found it |
| Variables.Expander.ResolveDeclaredOrEnv | crates/saci-config/src/lib.rs:253-272 | pushing the name, expanding its value and popping it computes the lookup, declared names first, and ends because the stack only ever gains declared names not yet on it |
| KdlMapping.NodeMapsExactly | crates/saci-config/src/lib.rs:382-488 | a node maps exactly when no rule is broken in it or below it, and then its value is what the rules describe: a text, flag, integer or finite float as itself, several arguments as a list in order, otherwise a table of the leading argument under `id`, the properties, and for each child name its one node's value itself or the list of all its nodes' values in order |
| KdlMapping.DocumentMapsExactly | crates/saci-config/src/lib.rs:347-379 | a document maps exactly when every node is legal, and its table has one key per node name, holding the one node's own value or, for several, a list of their values in document order |
| KdlErrors.NodeErrorExactly | crates/saci-config/src/lib.rs:382-488 | a node is refused with an error exactly when that is its first fault: its annotation, then the first annotated entry, then the first illegal argument of a list, or for a table too many arguments, an illegal argument, the first property that is illegal or whose key is taken, the first child with a fault, and last the first child named like a key, each at the offset of what is wrong |
| KdlErrors.DocumentErrorExactly | crates/saci-config/src/lib.rs:347-379 | a document is refused with an error exactly when that is the first fault of its first node that is not legal |
| KdlMapping.EntriesInOrder | crates/saci-config/src/lib.rs:398-418 | arguments and properties keep the order they are written in |
| KdlMapping.ChildrenInserted | crates/saci-config/src/lib.rs:356-376 | a block of children fails on its own only by naming a key already in the table; otherwise the keys are a disjoint union, the old values stay, a name with one sibling holds that sibling's value itself and one with several holds the list of them in order |
| KdlMapping.GatherGathers | crates/saci-config/src/lib.rs:358-365 | grouping keeps one group per name with that name's values in document order |
| KdlMapping.PropertiesAdded | crates/saci-config/src/lib.rs:450-455 | properties are added exactly when each value is legal and no key repeats or is taken, and each key then holds the text, flag or number that was written |
| KdlMapping.OneOrManyInvertsCollapse | crates/saci-config/src/lib.rs:134-151 | the list of siblings is recovered exactly when it is not a single sibling that is an array |
| KdlMapping.SiblingsReadBackExactly | crates/saci-config/src/lib.rs:120-151 | in terms of the document, siblings of one name are recovered exactly unless there is one and it is a node of nothing but two arguments or more |
| KdlMapping.OneListReadAsTwo | crates/saci-config/src/lib.rs:138-143 | a list of two written as one node is read back as two siblings |
| KdlMapping.MapNode | crates/saci-config/src/lib.rs:382-462 | the branches over arguments, properties and children compute the mapping that `NodeMapsExactly` and `KdlErrors.NodeErrorExactly` describe |
| KdlMapping.ExtendWithDocument | crates/saci-config/src/lib.rs:347-379 | the grouping loop and the insertion loop compute the extended table that `ChildrenInserted` describes, or the first error |
| KdlMapping.SplitEntries | crates/saci-config/src/lib.rs:398-418 | one pass separates arguments from properties in order, or reports the first annotation |
| ChannelBacklog.StepKeepsInv | crates/saci-connector-channel/src/sink.rs:38-51 | every atomic step of a write, a query or the receiver keeps the deque a tail of the prefix sums, cut no deeper than what was received |
| ChannelBacklog.EveryScheduleKeepsInv | crates/saci-connector-channel/src/sink.rs:90-118 | so does every schedule of such steps |
| ChannelBacklog.BacklogIsExact | crates/saci-connector-channel/src/sink.rs:111-118 | in every schedule each answer of `pending_rows` is the rows of the batches on the channel when the capacity was read, nothing is lost or reordered, and after a completed write the deque holds at most the channel's capacity |
| ChannelBacklog.PendingIsBacklog | crates/saci-connector-channel/src/sink.rs:112-117 | the constant-time lookup is the row sum of the last batches |
| ChannelBacklog.TrimEnds | crates/saci-connector-channel/src/sink.rs:99-102 | trimming ends, with no more entries than batches in flight |
| ChannelCapacity.FillsToCapacity | crates/saci-connector-channel/src/sink.rs:90-104 | batches can be written, each write running to its end, until the channel holds its capacity of them, in the order written |
| ChannelCapacity.DeliversAll | crates/saci-connector-channel/src/sink.rs:90-104 | any list of batches passes through a channel of any capacity but zero, in order and with nothing left |
| ChannelCapacity.AskedWhileIdle | crates/saci-connector-channel/src/sink.rs:111-118 | an idle sink that is asked answers the rows now on its channel and changes nothing |
| ChannelCapacity.RowsAddUp | crates/saci-connector-channel/src/sink.rs:95-96 | the rows of a list of batches are the sum of each batch's own |
| ChannelBacklog.ChannelSink.WriteBatch | crates/saci-connector-channel/src/sink.rs:90-104 | one write, on a free or a full channel, with the receiver taking batches before the slot is granted, before the capacity is read and while the deque is trimmed, appends the batch and leaves one entry per batch that was in flight at the read |
| ChannelBacklog.ChannelSink.PendingRows | crates/saci-connector-channel/src/sink.rs:111-118 | the answer is the row sum of the channel's content |
| ChannelBridge.StepKeepsInv | crates/saci-connector-channel/src/registry.rs:62-142 | every call on any name keeps, for each name, both ends in the registry or in the half that was built, agreeing in channel, schema and buffer |
| ChannelBridge.RegistryOutcome | crates/saci-connector-channel/src/registry.rs:74-99 | a refused call changes nothing, a granted half was not granted before, and no call panics; when a call is granted is `ChannelPairing.SinkAnsweredExactly` and `SourceAnsweredExactly` |
| ChannelBridge.NeverPanics | crates/saci-connector-channel/src/registry.rs:95-98 | the end a half needs is always there: neither `expect` can fail |
| ChannelBridge.HalvesPairUp | crates/saci-connector-channel/src/registry.rs:27-34 | after any calls no half is granted twice for a name, a name with both has two ends of one channel with equal schema and buffer and the registry keeps neither, and channels of different names differ; that two agreeing halves are both granted is `ChannelPairing.SinkAnsweredExactly` |
| ChannelBridge.OtherNamesUntouched | crates/saci-connector-channel/src/registry.rs:73-73 | a call changes no entry, half or channel of another name |
| ChannelBridge.ReceivedThenQueued | crates/saci-connector-channel/src/sink.rs:90-94 | batches received, then batches queued, are the batches sent, in order |
| ChannelBridge.NextIsOldest | crates/saci-connector-channel/src/source.rs:65-79 | a read with something queued takes the oldest batch sent and not yet taken, as a batch or as a schema error |
| ChannelBridge.EndOfStreamExactly | crates/saci-connector-channel/src/source.rs:66-67 | in any world that keeps the invariant a source sees the end exactly when its sink is dropped and everything was received; that a drop leads there is `ChannelPairing.EndSeenExactly` |
| ChannelBridge.EndIsFinal | crates/saci-connector-channel/src/source.rs:66-67 | and whatever is called afterwards every further read sees it again |
| ChannelBridge.ChannelRegistry.ClaimSink | crates/saci-connector-channel/src/registry.rs:63-101 | the method's updates of the entry in place are the sink claim answered as `ChannelPairing.SinkAnswer` says, and a channel is created exactly when the name was unclaimed |
| ChannelBridge.ChannelRegistry.ClaimSource | crates/saci-connector-channel/src/registry.rs:103-141 | likewise for the source claim |
| ChannelPairing.SinkAnswer | crates/saci-connector-channel/src/registry.rs:63-101 | a sink call is refused when the name has its sink, granted a new channel when it has no half at all, and otherwise granted the source's channel exactly when schema and buffer are the source's, with the mismatch named if not |
| ChannelPairing.SourceAnswer | crates/saci-connector-channel/src/registry.rs:103-141 | likewise for a source call |
| ChannelPairing.SinkAnsweredExactly | crates/saci-connector-channel/src/registry.rs:63-101 | after any calls on any names, in terms of the calls made and the answers given: a sink is refused as a second one exactly when one was handed out before; else a name without a source gets a channel no answer has given, and one with a source gets that source's channel if it asks for the same schema and buffer and the mismatch if not |
| ChannelPairing.SourceAnsweredExactly | crates/saci-connector-channel/src/registry.rs:103-141 | likewise for a source |
| ChannelPairing.WriteAppends | crates/saci-connector-channel/src/sink.rs:90-94 | a write by a sink not dropped appends its batch while fewer than the buffer it asked for are queued, and otherwise waits |
| ChannelPairing.DropEndsChannel | crates/saci-connector-channel/src/source.rs:65-67 | dropping a sink leaves what is queued to be read, after which the source sees the end, and no write goes through any more |
| ChannelPairing.EndSeenExactly | crates/saci-connector-channel/src/source.rs:65-67 | after any calls a source sees the end exactly when its sink was handed out and dropped and every batch sent was taken, and waits exactly when all was taken and the sink was not dropped |
| ChannelRuns.SinkStartsEmpty | crates/saci-connector-channel/src/registry.rs:95-100 | a sink is always handed out over a channel that has carried nothing, of the capacity it is told, even when the source came first |
| ChannelRuns.StepKeepsInv | crates/saci-connector-channel/src/sink.rs:60-72 | every registry call, drop and atomic step of any sink or source keeps each sink's books those of the channel it was given |
| ChannelRuns.RunIsBridgeRun | crates/saci-connector-channel/src/registry.rs:62-142 | seen from the registry a run is the calls in it, so what holds after all call lists holds after all runs |
| ChannelRuns.EveryBacklogIsExact | crates/saci-connector-channel/src/sink.rs:40-51 | in every run, every sink the registry handed out tracks its own channel, and each of its answers is the rows that were on it when the capacity was read |
| ChannelRuns.AnswerIsBacklogThen | crates/saci-connector-channel/src/sink.rs:111-118 | a query asked after any run answers the rows that were on the channel when it was asked, whatever the source, the registry and other names do in between |
| Fnv.StepInverts | packages/saci-sdk-go/schema.go:166-171 | every byte step is a bijection on the words, undone by the inverse prime and the same xor, for 32 and 64 bits |
| Fnv.StatesStayApart | packages/saci-sdk-go/schema.go:171-176 | two different states stay different whatever is hashed after them |
| Fnv.OneByteChangesHash | examples/integrity/integrity_check.rs:180-187 | two strings of one length that differ in exactly one byte never hash alike, for 32 and 64 bits |
| Fnv.Fnv1a64 | examples/integrity/integrity_check.rs:180-187 | the loop computes the 64-bit hash, before it is read as signed |
| Components.SortedIsUnique | packages/saci-sdk-go/saci.go:300-305 | a strictly sorted list is determined by its elements |
| Components.LessIsLexicographic | packages/saci-sdk-go/saci.go:327-327 | one name sorts before another exactly when it is a proper prefix of it or has the smaller byte where the two first differ |
| Components.RegistrationOrderIrrelevant | packages/saci-sdk-go/saci.go:324-325 | permuting the systems changes neither whether the list is refused, nor the list, nor the fingerprint |
| Components.Collect | packages/saci-sdk-go/saci.go:306-323 | the list is refused exactly when two systems declare one name with different fields; otherwise it holds each declared component once |
| Components.InsertionSort | packages/saci-sdk-go/saci.go:326-330 | sorting in place leaves a permutation in which every name precedes all later ones: it is a proper prefix, or its byte is the smaller where they first differ |
| Components.ComponentsOf | packages/saci-sdk-go/saci.go:306-332 | the result is the duplicate-free list of exactly the declared components in the byte-wise order of their names, or a panic on a clash |
| Components.OneByteChangesFingerprint | packages/saci-sdk-go/schema.go:156-190 | component lists whose serialised bytes are equally long and differ in one byte have different fingerprints, in hexadecimal |
| FingerprintText.XorIsBitwise | packages/saci-sdk-go/schema.go:171-171 | the exclusive or has a bit exactly where the two words differ |
| FingerprintText.HashIsFnv32 | packages/saci-sdk-go/schema.go:164-176 | hashing is FNV-1a with the offset basis and the prime of 32 bits, the bytes taken first to last |
| FingerprintText.HashIsFnv64 | examples/integrity/integrity_check.rs:180-187 | and with those of 64 bits |
| FingerprintText.FingerprintIsFnv1a | packages/saci-sdk-go/schema.go:164-190 | the fingerprint is eight lower-case hexadecimal digits whose value is the 32-bit FNV-1a of every component's name, its version in four bytes, and its field names, all in order |
| HashedNames.SameBytesExactly | packages/saci-sdk-go/schema.go:164-190 | two lists whose names hold no byte below two hash the same bytes exactly when their first names are equal and, component by component, the field names run together with the next component's name are equal |
| HashedNames.VersionBytesInAName | packages/saci-sdk-go/schema.go:180-184 | a field name that holds the version's bytes lets one component hash like two, so that restriction on the names is needed |
| HashedNames.FieldBoundariesInvisible | packages/saci-sdk-go/schema.go:185-187 | in any component of any list, moving bytes from the end of one field name to the start of the next, or changing field types, leaves the fingerprint unchanged |
| HashedNames.ComponentBoundariesInvisible | packages/saci-sdk-go/schema.go:178-188 | so does moving bytes from the end of a component's last field name to the start of the next component's name |
| HashedNames.AddedFieldLengthens | packages/saci-sdk-go/schema.go:156-163 | adding a field anywhere lengthens what is hashed by exactly its name, so it always changes what is hashed |
| Components.ComputeFingerprint | packages/saci-sdk-go/schema.go:164-190 | the nested loops hash name, version and field names of every component in order |
| Columns.DecodeInvertsEncode | packages/saci-sdk-go/system.go:106-183 | decoding what was encoded gives the rows back: gathering columns and scattering them are inverse |
| Columns.Decode | packages/saci-sdk-go/system.go:106-147 | filling the rows column by column gives every row its cells, or fails when a column cannot be read |
| Columns.CellsAreTyped | packages/saci-sdk-go/system.go:106-147 | every decoded cell is an integer, float, text or flag exactly as its column's type says |
| Columns.GatherColumns | packages/saci-sdk-go/system.go:150-183 | column `k` holds cell `k` of every row in order |
| Processor.RunSystemsKeepsCache | packages/saci-sdk-go/system.go:73-99 | after any systems every cached component is typed by its schema, as long as the segment it came from, and owned by one of them |
| Processor.BuiltExactlyOnOneSchemaPerName | packages/saci-sdk-go/saci.go:300-323 | building a processor refuses its systems exactly when two of them give one name two schemas, which is what the batch results assume away |
| Processor.RunOne | packages/saci-sdk-go/system.go:54-99 | the cache lookup or first decode and the loop over the rows compute the system's effect on the cache, or its first refusal; what that effect is, row by row, is `BatchRows.RowByRow` and `BatchRows.SystemFailsExactly` |
| Processor.WriteSegment | packages/saci-sdk-go/arrowipc/writer.go:255-353 | a cached component is gathered, encoded and put in its place, any other segment copied, and a segment longer than the liveness segment refused |
| Processor.Execute | packages/saci-sdk-go/saci.go:203-252 | the system loop over the shared cache and the segment loop over the writer compute the batch's output or its first error, which `BatchRows` describes row by row |
| BatchRows.RowByRow | packages/saci-sdk-go/system.go:54-99 | in a batch that succeeds, cell by cell: row `r` of a component worked on is, in the output, the transforms of its systems applied in order to row `r` of the first input segment of that name, and there are as many rows |
| BatchRows.OneSystemRowByRow | packages/saci-sdk-go/system.go:54-66 | with one system its transform is applied to every row in place |
| BatchRows.SystemFailsExactly | packages/saci-sdk-go/system.go:54-99 | after the systems before it have run, a system fails with an error exactly when that is what is wrong: no such component, a second row type for it, a column that cannot be read, or a row its transform refuses after the earlier ones |
| BatchRows.BatchFailsExactly | packages/saci-sdk-go/saci.go:203-226 | the batch reports the fault of the first system that has one, and reaches the writer exactly when none has |
| BatchRows.EndsWithLiveness | packages/saci-sdk-go/arrowipc/writer.go:349-380 | the output ends with its one segment labelled `__alive`, which covers every other: the last one of the input or, when it has none, an all-alive one as long as the longest component |
| StreamWriter.WriteAllCloses | packages/saci-sdk-go/arrowipc/writer.go:247-407 | on distinct labels the writer takes a stream exactly when every segment can be written and none is longer than the liveness segment, and then holds the segments in order |
| StreamWriter.LastIsKept | packages/saci-sdk-go/arrowipc/writer.go:383-392 | on any stream the writer ends up, under each name, with what the last segment of that name became |
| FusedExecution.SameRowsExactly | packages/saci-sdk-go/system.go:73-88 | on any stream the next system gets the same rows from the shared cache as from the stream written so far exactly when its component is cached or the first and last copies of it read alike |
| FusedExecution.OneMoreAgreesExactly | packages/saci-sdk-go/saci.go:203-252 | on any stream, when one more system succeeds both over the shared cache and over the stream written so far, the outputs are the same exactly when an earlier system worked on its component or the first and last copies of it become alike |
| FusedExecution.FusedEqualsChained | packages/saci-sdk-go/saci.go:203-252 | on a stream where each component not yet worked on has copies that read alike (a single copy always does), when one processor per system succeeds, the shared-cache batch succeeds exactly if no component has two row types, and then its output is the same bytes |
| FusedExecution.FusedIsChainedExactly | packages/saci-sdk-go/saci.go:203-252 | on such a stream, a batch that succeeds is one the chain of processors runs too, with the same output, exactly when every component as it stands between two systems encodes and every other segment can be copied |
| FusedExecution.DistinctIsSettled | packages/saci-sdk-go/saci.go:203-252 | every stream without a repeated name is such a stream, whatever the systems |
| SampleCodec.SampleIsLawful | packages/saci-sdk-go/system.go:82-98 | a codec of one-field Boolean components keeps every law assumed of the Arrow codec |
| SampleCodec.TwoRowTypesPartWays | packages/saci-sdk-go/system.go:74-80 | with it, two systems on one component through two row types succeed as two processors and fail as one |
| SampleCodec.RepeatedNamePartsWays | packages/saci-sdk-go/system.go:82-88 | with it, on a stream holding one name twice, a batch of two systems and the two processors in a row both succeed, and agree exactly when the two copies are the same |
| SampleCodec.LivenessMoves | packages/saci-sdk-go/arrowipc/writer.go:349-380 | with it, a batch on a stream that starts with its liveness segment succeeds and changes the order of the labels |
| FusedExecution.OrderKeptExactly | packages/saci-sdk-go/arrowipc/writer.go:354-395 | the output's labels are the input's in order exactly when no label repeats and the liveness segment is last |
| FusedExecution.SegmentsInPlace | packages/saci-sdk-go/saci.go:228-239 | in such a stream every segment keeps its place and label and an untouched one its bytes |
| FusedExecution.UntouchedIsForwarded | packages/saci-sdk-go/saci.go:198-202 | on any stream, wherever the liveness segment stands, a segment no system touched comes out byte for byte exactly when it equals the last one of its name |
| Messages.MessagesTile | examples/conformance/conformance_vectors.rs:239-265 | parsed messages follow one another with nothing but end-of-stream markers between and after them, until fewer than eight bytes are left; what is read of each is `MessageLayout.WrittenParses` and `MessageLayout.MessageIsLaidOut` |
| Messages.ParseMessages | examples/conformance/conformance_vectors.rs:239-265 | the loop over a segment computes its messages or panics where the code does |
| MessageLayout.AlignsUp | examples/conformance/conformance_vectors.rs:222-224 | the aligned length is the least multiple of eight not below the length, for either sign, unless the addition overflows |
| MessageLayout.WrittenParses | examples/conformance/conformance_vectors.rs:239-265 | a segment of any messages and markers, laid out by a writer of the Arrow encapsulation with a flatbuffer table anywhere in its metadata, any fields left out, and bodies padded to eight, parses to exactly those messages: start, header type, body length, table and end |
| MessageLayout.ItemIsFramed | examples/conformance/conformance_vectors.rs:240-262 | conversely whatever is taken for a message stands behind a continuation marker, and ends where its metadata and its padded body do |
| MessageLayout.MessageIsLaidOut | examples/conformance/conformance_vectors.rs:251-255 | and its table and vtable are reached by two offsets that are not negative, its header type and body length being what slots 1 and 3 hold, or zero |
| Framing.FramesTile | examples/conformance/conformance_vectors.rs:227-277 | a stream that parses is its frames end to end, a terminator, and bytes nobody looked at |
| Framing.JoinParses | examples/conformance/conformance_vectors.rs:227-277 | and every such stream parses to those frames |
| Framing.SegmentsTile | examples/conformance/conformance_vectors.rs:231-274 | the segments tile the stream: first prefix at zero, each next where the last body ends, terminator after the last, every length and message list its own body's |
| Framing.SpliceChangesOneSegment | examples/conformance/conformance_vectors.rs:390-399 | splicing in a non-empty body that fits the prefix and parses changes that entry and moves the later ones by the length difference |
| Framing.EmptySpliceTruncates | examples/conformance/conformance_vectors.rs:395-395 | a body whose length is zero modulo 2^32 leaves exactly the segments before it |
| Framing.SpliceParses | examples/conformance/conformance_vectors.rs:390-399 | for a body of any size the frames before the spliced one stay, and the rest is parsed from the part of the body its 32-bit prefix covers on |
| Framing.SpliceKeepsCountExactly | examples/conformance/conformance_vectors.rs:390-399 | for a body of any size the number of segments is kept exactly when the covered part is non-empty and parses and as many segments follow it as before |
| Framing.SpliceIsCleanExactly | examples/conformance/conformance_vectors.rs:390-399 | for a body of any size only that entry changes to it, later ones moving by the length difference, exactly when it is non-empty, fits the prefix and parses |
| Framing.ParseAfterSplice | examples/conformance/conformance_vectors.rs:391-399 | the tiling and this exact condition for the message parser, with the new entry's messages |
| Framing.Parse | examples/conformance/conformance_vectors.rs:227-277 | the loop with its running position computes the segments, each with the messages of its body |
| IntegrityPublisher.RunKeepsInv | examples/integrity/integrity_check.rs:2573-2729 | every iteration keeps the packing of orders, the clock, and the audit bookkeeping consistent |
| IntegrityPublisher.MessagesCarryEveryOrderOnce | examples/integrity/integrity_check.rs:2599-2625 | in every run the messages and the final flush concatenate to exactly the generated orders in id order, each has one to five orders of the priority it is keyed by, and their number is the orders divided by five, rounded up |
| IntegrityPublisher.TimestampsIncrease | examples/integrity/integrity_check.rs:2583-2602 | the clock strictly increases item by item and the high-water mark is never behind it |
| IntegrityPublisher.UpdatesFollowInserts | examples/integrity/integrity_check.rs:2655-2708 | no event is published twice, so an audit id is updated at most once, and its insert came before |
| IntegrityPublisher.Publisher.Publish | examples/integrity/integrity_check.rs:2562-2745 | the loop over its variables and the registry, with the final flush, is the run |
| IntegrityRecords.RecordsAreExact | examples/integrity/integrity_check.rs:2573-2708 | after any run the registry holds exactly these records: of every iteration its order, of every second a payment, of every third an audit insert, of every fifth the update of the newest insert, each with the draw of its iteration, its priority and its own time in milliseconds |
| IntegrityRecords.WatermarkIsLast | examples/integrity/integrity_check.rs:2598-2702 | the high-water mark is the time of the run's last item: one order an iteration, and a payment, an insert and an update every second, third and fifth |
| IntegrityVerifier.WindowIdOf | examples/integrity/integrity_check.rs:269-272 | the window id is the tumbling window that holds the event, for negative times too |
| IntegrityVerifier.DistinctBodiesCountOnce | examples/integrity/integrity_check.rs:1039-1084 | after any sequence of deliveries each window and region total is the sum over the distinct bodies, and a group is known exactly when some body mentions it |
| IntegrityVerifier.RedeliveryChangesNothing | examples/integrity/integrity_check.rs:785-788 | two delivery sequences with the same set of bodies, however re-sent and ordered, give the same totals and groups |
| IntegrityVerifier.FlaggedExactlyWhenMissing | examples/integrity/integrity_check.rs:2089-2160 | when the rows of the distinct bodies received sum published items of their groups and none is used twice, a closed group after warm-up is flagged exactly when one of its items is counted by no distinct body |
| IntegrityEmissions.FlaggedExactlyByEmission | examples/integrity/integrity_check.rs:783-788 | whatever is lost, re-sent or reordered, a closed group after warm-up whose emissions partition its published items is flagged exactly when one of its emissions never arrived or has the content of an earlier one |
| IntegrityEmissions.AllArrivedExactly | examples/integrity/integrity_check.rs:1052-1084 | when all its emissions arrived the group passes exactly when no two of them are alike |
| IntegrityEmissions.TwinOrdersAreFlagged | examples/integrity/integrity_check.rs:783-788 | two orders of one group with equal amounts, each delivered in its own body, are flagged although both arrived |
| IntegrityRun.ItemsAreDistinct | examples/integrity/integrity_check.rs:2582-2652 | every run records one item per order and one per payment, no two at the same time |
| IntegrityRun.RunIsCheckedExactly | examples/integrity/integrity_check.rs:2089-2160 | for every run, every grouping of its items into emissions and every delivery of them, the final check reports exactly the closed, past-warm-up groups with an emission lost or alike to an earlier one |
| IntegrityVerifier.CheckWindows | examples/integrity/integrity_check.rs:2089-2160 | the loop over the expected groups flags exactly the published, closed, past-warm-up groups that never arrived or whose totals differ, that is, the groups of `IntegrityCheck.FlaggedExactlyByTotals` |
| IntegrityCheck.FlaggedExactlyByTotals | examples/integrity/integrity_check.rs:2089-2160 | for any bodies whatever, in plain sums over the distinct ones: a group is flagged exactly when a published item lies in its ten seconds and region, its window ended two seconds before the last event and after the warm-up, and either no body mentions it or a count differs or an amount is off by more than one cent |
| IntegrityCheck.TotalsArePlain | examples/integrity/integrity_check.rs:1073-1080 | each group's total in the registry is the sum of the rows of the distinct bodies, listed in any order, figure by figure |
| IntegrityCheck.AlwaysTidy | examples/integrity/integrity_check.rs:1068-1085 | every group counts as unique once and every further row of it as a duplicate |
| IntegrityCheck.RowsAreCounted | examples/integrity/integrity_check.rs:1021-1021 | every row received is counted |
| IntegrityCheck.EmissionsAreExact | examples/integrity/integrity_check.rs:1073-1075 | a group's emissions are its rows in first deliveries |
| IntegrityCheck.RetriesAreExact | examples/integrity/integrity_check.rs:1069-1071 | and its retries are all its other rows |
| IntegrityVerifier.GroupTotals | examples/integrity/integrity_check.rs:2089-2107 | the grouping loop gives each published group its own counts and amounts and no other group any |
| IntegrityVerifier.PrefixGapExactly | examples/integrity/integrity_check.rs:2016-2018 | when `missing` is the number of set flags the test holds exactly for a non-empty run of set flags followed by a non-empty run of unset ones |
| IntegrityVerifier.Receiver.Receive | examples/integrity/integrity_check.rs:785-798 | deciding once per body whether it is a re-send, and looping over its rows, computes the new registry |
| SearchPage.FeedKeepsInv | docs/search-index.py:60-120 | on every stream of tags, balanced or not, nothing is skipped outside the content and a breadcrumb is open only inside a skipped subtree |
| SearchPage.FeedDeposits | docs/search-index.py:111-120 | on every stream the page holds exactly the pieces filed along the way, in order |
| SearchPage.SubtreeRestores | docs/search-index.py:72-109 | after every balanced list of siblings the main, skip and breadcrumb counters are back where they were, and a flag survives exactly when no element of its kind was met |
| SearchPage.FiledExactly | docs/search-index.py:60-120 | on a well-nested document every text is filed where its ancestors put it exactly when no text follows an inner title or heading in its own, and no open title holds content with text; what each tag means is written out in `SearchTags` |
| SearchPage.StandardIsClean | docs/search-index.py:60-120 | documents as HTML asks for them meet that condition |
| SearchPage.LastSection | docs/search-index.py:85-89 | each `h2` closes the blocks before it and starts one that collects heading and prose up to the next |
| SearchPage.WithinSection | docs/search-index.py:116-120 | between two breaks the last block gains exactly the heading and prose pieces in order |
| SearchPage.TitleAndGroup | docs/search-index.py:112-115 | title and group are the concatenation of the texts filed there |
| SearchPage.SkippedText | docs/search-index.py:77-81 | inside a skipped subtree a breadcrumb's whole text, nested skipped elements included, goes to the group and nowhere else, and other text changes nothing; which tags open one is `SearchTags.BreadcrumbReads` and `SearchTags.SkippedReads` |
| SearchTags.BreadcrumbReads | docs/search-index.py:77-81 | in the content, a `nav` with "breadcrumb" somewhere in its class adds all its text to the group and changes nothing else |
| SearchTags.SkippedReads | docs/search-index.py:38-38 | every other `nav`, and every `script`, `style`, `svg`, `button` and `noscript`, changes nothing at all |
| SearchTags.SeparatedReads | docs/search-index.py:42-46 | the other block elements, each by name, read as their contents between two spaces of prose |
| SearchTags.HeadingReads | docs/search-index.py:85-87 | an `h2` opens a section under its own id and its contents are read as the heading |
| SearchTags.PlainReads | docs/search-index.py:83-89 | any other element but a nested `main` reads as its contents |
| SearchTags.NestedMainReads | docs/search-index.py:83-84 | a `main` inside the content reads as its contents and does not end it |
| SearchTags.VoidReads | docs/search-index.py:88-89 | of the elements without an end tag only `br` leaves anything, one space |
| SearchTags.TextOutsideLost | docs/search-index.py:111-120 | text outside title and content is dropped |
| SearchTags.ContentOpens | docs/search-index.py:64-70 | the content is entered by exactly the `main` element with the id `content` |
| SearchTags.DocumentReads | docs/search-index.py:60-120 | a page with a title, an area and a content element yields that title, that area and what its content adds |
| SearchTags.SmallPageReads | docs/search-index.py:60-120 | a page of a breadcrumb, a heading, a script and a paragraph, for any texts, yields exactly its title, area, group, and one section with the heading and the prose |
| SearchPage.NestedHeadingMisfiles | docs/search-index.py:106-107 | text after a heading inside a heading lands in the prose of the inner section |
| SearchPage.TitledContentMisfiles | docs/search-index.py:112-113 | content inside a title element lands in the title |
| SearchPage.Page.HandleStartTag | docs/search-index.py:60-89 | the handler's field updates are the machine's step for a start tag, which `SearchTags` spells out tag by tag |
| SearchPage.Page.HandleEndTag | docs/search-index.py:91-109 | likewise for an end tag |
| SearchPage.Page.HandleData | docs/search-index.py:111-120 | likewise for text |
| Quoting.IdentifierReadBack | crates/saci-connector-clickhouse/src/connection.rs:54-57 | a reader of doubled backticks takes a quoted identifier back to the original exactly when no further backtick follows it |
| Quoting.EscapedReadBackExactly | crates/saci-connector-clickhouse/src/connection.rs:54-57 | a reader that also takes a backslash before a backslash or a backtick for an escape gets the original back exactly when no backtick follows and every backslash in the name stands before some other character of it |
| Quoting.QualifiedReadBack | crates/saci-connector-clickhouse/src/connection.rs:59-65 | a reader of dotted identifiers consumes all of a quoted qualified name and finds exactly its dot-separated parts |
| Quoting.SplitThenJoin | crates/saci-connector-clickhouse/src/connection.rs:61-64 | the parts hold no dot and join back to the name |
| Quoting.JoinThenSplit | crates/saci-connector-clickhouse/src/connection.rs:61-64 | any list of dotless parts is what its joined name splits into |
| Quoting.TwoReplacesAreOne | crates/saci-connector-clickhouse/src/connection.rs:67-70 | the two replacements act as one map on characters |
| Quoting.LiteralReadBack | crates/saci-connector-clickhouse/src/connection.rs:67-70 | a reader of backslash escapes takes an escaped literal back to the original value, whatever follows it |
| Quoting.QuotingIsInjective | crates/saci-connector-clickhouse/src/connection.rs:54-70 | different names and different values never share a quoted form |
| Base64.DecodesExactly | examples/polyglot/schema_emit.rs:141-166 | a decoder after section 4 of RFC 4648 accepts exactly the encoder's outputs, each for the bytes it encodes |
| Base64.LengthAndPadding | examples/polyglot/schema_emit.rs:145-163 | four characters for every three bytes begun; the pads are the last characters, their number fixed by the length modulo three, and occur nowhere else |
| Base64.SplitByCuts | examples/polyglot/schema_emit.rs:152-162 | the shifts and masks cut the sextets of the 24-bit group |
| Base64.Encode | examples/polyglot/schema_emit.rs:143-166 | the loop over chunks computes the encoding |

## Left out

- The stage scheduler, dataset, retry, Raft store, windowed processor and distributed runner.
- The Arrow codec's internals, the KDL parser and tokio's channel: assumed through `Columns.Lawful`, the node datatype and the bounded queue.
- Configuration: `line_column`, error wording, the re-scan that names a variable whose value broke the parse, and environment values that are not Unicode.
- KdlMapping.OneOrManyInvertsCollapse: does not model turning the recovered values into the field's own type, which serde does.
- Channel behaviour after the receiver is dropped, a send that waits for ever, a zero buffer (tokio refuses it), and 64-bit overflow of the row total.
- Go processor: reading configuration, counters, metrics and the summary line; deriving a component from a Go type; `snakeCase`; row types that replace the slice rather than its rows.
- FusedExecution.FusedEqualsChained: is stated for streams whose repeated names read alike in every copy before a system first works on them; elsewhere copies of different lengths can also decide whether the writer accepts the stream.
- Framing and messages: offsets overflow as in a debug build, where it is a panic; a release build wraps.
- The conformance vectors themselves and the other flatbuffer overwrites.
- Integrity run: money is in integer cents where the program has floats rounded to two decimals; a body is compared by its rows as if its digest never collided; per-row checksums, the classified and audit sinks, and the report's other counters.
- HashedNames.SameBytesExactly: is about the bytes hashed; two lists may still share a 32-bit fingerprint by collision.
- IntegrityPublisher.Publisher.Publish: does not model failed sends, pacing, or how the number of iterations is decided.
- Search index: character references and the HTML tokenizer, white-space collapsing, the minimum section length and the JSON records.
- Quoting.EscapedReadBackExactly: the reader knows the two escapes that can end or shorten an identifier, not those for control characters, which would exclude further names with backslashes.
- ClickHouse client settings and cursor value formatting by type.
- The ETL and fulfillment examples, `xtask`, and the documentation site's scripts and charts.
