# Ember, a Redis-compatible store: a verified model

The project models the five parts of the Ember server that carry its logic and proves what they
promise together:

- **the wire** — the incremental RESP parser and both printers (`RespTypes`, `RespParser`,
  `RespProofs`, `Grammar`, `Verdicts`, with `Decimal`, `Utf8` and `CodePoints` below them);
- **the store** — two maps of values and deadlines and the expiration cycle (`Store`, `Database`,
  `Expiration`, `Lists`), and the same operations as sequences of single map calls under any schedule
  (`Interleaving`, `Races`, `Conflicts`, `Crowds`);
- **commands and transactions** — extraction, dispatch, MULTI/EXEC/DISCARD (`Commands`, `Requests`,
  `CommandGrammar`, `Dispatcher`, `CommandLaws`, `Invariants`, `Sessions`);
- **the connection** — the read, drain and flush loop (`Connection`, `Pipelining`, `Replies`,
  `Streams`);
- **snapshots** — the binary writer and the one-byte-lookahead reader (`RdbFormat`, `RdbProofs`,
  `RdbLayout`, `Snapshots`, `RdbFiles`).

`Worlds` puts the server together over time: any number of clients, expiration cycles, snapshots and
restarts; `Invisibility`, `Laws` and `Isolation` are about such runs. `Server` ties the parts to each other: a client
that pipelines requests in pieces of any size is answered as if each request had been handled on its
own; a reachable store is saved and loaded again.

Code that computes values is modelled by functions. Code that updates things in place is modelled by
classes and methods with loops (`DB`, `Client`, `Connection`, `BufWriter`, `SnapshotWriter`,
`SnapshotReader`, the parser's loops), and each method is proved to do what a function on values says.
The laws are then proved of those functions. Strings are byte sequences with a UTF-8 predicate. The
clocks, the samples of the expiration cycle, the iteration orders of the maps and the sizes of reads
are arguments or arbitrary choices, so the laws hold for all of them. Integer widths are explicit:
sums of lengths wrap as in a release build, `i32`, `u32` and `u64` conversions truncate, and a panic
of the implementation is an outcome of the model.

Run `dafny verify dfyconfig.toml` to check everything.

## What turned out to hold only under a condition

Each has an exact condition, proved in both directions, or a concrete witness:

- Printing and parsing returns the value exactly when no simple string or error contains CRLF.
- What the server writes on a connection decodes to its answers exactly when no frame it consumed has
  CRLF in its command name: such a name is unknown and echoed in the error. No other reply, error or
  EXEC array ever contains one (`AnswerDecodesExactly`, `ConnectionDecodesExactly`).
- A connection lives on exactly as long as no read leaves its buffer lethal (`AliveExactly`,
  `DrainAliveExactly`). A buffer is lethal if it starts with complete frames and either one of them is an
  ECHO, GET, DELETE, LPUSH or RPUSH without argument, an LRANGE with fewer than three or an EXPIRE with
  fewer than two, or fatal bytes follow them. Bytes are fatal if they are `*` and a readable count of two
  to the 58 or more, or `$` and a readable length whose end position exceeds 64 bits and wraps into the
  buffer, or an array whose complete elements, fewer than announced, are followed by fatal bytes. A
  count line like `*288230376151711744` is fatal whatever follows it (`HugeCountEnds`).
- The cut of a stream into reads is irrelevant exactly when all of the stream but its last byte is not
  complete frames followed by malformed bytes, because malformed bytes discard everything that arrived
  with them (`CutsMatterExactly`). Bytes are malformed if their first line is not what its type byte
  allows, or a bulk body of the announced length is not text or lacks its line end, or complete elements
  of an array, fewer than announced, are followed by malformed bytes (`FlawExactly`).
- The parser waits exactly when the buffer holds no frame, is not malformed and is not fatal, and then
  some further bytes do give it a verdict (`WaitsExactly`, `Completable`).
- A request yields the command meant exactly when an EXPIRE option is known, no duration is negative,
  EX is at most 2147483 seconds and no number exceeds 32 bits (`RequestMeant`). `EX 2147484` becomes a
  deadline in 584 million years and `EX 4294968` one in 704 milliseconds (`SecondsOverflow`).
- Active expiration is invisible exactly as long as LPUSH, RPUSH and, on a key with a value, EXPIRE,
  which do not check the deadline, are not used on a key past it.
- A command that fails leaves the maps alone, except EXEC, which keeps what ran before the failing
  command (`ExecCanFailHalfway`).
- Clients with disjoint keys are serialisable in every order. For two operations on one key the table
  below says exactly when every interleaving of their map calls is serialisable
  (`PairsSerialisableExactly`). Any number of pushes and checks on live values is (`CrowdsAreSerialisable`).
- Every key with a deadline has a value, except after a restart from a snapshot in which an expiring key
  held an empty list (`RestartOwnedExactly`, `OrphanAfterRestart`).
- A snapshot loads exactly when no expiring key reads `string` or `list` in any case; otherwise the
  whole file is rejected and, as start-up unwraps the result, the server does not start. Empty lists
  are dropped. All this is for lengths below two to the 32, a side condition that cannot simply be
  dropped: `LongStringRejected` shows files with a longer string that do not load.
- A reloaded deadline loses less than a millisecond exactly when its milliseconds fit 64 bits or it is
  about to pass anyway. A negative PX or EXPIRE, or an EX whose 32-bit product is negative, does not lapse in
  memory for two to the 64 milliseconds, and after a restart it has passed exactly when the wall clock
  was at least that many milliseconds after the epoch (`NegativeExpiry`).
- LRANGE returns the slice Redis documents exactly when the bounds are at or above minus the length,
  up to the listed coincidences. LRANGE 0 -1 returns the whole list exactly at the lengths of at most
  two to the 31, or whose last index has bit 31 set (`WholeRange`).

Two operations on one key, from a cell with value `v` and deadline `d`. A check is GET, LRANGE or the
purge of one key by the expiration cycle. `U(x)` says that EXPIRE would replace the deadline `x`.

| | every interleaving is serialisable exactly when | otherwise, for example |
|---|---|---|
| SET, SET | the values or the deadlines are equal | one value with the other deadline (`TornSets`) |
| SET, check | the key is not past `d` and, if the new deadline is already past, the check cannot tell the new value from `v` | the value just set is removed (`SetLost`), or read though past (`LapsedValueSeen`) |
| SET, DELETE | SET has no deadline | the value stays without its deadline (`DeadlineLost`) |
| SET, push | there is a `v` | the string is overwritten by a list (`StringOverwritten`) |
| SET to deadline `e`, EXPIRE to `t` | `e` is `t`; or with a `v`: `U(e)`, or neither `U(d)` nor `U(none)`; or without: no `e`, or neither `U(e)` nor `U(none)` | EXPIRE decides by a deadline being replaced (`StaleDecision`) or not yet stored (`HalfSetSeen`) |
| check, EXPIRE | the key is not past `d`, or EXPIRE writes nothing: no `v`, or neither `U(d)` nor `U(none)` | a deadline without value (`OrphanedByCheck`) |
| DELETE, EXPIRE | EXPIRE writes nothing: no `v`, or neither `U(d)` nor `U(none)` | a deadline without value (`OrphanedByDelete`) |
| push, push | there is a `v`, or both push nothing | one of two acknowledged pushes is lost (`PushLost`) |
| EXPIRE to `s`, EXPIRE to `t` | no `v`, or not both update `d`, or `s` is `t`, or each or neither would replace the other's deadline | the wrong one wins (`BothDecided`) |
| all other pairs | always | |

Where comments and code differ the code is followed: LPUSH reverses its values on a new key only, the
expiration cycle samples up to twenty consecutive entries of the map from a random offset rather than
twenty independent keys, and EXPIRE takes milliseconds.

## Model

| member | source | states |
|---|---|---|
| CodePoints.ValidExactly | src/resp/parser.rs:71 | the byte strings accepted as UTF-8 are exactly the encodings of sequences of Unicode scalar values |
| CodePoints.SpaceExactly | src/resp/parser.rs:196 | the characters an inline line is split at are exactly those with the property White_Space |
| CodePoints.LossyValid | src/rdb/reader.rs:164 | lossy decoding yields valid UTF-8 for every input |
| CodePoints.BadLenExactly | src/rdb/reader.rs:164 | the bytes lossy decoding replaces at once are a longest beginning of some character, or one byte |
| Utf8.ValidConcat | src/resp/parser.rs:71 | after a valid prefix, validity depends only on the rest |
| Utf8.LossyKeepsValid | src/rdb/reader.rs:164 | lossy decoding returns a valid string unchanged |
| Utf8.WordsValid | src/resp/parser.rs:195-198 | the words of a valid line are valid and no longer than the line |
| Decimal.SignedRoundTrip | src/resp/parser.rs:85 | an integer printed and parsed comes back exactly when it fits the signed width |
| Decimal.UnsignedRoundTrip | src/resp/parser.rs:184 | a length printed and parsed comes back exactly when it fits the unsigned width |
| Decimal.SignedAccepts | src/resp/parser.rs:85-86 | signed parsing accepts exactly digits with an optional plus or minus whose value is in range |
| Decimal.UnsignedAccepts | src/resp/parser.rs:184-185 | unsigned parsing accepts exactly digits with an optional plus whose value is in range |
| Decimal.LeadingZero | src/resp/parser.rs:184 | a leading zero does not change the number read |
| RespTypes.ToString | src/resp/types.rs:107-125 | the accumulator loop of `to_string` yields the recursive printed form |
| RespTypes.FastPathsExact | src/resp/types.rs:23-26 | the precomputed replies are the printed forms of their values |
| RespTypes.BufWriter.WriteAll | src/config/client.rs:95 | the bytes sent and pending together grow by exactly the data, whatever the buffer does |
| RespTypes.BufWriter.Flush | src/config/client.rs:189 | everything written is sent and nothing is pending |
| RespTypes.WriteSimple | src/resp/types.rs:35-49 | with or without fast path, the printed form is appended |
| RespTypes.WriteBulk | src/resp/types.rs:63-74 | with or without fast path, the printed form is appended |
| RespTypes.WriteItems | src/resp/types.rs:81-84 | the loop appends the printed forms of the items in order |
| RespTypes.WriteTo | src/resp/types.rs:33-98 | for every value of any nesting and whatever the writer held, exactly the bytes of `to_string` are appended |
| RespParser.FirstLine | src/resp/parser.rs:171-178 | the line returned ends at the first CRLF; none is returned exactly when there is none |
| RespParser.ReadUntilCrlf | src/resp/parser.rs:171-178 | the index loop finds that line |
| RespParser.ParseUsize | src/resp/parser.rs:181-186 | a length read is below two to the 64 |
| RespParser.ParseBulkBody | src/resp/parser.rs:103-120 | a bulk string accepted consumed at least two bytes and none beyond the buffer, with wrapping sums |
| RespParser.ParseElements | src/resp/parser.rs:136-140 | success yields exactly the announced number of values from within the buffer; a stop is never a success |
| RespParser.Parse | src/resp/parser.rs:45-64 | every frame accepted has between two bytes and the whole buffer, so the recursion ends at any nesting |
| RespParser.ElementsSnoc | src/resp/parser.rs:136-140 | reading one element more continues where the previous ones ended |
| RespParser.StoppedStays | src/resp/parser.rs:137 | the first verdict that is not a value decides the array |
| RespParser.ParseElementsLoop | src/resp/parser.rs:134-142 | the loop that grows the vector and the count computes those elements |
| RespParser.ParseArrayFrame | src/resp/parser.rs:125-143 | `parse_array` computes the array verdict |
| RespParser.ParseFrame | src/resp/parser.rs:45-64 | `parse` computes the verdict |
| RespProofs.FirstLineStable | src/resp/parser.rs:171-178 | a line once found is found again when bytes follow |
| RespProofs.BulkBodyStable | src/resp/parser.rs:103-120 | a verdict on a bulk body never changes when bytes follow |
| RespProofs.BulkOverflow | src/resp/parser.rs:103-110 | a length whose position sum overflows gives Incomplete, or a panic exactly when the wrapped end is inside the buffer; without overflow there is no panic |
| RespProofs.ParseStable | src/resp/parser.rs:45-203 | any verdict but Incomplete is the same for the buffer followed by any bytes, at any nesting |
| RespProofs.ElementsStable | src/resp/parser.rs:136-140 | the same for runs of elements |
| RespProofs.FrameExact | src/resp/parser.rs:45-203 | a frame is recognised from its own bytes alone |
| RespProofs.FrameVerdicts | src/resp/parser.rs:45-203 | every cut of a buffer short of its first frame is Incomplete and every longer one gives that frame |
| RespProofs.LineOf | src/resp/parser.rs:171-178 | a text without CRLF is read back as the first line |
| RespProofs.RoundTrip | src/resp/types.rs:107-125 | parsing a printed value followed by anything returns the value, errors read as simple strings at every depth, and its exact length |
| RespProofs.ElementsRoundTrip | src/resp/types.rs:112-119 | the same for sequences of values |
| RespProofs.NoRoundTrip | src/resp/parser.rs:69-76 | a value with CRLF in a simple string or error, at any depth, never comes back |
| RespProofs.RoundTripExactly | src/resp/types.rs:107-125 | the round trip holds if and only if no simple string or error contains CRLF |
| RespProofs.ParseClean | src/resp/parser.rs:45-203 | every value the parser returns is well formed, free of CRLF in its lines, and contains no error |
| RespProofs.ReprintStable | src/resp/parser.rs:45-203 | a parsed frame printed canonically parses to itself |
| RespProofs.WordsOfSpaced | src/resp/parser.rs:195-198 | words with any white space around and between them are split into those words |
| RespProofs.InlineMeansArray | src/resp/parser.rs:190-203 | an inline line of words parses to the same value as the printed array of those words |
| Grammar.ParserSound | src/resp/parser.rs:45-203 | what the parser accepts has the shape of a frame of the value returned |
| Grammar.ParserComplete | src/resp/parser.rs:45-203 | every frame is accepted with its value and length, whatever follows |
| Grammar.ParserIsGrammar | src/resp/parser.rs:45-203 | the parser returns a value and a length if and only if the buffer starts with a frame of that value and length |
| Verdicts.FlawExactly | src/resp/parser.rs:45-203 | at any nesting: the parser rejects a buffer if and only if it has the shape of a malformed one, and panics if and only if it has the shape of a fatal one |
| Verdicts.HugeCountPanics | src/resp/parser.rs:125-134 | every readable count of two to the 58 or more panics, whatever follows it |
| Verdicts.WaitsExactly | src/resp/parser.rs:45-203 | the parser waits if and only if the buffer holds no frame at its head and is neither malformed nor fatal |
| Verdicts.Completable | src/resp/parser.rs:45-203 | every buffer the parser waits on can be extended to one with a verdict |
| Verdicts.ComplaintExactly | src/resp/parser.rs:45-203 | the complaint about each malformed shape, and that an array passes on the complaint about its first malformed element |
| Store.SameCells | src/database/core.rs:35-38 | a store is determined by the value and deadline of each key |
| Store.PutAt | src/database/core.rs:72-215 | updating one key changes that key's cell and no other |
| Store.FilteredIsSlice | src/database/core.rs:175-180 | the index filter of `lrange` selects one contiguous slice |
| Store.RangeIs | src/database/core.rs:167-182 | the items `lrange` returns for every list and every pair of 32-bit bounds |
| Store.RangeIsRedisSlice | src/database/core.rs:167-182 | for lists of up to the largest `i32` items, exactly when that is the slice Redis documents |
| Store.WholeRange | src/database/core.rs:167-182 | LRANGE 0 -1 returns the whole list if and only if the length is at most two to the 31 or its last index has bit 31 set, and a proper prefix otherwise |
| Lists.PushedList | src/database/core.rs:113-149 | the exact order a run of pushes to a fresh key builds |
| Lists.PushesConserve | src/database/core.rs:113-188 | after any run of pushes to a fresh key, LRANGE 0 -1 returns exactly the multiset pushed if and only if the length can be listed |
| Lists.RPushInParts | src/database/core.rs:134-149 | RPUSH of a concatenation is RPUSH of its parts, in effect and result, on every cell |
| Database.DB.constructor | src/database/core.rs:46-51 | a new store is empty |
| Database.DB.Set | src/database/core.rs:72-84 | the key has the value and exactly the given deadline; nothing else changes |
| Database.DB.IsExpired | src/database/core.rs:219-225 | true exactly for a deadline before now |
| Database.DB.Get | src/database/core.rs:86-105 | result and new maps are those of the operation on the key's cell, lazy expiry included |
| Database.DB.Delete | src/database/core.rs:107-111 | the key is gone from both maps and nothing else changes |
| Database.DB.LPush | src/database/core.rs:113-132 | result and new maps are those of the operation on the key's cell |
| Database.DB.RPush | src/database/core.rs:134-149 | result and new maps are those of the operation on the key's cell |
| Database.DB.FilterRange | src/database/core.rs:175-180 | the loop collects exactly the items whose index passes the filter |
| Database.DB.LRange | src/database/core.rs:151-188 | result and new maps are those of the operation on the key's cell |
| Database.DB.Expire | src/database/core.rs:190-215 | result and new maps are those of the operation on the key's cell |
| Database.DB.Sample | src/database/core.rs:251-263 | for some order of the deadline map and some offset below its size, the twenty keys from there, or all of them if there are fewer |
| Database.DB.PurgeSample | src/database/core.rs:265-277 | exactly the sampled keys past their deadline are removed from both maps, and they are counted |
| Database.DB.ActiveExpirationCycle | src/database/core.rs:244-285 | the self-calling cycle ends for every choice of samples and is a sequence of such passes |
| Expiration.SampleExactly | src/database/core.rs:251-263 | over all orders and offsets, the samples are exactly the sequences of one to twenty distinct keys with a deadline |
| Expiration.OverQuarterMeans | src/database/core.rs:281-282 | the ratio test means that four times the expired exceed the sampled |
| Expiration.PassShrinks | src/database/core.rs:282-284 | a pass that repeats has removed a deadline |
| Expiration.CycleTerminates | src/database/core.rs:244-285 | a call makes at most one pass more than there are deadlines |
| Expiration.CycleRemovesOnlyExpired | src/database/core.rs:265-277 | every key is either untouched in both maps or was past its deadline and is gone from both |
| Expiration.CycleStops | src/database/core.rs:279-285 | a call ends only with no deadline left or after a sample at most a quarter of which was expired |
| Expiration.CycleIsRounds | src/database/core.rs:244-285 | a cycle is determined by its samples and clock readings |
| Interleaving.FourCalls | src/database/core.rs:72-215 | four map calls complete any operation, and alone they amount to the atomic operation |
| Interleaving.SoloIsWhole | src/database/core.rs:72-215 | a client alone does its operations whole, one after another, in at most four calls each |
| Interleaving.OthersUnseen | src/database/core.rs:72-215 | under any schedule a client that runs any sequence of operations, and the keys it names, are where they would be had it run alone for as many calls |
| Interleaving.OtherKeysUntouched | src/database/core.rs:72-215 | keys no client names keep their cell under any schedule |
| Interleaving.FairSchedulesFinish | src/database/core.rs:72-215 | every schedule with four calls per operation completes all clients |
| Interleaving.SerialCell | src/database/core.rs:72-215 | in a serial run a key changes when the client that names it runs |
| Interleaving.InterleavingIsSerial | src/database/core.rs:72-285 | every complete interleaving of clients that name disjoint keys, each with any sequence of operations and purges, leaves the maps and returns the results of running the clients whole in any order |
| Interleaving.PassIsPurges | src/database/core.rs:265-277 | a pass of the expiration cycle is a client that purges the sampled keys |
| Conflicts.CompatibleIsSerial | src/database/core.rs:72-285 | compatible operations on one key end as one before the other, under every interleaving of their map calls |
| Conflicts.TornSets | src/database/core.rs:72-84 | two SETs with different values and deadlines can leave the value of one with the deadline of the other |
| Conflicts.SetLost | src/database/core.rs:75-97 | a read or purge that found the key past its deadline can remove the value a SET has stored and acknowledged since |
| Conflicts.LapsedValueSeen | src/database/core.rs:75-105 | a read can see a new value whose deadline has already passed |
| Conflicts.DeadlineLost | src/database/core.rs:75-111 | DELETE can remove the deadline of a value stored since |
| Conflicts.StringOverwritten | src/database/core.rs:75-138 | a push that found no value can overwrite a string stored since |
| Conflicts.StaleDecision | src/database/core.rs:75-213 | EXPIRE can decide by a deadline that SET is replacing |
| Conflicts.HalfSetSeen | src/database/core.rs:75-213 | EXPIRE can decide on a value whose deadline SET has not stored yet |
| Conflicts.OrphanedByCheck | src/database/core.rs:90-213 | EXPIRE can leave a deadline on a key that a check has emptied |
| Conflicts.OrphanedByDelete | src/database/core.rs:107-213 | EXPIRE can leave a deadline on a key that DELETE has emptied |
| Conflicts.PushLost | src/database/core.rs:113-138 | of two pushes to a fresh key, not both empty, one can be lost though both succeed |
| Conflicts.BothDecided | src/database/core.rs:190-213 | two EXPIREs that decided by the same deadline can leave one no serial order leaves |
| Conflicts.CompatibleExactly | src/database/core.rs:72-285 | on the cell: every interleaving of two operations is serialisable if and only if they are compatible |
| Conflicts.PairsSerialisableExactly | src/database/core.rs:72-285 | on the store, for any two operations on one key: every complete interleaving leaves the maps and results of a serial order if and only if they are compatible on the cell they start from |
| Crowds.CrowdsAreSerialisable | src/database/core.rs:86-188 | any number of pushes on keys with a value and checks on keys with a value not past its deadline: every complete interleaving leaves the maps and results of a serial order |
| Commands.ParseInt | src/utils/mod.rs:1-3 | the result is always a 32-bit number |
| Requests.IntRoundTrip | src/utils/mod.rs:1-3 | an integer survives printing, trimming and parsing if it fits 32 bits and is read as zero otherwise |
| Requests.RequestExtracted | src/command/command.rs:29-222 | the frame of each request, its name in any case, yields exactly the command with its 32-bit numbers and products, or the complaint about an unknown option; for flags in any case see `SpelledFlag` |
| Requests.KeptExactly | src/command/command.rs:78-102 | the command extracted is the command meant, bounds as sent and deadlines that many seconds or milliseconds away, if and only if the numbers are kept |
| Requests.RequestMeant | src/command/command.rs:29-222 | a request yields the command meant if and only if an option is known, no duration is negative, EX is at most 2147483 and no number exceeds 32 bits |
| Requests.SecondsOverflow | src/command/command.rs:88-100 | EX 2147484 and EX 4294968 become deadlines in 584 million years and in 704 milliseconds |
| Requests.SpelledFlag | src/command/command.rs:78-102 | SET with EX or PX in any mix of cases yields the command of the capital flag, which is the command meant if and only if the duration is kept; every other flag is refused |
| CommandGrammar.ExtractionExactly | src/command/command.rs:29-222 | for every frame: extraction yields a command if and only if the frame asks, in any mix of cases and with any surplus arguments, for a request that stands for it |
| CommandGrammar.RefusedExactly | src/command/command.rs:29-222 | a frame is refused if and only if it asks for no request and does not lack arguments in a way that panics |
| CommandGrammar.RefusalExactly | src/command/command.rs:29-222 | the message of every refusal |
| CommandGrammar.TextsAppend | src/command/command.rs:123-152 | the values of a push are its bulk strings in order, anything else is skipped |
| CommandGrammar.ParseIntExactly | src/utils/mod.rs:1-3 | a text is read as a number if and only if it is a 32-bit numeral with white space around it, and as zero if it is none |
| ByteStrings.UpperExactly | src/command/command.rs:37 | two bytes are the same in capitals if and only if they are equal or the two cases of one letter |
| Dispatcher.ExecutePlain | src/command/dispatcher.rs:27-92 | a command outside the transaction machinery changes the store and replies as specified; what that is for each command, the rows of `CommandLaws` say |
| Dispatcher.ErrorStops | src/command/dispatcher.rs:109-114 | nothing runs after the first failing queued command |
| Dispatcher.RunAllExecuted | src/command/dispatcher.rs:107-117 | a batch without error ran every command and has one reply for each |
| Dispatcher.ExecuteQueued | src/command/dispatcher.rs:107-114 | the EXEC loop runs the batch and does not change the flag or the queue |
| Dispatcher.ExecuteCommand | src/command/dispatcher.rs:27-127 | the recursion ends at depth two because no queued command is EXEC, with the specified state and reply; what that is, `MultiLaw`, `DiscardForgets` and `TransactionLaw` say |
| Dispatcher.Dispatch | src/command/dispatcher.rs:9-25 | whatever is dispatched, the queue stays free of MULTI, EXEC and DISCARD and empty outside a transaction |
| Dispatcher.DispatchCommand | src/command/dispatcher.rs:9-25 | `dispatch` has the specified state and reply |
| CommandLaws.TalkLaw | src/command/dispatcher.rs:30-35 | PING, ECHO and SAVE reply Pong, the message and Ok and leave the store alone |
| CommandLaws.OtherKeys | src/database/core.rs:72-215 | a command touches no key but its own |
| CommandLaws.SetLaw | src/command/dispatcher.rs:36-42 | SET replies Ok and leaves the value with exactly the given deadline, whatever the key held |
| CommandLaws.GetLaw | src/command/dispatcher.rs:43-49 | GET replies the string, `nil` without a value or past the deadline, when the key is removed, and the type error on a list |
| CommandLaws.DeleteLaw | src/command/dispatcher.rs:50-55 | DELETE replies Ok as a bulk string and leaves neither value nor deadline |
| CommandLaws.ExpireLaw | src/command/dispatcher.rs:56-61 | EXPIRE replies Ok and keeps the value; NX sets a first deadline, XX, GT and LT change an existing one, GT to the later and LT to the earlier; on a missing key it fails and changes nothing |
| CommandLaws.PushLaw | src/command/dispatcher.rs:62-75 | on a list LPUSH puts its values in front as given and RPUSH behind; without a value LPUSH stores them backwards; both reply Ok and keep the deadline; on a string both fail and change nothing |
| CommandLaws.RangeLaw | src/command/dispatcher.rs:76-92 | LRANGE on a live list replies the listed part of its strings, for every list and every pair of 32-bit bounds, and changes nothing |
| CommandLaws.NoRangeLaw | src/command/dispatcher.rs:76-92 | LRANGE replies `nil` without a value or past the deadline, when the key is removed, and fails on a string |
| CommandLaws.FailsExactly | src/command/dispatcher.rs:27-92 | a command fails exactly on a live value of the wrong type, an EXPIRE of a missing key or an unknown option |
| CommandLaws.PushThenRange | src/command/dispatcher.rs:62-92 | any run of LPUSH and RPUSH commands to a fresh key, then LRANGE with any bounds, is replied the listed part of: later left pushes newest first, the creating push, later right pushes in order |
| CommandLaws.ListedWhole | src/database/core.rs:167-182 | with the bounds 0 and -1 that part is everything if and only if the length can be listed |
| Invariants.CellOpSound | src/database/core.rs:72-215 | every operation of a command of valid strings keeps keys and strings valid and lists flat, and its result too |
| Invariants.CellOpOwned | src/database/core.rs:72-215 | every operation keeps a deadline only on a value |
| Invariants.ExecSound | src/command/dispatcher.rs:27-92 | a command keeps the store valid, and its reply is valid text without a line end in a simple string or error |
| Invariants.DispatchSound | src/command/dispatcher.rs:9-127 | the same for everything dispatched, queued errors and EXEC arrays included |
| Sessions.ErrorsChangeNothing | src/command/dispatcher.rs:27-92 | a failing command leaves both maps as they were |
| Sessions.FirstError | src/command/dispatcher.rs:109-114 | a failing batch stopped at its first failing command with the store of the commands before it |
| Sessions.DispatchErrors | src/command/dispatcher.rs:9-127 | a failing dispatch leaves the maps unchanged, except EXEC, which leaves those of the commands before the failing one |
| Sessions.ExecCanFailHalfway | src/command/dispatcher.rs:106-118 | an EXEC that fails with the store changed and the transaction still open |
| Sessions.Queueing | src/command/dispatcher.rs:20-21 | inside a transaction commands are queued in order, answered QUEUED, and touch nothing else |
| Sessions.Direct | src/command/dispatcher.rs:24 | outside a transaction commands run one by one as a batch does |
| Sessions.TransactionIsBatch | src/command/dispatcher.rs:94-118 | MULTI, the commands and EXEC amount to running the queue |
| Sessions.TransactionLaw | src/command/dispatcher.rs:9-127 | a transaction has the store and the replies of the direct run at the same clock readings, or stops at the first error with the store before it and the queue intact |
| Sessions.MultiLaw | src/command/dispatcher.rs:11-14 | MULTI opens an empty transaction; inside one it fails and leaves the whole session, queue included, as it was |
| Sessions.DiscardForgets | src/command/dispatcher.rs:100-105 | in every session DISCARD leaves the client idle with an empty queue and everything else as it was |
| Sessions.DiscardedTransaction | src/command/dispatcher.rs:9-105 | MULTI, any commands and DISCARD end in exactly the session they started from, with the replies Ok, QUEUED for each command, Ok |
| Sessions.ExecIdle | src/command/dispatcher.rs:106-118 | EXEC without MULTI replies an empty array and changes nothing |
| Worlds.Run | src/command/dispatcher.rs:9-127 | the transaction state of every client stays valid along runs of any clients with cycles, snapshots and restarts |
| Worlds.ReachableClients | src/command/dispatcher.rs:11-24 | in every reachable state the queue of every client holds no MULTI, EXEC or DISCARD and is empty outside a transaction |
| Worlds.LoadSound | src/rdb/reader.rs:23-120 | a store loaded from any bytes has only valid strings and flat lists |
| Worlds.ReachableStores | src/database/core.rs:53-285 | after any run of any clients, with cycles, snapshots and restarts, keys and strings are valid UTF-8 and lists hold only strings |
| Worlds.RestartOwnedExactly | src/rdb/reader.rs:97-99 | after a restart every deadline has a value if and only if no expiring key held an empty list |
| Worlds.ReachableDeadlines | src/database/core.rs:53-285 | every key with a deadline has a value after any run whose snapshots were written without expiring empty lists |
| Worlds.OrphanAfterRestart | src/rdb/reader.rs:97-99 | LPUSH without values, EXPIRE, a snapshot and a restart leave a deadline without a value |
| Worlds.LeaveForgets | src/config/client.rs:94-97 | a client that leaves loses its transaction; the store and the other clients keep theirs |
| Worlds.RestartEmpty | src/database/core.rs:53-70 | a restart without a snapshot starts with an empty store and idle clients, whatever ran before |
| Worlds.RestartBringsBack | src/database/core.rs:53-70 | if no expiring key collides, a restart brings back all values of the last snapshot but empty lists, with converted deadlines and idle clients, whatever ran after it |
| Laws.SetThenGet | src/database/core.rs:72-105 | a value set by one client is what any client reads until its deadline has passed, and `nil` afterwards, whatever all clients do to other keys or read of this one in between, with transactions and cycles |
| Isolation.ActLaw | src/config/client.rs:153-172 | a command goes by its own client's transaction only, is answered to that client, and leaves the transactions of the others |
| Isolation.UnseenUntilExec | src/command/dispatcher.rs:11-22 | a client that opens a transaction and queues commands, while any others do anything with cycles and snapshots, is answered Ok and QUEUED; store, disk, replies and transactions of the others are as if it had done nothing |
| Isolation.TransactionAmongOthers | src/command/dispatcher.rs:9-118 | MULTI, commands and EXEC with anything of other clients in between: EXEC replies and leaves exactly what the same transaction, sent in one go after what the others did, replies and leaves |
| Invisibility.CommandSimulation | src/database/core.rs:86-215 | a command that does not work on a lapsed key answers alike with and without purged keys |
| Invisibility.DispatchSimulation | src/command/dispatcher.rs:9-127 | the same for dispatched commands, transactions included |
| Invisibility.CyclesUnseen | src/database/core.rs:86-285 | runs of any clients with and without cycles give the same replies and end alike |
| Invisibility.ActiveExpirationInvisible | src/database/core.rs:86-285 | cycles inserted anywhere into a run of any clients between two restarts change no reply to any of them, if LPUSH, RPUSH and EXPIRE are used only on keys not past their deadline |
| Invisibility.CycleExists | src/database/core.rs:244-285 | from every store a complete cycle exists |
| Invisibility.SafetyIsExact | src/database/core.rs:113-149 | for every command with a key: no cycle can be noticed by the command and a read after it if and only if it is not an LPUSH, RPUSH or, with a value, EXPIRE on a key past its deadline |
| Connection.ServeFrame | src/config/client.rs:153-172 | serving a frame keeps the transaction invariant and gives an answer of its own or a panic |
| Connection.Connection.constructor | src/config/client.rs:94-97 | a connection starts with an empty buffer, an idle client and nothing pending |
| Connection.Connection.Write | src/config/client.rs:137-177 | everything written grows by exactly the printed value of an answer, or by a minus, the message and CRLF for an error |
| Connection.Connection.Deliver | src/config/client.rs:188-193 | afterwards nothing is pending |
| Connection.Connection.Serve | src/config/client.rs:153-172 | extraction and dispatch of one frame give the specified session and answer |
| Connection.Connection.Advance | src/config/client.rs:149-185 | one frame is consumed and answered, and a deep batch is flushed |
| Connection.Connection.OnRead | src/config/client.rs:126-193 | after a read all complete frames are consumed, every answer is delivered, and at most 1000 non-error replies were written between two deliveries |
| Connection.Connection.Handle | src/config/client.rs:99-196 | the loop amounts to the specified reads one after another, and all answers are delivered at the end |
| Pipelining.DrainSplit | src/config/client.rs:129-186 | draining a buffer and then the rest of the stream is draining both at once |
| Pipelining.HitsMonotone | src/config/client.rs:137-146 | a malformed frame stays malformed whatever follows |
| Pipelining.DrainSettles | src/config/client.rs:129-186 | draining leaves nothing to consume, and malformed bytes leave an empty buffer |
| Pipelining.CutsAgree | src/config/client.rs:99-194 | any cut of a stream not malformed early does what one read of it would do |
| Pipelining.CutAfterInvalid | src/config/client.rs:137-146 | a byte after malformed bytes is kept in the next read and lost in the same read |
| Pipelining.ChunkIndependence | src/config/client.rs:99-194 | every way of cutting a stream gives the frames, replies, session and tail of one read if and only if no malformed frame is met before the last byte |
| Streams.HitsInvalidExactly | src/config/client.rs:129-146 | draining meets malformed bytes if and only if the buffer is complete frames that do not panic, followed by malformed bytes; session and clock do not matter |
| Streams.CutsMatterExactly | src/config/client.rs:99-194 | chunk independence with its condition on the bytes alone |
| Pipelining.OneAnswerPerFrame | src/config/client.rs:126-193 | in every run each consumed frame has exactly one answer, in order |
| Pipelining.DrainPrinted | src/config/client.rs:129-186 | the bytes of printed values are drained into exactly those values |
| Pipelining.PipelinedClient | src/config/client.rs:99-194 | a client that sends printed values in any pieces is served exactly those values |
| Replies.ParseValid | src/resp/parser.rs:45-203 | every string of a parsed frame is valid UTF-8, for every buffer |
| Replies.ParseMessage | src/resp/parser.rs:45-203 | every complaint of the parser is one printable line |
| Replies.CrashesExactly | src/command/command.rs:51-222 | extraction panics exactly on the listed commands with too few arguments |
| Replies.DiesExactly | src/config/client.rs:153-172 | in every session a frame ends the connection if and only if it is a known command that lacks arguments |
| Replies.AnswerDecodesExactly | src/config/client.rs:153-177 | in every valid session, a frame that does not panic is answered with something that decodes to the answer if and only if its command name has no line end |
| Replies.RepliesDecode | src/config/client.rs:153-177 | the bytes of answers decode to them if and only if none has CRLF in a simple string or error |
| Replies.DrainAnswers | src/config/client.rs:129-186 | draining serves frames off the front of the buffer, one answer each, and only malformed bytes add an answer of their own |
| Replies.ReceiveWrites | src/config/client.rs:126-193 | over one read the bytes written grow by exactly the answers it adds: values as printed, refused and malformed input as a minus, the message and CRLF |
| Replies.ConnectionDecodesExactly | src/config/client.rs:99-196 | whatever bytes arrive in whatever pieces, the bytes written decode to the answers if and only if no consumed frame had a line end in its command name |
| Replies.UnknownCommandSplitsReply | src/command/command.rs:219 | the command name CRLF gives such an answer in every session |
| Replies.UnknownCommandAnswered | src/command/command.rs:219 | in every session an unknown name with any arguments is answered with the bytes of `-Unknown command: `, the name in capitals and CRLF |
| Streams.DrainAliveExactly | src/config/client.rs:129-186 | a running connection survives draining its buffer if and only if the buffer is not lethal |
| Streams.AliveExactly | src/config/client.rs:99-196 | the connection lives on if and only if no consumed frame is a known command that lacks arguments and no read brings fatal bytes behind complete frames |
| Streams.StreamAliveExactly | src/config/client.rs:99-196 | a stream not malformed before its last byte is survived, however it is cut, if and only if it is not lethal |
| Streams.HugeCountEnds | src/resp/parser.rs:125-134 | a count of two to the 58 or more ends the connection in every session |
| RdbFormat.ReadRecord | src/rdb/reader.rs:33-117 | every turn of the reader's loop advances |
| RdbFormat.SavedMillis | src/rdb/writer.rs:75-89 | the stored milliseconds fit 64 bits |
| RdbProofs.BigEndianRoundTrip | src/rdb/reader.rs:186-190 | a number that fits the width is read back |
| RdbProofs.LittleEndianRoundTrip | src/rdb/reader.rs:143 | a number that fits the width is read back |
| RdbProofs.RecordStable | src/rdb/reader.rs:33-117 | a record read is read again when the file is longer |
| RdbProofs.LengthRoundTrip | src/rdb/writer.rs:112-120 | both length forms are read back and start with a byte that is no opcode |
| RdbProofs.StringRoundTrip | src/rdb/writer.rs:122-126 | a stored string is read back |
| RdbProofs.ItemsRoundTrip | src/rdb/writer.rs:48-52 | the items of a list are read back with the key |
| RdbProofs.ListEntryRoundTrip | src/rdb/writer.rs:45-53 | a list is read back, an empty one as nothing |
| RdbProofs.ExpiryRoundTrip | src/rdb/reader.rs:101-113 | a deadline is read back if and only if its key is not a data type token, and otherwise the file is an error |
| RdbProofs.RecordRoundTrip | src/rdb/reader.rs:33-117 | every record means what was written or is an error |
| RdbProofs.CutRecordFails | src/rdb/reader.rs:33-117 | a cut inside a record is an error |
| RdbProofs.LoadCut | src/rdb/reader.rs:33-119 | loading any prefix of the records does the whole records in it or fails |
| RdbLayout.ByteOrder | src/rdb/writer.rs:75-120 | lengths are big-endian, milliseconds little-endian |
| RdbLayout.LengthLayout | src/rdb/writer.rs:112-120 | a length below 64 is that byte, a longer one 0x80 and four bytes |
| RdbLayout.EmptyLayout | src/rdb/writer.rs:30-37 | the snapshot of an empty store, byte by byte |
| RdbLayout.SavedMoment | src/rdb/writer.rs:75-89 | a deadline is stored as its moment on the wall clock, a passed one as that of the save, to the millisecond |
| RdbLayout.StringLayout | src/rdb/writer.rs:39-96 | the snapshot of a string with a deadline, byte by byte, for every short key and value |
| RdbLayout.ListLayout | src/rdb/writer.rs:45-53 | the record of a list, byte by byte, for every short key and items |
| RdbLayout.HeaderRead | src/rdb/reader.rs:122-131 | a file is read beyond its header if and only if that has nine bytes and starts with REDIS; the version is not looked at |
| RdbLayout.SelectorRead | src/rdb/reader.rs:40-42 | the number of the database is read and ignored |
| RdbLayout.OpcodeFirst | src/rdb/reader.rs:44-48 | a deadline with its opcode in front is read for every key, those that read `string` or `list` included |
| RdbLayout.EndMarker | src/rdb/reader.rs:33-119 | records, an end marker and anything behind it load as the records alone |
| RdbLayout.FirstKeyCounts | src/rdb/reader.rs:75-95 | a list is bound to the key of its first item, whatever keys the others carry |
| RdbLayout.MarkNeeded | src/rdb/reader.rs:61-84 | a value without its zero mark is an error |
| RdbLayout.BadStart | src/rdb/reader.rs:181-195 | a record that starts with no opcode and no length form is an error |
| RdbLayout.LaterRecordCounts | src/rdb/reader.rs:71-112 | of two records for one key the later one counts |
| Snapshots.SnapshotRoundTrip | src/rdb/writer.rs:30-126 | in every iteration order: loading fails if and only if an expiring key collides, and otherwise returns every value but empty lists and every expiring key with its converted deadline |
| Snapshots.SnapshotExactly | src/rdb/writer.rs:30-126 | the same data map and expiring keys come back if and only if no expiring key collides and no list is empty |
| Snapshots.LongStringRejected | src/rdb/writer.rs:112-126 | a string of two to the 32 bytes that starts with a letter makes the whole file unreadable |
| Snapshots.TruncatedSnapshot | src/rdb/reader.rs:23-120 | loading a prefix succeeds exactly on a cut between readable records and yields a part of the saved store |
| Snapshots.PassedDeadline | src/rdb/writer.rs:79-83 | a deadline passed at saving is the moment of loading |
| Snapshots.DeadlineNotLater | src/rdb/reader.rs:139-156 | a reloaded deadline is not before the load and not later than the greater of the original and the load |
| Snapshots.DeadlineLoss | src/rdb/writer.rs:85-89 | exactly when less than a millisecond is lost |
| Snapshots.SnapshotDeadlines | src/rdb/writer.rs:65-96 | the three deadline laws for every deadline of a loaded snapshot |
| RdbFiles.SnapshotWriter.WriteLength | src/rdb/writer.rs:112-120 | the length code is appended |
| RdbFiles.SnapshotWriter.WriteString | src/rdb/writer.rs:122-126 | the string code is appended |
| RdbFiles.SnapshotWriter.WriteValue | src/rdb/writer.rs:98-110 | the value code is appended |
| RdbFiles.SnapshotWriter.WriteExpiry | src/rdb/writer.rs:65-96 | the deadline record is appended |
| RdbFiles.SnapshotWriter.WriteList | src/rdb/writer.rs:45-53 | the list record is appended, items that are no strings skipped |
| RdbFiles.SnapshotWriter.WriteEntry | src/rdb/writer.rs:40-54 | the entry record is appended |
| RdbFiles.SnapshotWriter.WriteEntries | src/rdb/writer.rs:39-56 | every value is written exactly once, in some order |
| RdbFiles.SnapshotWriter.WriteExpiries | src/rdb/writer.rs:58-60 | every deadline is written exactly once, in some order |
| RdbFiles.SnapshotWriter.Save | src/rdb/writer.rs:18-22 | the file is the header and the records of the store in some order of each map |
| RdbFiles.SnapshotReader.Exact | src/rdb/reader.rs:122-124 | the cursor moves over exactly the bytes returned, or fails at the end |
| RdbFiles.SnapshotReader.Byte | src/rdb/reader.rs:133-137 | the next byte, or a failure at the end |
| RdbFiles.SnapshotReader.LengthFrom | src/rdb/reader.rs:181-195 | the length form is read as specified |
| RdbFiles.SnapshotReader.Length | src/rdb/reader.rs:176-179 | the length is read as specified |
| RdbFiles.SnapshotReader.StringFrom | src/rdb/reader.rs:167-174 | the string is read as specified |
| RdbFiles.SnapshotReader.String | src/rdb/reader.rs:158-165 | the string is read as specified |
| RdbFiles.SnapshotReader.Expiry | src/rdb/reader.rs:139-143 | the milliseconds are read as specified |
| RdbFiles.SnapshotReader.Items | src/rdb/reader.rs:75-95 | the loop reads all items and keeps the first key |
| RdbFiles.SnapshotReader.KeyValue | src/rdb/reader.rs:79-88 | marker, key and value are read as specified |
| RdbFiles.SnapshotReader.ListRecord | src/rdb/reader.rs:73-100 | a list is bound to its key, an empty one to nothing |
| RdbFiles.SnapshotReader.TokenRecord | src/rdb/reader.rs:59-114 | the token chooses between a string, a list and a deadline |
| RdbFiles.SnapshotReader.Deadline | src/rdb/reader.rs:111-112 | the converted deadline is bound to the key |
| RdbFiles.SnapshotReader.Record | src/rdb/reader.rs:39-116 | one turn of the loop has the specified effect |
| RdbFiles.SnapshotReader.Records | src/rdb/reader.rs:33-117 | the loop succeeds exactly when the specification does, with the same store |
| RdbFiles.SnapshotReader.Parse | src/rdb/reader.rs:23-120 | the reader succeeds exactly when the specification does, with the same store |
| Server.ReachableStorable | src/database/core.rs:290-304 | every reachable store with lengths below two to the 32 fits the format |
| Server.SaveAndRestart | src/database/core.rs:53-70 | after any run of any clients, with restarts before, a restart gets values and expiring keys back if and only if no expiring key collides and no list is empty |
| Server.NegativeExpiry | src/command/command.rs:99-102 | every negative duration: the key does not lapse in memory before two to the 64 milliseconds, and after a restart it is past at once if and only if the wall clock was at least that many milliseconds after the epoch, and otherwise exact to the millisecond |
| Server.RequestServed | src/config/client.rs:153-172 | the frame of a request is extracted at its own clock reading and dispatched, or refused |
| Server.PipelinedRequests | src/config/client.rs:99-194 | requests pipelined in pieces of any size are answered once each, in order, as if handled one by one, without a crash and with no byte left |

## Left out

- Sockets, accept loops, port selection and socket options, keep-alive and capacity hints.
- Failures of writes and flushes on the socket; a failed read ends the loop as in the code.
- Allocation failure and stack overflow; the capacity overflow of a huge array count is an outcome of the model, for a value size of 32 bytes.
- Deadlocks of the sharded map under nested read guards.
- Interleavings of more than two operations on one key, other than pushes and checks on live values: the table is for pairs. The guard a check holds between its first two calls is not modelled; the second call alone decides, so no outcome depends on it.
- The live snapshot taken by SAVE while other clients write: a save starts from two given maps. SAVE replies and leaves the store alone.
- In runs of several clients a command, EXEC included, is one step; how the map calls inside commands interleave is the subject of `Interleaving`, `Conflicts` and `Crowds`.
- File creation, flush and the atomic rename.
- The quality of the random sampling, logging, and Redis features the code does not implement.
- Store.RangeIsRedisSlice: for lists longer than the largest `i32` what is returned is stated by `RangeIs`, but not when that has the same items as the documented slice.
- Snapshots.SnapshotRoundTrip: assumes strings and lists shorter than two to the 32, where lengths are not truncated, and flat lists; every reachable store is flat. Beyond that length a family of failures is shown, not what every file is read as.
- Snapshots.SnapshotExactly: the same bound on lengths.
- Snapshots.TruncatedSnapshot: the same bound on lengths.
- Server.SaveAndRestart: the same bound on lengths.
- Worlds.RestartBringsBack: the same bound on lengths.
- Snapshots.DeadlineNotLater: assumes one offset between the two clocks and a load not before the save.
- RespProofs.ParseClean: assumes a buffer whose words fit one allocation.
- Invisibility.ActiveExpirationInvisible: for runs between two restarts; a snapshot stores a key past its deadline with the present as its deadline, so at the very instant of loading it can be read again.
- Conflicts.PairsSerialisableExactly: for SETs of strings, which is all that SET stores.
- Verdicts.FlawExactly: for buffers of at most the largest `isize` bytes, as every buffer of the implementation is.
- Verdicts.WaitsExactly: the same bound on the buffer.
- Streams.HitsInvalidExactly: the same bound on the buffer.
- Streams.DrainAliveExactly: the same bound on the buffer.
- Streams.AliveExactly: the same bound on every buffer of the run.
- Streams.CutsMatterExactly: the same bound on the stream.
- Streams.StreamAliveExactly: the same bound on the stream.
- CommandLaws.RangeLaw: for lists of at most the largest `isize` items, as every list of the implementation is.
- CommandLaws.PushThenRange: the same bound on the list.
- CommandLaws.ListedWhole: the same bound on the list.
- Replies.UnknownCommandAnswered: for names and arguments that fit in memory.
- Replies.ConnectionDecodesExactly: assumes that the answers fit in memory, as every value of the implementation does.
