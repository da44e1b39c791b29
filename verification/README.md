# Verification of the concurrent and algorithmic parts of the repository

The repository is a collection of small Java programs.  Most of it is plumbing around libraries; the parts below have
logic of their own, and this project models them in Dafny and proves what they promise, or, where a promise is false of
the code, exactly when it holds.

| files | what they model |
|---|---|
| `DoubleBarrier`, `BarrierProgress`, `BarrierCompletion`, `BarrierEvents`, `BarrierMachine` | the ZooKeeper double barrier (two copies of one protocol) as a step system: node creation and deletion, `getChildren` with a one-shot watch, the mutex with `wait` and `notify`, the watcher thread, spurious wake-ups |
| `ElementName`, `ElementQueue`, `QueueProgress`, `QueueNames`, `QueueEvents`, `QueueMachine` | the ZooKeeper producer-consumer queue with any number of racing consumers, which look elements up by the names the code rebuilds or, as it means to, by number |
| `Bits`, `Sequences`, `Quanta`, `Base64Spec`, `Base64Laws`, `Base64Codec`, `Base64Strings`, `Base64Bits` | the hand-written Base64 codec (section 4 of RFC 4648): its laws, its loops over signed bytes, its two decoders, and what they compute bit by bit |
| `IdGenerator` | the Snowflake-style id generator over an arbitrary clock |
| `CounterRun`, `CounterMachine` | threads that increment a counter between two generations of a cyclic barrier |
| `Utf8Detector` | the UTF-8 detector with its 32-bit score |
| `Text`, `ZipNames`, `ZipRoundTrip`, `ZipWriter` | flattening a directory tree into archive entries, by two different writers |
| `Ranges`, `Download`, `SplitFile` | sharing a download out among five threads, and splitting a file into pieces, with the memory-mapped writer that runs and the chunk buffer that is switched off |
| `Options`, `Decimal`, `Grouping`, `GroupFiles`, `GroupLosses` | grouping spreadsheet rows twice and writing a file for each group |

Concurrent code is a step system: a state, actions with a guard (`Enabled`) and an effect (`Apply`), and lemmas about every
run.  The `*Machine` files hold the same state in place, in a class whose methods take one action at a time and are proved
to do what `Apply` says, so that whatever schedule is executed stays within the runs the lemmas speak of; their step methods
only carry `Apply` over and are no results of their own.  Sequential code is a method with the loops of the source, proved against a function or a property; an exception is a `None`, a `Thrown` or
a `false` result.  The order in which a hash map is walked is a parameter.

## What turned out not to hold

- **Barrier.** A fast participant may delete its node before a slow one has read the full list.  The slow one then waits
  in `enter` for good and the fast one in `leave`.  `QuiescentIff` says that a quiescent state is either all done or
  split in this way, `EverySplitHappens` that every split of the participants does happen, and `CompletesIff` that a run
  which has come to rest has brought everybody through if and only if nobody deleted its node while another had
  neither returned from `enter` nor read the full list.
- **Queue names.** `consume` parses the zero-padded suffix of a node name to an `Integer` and prints it again without the
  padding, so it asks for a node that does not exist unless the smallest number has all ten digits
  (`ConsumeFindsItsMinimum`).  The first element ever created decides (`FirstElementDecides`): if its number is below
  1000000000, nothing is ever deleted or returned.  Once the producers have stopped, the consumers come to rest if and only if
  nobody wants an element or every number is at least 1000000000; otherwise they retry for ever
  (`ComesToRestByNumber`, `OneElementRetries`).  What is proved of `ElementQueue` holds for look-up by name and by number;
  for look-up by number the consumers always come to rest (`ComesToRestIff`).
- **Ids.** The message for a clock that has moved backwards says that ids are refused, but the code only logs it and goes
  on.  `UniqueIff` gives the exact condition for distinct ids, `NoReturnNoRepeat` one on the clock alone, and
  `RollbackRepeats` the shortest repetition.
- **Base64 of large arrays.** `encode` computes the length of its result as `(4 * realCount) / 3` in 32 bits.  It throws for
  every multiple of three above 536870910 bytes, and for every other count above 1610612732 (`RoundTrip`).
- **Base64 of strings.** The filter of `decode(String)` looks at the low byte of a character only, the table look-up at the
  whole character: U+0141 passes as `A` and then throws (`LowByteOnly`).
- **UTF-8 score.** `100 * goodbytes` wraps around from 21474837 good bytes on, and then every text is refused, also one
  that consists of accepted sequences alone (`PerfectTextRefused`).  `AcceptsIff`, `SplitAcceptedIff` and
  `BmpTextAcceptedIff` give the decision exactly, for every text, and `AcceptsByPatterns` on its bytes alone.  Overlong forms and
  surrogates count as sequences (`SequenceIff`).
- **Splitting a file.** The first range is always a whole piece, so a file shorter than one piece is mapped, and thereby
  grown, beyond its end (`SplitRanges`).  The writer that runs maps each output from the start of its range on, so every
  output but the first begins with a hole of that size, and an output that was longer before keeps its tail.  The joined
  outputs are the file only if it is exactly one piece (`SplitAll`); cut down to their ranges they are the mapped
  file, provided that a piece is not too long to be mapped.  The other writer, `splitByByteArr`, copies just its range (`SplitByByteArr`), but its call is commented out.
- **Download.** A local file that was longer than the download keeps its tail (`FileIsSource`).
- **Grouped files.** A missing charge prints like the text "null", so the two share a directory and one of two files of the
  same name is not written (`LostExactly`, `NothingLostIff`, `MissingChargeClashes`); the count in a file's name counts rows without a
  number, which get no line (`CountIsLines`); and city and payment property joined by `_` can be confused
  (`SameKeyIff`, `KeyConfuses`).

## Model

| member | source | states |
|---|---|---|
| `DoubleBarrier.StepInv` | study/src/main/java/com/zy/zookeeper/government/Barrier.java:67-105 | every atomic action of a worker thread or a watcher keeps the protocol invariant |
| `DoubleBarrier.RunInv` | study/src/main/java/com/zy/zookeeper/government/Barrier.java:67-105 | every state of every run, under any interleaving, satisfies the invariant |
| `DoubleBarrier.BarrierSafety` | study/src/main/java/com/zy/zookeeper/Barrier/Barrier.java:52-80 | nobody is past `enter` before all have created their node; nobody returns from `leave` before all have passed `enter` and deleted theirs, and then no child is left |
| `DoubleBarrier.MutualExclusion` | study/src/main/java/com/zy/zookeeper/government/SyncPrimitive.java:35-40 | the worker and the watcher are never both inside `synchronized (mutex)`, and the mutex is free exactly when neither is |
| `DoubleBarrier.NoLostWakeup` | study/src/main/java/com/zy/zookeeper/government/Barrier.java:72-76 | a waiting participant without a queued event has its watch armed and has last read the children that are there now, which still make it wait |
| `DoubleBarrier.QuiescentIff` | study/src/main/java/com/zy/zookeeper/government/Barrier.java:71-104 | a reachable state is quiescent if and only if no event is in flight and either all are done or the participants with a node wait in `enter` and all others in `leave` |
| `BarrierProgress.StepRank` | study/src/main/java/com/zy/zookeeper/government/Barrier.java:67-105 | every action other than a spurious wake-up lowers a rank of the state |
| `BarrierProgress.RunBounded` | study/src/main/java/com/zy/zookeeper/government/Barrier.java:67-105 | so a run without spurious wake-ups has at most rank-many steps: no livelock |
| `BarrierCompletion.CompletesIff` | study/src/main/java/com/zy/zookeeper/government/Barrier.java:67-105 | a run that has come to rest has brought everybody through if and only if no participant deleted its node while another had neither returned from `enter` nor read a full list |
| `BarrierCompletion.EarlyDeleteStrands` | study/src/main/java/com/zy/zookeeper/government/Barrier.java:93-94 | after such a delete not everybody gets through, however the run goes on |
| `BarrierCompletion.DisciplinedCompletes` | study/src/main/java/com/zy/zookeeper/government/Test.java:59-99 | so if nobody deletes before all have returned from `enter`, a run that cannot go on has everybody done |
| `BarrierProgress.EverySplitHappens` | study/src/main/java/com/zy/zookeeper/government/Barrier.java:71-104 | from every initial state and for every non-empty proper subset there is a run that leaves just that subset waiting in `enter` for good |
| `BarrierMachine.Machine.FireWatches` | study/src/main/java/com/zy/zookeeper/government/Barrier.java:73-97 | the in-place loop disarms every watch, queues one more event exactly where a watch was armed, and touches nothing else |
| `BarrierEvents.FireOnce` | study/src/main/java/com/zy/zookeeper/government/Barrier.java:73-97 | in the step system: after a create or delete no watch is armed, the queued events grow by one exactly where one was, and a second change adds none |
| `BarrierEvents.EventsAccounted` | study/src/main/java/com/zy/zookeeper/government/SyncPrimitive.java:35-40 | in every run and for every participant: events handled plus queued are those queued at the start plus one for each change that found the watch armed, and such changes are at most its calls of `getChildren` |
| `BarrierMachine.Machine.LoopStep` | study/src/main/java/com/zy/zookeeper/government/Barrier.java:71-104 | one action inside the wait loop of `enter` or `leave`, in place, is the step of the system |
| `BarrierMachine.Machine.ProcessStep` | study/src/main/java/com/zy/zookeeper/government/SyncPrimitive.java:35-40 | one action of the watcher callback, in place, is the step of the system |
| `BarrierMachine.Machine.Run` | study/src/main/java/com/zy/zookeeper/government/Test.java:59-99 | under any schedule the in-place machine ends in a reachable state, and if anybody has left, all nodes are gone and all have deleted theirs |
| `ElementQueue.GetPutInt` | study/src/main/java/com/zy/zookeeper/government/Queue.java:48-53 | four signed bytes written by `putInt` are read back by `getInt`, for every 32-bit value |
| `ElementQueue.BigEndian` | study/src/main/java/com/zy/zookeeper/government/Queue.java:48-53 | the four bytes are the value in base 256, most significant first |
| `ElementQueue.StepInv` | study/src/main/java/com/zy/zookeeper/government/Queue.java:47-96 | every action of producers, consumers and watchers keeps the invariant, also look-ups that fail beside a node that is still there |
| `ElementQueue.DeletesInCreationOrder` | study/src/main/java/com/zy/zookeeper/government/Queue.java:78-88 | at every moment the successful deletes are in creation order and older than all that is left |
| `ElementQueue.NothingLost` | study/src/main/java/com/zy/zookeeper/government/Queue.java:87-92 | an element was created if and only if it is still a node or held by a consumer |
| `ElementQueue.ReturnedAtMostOnce` | study/src/main/java/com/zy/zookeeper/government/Queue.java:87-92 | an element held by a consumer is no longer a node, is held by no other, and was not returned before |
| `ElementQueue.ReturnsWhatWasProduced` | study/src/main/java/com/zy/zookeeper/government/Queue.java:87-92 | each returned value is the value produced under its number, and one consumer's numbers increase |
| `ElementQueue.Conservation` | study/src/main/java/com/zy/zookeeper/government/Queue.java:47-96 | at every moment produced = returned + in flight + still present |
| `ElementQueue.RunOwes` | study/src/main/java/com/zy/zookeeper/government/Test.java:46-55 | what a consumer still owes plus what it has returned never changes: a lost race is retried, not counted |
| `QueueProgress.StepRank` | study/src/main/java/com/zy/zookeeper/government/Queue.java:71-95 | every action of a consumer or its watcher lowers a rank of the state, except the look-up of a node that is there under a name it does not have: a lost race is paid for by the delete that won it |
| `QueueProgress.RunBounded` | study/src/main/java/com/zy/zookeeper/government/Test.java:46-55 | when every node can be looked up, or nobody wants one, a run without productions and spurious wake-ups has at most rank-many steps |
| `QueueNames.FirstElementDecides` | study/src/main/java/com/zy/zookeeper/government/Queue.java:78-88 | for the code's look-up by name: if the first number ever created is at least 1000000000 every node can be looked up; otherwise that element stays and nothing is ever deleted, held or returned |
| `QueueNames.ComesToRestIff` | study/src/main/java/com/zy/zookeeper/government/Test.java:46-55 | in every state of a run, for either look-up: the runs without productions and spurious wake-ups from there are bounded if and only if every node can be looked up or nobody wants one |
| `QueueNames.ComesToRestByNumber` | study/src/main/java/com/zy/zookeeper/government/Test.java:46-55 | for the code's look-up by name that is so if and only if nobody wants an element or every number ever created is at least 1000000000 |
| `QueueNames.RetriesForEver` | study/src/main/java/com/zy/zookeeper/government/Test.java:50-52 | while the first element cannot be looked up and a consumer wants one, there are runs of retries of any length |
| `QueueNames.OneElementRetries` | study/src/main/java/com/zy/zookeeper/government/Test.java:46-55 | one element numbered 0 and one consumer that wants it are enough |
| `QueueEvents.FireOnce` | study/src/main/java/com/zy/zookeeper/government/Queue.java:73-76 | a create or delete disarms every watch, queues one event exactly where one was armed, and changes nothing else of a consumer |
| `QueueEvents.EventsAccounted` | study/src/main/java/com/zy/zookeeper/government/Queue.java:73-76 | in every run and for every consumer: events handled plus queued are those queued at the start plus one for each change that found the watch armed, and such changes are at most its calls of `getChildren` |
| `ElementQueue.QuiescentDelivers` | study/src/main/java/com/zy/zookeeper/government/Test.java:46-55 | when nobody can go on, the number returned is the smaller of the number produced and the number asked for; which runs get there is the subject of `QueueNames` |
| `ElementName.PickMin` | study/src/main/java/com/zy/zookeeper/government/Queue.java:78-85 | the search loop finds a listed number that no listed number is below |
| `ElementName.RebuiltIsListed` | study/src/main/java/com/zy/zookeeper/government/Queue.java:78-88 | for any width, the rebuilt name is the listed one if and only if the suffix has no leading zero |
| `ElementName.NodeNameShape` | study/src/main/java/com/zy/zookeeper/government/Queue.java:54-80 | a node name parses to its number, and its number begins with a zero exactly below 1000000000 |
| `ElementName.FoundIff` | study/src/main/java/com/zy/zookeeper/government/Queue.java:78-87 | the name that is asked for is the node's own if and only if the number is at least 1000000000 |
| `ElementName.NameOfSeven` | study/src/main/java/com/zy/zookeeper/government/Queue.java:54-87 | literally: node 7 is named element0000000007 and asked for as element7 |
| `ElementName.ConsumeFindsItsMinimum` | study/src/main/java/com/zy/zookeeper/government/Queue.java:78-88 | `consume` asks for a node that exists if and only if the smallest number is at least 1000000000 |
| `QueueMachine.Machine.ConsumerStep` | study/src/main/java/com/zy/zookeeper/government/Queue.java:71-95 | one action of a consumer, in place, is the step of the system |
| `QueueMachine.Machine.DeleteNode` | study/src/main/java/com/zy/zookeeper/government/Queue.java:88-88 | the delete, in place: when the name that is asked for is that of a node it takes the node, records it and fires the watches; otherwise it changes nothing but the consumer |
| `QueueMachine.Machine.Run` | study/src/main/java/com/zy/zookeeper/government/Test.java:26-57 | any schedule executed in place is a run of the step system and keeps the invariant |
| `Base64Codec.BuildDecodingTable` | cfcaTest/src/main/java/com/cfca/utils/Base64.java:14-30 | the static initialiser gives each letter its value and every other index -1 |
| `Base64Codec.EncodingTableIs` | cfcaTest/src/main/java/com/cfca/utils/Base64.java:5-9 | the encoding table has 64 entries, the letters in the order of RFC 4648 |
| `Base64Codec.IsValidBase64Byte` | cfcaTest/src/main/java/com/cfca/utils/Base64.java:202-211 | true exactly for the 64 letters and `=` |
| `Base64Codec.DiscardNonBase64Bytes` | cfcaTest/src/main/java/com/cfca/utils/Base64.java:178-189 | the copying loop keeps just the valid bytes in order |
| `Base64Codec.EncodeQuantum` | cfcaTest/src/main/java/com/cfca/utils/Base64.java:46-52 | the shifts, masks and ors on signed bytes give the four letters of a 24-bit group |
| `Base64Codec.EncodeLoop` | cfcaTest/src/main/java/com/cfca/utils/Base64.java:45-53 | the loop fills the result with the whole quanta, or throws exactly when an index is negative or the result too short |
| `Base64Codec.EncodeSwitch` | cfcaTest/src/main/java/com/cfca/utils/Base64.java:59-82 | the three padding cases fill the last four places, or throw for want of data |
| `Base64Codec.Encode` | cfcaTest/src/main/java/com/cfca/utils/Base64.java:32-84 | for every array and offset, also negative and too large ones and lengths that wrap around, the result or exception is the specified one |
| `Base64Codec.DecodeLoop` | cfcaTest/src/main/java/com/cfca/utils/Base64.java:100-108 | the loop stores the bytes of the quanta it visits, or throws exactly when they do not fit |
| `Base64Codec.DecodeData` | cfcaTest/src/main/java/com/cfca/utils/Base64.java:93-128 | decoding a filtered text, with all sizes, branches and exceptions |
| `Base64Codec.Decode` | cfcaTest/src/main/java/com/cfca/utils/Base64.java:86-129 | for every byte array, the result or exception is the specified one |
| `Base64Spec.DecodeOfEncode` | cfcaTest/src/main/java/com/cfca/utils/Base64.java:46-52 | decoding the four letters of any three bytes gives the bytes |
| `Base64Spec.EncodeOfDecode` | cfcaTest/src/main/java/com/cfca/utils/Base64.java:101-107 | encoding the three bytes of any four letters gives the letters |
| `Base64Bits.Alphabet` | cfcaTest/src/main/java/com/cfca/utils/Base64.java:5-9 | the letters are literally A to Z, a to z, 0 to 9, + and /, and the padding is = |
| `Base64Bits.ValidIff` | cfcaTest/src/main/java/com/cfca/utils/Base64.java:202-211 | just the 64 letters have a value, and just they and = pass the filter |
| `Base64Bits.TwentyFourBits` | cfcaTest/src/main/java/com/cfca/utils/Base64.java:46-52 | read in base 64, four letters are the number that the three bytes are in base 256 |
| `Base64Bits.TwelveBits` | cfcaTest/src/main/java/com/cfca/utils/Base64.java:63-70 | one left-over byte: its bits and four zero bits in two letters, then == |
| `Base64Bits.EighteenBits` | cfcaTest/src/main/java/com/cfca/utils/Base64.java:71-79 | two left-over bytes: their bits and two zero bits in three letters, then = |
| `Base64Bits.DecodeBits` | cfcaTest/src/main/java/com/cfca/utils/Base64.java:101-107 | any four characters, malformed ones included, decode to the shifts and ors of their table values, -1 for what is no letter |
| `Base64Bits.DecodeOutcomes` | cfcaTest/src/main/java/com/cfca/utils/Base64.java:86-129 | for every text: when decoding throws, which characters are left out, and how many bytes it gives |
| `Base64Bits.PastTheEnd` | cfcaTest/src/main/java/com/cfca/utils/Base64.java:32-82 | an offset one or two past the end gives four zero bytes, four or five past it none, and any other up to 536870912 throws |
| `Base64Bits.TestVectors` | cfcaTest/src/main/java/com/cfca/utils/Base64.java:32-84 | six of the test vectors of section 10 of RFC 4648 |
| `Base64Laws.RoundTrip` | cfcaTest/src/main/java/com/cfca/utils/Base64.java:32-129 | for every array and offset within it, `encode` returns if and only if at most 536870910 bytes are left (1610612732 when their number is no multiple of three), and then `decode(encode(data, offset))` is `data[offset..]`, or throws when no byte is left |
| `Base64Laws.CanonicalIff` | cfcaTest/src/main/java/com/cfca/utils/Base64.java:32-129 | on every text that decodes, encoding the result gives the filtered text back if and only if it is well-formed with zero trailing bits (section 3.5 of RFC 4648) |
| `Base64Laws.WellFormedDecodes` | cfcaTest/src/main/java/com/cfca/utils/Base64.java:86-129 | every well-formed text decodes without an exception, to three bytes a quantum less one for each `=` |
| `Base64Laws.ForeignBytesIgnored` | cfcaTest/src/main/java/com/cfca/utils/Base64.java:92-92 | bytes outside the alphabet and `=` may be inserted anywhere without changing the outcome |
| `Base64Strings.DiscardNonBase64Chars` | cfcaTest/src/main/java/com/cfca/utils/Base64.java:191-200 | the loop keeps the characters whose low byte is valid |
| `Base64Strings.DecodeString` | cfcaTest/src/main/java/com/cfca/utils/Base64.java:131-176 | for every string of UTF-16 units, the result or exception is the specified one |
| `Base64Strings.AgreementIff` | cfcaTest/src/main/java/com/cfca/utils/Base64.java:86-211 | the two decoders agree if and only if the filtered text is one that decoding throws on anyway or every character that is looked up is below 128 |
| `Base64Strings.AgreementBelow256` | cfcaTest/src/main/java/com/cfca/utils/Base64.java:131-200 | they agree on every string of characters below 256 |
| `Base64Strings.LowByteOnly` | cfcaTest/src/main/java/com/cfca/utils/Base64.java:191-200 | a string on which they differ |
| `Base64Bits.NotLookedUp` | cfcaTest/src/main/java/com/cfca/utils/Base64.java:131-176 | but a character whose low byte is = may stand last without harm |
| `IdGenerator.IdWorker.Create` | study/src/main/java/com/zy/utils/IdWorker.java:21-27 | a generator is made exactly for numbers 0 to 15 |
| `IdGenerator.IdWorker.TilNextMillis` | study/src/main/java/com/zy/utils/IdWorker.java:56-62 | the spin loop returns the first reading past the last timestamp and leaves the readings after it |
| `IdGenerator.IdWorker.NextId` | study/src/main/java/com/zy/utils/IdWorker.java:29-54 | one call, in place: id, new fields and readings consumed, for every clock |
| `IdGenerator.EveryReadingIssued` | study/src/main/java/com/zy/utils/IdWorker.java:29-62 | for every clock: an id is issued at every reading, except that a reading in the millisecond whose number 1023 has just been issued is passed over, with all after it up to the first later one; the ids of an entered millisecond are numbered from 0 |
| `IdGenerator.OneMillisecond` | study/src/main/java/com/zy/utils/IdWorker.java:31-39 | a clock that shows one millisecond n times, n at most 1024, gives n ids with that timestamp, numbered 0 to n - 1 |
| `IdGenerator.IdIsSum` | study/src/main/java/com/zy/utils/IdWorker.java:49-49 | the shifts and ors add up without overlap: (t - 1361753741828) * 16384 + worker * 1024 + sequence, also for readings before that date |
| `IdGenerator.Unpack` | study/src/main/java/com/zy/utils/IdWorker.java:4-13 | timestamp, worker and sequence number can be read back from the id |
| `IdGenerator.UniqueIff` | study/src/main/java/com/zy/utils/IdWorker.java:29-62 | for every clock, the ids of a run are distinct if and only if no used millisecond is left and used again |
| `IdGenerator.NoReturnNoRepeat` | study/src/main/java/com/zy/utils/IdWorker.java:29-62 | a condition on the clock alone: when no value it shows is left and shown again, the ids are distinct |
| `IdGenerator.MonotoneClock` | study/src/main/java/com/zy/utils/IdWorker.java:29-62 | with a clock that does not go back ids strictly increase, and ids of one millisecond are fewer than 1024 calls apart |
| `IdGenerator.WorkersNeverCollide` | study/src/main/java/com/zy/utils/IdWorker.java:21-62 | generators with different numbers never issue the same id, whatever their clocks do |
| `IdGenerator.CollideIff` | study/src/main/java/com/zy/utils/IdWorker.java:13-62 | two generators, or one before and after a restart, issue a common id if and only if they have the same number and both issue ids in a common millisecond |
| `IdGenerator.RollbackRepeats` | study/src/main/java/com/zy/utils/IdWorker.java:40-48 | a clock set back by one millisecond makes a generator repeat an id |
| `CounterRun.StepInv` | study/src/main/java/com/zy/thread/Test.java:43-78 | every action of main and of the workers keeps the invariant of barrier, lock and count |
| `CounterRun.NoEarlyIncrement` | study/src/main/java/com/zy/thread/Test.java:45-72 | nothing is counted before all threads and main have reached the first barrier |
| `CounterRun.NoLostUpdate` | study/src/main/java/com/zy/thread/Test.java:94-136 | although `count++` is a load and a store, the count is at every moment the number of stores, and at most one thread is inside the lock |
| `CounterRun.ExactCount` | study/src/main/java/com/zy/thread/Test.java:48-78 | once the second barrier has opened, the count is exactly threads times loops |
| `CounterRun.MainPassesLast` | study/src/main/java/com/zy/thread/Test.java:49-52 | main is past the second barrier only when it has opened, so what it reports is that product |
| `CounterRun.RunCompletes` | study/src/main/java/com/zy/thread/Test.java:43-78 | every run that cannot go on has reported the product with all threads finished, after exactly threads * (4 * loops + 5) + 5 steps |
| `CounterMachine.Machine.AwaitBarrier` | study/src/main/java/com/zy/thread/Test.java:29-29 | the arrival at the barrier, in place: the last of threads + 1 parties begins a new generation |
| `CounterMachine.Machine.WorkerStep` | study/src/main/java/com/zy/thread/Test.java:68-77 | one action of a worker, in place, is the step of the system |
| `CounterMachine.Machine.Run` | study/src/main/java/com/zy/thread/Test.java:43-57 | any schedule executed in place is a run, and a reported value is threads times loops |
| `Utf8Detector.IsUtf8` | study/src/main/java/com/zy/halfbytechinese/StringSpiltByByte.java:115-155 | the loop decides what the specification does, within bounds and without dividing by zero, 32-bit product included |
| `Utf8Detector.SequenceIff` | study/src/main/java/com/zy/halfbytechinese/StringSpiltByByte.java:126-137 | an accepted sequence is, bit by bit and nothing else, 0xxxxxxx, 110xxxxx 10xxxxxx, or 1110xxxx 10xxxxxx 10xxxxxx |
| `Utf8Detector.ScanCountsAll` | study/src/main/java/com/zy/halfbytechinese/StringSpiltByByte.java:124-140 | the loop, jumping over what it finds, counts each two- or three-byte pattern that stands anywhere in the text and each ASCII byte, however malformed the rest |
| `Utf8Detector.AcceptsByPatterns` | study/src/main/java/com/zy/halfbytechinese/StringSpiltByByte.java:141-153 | the decision on the bytes alone: at most 21474836 bytes in patterns, and they are 99 percent of the bytes outside ASCII, of which there are some, or 96 percent and more than 30 |
| `Utf8Detector.NoPatternRefused` | study/src/main/java/com/zy/halfbytechinese/StringSpiltByByte.java:115-155 | a text without such a pattern is refused |
| `Utf8Detector.GbkRefused` | study/src/main/java/com/zy/halfbytechinese/StringSpiltByByte.java:128-137 | so are two characters of GBK |
| `Utf8Detector.SplitsIff` | study/src/main/java/com/zy/halfbytechinese/StringSpiltByByte.java:122-140 | the greedy loop counts every byte if and only if the text can be cut into accepted sequences in some way |
| `Utf8Detector.PerfectIff` | study/src/main/java/com/zy/halfbytechinese/StringSpiltByByte.java:141-144 | the score of a text that is not all ASCII is 100 if and only if it splits entirely into accepted sequences and has at most 21474836 good bytes; it is never more |
| `Utf8Detector.AcceptsIff` | study/src/main/java/com/zy/halfbytechinese/StringSpiltByByte.java:141-153 | every text is accepted if and only if it is not all ASCII, has at most 21474836 good bytes, and reaches one of the two percentages, computed exactly |
| `Utf8Detector.SplitAcceptedIff` | study/src/main/java/com/zy/halfbytechinese/StringSpiltByByte.java:115-155 | a text that splits entirely into accepted sequences is accepted if and only if it has between 1 and 21474836 good bytes |
| `Utf8Detector.PointPayload` | study/src/main/java/com/zy/halfbytechinese/StringSpiltByByte.java:128-137 | the payload bits of the encoding of a code point in the Basic Multilingual Plane, 7, 5 + 6 or 4 + 6 + 6, give it back |
| `Utf8Detector.BmpTextAcceptedIff` | study/src/main/java/com/zy/halfbytechinese/StringSpiltByByte.java:115-155 | every text of the Basic Multilingual Plane, encoded by section 3 of RFC 3629, is accepted if and only if its characters outside ASCII take between 1 and 21474836 bytes |
| `Utf8Detector.PerfectTextRefused` | study/src/main/java/com/zy/halfbytechinese/StringSpiltByByte.java:144-153 | more than 10737418 two-byte characters make a text that splits entirely and is refused |
| `ZipNames.BuildItems` | study/src/main/java/com/zy/zip/ZipTest.java:34-55 | rebuilding from the flattened items gives the tree, or without directory items the tree without empty directories |
| `ZipNames.SmallTreeEntries` | study/src/main/java/com/zy/zip/ZipTest.java:34-55 | literally: a tree with a file d/f and an empty directory d/e becomes /, d/, d/e/ and d/f |
| `ZipNames.SmallTreeFiles` | resolveexcel/src/main/java/com/zy/util/ZipCompressor.java:69-122 | and, by the other writer under root r, the one entry r/d/f |
| `ZipNames.PruneKeepsFiles` | resolveexcel/src/main/java/com/zy/util/ZipCompressor.java:81-93 | pruning keeps every file with its path, and leaves no directory without a file |
| `ZipRoundTrip.ComponentsJoin` | study/src/main/java/com/zy/zip/ZipTest.java:40-42 | a joined name splits back into its path |
| `ZipRoundTrip.ZipThenRebuild` | study/src/main/java/com/zy/zip/ZipTest.java:34-55 | for every tree with good names, rebuilding from the entry names and contents gives the tree, empty directories included |
| `ZipRoundTrip.ZipNamesDistinct` | study/src/main/java/com/zy/zip/ZipTest.java:34-55 | the entry names are pairwise distinct |
| `ZipRoundTrip.CompressThenRebuild` | resolveexcel/src/main/java/com/zy/util/ZipCompressor.java:69-122 | the other writer's entries are distinct and rebuild to the tree under its root name, pruned of directories without files |
| `ZipWriter.CompleteIff` | study/src/main/java/com/zy/zip/ZipTest.java:39-46 | all entries are written if and only if no name occurs twice; otherwise a prefix with distinct names |
| `ZipWriter.Zip` | study/src/main/java/com/zy/zip/ZipTest.java:34-55 | the recursive method on the shared stream appends the entries up to the first duplicate, and reports whether there was one |
| `ZipWriter.ZipAll` | study/src/main/java/com/zy/zip/ZipTest.java:27-32 | a whole run on a well-named tree meets no duplicate, and the archive rebuilds to the tree |
| `ZipWriter.SkipKeepsNames` | resolveexcel/src/main/java/com/zy/util/ZipCompressor.java:105-115 | skipping duplicates loses no name and keeps names distinct |
| `ZipWriter.Compress` | resolveexcel/src/main/java/com/zy/util/ZipCompressor.java:69-78 | the recursive method appends the file entries whose names are not taken |
| `ZipWriter.CompressFile` | resolveexcel/src/main/java/com/zy/util/ZipCompressor.java:95-122 | one file, in chunks of any size up to the buffer's; a duplicate is skipped |
| `ZipWriter.CompressAll` | resolveexcel/src/main/java/com/zy/util/ZipCompressor.java:52-67 | a whole run leaves all files, and rebuilds to the pruned tree |
| `Ranges.EndToEndIsPartition` | study/src/main/java/com/zy/nio/multithreaddownload/MultiThreadDownload.java:51-67 | ranges that lie end to end cover every position exactly once |
| `Download.DownloadRanges` | study/src/main/java/com/zy/nio/multithreaddownload/MultiThreadDownload.java:47-69 | the five ranges start at multiples of a fifth, rounded toward zero; four have that length and the last takes the rest; they partition the content if and only if its length is known |
| `Download.FillWindow` | study/src/main/java/com/zy/nio/multithreaddownload/MultiThreadDownload.java:97-104 | the copy loop fills its window with the bytes the stream delivers from its start on |
| `Download.StepInv` | study/src/main/java/com/zy/nio/multithreaddownload/MultiThreadDownload.java:93-108 | every mapping or byte write of any worker keeps what the others have written |
| `Download.UnfinishedMoves` | study/src/main/java/com/zy/nio/multithreaddownload/MultiThreadDownload.java:93-108 | no worker waits for another: whoever has not copied its whole range can go on |
| `Download.DownloadCompletes` | study/src/main/java/com/zy/nio/multithreaddownload/MultiThreadDownload.java:93-108 | for every interleaving, a run that cannot go on leaves the delivered bytes and any old tail, after one step per worker and one per byte |
| `Download.FileIsSource` | study/src/main/java/com/zy/nio/multithreaddownload/MultiThreadDownload.java:96-107 | the file is the source if and only if the local file was not longer before |
| `SplitFile.SplitRanges` | study/src/main/java/com/zy/nio/split/SplitBigFile.java:28-62 | there are as many ranges as splitSize goes into the length, rounded up; range k starts at k * splitSize, and all but the last are whole pieces, as is the first; they partition the file if and only if it is at least one piece long (or empty with pieces of one byte) |
| `SplitFile.JoinPieces` | study/src/main/java/com/zy/nio/split/SplitBigFile.java:33-60 | pieces cut out along such ranges, joined in order, are the file |
| `SplitFile.SplitByByteArr` | study/src/main/java/com/zy/nio/split/SplitBigFile.java:175-262 | the chunk loop, whose call is commented out, writes exactly the mapped bytes in order for every length an int can hold, and ends normally if and only if the length is at most 2147481600; beyond it the loop variable wraps and the read throws |
| `SplitFile.SplitByByte` | study/src/main/java/com/zy/nio/split/SplitBigFile.java:110-167 | the memory-mapped writer: the output holds the bytes of the range at the range's own start, and nothing else of it that was there changes; a range too long to map leaves it as it was |
| `SplitFile.SplitAll` | study/src/main/java/com/zy/nio/split/SplitBigFile.java:28-102 | a whole run: what every output holds, for every size; when a piece can be mapped, the outputs of a file that is not empty, cut down to their ranges, are the mapped file; joined as they are, they are the file if and only if it is exactly one piece and the output was not longer before (or it is empty and pieces are one byte) |
| `Grouping.FilterByPay` | resolveexcel/src/main/java/com/zy/servlet/ResolveExcelServlet.java:236-253 | each charge that occurs, and no other, has its rows in their order; null exactly for an empty list |
| `Grouping.GroupByKey` | resolveexcel/src/main/java/com/zy/servlet/ResolveExcelServlet.java:279-292 | the same for city and payment property within a charge |
| `Grouping.FilterByCityAndPayProp` | resolveexcel/src/main/java/com/zy/servlet/ResolveExcelServlet.java:261-301 | each charge fills one line of the array, in the order in which the map is walked, with its rows grouped |
| `Grouping.TwoPasses` | resolveexcel/src/main/java/com/zy/servlet/ResolveExcelServlet.java:236-301 | for each charge and key the two passes give exactly the order-preserving filter of the input, and every row has a group |
| `Grouping.SelectIs` | resolveexcel/src/main/java/com/zy/servlet/ResolveExcelServlet.java:236-292 | the filter is said by positions: increasing, and just those of the rows with the key |
| `Grouping.SameKeyIff` | resolveexcel/src/main/java/com/zy/servlet/ResolveExcelServlet.java:285-285 | two rows share a key if and only if city and payment property print alike, or one city goes on, after the other and an underscore, with the beginning of the other's payment property |
| `Grouping.KeyTellsApart` | resolveexcel/src/main/java/com/zy/servlet/ResolveExcelServlet.java:285-285 | so without underscores in cities keys tell them apart |
| `Grouping.KeyConfuses` | resolveexcel/src/main/java/com/zy/servlet/ResolveExcelServlet.java:285-285 | the shortest confusion |
| `GroupFiles.FileNameInjective` | resolveexcel/src/main/java/com/zy/servlet/ResolveExcelServlet.java:340-340 | file names are equal if and only if key and count are |
| `GroupFiles.NameOfTwelve` | resolveexcel/src/main/java/com/zy/servlet/ResolveExcelServlet.java:340-340 | literally: key Y_Z with twelve rows gives Y_Z_12.txt |
| `GroupFiles.WriteFile` | resolveexcel/src/main/java/com/zy/servlet/ResolveExcelServlet.java:369-383 | the loop writes the lines of the group, which `LinesAre` and `LineCounts` describe |
| `GroupFiles.LinesAre` | resolveexcel/src/main/java/com/zy/servlet/ResolveExcelServlet.java:378-382 | the lines are, by increasing positions, exactly the numbers of the rows whose number is neither missing nor empty |
| `GroupFiles.LineCounts` | resolveexcel/src/main/java/com/zy/servlet/ResolveExcelServlet.java:380-380 | each text other than the empty one is a line as often as a row has it for its number; the empty one never is |
| `GroupFiles.Workspace.GeneFileByObjs` | resolveexcel/src/main/java/com/zy/servlet/ResolveExcelServlet.java:310-360 | in any workspace and for any order of keys: the groups are written one after the other, each unless its file exists |
| `GroupFiles.Workspace.Resolve` | resolveexcel/src/main/java/com/zy/servlet/ResolveExcelServlet.java:83-96 | the files that the rows leave, for every order in which the hash maps may be walked |
| `GroupFiles.OutcomeWritten` | resolveexcel/src/main/java/com/zy/servlet/ResolveExcelServlet.java:310-360 | in every order old files stay, each new file holds the lines of a group with its path, and every group's path has a file |
| `GroupFiles.FirstJobWins` | resolveexcel/src/main/java/com/zy/servlet/ResolveExcelServlet.java:341-350 | of groups that share a path the first one written keeps the file |
| `GroupLosses.FilesAreGroups` | resolveexcel/src/main/java/com/zy/servlet/ResolveExcelServlet.java:310-405 | in a fresh workspace without clashes each file holds the numbers of the rows with its path, in order |
| `GroupLosses.ChargesDifferNoClash` | resolveexcel/src/main/java/com/zy/servlet/ResolveExcelServlet.java:319-323 | there is no clash when no two charges print alike |
| `GroupLosses.LostExactly` | resolveexcel/src/main/java/com/zy/servlet/ResolveExcelServlet.java:310-405 | in a fresh workspace, for any given order in which the hash maps are walked: written and lost lines are together each non-empty number as often as a row has it, and nothing is lost if and only if every group whose path an earlier one has carries no number |
| `GroupLosses.NothingLostIff` | resolveexcel/src/main/java/com/zy/servlet/ResolveExcelServlet.java:310-405 | so no order loses a line if and only if no group with numbers shares its path with another; otherwise an order is constructed that does |
| `GroupLosses.NoEmptyLine` | resolveexcel/src/main/java/com/zy/servlet/ResolveExcelServlet.java:380-380 | in any workspace and order, no line of a new file is empty |
| `GroupLosses.CountIsLines` | resolveexcel/src/main/java/com/zy/servlet/ResolveExcelServlet.java:340-340 | a remark: the count in a name is the number of lines if and only if every row of the group has a number |
| `GroupLosses.MissingChargeClashes` | resolveexcel/src/main/java/com/zy/servlet/ResolveExcelServlet.java:319-323 | a row without a charge and one with the charge "null" clash |

## Left out

- ZooKeeper sessions, reconnects, expiry of ephemeral nodes, exceptions from `enter` and `leave`, and events that arrive before the constructor has set `mutex`.
- The barrier is modelled for exactly as many participants as its size, each entering and leaving once under a name of its own, with an empty root at the start.
- The queue's root has no other children; a foreign child such as the barrier's own root would make `consume` throw while parsing its name.
- The wrap-around of ZooKeeper's sequence counter and of `Integer`, which limit the numbers of queue elements.
- Threads are interleaved atomic actions on one memory; Java's memory model is represented by the locks and the barrier only.
- InterruptedException, and broken or timed-out cyclic barriers.
- Base64Codec.Encode: requires at most 2147483645 bytes, the longest array virtual machines allow; running out of memory is not modelled.
- The conversions between text and bytes in `encode(String, String)` and `decode(String, String)`, and what the programs print.
- IdGenerator.UniqueIff: assumes clock readings from 1970 on whose shifted difference stays within 64 bits; further readings would wrap around.
- Negative thread and loop counts, and counts beyond a `long`, in the counter run.
- Utf8Detector.IsUtf8: requires an array shorter than 2147483647 bytes, the length at which `i + 2` would wrap around.
- Zip compression, checksums, character sets of names, files that vanish while they are read, and the exception older Java versions throw when an archive without entries is closed.
- Download: a file is mapped and grown in one atomic action, `skip` skips fully, and the server delivers one unchanging stream.
- SplitFile.SplitRanges: requires a positive piece size and at most 2147483647 pieces, the reach of the `int` loop variable.
- Output files of the splitter are told apart by thread name, and two threads are taken to have different ones.
- `SplitBigTxtFile` trims its output in a way that keeps no useful property.
- Reading the spreadsheet, file-name escaping, and path separators inside charges and keys; directories are told apart by the printed charge alone.
- Exceptions while a file is written, which the servlet logs.
- Everything else in the repository is not modelled: certificates, ciphers, PDF, HTTP, JMX, JMS, mail, Spring configuration, user interface, and small utilities.
