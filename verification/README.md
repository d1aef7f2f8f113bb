# ChronoCap, modelled and proved in Dafny

ChronoCap records pub/sub messages. Producer threads push records into a lock-free
multi-producer ring, one writer thread drains the ring into a self-describing `.bin` log, and a
reader parses the log and calls back with each record at its original relative time. This project
models the ring, the log format with its reader, the writer, the replay scheduler and the folds that
connect them to message types, and proves what each promises and what they promise together.

`dafny verify dfyconfig.toml` checks everything.

## How the model is laid out

| file | contents |
|---|---|
| `Bits.dfy` | `&`, `\|`, `<<`, `>>` bit by bit; masks and wrapping counters as arithmetic |
| `WireFormat.dfy` | little-endian integers, file header, table entry, record header; buffer routines |
| `LogFormat.dfy` | the log as a value; round trip, torn tail, tiling, unambiguity |
| `Layouts.dfy` | every layout byte by byte, and exactly which files are accepted |
| `RingModel.dfy`, `RingTheorems.dfy` | the ring with one step per call, any capacity, unbounded tickets; laws of every run of calls that do not overlap |
| `RingBuffer.dfy` | the ring object: slot array, wrapping 64-bit cursors, wrapping drop counter |
| `RingInterleaved.dfy`, `RingInterleavedTheorems.dfy`, `RingInterleavedOrder.dfy` | the ring with one step per shared-memory access, any number of pushes in flight; its laws |
| `RingSerial.dfy`, `RingPlay.dfy` | how the two ring models relate, in both directions |
| `RingRaces.dfy`, `RingOvertaking.dfy` | what overlapping pushes cost, each as an exact condition |
| `FlushSchedule.dfy` | when the writer syncs and what stays pending |
| `RecordWriter.dfy` | Open, the writer thread interleaved with producers, final drain, Close, short and failing writes |
| `ReplaySchedule.dfy` | callback start times as a max-plus recurrence |
| `RecordReader.dfy` | the parse loop and the two record loops, with and without pacing |
| `PayloadCodec.dfy`, `TopicRegistry.dfy` | the joystick codec; lists of message types |
| `GenericRecorder.dfy`, `GenericReplayer.dfy` | the set-up, advertise and dispatch folds |
| `EndToEnd.dfy` | push, pop, bytes, parse, callback, composed |
| `Crashes.dfy` | what an fsync covers and what a crash can lose |
| `Messages.dfy` | samples to publications through recorder, writer, reader and replayer |

Decisions worth knowing:

- A push that finds its slot occupied has already consumed its ticket, so after a drop the writer's
  cursor is ahead of the reader's. The header comment of the ring and the README of the system speak
  of a plain buffer; the code is followed. What is lost depends on whether pushes overlap, and the
  first three lines are exact conditions:

  | property | calls that do not overlap | memory accesses, lap premise |
  |---|---|---|
  | pops in queue order | no drop, or one slot (`QueueExactly`) | no drop, or one slot (`InterleavedOrderExactly`); pop k is then ticket k (`UndroppedFifo`) |
  | a failing pop means empty | drops a multiple of n (`HonestEmptyExactly`) | no drop, or one slot (`InterleavedEmptyExactly`) |
  | overtaken by less than b | b >= n, or one slot (`ReorderingExactly`) | b >= 2n, or one slot (`InterleavedReorderingExactly`) |
  | pop i of its slot | `KthPop` | `InterleavedKthPop` |
  | a stalled reader moves after a lap | `BoundedStall` | `InterleavedStall`, without the premise |

  `AtomicExactly` says when the left column may be used: exactly when at most one push is in flight
  at a time, however the consumer's accesses fall.
- The check of the ready flag does not protect two producers one lap apart from each other. The lap
  premise (ticket t + n is not claimed while ticket t is unfinished) is what makes records whole;
  what a caller can check is the number of pushes in flight, and `MixtureExactly` shows that more
  than one is already too many for any capacity. The reader premise (a ticket is claimed less than n
  ahead of the reader) implies the lap premise and excludes drops. Even then a pop may report empty
  after a later ticket's push has returned, while an earlier one is unfinished: `EarlyEmpty`, and
  `WindowEmptyExactly` for when it cannot.
- Other threads are modelled inside `RecordWriter` by a script of push batches, one before each access
  of the writer thread to the ring and before each look at the shutdown flag, so these pushes do not
  overlap each other or the writer's accesses; `closeAt` is the batch after which the shutdown request
  is visible. Every theorem holds for every script. Overlapping pushes are `InterleavedSession` and `InterleavedMessages`.
- A file write appends any positive number of bytes or fails, chosen freely at each call. After a failed
  write nothing is promised about later records, because the writer ignores the failure; every contract
  about the file's contents is for files without a failed write, plus the exact prefix a failing call
  leaves (`Appended`).
- The writer's documentation bounds the loss at a crash by what is still in the ring. The code does
  not: `DrainedUnsynced` gives runs that drain the ring and sync nothing, and `NothingLostExactly`
  says when no written record can be lost. A crash is taken to keep some prefix of the file that is
  no shorter than what was synced.
- `Close` syncs without zeroing the pending count and `Open` does not zero it either, so a session can
  begin with a count carried over from earlier ones; its first flush drops it. "Covered plus pending
  equals written" therefore holds, as long as fewer than 2^32 records are uncovered, if and only if the
  count was zero at Open or the session has flushed (`PendingInSession`), and `Close` leaves zero if
  and only if nothing was pending at the last reading of the clock or the interval had passed by then.
- A type wider than a slot can be announced and subscribed, but none of its samples is ever recorded;
  `RecordAndRepublish` says so.
- Wake-up delays, callback costs, signal times, the clock, the operating system's and the middleware's
  answers are parameters or free choices.
- Offsets and file sizes are unbounded naturals: on a 64-bit system a file offset is below 2^63 and the
  added sizes are at most 2^32, so the source's additions do not wrap.

## Model

| member | source | states |
|---|---|---|
| Bits.WrappedMask | include/chrono_cap/mpsc_ring_buffer.hpp:90-91 | For every capacity 2^k up to 2^64 and every unbounded n, masking the wrapped 64-bit counter selects slot n mod 2^k. |
| Bits.PowerOfTwoTest | include/chrono_cap/mpsc_ring_buffer.hpp:69 | For c >= 1 the static assertion holds if and only if c is a power of two. |
| WireFormat.EncodeU16 | include/chrono_cap/wire_format.hpp:25-29 | Writes the two little-endian bytes of v and touches nothing else in the buffer. |
| WireFormat.EncodeU32 | include/chrono_cap/wire_format.hpp:39-45 | Writes the four little-endian bytes of v and touches nothing else. |
| WireFormat.EncodeU64 | include/chrono_cap/wire_format.hpp:57-63 | The shift-and-mask loop writes the eight little-endian bytes of v and touches nothing else. |
| WireFormat.DecodeU16 | include/chrono_cap/wire_format.hpp:32-36 | The shift-and-or expression is the value the two bytes stand for. |
| WireFormat.DecodeU32 | include/chrono_cap/wire_format.hpp:48-54 | The shift-and-or expression is the value the four bytes stand for. |
| WireFormat.DecodeU64 | include/chrono_cap/wire_format.hpp:66-74 | The or-accumulating loop yields the value the eight bytes stand for. |
| WireFormat.ValLE | include/chrono_cap/wire_format.hpp:57-74 | Decoding undoes encoding for every value that fits the width. |
| WireFormat.LEVal | include/chrono_cap/wire_format.hpp:57-74 | Every byte string is the encoding of its own value, so encodings are unique. |
| WireFormat.SerializeFileHeader | include/chrono_cap/wire_format.hpp:124-131 | Fills the 32-byte buffer with magic, version, count, creation time and eight zero bytes. |
| WireFormat.DeserializeFileHeader | include/chrono_cap/wire_format.hpp:134-144 | Refuses exactly when the first eight bytes are not 73, 50, 87, 76, 79, 71, 0, 0; otherwise returns the decoded fields. |
| WireFormat.FileHeaderRoundTrip | include/chrono_cap/wire_format.hpp:124-144 | Parsing any file that starts with a serialised header returns that header. |
| WireFormat.SerializeTopicMeta | include/chrono_cap/wire_format.hpp:157-164 | Fills the 38-byte buffer with id, size and the name cut at its NUL and zero padded. |
| WireFormat.DeserializeTopicMeta | include/chrono_cap/wire_format.hpp:166-172 | Returns the decoded id and size and the raw 32 name bytes. |
| WireFormat.TopicMetaRoundTrip | include/chrono_cap/wire_format.hpp:157-172 | Parsing a serialised entry anywhere in a file returns its id and size and its padded name field. |
| WireFormat.NameField | src/core/record_writer.cpp:104-107 | The 32-byte field left by the bounded print reads back as the name cut at its first NUL and at 31 bytes. |
| WireFormat.SerializeRecordHeader | include/chrono_cap/wire_format.hpp:185-190 | Fills the 18-byte buffer with topic id, stamp and sequence number. |
| WireFormat.DeserializeRecordHeader | include/chrono_cap/wire_format.hpp:192-197 | Returns the three decoded fields at the given offset. |
| WireFormat.RecordHeaderRoundTrip | include/chrono_cap/wire_format.hpp:185-197 | Parsing a serialised record header anywhere returns it. |
| WireFormat.RecordHeaderBytesOf | include/chrono_cap/wire_format.hpp:185-197 | Re-serialising a parsed record header gives back the bytes it was parsed from. |
| LogFormat.ByIdIsLast | src/core/record_reader.cpp:138-139 | Starting from an empty lookup, the id of an entry maps to the entry at the last position holding that id. |
| LogFormat.ByIdEntry | src/core/record_reader.cpp:138-139 | Every id the lookup knows comes from some entry of the table with that id. |
| LogFormat.WalkTiles | src/core/record_reader.cpp:216-262 | On arbitrary bytes: delivered records agree with the table, lie inside the file, tile it contiguously from the start, re-serialise to exactly the bytes consumed, and delivery stops only where no record can be read. |
| LogFormat.WalkIsLongest | src/core/record_reader.cpp:216-262 | Every sequence of records that tiles the region is a prefix of what is delivered, so delivery is the unique longest tiling. |
| LogFormat.Unambiguous | include/chrono_cap/wire_format.hpp:175-197 | For a fixed table two sequences of well-sized records with the same bytes are equal, although no record stores its length. |
| LogFormat.TornRegion | src/core/record_reader.cpp:216-262 | A record region cut at any byte delivers exactly the records wholly before the cut. |
| LogFormat.WhollyInsideCount | src/core/record_reader.cpp:230-236 | For every cut there is exactly one number of records wholly inside. |
| LogFormat.TornLog | src/core/record_writer.cpp:116-142 | A log cut at any byte past its table replays exactly the records wholly before the cut, in order. |
| LogFormat.TornPreamble | src/core/record_reader.cpp:102-128 | A log cut inside its header or table is refused. |
| LogFormat.TableRoundTrip | src/core/record_reader.cpp:121-146 | The written table parses to the same topics in order, each name cut as stored. |
| LogFormat.ParsePreamble | src/core/record_writer.cpp:83-114 | Parsing what the writer laid down succeeds with the same topics and the records starting at 32 + 38 * count. |
| LogFormat.StoredTable | src/core/record_reader.cpp:134-139 | Cutting names on disk changes neither the ids nor the sizes the lookup returns. |
| LogFormat.LogRoundTrip | src/core/record_writer.cpp:83-142 | A log reads back as its records if and only if every record's topic is in the table and its length is that topic's size. |
| Layouts.FileHeaderLayout | include/chrono_cap/wire_format.hpp:124-131 | The header byte by byte: the eight magic bytes, version at 8, count at 12, creation time at 16, each least significant byte first, and zeros from 24. |
| Layouts.TopicLayout | src/core/record_writer.cpp:99-112 | A table entry byte by byte: id at 0, size at 2, and at 6 the name up to its NUL or 31 bytes, then zeros. |
| Layouts.RecordLayout | src/core/record_writer.cpp:123-138 | A record byte by byte: id at 0, stamp at 2, sequence number at 10, payload from 18. |
| Layouts.LogLayout | src/core/record_writer.cpp:83-142 | A log is its header with version 1 and the count, entry j at 32 + 38 * j, and from 32 + 38 * count each record where those before it end. |
| Layouts.HeaderRead | src/core/record_reader.cpp:109-119 | On any bytes a header is read exactly when the magic is there, and its fields are those bytes, whatever the reserved ones hold. |
| Layouts.TopicRead | src/core/record_reader.cpp:130-137 | On any bytes an entry's id and size are the bytes at 0 and 2 and its name runs from 6 to its first NUL. |
| Layouts.TableRead | src/core/record_reader.cpp:121-145 | Entry j of the table is read at 32 + 38 * j. |
| Layouts.RecordHeaderRead | include/chrono_cap/wire_format.hpp:192-197 | On any bytes a record header's fields are the bytes at 0, 2 and 10. |
| Layouts.AcceptedExactly | src/core/record_reader.cpp:100-147 | A file is accepted if and only if it has 32 bytes, the eight magic bytes, version bytes 1, 0, 0, 0, and at least 32 + 38 * count bytes. |
| RingModel.RunInv | include/chrono_cap/mpsc_ring_buffer.hpp:82-137 | Every run of calls that do not overlap keeps the ring invariant: in reader order an empty slot before a ready one was last visited by an earlier ticket than the one stored there, and ready slots are less than a lap out of order. |
| RingModel.BoundedReordering | include/chrono_cap/mpsc_ring_buffer.hpp:90-135 | In every run of calls that do not overlap, with any drops: a record popped before one with an earlier ticket is less than one capacity ahead of it. |
| RingTheorems.Conservation | include/chrono_cap/mpsc_ring_buffer.hpp:85-135 | In every reachable state between whole calls claimed = dropped + accepted and accepted = popped + ready; an oversize push changes nothing. |
| RingTheorems.ContentsConserved | include/chrono_cap/mpsc_ring_buffer.hpp:82-137 | As multisets, accepted entries are the popped ones together with those in the slots. |
| RingTheorems.KthPop | include/chrono_cap/mpsc_ring_buffer.hpp:121-135 | In every run of whole calls, with any drops: pop number i returns the (i / n)-th record ever accepted into slot i mod n. |
| RingTheorems.HonestEmpty | include/chrono_cap/mpsc_ring_buffer.hpp:121-125 | For calls that do not overlap: when a pop fails and the drop count is a multiple of the capacity no slot is ready. |
| RingTheorems.DrainedAll | src/core/record_writer.cpp:75-79 | For calls that do not overlap: a drain that ends in a failing pop after such a number of drops has popped exactly the records ever accepted. |
| RingTheorems.Stranding | include/chrono_cap/mpsc_ring_buffer.hpp:90-125 | For every drop count not a multiple of the capacity there is a run with that many drops whose pop fails while a record waits. |
| RingTheorems.HonestEmptyExactly | include/chrono_cap/mpsc_ring_buffer.hpp:97-125 | For calls that do not overlap: a failed pop is guaranteed to mean empty, for a given drop count, if and only if that count is a multiple of the capacity. `RingOvertaking.InterleavedEmptyExactly` is the condition when pushes overlap. |
| RingTheorems.BoundedStall | include/chrono_cap/mpsc_ring_buffer.hpp:90-125 | Once n valid pushes have been made since the reader found its slot empty, with pops interleaved or not, the reader has moved or can move. |
| RingTheorems.PushBurst | include/chrono_cap/mpsc_ring_buffer.hpp:90-125 | Of n pushes in a row exactly one targets the reader's empty slot, it is accepted, and the next pop returns it. |
| RingTheorems.QueueUntilFirstDrop | include/chrono_cap/mpsc_ring_buffer.hpp:82-137 | Up to and including the first drop every call answers as a single bounded queue does: reject only when full, pop in push order. |
| RingTheorems.QueueExactly | include/chrono_cap/mpsc_ring_buffer.hpp:97-125 | For a given drop count every run of whole calls answers as a bounded queue does if and only if that count is 0 or there is one slot. |
| RingTheorems.ReorderingExactly | include/chrono_cap/mpsc_ring_buffer.hpp:90-135 | Over all runs of whole calls a record is never overtaken by b tickets or more if and only if b is at least the capacity or there is one slot. |
| RingTheorems.CompleteDrain | src/core/record_writer.cpp:75-79 | A run without drops that ends in a failing pop has popped every record offered, in push order. |
| RingTheorems.PoppedOffered | include/chrono_cap/mpsc_ring_buffer.hpp:82-137 | Whatever is dropped, only records that were pushed are popped. |
| RingBuffer.MpscRingBuffer.constructor | include/chrono_cap/mpsc_ring_buffer.hpp:147-152 | Any capacity the static assertion admits yields an empty ring with no calls in its history. |
| RingBuffer.MpscRingBuffer.SlotIndex | include/chrono_cap/mpsc_ring_buffer.hpp:91-121 | The masked cursor of the object is the slot its unbounded ticket belongs to. |
| RingBuffer.MpscRingBuffer.TryPush | include/chrono_cap/mpsc_ring_buffer.hpp:82-113 | An oversize push returns false and changes nothing; any other is one push step of the model with the model's answer, and the object stays in agreement with the run of all calls. |
| RingBuffer.MpscRingBuffer.TryPop | include/chrono_cap/mpsc_ring_buffer.hpp:119-137 | One pop step of the model with the model's record; bytes of the caller's buffer past the length keep their old value; a failed pop changes nothing. |
| RingBuffer.MpscRingBuffer.DroppedCount | include/chrono_cap/mpsc_ring_buffer.hpp:142-145 | The number of drops in the run so far, modulo 2^64. |
| RingInterleaved.WordsInjective | include/chrono_cap/mpsc_ring_buffer.hpp:103-107 | The stored words determine the record. |
| RingInterleaved.LapRunInv | include/chrono_cap/mpsc_ring_buffer.hpp:90-135 | Every run in which ticket t + n is not claimed while ticket t is unfinished keeps the invariant: partially stored words belong to the one push in flight on an unready slot, a ready slot holds one published record whole, copied words are those of the slot. |
| RingInterleavedTheorems.ExclusiveSlots | include/chrono_cap/mpsc_ring_buffer.hpp:97-134 | Under the lap premise at most one thread is between check and publish or release on any slot. |
| RingInterleavedTheorems.NoMixture | include/chrono_cap/mpsc_ring_buffer.hpp:103-135 | Under the lap premise every popped record is exactly the arguments of one published push, no stale word included, and no push is popped twice. |
| RingInterleavedTheorems.InterleavedConservation | include/chrono_cap/mpsc_ring_buffer.hpp:90-135 | Under the lap premise, in every state: claimed = dropped + accepted + in flight, accepted = popped + ready, and pop i came from slot i mod n. |
| RingInterleavedTheorems.TicketRecords | include/chrono_cap/mpsc_ring_buffer.hpp:85-111 | In every run ticket t belongs to the t-th record claimed that fits a slot, in flight or published. |
| RingInterleavedTheorems.LapRunOrdered | include/chrono_cap/mpsc_ring_buffer.hpp:90-136 | Under the lap premise every run without a drop keeps: popped tickets are 0, 1, 2, ..., later ones are in flight or ready in their own slots, and only tickets less than a lap ahead of the reader are past their check. |
| RingInterleavedTheorems.UndroppedFifo | include/chrono_cap/mpsc_ring_buffer.hpp:90-136 | Under the lap premise, while nothing has been dropped, pop k returns the record of ticket k. |
| RingInterleavedTheorems.WindowRunOrdered | include/chrono_cap/mpsc_ring_buffer.hpp:90-101 | Every run that claims only within one capacity of the reader keeps the lap premise and drops nothing, so pop k is ticket k. |
| RingInterleavedTheorems.InterleavedStall | include/chrono_cap/mpsc_ring_buffer.hpp:90-125 | In every run of accesses, premise or not and with any drops: once n tickets have been claimed since a pop failed and none of the tickets up to there is in flight, the reader has moved or finds its slot ready. |
| RingInterleavedOrder.LapRunOrder | include/chrono_cap/mpsc_ring_buffer.hpp:90-135 | Every run under the lap premise, with any drops, keeps the order invariant: turns and publications per slot balance, and a settled ticket of an empty slot is less than a lap ahead of any later ready one. |
| RingInterleavedOrder.InterleavedKthPop | include/chrono_cap/mpsc_ring_buffer.hpp:121-135 | Under the lap premise, with any drops: pop i takes from slot i mod n, and exactly i / n tickets published into that slot precede the one it returns. |
| RingInterleavedOrder.InterleavedReordering | include/chrono_cap/mpsc_ring_buffer.hpp:90-135 | Under the lap premise, with any drops: a record popped before one with an earlier ticket is less than two capacities ahead of it. |
| RingSerial.SerialRunIsAtomic | include/chrono_cap/mpsc_ring_buffer.hpp:82-137 | With at most one push in flight at a time, wherever the consumer's accesses fall, a run of accesses agrees in slots, pops, drops and accepted records with the run of whole calls it amounts to. |
| RingSerial.SerialLaws | include/chrono_cap/mpsc_ring_buffer.hpp:90-135 | So with one push in flight at a time a failing pop after a multiple-of-capacity number of drops means empty, and nothing is overtaken by a lap. |
| RingPlay.PlayOps | include/chrono_cap/mpsc_ring_buffer.hpp:82-137 | From any state, with other pushes held in flight, every sequence of whole calls that stays within a lap of them can be played access by access and leaves the state the whole calls leave. |
| RingPlay.AtomicRunIsSerial | include/chrono_cap/mpsc_ring_buffer.hpp:82-137 | Every run of whole calls is a run of accesses with one push in flight at a time. |
| RingRaces.MixtureHappens | include/chrono_cap/mpsc_ring_buffer.hpp:97-111 | For every capacity and any two records a and b there is a run with two pushes in flight that pops the stamp, number and payload of a with the topic of b, while everything published is b. |
| RingRaces.MixtureExactly | include/chrono_cap/mpsc_ring_buffer.hpp:90-111 | In all runs with at most p pushes in flight every pop is one published record whole, if and only if p <= 1. |
| RingRaces.AtomicExactly | include/chrono_cap/mpsc_ring_buffer.hpp:82-137 | All runs with at most p pushes in flight agree with runs of whole calls if and only if p <= 1. |
| RingOvertaking.HeldStranding | include/chrono_cap/mpsc_ring_buffer.hpp:90-125 | For every capacity from 2 and every drop count from 1 there is a run under the lap premise with that many drops and no push left in flight whose pop fails while a record waits. |
| RingOvertaking.InterleavedEmptyExactly | src/core/record_writer.cpp:75-79 | Under the lap premise, with no push left in flight, a failed pop is guaranteed to mean empty, for a given drop count, if and only if that count is 0 or there is one slot. |
| RingOvertaking.EarlyEmpty | include/chrono_cap/mpsc_ring_buffer.hpp:121-125 | There is a run within one capacity of the reader whose pop reports empty although a later ticket's push has returned. |
| RingOvertaking.WindowEmptyExactly | include/chrono_cap/mpsc_ring_buffer.hpp:121-125 | Within one capacity of the reader and with at most p pushes in flight, a failed pop is guaranteed to mean that no record waits if and only if p <= 1 or there is one slot. |
| RingOvertaking.InterleavedOrderExactly | include/chrono_cap/mpsc_ring_buffer.hpp:90-136 | Over all runs under the lap premise with d drops records are popped in ticket order if and only if d is 0 or there is one slot. |
| RingOvertaking.InterleavedReorderingExactly | include/chrono_cap/mpsc_ring_buffer.hpp:90-135 | Over all runs under the lap premise a record is never overtaken by b tickets or more if and only if b is at least two capacities or there is one slot. |
| RingInterleavedTheorems.ReturnedFirstPoppedFirst | include/chrono_cap/mpsc_ring_buffer.hpp:90-136 | Under the lap premise, while nothing has been dropped, a push that returned before another claimed its ticket is popped first. |
| RingInterleavedTheorems.StarvedMeansDone | src/core/record_writer.cpp:75-79 | While nothing has been dropped, a failing pop means that the very ticket the reader waits for is in flight, or that every ticket claimed has been popped and nothing is in flight or ready. |
| RingInterleavedTheorems.CheckPasses | include/chrono_cap/mpsc_ring_buffer.hpp:97-101 | Within one capacity of the reader no check finds its slot occupied. |
| ReplaySchedule.MaxPlus | src/core/record_reader.cpp:239-262 | Callback i starts at the maximum over j <= i of deadline j plus all delays from j to i and all costs from j to i - 1: an upper bound that is attained. |
| ReplaySchedule.NoDriftExactly | src/core/record_reader.cpp:248-253 | Lateness is only callback i's own delay if and only if no earlier deadline with everything since runs past deadline i. |
| ReplaySchedule.NoDrift | include/chrono_cap/record_reader.hpp:66-69 | If every deadline leaves room for the previous delay and cost, every callback is late only by its own delay. |
| ReplaySchedule.DeltaDrifts | readme.md:81-85 | Sleeping by delta would accumulate every delay and cost, and absolute deadlines are never later than that. |
| RecordReader.SleepUntil | src/core/record_reader.cpp:22-31 | For any interruptions the clock ends at the later of now and the deadline, plus the delay. |
| RecordReader.RecordReader.ParseHeaderAndMetadata | src/core/record_reader.cpp:100-147 | Succeeds exactly on files the format accepts, appending their topics and extending the lookup last-wins; a refused file keeps exactly the whole entries read before the cut. |
| RecordReader.RecordReader.ParseTable | src/core/record_reader.cpp:121-145 | Reads entries until all are in or the next would not fit. |
| RecordReader.RecordReader.Walk | src/core/record_reader.cpp:206-267 | With or without pacing delivers exactly the records of the log in order with their lengths; when paced, each callback starts when the schedule says. |
| RecordReader.RecordReader.Run | src/core/record_reader.cpp:149-204 | Delivers the same records as the walk, on schedule. |
| RecordReader.PacedSpacing | src/core/record_reader.cpp:239-262 | When deadlines leave room for the previous delay and cost and nothing overflows, each callback of a timed replay starts at its recorded distance from the first stamp plus its own wake-up delay; earlier stamps play at once. |
| RecordReader.OverflowPlaysAtOnce | src/core/record_reader.cpp:248-253 | A deadline that overflows 64 bits wraps to before the replay start, so the record plays as soon as the previous callback is done. |
| FlushSchedule.FlushedExactly | src/core/record_writer.cpp:144-161 | A session flushes at all if and only if some reading of the clock comes an interval after the flush before the session with something pending; from then on nothing is carried over. |
| FlushSchedule.NextFlushExactly | src/core/record_writer.cpp:151-160 | After a flush the next one comes at the first reading an interval later with something pending, and everything pending is then synced. |
| FlushSchedule.FlushesApart | src/core/record_writer.cpp:151-160 | Any two readings that flush are at least the interval apart. |
| FlushSchedule.CarriedExactly | src/core/record_writer.cpp:144-161 | Nothing is carried over at the end of the readings if and only if nothing was at the start or the session has flushed. |
| FlushSchedule.ClearedExactly | src/core/record_writer.cpp:144-161 | The pending count is 0 after the last reading if and only if nothing was pending then or the interval had passed. |
| RecordWriter.AppendFile.Write | src/core/record_writer.cpp:169-176 | A write appends a positive number of the bytes given, or fails and appends nothing. |
| RecordWriter.WriteAll | src/core/record_writer.cpp:163-179 | For every schedule of short writes: all bytes are appended, or a write failed and exactly a proper prefix was. |
| RecordWriter.RecordWriter.WriteTopic | src/core/record_writer.cpp:99-112 | Appends one table entry, or a proper prefix on failure. |
| RecordWriter.RecordWriter.WriteFileHeaderAndMetadata | src/core/record_writer.cpp:83-114 | On success the file is exactly header and table; on failure a proper prefix of them. |
| RecordWriter.RecordWriter.BeginFile | src/core/record_writer.cpp:23-26 | A session begins with exactly the preamble in the file, or a proper prefix of it after a failed write. |
| RecordWriter.RecordWriter.Open | src/core/record_writer.cpp:13-34 | The thread starts only when header and table are completely written, none of it synced yet; otherwise Open fails and the file holds a proper prefix. The pending count is not reset. |
| RecordWriter.RecordWriter.Push | include/chrono_cap/record_writer.hpp:78-82 | Offers the record to the ring and changes nothing of file, flush state or pops. |
| RecordWriter.RecordWriter.PushBatch | include/chrono_cap/record_writer.hpp:78-82 | Pushes one after the other, before or after Open: the ring is offered exactly these and nothing is popped. |
| RecordWriter.RecordWriter.AppendRecord | src/core/record_writer.cpp:123-138 | Appends header and payload[..payload_len] only, or a proper prefix of them on failure. |
| RecordWriter.RecordWriter.WriteRecord | src/core/record_writer.cpp:116-142 | Keeps: file = preamble ++ records written, the bytes synced are exactly the preamble and the covered records (or none), and pending = records not covered plus those carried over, modulo 2^32; a failed write counts no record. |
| RecordWriter.RecordWriter.MaybeFlush | src/core/record_writer.cpp:144-161 | Syncs everything written, so that all records are covered, nothing is carried and nothing pending, exactly when something is pending and the interval has passed; otherwise changes nothing. |
| RecordWriter.RecordWriter.Drain | src/core/record_writer.cpp:59-63 | Terminates for every interleaving of pushes, at its first pop that finds nothing, with every popped record in the file unless a write failed; reports whether it popped anything. |
| RecordWriter.RecordWriter.WriterThreadMain | src/core/record_writer.cpp:53-81 | With pushes and the shutdown request arriving before any pop or any look at the shutdown flag, also together after a failing pop: ends only after the request and a last drain, with every batch so far offered and every popped record in the file unless a write failed. The clock is read once after each drain that popped something and once at the end, and what is covered, carried and last flushed is what the flush rule gives for these readings. |
| RecordWriter.RecordWriter.Join | src/core/record_writer.cpp:38-42 | The thread ends with every pop written, and the pending count is 0 if and only if nothing was pending at the last reading of the clock or the interval had passed by then. |
| RecordWriter.RecordWriter.Close | src/core/record_writer.cpp:36-51 | Leaves a fully synced file equal to preamble ++ records popped since Open unless a write failed; for every clock the pending count is the one the thread left, 0 exactly as `Join` says; without a thread to join the count stays, and a second call changes nothing. |
| PayloadCodec.EncodePayload | include/chrono_cap/payload_codec.hpp:91-107 | Writes the 22 bytes of the message and leaves the rest of the buffer alone. |
| PayloadCodec.DecodePayload | include/chrono_cap/payload_codec.hpp:109-125 | Returns the message the 22 bytes stand for. |
| PayloadCodec.JoyRoundTrip | include/chrono_cap/payload_codec.hpp:91-125 | Decoding an encoded message, whatever follows it, returns it bit for bit. |
| PayloadCodec.JoyBytesOf | include/chrono_cap/payload_codec.hpp:109-125 | Re-encoding decoded bytes reproduces them if and only if every button byte is 0 or 1. |
| Layouts.JoyLayout | include/chrono_cap/payload_codec.hpp:91-107 | The joystick payload byte by byte: timestamp at 0, axis0 at 8, axis2 at 12, buttons 0, 1, 3, 4, 5, 6 at 16 to 21. |
| Layouts.JoyRecord | include/chrono_cap/generic_recorder.hpp:82-87 | The record offered for a joystick sample has topic id 4, the sample's own stamp and sequence number, and 22 payload bytes with every field at its place. |
| TopicRegistry.ShippedListLawful | include/chrono_cap/topic_registry.hpp:67-76 | The shipped type list has distinct ids, its one type is id 4, "/joy", 22 bytes, and its codec fills exactly the wire size, round-trips and fits a slot. |
| TopicRegistry.EncodeShipped | include/chrono_cap/payload_codec.hpp:91-107 | `EncodePayload` computes the encoding of the shipped type. |
| TopicRegistry.DecodeShipped | include/chrono_cap/payload_codec.hpp:109-125 | `DecodePayload` computes the decoding of the shipped type. |
| GenericRecorder.AnnouncedLookup | include/chrono_cap/generic_recorder.hpp:101-105 | With distinct ids the table given to the writer maps each announced id to its own size and name. |
| GenericRecorder.AnnouncedSource | include/chrono_cap/generic_recorder.hpp:66-105 | Only enabled and subscribed types are in the table. |
| GenericRecorder.AnnouncedInOrder | include/chrono_cap/generic_recorder.hpp:49-57 | Announced types stand in the table in declaration order. |
| GenericRecorder.RecordsAgree | include/chrono_cap/generic_recorder.hpp:82-105 | Every record a subscribed callback pushes has a topic in the table and exactly its size. |
| GenericRecorder.SampleSent | include/chrono_cap/generic_recorder.hpp:82-87 | A callback offers the ring its encoded sample, or nothing when the type is wider than a slot. |
| GenericRecorder.GenericRecorder.SetupOne | include/chrono_cap/generic_recorder.hpp:61-108 | Skips a disabled type, fails on a refused subscription, else subscribes and announces. |
| GenericRecorder.GenericRecorder.OnSetup | include/chrono_cap/generic_recorder.hpp:49-57 | Succeeds if and only if no enabled type was refused; the table lists the subscribed types in declaration order. |
| GenericRecorder.GenericRecorder.OnSample | include/chrono_cap/generic_recorder.hpp:82-87 | Offers exactly the record with the type's id, the sample's stamp and number and the encoded value; a type wider than 64 bytes never offers anything. |
| GenericReplayer.DispatchOnce | include/chrono_cap/generic_replayer.hpp:94-105 | With distinct ids a record one type claims is published once, by that type. |
| GenericReplayer.RecordServed | include/chrono_cap/generic_replayer.hpp:63-105 | After a successful open every record that agrees with the table, duplicate entries or not, belongs to exactly one type, is exactly its wire size long, and goes to an advertised publisher. |
| GenericReplayer.OnePerRecord | include/chrono_cap/generic_replayer.hpp:53-57 | After a successful open a whole replay publishes exactly one value per record, through advertised publishers, with its stamp. |
| GenericReplayer.GenericReplayer.TryAdvertise | include/chrono_cap/generic_replayer.hpp:63-92 | Advertises exactly when id and size match and the middleware agrees. |
| GenericReplayer.GenericReplayer.OnTopicFound | include/chrono_cap/generic_replayer.hpp:39-49 | Succeeds if and only if some type accepts the topic and may publish; advertises exactly the types that do. |
| GenericReplayer.GenericReplayer.OfferTopics | src/core/record_reader.cpp:85-96 | The hook loop stops at the first refused entry and succeeds if and only if there is none; exactly the types that accept an entry before it and may publish are advertised. |
| GenericReplayer.GenericReplayer.Open | src/core/record_reader.cpp:80-97 | Succeeds if and only if the file parses and every entry is accepted; a file that does not parse advertises nothing, any other exactly the types that accept an entry before the first refused one. |
| GenericReplayer.GenericReplayer.OnRecord | include/chrono_cap/generic_replayer.hpp:53-57 | Publishes one decoded value per type with the record's id, reading only the type's wire size. |
| GenericReplayer.GenericReplayer.Replay | src/i2wReplayer.cpp:52-55 | Republishes exactly the records of the opened log, in order, one publication per record at the time the schedule gives, and no decoder reads past its payload. |
| EndToEnd.RunReplays | src/core/record_writer.cpp:53-142 | For any ring run without drops that ends in a failing pop, the log of the pops replays as exactly the records offered, in push order, if and only if each agrees with the table. |
| EndToEnd.InterleavedReplays | include/chrono_cap/mpsc_ring_buffer.hpp:82-137 | With every memory access interleaved under the lap premise, nothing dropped or in flight and the last pop failing: every ticket's record was handed over in ticket order, and the log of them replays if and only if each agrees with the table. |
| EndToEnd.ThreadOverPops | src/core/record_writer.cpp:53-81 | The thread's loops over what its pops answer write exactly the records popped, drain by drain, and flush by the rule at one reading after each drain that popped something and one at the end. |
| EndToEnd.InterleavedSession | src/core/record_writer.cpp:36-142 | For every run of accesses under the lap premise, with any drops, any split of its pops into drains, any clock and any short writes without failure: the file the drains, flushes and Close leave is synced and is the log of the whole published records the run handed over, and replays as these if and only if each agrees with the table. |
| EndToEnd.RecordSession | src/core/record_writer.cpp:13-142 | For a first or later session, with pushes made before it or not, for pushes that do not overlap at any points between the writer's accesses, any drops and any short writes without failure: the closed file is the log of what this session popped, in a run offered exactly these pushes after the earlier ones and drained until a pop failed. |
| EndToEnd.RecordThenReplay | src/core/record_reader.cpp:100-267 | With no failed write and well-sized pushes that do not overlap, before Open or between Open and Close, parsing and walking the closed file calls back with exactly the records popped, whatever was dropped, and with no drop exactly the pushes, in order; on schedule when paced. |
| Crashes.KilledMidRecord | src/core/record_writer.cpp:131-138 | A file cut in the middle of writing a record replays as exactly the records before it. |
| Crashes.CrashKeepsCovered | src/core/record_writer.cpp:144-161 | Of a writer's file, any cut that keeps what was synced replays as a prefix of the records written that includes all the last fsync covers. |
| Crashes.NothingLostExactly | src/core/record_writer.cpp:144-161 | No crash can lose a written record if and only if the last fsync covers them all, which is when the pending count is 0 as long as it carries nothing over and has not wrapped. |
| Crashes.DrainedUnsynced | include/chrono_cap/record_writer.hpp:53-55 | For pushes that do not overlap, at any points between the thread's accesses: if the clock stays within the first flush interval not one byte is synced when the thread ends, although with no drop and no failed write the ring is drained and every push is in the file. |
| Crashes.PendingExactly | src/core/record_writer.cpp:140-160 | Covered plus pending equals written if and only if fewer than 2^32 records are uncovered and what is carried over is a multiple of 2^32. |
| Crashes.PendingInSession | src/core/record_writer.cpp:13-81 | For any session and every clock, when the thread ends: covered plus pending equals written, with fewer than 2^32 uncovered, if and only if the pending count was 0 at Open or some reading of the clock found a flush due. |
| Crashes.PendingCarriedOver | src/core/record_writer.cpp:43-47 | For every clock the closed file is synced to its end and the pending count left to the next session is 0 if and only if nothing was pending at the last reading or the interval had passed; for a clock within the first interval all records still count as pending. |
| Messages.BatchesSent | include/chrono_cap/generic_recorder.hpp:80-88 | The callbacks of any samples offer the ring exactly the records of those whose type fits a slot, in order. |
| Messages.SampleEarly | src/i2wRecorder.cpp:145-161 | Callbacks that run between set-up and Open offer the ring the samples that fit a slot, in order. |
| Messages.RecordMessages | src/i2wRecorder.cpp:145-176 | Set-up, callbacks before and after Open, and the writer: the ring is offered the samples that fit a slot, and the closed file is a log of what was popped under the announced table. |
| Messages.RecordedTableAccepted | include/chrono_cap/generic_replayer.hpp:39-49 | A replayer of the same list accepts the recorder's table if and only if it may publish every type recorded. |
| Messages.SamplesSurvive | include/chrono_cap/generic_replayer.hpp:94-105 | Dispatching the records of samples of recorded types publishes exactly their values and stamps, in order. |
| Messages.ReplayMessages | src/i2wReplayer.cpp:36-57 | A file recorded under the announced table opens if and only if every recorded type may be published; then exactly those are advertised and each record is published once, decoded, when the schedule says. |
| Messages.RecordAndRepublish | readme.md:641-658 | Set-up, callbacks that do not overlap, before Open or while recording, ring, writer, reader and replayer in one run: with no failed write each record popped is published once, whatever was dropped; with no drop the publications are the samples whose type fits a slot, value for value and stamp for stamp, in order, hence all samples if and only if every type sampled fits. |
| Messages.HandedOverAll | include/chrono_cap/mpsc_ring_buffer.hpp:82-137 | Under the lap premise, with nothing dropped or in flight and the last pop failing, the records handed over are those of the samples that fit a slot, in the order of their claims. |
| Messages.InterleavedMessages | readme.md:641-658 | The same with every access of overlapping callbacks interleaved under the lap premise: with no failed write what is published decodes the records handed over, each pushed by some callback; with nothing dropped or in flight and the last pop failing it is the samples that fit a slot in the order of their claims, hence all samples if and only if every type sampled fits. |

## Left out

- Weak memory: each load or store of a ready flag is one atomic step that hands the slot over.
- `mmap`, `open`, `fstat`, `fsync` and clock system calls: a byte sequence, an append-only file and clock parameters stand for them; a failing `fsync` is not modelled, nor a crash that loses anything but a tail.
- Recovery after a failed `write` and a time bound on fsync: the code does not provide them.
- EndToEnd.RecordSession: producers act in whole calls between the writer thread's accesses to the ring; pushes that overlap are covered by `EndToEnd.InterleavedSession` and `Messages.InterleavedMessages`, which take the pops of a run of accesses, drain by drain.
- RecordWriter.AppendFile.Write: a write that returns 0 for a non-empty buffer is left out; the source would retry without end.
- LogFormat.TopicAt: names without a NUL in their 32 bytes, which only a foreign file can have, are taken as all 32 bytes where the source reads on past the field.
- LogFormat.ParsePreamble: tables of 2^32 or more topics are excluded, because the count field cannot hold their number.
- RecordWriter.RecordWriter.Open: opening again while the writer thread is running is excluded; the source would abort.
- The i2w runtime, its logger, signal handling, session names and the JSON configuration: foreign interfaces; which types are enabled, subscribed or advertised is a parameter.
- `IndexEntry`: nothing in the repository reads or writes an index file. `RunFast`: declared without a definition; unpaced `Walk` is what it would do.
- The commented-out codecs and IEEE-754 arithmetic: floats are bit patterns.
