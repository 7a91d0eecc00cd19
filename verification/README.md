# ancfl, modelled and proved in Dafny

ancfl is a C++ framework of fibers, schedulers, timers, buffers and small data structures. This
project models the parts of it that carry loops, mutable state and bit arithmetic, and proves what
they promise. `dafny verify dfyconfig.toml` checks all of it.

Two layers run through most modules. A value layer states what an operation does to a state, and
carries the laws: invariants over every run, round trips, refinement of a simpler form,
conservation. Where the program updates an object in place, a class with the same fields has
methods with the same branches and loops, each proved to have exactly the effect of the value layer.
The modules ending in `Laws` say what the value layer comes to without its own definitions: bits,
bytes, deadlines, who is woken, and who may run what.

| files | what they model |
|---|---|
| `Words`, `RunLength`, `CodeLaws`, `Bitmap`, `BitmapScan`, `BitmapLaws` | the bitmap: 14 payload bits a word, a run-length form with base-2^14 digits, operators that mix both forms, five enumerations |
| `Chunks`, `ByteArray`, `Varint`, `Codec`, `Messages`, `WireLaws` | the chunked byte buffer with one cursor, its integer and string codecs, the three messages, the bitmap's own wire form |
| `Timers`, `TimerManager`, `TimerLaws` | the ordered set of timers, recurring re-insertion, the wake-up flag |
| `IoEvents`, `IoManager`, `IoLaws` | the event table, the kernel's interest list, the dispatch loop |
| `Schedulers`, `SchedulerQueue`, `SchedulerLaws` | the queue and the workers of a scheduler, one step for each locked section; shutdown |
| `WorkerGroup` | the fiber semaphore and the bounded group with its barrier |
| `Lru`, `LruCaches`, `LruShards` | the recency list and its index, pruning, the sharded cache |
| `UrlCodec` | percent-encoding as in section 2.1 of RFC 3986, with a buffer made at the first change |
| `Options`, `Powers`, `Sequences`, `Bags` | shared definitions |

Words are numbers below 2^16 with bits taken arithmetically, bytes are numbers below 256, and
unsigned arithmetic that can wrap is reduced explicitly. Sizes of bitmaps obey the program's own
32-bit limit (14 times the number of words stays below 2^32). Clocks, the outcome of `epoll_ctl` and
`epoll_wait`, the state a fiber is found in and left in, object addresses and the hash function are
parameters.

## What turned out not to hold

Some laws hold only under a condition. Each is stated with the exact condition, and where a run
shows the failure, that run is a lemma.

- Uncompressing a compressed bitmap gives it back exactly when its two spare bits are clear in
  every word; it can be decoded with the right payload exactly when no literal word looks like a tag.
  The constructor that fills with ones and the plain complement produce such words.
- `rforeach` begins one bit too high when the last word is partial: it reverses `foreach` exactly
  when that bit is clear or the size is a multiple of 14.
- The iterators keep the size in a signed 32-bit field. From 2^31 bits on both visit nothing, so
  they agree with `listPosAsc` and `foreach` exactly when the size is smaller or no bit is set.
- A zero-length read at the very end of the allocated memory uses a null cursor. So an empty string
  there, a response with an empty text there, and an empty bitmap there do not read back.
- A string longer than its 16- or 32-bit length field is written with a truncated length.
- `Timer::refresh` and `listExpiredCb` re-insert without the check at the front of the set. That
  loses a wake-up exactly when the new deadline wraps around 64 bits to one before the deadline the
  idle loop sleeps for, and nobody has been woken. The other calls keep it even where they wrap.
- A delivery that names a cancelled event together with one that still waits fails the assertion in
  `triggerEvent`.
- `Scheduler::run` decrements the active count before it schedules a fiber that came back READY. In
  between `stopping()` is true, another worker may leave for good, and an entry pinned to it stays.
- Only the first `waitAll` waits. A second one is sure to find the group quiet exactly when the first
  has had its last permit.

## Model

| member | source | states |
|---|---|---|
| RunLength.RoundTripExactly | ancfl/ds/bitmap.cc:324-431 | decoding the code of any words gives words with the same payloads if and only if no word that is written verbatim has its compress tag set |
| RunLength.WordsRoundTripExactly | ancfl/ds/bitmap.cc:324-431 | decoding gives back the identical words if and only if both spare bits are clear in every word |
| RunLength.LongerRun | ancfl/ds/bitmap.cc:337-366 | a run followed by another tagged word of the same value cannot decode to the shorter run: adjacent tagged words of one value belong to one run |
| RunLength.TagsValue | ancfl/ds/bitmap.cc:375-381 | the base-2^14 digits written for a bit count, least significant first, stand for that count |
| RunLength.TagsFit | ancfl/ds/bitmap.cc:375-381 | a run of n words needs at most n digits |
| RunLength.CodeFits | ancfl/ds/bitmap.cc:324-395 | the compressed form never has more words than the plain one |
| RunLength.CodeIsNarrow | ancfl/ds/bitmap.cc:324-395 | every group in the code of a bitmap below the 32-bit limit has at most three digits and a count below 2^32, so the 32-bit reader decodes it |
| RunLength.DecodeSpareClear | ancfl/ds/bitmap.cc:397-431 | whatever decodes has clear spare bits |
| RunLength.NotOfCode | ancfl/ds/bitmap.cc:150-175 | complementing the compressed form word by word gives the compressed form of the payload complement |
| RunLength.DecodeNot | ancfl/ds/bitmap.cc:150-175 | the complemented code of any code decodes to the complement of what it decoded to, and fails where that failed |
| RunLength.OrDisjoint | ancfl/ds/bitmap.cc:412-414 | or-ing a shifted digit into a smaller number adds it |
| CodeLaws.BitExactly | ancfl/ds/bitmap.cc:298-312 | bit i of a number is (n / 2^i) % 2 |
| CodeLaws.LayoutExactly | ancfl/ds/bitmap.h:142-149 | bit 15 is the compress tag, bit 14 the value of a run, the payload bits 0 to 13 |
| CodeLaws.TagExactly | ancfl/ds/bitmap.cc:375-381 | a tagged word bit by bit |
| CodeLaws.FillNotExactly | ancfl/ds/bitmap.cc:150-175 | a payload of one value and the complement of a word bit by bit |
| CodeLaws.DigitsJoin | ancfl/ds/bitmap.cc:408-416 | the count of a group is its digits in base 2^14, those behind weighing more |
| CodeLaws.TagsMinimal | ancfl/ds/bitmap.cc:375-381 | no digit too many is written |
| CodeLaws.RunWritten | ancfl/ds/bitmap.cc:324-395 | two or more adjacent words of one value, however many, are written as tagged words of that value whose digits count their bits, in front of the code of the rest |
| CodeLaws.WordWritten | ancfl/ds/bitmap.cc:324-395 | every other word is written by itself, as it is or, with a payload of one value, without its spare bits |
| CodeLaws.SmallCodes | ancfl/ds/bitmap.cc:324-395 | some codes in full, one with a count of two digits |
| CodeLaws.GroupRead | ancfl/ds/bitmap.cc:402-422 | a group stands for its count of bits in front of the rest if that is a number of whole words, and for nothing otherwise |
| CodeLaws.WordRead | ancfl/ds/bitmap.cc:423-428 | any other word stands for its payload |
| Bitmaps.ReadRun | ancfl/ds/bitmap.cc:405-422 | reads one run: its value, its bit count, and the index after it, so that the rest decodes to the rest |
| Bitmaps.Bitmap.constructor | ancfl/ds/bitmap.cc:35-41 | a plain bitmap of the given size, each word filled with the byte given |
| Bitmaps.Bitmap.Get | ancfl/ds/bitmap.cc:298-302 | reads the bit at idx % 14 of word idx / 14 |
| Bitmaps.Bitmap.Set | ancfl/ds/bitmap.cc:304-312 | writes that bit and no other |
| Bitmaps.Bitmap.SetRange | ancfl/ds/bitmap.cc:823-838 | an aligned range of words becomes all ones or all zeros and no other word changes; an empty range changes nothing wherever it starts |
| Bitmaps.Bitmap.GetRange | ancfl/ds/bitmap.cc:840-864 | true exactly when some word of the aligned range has a payload of the asked kind; false for an empty range wherever it starts |
| Bitmaps.Bitmap.Compress | ancfl/ds/bitmap.cc:324-395 | a fresh compressed bitmap of the same size and meaning, in no more words; a compressed one is copied |
| Bitmaps.Bitmap.EncodeWords | ancfl/ds/bitmap.cc:329-385 | the loop over pending value and count fills its buffer with exactly the code, never past its end |
| Bitmaps.Bitmap.Flush | ancfl/ds/bitmap.cc:348-385 | writing out a pending run appends its digits and stays behind the words consumed |
| Bitmaps.Bitmap.Uncompress | ancfl/ds/bitmap.cc:397-431 | a fresh plain bitmap holding exactly the words the code stands for |
| Bitmaps.Bitmap.DecodeWords | ancfl/ds/bitmap.cc:402-429 | the decoding loop fills the words of the result, all of them |
| Bitmaps.Bitmap.AndWith | ancfl/ds/bitmap.cc:97-148 | which sizes and forms are refused, with nothing changed; else each word's payload is the conjunction with what the other bitmap stands for |
| Bitmaps.Bitmap.AndCompressed | ancfl/ds/bitmap.cc:114-143 | conjunction with a compressed operand, run by run, is conjunction with the words it stands for |
| Bitmaps.Bitmap.OrWith | ancfl/ds/bitmap.cc:177-228 | the same for disjunction |
| Bitmaps.Bitmap.OrCompressed | ancfl/ds/bitmap.cc:194-223 | disjunction with a compressed operand, run by run, is disjunction with the words it stands for |
| Bitmaps.Bitmap.Invert | ancfl/ds/bitmap.cc:150-175 | the meaning becomes its payload complement, in either form; a plain word is flipped in all 16 bits |
| Bitmaps.Bitmap.Cross | ancfl/ds/bitmap.cc:659-668 | what cross answers for each mix of forms, of equal sizes or not: a common payload bit, or for two plain bitmaps a common bit of any kind, among the words both have; never for a compressed receiver |
| Bitmaps.Bitmap.CompressCross | ancfl/ds/bitmap.cc:670-706 | true exactly when a payload bit is common with what the code stands for |
| Bitmaps.Bitmap.NormalCross | ancfl/ds/bitmap.cc:708-723 | true exactly when some pair of words has a common bit, though four words are tested at a time; the other bitmap may be larger |
| BitmapLaws.ThroughCompression | ancfl/ds/bitmap.cc:324-431 | compressing and uncompressing an object gives the same size and payloads, and the same words when the spare bits are clear |
| BitmapLaws.AndEitherForm | ancfl/ds/bitmap.cc:97-148 | a &= b and a &= compress(b) both succeed and leave the same words, each the conjunction of the two |
| BitmapLaws.OrEitherForm | ancfl/ds/bitmap.cc:177-228 | a \|= b and a \|= compress(b) both succeed and leave the same words, each the disjunction of the two |
| BitmapLaws.AndDetermined | ancfl/ds/bitmap.cc:97-148 | the contract of the conjunction fixes every word of the result |
| BitmapLaws.OrDetermined | ancfl/ds/bitmap.cc:177-228 | the contract of the disjunction fixes every word of the result |
| BitmapLaws.AndBits | ancfl/ds/bitmap.cc:97-148 | the payload conjunction bit by bit |
| BitmapLaws.OrBits | ancfl/ds/bitmap.cc:177-228 | the payload disjunction bit by bit |
| BitmapLaws.ComplementBits | ancfl/ds/bitmap.cc:150-175 | the payload complement bit by bit |
| BitmapLaws.WordCountExactly | ancfl/ds/bitmap.cc:33-36 | the number of words is the least that holds all positions |
| BitmapLaws.CrossThroughCode | ancfl/ds/bitmap.cc:659-706 | a common payload bit with b is a common payload bit with what compress(b) stands for, and the other way round |
| BitmapLaws.CommonPayloadIsCommonBit | ancfl/ds/bitmap.cc:659-726 | two word sequences have a common payload exactly when some position is set in both |
| BitmapLaws.PlainCrossExactly | ancfl/ds/bitmap.cc:708-726 | the plain test differs from the common payload exactly where spare bits meet, and not at all if one side's are clear |
| BitmapLaws.DoubleComplementExactly | ancfl/ds/bitmap.cc:160-172 | complementing a code twice restores it if and only if its literal words have clear spare bits |
| BitmapScan.UptoMeaning | ancfl/ds/bitmap.cc:624-657 | the reference list is strictly ascending and holds exactly the set positions below the bound |
| BitmapScan.DownIsReverse | ancfl/ds/bitmap.cc:536-622 | the descending list is the reverse of the ascending one |
| BitmapScan.ReverseExactly | ancfl/ds/bitmap.cc:536-622 | the reverse place by place |
| BitmapScan.RListExactly | ancfl/ds/bitmap.cc:536-622 | what rforeach may report: the set positions below the size and, when the last word is partial, a set one at the size itself, strictly descending |
| BitmapScan.TakeUntilExactly | ancfl/ds/bitmap.cc:497-622 | what a callback sees begins the list and ends at the first position it refuses, and is all of the list when it refuses none |
| BitmapScan.ListPosAsc | ancfl/ds/bitmap.cc:624-657 | the list is exactly the set positions below the size, in order, though blocks of 56 bits are skipped |
| BitmapScan.Foreach | ancfl/ds/bitmap.cc:497-534 | the callback sees the same list up to and including the first position it refuses |
| BitmapScan.Rforeach | ancfl/ds/bitmap.cc:536-622 | the callback sees the descending list, preceded by the overrun bit, up to the first refusal |
| BitmapScan.RforeachReversesExactly | ancfl/ds/bitmap.cc:536-622 | rforeach gives the reverse of foreach if and only if the size is a multiple of 14 or the bit at the size is clear |
| BitmapScan.Iterator.Next | ancfl/ds/bitmap.cc:749-778 | with the signed fields of the source: moves to the first set position after the current one, or outside the size if there is none, also where the last step overflows the field |
| BitmapScan.ReverseIterator.Next | ancfl/ds/bitmap.cc:790-821 | moves to the last set position before the current one, or to the end, and straight to the end where the size is negative as a signed number |
| BitmapScan.Iterate | ancfl/ds/bitmap.cc:728-778 | for every size, what walking the forward iterator yields: the ascending list below 2^31 bits, nothing from there on |
| BitmapScan.IterateReverse | ancfl/ds/bitmap.cc:780-821 | walking the reverse iterator yields the reverse of that |
| BitmapScan.WalkAgreesExactly | ancfl/ds/bitmap.cc:725-821 | both walks agree with listPosAsc and foreach if and only if the size is below 2^31 or no bit is set |
| BitmapScan.LargeWalkMisses | ancfl/ds/bitmap.cc:739-747 | a bitmap of 2^31 bits whose first bit is set and is not visited |
| ByteArrays.ByteArray.constructor | ancfl/bytearray.cc:24-31 | one node, empty contents, cursor on it |
| ByteArrays.ByteArray.CursorMeaning | ancfl/bytearray.cc:434-450 | the cursor is the node numbered position / base size, and null exactly at the end of the capacity |
| ByteArrays.ByteArray.Write | ancfl/bytearray.cc:334-367 | for any length at any position over any number of nodes: exactly that span of the flat contents is overwritten, position and size follow |
| ByteArrays.ByteArray.Read | ancfl/bytearray.cc:369-402 | returns exactly the next n bytes and moves by n; throws when there are fewer; and the null cursor case |
| ByteArrays.ByteArray.SetPosition | ancfl/bytearray.cc:434-450 | refused beyond the capacity with nothing changed, else position, size and cursor agree |
| ByteArrays.ByteArray.AddCapacity | ancfl/bytearray.cc:505-534 | appends just enough nodes, one fewer would not do, keeps every byte, and leaves room for n more |
| ByteArrays.ByteArray.Clear | ancfl/bytearray.cc:321-332 | keeps only the first node, at position and size zero |
| ByteArrays.ByteArray.ToString | ancfl/bytearray.cc:536-544 | the readable bytes, with the state unchanged |
| ByteArrays.ByteArray.GetReadBuffers | ancfl/bytearray.cc:561-591 | the slices lie inside their nodes and together hold exactly the next min(len, readable) bytes |
| ByteArrays.ByteArray.GetWriteBuffers | ancfl/bytearray.cc:631-659 | slices for exactly len bytes from the position, after room has been made; contents, position and size unchanged |
| ByteArrays.ByteArray.SlicesDisjoint | ancfl/bytearray.cc:631-659 | no two slices share memory |
| ByteArrays.ByteArray.SlicesGather | ancfl/bytearray.cc:561-591 | the slices from any node and offset gather to that stretch of the flat contents |
| ByteArrays.ByteArray.Receive | ancfl/streams/socket_stream.cc:31-34 | filling the slices in order overwrites exactly the stretch they cover with the bytes received |
| ByteArrays.ByteArray.ReceiveInto | ancfl/streams/socket_stream.cc:26-37 | getting write buffers, filling them and setting the position leaves what write of the same bytes leaves |
| ByteArrays.WroteMore | ancfl/bytearray.cc:334-367 | two writes in a row are one write of both |
| Varint.RoundTrip | ancfl/bytearray.cc:131-155 | in front of anything, the reader stops after exactly the bytes written and has the value |
| Varint.EncodeLength | ancfl/bytearray.cc:131-155 | n bytes suffice if and only if the value is below 2^(7n): each value takes its minimal length |
| Varint.EncodeFits | ancfl/bytearray.cc:132-140 | a value of 32 or 64 bits never overruns its 5 or 10 byte buffer |
| Varint.EncodeZigzagValue | ancfl/bytearray.cc:103-117 | under wrap-around arithmetic, minimum included, zigzag maps v to 2v or -2v-1 |
| Varint.ZigzagRoundTrip | ancfl/bytearray.cc:103-125 | decoding undoes encoding for every signed value |
| Varint.ZigzagOnto | ancfl/bytearray.cc:103-125 | and encoding undoes decoding for every unsigned one: a bijection |
| Varint.FixedRoundTrip | ancfl/bytearray.cc:54-101 | fixed-width integers read back in either byte order |
| WireLaws.EncodeExactly | ancfl/bytearray.cc:131-155 | byte k holds the k-th group of seven bits, only the last byte is below 0x80, and it is not zero unless the value is |
| WireLaws.ValueAppend | ancfl/bytearray.cc:243-273 | the groups behind weigh more, 2^7 a byte |
| WireLaws.EndExactly | ancfl/bytearray.cc:243-273 | how many bytes a read takes, for any bytes: up to the first below 0x80, or the most there may be; and when it meets the end of the data |
| WireLaws.ReadCut | ancfl/bytearray.cc:243-273 | a read throws if and only if the data end before, and it has then taken all of them |
| WireLaws.FixedExactly | ancfl/bytearray.cc:61-101 | each byte of a fixed-width integer, in either byte order |
| WireLaws.FixedOnto | ancfl/bytearray.cc:205-237 | any n bytes are those of the number they are read as |
| WireLaws.NumbersExactly | ancfl/bytearray.cc:103-155 | unsigned numbers go out as they are, signed ones in zigzag, each behind the other |
| Codec.EncodeTmp | ancfl/bytearray.cc:132-140 | the loop fills the temporary buffer with exactly the encoding, inside its bounds |
| Codec.WriteUint | ancfl/bytearray.cc:131-155 | writes exactly the encoding at the cursor |
| Codec.ReadUint | ancfl/bytearray.cc:243-273 | what every byte sequence reads as, including over-long ones and those that end too soon, and how far the cursor moves |
| Codec.WriteFixed | ancfl/bytearray.cc:61-101 | writes the fixed-width bytes in the buffer's byte order |
| Codec.ReadFixed | ancfl/bytearray.cc:193-237 | reads them back, or throws with nothing moved |
| Codec.WriteStringVint | ancfl/bytearray.cc:184-187 | writes the varint length and the text |
| Codec.ReadStringVint | ancfl/bytearray.cc:313-319 | reads the length and exactly that many bytes, or fails after the length |
| Codec.WriteStringF | ancfl/bytearray.cc:169-182 | writes a length field of n bytes, truncated to it, and the whole text |
| Codec.ReadStringF | ancfl/bytearray.cc:289-311 | reads the length field and that many bytes, with the result and the cursor for every input |
| Codec.StringFRoundTripExactly | ancfl/bytearray.cc:169-182 | a string reads back if and only if its length fits the field and it is not empty at the end of the memory |
| Codec.ReadNext | ancfl/bytearray.cc:243-273 | with any bytes after it, an encoded value reads as itself and leaves exactly those bytes |
| Codec.WriteAll | ancfl/bytearray.cc:127-155 | any sequence of 32- and 64-bit, signed and unsigned values is written back to back |
| Codec.ReadAll | ancfl/bytearray.cc:239-273 | reading one integer of each given width and signedness yields, for any bytes, what those bytes stand for and where the cursor ends, also where they end too soon |
| Codec.NumbersReadBack | ancfl/bytearray.cc:103-273 | any integers encoded back to back, in front of any bytes, are read as themselves and end exactly where they ended |
| Codec.StreamRoundTrip | ancfl/bytearray.cc:103-273 | a stream written at any place, across any chunk boundaries, leaves exactly its encodings there, and reading from that place gives the stream |
| Messages.Message.Serialize | ancfl/protocol.cc:15-54 | each of the three messages writes its type byte and fields |
| Messages.Message.ParseFrom | ancfl/protocol.cc:22-59 | the fields, status and cursor after parsing, also when a field fails half way |
| Messages.ParseBody | ancfl/protocol.cc:22-59 | a message parses to equal fields and ends exactly at its last byte, or crashes on an empty text at the end of the memory |
| WireLaws.SmallMessages | ancfl/protocol.h:17-17 | the type bytes and the order of the fields, on numbers of one byte |
| WireLaws.ParseCut | ancfl/protocol.cc:22-59 | a message of which only a proper part has arrived is refused with an exception; the fields that are all there have been assigned and the others are as they were |
| Messages.ParseAllExactly | ancfl/protocol.cc:15-59 | any back-to-back sequence of messages parses to itself and to its exact end if and only if it does not end in an empty text at the end of the memory |
| Messages.WriteMessages | ancfl/protocol.cc:15-54 | a sequence of messages leaves their concatenated bytes |
| Messages.WriteTo | ancfl/ds/bitmap.cc:59-64 | form, size, word count and words at the cursor |
| Messages.ReadFrom | ancfl/ds/bitmap.cc:66-80 | status, cursor and every field of the bitmap for every input, those a failing read has already assigned included |
| Messages.WordBytesRoundTrip | ancfl/ds/bitmap.cc:59-80 | words read back from their bytes |
| Messages.BitmapRoundTripExactly | ancfl/ds/bitmap.cc:59-80 | a bitmap of either form reads back and ends at the exact write-end position if and only if it has words or is not at the end of the memory |
| WireLaws.BitmapWireExactly | ancfl/ds/bitmap.cc:59-64 | which byte of a bitmap's wire form holds what |
| WireLaws.HeaderExactly | ancfl/ds/bitmap.cc:66-70 | how far the header gets with the bytes there are, and what it makes of them |
| WireLaws.BitmapCut | ancfl/ds/bitmap.cc:66-80 | a bitmap whose words are cut short is refused with an exception behind its header |
| Timers.FindByKey | ancfl/timer.cc:5-23 | searching by deadline and address finds the timer itself, because no key changes inside the set |
| Timers.InsertSorted | ancfl/timer.cc:101-113 | insertion keeps the set strictly ordered and adds one timer |
| Timers.EraseSorted | ancfl/timer.cc:35-84 | erasing keeps it ordered and removes exactly that timer |
| Timers.OutsideUndisturbed | ancfl/timer.cc:46-84 | changing the key of a timer outside the set disturbs nothing inside |
| Timers.AddInv | ancfl/timer.cc:92-113 | addTimer keeps the invariant: ordered, and a timer made with a callback is in the set if and only if it still has one |
| Timers.CancelInv | ancfl/timer.cc:35-44 | cancel keeps it |
| Timers.RefreshInv | ancfl/timer.cc:46-59 | refresh keeps it |
| Timers.ResetInv | ancfl/timer.cc:61-84 | reset keeps it |
| Timers.TakenExactly | ancfl/timer.cc:164-172 | without rollover the part taken is exactly the timers with deadline at or before now |
| Timers.RolloverExactly | ancfl/timer.cc:188-196 | under unsigned subtraction, a rollover is seen if and only if the clock went back by more than an hour, or went back at all from a time within the first hour |
| Timers.ExpireAllMeaning | ancfl/timer.cc:173-185 | one-shots lose their callback and stay out, recurring ones are back in at now plus their period, all others are as they were |
| Timers.ListExpiredExactly | ancfl/timer.cc:145-186 | the callbacks appended are exactly those due, all of them after a rollover, in deadline order; and the state after |
| Timers.RunNeverLosesWakeup | ancfl/timer.cc:35-186 | over every run with a clock that never goes back, in which refresh and expiry do not overflow 64 bits: either the sleeper has been woken since the last getNextTimer, or the wait that call returned brings it back by every deadline now stored |
| Timers.StepExactly | ancfl/timer.cc:35-186 | for each of the six calls, wrap-around included, the exact condition under which it loses no wake-up: always, but for refresh and listExpiredCb |
| Timers.ExpireExactly | ancfl/timer.cc:173-185 | listExpiredCb loses none if and only if somebody has been woken or no deadline it puts back wraps to one before the sleeper's |
| Timers.RunPastPeriod | ancfl/timer.cc:61-84 | over every run without overflow each deadline in the set is at least its period, so reset's subtraction does not wrap |
| Timers.InitialInv | ancfl/timer.cc:86-88 | a new manager satisfies that invariant |
| Timers.RefreshExactly | ancfl/timer.cc:46-59 | refresh loses the wake-up if and only if its deadline wraps to one before the sleeper's and nobody has been woken |
| Timers.WrappedDeadlineLosesWakeup | ancfl/timer.cc:46-185 | a state within the invariant, and a time, at which refresh and listExpiredCb each lose it |
| TimerManagers.TimerManager.LowerBound | ancfl/timer.cc:5-23 | the place of a deadline and address in the comparator's order |
| TimerManagers.TimerManager.AddTimer | ancfl/timer.cc:92-113 | the new timer is in the set with the period, callback and recurrence given and a deadline that many milliseconds from now, every other timer stays, and the wake-up is that of the value step |
| TimerManagers.TimerManager.PutTimer | ancfl/timer.cc:101-113 | insertion with the check for the front and the flag |
| TimerManagers.TimerManager.Cancel | ancfl/timer.cc:35-44 | as the value step |
| TimerManagers.TimerManager.Refresh | ancfl/timer.cc:46-59 | as the value step |
| TimerManagers.TimerManager.Reset | ancfl/timer.cc:61-84 | as the value step, in each of its branches |
| TimerManagers.TimerManager.GetNextTimer | ancfl/timer.cc:129-143 | 2^64-1 without a timer; a positive wait ends at the least stored deadline; no wait means that some deadline has come; the flag is cleared |
| TimerManagers.TimerManager.ListExpiredCb | ancfl/timer.cc:145-186 | the set, the timers and the callbacks after expiry are those of the value step |
| TimerLaws.NextTimerExactly | ancfl/timer.cc:129-143 | now plus the wait is the larger of now and the least deadline in the set |
| TimerLaws.OrderExactly | ancfl/timer.cc:5-23 | the set is in the order of the deadlines, equal ones in the order of the addresses |
| TimerLaws.AddExactly | ancfl/timer.cc:25-113 | a new timer has what it was given and a deadline that far from now, every other timer is as before, and the sleeper is woken if and only if the timer comes first and nobody has been woken |
| TimerLaws.AddedFiresExactly | ancfl/timer.cc:25-186 | with a clock that does not go back, listExpiredCb hands out the callback of a timer added at now with a delay of ms if and only if its time is at least now + ms |
| TimerLaws.HandedOutExactly | ancfl/timer.cc:145-186 | any timer in the set with a callback is handed out if and only if its deadline has come |
| TimerLaws.CallbacksExactly | ancfl/timer.cc:145-196 | for any clock, the callbacks handed out are those of the timers at the front of the set that expire: their deadline has come, or the clock went back by more than an hour or within the first one |
| TimerLaws.ExpiredExactly | ancfl/timer.cc:173-186 | afterwards a recurring one counts from now, a one-shot is out of the set without its callback, and a timer that did not expire is as it was |
| TimerLaws.CancelExactly | ancfl/timer.cc:35-44 | true if and only if there was a callback; then the callback and the place in the set are gone, and nothing else has changed |
| TimerLaws.RefreshMeaning | ancfl/timer.cc:46-59 | true if and only if the timer is in the set with its callback; then it counts its own period from now, and nothing else has changed |
| TimerLaws.ResetMeaning | ancfl/timer.cc:61-84 | the result in each case, and where nothing changes at all |
| TimerLaws.ResetChanges | ancfl/timer.cc:61-84 | where something does: the new period, counted from now or from when the timer was started, and the wake-up of a new timer |
| IoEvents.CtlLegal | ancfl/iomanager.cc:176-183 | where the kernel's list equals the stored masks, the operation chosen from the mask before and after is never refused; it fails on a fault only |
| IoEvents.TriggerExactly | ancfl/iomanager.cc:80-96 | triggering succeeds exactly on a set bit, schedules exactly that bit's waiter and keeps everything else |
| IoEvents.AddExactly | ancfl/iomanager.cc:153-210 | aborts exactly on an event already waited for, fails exactly on a fault, else registers the task and changes nothing else but the room in the table |
| IoEvents.DelExactly | ancfl/iomanager.cc:212-245 | true exactly when the event waited and no fault came; the waiter is dropped, not scheduled |
| IoEvents.CancelExactly | ancfl/iomanager.cc:247-278 | true in the same case; the waiter is scheduled |
| IoEvents.CancelAllExactly | ancfl/iomanager.cc:280-318 | leaves nothing waiting at the descriptor, and schedules what did |
| IoEvents.DeliverExactly | ancfl/iomanager.cc:402-442 | a delivery aborts if and only if it names something that waits and something that does not; else exactly what it names leaves the mask and is scheduled |
| IoEvents.StepExactly | ancfl/iomanager.cc:80-443 | which calls abort, and that every other call keeps the invariant and conserves waiters |
| IoEvents.RunKeeps | ancfl/iomanager.cc:80-443 | over every run: a bit is set if and only if its context holds a scheduler and exactly one of fiber and callback, the pending count is the number of set bits, the kernel's masks are the stored ones |
| IoEvents.Conservation | ancfl/iomanager.cc:80-443 | as multisets, everything registered is what was scheduled, plus what was deleted, plus what still waits |
| IoEvents.NothingPendingExactly | ancfl/iomanager.cc:332-336 | the pending count is zero if and only if no bit is set, if and only if the kernel listens for nothing |
| IoEvents.InsideNeverAborts | ancfl/iomanager.cc:402-442 | a delivery inside the kernel's mask never aborts and changes its own descriptor only |
| IoEvents.BatchNeverAborts | ancfl/iomanager.cc:391-443 | neither does a whole batch of one epoll_wait, and afterwards nothing it delivered is still waited for, faults apart |
| IoEvents.StaleDeliveryExactly | ancfl/iomanager.cc:402-442 | after a cancelEvent between the wait and the dispatch, exactly which deliveries abort |
| IoEvents.AddUndone | ancfl/iomanager.cc:153-278 | delEvent takes an addEvent back completely, cancelEvent but for the task it schedules |
| IoLaws.AddWaits | ancfl/iomanager.cc:153-210 | once registered, exactly that task waits for that event, and who waits for any other event of any descriptor is as before |
| IoLaws.TableGrows | ancfl/iomanager.cc:155-167 | a descriptor that is in the table leaves its length alone; one that is not makes it one and a half times the descriptor, rounded down, with nothing waiting in the new part |
| IoLaws.CancelAllWakes | ancfl/iomanager.cc:280-318 | cancelAll schedules everyone who waits at the descriptor, the reader first, behind what was scheduled before |
| IoLaws.DeliveryWakes | ancfl/iomanager.cc:402-442 | a delivery of events that are waited for schedules exactly their waiters, the reader first, and an error everyone at the descriptor |
| IoManagers.FdSlot.TriggerEvent | ancfl/iomanager.cc:80-96 | the in-place trigger: bit cleared, waiter swapped out, scheduler dropped |
| IoManagers.IOManager.ContextResize | ancfl/iomanager.cc:142-151 | the table grows with fresh, numbered contexts and keeps the old ones |
| IoManagers.IOManager.AddEvent | ancfl/iomanager.cc:153-210 | the object ends as the value step says, also where it aborts |
| IoManagers.IOManager.DelEvent | ancfl/iomanager.cc:212-245 | as the value step |
| IoManagers.IOManager.CancelEvent | ancfl/iomanager.cc:247-278 | as the value step |
| IoManagers.IOManager.CancelAll | ancfl/iomanager.cc:280-318 | as the value step |
| IoManagers.IOManager.Deliver | ancfl/iomanager.cc:402-442 | as the value step |
| IoManagers.IOManager.Dispatch | ancfl/iomanager.cc:391-443 | the loop over a batch does what the run of its deliveries does |
| Schedulers.RunKeeps | ancfl/scheduler.cc:125-252 | over every interleaving of workers and callers: each ticket in one place, both counts right, the queue in the order of the pushes, a pinned entry held only by its thread |
| Schedulers.InitialInv | ancfl/scheduler.cc:13-37 | a scheduler that has just started satisfies the invariant |
| Schedulers.LeaveKeeps | ancfl/scheduler.cc:176-225 | every way out of the loop body, by the entry's kind and by the state its fiber was found and left in, keeps the invariant: the active count goes down by the one it went up, and the entry is finished |
| Schedulers.EachInOnePlace | ancfl/scheduler.cc:141-225 | each entry is queued, held by exactly one worker, or finished, and never two of these |
| Schedulers.OldestFirst | ancfl/scheduler.cc:142-169 | a worker takes the oldest entry it may take, and none only when there is none |
| Schedulers.ActiveExactly | ancfl/scheduler.cc:164-223 | the active count is zero if and only if no worker holds an entry |
| Schedulers.StoppingIsFinalExactly | ancfl/scheduler.cc:181-188 | once stopping() is true it stays true over every run of the workers if and only if no worker is about to schedule a fiber that came back READY |
| Schedulers.RunFinishedStays | ancfl/scheduler.cc:248-252 | from such a state no run of the workers queues anything again |
| Schedulers.NothingLeftBehind | ancfl/scheduler.cc:226-232 | if no fiber yields READY and nobody outside schedules after stop, then when any worker has left nothing is queued and nobody holds anything |
| Schedulers.PinnedStays | ancfl/scheduler.cc:145-151 | an entry pinned to a thread that has left stays queued over every run, and stopping() stays false |
| Schedulers.WindowStrands | ancfl/scheduler.cc:181-188 | a run of two workers in which the window leaves such an entry |
| Schedulers.PushSum | ancfl/scheduler.h:145-152 | a push hands out each of the next tickets once |
| SchedulerLaws.PushExactly | ancfl/scheduler.h:145-152 | the queue after scheduling jobs: the old one, then for each job an entry with that job, the thread given and the next number |
| SchedulerLaws.ScheduleExactly | ancfl/scheduler.h:74-104 | so the step of schedule changes the queue by these entries and nothing else |
| SchedulerLaws.LookExactly | ancfl/scheduler.cc:141-239 | the locked section: the first entry for this thread or any, and not of a fiber that is executing, goes from the queue to the worker and the active count goes up; without one the worker idles, or leaves if its idle fiber has ended |
| SchedulerLaws.LeaveExactly | ancfl/scheduler.cc:176-225 | letting an entry go: the count, and which fiber is about to be scheduled again if any, the entry's own or the one its callback ran in |
| SchedulerLaws.AgainExactly | ancfl/scheduler.cc:184-188 | that fiber goes to the back of the queue for any thread |
| SchedulerLaws.IdleTurnExactly | ancfl/scheduler.cc:226-259 | the idle fiber ends if and only if both flags are set, nothing is queued and no worker holds an entry |
| SchedulerLaws.ScheduledStays | ancfl/scheduler.cc:125-242 | over every run after a schedule, its i-th entry, by number, is only ever queued or held with the job that was named, and with a thread given it is held by a worker of that thread only |
| SchedulerLaws.TidsStay | ancfl/scheduler.cc:125-242 | over every run each worker keeps its thread |
| SchedulerQueues.Queue.ScheduleNoLock | ancfl/scheduler.h:145-152 | the queue is the old one with one entry of exactly this job, this thread and the next number behind it, or the old one for an empty job; and whether it was empty |
| SchedulerQueues.Queue.ScheduleAll | ancfl/scheduler.h:91-104 | entry by entry, a batch is queued in order for any thread, empty ones left out, every source swapped out, and the tickle is asked for if and only if the queue was empty and the batch was not |
| SchedulerQueues.PresentOne | ancfl/scheduler.h:145-152 | an empty job leaves nothing, any other one itself |
| SchedulerQueues.PresentAppend | ancfl/scheduler.h:91-104 | and what a batch leaves is what its parts leave, in order |
| SchedulerQueues.Scan | ancfl/scheduler.cc:143-168 | the walk stops at the first entry this thread may take, and notes whether one for another thread was passed over |
| SchedulerQueues.Queue.Take | ancfl/scheduler.cc:141-169 | the scan takes the first fitting entry and asks to tickle exactly when an entry for another thread was passed over or one is left behind it |
| WorkerGroups.FiberSemaphore.TryWait | ancfl/mutex.cc:36-46 | takes a permit if one is free, else changes nothing |
| WorkerGroups.FiberSemaphore.Wait | ancfl/mutex.cc:48-60 | takes a permit or joins the waiters at the back |
| WorkerGroups.FiberSemaphore.Notify | ancfl/mutex.cc:62-71 | wakes the first waiter, or frees a permit when nobody waits |
| WorkerGroups.CallExactly | ancfl/worker.cc:24-28 | schedule goes through with a free permit and else lines up at the back |
| WorkerGroups.FinishExactly | ancfl/worker.cc:30-33 | a task that ends hands its permit to whoever has waited longest, a call or the loop of waitAll, and frees it when nobody waits |
| WorkerGroups.RunKeeps | ancfl/worker.cc:24-42 | over every run: free permits, those of admitted tasks and those taken by waitAll make up the batch; a permit is free only when nobody waits; everyone parked has been served in order or still waits |
| WorkerGroups.BoundedAndFifo | ancfl/worker.cc:14-42 | so from the start at most batch-size tasks are admitted, and waiters are served first come first served |
| WorkerGroups.BarrierHolds | ancfl/worker.cc:35-42 | when waitAll's last wait has returned nothing admitted is queued or running, and no run admits anything again |
| WorkerGroups.RunEnds | ancfl/worker.cc:24-42 | a run without new calls is no longer than the work left |
| WorkerGroups.StuckMeansReturned | ancfl/worker.cc:35-42 | and where no step is left, waitAll has returned: with callbacks that return it always does |
| WorkerGroups.SecondWaitAllExactly | ancfl/worker.cc:35-42 | over all runs, a second waitAll that comes when the first has t permits finds the group quiet in every one of them if and only if t is the whole batch; for each smaller t there is a run with a task still admitted |
| WorkerGroups.SecondWaitAllTooEarly | ancfl/worker.cc:35-42 | a run in which it returns while a task is still to run |
| Lru.SetMeaning | ancfl/ds/lru_cache.h:44-56 | after set the key is first with its value, the rest are the other old entries in their order, and only a suffix is missing, nothing at all on a hit |
| Lru.SetLength | ancfl/ds/lru_cache.h:44-174 | setting a key that is there keeps the length; setting one that is not makes it one longer if m_maxSize is 0 or the new length is below m_maxSize + m_elasticity or at most m_maxSize, and exactly m_maxSize otherwise |
| Lru.GetMeaning | ancfl/ds/lru_cache.h:58-84 | get answers exactly for keys that are there, with their value, and changes only the order |
| Lru.DelMeaning | ancfl/ds/lru_cache.h:86-96 | del removes exactly that key and says whether it was there |
| Lru.PrunedMeaning | ancfl/ds/lru_cache.h:158-174 | pruning leaves a prefix and never drops the first entry |
| Lru.RunBound | ancfl/ds/lru_cache.h:44-174 | over every run the size is at most m_maxSize + max(m_elasticity, 1) - 1 |
| Lru.BoundReached | ancfl/ds/lru_cache.h:44-174 | and for any limits there is a run that reaches it |
| Lru.Inclusion | ancfl/ds/lru_cache.h:44-174 | over any one trace on two caches with elasticity 0 and sizes 1 <= n <= m, the smaller one's entries are a subsequence of the larger one's, with equal values |
| Lru.InclusionFromEmpty | ancfl/ds/lru_cache.h:44-174 | so after any trace every hit in the small cache is a hit in the large one, on the same value |
| Lru.RunAgrees | ancfl/ds/lru_cache.h:44-118 | every entry a run leaves is that of a map given the same calls, and with m_maxSize 0 the two have the same keys |
| Lru.AnswersLastSet | ancfl/ds/lru_cache.h:58-84 | a hit answers with the last value set and not deleted since; with m_maxSize 0 every such key hits |
| LruCaches.LruCache.Located | ancfl/ds/lru_cache.h:44-70 | index and list agree on which keys are there, and each iterator names its own node |
| LruCaches.LruCache.Counts | ancfl/ds/lru_cache.h:103-106 | the size of the index is the length of the list |
| LruCaches.LruCache.Splice | ancfl/ds/lru_cache.h:48-50 | moving a node to the front leaves the order of the others and the index as they were |
| LruCaches.LruCache.Prune | ancfl/ds/lru_cache.h:158-174 | the loop drops from the back until m_maxSize entries are left, unless there is no limit or room within it, and hands exactly that many to the callback in that order |
| LruCaches.LruCache.Set | ancfl/ds/lru_cache.h:44-56 | the list after is that of the value layer, and the callback saw exactly what was dropped, oldest first, in the number that brings the length back to m_maxSize |
| LruCaches.LruCache.Get | ancfl/ds/lru_cache.h:58-84 | the list and the answer are those of the value layer |
| LruCaches.LruCache.Del | ancfl/ds/lru_cache.h:86-96 | the same for del |
| LruCaches.LruCache.Clear | ancfl/ds/lru_cache.h:113-118 | nothing is left |
| LruShards.ShardIsCache | ancfl/ds/lru_cache.h:217-227 | over every run each shard is a cache of its own that saw exactly the calls on its keys and every clear |
| LruShards.ShardsStayApart | ancfl/ds/lru_cache.h:217-227 | over every run a key is found only in its own shard |
| LruShards.ShardsApplyExactly | ancfl/ds/lru_cache.h:217-252 | a call on a key reaches the shard numbered by its hash modulo their number and no other; clear reaches all |
| LruShards.TotalBound | ancfl/ds/lru_cache.h:196-237 | over every run the total is at most bucket times the bound of one shard |
| LruShards.TotalOne | ancfl/ds/lru_cache.h:231-237 | the total of one shard is its length |
| LruShards.TotalJoin | ancfl/ds/lru_cache.h:231-237 | and that of two groups of shards is the sum: every entry of every shard counts once |
| LruShards.CeilMeaning | ancfl/ds/lru_cache.h:200-203 | the rounded-up shares hold what was asked for, and less than one more a shard |
| LruShards.HashLruCache.constructor | ancfl/ds/lru_cache.h:196-209 | bucket empty shards with the rounded-up limits |
| LruShards.HashLruCache.Set | ancfl/ds/lru_cache.h:217-219 | exactly the key's shard is changed, as its cache would, and the callback saw what that shard dropped |
| LruShards.HashLruCache.Get | ancfl/ds/lru_cache.h:221-225 | the same, and the answer is that shard's |
| LruShards.HashLruCache.Del | ancfl/ds/lru_cache.h:227-227 | the same for del |
| LruShards.HashLruCache.Clear | ancfl/ds/lru_cache.h:248-252 | every shard is empty |
| LruShards.HashLruCache.Size | ancfl/ds/lru_cache.h:231-237 | the sum over the shards |
| UrlCodec.RoundTrip | ancfl/util.cc:668-732 | decoding undoes encoding for every byte string and both flags |
| UrlCodec.RoundTripExactly | ancfl/util.cc:668-732 | with any two choices of the flag a string reads back if and only if no space was written as a plus sign and read without the flag |
| UrlCodec.EncodeInjective | ancfl/util.cc:668-699 | two strings with one encoding are equal |
| UrlCodec.EncodeIsCanonical | ancfl/util.cc:668-699 | the output is made of table characters, plus signs under the flag, and '%' with two upper-case digits for bytes that have no shorter form |
| UrlCodec.DecodeEncodeExactly | ancfl/util.cc:668-732 | encoding undoes decoding if and only if the text is of that form |
| UrlCodec.EncodeAlphabet | ancfl/util.cc:668-699 | no other character comes out, and at most three for one |
| UrlCodec.EncodeUnchangedExactly | ancfl/util.cc:692-694 | the output equals the input if and only if every byte is in the table |
| UrlCodec.DecodeUnchangedExactly | ancfl/util.cc:725-727 | decoding changes nothing if and only if there is no escape and no plus sign that counts |
| UrlCodec.EncodeAppend | ancfl/util.cc:668-699 | encoding works piece by piece |
| UrlCodec.TablesExactly | ancfl/util.cc:385-664 | which characters the two tables hold |
| UrlCodec.DigitsExactly | ancfl/util.cc:648-669 | each digit of either case has its place in the row of digits as value, and the upper-case one is written |
| UrlCodec.EncodeByteExactly | ancfl/util.cc:678-687 | what each byte is written as: itself, a plus sign, or '%' with its high and its low digit |
| UrlCodec.EscapeExactly | ancfl/util.cc:712-719 | '%' with two digits in any mixture of cases stands for the byte with those digits, the first one high |
| UrlCodec.OtherwiseExactly | ancfl/util.cc:701-727 | any other character stands for itself, but for a plus sign that counts as a space |
| UrlCodec.CaseDoesNotMatter | ancfl/util.cc:648-732 | for every text, decoding gives the same as decoding it with the digits of its escapes in upper case |
| UrlCodec.UrlEncode | ancfl/util.cc:668-699 | the loop with the lazily made buffer returns the character-by-character result |
| UrlCodec.UrlDecode | ancfl/util.cc:701-732 | the decoding loop that jumps over escapes returns the character-by-character result, which EscapeExactly, OtherwiseExactly and CaseDoesNotMatter fix |

## Left out

- Bitmap `any`, `resize` and the compressed `getCount`: masks and shifts in them do not match the layout, so no general property of them is worth stating.
- Bitmap `operator==`, `toString`, `getCompressRate`: the first two would add only easy members, the last is floating point.
- Bitmaps.Bitmap.AndWith: aliasing of the operand's words with the receiver's is modelled only between two bitmaps of the same form; a copy never shares them.
- Bitmaps.Bitmap.SetRange: for a range that is not empty, positions are multiples of 14, as the program's own assertion demands, and inside the words.
- Bitmaps.Bitmap.Cross: sizes may differ, but only so that no word outside either bitmap's memory is read; the program does not test for it.
- BitmapScan.Iterator.Next: converting an out-of-range number to a signed field is taken modulo 2^32.
- ByteArray `writeToFile` and `readFromFile` are file I/O; the positional `read` and `getReadBuffers` are right for restricted positions only, and the former is used only through `toString`.
- ByteArrays.ByteArray.Write: sizes are unbounded numbers; overflow of `size_t` is not modelled.
- Codec floats and doubles: bit patterns copied through the fixed-width integers.
- Messages.Message.Serialize: the socket and the framing of the protocol around a message are not modelled.
- Timers: locks and condition timers; an address stands for the identity the comparator compares.
- Timers.RunNeverLosesWakeup: after a rollover of the clock the claim is not made; the runs it covers leave out a refresh or an expiry whose deadline exceeds 64 bits, for which StepExactly gives the exact condition.
- IoEvents: the unlock and relock around the growth of the table, and the pipe that tickles the poller; each per-descriptor method is one step. Calls come from a thread of some scheduler, so the context's scheduler is never null.
- IoEvents: an event argument other than READ or WRITE; the program's own `getContext` asserts against it.
- IoManagers.IOManager.Dispatch: waiting in `epoll_wait` and the timers served in the same pass; TimerManager models the latter by itself.
- Schedulers: fiber contexts, stacks and the race between a fiber setting its state and its worker fixing it up; from swap-in to the decrement is one step, and the state found and left is a parameter. Nothing is claimed about one fiber on two threads at once.
- Schedulers.RunKeeps: threads that start late and the caller's own thread are workers like all others; `tickle` has no effect on the state.
- Schedulers.NothingLeftBehind: the idle fiber is the base class's, which only asks stopping(); that of IOManager also waits for the kernel and asks for timers and pending events.
- WorkerGroups.RunKeeps: the scheduler's queue is reduced to queued and running tasks; `m_finish` is read and set in one step.
- WorkerGroup as an object: a call that blocks half way is not one method, so only its semaphore is a class.
- LruCaches.LruCache.Set: the hit and prune counters of the status object, and limits that change between calls.
- LruShards.HashLruCache.constructor: asks for at least one bucket; with none the program divides by zero.
- LruShards.CeilMeaning: the shares are computed in floating point; the model takes the exact ceiling.
- `uri.rl.cc` is a generated automaton whose grammar is not part of this model.
- `hash_map.h` and `dict.h` rest on helpers that are not part of this model; `array.h` would add only easy members.
- Addresses, sockets, hooks, the TCP server, configuration, logging, daemon, modules and the database wrappers are I/O and foreign calls; `SpeedLimit` is floating point.
