# SimpleSipClient: a verified model of the media path and of the pjlib code it ships

SimpleSipClient receives MPEG program streams over RTP, extracts H.264 from them, and can send frames on
to a streaming server. It also ships pjlib's inline code: intrusive lists, small mathematics, string
comparison and a growing memory pool. This project models that code in Dafny and proves what it does, on all
inputs and over whole runs.

| file | models |
|---|---|
| `ProgramStream.dfy` | the meaning of the program stream demultiplexer and the ISO/IEC 13818-1 layout it undoes |
| `PsToH264.dfy` | the demultiplexer itself: one buffer, read and overwritten by the same loop |
| `RtpStream.dfy`, `RtpRecver.dfy` | frame reassembly from RTP packets (section 5.1 of RFC 3550) and the receiver object |
| `SmsStream.dfy`, `Sms.dfy` | the slice format of the streaming client, a peer that reads it, and the sender object |
| `ISqrt.dfy`, `MathStat.dfy` | integer square root and running statistics |
| `List.dfy`, `ListRuns.dfy` | circular doubly linked lists, and runs of operations over many lists |
| `AlnumCompare.dfy`, `StrCompare.dfy` | word-at-a-time caseless comparison; `pj_strcmp` as a total order and `pj_strncmp` as its restriction to fronts |
| `Pool.dfy`, `PoolGrow.dfy`, `PoolRuns.dfy` | one block of the memory pool, the pool that grows by blocks, and runs of requests on it |
| `Decoder.dfy` | the plane-packing loops |
| `Algebra.dfy`, `Bits.dfy`, `Bytes.dfy` | shared arithmetic, the C operators `&` and `\|`, octets |

Verify with `dafny verify dfyconfig.toml`.

## How it is modelled

- Pointers into one buffer are offsets. A `memcpy` whose ranges may overlap is a forward octet copy.
- `DemuxFrom` keeps the comparison of a signed `leftlength` with an unsigned `sizeof`: a negative value
  counts as huge and the loop goes on. It is `None` exactly when the program would read or copy outside
  the memory it is given, or copy a negative count; a start code is read only up to the first octet that
  differs (`Testable`). The demultiplexer is proved for every input on which
  it is not `None`. Data whose declared lengths fit is characterised separately (`WellFormedIffMuxed`), and
  so is data cut off anywhere (`CutFrame`).
- The two length octets are read on a little-endian host, as the source assumes; the video header in
  front of a sent frame is laid out for such a host too.
- Words and masks are unbounded integers with the wrap-around of the C types written out (`Add32`,
  `WithStddev`, `Rounded`). For the statistics, `UpdateFits` gives the samples for which nothing
  overflows.
- Socket, clock and the header octet nobody sets are the parameters in `Surroundings`; what a socket or a
  signal is given is appended to a sequence.

## Where the code and its documentation part

- `pj_isqrt` is documented as the integer square root. It returns one more for some inputs one below a
  square, such as 48; `RootExactIff` says for which, and `RootExactIff32` gives a closed test for 32 bits.
- `pj_math_stat_set_stddev` computes `dev*dev*n` in 32 bits; `StddevRoundTrip` says exactly when the value
  survives, and `LostDeviation` names the first value that an empty structure loses.
- `pj_stricmp_alnum` is documented to return -1 for unequal strings; it returns 1 when the first is longer.
- `pj_pool_alloc_from_block` rounds requests near the top of the address space to zero (`RoundedIff`,
  `LargestRequest`).
- `pj_pool_allocate_find` asserts that the block it adds serves the request. `ServedExactly` says when it
  does, for every size and increment. One alignment unit is reserved for two losses, in front of the block's
  first octet and behind the request: where the size reckoning does not wrap, that suffices for every request
  exactly when at most one octet is lost in front (`AlwaysServedIff`; `LostInFront` is a request that fails).
  Where the reckoning wraps, the block is too small (`BlockSizeEnoughIff`): the assertion can fail with
  nothing lost in front (`NeedWraps`), or the pointer can lie behind the block (`SumWraps`). Runs stay safe
  exactly if every added block holds its own header (`RunSafeIff`).
- `pj_strncmp` cuts a string if `len` is below its length as an `unsigned`; `CutIff` says when that is the
  front of the string, and `LongNotCut` gives a string of 2^32 octets for which it is not.
- The comment in `GetH246FromPs` names the start code 00 00 01 BA, but the code never looks at it: any 14
  octets do for a pack header. Its test of the whole length in the system header branch cannot fail.
- A frame that lost its end is demultiplexed as it is. A video unit whose nine header octets came is emitted at its
  declared size, with zeros for what is missing; a unit of which less came emits nothing. After a cut system
  header or stream map the loop reads on behind it, which needs room in the buffer (`CutFrame`).
- `m_bfirstIFrame` is set by the first P frame; the gate is modelled as written.

## Model

| member | source | states |
|---|---|---|
| PsToH264.GetH246FromPs | pstoh264.cpp:11-96 | the front of the buffer ends as the stream a reader of the untouched buffer would extract, and the rest of the buffer is left alone |
| PsToH264.VideoBranch | pstoh264.cpp:30-56 | a PES packet moves its payload behind what was written before, the read cursor gains at least 9 octets on the write cursor, and the loop continues or stops as on the untouched buffer |
| PsToH264.Pes | pstoh264.cpp:98-122 | next unit, octets left, and payload window of a PES header, in every exit |
| PsToH264.ProgramStreamPackHeader | pstoh264.cpp:125-140 | cursor and octets left add up to the length, for any stuffing |
| PsToH264.CopyForward | pstoh264.cpp:40-42 | overlapping forward copy gives the original source octets at the destination |
| ProgramStream.VideoOctets | pstoh264.cpp:30-56 | the octets 00 00 01 E0, a length with the high octet first, two flags, the size of the optional part: the payload is emitted and the run goes on behind it |
| ProgramStream.SkippedOctets | pstoh264.cpp:57-87 | the octets 00 00 01 BB and 00 00 01 BC with a length are passed over, also where more is declared than is left |
| ProgramStream.NegativeOctets | pstoh264.cpp:25-56 | with a negative count left a packet 00 00 01 E0 is still emitted, and ends the run |
| ProgramStream.OtherOctetsStop | pstoh264.cpp:25-92 | any other four octets, and fewer than four, end the run |
| ProgramStream.PackOctets | pstoh264.cpp:11-140 | 14 octets, as much stuffing as the low three bits of the last of them say, and a packet 00 00 01 E0 demultiplex to the packet's payload, whatever follows in memory |
| ProgramStream.CutOctets | pstoh264.cpp:98-122 | a packet 00 00 01 E0 cut short is emitted at its declared size if nine octets came, and not otherwise |
| ProgramStream.LastFourOctets | pstoh264.cpp:25-72 | four last octets 00 00 01 BB are followed into cleared memory, which five more octets of memory allow |
| ProgramStream.DemuxUndoesMux | pstoh264.cpp:11-140 | demultiplexing any pack gives the concatenated video payloads, whatever lies behind it in memory |
| ProgramStream.DemuxPrefix | pstoh264.cpp:25-94 | encoded units in front of arbitrary octets are consumed one by one |
| ProgramStream.DemuxOneUnit | pstoh264.cpp:30-87 | one encoded unit emits what it carries and moves on to the next |
| ProgramStream.DemuxCutUnit | pstoh264.cpp:25-122 | any unit cut anywhere in front of cleared memory: what is emitted, and exactly when the reader stays inside |
| ProgramStream.DemuxCutVideo | pstoh264.cpp:98-122 | a video unit whose header came is emitted at its declared size with whatever octets lie in memory |
| ProgramStream.DemuxCutStream | pstoh264.cpp:25-94 | the same for a whole stream of units cut anywhere |
| ProgramStream.CutStreamIsFront | pstoh264.cpp:25-94 | what a cut stream emits is the front of what it carries, then zeros, and not longer |
| ProgramStream.HeadersCost | pstoh264.cpp:25-94 | every unit is longer than what it carries by at least its header |
| ProgramStream.ParseUndoesMux | pstoh264.h:15-50 | the layout is uniquely decodable |
| ProgramStream.MuxUndoesParse | pstoh264.h:15-50 | whatever parses is the encoding of what it parses to |
| ProgramStream.WellFormedIsMuxed | pstoh264.cpp:11-96 | data whose declared lengths fit is a multiplexed pack and demultiplexes to its payloads |
| ProgramStream.WellFormedIffMuxed | pstoh264.cpp:11-96 | declared lengths fit if and only if the data is a multiplexed pack |
| RtpRecver.RtpRecver.constructor | rtprecver.cpp:12-18 | an empty, cleared buffer |
| RtpRecver.RtpRecver.ProcessRTPPacket | rtprecver.cpp:90-118 | a packet without marker is appended; a marker emits the demultiplexed frame if it is nonempty and clears the buffer |
| RtpRecver.RtpRecver.Receive | rtprecver.cpp:65-88 | over any run: emitted frames are the nonempty demultiplexings of the marker-delimited payloads, the rest is pending, zeros follow |
| RtpRecver.RtpRecver.ReceiveTransmission | rtprecver.cpp:65-118 | a receiver given packs cut into RTP payloads anywhere emits exactly the streams they carry and is empty again |
| RtpStream.RoundTrip | rtprecver.cpp:98-113 | packs cut into RTP payloads anywhere come back as the streams they carry, in order, once each, and never for an empty one |
| RtpStream.OneFrame | rtprecver.cpp:98-113 | packets with one marker at the end make one frame of their payloads |
| RtpStream.HeadReceivable | rtprecver.cpp:98-113 | a receivable run stays receivable packet by packet |
| RtpStream.FramesSplit | rtprecver.cpp:65-118 | receiving a run in two parts gives the frames and the rest of receiving it at once |
| RtpStream.NoMarker | rtprecver.cpp:90-118 | packets without a marker make no frame and stay pending whole |
| RtpStream.CutFrame | rtprecver.cpp:98-113 | a pack cut off anywhere, pack header included: readable if and only if its reach fits the buffer, and then the demultiplexing of what came |
| RtpStream.CutPackIsFront | rtprecver.cpp:98-113 | that demultiplexing is the front of the carried stream, then zeros; uncut it is the whole stream |
| ISqrt.Isqrt | include/pj/math.h:85-103 | both loops end for every 32-bit input, without wrap-around or division by zero, at the value of `Root` |
| ISqrt.GuessBounds | include/pj/math.h:89-94 | the rough guess is a power of two g with g*g <= i < 4*g*g |
| ISqrt.DistanceDrops | include/pj/math.h:97-100 | at or above the root the loop gets closer at every step that continues, also where plain Newton oscillates |
| ISqrt.NextAtLeastRoot | include/pj/math.h:98-99 | a step never lands below the floor root |
| ISqrt.RootBounds | include/pj/math.h:85-103 | r*r <= i+1 and i < (r+1)*(r+1) |
| ISqrt.RootExactIff | include/pj/math.h:78-103 | the result is the floor root if and only if the iterates below a square do not come down onto one above its root |
| ISqrt.RootExactIff32 | include/pj/math.h:78-103 | for 32 bits the same as a closed test: at most three iterates are computed from the rough guess |
| ISqrt.RootOf48 | include/pj/math.h:78-103 | the result for 48 is 7, which is not the floor root |
| MathStat.MathStat.constructor | include/pj/math.h:110-113 | all fields zero |
| MathStat.MathStat.Update | include/pj/math.h:121-162 | the fields after a sample (integer branch) |
| MathStat.MathStat.SetStddev | include/pj/math.h:186-191 | stored m2 and n, with 32-bit wrap-around |
| MathStat.MathStat.GetStddev | include/pj/math.h:171-175 | the square root of m2/n, or 0 |
| MathStat.MeanStep | include/pj/math.h:149-158 | a sample moves n*mean + residue by exactly its value, and the mean does not pass the sample |
| MathStat.CarryIff | include/pj/math.h:149-158 | the mean moves by exactly the truncated quotient if and only if old residue plus remainder stay strictly between -n and n, by one more at n, by one less at -n |
| MathStat.MeanStays | include/pj/math.h:149-158 | without a division: a difference that keeps itself and the residue below n leaves the mean alone |
| MathStat.RunMoves | include/pj/math.h:149-160 | after any run the next sample moves mean, residue and m2 in that way |
| MathStat.TenEleven | include/pj/math.h:121-160 | the samples 10 and 11 leave mean 10, residue 1 and m2 1 |
| MathStat.RunConserves | include/pj/math.h:121-158 | over any run n*mean + residue is the sum, the residue is below n, min and max are exact and enclose the mean |
| MathStat.M2Grows | include/pj/math.h:160 | m2 never decreases and is never negative |
| MathStat.WelfordBound | include/pj/math.h:121-162 | m2 is within 2*(n-1)*(max-min) of the exact sum of squared deviations |
| MathStat.WelfordExact | include/pj/math.h:121-162 | m2 is the sum of squared deviations itself when no division of the run leaves a residue |
| MathStat.StddevOfRun | include/pj/math.h:171-175 | read after samples: n*dev*dev is at most m2 + n and m2 is below n*(dev+1)*(dev+1), if m2/n fits the cast |
| MathStat.StddevNearExact | include/pj/math.h:121-175 | the deviation read against the exact sum of squared deviations |
| MathStat.ReadableRun | include/pj/math.h:121-175 | samples within the bounds of `UpdateFits` fit the cast |
| MathStat.Observe | include/pj/math.h:121-175 | on the object: samples, then the deviation, which is that root |
| MathStat.UpdateFits | include/pj/math.h:121-160 | samples within 2^30 and a spread of at most 46340 overflow neither an int, the count included, nor the 64 bits of m2 |
| MathStat.StddevRoundTrip | include/pj/math.h:171-191 | a stored deviation is read back unchanged if and only if dev*dev*n fits 32 bits |
| MathStat.StoredIs | include/pj/math.h:186-191 | what is stored is dev*dev*n modulo 2^32 with n at least 1, and no other field changes |
| MathStat.LostDeviation | include/pj/math.h:171-191 | an empty structure gives back every deviation below 65536, and 0 for 65536 |
| MathStat.MathStat.StoreAndRead | include/pj/math.h:171-191 | on the object: what is set is read back if and only if its square times n fits 32 bits |
| List.Node.constructor | include/pj/list.h:87-90 | a fresh node is a ring of its own |
| List.InsertAfter | include/pj/list_i.h:29-35 | the ring with the node behind the position; only three nodes are written |
| List.InsertBefore | include/pj/list_i.h:38-41 | the ring with the node in front of the position, at the end for the head |
| List.PushBack | include/pj/list.h:122-125 | the node becomes the last member |
| List.PushFront | include/pj/list.h:153-156 | the node becomes the first member |
| List.InsertNodesAfter | include/pj/list_i.h:44-51 | the whole second ring goes in behind the position |
| List.InsertNodesBefore | include/pj/list_i.h:53-56 | the whole second ring goes in front of the position |
| List.MergeLast | include/pj/list_i.h:58-65 | members of the second list behind those of the first, second list empty, also when either was empty |
| List.MergeFirst | include/pj/list_i.h:67-74 | members of the second list in front of those of the first, second list empty |
| List.Erase | include/pj/list_i.h:76-85 | the node leaves its ring and is alone; erasing a lone node changes nothing |
| List.FindNode | include/pj/list_i.h:88-95 | a node other than the head is found if and only if it is a member |
| List.Search | include/pj/list_i.h:98-106 | the first member that compares to zero under a comparison that reads the nodes, or null when none does |
| List.Size | include/pj/list_i.h:109-120 | the number of members |
| ListRuns.Perform | include/pj/list_i.h:29-85 | one operation on any of several rings keeps all of them rings, disjoint, and follows the sequence operation |
| ListRuns.PerformAll | include/pj/list_i.h:29-85 | the same over any run of operations |
| ListRuns.StepIs | include/pj/list_i.h:29-85 | the rings after each of the nine operations, written out as sequences |
| ListRuns.StepConserves | include/pj/list_i.h:29-85 | no operation loses or duplicates a node |
| ListRuns.RunConserves | include/pj/list_i.h:29-85 | no run loses or duplicates a node |
| ListRuns.SeparateIff | include/pj/list_i.h:29-85 | no node in two places means: no repetition inside a ring and nothing shared by two |
| Sms.VideoHeader | frameresolve/sms.h:26-36 | kind, size, time and timestamp can be read back from the 24 octets in front of a frame |
| Sms.VideoHeaderOctets | frameresolve/sms.h:26-36 | the 24 octets: kind and size low octet first, time, five zero octets, timestamp |
| Sms.SMS.WriteFrame | frameresolve/sms.cpp:28-105 | gate, drop and send: what is written in each case |
| Sms.NalTypeIs | frameresolve/sms.cpp:34-35 | the type is the low five bits of the octet behind the first 00 00 00 01 |
| Sms.NalTypeWithout | frameresolve/sms.cpp:34-35 | without 00 00 00 01 it is the low five bits of the fourth octet |
| Sms.WriteNal | frameresolve/sms.cpp:28-105 | on the object, in octets: type 1 opens the gate and goes out with kind 35 31 64 63 unless more than 2097152 octets wait; types 2, 5, 7 and 8 go out with 35 30 64 63 through an open gate; what goes out parses into slices that together are kind, size, time, zeros, timestamp and frame; nothing else goes out |
| Sms.GateIs | frameresolve/sms.cpp:37-67 | in a run, P frames pass unless there is a backlog, the other kinds pass exactly after a P frame, and an unwritable socket changes nothing |
| Sms.WriteFrames | frameresolve/sms.cpp:28-105 | over any run of calls on the object, what is written parses into the slices of exactly the frames that pass, in order |
| Sms.SMS.WriteSlices | frameresolve/sms.cpp:80-103 | the loop writes exactly the encoded slices of header and frame |
| Sms.FrameRoundTrip | frameresolve/sms.cpp:77-103 | the written stream parses into the slices, and these give header and frame back in any order |
| SmsStream.SlicesCover | frameresolve/sms.cpp:80-90 | ceil(size/1000) slices of 1 to 1000 octets, numbered, together the data |
| SmsStream.SeqNumDecodes | frameresolve/sms.cpp:96-98 | slice number and count can be read from the combined word |
| SmsStream.EncodeOctets | frameresolve/sms.cpp:91-102 | the 20 header octets of a slice: FF FF 55 9F, channel, flag, type, 00 00 79 18, number, count, length |
| SmsStream.FirstOctets | frameresolve/sms.cpp:77-103 | what goes out for a frame starts with such a header and the front of the frame header |
| SmsStream.ParseUndoesEncode | frameresolve/sms.cpp:91-102 | the octet stream parses into exactly the slices, whatever the unset octets hold |
| SmsStream.ReassembleAnyOrder | frameresolve/sms.cpp:80-103 | permuted slices reassemble to the data |
| AlnumCompare.StrnicmpAlnum | include/pj/string_i.h:233-264 | 0 exactly when all octet pairs agree under the mask, in either byte order, whatever follows them |
| AlnumCompare.StricmpAlnum | include/pj/string_i.h:266-300 | the same for counted strings; different lengths decide first |
| AlnumCompare.WordsAgree | include/pj/string_i.h:241-260 | masked words are equal if and only if their octets agree |
| AlnumCompare.AgreeMeaning | include/pj/string_i.h:241-260 | the mask ignores exactly bits 5 and 7, which on letters and digits is caseless equality |
| AlnumCompare.AlnumExact | include/pj/string_i.h:233-264 | alphanumeric strings compare equal if and only if their lower-case spellings are the same |
| StrCompare.StrcmpOrders | include/pj/string_i.h:146-162 | the sign decides equality and dictionary order, in both directions |
| StrCompare.StrcmpTotalOrder | include/pj/string_i.h:146-162 | antisymmetric in sign and transitive |
| StrCompare.StrncmpOrders | include/pj/string_i.h:164-182 | the sign decides equality and dictionary order of the fronts of length len, for all strings whose length survives the cast |
| StrCompare.StrncmpLonger | include/pj/string_i.h:164-182 | what a shorter length decides, every longer one and `pj_strcmp` decide alike |
| StrCompare.CutIff | include/pj/string_i.h:169-179 | a string is cut to its front if and only if its length is at most len or exceeds it also in 32 bits |
| StrCompare.LongNotCut | include/pj/string_i.h:169-179 | a string of 2^32 octets is not cut, and compares unequal to its own first octet at length 1 |
| Pool.RoundedIff | include/pj/pool_i.h:47-49 | the rounded size is the least multiple of the alignment that holds the request if and only if the sum does not wrap |
| Pool.LargestRequest | include/pj/pool_i.h:47-55 | in 32 bits a request of 0xFFFFFFFD is answered without taking anything |
| Pool.WrapsTakeNothing | include/pj/pool_i.h:47-55 | so is every request whose rounding wraps |
| Pool.Block.AllocFromBlock | include/pj/pool_i.h:41-56 | pointer and new state; NULL exactly when the rounded size does not fit, and then nothing changes |
| Pool.AllocKeeps | include/pj/pool_i.h:50-55 | what one request does to the block |
| Pool.AllocRunSafe | include/pj/pool_i.h:41-56 | over any run the ranges are disjoint, inside the block, aligned in address and size and large enough unless their rounding wraps, and account for all of the used part |
| Pool.UsedGrows | include/pj/pool_i.h:30-56 | the used size grows by exactly the rounded size |
| Pool.UsedSizeIs | include/pj/pool_i.h:30-39 | the used size is the pool, one header for each block and what is in use in all of them |
| Pool.GetUsedSize | include/pj/pool_i.h:30-39 | the sum over the block list |
| Pool.AlignPtrLeast | pjlibs/pjlib/src/pj/pool.c:35 | the pointer becomes the least multiple of the alignment at or above it |
| Pool.Block.constructor | pjlibs/pjlib/src/pj/pool.c:70-75 | start, end and aligned cursor of a new block |
| PoolGrow.BlockSizeEnoughIff | pjlibs/pjlib/src/pj/pool.c:112-130 | sums wrapping as in the source: the new block is as large as the request needs if and only if the reckoning does not wrap, and then at most one increment larger |
| PoolGrow.BlockSizeIs | pjlibs/pjlib/src/pj/pool.c:117-130 | the new block is a whole number of increments: one if that covers the need, otherwise the least that exceeds it |
| PoolGrow.WrappedBlockSize | pjlibs/pjlib/src/pj/pool.c:112-130 | where it wraps: an empty block, or a single increment |
| PoolGrow.MadeValidIff | pjlibs/pjlib/src/pj/pool.c:70-75 | the aligned cursor of the new block is inside it if and only if the block holds its header and what is lost behind that |
| PoolGrow.ServedExactly | pjlibs/pjlib/src/pj/pool.c:112-143 | for every size and increment: the assertion holds if and only if header, octets lost in front and rounded size fit the block, which counts one whole word range larger when it does not hold its header |
| PoolGrow.ServedInsideIff | pjlibs/pjlib/src/pj/pool.c:112-143 | the request is served from a block that holds its header if and only if header, loss and rounded size fit the block |
| PoolGrow.AlwaysServedIff | pjlibs/pjlib/src/pj/pool.c:112-143 | the assertion holds for every request and increment whose reckoning does not wrap, if and only if at most one octet is lost in front of a block |
| PoolGrow.LostInFront | pjlibs/pjlib/src/pj/pool.c:112-143 | a request without wrap-around that fails the assertion: alignment 8, header 20, increment 29, block at 0x1000, one octet |
| PoolGrow.NeedWraps | pjlibs/pjlib/src/pj/pool.c:112-143 | a request that fails it with nothing lost in front: increment 1000, 0xFFFFFFF0 octets in 32 bits |
| PoolGrow.SumWraps | pjlibs/pjlib/src/pj/pool.c:112-143 | a request answered with a pointer behind the end of an empty block: increment 0x2000, 0xFFFFF000 octets in 32 bits |
| PoolGrow.TryBlocks | pjlibs/pjlib/src/pj/pool.c:99-104 | the first block with room serves the request and the others are left alone |
| PoolGrow.MemoryPool.AllocateFind | pjlibs/pjlib/src/pj/pool.c:91-150 | the first block with room answers at its cursor; otherwise nothing happens without increment or memory, or a block is added whose aligned cursor is the answer if and only if header, loss and rounded size fit; the capacity grows by the block |
| PoolGrow.FindAnswers | pjlibs/pjlib/src/pj/pool.c:91-150 | the same of the function the methods are proved against |
| PoolGrow.MemoryPool.Allocate | include/pj/pool_i.h:59-65 | trying the newest block first gives what the search alone would give, and the same answer |
| PoolRuns.NextSafeIff | pjlibs/pjlib/src/pj/pool.c:91-150 | a request keeps blocks valid, apart and aligned, and everything handed out good and disjoint, if and only if a block added for it holds its own header |
| PoolRuns.RunSafeIff | pjlibs/pjlib/src/pj/pool.c:91-150 | over any run, growing or not: no two requests get the same octet, and every range is aligned, inside a block and large enough unless its rounding wraps, if and only if every request of the run is sound in that sense |
| PoolRuns.NextAnswers | pjlibs/pjlib/src/pj/pool.c:91-150 | a sound request is answered with a pointer if and only if it fits what is free in some block or in the block granted for it |
| PoolRuns.RunAnswers | pjlibs/pjlib/src/pj/pool.c:91-150 | over a sound run exactly the requests that fit get a range, in order and of the rounded size |
| PoolRuns.ReckonedRunSound | pjlibs/pjlib/src/pj/pool.c:91-150 | runs of requests whose reckoning does not wrap are sound |
| PoolRuns.StartSafeIff | pjlibs/pjlib/src/pj/pool.c:212-220 | a pool with its first block is safe if and only if the aligned cursor is inside the block |
| PoolRuns.Serve | pjlibs/pjlib/src/pj/pool.c:91-150 | the pool object hands out exactly the ranges of the run, is safe afterwards if and only if the run is sound, and then has answered exactly the requests that fit |
| Decoder.PackPlane | decoder/decoder.cpp:88-102 | a loop writes the rows of a plane without gaps and nothing else |
| Decoder.PackFrame | decoder/decoder.cpp:79-102 | the buffer, sized by the codec context, holds the three packed planes one behind the other |
| Decoder.BufferSizeIs | decoder/decoder.cpp:75-79 | the buffer has one and a half octets per pixel of the codec context, rounded down |
| Decoder.PlanesFit | decoder/decoder.cpp:75-102 | a frame with no more pixels than the codec context fits that buffer |
| Decoder.FrameSamples | decoder/decoder.cpp:88-102 | every luma and chroma sample stands at its row-major index |

## Left out

- PsToH264.GetH246FromPs: the caller must ensure that declared lengths do not lead outside the buffer, which the code does not check; nothing is said of runs where they do.
- RtpRecver.RtpRecver.ProcessRTPPacket: frames beyond the 1 MiB buffer are excluded, because the code does not check; the message about sequence gaps only prints and is not modelled.
- RtpRecver.RtpRecver.constructor: starts the fill level at 0, which the source leaves unset.
- MathStat.MathStat.Update: the floating-point branch is not modelled; the fields are unbounded integers, and `UpdateFits` says when that makes no difference.
- Sms.SMS.WriteFrame: frames of more than 32768 slices are excluded, because shifting the slice number by 16 bits then overflows an `int`, which C leaves undefined; the debug dump to a file is not modelled.
- Decoder.PackFrame: the three planes must fit the buffer sized by the codec context, which the source does not check; decoding, colour conversion and display are not part of this model.
- StrCompare.StrcmpOrders: of the value of `pj_memcmp` only the sign is modelled.
- `pj_strncmp2`, `pj_strcmp2` and the string functions that copy or append (`pj_strcpy`, `pj_strcat`, `pj_strdup`) are not modelled.
- PoolGrow.MemoryPool.AllocateFind: pointers do not wrap around; the address of a new block, or its absence, is a parameter; the assertions are compiled out; the out-of-memory callback and the log are not modelled.
- PoolRuns.Serve: granted memory is taken to lie apart from the blocks the pool has.
- Resetting and destroying a pool, and the factories that create pools, are not modelled.
- User interface, threads, sockets, timers, PJSIP, FFmpeg and jrtplib calls are not modelled.
- `ListRuns` inserts a single node only while it is in no list, as the list functions require.
