# Verified model of the native media code

This project models, in Dafny, the parts of the repository's native code whose correctness is a
matter of bits, streams and state, and proves what they promise:

- the UTF-8 and UTF-16 readers and writers, the in-register bit counts, the clips and saturating
  adds, the rounding macros and the byte swaps of the bundled libavutil headers;
- the muxer of `mux_stream.cpp`: the track registry, the stored parameter sets, the per-codec packet
  rewrite with its ADTS header, and the queue in front of the muxer thread;
- the positions and loops of the preview extractor.

Machine words are integers with explicit wrap-around. `Bits` defines C's `&`, `|`, `^`, `~` and
shifts bit by bit; what a mask or a shift means arithmetically is proved there and nowhere assumed.
A macro or function that updates variables step by step is a method, proved against a specification
function; the theorems are about those functions. The muxer is a class whose arrays and byte buffers
are proved to follow a small state machine (`MuxModel`), whose history is kept in a ghost field, so
that the whole-run theorems of `MuxRuns`, `MuxConservation` and `DeferredModel` hold of the object.

| file | contents |
|---|---|
| `Bits.dfy`, `Outcomes.dfy` | words, bitwise operators, shared result types |
| `Utf8.dfy`, `Utf8Writer.dfy`, `Utf8Reader.dfy`, `Utf8Stream.dfy` | the UTF-8 tables, the two macros, stream theorems |
| `Utf16.dfy`, `Utf16Stream.dfy` | the UTF-16 macros, stream and transcoding theorems |
| `Popcount.dfy`, `Clip.dfy`, `Rounding.dfy`, `ByteSwap.dfy` | integer tricks |
| `Adts.dfy` | ADTS header, its bit-field layout, and a parser |
| `MuxModel.dfy`, `MuxRegistry.dfy`, `MuxRuns.dfy`, `MuxConservation.dfy` | the muxer as a state machine, and theorems over runs |
| `MuxStream.dfy` | the muxer object |
| `DeferredModel.dfy`, `DeferredMux.dfy` | interleavings of the producer, the muxer thread and other callers; the queue object |
| `Preview.dfy` | preview positions and extraction loops |

Where the code and its documentation differ, the model follows the code. The comments say the UTF-8
reader may evaluate its byte expression seven times; it never does so more than six times
(`ReadsAtMostSix`). They say the writer may emit seven bytes; that length arises only from 2^31 on,
where the code shifts a 32-bit word by 36 (`WriterShiftDefined`). `RSHIFT` is not a rounded division
when a non-positive number is shifted by zero (`RShiftIsRoundedDiv`). `nbstreams` is not the number of
streams once a subtitle or unknown track has been asked for (`StreamCount`). Parameter sets are looked
up when a queued frame is written, not when it is queued, so a registration in between can change
what goes in front of a waiting key frame (`DisturbedExample`), even one that has left the queue and
is about to be written (`EmptyQueueExample`); `DeferredRefinesAtOnce` says exactly when nothing of
the kind happens. A queued sample is cut at `offset` but keeps its full size, so it can be written
only when `offset` is zero (`QueueData2Mux`).

Assumptions: one muxer thread; a push onto the queue, a pop from it, and each call on the muxer are
atomic steps (the source unlocks the mutex by hand and then lets the lock objects unlock it again;
what C++ makes of that is not part of this model); `av_log2` is the floor of the base-2 logarithm, and
0 at 0; `avformat_new_stream` appends a stream and succeeds; `av_interleaved_write_frame` takes the
packet as given. A caller of the muxer keeps to `Legal`: at most ten streams, known codec numbers, an
AAC frame only on a track added as audio, and a key frame of an H.264 or H.265 track only on a track
added as video and after its parameter sets are registered; a queued sample has to meet this by the
time it is written.

## Model

| member | source | states |
|---|---|---|
| Utf8Writer.PutUtf8 | ffmpeg/output/include/libavutil/common.h:438-456 | for every value below 2^31 the shift-and-mask loop emits the encoding of the RFC 2279 table: marker and leading bits, then six bits per continuation byte |
| Utf8Stream.EncodeBits | ffmpeg/output/include/libavutil/common.h:438-456 | the encoding bit by bit: as few bytes as hold the value, n ones and a zero at the top of the first, then the value's bits in order, six behind `10` in each later byte |
| Utf8Writer.WidthFormula | ffmpeg/output/include/libavutil/common.h:446 | the length formula on the logarithm equals the length table |
| Utf8Writer.WriterShiftDefined | ffmpeg/output/include/libavutil/common.h:446-448 | the first shift count stays below the word size if and only if the value is below 2^31 |
| Utf8Reader.LoopTest | ffmpeg/output/include/libavutil/common.h:388-396 | after j continuation bytes the sliding mask finds, in the wrapped word, the bit of the first byte that says whether another byte follows |
| Utf8Reader.FinalMask | ffmpeg/output/include/libavutil/common.h:387-397 | the closing mask keeps the low 7+5j bits of the unwrapped value, also when `top << 1` overflows to zero |
| Utf8Reader.GetUtf8 | ffmpeg/output/include/libavutil/common.h:385-399 | on every input the mask-driven loop returns what the table-driven decoder returns: the value and bytes used, the byte count at an error, or end of input; the next five rows say what that is on every input |
| Utf8Stream.LeadOnes | ffmpeg/output/include/libavutil/common.h:387-389 | a first byte announces n bytes by n ones and a zero at its top, one byte by a zero, and nothing if it is 80..BF, FE or FF |
| Utf8Stream.Accepts | ffmpeg/output/include/libavutil/common.h:388-396 | the reader accepts exactly an announcing first byte with as many bytes 80..BF after it as announced; over-long forms, surrogates and large values included |
| Utf8Stream.AcceptedBits | ffmpeg/output/include/libavutil/common.h:395-398 | the value of any accepted form has the bits of the first byte after the announcement, then six bits of each other byte |
| Utf8Stream.Rejects | ffmpeg/output/include/libavutil/common.h:388-394 | an error comes exactly at the first byte that cannot stand where it is, after reading up to it |
| Utf8Stream.RunsOut | ffmpeg/output/include/libavutil/common.h:390-396 | the reader runs out of input exactly on a proper beginning of an acceptable form |
| Utf8Stream.RoundTrip | ffmpeg/output/include/libavutil/common.h:385-399 | repeatedly reading the concatenated encodings of any code points below 2^31 gives exactly those code points and uses up every byte |
| Utf8Stream.ShortestForm | ffmpeg/output/include/libavutil/common.h:446-454 | any accepted form of v is at least as long as the writer's, and is the writer's if and only if it is that long |
| Utf8Stream.ShortestText | ffmpeg/output/include/libavutil/common.h:385-456 | of all byte streams the reader takes for one text the writer's is the shortest, and no other is as short |
| Utf8Stream.ReadsAtMostSix | ffmpeg/output/include/libavutil/common.h:390-396 | with six bytes at hand the reader finishes, and nothing later changes its answer |
| Utf8Stream.EncodeOrder | ffmpeg/output/include/libavutil/common.h:438-456 | of two code points the smaller has the smaller encoding, decided before either ends |
| Utf8Stream.OrderPreserved | ffmpeg/output/include/libavutil/common.h:438-456 | byte order of two encoded texts is the lexicographic order of their code points, both ways |
| Utf8Stream.SelfSynchronising | ffmpeg/output/include/libavutil/common.h:388-398 | in an encoded stream the reader started at byte i succeeds if and only if i is a character boundary, and then returns that character; elsewhere it fails at once |
| Utf16.PutUtf16 | ffmpeg/output/include/libavutil/common.h:472-484 | for every 32-bit value the units are those of RFC 2781; above 0x10FFFF the first unit keeps the low 11 bits and bit 13 of the part that no longer fits, and the other bits are lost |
| Utf16.Writes | ffmpeg/output/include/libavutil/common.h:472-484 | every value below 0x10000 is written as it is, a surrogate too; any other as two units, the second with its low ten bits, the first with bits 0..10 and 13 of the rest |
| Utf16.GetUtf16 | ffmpeg/output/include/libavutil/common.h:410-420 | the unsigned wrap-around tests decide surrogates as the RFC does, and the pair's value is right |
| Utf16.Reads | ffmpeg/output/include/libavutil/common.h:410-420 | on every input: a unit outside D800..DFFF is its own value; one inside needs a second unit, and is an error unless the two are a high and a low half, whose value is the pair's |
| Utf16Stream.RoundTrip | ffmpeg/output/include/libavutil/common.h:410-420 | decoding undoes encoding over a stream of 32-bit values if and only if all are scalar values |
| Utf16Stream.Reencode | ffmpeg/output/include/libavutil/common.h:472-484 | every accepted unit stream decodes to scalar values that encode to that same stream |
| Utf16Stream.UnitOrder | ffmpeg/output/include/libavutil/common.h:472-484 | the unit order of two texts is their code point order, except that it is the opposite one when the first differing pair is a code point of E000..FFFF against a supplementary one |
| Utf16Stream.TranscodeIdentity | ffmpeg/output/include/libavutil/common.h:385-484 | UTF-8 to UTF-16 and back gives the same bytes if and only if a scan finds every character in shortest form and a scalar value |
| Utf16Stream.ScalarTexts | ffmpeg/output/include/libavutil/common.h:438-456 | that scan accepts exactly the byte streams the writer makes of scalar values |
| Utf16Stream.TranscodeBack | ffmpeg/output/include/libavutil/common.h:385-484 | UTF-16 to UTF-8 and back is the identity on every accepted unit stream |
| Popcount.WordStages | ffmpeg/output/include/libavutil/common.h:344-346 | after each masked stage every 2-, 4- and 8-bit field holds the count of its ones, without overflow |
| Popcount.PopCount | ffmpeg/output/include/libavutil/common.h:342-349 | the result is the recursive count of set bits, for every 32-bit word |
| Popcount.PopCount64 | ffmpeg/output/include/libavutil/common.h:356-359 | the two halves' counts add up to the count of the 64-bit word |
| Popcount.WordParity | ffmpeg/output/include/libavutil/common.h:361-364 | the result is the number of set bits modulo 2 |
| Popcount.ParityBits | ffmpeg/output/include/libavutil/common.h:361-364 | zero is even, and each set bit turns the parity around |
| Popcount.ParityXor | ffmpeg/output/include/libavutil/common.h:361-364 | the parity of x ^ y is the exclusive or of the parities |
| Clip.ClipIntp2IsClamp | ffmpeg/output/include/libavutil/common.h:215-221 | for every 32-bit a and p up to 29 the result is the clamp to -2^p .. 2^p-1 |
| Clip.ClipUintp2IsClamp | ffmpeg/output/include/libavutil/common.h:229-233 | for every 32-bit a and p up to 30 the result is the clamp to 0 .. 2^p-1 |
| Clip.ClipUint8IsClamp | ffmpeg/output/include/libavutil/common.h:159-163 | the clamp to 0..255, and the p = 8 case of the general clip |
| Clip.ClipInt8IsClamp | ffmpeg/output/include/libavutil/common.h:170-174 | the clamp to -128..127, and the p = 7 case of the general clip |
| Clip.ClipUint16IsClamp | ffmpeg/output/include/libavutil/common.h:181-185 | the clamp to 0..65535, and the p = 16 case of the general clip |
| Clip.ClipInt16IsClamp | ffmpeg/output/include/libavutil/common.h:192-196 | the clamp to -32768..32767, and the p = 15 case of the general clip |
| Clip.ClipInt32IsClamp | ffmpeg/output/include/libavutil/common.h:203-207 | the clamp to 32 bits, wherever the 64-bit sum in the test does not overflow |
| Clip.ClampIsNearest | ffmpeg/output/include/libavutil/common.h:159-221 | the clamp the rows above speak of is the one number of the range nearest to the argument |
| Clip.SatRange | ffmpeg/output/include/libavutil/common.h:253-280 | the saturating add and subtract clamp the exact sum and difference to 32 bits |
| Clip.SatDaddIsNested | ffmpeg/output/include/libavutil/common.h:253-292 | the doubling forms saturate the doubled operand and then the sum or difference |
| Clip.SatDaddMonotone | ffmpeg/output/include/libavutil/common.h:265-268 | the doubling add is monotone in both operands |
| Clip.SatDaddOnce | ffmpeg/output/include/libavutil/common.h:265-268 | saturating twice equals saturating once if and only if doubling does not overflow or the operands do not have opposite signs |
| Clip.SatDsubOnce | ffmpeg/output/include/libavutil/common.h:289-292 | the same exact condition for the subtracting form |
| Rounding.RoundedDivIsNearest | ffmpeg/output/include/libavutil/common.h:56 | the nearest integer with ties away from zero, for every positive divisor |
| Rounding.RShiftIsNearest | ffmpeg/output/include/libavutil/common.h:54 | the nearest integer to a / 2^b with ties away from zero, for b of at least 1 |
| Rounding.RShiftIsRoundedDiv | ffmpeg/output/include/libavutil/common.h:54-56 | RSHIFT is ROUNDED_DIV by 2^b if and only if b is at least 1 or a is positive |
| Rounding.RShiftByZero | ffmpeg/output/include/libavutil/common.h:54 | shifting by zero keeps a positive number and takes one from any other |
| Rounding.CeilRShiftIsCeiling | ffmpeg/output/include/libavutil/common.h:58-59 | both arms agree and give the ceiling, for negative a too |
| Rounding.FfUdivIsFloor | ffmpeg/output/include/libavutil/common.h:63-64 | floor quotient and a remainder in 0..b-1, for every a |
| ByteSwap.Swap16Reverses | ffmpeg/output/include/libavutil/bswap.h:51-62 | the two bytes are reversed, and the macro form agrees |
| ByteSwap.Swap32Reverses | ffmpeg/output/include/libavutil/bswap.h:52-69 | the four bytes are reversed |
| ByteSwap.Swap64Reverses | ffmpeg/output/include/libavutil/bswap.h:53-76 | the eight bytes are reversed, and the nested macro agrees with the function |
| ByteSwap.Swap16Twice | ffmpeg/output/include/libavutil/bswap.h:58-62 | its own inverse |
| ByteSwap.Swap32Twice | ffmpeg/output/include/libavutil/bswap.h:66-69 | its own inverse |
| ByteSwap.Swap64Twice | ffmpeg/output/include/libavutil/bswap.h:73-76 | its own inverse |
| ByteSwap.MkTagBytes | ffmpeg/output/include/libavutil/common.h:366 | the tag's bytes, least significant first, are its four arguments |
| ByteSwap.MkBeTagSwaps | ffmpeg/output/include/libavutil/common.h:366-367 | the big-endian tag is the byte-swapped little-endian tag |
| Adts.FreqIndexInverts | app/src/main/cpp/mux_stream.cpp:178-210 | an index is returned for a rate if and only if the rate table holds that rate there; otherwise -1 |
| Adts.RateFamilies | app/src/main/cpp/mux_stream.cpp:180-206 | the table is decreasing, and made of three families halved down from 96000, 88200 and 64000, then 7350 |
| Adts.HeaderOfAny | app/src/main/cpp/mux_stream.cpp:221-230 | the seven bytes as arithmetic modulo 256, for every profile, rate, channel count and length, in range or not |
| Adts.HeaderIsLayout | app/src/main/cpp/mux_stream.cpp:221-230 | in range, the seven bytes are the bit fields of section 6.2 of ISO/IEC 13818-7, with the 13-bit length spread over three bytes |
| Adts.HeaderFields | app/src/main/cpp/mux_stream.cpp:221-230 | unpacking those bytes by the standard's field widths gives back every field |
| Adts.Deframe | app/src/main/cpp/mux_stream.cpp:178-235 | a parser that follows the frame lengths recovers exactly the frames and parameters from their concatenation if and only if every frame has profile 1..4, channels 0..7, a listed rate and at most 8191 bytes |
| MuxStream.OutputStream.RecordsPartitionStreams | app/src/main/cpp/mux_stream.cpp:353-416 | in every state the object can reach both record arrays are strictly increasing in stream index, and every stream has a record in exactly one of them |
| MuxStream.OutputStream.SearchHitsOneRecord | app/src/main/cpp/mux_stream.cpp:166-167 | searching the arrays for a stream's index hits exactly one record, in the array for the kind the stream was added with, and none in the other |
| MuxRegistry.StreamCount | app/src/main/cpp/mux_stream.cpp:272-296 | after any run `nbstreams` is video count plus audio count plus streamless calls; it is the number of streams if and only if there were none of the last |
| MuxModel.CodecNumbers | app/src/main/cpp/mux_stream.cpp:434-453 | the lookup finds each of the six codecs under its own number only, and nothing under any other |
| MuxModel.KeyFlagIsOdd | app/src/main/cpp/mux_stream.cpp:248 | the flag test, on the 32-bit word, is true exactly of odd flags |
| MuxRuns.AddLegality | app/src/main/cpp/mux_stream.cpp:272-296 | a call that makes a stream is in order exactly when its codec number is one of the six and there are fewer than ten streams |
| MuxRuns.TracksFromHistory | app/src/main/cpp/mux_stream.cpp:165-175 | after any run each track has the kind and codec number it was added with; a video track the parameter sets last registered for it, an AAC track its parameters, any other audio track -1 in each |
| MuxRuns.WriteLegality | app/src/main/cpp/mux_stream.cpp:237-268 | a frame may be written exactly when its track was added, as audio for codec 2, and with odd flags on a track of codec 0 or 1 as video with parameter sets registered since |
| MuxRuns.PacketsFromHistory | app/src/main/cpp/mux_stream.cpp:127-163 | one packet per write, in order, each its payload behind the header for codec 2, the last parameter sets of its own track at that time for odd flags on codec 0 or 1, or nothing |
| MuxConservation.Conservation | app/src/main/cpp/mux_stream.cpp:237-268 | cutting the added bytes from each packet of a track gives that track's input frames, in order |
| MuxConservation.ByteTotals | app/src/main/cpp/mux_stream.cpp:237-268 | output bytes are input bytes plus 7 per AAC frame plus the parameter-set size per H.264 or H.265 key frame |
| MuxConservation.AloneRun | app/src/main/cpp/mux_stream.cpp:237-268 | a track holds the state and puts out the packets it would in a muxer with no other track, added with its format and given its own parameter sets and frames |
| MuxConservation.Isolation | app/src/main/cpp/mux_stream.cpp:246-260 | tracks with the same format, parameter sets and frames get the same packets in any two runs, whatever other tracks there are, of any codec, and whichever index each has |
| MuxConservation.AacRecovery | app/src/main/cpp/mux_stream.cpp:212-243 | reading an AAC track's packets as one ADTS stream gives back its input frames and its parameters, whatever else the run did, if and only if they fit the header |
| MuxStream.OutputStream.constructor | app/src/main/cpp/mux_stream.cpp:46-55 | an empty registry of ten records of each kind |
| MuxStream.OutputStream.AddVideoStream | app/src/main/cpp/mux_stream.cpp:298-358 | the next video record gets the new stream's index and no parameter sets; the stream's codec is the one of the number asked for, and nothing else changes |
| MuxStream.OutputStream.AddAudioStream | app/src/main/cpp/mux_stream.cpp:360-417 | the next audio record gets the new stream's index and, for AAC, its parameters, otherwise -1; the stream's codec is the one of the number asked for |
| MuxStream.OutputStream.AddTrack | app/src/main/cpp/mux_stream.cpp:272-296 | one step of the state machine; the result is the new index, or -1 for a kind that makes no stream |
| MuxStream.OutputStream.AddPPSAndSPSBuffer | app/src/main/cpp/mux_stream.cpp:165-175 | the record found by the search gets a fresh copy of the bytes; no other track changes, and an index that is no video track changes nothing |
| MuxStream.OutputStream.AddAdtsPacket | app/src/main/cpp/mux_stream.cpp:212-235 | a fresh buffer holding the header of that track's parameters and then the payload |
| MuxStream.OutputStream.PrependParamSets | app/src/main/cpp/mux_stream.cpp:249-257 | a fresh buffer holding that track's parameter sets and then the payload |
| MuxStream.OutputStream.MaybeProcessPacket | app/src/main/cpp/mux_stream.cpp:237-268 | the packet is prefix and payload by codec and key flag; it has a buffer of its own, and the result says so, exactly for codec 2 and for odd flags on codec 0 or 1, and otherwise is the caller's |
| MuxStream.OutputStream.WriteFrame | app/src/main/cpp/mux_stream.cpp:127-163 | exactly one packet is appended, made from the first `size` bytes whatever `offset` is |
| DeferredModel.QueueStaysWritable | app/src/main/cpp/mux_stream.cpp:517-555 | in every interleaving, samples queued when they could be written can still be written when their turn comes, popped or not |
| DeferredModel.WrittenIsPrefix | app/src/main/cpp/mux_stream.cpp:517-555 | the samples written are a prefix of the samples queued; the rest is the one in flight, if any, and then the queue |
| DeferredModel.PacketsAreQueuedSamples | app/src/main/cpp/mux_stream.cpp:517-555 | the muxer thread's i-th packet carries the i-th queued sample's track, time and bytes, in that order, among the packets of frames written directly |
| DeferredModel.DeferredIsARun | app/src/main/cpp/mux_stream.cpp:517-536 | every interleaving of pushes, pops, writes and direct calls leaves the muxer as a run of direct calls does, so the run theorems hold of it |
| DeferredModel.DirectDrain | app/src/main/cpp/mux_stream.cpp:165-175 | a call from another thread commutes with writing out what waits if and only if it does not register different parameter sets for a track with a key frame queued or in flight, nor writes a frame past a waiting one (unless to the same packet) |
| DeferredModel.DeferredRefinesAtOnce | app/src/main/cpp/mux_stream.cpp:517-555 | at every point of an interleaving what waits is writable and writing it out gives the state of writing each sample when it was queued, if and only if every sample was writable when queued and no call disturbed what waits as above |
| DeferredModel.DeferredOutputIsPrefix | app/src/main/cpp/mux_stream.cpp:517-555 | under that condition the output so far is a prefix of the output of writing at once |
| DeferredModel.DisturbedExample | app/src/main/cpp/mux_stream.cpp:165-175 | a concrete interleaving where a queued key frame goes out behind the wrong parameter sets |
| DeferredModel.EmptyQueueExample | app/src/main/cpp/mux_stream.cpp:526-531 | the same with an empty queue, by a registration between the pop and the write |
| DeferredMux.DeferredMuxer.QueueData2Mux | app/src/main/cpp/mux_stream.cpp:538-555 | one enqueue step at any offset: a fresh sample with a fresh copy of the bytes from `offset` to `size` goes to the end of the queue; it holds as many bytes as its size says, and is what writing at once would take, if and only if the offset is zero |
| DeferredMux.DeferredMuxer.PopNext | app/src/main/cpp/mux_stream.cpp:522-528 | one pop step: the oldest sample leaves the queue and is in flight; the muxer is unchanged, and every sample pushed is freed, in flight or queued, once |
| DeferredMux.DeferredMuxer.WriteOutNext | app/src/main/cpp/mux_stream.cpp:530-533 | one write step: the sample in flight is written and freed, whatever happened since the pop; the queue is unchanged |
| DeferredMux.DeferredMuxer.MuxAll | app/src/main/cpp/mux_stream.cpp:520-534 | left to itself the muxer thread writes and frees everything that waits, in order |
| DeferredMux.DeferredMuxer.AddTrack | app/src/main/cpp/mux_stream.cpp:272-296 | adding a track while frames wait is one direct step and keeps the queue |
| DeferredMux.DeferredMuxer.AddPPSAndSPSBuffer | app/src/main/cpp/mux_stream.cpp:165-175 | registering parameter sets while frames wait is one direct step and keeps the queue |
| DeferredMux.DeferredMuxer.WriteFrame | app/src/main/cpp/mux_stream.cpp:127-163 | a frame written directly while samples wait is one direct step and keeps the queue |
| Preview.CDivTruncates | app/src/main/cpp/frame_extractor.cpp:54-70 | the division all positions are made of rounds toward zero, for every sign |
| Preview.PositionIsMiddle | app/src/main/cpp/frame_extractor.cpp:62-70 | each position is the middle of its region, never late, early by less than k + 1 units, and within the video |
| Preview.PositionsMirrored | app/src/main/cpp/frame_extractor.cpp:62-70 | a negative duration is sought at the mirror images |
| Preview.PositionsEquidistant | app/src/main/cpp/frame_extractor.cpp:70 | neighbouring positions are one region apart |
| Preview.PositionInRegion | app/src/main/cpp/frame_extractor.cpp:62-70 | a position lies in its own region if and only if the video has at least one unit per preview |
| Preview.FirstFrameIs | app/src/main/cpp/frame_extractor.cpp:80-127 | the frame taken is the first of the wanted stream that decodes, past packets of other streams, incomplete frames and decoding errors; there is none if and only if no packet yields one |
| Preview.ExtractFrame | app/src/main/cpp/frame_extractor.cpp:80-127 | the reading loop finds that frame, or none when reading fails first |
| Preview.FillWithPreview | app/src/main/cpp/frame_extractor.cpp:54-136 | each bitmap gets the frame found from its position or is left alone, and the result is true if and only if all were filled; the positions are the middles of the stream's own duration, or only if it has none and the denominator is not zero, of the container's over the denominator |

## Left out

- MuxStream.OutputStream.AddAdtsPacket: the copy at line 232 runs seven bytes past the payload on both sides, because the length was already increased; the packet of `size + 7` bytes does not contain them, so the model copies the payload only.
- MuxStream.OutputStream.WriteFrame: the rescaling of the time stamp, the packet's other fields, the container's error result and the freeing of the packet buffer are not modelled.
- MuxStream.OutputStream.AddTrack: the format map is taken as parsed; codec parameters that never reach a packet (size, frame rate, bit rate, time base) are left out, and so is a failing allocation.
- MuxStream.VideoStreamInfo and AudioStreamInfo are values stored in the arrays, not separately allocated structs; the parameter-set buffers they point to are real arrays.
- DeferredMux.DeferredMuxer: one output stream per queue; the lock calls, the condition variable, the `canceled` flag and thread exit are replaced by atomic steps.
- Utf8Writer.PutUtf8: values from 2^31 on, for which C does not define the shift.
- Clip.ClipIntp2IsClamp: p = 30 and above, for which C does not define `2 << p`.
- Rounding: ideal integers only; overflow of the macros' sums in a given C type is not modelled.
- Preview.FillWithPreview: seeking, reading and decoding are a parameter (the packets readable from a position, and what the decoder answers to each); scaling, drawing and the early return for an unknown pixel format are left out.
- The remaining macros of `common.h` (minimum, maximum, absolute value, sign, plain clips, `av_mod_uintp2_c`, `av_ceil_log2_c`, the float clips) and the native-endian aliases of `bswap.h`: single expressions that would only add easy members.
- The JNI glue, string conversion, file configuration builder, logging thread and everything behind FFmpeg's own library calls.
