# The codec's shared pieces, verified

`shared/OpenglCodecCommon` holds the parts of the GL pipe that guest and host share. This project models three of
them in Dafny and proves what they are for.

**The checksum protocol.** Each end of a pipe has one calculator for both directions. It keeps a version, a 32-bit
send counter, a 32-bit receive counter, the length added up so far and a flag that says an encoding is in progress.
In version 1 a checksum is eight bytes: the total length with its bits reversed, then the counter.

- `Words.dfy`, `BitReversal.dfy`: 32-bit values and their bytes, and the five-stage reversal.
- `Checksum.dfy`: the state, and what each call does to it (`Next`) and answers (`Answer`).
- `Calculator.dfy`: the class, its stream and the two wrappers, each method proved against `Next` and `Answer`.
- `HeaderExamples.dfy`: the two usage examples of the header comment, and a pair of ends that never select a version,
  written with the class.
- `History.dfy`: whole call histories of one calculator.
- `Pipe.dfy`: two calculators and two channels that may lose, repeat and reorder; `Loss.dfy`: channels that keep the
  order but may lose and repeat; `Exchange.dfy`: ends that use only the wrappers; `ShortPosts.dfy`: wrapper calls without
  room; `VersionedStream.dfy`: ends that change version in step.

**Vertex packing.** `LoopCounter.dfy` says when the packing loop's 32-bit counter stops it, `Packing.dfy` what it
writes, `VertexFetch.dfy` that it preserves vertex array addressing, and `ContextData.dfy` that it still does once the
packed bytes have been stored in the decoder's attribute table. `Memory.dfy` has the copying they share.

**Aligned buffers.** `Alignment.dfy` and `Buffers.dfy` specify the alignment test and one buffer over a byte-addressed
memory, `AlignedBuffers.dfy` holds the classes, and `BufferPool.dfy` follows any number of buffers at once.

Integers are mathematical and wrap explicitly where the program's do. Memory copies of a word are little-endian, the
stream is big-endian.

## What the proofs found

- The wrapper that adds a message and then writes its checksum is atomic only if there is room for the checksum. After
  a failed write the length stays added, so the end is not idle, cannot change version, and, unless the length is a
  multiple of 2^32, spoils exactly one message: the next one that end fetches or posts (`History.WrapperNeedsRoom`,
  `ShortPosts.OneShortPostSpoilsOne`). The exact verdicts of runs with such posts are `ShortPosts.LeftoversDecide`. The
  calculator's own writeChecksum can be retried safely (`History.ShortWritesChangeNothing`).
- The header says that in version 0 validate always returns true and the other calls do nothing. The code rejects a
  checksum that is not empty, and still moves the counters and the flag (`History.VersionZeroIsNotInert`).
- The header says that a validator that does not check all checksums in order returns false. In version 1 that holds
  for a net loss: validating a packet again makes up for a lost one, and a net loss of a multiple of 2^32 goes
  unnoticed (`Loss.NetLossIsPermanent`, `Loss.LossesAndRepeats`).
- The packing loop halts exactly when `datalen` is at most 2^32 less the lowest set bit of the element size
  (`LoopCounter.HaltsExactly`). For some element sizes, 24 bytes for one but not 4 or 12, a `datalen` near that bound
  makes the counter wrap first, and the loop writes at least a whole element more than asked
  (`LoopCounter.OvershootSizes`, `LoopCounter.OvershootExamples`, `VertexFetch.LoopFootprint`). With attributes of one
  to four components and `datalen` up to 2^32 - 256 it halts without wrapping (`VertexFetch.AttributesNeverWrap`).
- An output buffer is not transparent to a client that leaves bytes of a misaligned destination unwritten: the flush
  delivers what the stand-in showed there, zero for a heap block and leftover bytes for the inner array
  (`Buffers.OutputTransparency`, `Buffers.LeftoverByteDelivered`).

## Model

| member | source | states |
|---|---|---|
| Words.WordLayout | shared/OpenglCodecCommon/ChecksumCalculator.cpp:85-87 | the word copied into a checksum is laid out as the base-256 digits of the number it holds, least significant first |
| BitReversal.ReversedBit | shared/OpenglCodecCommon/ChecksumCalculator.cpp:134-142 | shifting 32 bits one by one across into another word puts input bit 31 - i at output bit i |
| BitReversal.StagesReverse | shared/OpenglCodecCommon/ChecksumCalculator.cpp:134-142 | the five stages compute the bit-by-bit reversal of every 32-bit word |
| BitReversal.ReversedInvolution | shared/OpenglCodecCommon/ChecksumCalculator.cpp:134-142 | reversing twice gives the word back |
| BitReversal.ReversedInjective | shared/OpenglCodecCommon/ChecksumCalculator.cpp:134-142 | different words have different reversals |
| Checksum.EncodeInjective | shared/OpenglCodecCommon/ChecksumCalculator.cpp:84-88 | two version 1 checksums are the same bytes exactly when their totals and their counters agree |
| Checksum.EncodeLayout | shared/OpenglCodecCommon/ChecksumCalculator.cpp:84-88 | read back, a checksum's first word is the total bit for bit in the opposite order and its second is the counter |
| Checksum.UniqueAcceptance | shared/OpenglCodecCommon/ChecksumCalculator.cpp:80-132 | in any state exactly one byte string validates: the one a calculator of the same version, total and message number writes; another calculator's checksum validates iff those agree |
| Checksum.AddsAccumulate | shared/OpenglCodecCommon/ChecksumCalculator.cpp:71-78 | adding a message in any pieces leaves its whole length mod 2^32 in a version 1 accumulator and nothing in a version 0 one |
| Checksum.FragmentationIndependence | shared/OpenglCodecCommon/ChecksumCalculator.cpp:71-94 | how a message is cut into buffers affects neither the checksum written, nor any verdict, nor the state left, only its total mod 2^32 does; and different totals give different checksums |
| Checksum.SnapshotLayout | shared/OpenglCodecCommon/ChecksumCalculator.cpp:154-157 | a snapshot is a byte of checksum size, then version, read counter and write counter, each most significant byte first |
| Checksum.SnapshotRoundTrip | shared/OpenglCodecCommon/ChecksumCalculator.cpp:144-172 | loading an idle calculator's snapshot turns any idle calculator into it and consumes exactly the snapshot |
| Checksum.SnapshotsInOrder | shared/OpenglCodecCommon/ChecksumCalculator.cpp:144-172 | any number of snapshots written back to back load back in order |
| Calculator.ChecksumCalculator.constructor | shared/OpenglCodecCommon/ChecksumCalculator.h:186-199 | a new calculator is in version 0, with checksum size 0, both counters 0, no length and no encoding in progress |
| Calculator.ChecksumCalculator.SetVersion | shared/OpenglCodecCommon/ChecksumCalculator.cpp:53-69 | outside an encoding selects version 0 or 1 and the checksum size that goes with it; refuses every other version, and inside an encoding every version, and then changes nothing; never touches the counters, the flag or the length |
| Calculator.ChecksumCalculator.AddBuffer | shared/OpenglCodecCommon/ChecksumCalculator.cpp:71-78 | starts an encoding and, in version 1, adds the length mod 2^32; keeps the invariant |
| Calculator.ChecksumCalculator.WriteChecksum | shared/OpenglCodecCommon/ChecksumCalculator.cpp:80-94 | with too little room changes nothing at all; else overwrites exactly the checksum's bytes of the output, ends the encoding and counts the write |
| Calculator.ChecksumCalculator.ResetChecksum | shared/OpenglCodecCommon/ChecksumCalculator.cpp:96-103 | in both versions ends the encoding and drops its length, and leaves version, size and counters |
| Calculator.ChecksumCalculator.Validate | shared/OpenglCodecCommon/ChecksumCalculator.cpp:105-132 | comparing length and both words decides whether the checksum is the expected one; whatever the verdict the encoding ends and the validation is counted; the size assertion holds |
| Calculator.ChecksumCalculator.ComputeV1Checksum | shared/OpenglCodecCommon/ChecksumCalculator.cpp:134-142 | the five in-place steps leave the bit-by-bit reversal of the total length |
| Calculator.ChecksumCalculator.Save | shared/OpenglCodecCommon/ChecksumCalculator.cpp:144-158 | appends the snapshot, whose layout is Checksum.SnapshotLayout; given an idle calculator, the other two assertions hold |
| Calculator.ChecksumCalculator.Load | shared/OpenglCodecCommon/ChecksumCalculator.cpp:160-172 | takes size, version, read counter and write counter, in that order, from the front of the stream, leaves the rest of the stream, and keeps flag and length |
| Calculator.ChecksumCalculatorThreadInfo.WriteChecksum | shared/OpenglCodecCommon/ChecksumCalculatorThreadInfo.cpp:68-75 | adds the message, then writes; after a failure the message is still added |
| Calculator.ChecksumCalculatorThreadInfo.Validate | shared/OpenglCodecCommon/ChecksumCalculatorThreadInfo.cpp:77-84 | adds the message, then validates |
| HeaderExamples.TestChecksum | shared/OpenglCodecCommon/ChecksumCalculator.h:68-85 | the first usage example returns true for every buffer |
| HeaderExamples.TestChecksumOrder | shared/OpenglCodecCommon/ChecksumCalculator.h:87-124 | a decoder that takes two messages in the wrong order rejects both, whatever their contents |
| HeaderExamples.TestWithoutVersion | shared/OpenglCodecCommon/ChecksumCalculator.h:131-135 | two ends on which setVersion is never called exchange any message with no room and no byte, and it is accepted |
| History.ReachableIffValid | shared/OpenglCodecCommon/ChecksumCalculator.cpp:53-132 | the class invariant is exact: a state is reached from a new calculator by some call history if and only if it satisfies it |
| History.ReachableBounds | shared/OpenglCodecCommon/ChecksumCalculator.h:128-184 | in every reachable state the checksum size is that of the version, 0 or 8, within the maximum and within one byte, and an idle calculator holds no length |
| History.NewCalculatorHasNoChecksum | shared/OpenglCodecCommon/ChecksumCalculator.h:131-135 | a new calculator writes the empty checksum into any room and validates the empty checksum alone |
| History.AbandoningUndoesAdding | shared/OpenglCodecCommon/ChecksumCalculator.cpp:96-103 | in both versions resetting after any list of added buffers gives back the idle calculator there was before |
| History.NoVersionChangeWhileEncoding | shared/OpenglCodecCommon/ChecksumCalculator.cpp:59-63 | after any buffers were added every setVersion answers false and changes nothing, also for the version in force |
| History.VersionChangeWhenIdle | shared/OpenglCodecCommon/ChecksumCalculator.cpp:53-69 | an idle calculator takes versions 0 and 1 and no others, and keeps its counters |
| History.CountersConserved | shared/OpenglCodecCommon/ChecksumCalculator.cpp:80-132 | over any history the counters are the successful writes and the validations made, mod 2^32 |
| History.SnapshotOfHistory | shared/OpenglCodecCommon/ChecksumCalculator.cpp:154-157 | the snapshot after a history holds the checksum size, the version, the number of validations and the number of successful writes mod 2^32, at their offsets, in that order |
| History.ShortWritesChangeNothing | shared/OpenglCodecCommon/ChecksumCalculator.cpp:80-94 | any number of writes without room leave the state as it was, and the write that follows emits the same bytes |
| History.WrapperNeedsRoom | shared/OpenglCodecCommon/ChecksumCalculatorThreadInfo.cpp:68-75 | the write wrapper leaves an idle calculator idle iff there is room; repeating it after a failure emits the right checksum iff the length is a multiple of 2^32 |
| History.VersionZeroIsNotInert | shared/OpenglCodecCommon/ChecksumCalculator.h:45-47 | in version 0 only the empty checksum validates, an added buffer blocks setVersion, and some call history notices every write, every validation and the first added buffer |
| History.ProbeDistinguishes | shared/OpenglCodecCommon/ChecksumCalculator.cpp:53-132 | any two different valid states are told apart by the answers to at most three calls |
| History.SnapshotIsFullyAbstract | shared/OpenglCodecCommon/ChecksumCalculator.cpp:144-172 | a restored calculator answers every call history as the saved one does, and two idle calculators save the same bytes iff no history tells them apart |
| Pipe.StepKeepsCoherent | shared/OpenglCodecCommon/ChecksumCalculator.cpp:53-172 | every step of a pipe keeps the counters of both directions in line with what was sent and checked, and every packet as it was written |
| Pipe.ExactAcceptance | shared/OpenglCodecCommon/ChecksumCalculator.cpp:80-132 | on every run over channels that lose, repeat and reorder, a packet sent as number i and checked as number j is accepted iff the versions agree and, in version 1, i = j mod 2^32 and the two totals agree |
| Pipe.MigrateChangesNothing | shared/OpenglCodecCommon/ChecksumCalculator.cpp:144-172 | saving an idle end and resuming on another calculator leaves the pipe as it was |
| Loss.CountersBalance | shared/OpenglCodecCommon/ChecksumCalculator.h:49-51 | after any in-order run from a pipe in step, the sender's write counter is the receiver's read counter plus what is in flight plus losses less repeated validations, mod 2^32 |
| Loss.InOrderAcceptance | shared/OpenglCodecCommon/ChecksumCalculator.h:61-63 | while losses and repeated validations each stay below 2^32 an in-order run accepts exactly the packets of the receiver's version that, in version 1, meet as many losses as repeats before them and carry the total the receiver added up |
| Loss.NetLossIsPermanent | shared/OpenglCodecCommon/ChecksumCalculator.cpp:105-131 | packets that are at least d ahead of the validations they will meet are rejected in version 1 for the rest of an in-order run, as long as fewer than d validations are repeated and the net loss stays below 2^32 |
| Loss.LaterPacketsRejected | shared/OpenglCodecCommon/ChecksumCalculator.h:61-63 | after an in-order run with a net loss of d, every version 1 packet written later is rejected until d validations are repeated, up to 2^32 |
| Loss.LossIsPermanent | shared/OpenglCodecCommon/ChecksumCalculator.h:61-63 | once a packet is lost, every version 1 packet behind it is rejected for the rest of an in-order run, unless validations are repeated more often than those packets were ahead, or the net loss reaches 2^32 |
| Loss.LossesAndRepeats | shared/OpenglCodecCommon/ChecksumCalculator.cpp:105-132 | a concrete run from an opened pipe: after m repeated validations and n losses the next packet is accepted iff m = n mod 2^32, for all m and n |
| Loss.FullCycleResynchronises | shared/OpenglCodecCommon/ChecksumCalculator.cpp:105-132 | so a run that loses 2^32 packets in a row ends with an accepted packet |
| Exchange.OpenedIsSettled | shared/OpenglCodecCommon/ChecksumCalculator.h:186-199 | two idle ends of one version whose counters match form a pipe to which the run theorems apply |
| Exchange.NewEndsAreSettled | shared/OpenglCodecCommon/ChecksumCalculator.h:186-199 | two newly constructed ends form such a pipe at version 0 |
| Exchange.InFlightChecksums | shared/OpenglCodecCommon/ChecksumCalculatorThreadInfo.cpp:68-84 | the k-th message in flight carries its length's checksum with counter receiver.numRead + k, wrapping at 2^32 |
| Exchange.EveryMessageIsAccepted | shared/OpenglCodecCommon/ChecksumCalculatorThreadInfo.cpp:68-84 | two idle ends of one version that use only the wrappers, with room, over in-order lossless channels accept every message on every interleaved run, also across snapshots |
| Exchange.VersionsDecide | shared/OpenglCodecCommon/ChecksumCalculator.h:65-66 | in full-duplex traffic whose ends select versions independently at any time, exactly the messages written in the version their receiver is in are accepted |
| Exchange.VersionChange | shared/OpenglCodecCommon/ChecksumCalculator.h:65-66 | when both ends of a settled pipe change version, the pipe is settled at the new one iff nothing of the old one is in flight in either direction |
| ShortPosts.LeftoversDecide | shared/OpenglCodecCommon/ChecksumCalculatorThreadInfo.cpp:68-84 | on every version 1 run in which posts may find too little room, a message is accepted iff the lengths left over at its sender when posted and at its receiver when fetched agree mod 2^32 |
| ShortPosts.RejectionsNeedShortPosts | shared/OpenglCodecCommon/ChecksumCalculatorThreadInfo.cpp:68-84 | no such run rejects more messages than it has posts without room |
| ShortPosts.OneShortPostSpoilsOne | shared/OpenglCodecCommon/ChecksumCalculatorThreadInfo.cpp:68-84 | a single post without room, its length no multiple of 2^32, spoils exactly one message: one rejection, or the length still left over at one place |
| ShortPosts.ShortPostSpoilsNextFetch | shared/OpenglCodecCommon/ChecksumCalculatorThreadInfo.cpp:77-84 | if that end fetches next, it is the message it fetches |
| ShortPosts.ShortPostSpoilsNextPost | shared/OpenglCodecCommon/ChecksumCalculatorThreadInfo.cpp:68-75 | if it posts next, it is the message it posts, whatever is in flight before it, all of which is accepted |
| VersionedStream.StreamVerdicts | shared/OpenglCodecCommon/ChecksumCalculator.h:65-66 | when both ends change version at the same message boundaries, every change succeeds or fails at both alike, and each message is judged by the version in force and the two ends' totals alone, however each end cuts it |
| VersionedStream.HonestStreamAccepted | shared/OpenglCodecCommon/ChecksumCalculator.h:65-66 | such a stream has every message accepted and every supported change succeed |
| LoopCounter.HaltsExactly | shared/OpenglCodecCommon/glUtils.cpp:391-395 | the strided loop halts iff datalen is at most 2^32 less the lowest set bit of the element size, or nothing is to be copied when that size is 0 |
| LoopCounter.RoundsAreCeiling | shared/OpenglCodecCommon/glUtils.cpp:391-395 | it makes at least datalen / vsize rounds, rounded up, and exactly that many iff its counter does not wrap |
| LoopCounter.OvershootSizes | shared/OpenglCodecCommon/glUtils.cpp:391-395 | some datalen makes the loop halt only after wrapping iff the largest multiple of vsize below 2^32 is less than 2^32 less vsize's lowest set bit |
| LoopCounter.OvershootExamples | shared/OpenglCodecCommon/glUtils.cpp:391-395 | 24-byte elements with datalen 0xFFFFFFF8 do, 4-byte and 12-byte elements never do |
| Packing.GatheredElement | shared/OpenglCodecCommon/glUtils.cpp:391-395 | element k of the gathered bytes is the source's element k at its stride |
| Packing.PackPointerData | shared/OpenglCodecCommon/glUtils.cpp:381-397 | terminates; with stride 0 or the element size itself the first datalen bytes are copied as they are, with any other stride every element that starts within datalen arrives whole, element k from k strides into the source; overwrites exactly the packed bytes and leaves every other byte |
| Packing.PackedReads | shared/OpenglCodecCommon/glUtils.cpp:388-395 | the packed bytes depend on every byte of the block or of the elements taken and on no other: two sources pack alike iff they agree there |
| VertexFetch.PackingPreservesFetch | shared/OpenglCodecCommon/glUtils.cpp:381-397 | reading any whole element of the packed bytes at stride 0 gives the source's element at its own stride, the raw stride wherever that is not 0, for strides below, at and above the element size |
| VertexFetch.LoopFootprint | shared/OpenglCodecCommon/glUtils.cpp:391-395 | the loop writes at least datalen bytes, less than one element more iff the counter does not wrap, and exactly datalen iff besides that datalen is whole elements |
| VertexFetch.AttributesNeverWrap | shared/OpenglCodecCommon/glUtils.cpp:385-395 | with one to four components and datalen up to 2^32 - 256 the loop halts without wrapping, after datalen / vsize rounds rounded up |
| VertexFetch.LoopAgreesWithBlock | shared/OpenglCodecCommon/glUtils.cpp:388-395 | for contiguous elements the element loop gives what the single block copy gives |
| VertexFetch.RepackingIsIdentity | shared/OpenglCodecCommon/glUtils.cpp:386-395 | packing packed data again at stride 0 gives it back, by block copy and by loop |
| ContextData.GLDecoderContextData.StorePointerData | shared/OpenglCodecCommon/GLDecoderContextData.h:48-56 | replaces one location's bytes by the given ones and leaves every other location; out of range changes nothing |
| ContextData.GLDecoderContextData.PointerData | shared/OpenglCodecCommon/GLDecoderContextData.h:59-66 | the bytes held for a location, or none out of range |
| ContextData.LocationsHeld | shared/OpenglCodecCommon/GLDecoderContextData.h:28-69 | locations 0 to 63 hold what is stored, the named ones, up to 14, among them; 64 and above hold nothing |
| ContextData.HoldsLatest | shared/OpenglCodecCommon/GLDecoderContextData.h:48-71 | after any history of stores each location holds exactly the bytes of its latest store |
| ContextData.OutOfRangeIgnored | shared/OpenglCodecCommon/GLDecoderContextData.h:53-55 | a history with its out-of-range stores left out gives the same table |
| ContextData.AttributeSurvives | host/libs/GLESv2_dec/GLESv2Decoder.cpp:278-295 | packed, cut to datalen, stored, and whatever else is stored, an attribute's element k read at stride 0 is the client's element k |
| Alignment.MaskIsDivisibility | shared/OpenglCodecCommon/ProtocolUtils.h:94-100 | for each allowed alignment, the mask test holds iff the address lies on a boundary, that is, is a multiple of it |
| Buffers.Placement | shared/OpenglCodecCommon/ProtocolUtils.h:99-161 | get() is aligned on all three storage choices and is the client's address iff that is aligned; the destructor's two comparisons hold iff the constructor allocated |
| Buffers.StorageChosen | shared/OpenglCodecCommon/ProtocolUtils.h:99-147 | an aligned buffer changes nothing; a misaligned one that fits its inner array works there without the heap; a larger one takes a block of its size; an input buffer shows the source's bytes, an output buffer the old inner array or zeros |
| Buffers.SmallBufferUsesInnerArray | shared/OpenglCodecCommon/ProtocolUtils.h:99-161 | a buffer no larger than its inner array leaves the heap alone from construction to destruction, and works at that array iff the client's bytes are misaligned |
| Buffers.FlushedBytes | shared/OpenglCodecCommon/ProtocolUtils.h:136-161 | after a flush each destination byte is the client's if it wrote one, else what the buffer showed at first; bytes outside destination and own storage are unchanged |
| Buffers.TransparentByBytes | shared/OpenglCodecCommon/ProtocolUtils.h:136-161 | in a given memory the flushed destination equals direct writes iff every byte left unwritten already showed the destination's value |
| Buffers.OutputTransparency | shared/OpenglCodecCommon/ProtocolUtils.h:136-161 | in every memory the flushed destination equals direct writes iff the destination is aligned or the client writes every byte |
| Buffers.UnwrittenByteDiffers | shared/OpenglCodecCommon/ProtocolUtils.h:136-161 | at any misaligned site with an unwritten byte there is a memory where the flush delivers 0 over a 1 |
| Buffers.LeftoverByteDelivered | shared/OpenglCodecCommon/ProtocolUtils.h:136-161 | one such memory, for a single misaligned byte |
| Buffers.FullWriteTransparent | shared/OpenglCodecCommon/ProtocolUtils.h:136-161 | a client that writes every byte leaves exactly its bytes on all three storage choices |
| AlignedBuffers.GenericInputBuffer.constructor | shared/OpenglCodecCommon/ProtocolUtils.h:99-110 | aliases an aligned source, else copies it into the inner array or a new block, as specified |
| AlignedBuffers.GenericInputBuffer.Destroy | shared/OpenglCodecCommon/ProtocolUtils.h:112-116 | frees the storage iff it is neither the source nor the inner array |
| AlignedBuffers.GenericOutputBuffer.constructor | shared/OpenglCodecCommon/ProtocolUtils.h:136-147 | aliases an aligned destination, else takes the inner array as it is or a cleared block |
| AlignedBuffers.GenericOutputBuffer.Flush | shared/OpenglCodecCommon/ProtocolUtils.h:157-161 | copies the stand-in's bytes to the destination iff there is a stand-in |
| AlignedBuffers.GenericOutputBuffer.Destroy | shared/OpenglCodecCommon/ProtocolUtils.h:149-153 | frees the storage iff it is neither the destination nor the inner array |
| AlignedBuffers.FillReply | host/tools/emugen/tests/t.001/expected/decoder/foo_dec.cpp:134-142 | build, fill, flush, destroy: the reply holds exactly the data, nothing else outside the buffer's storage changes, and the heap is as before |
| BufferPool.Ownership | shared/OpenglCodecCommon/ProtocolUtils.h:99-153 | over any run of any number of buffers, every free releases a live block that its own buffer allocated, the heap is always the initial one plus one block per owning live buffer, and is the initial one when none is left |
| BufferPool.NeedsNoBlockExactly | shared/OpenglCodecCommon/ProtocolUtils.h:99-153 | construction leaves the heap alone, and destruction frees nothing, iff the buffer fits its inner array or its client's bytes are aligned |
| BufferPool.SmallBuffersNeverAllocate | shared/OpenglCodecCommon/ProtocolUtils.h:99-153 | a run of only such buffers, of any number, never changes the heap |
| BufferPool.InputViews | shared/OpenglCodecCommon/ProtocolUtils.h:99-118 | for its whole life an input buffer that copied shows the bytes it was built from, whatever happens to the client's memory, the heap and other buffers |
| BufferPool.UnmodifiedSourceViews | shared/OpenglCodecCommon/ProtocolUtils.h:99-118 | while neither the client nor a flush writes to its source, every input buffer shows the original bytes, also one that works on the source in place, however many buffers are built beside it |
| BufferPool.LivesUntilDestroyed | shared/OpenglCodecCommon/ProtocolUtils.h:99-118 | a buffer keeps its address and its record of the original bytes until it is destroyed |

## Left out

- Detection of payload corruption: a version 1 checksum depends on length and message number only, so none is claimed.
- The buffer pointer of addBuffer: the code never reads it, so only the length is a parameter.
- The thread-local store, the static setVersion on it, validOrDie's crash report and the logging macros.
- getMaxVersionStr and the negotiation text around it: constants.
- android::base::Stream is not part of this model beyond putting and getting bytes and big-endian words in order.
- Calculator.ChecksumCalculator.Load: says what is loaded, not that it is valid, because the code accepts any bytes; for bytes that save produced Checksum.SnapshotRoundTrip says so.
- Null checksum pointers of length 0: a byte sequence of length 0 stands for them.
- The rows of glSizeof: packing takes any of the sizes the function can return in place of the type.
- glUtilsParamSize and glUtilsPixelBitSize: lookup tables.
- Packing.PackPointerData: requires that its loop halts and that source and destination have room, as the code needs for defined behaviour, and that they do not overlap; LoopCounter.HaltsExactly says which inputs halt.
- ContextData.GLDecoderContextData.PointerData: returns the bytes instead of a pointer to them, so that a later store invalidates an earlier pointer is not modelled.
- UnpackerT and Unpack: conversions of a single value.
- The allocator: which block it returns is a parameter, constrained to be aligned, free and apart; it never fails. The client's own allocations while buffers are alive are not modelled.
- Copying a buffer object, which the code neither forbids nor uses.
- A client that writes through get() of an input buffer, which is a constant pointer.
