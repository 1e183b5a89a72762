# A verified model of the Haier serial protocol stack

The model covers the receive and transmit stack of HaierProtocol, layer by layer:

- **Ring buffer** (`CircularBuffer.dfy`): head, tail and empty flag over an array. Every operation is tied to the
  plain sequence of contents.
- **Frame codec** (`Stuffing.dfy`, `Crc16.dfy`, `Format.dfy`, `FrameCodec.dfy`, `CodecLaws.dfy`, `HaierFrame.dfy`): byte
  stuffing, the stuffing-aware checksum, the table-driven CRC-16/ARC, the frame object with its builder, printer (8-bit
  write index included) and two-stage parser. `FrameCodec` says what is on the wire and what the parser makes of it.
  `Format` says what an image is without any of that, with its numbers written out. `CodecLaws` proves that the sender
  makes these images, that the parser accepts exactly the genuine frames, why it rejects the others, and which
  corruptions it must reject.
- **Scanner** (`Transport.dfy`, `ScannerSteps.dfy`): the loop of `process_data` with its cursors, over the ring buffer,
  with `read_data`, `send_data` and `reset_protocol`. It is proved to compute the **reference receiver** of
  `StreamParser.dfy`, which has no cursors: it looks at the buffer as a whole and makes one move at a time.
  `StreamRules.dfy` gives each of its moves in terms of the format, and shows that there are no others. What the stack
  is for is then proved of the reference receiver: independence of chunking (`StreamLaws.dfy`), round trip of whole
  streams (`RoundTrip.dfy`), resynchronisation behind any noise (`Resync.dfy`), loss of exactly the frame with a changed
  byte (`Corruption.dfy`), conservation and soundness (`Ledger.dfy`), and all of this over a ring of limited size, with
  overflows (`Overflow.dfy`, `Reception.dfy`, `RingLedger.dfy`).
- **Request/answer protocol** (`Protocol.dfy`, `ProtocolHandler.dfy`): one step per call of `loop`, with arbitrary
  arriving frames, arbitrary clock readings and handlers that may enqueue, answer, decline to answer or change the
  intervals. `Accounting.dfy`, `ProtocolLaws.dfy`, `Outcomes.dfy`, `Endings.dfy`, `Timing.dfy`, `Draining.dfy` and
  `Provenance.dfy` prove what holds over all runs. `Conduct.dfy` says what the protocol does by rules that read only the
  log, with no timers, flags, counters or queues, and `Conformance.dfy` proves that every run whose clock never goes back
  follows them to the letter; `Handling.dfy` and `Promptness.dfy` draw from that what becomes of each frame and each
  thing asked for, and that nothing is held back. `Wire.dfy` ties the log to the bytes written.
- **Both together** (`ProtocolHandler.dfy`): the class runs the state machine over the transport. Its `Valid` ties an
  object to its whole past: the state is that of the state machine after the steps made, the buffer that of the receiver
  after the chunks read, the frames arrived are those the receiver delivered, and the bytes written are those of the
  log. So every theorem about runs speaks of every handler, and `EndToEnd` of any two of them on one line.

Bytes are a newtype, sizes are unbounded integers, and every place where eight bits matter is written out: the
checksum, the count of post bytes, the size byte, the write index of `fill_buffer`, and the result of `send_data`. The
CRC register is a 16-bit vector. `ProtocolHandler` numbers its messages, keeps a ghost log of what it does and a ghost
record of its past; the protocol reads none of them.

## What the proofs found

- `fill_buffer` keeps its write index in eight bits. It writes the image of a frame if and only if the image has at most
  256 bytes, whatever the buffer held before (`FillCorrectIffShort`). Payloads the transport accepts can exceed that
  (`LongImageExists`). A run puts the images of its messages on the wire if and only if none is longer
  (`WireCarriesImages`).
- `send_data` returns the size modulo 256, so an image of exactly 256 bytes goes out correctly and is reported as a
  failure (`SendReportsFailure`, `ImageOf256Exists`). The protocol writes such a request as often as its attempts allow
  and then gives it up (`ImageOf256Repeats`); apart from refused payloads these are the only requests it ever gives up
  (`EndingsAreTrue`).
- `read_data` does not move `pos_` when old bytes are dropped during a search, so bytes never looked at can count as
  start marker bytes: after a read they are genuine if and only if the bytes in place of the lost ones are separators
  (`ReadKeepsMarkersIff`, and `ReadData` itself). In the ring of 128 bytes, one separator and then a read of 128 bytes
  that starts with zero is a case where they are not (`OverflowCanForgeMarker`); `RunKeepsMarkers` says on which runs they
  always are. No delivered frame is affected, over any run and however many further overflows it meets
  (`OverflowKeepsFrames`): each still has its own image in the stream (`RingIsAccountedFor`), and on a line that carries
  only images an overflow costs frames but never adds one (`OverflowNeverAdds`).
- The default ring holds 251 bytes, less than the images the sender gets right. While images of up to 256 bytes come in,
  up to 245 bytes wait, so reads of up to six bytes never overflow it (`DefaultRing`), and after all but the last byte of
  such an image seven do (`SmallReadsExactly`).
- Without a CRC, exactly one substitution of a data byte goes unnoticed: 0x54 for 0xFF or back
  (`ChecksumDetectsOneByteExactly`). On the wire that takes a byte more or less: replacing one byte behind the size
  byte by another, neither of them a separator, always costs exactly that frame (`CorruptFrameLost`).
- README.rst says that the checksum is the sum of the bytes of the frame. The code adds 0x55 for each stuffed header and
  data byte, so for the payloads it accepts that is true if and only if neither the frame type nor the data is a
  separator (`ChecksumAsDocumentedIff`); it is false of the payload [0xFF] (`ChecksumNotAsDocumented`). README.rst also
  says that the length byte goes up to 254 and the data up to 246 bytes; the code limits them to 0xF1 and 233. The model
  follows the code.
- `parse_buffer` given header and body in one call, which the transport never does, looks for the trailer, the CRC and
  the post bytes at the start of the buffer (`ParseBodyAt`). A frame's own bytes are then accepted as that frame if and
  only if what stands there happens to agree with its data and trailer (`OneCallIff`). For a frame without data and CRC
  that means a checksum of 0xFF (`OneCallIffMarker`); the one of type 0 is rejected (`OneCallRejects`).
- The size `fill_buffer` announces falls short by 256 if a frame needs 256 post bytes. Only the frame of type 0xFF with
  255 separators does (`PostBytesWrapIff`), and `send_data` refuses it.
- After a message without answer is sent, `loop` decrements the counter of the item it has just popped. The model
  decrements only items that are still queued.

## Model

| member | source | states |
|---|---|---|
| Crc16.ComputeCrc | src/transport/haier_frame.cpp:56-66 | the accumulator loop computes the CRC of the first `size` bytes, resumed from the initial value |
| Crc16.CrcIsBitwise | src/transport/haier_frame.cpp:14-66 | the table-driven CRC equals the bit-by-bit CRC-16/ARC on every byte sequence, from every initial value |
| Crc16.CrcResumes | src/transport/haier_frame.cpp:264-271 | resuming over the data from the header CRC is one pass over header and data |
| Crc16.TableHighBytesDistinct | src/transport/haier_frame.cpp:15-48 | table entries with the same high byte are the same entry |
| Stuffing.UnstuffInvertsStuff | src/transport/protocol_transport.cpp:145-155 | the copy loop ends cleanly with given bytes, no separator left open, if and only if its input is their stuffing |
| Stuffing.CleanExtentIsExact | src/transport/protocol_transport.cpp:184-200 | a clean stretch that ends with the k-th plain byte yields exactly k bytes |
| CodecLaws.EncodeLength | src/transport/haier_frame.cpp:314-331 | the size computed from the fields of a frame is the length of its image |
| CodecLaws.EncodedSeparatorsFollowed | src/transport/haier_frame.cpp:335-366 | from the third byte on, every separator of an image is followed by the post byte |
| CodecLaws.MarkerUnique | src/transport/haier_frame.cpp:346-366 | two separators in a row stand at the start of an image and nowhere else |
| CodecLaws.EncodeEnd | src/transport/haier_frame.cpp:358-366 | an image never ends in a separator |
| CodecLaws.EncodeIsImage | src/transport/haier_frame.cpp:77-141 | for every payload of up to 233 bytes the builder and printer make the image of the format: marker, then size, flags 0x40 or 0, five zeros, type, data, checksum and CRC, high byte first, with 0x55 behind every 0xFF |
| CodecLaws.FlagsOnTheWire | src/transport/haier_frame.cpp:85-86 | the fourth byte of the image is 0x40 with CRC and 0 without |
| CodecLaws.HeaderRejectedExactly | src/transport/haier_frame.cpp:199-241 | a header is rejected for its marker, for a size below 8 or for a size above 0xF1, in that order, and accepted otherwise, with a CRC exactly if the flags hold the bit 0x40 |
| CodecLaws.BodyRejectedExactly | src/transport/haier_frame.cpp:254-296 | behind an accepted header, a body is rejected as CRC_WRONG exactly if the CRC-16/ARC does not match, as CHECKSUM_WRONG exactly if only the checksum does not, and accepted otherwise |
| CodecLaws.AcceptedIffGenuine | src/transport/haier_frame.cpp:183-299 | the two parser stages accept header and body as frame f if and only if size, flags, type, data, byte sum with 0x55 per stuffed byte, and CRC-16/ARC are those of f |
| CodecLaws.PlainGenuineIsEncoded | src/transport/haier_frame.cpp:77-141 | a genuine frame with a plain header is byte for byte what the builder and printer make, and the other way round |
| CodecLaws.CrcDetectsOneByte | src/transport/haier_frame.cpp:264-276 | with CRC, an accepted body with one data byte changed is rejected as CRC_WRONG, at any size and position |
| CodecLaws.CrcDetectsAdjacentPair | src/transport/haier_frame.cpp:264-276 | so is any change within two adjacent data bytes |
| CodecLaws.CrcDetectsBurst | src/transport/haier_frame.cpp:264-276 | so is any burst of up to sixteen bits in transmission order |
| CodecLaws.ChecksumDetectsOneByteExactly | src/transport/haier_frame.cpp:264-283 | without CRC, a changed data byte is rejected as CHECKSUM_WRONG except between 0x54 and 0xFF, where it is accepted |
| CodecLaws.ChecksumAsDocumentedIff | src/transport/haier_frame.cpp:106-141 | for accepted payloads the checksum is the documented byte sum if and only if neither frame type nor data is a separator |
| CodecLaws.ChecksumNotAsDocumented | README.rst:48 | the documented sum is not the checksum of the payload [0xFF] |
| CodecLaws.OneCallIff | src/transport/haier_frame.cpp:254-299 | header and body of any frame, parsed in one call, are accepted as that frame if and only if the start of the buffer holds its trailer where the parser looks, as many separators as its data, and bytes of the same CRC |
| CodecLaws.OneCallIffMarker | src/transport/haier_frame.cpp:254-299 | for a frame without data and CRC: if and only if its checksum is 0xFF; the body alone is always accepted |
| FrameCodec.ParseBodyAlone | src/transport/haier_frame.cpp:254-299 | with the body alone in the buffer, the second stage as the code runs it is the second stage of the format |
| HaierFrames.ComputeChecksum | src/transport/haier_frame.cpp:68-75 | the loop computes initial value plus byte sum, modulo 256 |
| HaierFrames.HaierFrame.Build | src/transport/haier_frame.cpp:106-141 | the built frame carries the sum over its stuffed header and data and the CRC over the unstuffed ones |
| HaierFrames.HaierFrame.FillBuffer | src/transport/haier_frame.cpp:333-368 | for any frame whose data is there: nothing is written if the announced size exceeds the limit; otherwise the buffer holds the image as an index that wraps at 256 leaves it; the announced size is that of the image, less 256 for each wrap of the post byte count |
| HaierFrames.FillCorrectIffShort | src/transport/haier_frame.cpp:345-366 | what such an index leaves is the image if and only if the image has at most 256 bytes |
| HaierFrames.PostBytesWrapIff | src/transport/haier_frame.cpp:114-141 | the 8-bit count of post bytes wraps for exactly one frame: type 0xFF with 255 separators |
| HaierFrames.LongImageExists | src/transport/protocol_transport.cpp:22-34 | 233 separators are an accepted payload whose image exceeds 256 bytes |
| HaierFrames.ImageOf256Exists | src/transport/protocol_transport.cpp:32-37 | a payload whose image has exactly 256 bytes |
| HaierFrames.OneCallRejects | src/transport/haier_frame.cpp:254-299 | the frame of type 0 without data is rejected when header and body come in one call |
| HaierFrames.HaierFrame.ParseBuffer | src/transport/haier_frame.cpp:183-299 | result, error, position and new state in each status and for every size: header, body, or both in one call |
| HaierFrames.HaierFrame.Reset | src/transport/haier_frame.cpp:301-312 | back to the empty frame |
| CircularBuffers.CircularBuffer.constructor | include/utils/circular_buffer.h:36-43 | an empty ring of at least 128 slots |
| CircularBuffers.CircularBuffer.GetSize | include/utils/circular_buffer.h:93-99 | the tail is the head moved on by the size, and the flag says empty exactly for size 0 |
| CircularBuffers.CircularBuffer.At | include/utils/circular_buffer.h:87-91 | total; at every logical index within the contents, the element there, wherever the head is |
| CircularBuffers.CircularBuffer.Push | include/utils/circular_buffer.h:101-112 | appends the item unless the ring is full |
| CircularBuffers.CircularBuffer.PushMany | include/utils/circular_buffer.h:114-128 | appends as many leading items as there is space for |
| CircularBuffers.CircularBuffer.Pop | include/utils/circular_buffer.h:130-145 | moves the oldest elements to the caller, in order, and leaves the rest of its array alone |
| CircularBuffers.CircularBuffer.Reserve | include/utils/circular_buffer.h:147-162 | claims min(size, capacity - tail) slots; with room the contents grow by exactly that stretch of the array, without it the size starts over and only the oldest elements are left |
| CircularBuffers.CircularBuffer.Clear | include/utils/circular_buffer.h:164-170 | empties the contents |
| CircularBuffers.CircularBuffer.Drop | include/utils/circular_buffer.h:172-183 | drops min(size, contents) of the oldest elements |
| Transport.ProtocolStream.ReadArray | include/utils/protocol_stream.h:10-15 | reads min(len, available) bytes in order |
| Transport.TransportLevelHandler.constructor | src/transport/protocol_transport.cpp:11-18 | an empty ring of at least 128 bytes, and a receiver at its start |
| Transport.TransportLevelHandler.ReadData | src/transport/protocol_transport.cpp:40-78 | old contents less the oldest bytes that do not fit, then the next min(available, capacity) stream bytes; cursors start over only if bytes are lost behind a found marker; in between two loops, marker bytes stay genuine if and only if those in place of lost ones are separators |
| Transport.TransportLevelHandler.Fill | src/transport/protocol_transport.cpp:60-70 | one or two reserved stretches append the stream bytes in order, for every position of head and tail |
| Transport.TransportLevelHandler.SearchByte | src/transport/protocol_transport.cpp:103-127 | one byte of the search leaves the outcome of the reference receiver unchanged and keeps the cursor invariant |
| Transport.TransportLevelHandler.FoundByte | src/transport/protocol_transport.cpp:128-245 | one byte behind a marker: either counted, or exactly one move of the reference receiver; the unexpected status cannot occur |
| Transport.TransportLevelHandler.ExtractHeader | src/transport/protocol_transport.cpp:138-155 | exactly ten unstuffed header bytes, within the allocated array, or the index behind the separator with a wrong post byte |
| Transport.TransportLevelHandler.ExtractBody | src/transport/protocol_transport.cpp:186-200 | exactly the unstuffed body bytes, filling the allocated array, or the index behind the offending separator |
| Transport.TransportLevelHandler.CompleteHeader | src/transport/protocol_transport.cpp:156-179 | buffer and mode after the header move: taken, rejected, or rewound to the offending separator |
| Transport.TransportLevelHandler.CompleteBody | src/transport/protocol_transport.cpp:201-236 | buffer, mode and queue after the body move: delivered, rejected, or rewound |
| Transport.TransportLevelHandler.ProcessData | src/transport/protocol_transport.cpp:80-256 | one call leaves exactly the mode, buffer and delivered frames of the reference receiver, with every byte left in the buffer seen; it terminates |
| Transport.TransportLevelHandler.SendData | src/transport/protocol_transport.cpp:20-38 | refuses payloads over 233 bytes; otherwise sends as many bytes as the image has, each of the first 256 the last that an 8-bit index writes there, so the image itself if and only if it has at most 256 |
| Transport.SendReportsFailure | src/transport/protocol_transport.cpp:22-37 | the result is zero exactly for refused payloads and images of 256 bytes |
| Transport.TransportLevelHandler.ResetProtocol | src/transport/protocol_transport.cpp:258-268 | drops the bytes already seen and searches again |
| Transport.TransportLevelHandler.PopFrame | src/transport/protocol_transport.cpp:270-277 | takes the oldest queued frame, if any |
| Transport.TransportLevelHandler.DropFrames | src/transport/protocol_transport.cpp:279-286 | drops the oldest frames, as many as asked for or all |
| Transport.TransportLevelHandler.Clear | src/transport/protocol_transport.cpp:292-300 | empties the buffer and searches again |
| Transport.CursorsExtend | src/transport/protocol_transport.cpp:96-101 | new bytes behind the contents do not disturb the cursor invariant |
| ScannerSteps.TriggerIsExtent | src/transport/protocol_transport.cpp:130-136 | the count pos_ + 1 - sep_count_ first reaches its target at the last byte of the extent, which is no separator |
| StreamParser.MoveProgress | src/transport/protocol_transport.cpp:201-210 | every move drops bytes, or drops none and gives up a body |
| StreamRules.SearchRule | src/transport/protocol_transport.cpp:103-127 | a search waits on nothing, on one 0xFF and on two; in front of anything else that is no frame start it drops one byte |
| StreamRules.HeaderWaits | src/transport/protocol_transport.cpp:136 | behind a marker and a size byte it waits exactly while fewer than seven bytes other than 0xFF are there |
| StreamRules.HeaderRule | src/transport/protocol_transport.cpp:138-179 | the image of a header is dropped; its body is awaited if the parser accepts it, and the search starts over if not |
| StreamRules.HeaderBreakRule | src/transport/protocol_transport.cpp:144-166 | a header with a 0xFF not followed by 0x55 is dropped up to that 0xFF, and the search starts over there |
| StreamRules.BodyWaits | src/transport/protocol_transport.cpp:184 | a body is awaited exactly while fewer bytes other than 0xFF are there than it has in all |
| StreamRules.BodyRule | src/transport/protocol_transport.cpp:186-236 | the image of a body is dropped, its frame delivered if the parser accepts it, and the search starts over |
| StreamRules.BodyBreakRule | src/transport/protocol_transport.cpp:190-210 | a body with a 0xFF not followed by 0x55 is dropped up to that 0xFF, and the search starts over there |
| StreamRules.ImageOrBreak | src/transport/protocol_transport.cpp:145-155 | there is no other case: k bytes other than 0xFF hold the image of k bytes, or such a 0xFF before that |
| StreamLaws.DrainChunks | src/transport/protocol_transport.cpp:96-255 | from any receiver state, processing a and then b gives the frames, mode and buffer of processing a + b at once |
| StreamLaws.FeedIsDrain | src/transport/protocol_transport.cpp:96-255 | a run over any chunks is one pass over the whole stream |
| RoundTrip.StreamRoundTrip | src/transport/protocol_transport.cpp:100-248 | the images of any list of frames are received as exactly these frames in order, with an empty buffer left |
| RoundTrip.ChunkedRoundTrip | src/transport/protocol_transport.cpp:96-255 | the same for every way the images are cut into chunks |
| Resync.CrossingBreaks | src/transport/protocol_transport.cpp:144-166 | an extraction that runs into a start marker breaks no later than there, so the rewind keeps the marker |
| Resync.NoiseLosesNoFrame | src/transport/protocol_transport.cpp:144-211 | from any receiver state, following frames are all delivered, or all kept in the buffer of a receiver waiting for a body |
| Resync.MarkerIsReached | src/transport/protocol_transport.cpp:144-211 | from any receiver state, behind any pending bytes, the receiver comes to the next start marker as if it had started there, or waits for a body with everything kept |
| Resync.NoFrameAmongNoiseLost | src/transport/protocol_transport.cpp:144-211 | frames between stretches of any noise, with anything behind them, are delivered in order up to one that is still in the buffer of a receiver waiting for a body, with all that follows |
| Resync.EnoughFramesResync | src/transport/protocol_transport.cpp:144-211 | frames with 236 plain bytes in all are delivered to the last one behind any noise, and the receiver is back at its start |
| Resync.CutFrameResync | src/transport/protocol_transport.cpp:144-211 | behind a frame cut anywhere, exactly the following frames are delivered, unless the header was complete and all bytes since are too few for its body |
| Corruption.ChangedBodyRejected | src/transport/haier_frame.cpp:264-283 | a body, trailer included, with one byte changed, neither old nor new a separator, is rejected, with CRC or without |
| Corruption.CorruptFrameLost | src/transport/protocol_transport.cpp:138-236 | frames, a frame with one byte behind its size byte changed on the wire, and more frames, in any chunks: exactly the others are delivered, in order; the receiver is back at its start, unless the last frame gained a CRC flag |
| Ledger.NothingConsumedTwice | src/transport/protocol_transport.cpp:112-248 | the consumed pieces and the rest make up the input, and the delivered frames are those of the pieces |
| Ledger.FramesAreGenuine | src/transport/protocol_transport.cpp:186-236 | each delivered frame is the content of a header piece and the body piece right behind it, an image genuine for it |
| Ledger.RunIsAccountedFor | src/transport/protocol_transport.cpp:96-255 | both over every run from the start in any chunks |
| Ledger.PlainImageIsEncoding | src/transport/haier_frame.cpp:333-368 | an image with a plain header is byte for byte the sender's image of the frame |
| Overflow.DrainKeepsMarkers | src/transport/protocol_transport.cpp:103-127 | scanning keeps the bytes counted as marker bytes genuine |
| Overflow.ClaimHarmless | src/transport/protocol_transport.cpp:47-59 | bytes wrongly counted as marker bytes change no frame of the search that follows, and leave its buffer on the track of one that looks at every byte |
| Reception.RingIsFeed | src/protocol/haier_protocol.cpp:42-43 | a run of reads and scans without overflow is the run over an unbounded buffer: same frames, mode and buffer |
| Reception.ReadAllIsDrain | src/transport/protocol_transport.cpp:40-256 | the same from any receiver between two loops: one drain of all the bytes |
| Reception.SmallReadsFit | src/transport/protocol_transport.cpp:40-59 | on a stream of images of at most a given size, reads that leave room for what can wait of one, its size less 11 bytes, never overflow |
| Reception.SmallReadsExactly | src/transport/protocol_transport.cpp:40-59 | that bound is exact: with all but the last byte of an image read, of 22 bytes or more and no separator for its type, the next read loses bytes if and only if it does not leave that room |
| Reception.RingResyncs | src/transport/protocol_transport.cpp:47-59 | behind any run with whatever overflows, frames with 236 plain bytes in all are received to the last one |
| Reception.ReadKeepsMarkersIff | src/transport/protocol_transport.cpp:47-59 | an overflowing read keeps the bytes counted as marker bytes genuine if and only if a frame start was found or the bytes in place of the lost ones are separators |
| Reception.OverflowCanForgeMarker | src/transport/protocol_transport.cpp:47-59 | a case in which they are not, in the ring of 128 bytes |
| Reception.RunKeepsMarkers | src/transport/protocol_transport.cpp:103-127 | over every run whose overflows of a search put separators in the place of separators, the bytes counted as marker bytes are separators, two of them once a frame start is found |
| Reception.NoOverflowKeepsMarkers | src/transport/protocol_transport.cpp:47-59 | runs without overflow are such runs |
| Reception.OverflowKeepsFrames | src/transport/protocol_transport.cpp:47-59 | over every run, with any number of overflows, the frames delivered are those of a receiver that starts its search over at every overflow |
| RingLedger.RingIsAccountedFor | src/transport/protocol_transport.cpp:40-256 | conservation and soundness over every run with any overflows: consumed, skipped and dropped pieces and the rest make up the stream, and each delivered frame has its own genuine image in it |
| RingLedger.ImageInStream | src/transport/haier_frame.cpp:333-368 | a genuine image anywhere in a stream of frames is the image of one of them, at its place |
| RingLedger.OverflowNeverAdds | src/transport/protocol_transport.cpp:47-59 | on a stream of frames, with any overflows, the frames delivered are a subsequence of those sent |
| Protocol.QueueGrows | src/protocol/haier_protocol.cpp:206-214 | handlers only append to the outgoing queue |
| ProtocolLaws.RunIsSound | src/protocol/haier_protocol.cpp:40-160 | accounting, attribution and the waiting invariant hold in every reachable state |
| Outcomes.ExactlyOneOutcome | src/protocol/haier_protocol.cpp:83-157 | ended messages in order, then queued ones, are the enqueued ones; each outcome has its number of writes, at most ten; a timeout handler runs once for each timed-out message and for no other |
| Outcomes.WaitingInvariant | src/protocol/haier_protocol.cpp:112-157 | while waiting, the front of the queue expects an answer, has 0 to 9 attempts left, has the last message type and is the request sent last, and the frames there have arrived since |
| Outcomes.EveryAnswerAttributed | src/protocol/haier_protocol.cpp:135-156 | the answer handler gets the first frame that arrived, in a later step, after the last successful write, with the type of the request written |
| Endings.EndingsAreTrue | src/protocol/haier_protocol.cpp:83-157 | over every run an ended request was given up if and only if its payload exceeds 233 bytes or its image has exactly 256; its writes failed exactly then; an answer handler ran once for each answered request and for no other |
| Endings.ImageOf256Repeats | src/protocol/haier_protocol.cpp:86-107 | a request with an image of 256 bytes is written as often as its attempts allow, and given up |
| Provenance.HandledHaveArrived | src/protocol/haier_protocol.cpp:47-81 | the frames handed to message and answer handlers are a subsequence of those that arrived: none made up, handled twice or out of order |
| Conformance.RunFollowsRules | src/protocol/haier_protocol.cpp:40-237 | over every run with a clock from zero on that never goes back, the log is exactly that of the rules: what is asked for, enqueued, written, handled, given up and ended, and when, told from the log alone with its numbers written out |
| Handling.RequestsAsAsked | src/protocol/haier_protocol.cpp:206-214 | the requests enqueued are, one for one and in order, those asked for: message, CRC choice and interval as given; one attempt without answer, otherwise the repeats plus one, at most ten |
| Handling.AnswersAsAsked | src/protocol/haier_protocol.cpp:216-231 | the answers written are, one for one and in order, those the handlers of the messages handled asked for, with the CRC choice made, or else as the message came |
| Handling.AnswerInsideHandler | src/protocol/haier_protocol.cpp:58-72 | each answer stands right behind its own action and behind a message whose handler is still running, and without a choice has a CRC if and only if that message had |
| Handling.LastMessageIsHandled | src/protocol/haier_protocol.cpp:47-81 | a loop in which no answer is awaited and frames are there handles exactly the last of them; what its handler asks for follows, and nothing else is asked for or answered |
| Handling.NoFrameUnseen | src/protocol/haier_protocol.cpp:47-156 | each frame that arrived was handled, gave way to a later one handled in the same loop, or is still there |
| Promptness.NeverHeldBack | src/protocol/haier_protocol.cpp:83-156 | however the request before it ended, the retry time point does not lie ahead for a front request never written successfully |
| Promptness.WrittenWhenDue | src/protocol/haier_protocol.cpp:83-107 | a loop with no answer awaited writes the first open request, or gives it up, exactly if the cooldown and its own retry interval are over |
| Promptness.FreshRequestGoesOut | src/protocol/haier_protocol.cpp:83-107 | so a request never written goes out with the first such loop at or after the end of the cooldown |
| Promptness.WaitEndsOnTime | src/protocol/haier_protocol.cpp:114-133 | the first loop later than the write plus its timeout ends the wait, even with an answer there; the request is over if it has no attempts left |
| Promptness.AnswerIsTaken | src/protocol/haier_protocol.cpp:135-157 | a frame there in time is taken as the answer, the first one first, and the request is over when its handler is done |
| Promptness.WaitGoesOn | src/protocol/haier_protocol.cpp:112-158 | with neither, the wait goes on and nothing else happens |
| Timing.CooldownHolds | src/protocol/haier_protocol.cpp:83-88 | with a monotone clock no request is written before the previous write plus the cooldown then in force |
| Timing.ResendWaits | src/protocol/haier_protocol.cpp:96-133 | a request is written again only more than the answer timeout and at least the retry interval after a successful write |
| Draining.StepDrains | src/protocol/haier_protocol.cpp:83-157 | without new messages the measure never grows, and drops with every attempt, answer, timeout or give-up |
| Draining.ActiveStepsBounded | src/protocol/haier_protocol.cpp:83-157 | the number of such steps in a run is bounded by the measure at its start |
| Draining.QueueDrains | src/protocol/haier_protocol.cpp:83-157 | if steps come when due, the queue is empty after as many steps as the measure says |
| Draining.DueByClock | src/protocol/haier_protocol.cpp:83-114 | a step later than all time points, with no message to handle, is due |
| Draining.QuietLineDrains | src/protocol/haier_protocol.cpp:83-133 | on a quiet line, loops further apart than every interval in force empty the queue, as many of them as the measure says |
| Wire.WireCarriesImages | src/transport/protocol_transport.cpp:20-38 | what a run wrote is the images of the accepted messages and answers, one after the other, if and only if none exceeds 256 bytes; it has their length either way |
| Wire.EndToEnd | src/protocol/haier_protocol.cpp:40-184 | if none does, a receiver that gets these bytes delivers exactly the frames of the messages and answers written, in order |
| Wire.RingEndToEnd | src/protocol/haier_protocol.cpp:40-184 | the same over a ring, in chunks, without overflow, for all of the bytes or the beginning of them |
| Wire.OnlyWrittenFrames | src/protocol/haier_protocol.cpp:40-184 | with overflows, the frames delivered are a subsequence of those written |
| ProtocolHandlers.ProtocolHandler.constructor | src/protocol/haier_protocol.cpp:17-38 | the initial state of the state machine, nothing past, and a ring of the size asked for, 251 by default |
| ProtocolHandlers.ProtocolHandler.WriteMessage | src/protocol/haier_protocol.cpp:162-184 | the message goes to the stream, success is a non-zero result of sending, and the cooldown starts in either case |
| ProtocolHandlers.ProtocolHandler.SendMessage | src/protocol/haier_protocol.cpp:206-209 | appends the message with its CRC choice and interval, good for the repeats plus one attempt, at most ten |
| ProtocolHandlers.ProtocolHandler.SendMessageWithoutAnswer | src/protocol/haier_protocol.cpp:211-214 | appends the message, good for one attempt, with no answer expected |
| ProtocolHandlers.ProtocolHandler.SendAnswer | src/protocol/haier_protocol.cpp:216-231 | outside a message handler nothing changes; inside, the answer is written with the CRC choice made or as the message came, the cooldown starts, and the message counts as answered if the write succeeds |
| ProtocolHandlers.ProtocolHandler.NoAnswer | src/protocol/haier_protocol.cpp:233-237 | marks the message as answered only from within a message handler |
| ProtocolHandlers.ProtocolHandler.CallAction | src/protocol/haier_protocol.cpp:186-237 | an application's call between two loops is one step of the state machine; every invariant and the record of the past are kept |
| ProtocolHandlers.ProtocolHandler.Loop | src/protocol/haier_protocol.cpp:40-160 | one call is one step of the state machine on the frames the reference receiver delivers; the receiver's mode and buffer, the rest of the stream and what is written are stated; every invariant and the record of the past are kept |
| ProtocolHandlers.ProtocolHandler.Receive | src/protocol/haier_protocol.cpp:42-43 | frames, mode and buffer are those of the reference receiver on the buffer after the read |
| ProtocolHandlers.WholeRun | src/protocol/haier_protocol.cpp:40-43 | over the whole past of a handler, overflows included: its chunks are accounted for, each frame has its own genuine image in them, and the marker bytes of its search are genuine on the runs named above; without overflow, frames, mode and buffer are those of the reference receiver |
| ProtocolHandlers.EndToEnd | src/protocol/haier_protocol.cpp:40-184 | any two handlers on one line, any runs: frames arrived at one, and those its handlers saw, are subsequences of the messages and answers the other wrote, whatever overflows; without overflow all arrive, in order |
| ProtocolHandlers.SmallReadsSuffice | src/transport/protocol_transport.cpp:40-59 | between them, reads that leave room for what can wait of the largest image written do not overflow |
| ProtocolHandlers.DefaultRing | src/protocol/haier_protocol.cpp:17-19 | the default ring has 251 bytes; in it, reads of up to six bytes do not overflow, for any image of up to 256 bytes |
| ProtocolHandlers.ProtocolHandler.TakeMessage | src/protocol/haier_protocol.cpp:47-81 | all incoming messages but the last are dropped; the handler runs on the last, with its CRC status, from the log of its start to that of its end |
| ProtocolHandlers.ProtocolHandler.WriteFront | src/protocol/haier_protocol.cpp:86-103 | one write attempt for the front message |
| ProtocolHandlers.ProtocolHandler.AnswerTimeout | src/protocol/haier_protocol.cpp:114-133 | timeout: back to idle, with the timeout handler if no attempt is left |
| ProtocolHandlers.ProtocolHandler.TakeAnswer | src/protocol/haier_protocol.cpp:135-157 | the first frame is the answer: its handler runs, then the request is over, the retry time point is now and the state idle |

## Left out

- HaierFrames.HaierFrame.FillBuffer: a frame of which only the header was parsed; its size byte announces data that is not there, and the code would read it from a null address.
- CircularBuffers.CircularBuffer.At: says nothing about the element at an index beyond the contents.
- Transport.TransportLevelHandler.SendData: says nothing about the bytes of a longer image behind the 256th; the code sends whatever the allocated buffer held.
- Transport.TransportLevelHandler.ReadData: bytes that arrive between the calls to the stream stay in the stream; the number to read is fixed by the first call.
- A change of the size byte of a frame, or of a byte to or from a separator: what is lost then depends on the bytes that follow.
- Frame timeout and time stamps: the guard compares the status with its largest value, so the branch never runs, and the start time is never set.
- The heap array behind a frame and the moved-from frame: the data is a sequence, and delivering a frame copies its value.
- `HaierMessage` ownership and the subcommand prefix: a payload is a byte sequence with the subcommand already in front.
- The copy constructor and assignment of `CircularBuffer`: not used by the stack.
- Handler maps, default handlers and handler results: a step runs some handler, whose actions are given; results are only logged by the code.
- Handlers that call `loop` again.
- A decrement of an item that is no longer queued.
- Logging, hex dumps, streams over real devices, simulators and tools.
