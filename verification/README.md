# Carrying frames between FMUs

A Dafny model of the path a CAN frame or a PDU takes from one FMU to another in this
repository, and proofs of what that path promises: ASCII85 text coding, the buffer stream,
the automotive-bus codecs, the bus topology, the FMU calls, and a whole network of FMUs run
for any number of cycles. `dafny verify dfyconfig.toml` checks everything.

| file | models | form |
|---|---|---|
| `Bytes.dfy` | bytes, optional values, little-endian size prefixes, decimal text | functions |
| `Ascii85.dfy` | `ascii85.c` | in-place methods on arrays, proved against `Encoded` and `Decoded` |
| `Streams.dfy` | `stream.c` | class `BufferStream`, refining a file with a cursor |
| `Wire.dfy` | what the bytes of a stream mean | framing and the `Unread` function |
| `Codec.dfy` | the state machine common to `frame_can_fbs.c` and `pdu_fbs.c` | class `Codec<E>`, refining a queue |
| `Can.dfy`, `Pdu.dfy` | what differs between the two codecs: elements, sender fields, decoding into the caller's message | functions and classes |
| `PduLayout.dfy` | a concrete layout of PDU vectors, and PDUs sent from codec to codec in it | functions and methods |
| `Topology.dfy` | `bus_topology.c` | class `BusTopology<E>`, and runs of calls as seen by one stream |
| `Fmu.dfy` | SetString, DoStep and GetString of `fmu.c` | class `Fmu`, proved against functions on `Node` |
| `Network.dfy`, `Lockstep.dfy` | FMUs connected by an importer | a state machine in bytes, simulated by one in frames |
| `Importer.dfy` | the importer's calls on FMU objects | methods over a sequence of `Fmu`, proved against the state machine |
| `Mime.dfy` | `ncodec_create`, `codec_config`, `codec_stat` | class `AbCodec` and a printer |

The two codecs walk messages and vectors with the same code, so it is written once, generic in
the element. The layout of a message body, which is FlatBuffers code generated elsewhere, is a
parameter: a `Schema` has an encoder and a decoder of a vector with a round-trip contract.
`Can.CAN` and `PduLayout.PDU` are concrete layouts that meet it. A pointer into the stream
buffer is an offset, and what it points at is read from the buffer as it is at that moment, so
a pointer that outlives a truncation sees stale or overwritten bytes, as it does in C.

## What is proved

**The text is lossless.** Decoding the encoding of any byte string gives it back, for every
length and with zero groups anywhere; the sizes both sides compute agree; `z` is transparent.

What the characters and fields are is stated in numbers and names beside these laws: `z` is 122,
digits run from 33 to 117, parameters are parted by `;` and blanks, every field of a frame or a
PDU is the field of that name.

**A reader is a queue.** For any framed stream, in any state of the reader, a read returns and
removes the head of the queue of wanted elements and fails exactly when it is empty. The scan
stops for good at a zero size prefix and at a message without a vector, and the queue says so.

**A writer's flushes are invisible.** Any placement of flushes delivers the same elements.

**Truncation is not enough by itself.** It empties the stream and keeps the parsing state. A
truncated codec delivers exactly what is written from then on, whatever that is, if and only if
its fields say that it is in no message or at the end of a vector (`Codec.TruncateIff`, with
`Can.CanTruncation` and `PduLayout.PduTruncation` for the two codecs). That nothing wanted is
left in the message is not enough: `Codec.DeliveredTwice` delivers a later element twice, and
a reader stuck on a message without a vector goes on delivering nothing. `Can.StaleFrames`
writes, reads one frame, truncates, and is handed the other frames of the emptied stream. FMUs
are safe because `fmi2DoStep` reads to the end first, which leaves the codec in no message
unless one without a vector was in the way.

**A reused NCodecPdu shows old parts.** `pdu_read` does not clear the caller's structure, and
address and adapter of an IP message lie where a CAN message does not reach and a struct
message overwrites only part. `Pdu.Leftovers` says what is there after any sequence of reads;
`Pdu.OneBufferIff` and `PduLayout.Exchange` say when PDUs read through one structure come out
as sent: exactly when none lacks a transport, an address or an adapter that one before it had.

**What is handed out is released.** Every key of the free list releases one buffer, no buffer is
ever released twice, and a reset or destroy releases all that were handed out if and only if
there are at most 10^10 of them: after that, cut keys coincide.

**The network is safe.** `Network.RunSimulates` holds for every run: any interleaving and any
order of calls on any number of FMUs, including calls whose data is dropped for lack of room.
`Lockstep.NetworkSafety` and `Lockstep.ExactlyOnce` draw from it that in cycles of Set, Step
and Get each FMU reads each frame of every other FMU once, in order, and none of its own. The
capacity it needs is a condition on the messages, checked before the run. `Importer.RunCycles`
creates the FMU objects, makes the calls, and returns just that.

Where the code differs from its description: the comments of `ncodec_flush` promise 0, but the
flush functions return the message length, also when the stream had no room and the message
was lost. The model follows the code.

## Model

| member | source | states |
|---|---|---|
| Ascii85.RoundTrip | modelica/fmi-ls-binary-to-text/code/ascii85.c:12-103 | for every byte string the encoded text is well formed and decodes to the same bytes |
| Ascii85.TextOfHello | modelica/fmi-ls-bus-topology/code/tests/test_bus_topology.c:12-13 | the text of "hello" is "BOu!rDZ", which pins the alphabet and the order of digits |
| Ascii85.WritesZ | modelica/fmi-ls-binary-to-text/code/ascii85.c:28-33 | four zero bytes with four more behind them are written as the character 122 |
| Ascii85.ReadsZ | modelica/fmi-ls-binary-to-text/code/ascii85.c:78-91 | the character 122 is read as four zero bytes, whatever follows |
| Ascii85.TextOfZeros | modelica/fmi-ls-binary-to-text/code/ascii85.c:28-38 | the last four bytes are never shortened: eight zero bytes are "z!!!!!" |
| Ascii85.WritesGroup | modelica/fmi-ls-binary-to-text/code/ascii85.c:20-39 | any other four bytes are five characters from 33 to 117 whose base-85 value is their big-endian value |
| Ascii85.ReadsGroup | modelica/fmi-ls-binary-to-text/code/ascii85.c:82-91 | five characters are read as the big-endian bytes of their base-85 value modulo 2^32 |
| Ascii85.WritesTail | modelica/fmi-ls-binary-to-text/code/ascii85.c:22-44 | one to three last bytes give one character more than bytes, those of the group filled with zeros |
| Ascii85.ReadsTail | modelica/fmi-ls-binary-to-text/code/ascii85.c:64-98 | up to four last characters give one byte less than characters, those of the group filled with 117 |
| Ascii85.PaddingRecovers | modelica/fmi-ls-binary-to-text/code/ascii85.c:64-86 | filling the p dropped digits of a last group with `u` gives a value in [V, V + 256^p), no uint32 accumulation wraps, and the kept bytes come back |
| Ascii85.NoWrap | modelica/fmi-ls-binary-to-text/code/ascii85.c:82-85 | the uint32 accumulation of digits never wraps on the way to a value below 2^32 |
| Ascii85.HornerFilled | modelica/fmi-ls-binary-to-text/code/ascii85.c:64-70 | `u` for the last p digits rounds the value up within its 85^p block |
| Ascii85.FullGroup | modelica/fmi-ls-binary-to-text/code/ascii85.c:82-91 | five digits of a full group decode to its four bytes |
| Ascii85.EncodedSize | modelica/fmi-ls-binary-to-text/code/ascii85.c:14-46 | the text has 5 ceil(n/4) - padding - 4 (number of `z`) characters, each a base-85 digit or `z`, so none is NUL |
| Ascii85.DecodedSize | modelica/fmi-ls-binary-to-text/code/ascii85.c:56-62 | required - padding, computed from the text length and the count of `z`, is the decoded length of every well-formed text |
| Ascii85.SizesAgree | modelica/fmi-ls-binary-to-text/code/ascii85.c:95-102 | on the encoder's texts the decoder's length is the length of the original bytes |
| Ascii85.ZIsTransparent | modelica/fmi-ls-binary-to-text/code/ascii85.c:56-101 | writing `!!!!!` for every `z` of a well-formed text changes no decoded byte and no size |
| Ascii85.PaddedText | modelica/fmi-ls-binary-to-text/code/ascii85.c:64-73 | padding with `u` completes the last group and only appends decoded bytes, exactly `required` in all |
| Ascii85.GroupsStripped | modelica/fmi-ls-binary-to-text/code/ascii85.c:41-44 | the encoded text is the text of full groups less the padded characters |
| Ascii85.GroupsFit | modelica/fmi-ls-binary-to-text/code/ascii85.c:14-18 | the text of full groups fits the allocated buffer and has no NUL |
| Ascii85.PackChunk | modelica/fmi-ls-binary-to-text/code/ascii85.c:21-27 | the chunk loop stops after four bytes or at the end and packs big-endian |
| Ascii85.StoreGroup | modelica/fmi-ls-binary-to-text/code/ascii85.c:34-38 | the backward digit loop writes the five base-85 digits in order and nothing else |
| Ascii85.EncodeChunk | modelica/fmi-ls-binary-to-text/code/ascii85.c:20-39 | one round extends the text by one group or by `z`, within the buffer |
| Ascii85.StripPadding | modelica/fmi-ls-binary-to-text/code/ascii85.c:41-44 | overwriting the last character once per padded byte leaves the prefix as a C string |
| Ascii85.Encode | modelica/fmi-ls-binary-to-text/code/ascii85.c:12-47 | the fresh buffer holds the encoded text, NUL terminated, without an overrun |
| Ascii85.PadSource | modelica/fmi-ls-binary-to-text/code/ascii85.c:64-70 | the copy is the source followed by `u` characters |
| Ascii85.LoadGroup | modelica/fmi-ls-binary-to-text/code/ascii85.c:82-85 | five characters accumulate to their value modulo 2^32 |
| Ascii85.StoreWord | modelica/fmi-ls-binary-to-text/code/ascii85.c:88-91 | the four bytes of the value are written highest first and nothing else |
| Ascii85.DecodeGroups | modelica/fmi-ls-binary-to-text/code/ascii85.c:72-92 | over full groups the loop writes exactly the decoded bytes and terminates |
| Ascii85.Decode | modelica/fmi-ls-binary-to-text/code/ascii85.c:50-103 | the fresh buffer holds the decoded bytes followed by NULs, and len is their number, without an overrun |
| Streams.BufferStream.constructor | modelica/fmi-ls-bus-topology/code/stream.c:107-120 | a new stream is empty at position 0 |
| Streams.BufferStream.Read | modelica/fmi-ls-bus-topology/code/stream.c:12-32 | returns the bytes from the position to the length, NULL if there are none, and moves to the end only when asked |
| Streams.BufferStream.Write | modelica/fmi-ls-bus-topology/code/stream.c:34-46 | overwrites at the position and extends, byte by byte, or changes nothing when the end would pass 4096 |
| Streams.BufferStream.Seek | modelica/fmi-ls-bus-topology/code/stream.c:48-78 | position, length and result of every operation: clamped to the length, reset to empty, operation 42 to the full buffer; an unknown one changes nothing and is refused |
| Streams.BufferStream.Tell | modelica/fmi-ls-bus-topology/code/stream.c:80-88 | the position |
| Streams.BufferStream.Eof | modelica/fmi-ls-bus-topology/code/stream.c:90-98 | true exactly when nothing is left to read |
| Streams.StepRefines | modelica/fmi-ls-bus-topology/code/stream.c:12-98 | each operation does to the stream what it does to a file with a cursor, and returns the same |
| Streams.RunRefines | modelica/fmi-ls-bus-topology/code/stream.c:12-98 | over every sequence of operations the stream returns what the file returns, position within length within capacity |
| Bytes.LittleEndianValue | dse/ncodec/libs/automotive-bus/frame_can_fbs.c:47-52 | a size below 2^32 is written as four bytes, least significant first |
| Wire.ForeignMessagesInvisible | dse/ncodec/libs/automotive-bus/frame_can_fbs.c:104-122 | taking any messages of other identifiers out of a mixed stream changes nothing a reader of this identifier delivers |
| Wire.UnreadMessage | dse/ncodec/libs/automotive-bus/frame_can_fbs.c:39-53 | a finalized message is read back as the wanted part of the vector it was built from |
| Wire.UnreadConcat | dse/ncodec/libs/automotive-bus/frame_can_fbs.c:97-119 | appending messages to a clean stream appends to what is read from it |
| Wire.HiddenByZero | dse/ncodec/libs/automotive-bus/frame_can_fbs.c:104-109 | nothing behind a zero size prefix is ever read |
| Wire.HiddenByMessage | dse/ncodec/libs/automotive-bus/frame_can_fbs.c:125-141 | nothing from a message of this schema without a vector on is ever read |
| Wire.UnreadFiltered | dse/ncodec/libs/automotive-bus/frame_can_fbs.c:167-172 | reading with an own id is reading without one and then dropping the own elements |
| Wire.KeepSenders | dse/ncodec/libs/automotive-bus/frame_can_fbs.c:163-172 | an element is kept if and only if it is a CAN frame and not from the reader's own non-zero id |
| Codec.Codec.Write | dse/ncodec/libs/automotive-bus/frame_can_fbs.c:56-83 | the element joins the batch, and a batch is begun if there is none |
| Codec.Codec.Flush | dse/ncodec/libs/automotive-bus/frame_can_fbs.c:201-216 | the batch is written as one message at the stream position, or lost whole if it does not fit; the length returned is the same |
| Codec.Codec.FinalizeStream | dse/ncodec/libs/automotive-bus/frame_can_fbs.c:39-53 | one message of the whole batch behind its size as four bytes, least significant first; NULL without a batch, and the builder is empty |
| Codec.Codec.Truncate | dse/ncodec/libs/automotive-bus/frame_can_fbs.c:219-229 | the batch and the stream are emptied and the parsing state is not touched |
| Codec.Codec.NextHeader | dse/ncodec/libs/automotive-bus/frame_can_fbs.c:104-118 | the stream moves by exactly the size prefix and the message; a foreign message changes nothing that is still to be read |
| Codec.Codec.GetMsgFromStream | dse/ncodec/libs/automotive-bus/frame_can_fbs.c:86-123 | enters the next message of this schema without losing an element, or ends at the end of the stream with none left |
| Codec.Codec.GetVectorFromMessage | dse/ncodec/libs/automotive-bus/pdu_fbs.c:429-445 | entering the vector of the message leaves the queue as it was |
| Codec.ScanVector | dse/ncodec/libs/automotive-bus/frame_can_fbs.c:161-172 | skips exactly the elements that are absent, of another type or the reader's own |
| Codec.Codec.NextElement | dse/ncodec/libs/automotive-bus/frame_can_fbs.c:161-189 | takes the next wanted element of the vector off the queue, or nothing wanted is left in it |
| Codec.Codec.Read | dse/ncodec/libs/automotive-bus/frame_can_fbs.c:144-198 | returns and removes the head of the queue; -ENOMSG exactly when it is empty; terminates; a reader that fails is drained if and only if no message without a vector was in its way; a reader stays behind an element it delivered, in no message, or stuck; the message that holds the first wanted element is the last one entered |
| Codec.Codec.ReadAll | modelica/fmi-ls-bus-topology/code/example/fmu.c:211-215 | reading to -ENOMSG terminates, delivers the whole queue in order, and leaves the codec drained if and only if no message without a vector was in its way |
| Codec.QueueWanted | dse/ncodec/libs/automotive-bus/frame_can_fbs.c:163-172 | nothing of another type and nothing of one's own is ever in the queue |
| Codec.TruncateLeaves | dse/ncodec/libs/automotive-bus/pdu_fbs.c:522-532 | right after a truncation exactly the rest of the current vector is still to be delivered |
| Codec.TruncateIff | dse/ncodec/libs/automotive-bus/frame_can_fbs.c:219-229 | a truncated codec delivers exactly what is written from then on, whatever that is, if and only if msg_ptr is NULL or vector is set with vector_idx == vector_len |
| Codec.StuckIsNotFresh | dse/ncodec/libs/automotive-bus/pdu_fbs.c:440-458 | a codec stuck on a message without a vector, truncated, delivers nothing of a message written in front of that place |
| Codec.DeliveredTwice | dse/ncodec/libs/automotive-bus/pdu_fbs.c:522-532 | nothing wanted left at truncation is not enough: standing on its own last element, the reader is truncated, and of the next message of that size delivers the last element twice |
| Codec.StepMeans | dse/ncodec/libs/automotive-bus/frame_can_fbs.c:56-83 | a write adds its element, and a flush nothing, to what others will read |
| Codec.RunMeans | dse/ncodec/libs/automotive-bus/frame_can_fbs.c:17-83 | over a whole run of writes and flushes within capacity, what others will read grows by the elements written |
| Codec.FlushPlacement | dse/ncodec/libs/automotive-bus/frame_can_fbs.c:201-216 | runs with the same writes and any flushes in between deliver the same elements to any reader |
| Can.CanSchemaValid | dse/ncodec/libs/automotive-bus/README.md:22-23 | a concrete layout with the identifier SFRA reads back every vector of frames |
| Can.CanTruncation | dse/ncodec/libs/automotive-bus/frame_can_fbs.c:219-229 | in every state calls of can_read leave, a truncated codec delivers exactly what is written from then on if and only if msg_ptr is NULL or the vector is at its end |
| Can.StaleFrames | dse/ncodec/libs/automotive-bus/frame_can_fbs.c:219-229 | writing, flushing, reading one frame and truncating through the codec: with the stream empty all other frames of the message are still delivered |
| Can.CanWrite | dse/ncodec/libs/automotive-bus/frame_can_fbs.c:66-82 | the new last element is a frame with the message's id, type and payload and the codec's bus, node and interface ids, each in its field; the length is returned |
| Can.CanRead | dse/ncodec/libs/automotive-bus/frame_can_fbs.c:144-198 | hands over each field of the frame at the head of the queue, never an own frame; on -ENOMSG the message is empty and keeps its id and sender |
| Pdu.PduWrite | dse/ncodec/libs/automotive-bus/pdu_fbs.c:207-257 | the emitted tables join the batch and the payload length is returned |
| Pdu.EmitFields | dse/ncodec/libs/automotive-bus/pdu_fbs.c:56-65 | pdu_write puts each field of a PDU, of its CAN and of its struct metadata into the field of that name, and defaults the ids |
| Pdu.EmitIpFields | dse/ncodec/libs/automotive-bus/pdu_fbs.c:67-163 | and each field of IP metadata, of its address and of its adapter |
| Pdu.PduBuffer.DecodeIp | dse/ncodec/libs/automotive-bus/pdu_fbs.c:334-369 | all scalars are overwritten, the address and the adapter only if the message carries them, and otherwise stay as whatever PDU left them |
| Pdu.PduBuffer.PduRead | dse/ncodec/libs/automotive-bus/pdu_fbs.c:447-501 | removes the head of the queue and writes it over the buffer; without a transport in the message the old one stays as it was, and so do address and adapter under reads that do not carry them; on -ENOMSG only the payload is cleared |
| Pdu.RoundTrip | dse/ncodec/libs/automotive-bus/pdu_fbs.c:112-257 | every PDU of every transport comes back in a zeroed buffer, with swc_id and ecu_id defaulted from the sender |
| Pdu.ReusedBuffer | dse/ncodec/libs/automotive-bus/pdu_fbs.c:470-487 | in any buffer the PDU comes back if and only if the transport type, the address tag or the adapter tag that it does not set was none |
| Pdu.Leftovers | dse/ncodec/libs/automotive-bus/pdu_fbs.c:260-387 | after any sequence of reads the address is that of the last message that carried one, but for what the last struct message since wrote over it, and the adapter that of the last message that carried one, whatever lies between |
| Pdu.TransportLeft | dse/ncodec/libs/automotive-bus/pdu_fbs.c:477-487 | after any sequence of reads into any buffer, transport type and every field are those of the last message that carried a transport |
| Pdu.OverlaidWords | dse/ncodec/libs/automotive-bus/pdu_fbs.c:371-387 | which words of an IPv4 and of an IPv6 address a struct message overwrites, and with what |
| Pdu.ReadBehind | dse/ncodec/libs/automotive-bus/pdu_fbs.c:447-487 | read behind any sequence into one buffer, a PDU comes back if and only if it lacks no transport, address or adapter that one of those carried |
| Pdu.OneBufferIff | dse/ncodec/libs/automotive-bus/pdu_fbs.c:447-501 | a sequence read through one buffer is seen as through zeroed ones if and only if no PDU lacks a part an earlier one had |
| Pdu.WriteFlushRead | dse/ncodec/libs/automotive-bus/pdu_fbs.c:447-519 | a flushed list of PDUs is read by another codec as the same list with ids defaulted, less those of the reader's own swc_id: always into zeroed buffers, into a single one exactly when no PDU lacks a part an earlier one had |
| PduLayout.PduSchemaValid | dse/ncodec/libs/automotive-bus/README.md:22-23 | a concrete layout with the identifier SPDU reads back every vector of PDUs with any transport, nested unions and absent strings |
| PduLayout.Exchange | dse/ncodec/libs/automotive-bus/pdu_fbs.c:207-519 | written, flushed and read through one NCodecPdu, PDUs come out as the leftovers say, and as sent with ids defaulted less the reader's own exactly when none left lacks a part that an earlier one had |
| PduLayout.PduTruncation | dse/ncodec/libs/automotive-bus/pdu_fbs.c:522-532 | a codec truncated in a message pdu_write made delivers exactly what is written from then on if and only if msg_ptr is NULL or the vector is at its end |
| PduLayout.PduDeliveredTwice | dse/ncodec/libs/automotive-bus/pdu_fbs.c:522-532 | with the reader's own PDU last at truncation, the second PDU of the next message of two is delivered before the first and again after it |
| PduLayout.MixedStream | dse/ncodec/libs/automotive-bus/pdu_fbs.c:389-427 | frames and PDUs in one stream, in either order: each reader delivers its own kind completely |
| Topology.KeysDistinct | modelica/fmi-ls-bus-topology/code/bus_topology.c:106-108 | keys of numbers below 10^10, so of all value references, are not cut and not shared |
| Topology.KeysCollide | modelica/fmi-ls-bus-topology/code/bus_topology.c:189-190 | the key of the 10^10th buffer is cut to that of an earlier one |
| Topology.KeysDistinctIff | modelica/fmi-ls-bus-topology/code/bus_topology.c:188-190 | the keys of the first n buffers are all different if and only if n is at most 10^10 |
| Topology.FreeListHolds | modelica/fmi-ls-bus-topology/code/bus_topology.c:188-190 | filed under the growing node count, each buffer sits under its own key up to 10^10 of them; after that the key of 10^9 holds only the last; nothing else is in the list |
| Topology.HeldOnce | modelica/fmi-ls-bus-topology/code/bus_topology.c:188-190 | every buffer filed is held under exactly one key, or under none, never under two |
| Topology.ReceivedData | modelica/fmi-ls-bus-topology/code/bus_topology.c:113-126 | a received value is appended whole or dropped whole, and the stream is read from its start |
| Topology.TextTransport | modelica/fmi-ls-bus-topology/code/bus_topology.c:167-186 | a stream encoded by one topology and decoded by another is appended byte for byte |
| Topology.TruncatesWhenEffective | modelica/fmi-ls-bus-topology/code/bus_topology.c:217-225 | in any run a reset truncates exactly if it is the first after creation or after a tx |
| Topology.StreamSinceReset | modelica/fmi-ls-bus-topology/code/bus_topology.c:102-225 | in any run the stream is the values received since the last effective reset, in call order, without those that did not fit |
| Topology.BusTopology.Add | modelica/fmi-ls-bus-topology/code/bus_topology.c:67-74 | the bus and its annotated variables lead to the codec, and all others lead where they did |
| Topology.BusTopology.Rx | modelica/fmi-ls-bus-topology/code/bus_topology.c:102-127 | the indexed stream receives the value as it is, or decoded if configured, at its end if it fits, and is at its start; by its frame no other stream or object changes; each stream takes the step of its event |
| Topology.BusTopology.Tx | modelica/fmi-ls-bus-topology/code/bus_topology.c:155-191 | a fresh buffer holds the whole stream as it is, or encoded if configured; the stream stays as it is but at its end; the buffer is filed for release; a reset is pending even for an unknown variable, and each stream takes the step of its event |
| Topology.BusTopology.SaveForFree | modelica/fmi-ls-bus-topology/code/bus_topology.c:188-190 | the buffer is added under a key of its own |
| Topology.BusTopology.ReleaseAll | modelica/fmi-ls-bus-topology/code/bus_topology.c:222-223 | clearing the list frees the buffer of each key; no buffer is ever freed twice, and all handed out are freed if and only if they are at most 10^10 |
| Topology.BusTopology.Reset | modelica/fmi-ls-bus-topology/code/bus_topology.c:217-225 | once per cycle every codec of the topology is truncated, its parsing state untouched, and the buffer under each key of the free list is released |
| Topology.BusTopology.Destroy | modelica/fmi-ls-bus-topology/code/bus_topology.c:247-260 | the buffer under each key of the free list is released |
| Topology.BusTopology.DoAll | modelica/fmi-ls-bus-topology/code/bus_topology.c:102-225 | any sequence of reset, rx and tx calls takes the stream of every codec through the run of its events, which the two lemmas on runs describe |
| Fmu.Fmu.constructor | modelica/fmi-ls-bus-topology/code/example/fmu.c:139-156 | an FMU starts with an empty stream, a codec in no message and a reset pending |
| Fmu.Fmu.SetString | modelica/fmi-ls-bus-topology/code/example/fmu.c:175-190 | at most one truncation, then the indexed non-NULL values are received in call order; the parsing state stays |
| Fmu.InputOfOne | modelica/fmi-ls-bus-topology/code/example/fmu.c:185-188 | a value is received if it is not NULL and its variable is indexed, and decoded if configured |
| Fmu.InputsConcat | modelica/fmi-ls-bus-topology/code/example/fmu.c:185-188 | values are received in the order of the call |
| Fmu.Fmu.DoStep | modelica/fmi-ls-bus-topology/code/example/fmu.c:195-225 | delivers all that the codec had to deliver, leaves one message of the stamped frames, and a drained codec if and only if no message without a vector was in the way |
| Fmu.Fmu.ReadFrames | modelica/fmi-ls-bus-topology/code/example/fmu.c:209-216 | reads the whole queue and then truncates; the truncated codec is drained if and only if no message without a vector was in the way |
| Fmu.Fmu.GetString | modelica/fmi-ls-bus-topology/code/example/fmu.c:158-173 | every tx variable gets the whole stream, encoded if configured, any other gets NULL, and the stream keeps its data |
| Network.WiredInputs | modelica/fmi-ls-bus-topology/code/example/fmu.c:185-188 | rx variables wired to other FMUs bring exactly the decoded outputs of those FMUs |
| Network.ActionSimulates | modelica/fmi-ls-bus-topology/code/example/fmu.c:158-225 | each call delivers the same frames, and leaves a matching state, in the network of bytes and in the network of frames |
| Network.RunSimulates | modelica/fmi-ls-bus-topology/code/example/fmu.c:158-225 | every run, in any order of calls and with any drops, delivers what the network of frames delivers |
| Network.AlwaysCallable | modelica/fmi-ls-bus-topology/code/example/fmu.c:158-225 | in every state of every run each stream holds only clean messages ahead and each output is a well-formed text, so no call meets a reader that could get stuck or a text it cannot decode |
| Network.FreshMeans | modelica/fmi-ls-bus-topology/code/example/fmu.c:139-156 | new FMUs match empty boxes |
| Importer.Run | modelica/fmi-ls-bus-topology/code/example/fmu.c:158-225 | any sequence of calls on FMU objects, in any order, delivers what the network of states delivers |
| Lockstep.CycleDelivers | modelica/fmi-ls-bus-topology/code/example/fmu.c:158-225 | one cycle, in any order within each phase, delivers the previous steps' frames of all sources but oneself and publishes this step's |
| Lockstep.NetworkSafety | modelica/fmi-ls-bus-topology/code/example/fmu.c:158-225 | from new FMUs with distinct non-zero ids and messages that fit, every step of every cycle reads exactly what its sources other than itself wrote in the step before, in input order then write order |
| Lockstep.ExactlyOnce | modelica/fmi-ls-bus-topology/code/bus_topology.c:102-225 | with each source wired once, the frames read from FMU j are all that j wrote, once and in order, for every source j but oneself, and none otherwise |
| Importer.RunCycles | modelica/fmi-ls-bus-topology/code/example/fmu.c:139-225 | FMU objects created and run in lockstep return from every step exactly the frames their sources other than themselves wrote in the step before |
| Mime.Strtok | dse/ncodec/libs/automotive-bus/codec.c:197-208 | the next maximal run without a delimiter, and NULL when only delimiters are left |
| Mime.TokensCut | dse/ncodec/libs/automotive-bus/codec.c:197-208 | tokens are non-empty, hold no ';' or blank, have one between them, and every other character of the text belongs to one |
| Mime.Trim | dse/ncodec/libs/automotive-bus/codec.c:30-41 | the two loops take white space off the left and then the right end |
| Mime.TrimIsTight | dse/ncodec/libs/automotive-bus/codec.c:34-39 | what is taken off is white space at the ends, all of it, and nothing in between |
| Mime.SplitMeans | dse/ncodec/libs/automotive-bus/codec.c:209-217 | a token is a parameter if and only if it has an '=', the first of which ends the name; both sides are trimmed |
| Mime.ParamsConcat | dse/ncodec/libs/automotive-bus/codec.c:208-218 | parameters are read token by token, and a token without an '=' is none |
| Mime.LastMeans | dse/ncodec/libs/automotive-bus/codec.c:61-81 | a name has the value it was given last |
| Mime.AbCodec.Config | dse/ncodec/libs/automotive-bus/codec.c:61-121 | a known name takes the value, text and number, all others keep theirs; an unknown one is refused |
| Mime.AbCodec.Stat | dse/ncodec/libs/automotive-bus/codec.c:124-178 | indexes 0 to 8 give the parameters in table order, any other gives -1 and NULL |
| Mime.StatAll | dse/ncodec/libs/automotive-bus/codec.c:124-178 | enumerating to the index -1 gives all nine parameters in table order |
| Mime.Configure | dse/ncodec/libs/automotive-bus/codec.c:206-218 | each parameter ends up with the last value given for it |
| Mime.NcodecCreate | dse/ncodec/libs/automotive-bus/codec.c:190-283 | succeeds if and only if the first token begins with the codec name, interface is stream, schema is fbs and type is pdu, or frame with bus can; then dispatches by type |
| Mime.CreateCan | modelica/fmi-ls-bus-topology/code/example/fmu.c:133-137 | the MIME type of the example FMU gives a CAN codec with ids 1, 2 and 3 |
| Mime.CreatePdu | dse/ncodec/libs/automotive-bus/tests/test_codec.c:366-368 | that of the PDU tests gives a PDU codec with swc_id 4 and ecu_id 5 |
| Mime.PrintParse | dse/ncodec/libs/automotive-bus/codec.c:190-218 | the parameters parsed from any printed list, behind any delimiters, are that list |
| Mime.CreatePrinted | dse/ncodec/libs/automotive-bus/codec.c:124-283 | a codec is created from any printed parameters if and only if their last values pass the guards, and codec_stat then enumerates those last values |
| Mime.IdMeans | dse/ncodec/libs/automotive-bus/codec.c:82-116 | an id is read behind white space and sign up to the first non-digit, clamped to 64 bits or negated, and stored modulo 256 |
| Mime.IdRoundTrip | dse/ncodec/libs/automotive-bus/codec.c:95-99 | an id printed in decimal is stored as that uint8 |

## Left out

- FlatBuffers internals and the exact byte layout of bodies: generated code that is not part of this model; `Schema` stands for it. `Can.CAN` and `PduLayout.PDU` are concrete layouts, not that of FlatBuffers.
- XML parsing in `parser.c`: the annotated variables and their encodings are parameters of `Topology.BusTopology.Add`.
- The hash map library: Dafny maps; a key set again replaces its pointer, which the list then no longer releases. The wrappers, tracing and loading of `dse/ncodec/codec.c`: not modelled.
- Allocation failure, NULL arguments and their error codes, a codec without a stream: not modelled; references are non-null.
- Ascii85.Encode: sizes are unbounded, so overflow of the C `int` sizes for texts near 2 GB is not modelled.
- Ascii85.Decode: texts with characters outside the alphabet or a `z` inside a group are outside its precondition.
- Streams.BufferStream.Write: `pos + len` is unbounded, so its wrap-around for lengths near 2^64 is not modelled; the same holds for the sum in a relative seek.
- Streams.RunRefines: leaves out seek operation 42, which exposes stale bytes no file has; the stream's bounds are kept by it too.
- Codec.Codec.Read: requires the unread stream to be framed as messages of at least eight bytes; a prefix that points past the data is outside it. Payloads are handed over as values, so a payload pointer kept by the caller after the buffer is overwritten is not modelled. The vector pointer is the vector of the bytes at msg_ptr as they are now, and an index past its end is an absent element, where C would follow an old offset into whatever the bytes have become.
- Fmu.Fmu.DoStep: the unread stream must be framed, as for `Codec.Codec.Read`; in a network of these FMUs it always is, by `Network.AlwaysCallable`. Any list of frames is written where the example writes one.
- Fmu.Fmu.constructor: the bus id is given, so the case of a codec without one, which gets no topology, is not modelled.
- Fmu.Fmu.GetString: the texts are values; that a text must be copied before the reset that frees it is not stated.
- Pdu.PduBuffer.PduRead: where the members of the transport union overlap is that of a 64-bit little-endian layout with natural alignment; the pointers that a struct message writes are parameters. Padding bytes are taken to stay.
- Network.RunSimulates: output variables are encoded and input variables decoded with ascii85; values passed as raw binary, which `strlen` would cut, are not part of it.
- Mime.NcodecCreate: requires a token in the MIME type, since the code passes NULL to `strncmp` otherwise. strtok_r is modelled by positions, not by writing NULs into the copy.
- The example codec and streams, instantiation and logging of the FMU: they would only add easy members.
