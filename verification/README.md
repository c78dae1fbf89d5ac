# The AMQP 0-9-1 client library, modelled and proved

This project models the bundled client library (rabbitmq-c 0.11, under
`BackendC/librabbitmq`) and proves what it is for: what one side publishes, the
other side reads, through a wire format, a parser fed with arbitrary chunks, a
frame queue shared by all channels, and memory pools that are recycled while
frames are still around.

`dafny verify dfyconfig.toml` checks everything.

| files | what they model |
|---|---|
| `Bytes`, `Statuses` | big-endian integers, byte strings standing in a buffer, the status codes |
| `FieldTable`, `TableCodec` | field tables and arrays (section 4.2.5.5 of the AMQP 0-9-1 specification): values, wire form, decoding; the encoder and decoder over byte arrays with back-patched lengths |
| `Generator` | the code generator's bit-packing emitters (sections 4.2.4 and 4.2.5.2), the statements they emit and what those statements do, for any list of field types |
| `ContentHeader` | chained flag words and property lists (section 4.2.6.1) |
| `Frames`, `FrameParser`, `InboundParser` | frames (section 4.2.3), the four-state incremental parser as a function with a byte-by-byte reference parser beside it, and as methods over the connection's buffers |
| `FrameQueue`, `Demux`, `Sending`, `Rpc`, `Messages` | the linked queue, waiting for frames, partial sends, calls and replies, publishing and reading messages |
| `EndToEnd` | published, mixed with other channels, cut up, parsed, queued and read back |
| `Pool`, `Lifetimes` | the page allocator, and which memory is in use over whole runs of a connection |
| `DeepCopy`, `Merge` | copying a table into a pool, and merging capability tables |
| `CommandLine`, `Url` | the Windows command-line quoter with the parser it inverts, and the URL parser that works in place |

Code that works step by step is a method over arrays or over a class with the
source's fields, proved against a specification function; what the library
promises is then proved about those functions. A connection's future is a
script: what each receive and each send meets. A stream of frames still to come
(`Connection.Stream`) is what the reference parser makes of the bytes buffered
and all bytes that will arrive, so every reading method can say exactly which
frames it took and that the others are still there.

What the proofs found, beyond what holds:

- The first frame on a new connection loses its eighth byte: INITIAL collects
  eight bytes and seven are carried over (`InitialZeroesEighthByte`). It is
  parsed right if and only if that byte is zero (`FirstFrameExactly`): method
  ids below 2^24, class ids below 256, a fragment that begins with a zero, and
  never a heartbeat. Stream theorems start in IDLE.
- A header that is refused because it announces more than `frame_max` has already
  set the length to collect, so a later call collects behind the header buffer;
  it stays inside if and only if no more bytes follow than the buffer has left,
  one in HEADER and none in INITIAL (`CallAgainExactly`, `CallsAgainExactly`;
  `LongHeaderRunsOver` is an instance). All else that is proved about memory
  holds for runs without such a call (`NoDanglingMemory`).
- A message whose headers table has an empty key, at any depth, is published,
  sent and parsed, but cannot be read: the copy of its properties refuses it
  (`ReadPublished`, `HeaderCopies`; `NamelessHeaderRefused` is an instance).
- A table survives the wire if and only if all its kinds are known and its keys
  have at most 255 bytes (`TableRoundTrip`); longer keys are written whole with
  their length cast to eight bits (`LongKeyIsLost`). The header file speaks of
  keys of up to 128 bytes (`amqp.h` line 416); the code does not check that.
- A table that does not fit gets AMQP_STATUS_BAD_AMQP_DATA instead of the
  documented AMQP_STATUS_TABLE_TOO_BIG if and only if the room ends just before
  a kind byte, or in the length in front of an array's first item
  (`TooBigExactly`, `ValueStatusExact`).
- Flag bits 0 and 16 are not carried: a flag word survives unchanged only under
  the condition of `EchoExact`.
- A match found inside the queue drops every frame queued ahead of it, so
  waiting on one channel loses frames of others (`WaitOnChannel`), though never
  of its own (`WaitRepeatedly`), and none while none of its own is queued
  (`NoneLost`).
- `amqp_try_recv` queues heartbeats like any other frame (`TryRecv`).
- Merging two empty tables fails for want of memory (`MergeIsOverlay`), and so
  does copying an empty array that has an entry pointer (`CloneStatusMeans`).
- A key given twice in `add` makes the merge follow a null pointer, or read what
  is no table as one, exactly where a table falls on a table that base does not
  have (`WildExactly`); otherwise the last entry wins, merged with base's table
  and not with the one it replaces (`LastEntryWins`).
- The recycling guard is stricter than needed only in that it waits for the
  parser to rest on every channel; on the channel itself it is exactly what
  safety takes (`RecycleSafeIff`).

Where the comment table of `amqp.h` and its enumeration of kinds differ, the
enumeration is followed.

## Model

| member | source | states |
|---|---|---|
| `EndToEnd.ReadPublished` | BackendC/librabbitmq/librabbitmq/amqp_consumer.c:195-299 | An idle reader to which the laid-out frames of a published message, mixed with any frames of other channels, arrive in any chunks, with any first part of the message already queued, returns exactly that message if its headers table has no empty key at any depth, and AMQP_STATUS_INVALID_PARAMETER otherwise; the channel's later frames are still to come, and other channels lose only frames that were queued ahead of the message's |
| `EndToEnd.PublishAndRead` | BackendC/librabbitmq/librabbitmq/amqp_api.c:190-278 | When publishing succeeds and the headers table survives the wire, a reader on any channel to which the content is passed on, among any frames of other channels and in any chunks, returns exactly that message, or AMQP_STATUS_INVALID_PARAMETER for an empty key |
| `EndToEnd.PublishDeliverable` | BackendC/librabbitmq/librabbitmq/amqp_api.c:190-278 | The frames of a successful publish can all be delivered if and only if the tables of its arguments and its flagged properties survive the wire |
| `EndToEnd.RelayDeliverable` | BackendC/librabbitmq/librabbitmq/amqp_api.c:228-276 | The content of a successful publish can be delivered on any channel, if its flagged tables survive the wire |
| `EndToEnd.MessageArrives` | BackendC/librabbitmq/librabbitmq/amqp_api.c:190-278 | For every queue and every sequence of deliverable frames whose share on a channel, taken together, begins with a message's frames: the share of queue and parsed stream makes up that message and leaves what follows it, unless the reader refuses its properties |
| `EndToEnd.ConsumePublished` | BackendC/librabbitmq/librabbitmq/amqp_consumer.c:135-193 | An idle reader to which a laid-out delivery and its message arrive, among frames of other channels and in any chunks, with any first part already queued, gets the delivery's arguments as envelope and exactly that message, or AMQP_STATUS_INVALID_PARAMETER for an empty key |
| `EndToEnd.DeliveryArrives` | BackendC/librabbitmq/librabbitmq/amqp_consumer.c:135-193 | What was sent is parsed into a queue and stream that begin with the delivery, and whose share behind it makes up the message, unless the reader refuses its properties |
| `EndToEnd.BodyReassembles` | BackendC/librabbitmq/librabbitmq/amqp_consumer.c:261-296 | Fragments of a body of any length, cut at any frame size, make up exactly the body, and what follows them on the channel is left |
| `EndToEnd.MessageReassembles` | BackendC/librabbitmq/librabbitmq/amqp_consumer.c:195-299 | Header and fragments on a channel are the message, with the flags echoed and the flagged properties, and what follows is left; or the header decides that the message is refused |
| `EndToEnd.HeaderCopies` | BackendC/librabbitmq/librabbitmq/amqp_consumer.c:36-114 | Copying the properties that arrived fails exactly when the published headers table has an empty key or unknown kind, and otherwise the copy equals what was published, with zero for members not set, whatever memory they were read into |
| `EndToEnd.WireParses` | BackendC/librabbitmq/librabbitmq/amqp_connection.c:237-413 | Any deliverable frames laid out one after another are parsed from IDLE into exactly those frames, and leave the parser idle |
| `EndToEnd.ArrivedOn` | BackendC/librabbitmq/librabbitmq/amqp_socket.c:771-834 | Parsing, dropping heartbeats and sorting by channel commute: a channel's share of what arrives is what its frames sent alone would give |
| `EndToEnd.ContentArrives` | BackendC/librabbitmq/librabbitmq/amqp_api.c:228-276 | A message's header and body frames arrive as its header item followed by its body items |
| `EndToEnd.BodyArrives` | BackendC/librabbitmq/librabbitmq/amqp_api.c:244-276 | A body's fragments arrive as body items with the same bytes |
| `EndToEnd.WaitRepeatedly` | BackendC/librabbitmq/librabbitmq/amqp_socket.c:897-935 | Waiting on one channel again and again delivers exactly that channel's frames, in order of arrival, from any starting queue and any interleaving; if everything arrives, as many as are asked for and there; however it ends, other channels lose only frames that were queued ahead of one delivered, and the others read meanwhile are queued in order |
| `EndToEnd.NamelessHeaderRefused` | BackendC/librabbitmq/librabbitmq/amqp_table.c:583-586 | A message with one header whose name is empty: its frame can be sent and is parsed, and the reader refuses it |
| `Messages.BasicPublish` | BackendC/librabbitmq/librabbitmq/amqp_api.c:190-278 | The peer has been given a first part of the laid-out publish, header and body frames in order, and exactly all of it when publishing succeeds, which it does only if each of them can be laid out within frame_max; frames received meanwhile are queued, none lost |
| `Messages.SendBody` | BackendC/librabbitmq/librabbitmq/amqp_api.c:244-276 | The fragment loop gives the peer a first part of the body's fragments, full ones of frame_max - 8 bytes and then what is left, and exactly all of them, each fitting a frame, on success |
| `Messages.FragmentsJoin` | BackendC/librabbitmq/librabbitmq/amqp_api.c:244-276 | The fragments joined are the body, and each is nonempty, on the channel, and fits a frame |
| `Messages.ReadBody` | BackendC/librabbitmq/librabbitmq/amqp_consumer.c:261-299 | From any queue: reading returns a body exactly as the first frames of the channel's share of queue and stream make one up, and leaves the rest of the share; it succeeds whenever there is such a body and all data arrives; other channels lose only frames that were queued ahead of the body's |
| `Messages.ReadFragment` | BackendC/librabbitmq/librabbitmq/amqp_consumer.c:264-296 | One pass of the body loop copies the channel's next fragment behind the body so far and keeps the rest of the body ahead; it does so whenever the share makes up the body and all data arrives |
| `Messages.AwaitFragment` | BackendC/librabbitmq/librabbitmq/amqp_consumer.c:264-292 | The channel's next frame is a fragment that the message has room for, which leaves the rest of the body to be taken, or the message fails |
| `Messages.CopyProperties` | BackendC/librabbitmq/librabbitmq/amqp_consumer.c:36-114 | The properties copied: flagged members, zero for the rest; refused for a headers table that cannot be cloned, and reading beyond the structure when the header was of another class than basic |
| `Messages.ReadContent` | BackendC/librabbitmq/librabbitmq/amqp_consumer.c:234-299 | From a header frame on: properties, then body, are the message exactly as the channel's share makes it up; refused properties end the call with their status |
| `Messages.ReadMessage` | BackendC/librabbitmq/librabbitmq/amqp_consumer.c:195-299 | amqp_read_message, from any queue: the message is exactly what the first frames of the channel's share make up, the rest of the share is left, and it is read whenever it is there and all data arrives; a refusal has the status that the first frame calls for, and after a frame reported as unexpected the channel's share is what it was |
| `Messages.RefuseFrame` | BackendC/librabbitmq/librabbitmq/amqp_consumer.c:217-232 | A close is reported to the caller; any other frame is put back ahead of everything queued, and is the first of its channel's share again |
| `Messages.ConsumeMessage` | BackendC/librabbitmq/librabbitmq/amqp_consumer.c:135-193 | The first frame in queue and stream must be a delivery, whose arguments go to the envelope, and the message is read from its channel, always when it is there and all data arrives; a refusal has the status that the channel's next frame calls for; any other first frame is reported, always when all data arrives, and put back, so that queue and stream together are unchanged |
| `Rpc.SimpleRpc` | BackendC/librabbitmq/librabbitmq/amqp_socket.c:1040-1120 | The send step only appends to the queue. When a reply is returned, the whole request was sent, the reply is the first frame of the stream after that which satisfies the match condition, and the queue is the one the send step left followed by exactly the frames read before, in order; without a reply all frames read were queued, and the peer holds a first part of the request |
| `Rpc.AwaitReply` | BackendC/librabbitmq/librabbitmq/amqp_socket.c:1056-1113 | The retry loop takes the first reply of the stream; frames read before it are appended to the queue, none lost or duplicated; without a reply all frames read were queued, also when the stream breaks off |
| `Rpc.ReadReply` | BackendC/librabbitmq/librabbitmq/amqp_socket.c:1060-1113 | One pass: the next frame is read, and queued unless it satisfies the match condition |
| `Sending.Socket.TrySend` | BackendC/librabbitmq/librabbitmq/amqp_socket.c:282-308 | Whatever the pattern of short writes, the peer has been given exactly the first part of the buffer that is counted; a count short of the whole means a timeout or a failure |
| `Sending.SendEncoded` | BackendC/librabbitmq/librabbitmq/amqp_connection.c:558-595 | Through every pattern of short writes, retries and timeouts the peer holds a prefix of the frame, and the whole frame exactly once on success; queue and stream together stay the same frames |
| `Sending.SendFrame` | BackendC/librabbitmq/librabbitmq/amqp_connection.c:545-595 | A frame that cannot be encoded is not sent and gets its exact status; otherwise the peer is given a first part of its layout, and on success exactly the layout, once |
| `Sending.TryRecv` | BackendC/librabbitmq/librabbitmq/amqp_socket.c:722-762 | Every complete frame in the buffer, heartbeats included, goes to the end of the queue behind what was queued, until the buffer is drained or the stream broken; queue and stream together stay the same sequence |
| `Sending.TryRecvOne` | BackendC/librabbitmq/librabbitmq/amqp_socket.c:725-761 | One pass appends at most one frame, the stream's next, to the queue |
| `Demux.Connection.ConsumeOneFrame` | BackendC/librabbitmq/librabbitmq/amqp_socket.c:662-679 | One call takes exactly one step along the stream: its item, if any, is the stream's first, and the rest of the stream is unchanged |
| `Demux.ConsumeStep` | BackendC/librabbitmq/librabbitmq/amqp_socket.c:662-679 | A parser call on the bytes at hand is a step of the byte-by-byte reference parser on those bytes and everything later |
| `Demux.Connection.RecvWithTimeout` | BackendC/librabbitmq/librabbitmq/amqp_socket.c:681-720 | Receiving moves the next chunk into the empty buffer and leaves the stream of frames to come as it was |
| `Demux.Connection.WaitFrame` | BackendC/librabbitmq/librabbitmq/amqp_socket.c:771-834 | The next frame of the stream that is not a heartbeat is returned, no other frame is lost, and it is returned whenever it is there and all data arrives |
| `Demux.Connection.ReadUntil` | BackendC/librabbitmq/librabbitmq/amqp_socket.c:922-934 | The first frame of the channel in the stream is returned, and every frame read before it is queued in order |
| `Demux.Connection.WaitOnChannel` | BackendC/librabbitmq/librabbitmq/amqp_socket.c:897-935 | A match in the queue is returned and everything ahead of it is lost; otherwise the stream's first frame of the channel is returned and none is lost |
| `Demux.Connection.SimpleWaitFrame` | BackendC/librabbitmq/librabbitmq/amqp_socket.c:942-963 | The first frame of queue and stream, in that order, is taken and nothing else changes |
| `Demux.WaitOnce` | BackendC/librabbitmq/librabbitmq/amqp_socket.c:897-935 | One wait delivers the first frame of the channel's share of queue and stream and leaves the rest of the share, whenever there is one and all data arrives; however it ends, other channels lose only frames that were queued ahead of one delivered, and the others read meanwhile are queued in order |
| `Demux.OneWait` | BackendC/librabbitmq/librabbitmq/amqp_socket.c:897-935 | Both ways of answering, out of the queue and off the stream, take the first frame of the channel's share and nothing else from it |
| `Demux.DeliveredMoves` | BackendC/librabbitmq/librabbitmq/amqp_socket.c:922-934 | A frame delivered off the stream leaves the other channels' frames read before it at the end of the queue, in order, and takes nothing from them |
| `Demux.StillMoves` | BackendC/librabbitmq/librabbitmq/amqp_socket.c:922-934 | So do frames read in vain |
| `Demux.MovedTwice` | BackendC/librabbitmq/librabbitmq/amqp_socket.c:897-935 | Waits one after another are such a step again, delivered or still waiting: other channels' frames are queued in order, and lost only ahead of a frame taken out of the queue |
| `Demux.NoneLost` | BackendC/librabbitmq/librabbitmq/amqp_socket.c:897-935 | So with no frame of the channel queued, the frames of other channels in queue and stream are the same before and after, in the same order |
| `Demux.RelevantConcat` | BackendC/librabbitmq/librabbitmq/amqp_socket.c:785-788 | Dropping heartbeats distributes over concatenation of streams |
| `FrameQueue.Queue.Enqueue` | BackendC/librabbitmq/librabbitmq/amqp_socket.c:861-877 | The linked queue, as a sequence, gets the frame at its end; first is null exactly when last is, and last is the reachable tail |
| `FrameQueue.Queue.Append` | BackendC/librabbitmq/librabbitmq/amqp_socket.c:743-760 | The append written out by amqp_try_recv and simple_rpc_inner, which test the other pointer, has the same effect |
| `FrameQueue.Queue.PutBack` | BackendC/librabbitmq/librabbitmq/amqp_socket.c:879-895 | The frame becomes the first of the sequence and the pointers stay consistent |
| `FrameQueue.Queue.Dequeue` | BackendC/librabbitmq/librabbitmq/amqp_socket.c:952-959 | The first frame is taken off and the pointers stay consistent |
| `FrameQueue.Queue.DropThrough` | BackendC/librabbitmq/librabbitmq/amqp_socket.c:908-911 | The queue becomes what follows the link, also when nothing follows |
| `FrameQueue.Queue.TakeOn` | BackendC/librabbitmq/librabbitmq/amqp_socket.c:905-920 | Finds the first frame of the channel exactly when there is one, takes it, and drops everything ahead of it; without one nothing changes |
| `FrameParser.ChunkingIndependence` | BackendC/librabbitmq/librabbitmq/amqp_connection.c:237-413 | Any two ways of cutting the same stream into calls give the same frames, the same first failure and the same final state, and counts that add up to the stream when nothing fails |
| `FrameParser.FeedAllIsScan` | BackendC/librabbitmq/librabbitmq/amqp_connection.c:237-413 | Feeding any chunks, call after call, is the byte-by-byte reference parser on their concatenation |
| `FrameParser.FeedIsScan` | BackendC/librabbitmq/librabbitmq/amqp_connection.c:237-413 | Calls on one chunk, each starting where the last one stopped, are the reference parser on that chunk and consume it whole |
| `FrameParser.CallRefinesBytes` | BackendC/librabbitmq/librabbitmq/amqp_connection.c:237-413 | One call is the reference parser on exactly the bytes it consumed |
| `FrameParser.ScanConcat` | BackendC/librabbitmq/librabbitmq/amqp_connection.c:237-413 | The reference parser on a concatenation goes on from where it stopped |
| `FrameParser.InitialZeroesEighthByte` | BackendC/librabbitmq/librabbitmq/amqp_connection.c:265-319 | The first frame on a new connection is parsed as if its eighth byte were zero: INITIAL collects eight bytes and seven are carried over |
| `FrameParser.FirstFrameExactly` | BackendC/librabbitmq/librabbitmq/amqp_connection.c:265-319 | So a frame that would be parsed from IDLE is parsed first on a new connection if and only if its method id is below 2^24, its class id below 256, or its fragment begins with a zero byte; never without a payload |
| `FrameParser.FirstHeartbeatFails` | BackendC/librabbitmq/librabbitmq/amqp_connection.c:265-319 | So a heartbeat as the very first frame is rejected, while from IDLE it is accepted |
| `FrameParser.RawFrameScans` | BackendC/librabbitmq/librabbitmq/amqp_connection.c:287-407 | An enveloped payload within frame_max is consumed exactly, from IDLE, and comes to what its raw bytes decode to |
| `FrameParser.AnnouncedFrameScans` | BackendC/librabbitmq/librabbitmq/amqp_connection.c:287-407 | The same for any bytes that announce their own length, whatever their end marker |
| `FrameParser.HeaderVerdict` | BackendC/librabbitmq/librabbitmq/amqp_connection.c:287-307 | A frame header is accepted exactly when the announced length is below INT32_MAX and the whole frame fits frame_max; otherwise the data is refused |
| `FrameParser.SentFrameParses` | BackendC/librabbitmq/librabbitmq/amqp_connection.c:464-538 | A frame that can be laid out within frame_max is parsed back from IDLE to the frame received, whatever the pool memory held before, with exactly its bytes consumed and the parser idle again, if and only if its tables survive the wire |
| `FrameParser.BodyInSameCall` | BackendC/librabbitmq/librabbitmq/amqp_connection.c:287-331 | A call that completes a header goes on into the body with the rest of the chunk, as the reference parser would |
| `FrameParser.FailureLeaves` | BackendC/librabbitmq/librabbitmq/amqp_connection.c:287-402 | A failing call leaves a complete header that announces too much, with the announced length already taken for the target if it is below INT32_MAX, or a complete body that is not accepted |
| `FrameParser.CallAgainExactly` | BackendC/librabbitmq/librabbitmq/amqp_connection.c:220-235 | A call after a failure stays inside the parser's buffer unless the failure was a header that announced more than frame_max and the call brings more than the header buffer has left, one byte in HEADER and none in INITIAL; any other failure is met again with nothing consumed; and no such call returns a frame |
| `FrameParser.CallsAgainExactly` | BackendC/librabbitmq/librabbitmq/amqp_connection.c:237-306 | The same for any calls after a failure, taken together |
| `FrameParser.LongHeaderRunsOver` | BackendC/librabbitmq/librabbitmq/amqp_connection.c:303-306 | An instance: a header that announces 65536 bytes, and a second call with the same bytes, as the reader's loop makes it |
| `FrameParser.CallLeaves` | BackendC/librabbitmq/librabbitmq/amqp_connection.c:237-413 | Every call, on a working parser or a failed one, leaves a working parser or a failed one |
| `InboundParser.Inbound.constructor` | BackendC/librabbitmq/librabbitmq/amqp_connection.c:92-100 | A new connection starts in INITIAL, collecting eight bytes into the header buffer |
| `InboundParser.Inbound.ReturnToIdle` | BackendC/librabbitmq/librabbitmq/amqp_connection.c:212-218 | The parser goes back to an empty header buffer in IDLE |
| `InboundParser.Inbound.ConsumeData` | BackendC/librabbitmq/librabbitmq/amqp_connection.c:220-235 | As many bytes as are there and still wanted are appended to what was collected, if the buffer has room for them |
| `InboundParser.Inbound.Handle` | BackendC/librabbitmq/librabbitmq/amqp_connection.c:237-413 | The method over the connection's buffers computes the parser function, on a working parser or, with no more than the buffer holds, on a failed one: same count, same result, same new state |
| `InboundParser.Inbound.Take` | BackendC/librabbitmq/librabbitmq/amqp_connection.c:256-413 | The same from the first byte taken on |
| `InboundParser.Inbound.Process` | BackendC/librabbitmq/librabbitmq/amqp_connection.c:263-413 | The same for the switch on the state, with its fall-through |
| `InboundParser.Inbound.BeginBody` | BackendC/librabbitmq/librabbitmq/amqp_connection.c:287-319 | The announced size is checked against INT32_MAX and frame_max, and a buffer for the whole frame takes over the seven header bytes |
| `InboundParser.Inbound.FinishBody` | BackendC/librabbitmq/librabbitmq/amqp_connection.c:333-407 | Footer, type and payload decide between a frame, nothing and a status; the parser rests unless decoding failed |
| `InboundParser.DecodeFrame` | BackendC/librabbitmq/librabbitmq/amqp_connection.c:338-402 | Decoding a complete raw frame through the emitted decoders computes the decoding function |
| `InboundParser.DecodeMethodFrame` | BackendC/librabbitmq/librabbitmq/amqp_connection.c:354-369 | The same for a method payload: unknown ids and short arguments get their statuses |
| `InboundParser.DecodeHeaderFrame` | BackendC/librabbitmq/librabbitmq/amqp_connection.c:371-388 | The same for a header payload |
| `Frames.FrameRoundTrip` | BackendC/librabbitmq/librabbitmq/amqp_connection.c:464-538 | A frame that can be laid out decodes from its own bytes to the frame received, over memory of any contents, if and only if its tables survive the wire |
| `Frames.MethodRoundTrip` | BackendC/librabbitmq/librabbitmq/amqp_connection.c:483-499 | Method id and arguments decode to the same method with normalized arguments exactly when every table in them is codable |
| `Frames.HeaderFrameRoundTrip` | BackendC/librabbitmq/librabbitmq/amqp_connection.c:501-521 | Class, body size, echoed flags and flagged properties come back, and members not set keep what memory held, exactly when the flagged tables are codable |
| `Frames.EnvelopeParts` | BackendC/librabbitmq/librabbitmq/amqp_connection.c:470-535 | Type, channel, length, payload and end marker are found where the layout puts them |
| `Frames.FrameToBytes` | BackendC/librabbitmq/librabbitmq/amqp_connection.c:464-538 | A frame is accepted exactly when it can be laid out within frame_max bytes, and then its layout stands at the front of the buffer; a refused one gets the status that its kind, id and fields call for |
| `Frames.EncodeMethod` | BackendC/librabbitmq/librabbitmq/amqp_connection.c:483-499 | Arguments are encoded exactly when the id is known, every field is writable and they fit; otherwise the first field that fails, or the unknown id, gives the status |
| `Frames.WriteEnvelope` | BackendC/librabbitmq/librabbitmq/amqp_connection.c:470-535 | The buffer holds type, channel, length, payload and end marker |
| `Generator.GeneratorCorrect` | BackendC/librabbitmq/librabbitmq/codegen.py:317-328 | For every list of field types the emitted encoder writes the packed octet layout, and succeeds exactly when every field is writable and the layout fits; its status is the one that the layout gives field by field |
| `Generator.GeneratedDecoderInverts` | BackendC/librabbitmq/librabbitmq/codegen.py:286-298 | For every list of field types the emitted decoder gets back the normalized fields from the layout and consumes exactly it, if and only if every table is codable; so the two bit counters agree on byte boundaries |
| `Generator.EncoderWritesLayout` | BackendC/librabbitmq/librabbitmq/codegen.py:82-110 | The same from any field and any bit position on, for the statements still to come |
| `Generator.DecoderReadsLayout` | BackendC/librabbitmq/librabbitmq/codegen.py:57-79 | The same for the decoder, from any field and bit position on |
| `Generator.LaterLinesKeep` | BackendC/librabbitmq/librabbitmq/codegen.py:57-79 | Statements emitted for later fields leave earlier members alone |
| `Generator.PackedBit` | BackendC/librabbitmq/librabbitmq/codegen.py:100-110 | Bit k of a packed byte is set exactly when the k-th field of the run is |
| `Generator.PackBitsSnoc` | BackendC/librabbitmq/librabbitmq/codegen.py:100-110 | Or-ing one more bit into the buffer extends the packed run by that bit |
| `Generator.BitEncoder.Flush` | BackendC/librabbitmq/librabbitmq/codegen.py:90-94 | Pending bits are written out, and the counter is zero |
| `Generator.BitEncoder.Emit` | BackendC/librabbitmq/librabbitmq/codegen.py:96-98 | Pending bits go out before any other statement |
| `Generator.BitEncoder.EncodeBit` | BackendC/librabbitmq/librabbitmq/codegen.py:100-110 | A bit statement is emitted at the counter's position, which wraps at eight with a flush |
| `Generator.BitDecoder.DecodeBit` | BackendC/librabbitmq/librabbitmq/codegen.py:69-79 | A new byte is fetched at position zero, and the counter wraps at eight |
| `Generator.BitDecoder.Emit` | BackendC/librabbitmq/librabbitmq/codegen.py:65-67 | Any other statement ends the run of bits |
| `Generator.GenEncodeMethodFields` | BackendC/librabbitmq/librabbitmq/codegen.py:317-328 | The loop over the arguments and the final flush emit the specified statements |
| `Generator.GenDecodeMethodFields` | BackendC/librabbitmq/librabbitmq/codegen.py:286-298 | The loop over the arguments emits the specified statements |
| `Generator.QueueDeclareAsGenerated` | BackendC/librabbitmq/librabbitmq/amqp_framing.c:1919-1940 | For the fields of queue.declare the generators emit exactly the statements of the generated file: id, name, five bits in one byte, table |
| `Generator.RunEncoder` | BackendC/librabbitmq/librabbitmq/amqp_framing.c:1609-2300 | Emitted encoder statements, run over a byte array, write what the statement semantics says or return its status |
| `Generator.RunDecoder` | BackendC/librabbitmq/librabbitmq/amqp_framing.c:283-1404 | Emitted decoder statements, run over the bytes, fill the members the statement semantics says |
| `Generator.EncodeField` | BackendC/librabbitmq/librabbitmq/codegen.py:124-125 | One field is written exactly when its statement semantics allows it |
| `Generator.EncodeString` | BackendC/librabbitmq/librabbitmq/codegen.py:145-150 | A string is accepted exactly when its length fits the length field and the whole fits the buffer |
| `Generator.DecodeField` | BackendC/librabbitmq/librabbitmq/codegen.py:137-143 | One field is read exactly when its bytes are there and decode |
| `Generator.FieldRoundTrip` | BackendC/librabbitmq/librabbitmq/codegen.py:113-192 | One non-bit field reads back as itself, normalized, with exactly its bytes consumed, if and only if it is codable |
| `ContentHeader.HeaderRoundTrip` | BackendC/librabbitmq/librabbitmq/amqp_framing.c:1406-1582 | Every property set that can be written decodes to the same flags but for the continuation positions and to the same flagged members, consuming exactly its bytes, if and only if its flagged tables are codable |
| `ContentHeader.PropsRoundTrip` | BackendC/librabbitmq/librabbitmq/amqp_framing.c:1475-1582 | The same for the properties from any position on |
| `ContentHeader.FlagsEcho` | BackendC/librabbitmq/librabbitmq/amqp_framing.c:1411-1419 | Every 32-bit flag word goes out in one or two words and is read back as the echoed word |
| `ContentHeader.EchoKeepsFlags` | BackendC/librabbitmq/librabbitmq/amqp_framing.c:2310-2324 | Decoder and encoder agree on every bit but 0 and 16; bit 0 comes back as whether there was a second word, and bit 16 clear |
| `ContentHeader.EchoExact` | BackendC/librabbitmq/librabbitmq/amqp_framing.c:2310-2324 | A flag word survives unchanged if and only if bit 16 is clear and bit 0 already says whether a second word follows |
| `ContentHeader.EchoHas` | BackendC/librabbitmq/librabbitmq/amqp_framing.c:2310-2324 | Presence of every property survives |
| `ContentHeader.NumberFlags` | BackendC/librabbitmq/librabbitmq/codegen.py:752-760 | The numbering loop gives each property the bit of the closed form |
| `ContentHeader.FlagBitsDistinct` | BackendC/librabbitmq/librabbitmq/codegen.py:752-760 | Distinct properties get distinct bits, never a continuation position, and exactly the first thirty fit 32 bits |
| `ContentHeader.PropsEncoderExact` | BackendC/librabbitmq/librabbitmq/amqp_framing.c:2330-2424 | Properties are encoded exactly when the flagged ones are writable and fit |
| `ContentHeader.EncodeFlags` | BackendC/librabbitmq/librabbitmq/amqp_framing.c:2310-2324 | The do-while loop writes the flag words, or fails exactly when they do not fit |
| `ContentHeader.EncodeProperties` | BackendC/librabbitmq/librabbitmq/amqp_framing.c:2302-2424 | A property set is accepted exactly when it can be written and fits, and then its layout stands at the front; a refused one gets the status of its flag words or of its first property that fails |
| `ContentHeader.DecodeProperties` | BackendC/librabbitmq/librabbitmq/amqp_framing.c:1406-1582 | For any bytes: flags and properties are decoded as the specification function says, or the data is refused, or a third flag word is met, which C would shift away |
| `FieldTable.ValueRoundTrip` | BackendC/librabbitmq/librabbitmq/amqp_table.c:205-298 | A value of any nesting, written at any offset, reads back as itself with booleans normalized and exactly its bytes consumed, if and only if all kinds are known and all keys are at most 255 bytes |
| `FieldTable.TableRoundTrip` | BackendC/librabbitmq/librabbitmq/amqp_table.c:125-203 | The same for a whole table |
| `FieldTable.ArrayRoundTrip` | BackendC/librabbitmq/librabbitmq/amqp_table.c:59-123 | The same for an array |
| `FieldTable.ItemsRoundTrip` | BackendC/librabbitmq/librabbitmq/amqp_table.c:82-106 | The same for the values of an array up to its limit |
| `FieldTable.EntriesRoundTrip` | BackendC/librabbitmq/librabbitmq/amqp_table.c:148-182 | The same for the entries of a table up to its limit |
| `FieldTable.ValueAt` | BackendC/librabbitmq/librabbitmq/amqp_table.c:205-298 | On any bytes the decoder terminates, moves forward and ends inside the buffer |
| `FieldTable.ItemsAt` | BackendC/librabbitmq/librabbitmq/amqp_table.c:59-123 | On any bytes decoding the array ends at or after its limit and inside the buffer |
| `FieldTable.TableAt` | BackendC/librabbitmq/librabbitmq/amqp_table.c:125-203 | On any bytes decoding ends at or after the announced limit and inside the buffer |
| `FieldTable.EntriesAt` | BackendC/librabbitmq/librabbitmq/amqp_table.c:148-182 | The same for the entries; each value is bounded by the buffer only |
| `FieldTable.NestingCostsInput` | BackendC/librabbitmq/librabbitmq/amqp_table.c:205-298 | On any bytes each level of nesting in a decoded value has cost at least five bytes of input |
| `FieldTable.ItemsNestingCostsInput` | BackendC/librabbitmq/librabbitmq/amqp_table.c:59-123 | The same for the values of an array |
| `FieldTable.EntriesNestingCostsInput` | BackendC/librabbitmq/librabbitmq/amqp_table.c:125-203 | The same for the entries of a table |
| `TableCodec.EncoderExact` | BackendC/librabbitmq/librabbitmq/amqp_table.c:362-452 | Encoding a value succeeds if and only if every kind is known and its whole wire form fits; a parameter is blamed only when some kind is unknown |
| `TableCodec.TableEncoderExact` | BackendC/librabbitmq/librabbitmq/amqp_table.c:327-360 | The same for a table: start plus encoded size within the buffer |
| `TableCodec.ItemsEncoderExact` | BackendC/librabbitmq/librabbitmq/amqp_table.c:302-325 | The same for the values of an array |
| `TableCodec.EntriesEncoderExact` | BackendC/librabbitmq/librabbitmq/amqp_table.c:333-350 | The same for the entries of a table |
| `TableCodec.ValueStatusExact` | BackendC/librabbitmq/librabbitmq/amqp_table.c:362-452 | For every value and every room the exact status, out of where the room cuts the wire form: a parameter is blamed if a kind byte of an unknown kind is within the room, the data if the room ends just before a kind byte or in the length before an array's first item, and the table is too big if it ends anywhere else |
| `TableCodec.ItemsStatusExact` | BackendC/librabbitmq/librabbitmq/amqp_table.c:302-325 | The same for the values of an array |
| `TableCodec.TableStatusExact` | BackendC/librabbitmq/librabbitmq/amqp_table.c:327-360 | The same for a table |
| `TableCodec.EntriesStatusExact` | BackendC/librabbitmq/librabbitmq/amqp_table.c:333-350 | The same for the entries of a table |
| `TableCodec.EntryStatusExact` | BackendC/librabbitmq/librabbitmq/amqp_table.c:334-349 | The same for one entry |
| `TableCodec.TooBigExactly` | BackendC/librabbitmq/librabbitmq/amqp.h:1328-1329 | A table of known kinds that does not fit gets the promised AMQP_STATUS_TABLE_TOO_BIG if and only if the room does not end just before a kind byte; else it gets AMQP_STATUS_BAD_AMQP_DATA |
| `TableCodec.OverflowBeforeKindIsBadData` | BackendC/librabbitmq/librabbitmq/amqp.h:1328-1329 | An instance: one table, three room sizes, three statuses |
| `TableCodec.EncodedTableDecodes` | BackendC/librabbitmq/librabbitmq/amqp_table.c:327-360 | A table that encodes into a buffer decodes from there to itself with exactly its bytes consumed, if and only if it is codable |
| `TableCodec.LongKeyIsLost` | BackendC/librabbitmq/librabbitmq/amqp_table.c:334-349 | Every key of more than 255 bytes is encoded without complaint in a table that does not decode to itself |
| `TableCodec.EncodeTable` | BackendC/librabbitmq/librabbitmq/amqp_table.c:327-360 | The status is the exact one; on success the wire form stands at the offset, the offset moves by its size and nothing else changed; on failure nothing before the offset changed |
| `TableCodec.EncodeArray` | BackendC/librabbitmq/librabbitmq/amqp_table.c:302-325 | The same for an array |
| `TableCodec.EncodeValue` | BackendC/librabbitmq/librabbitmq/amqp_table.c:362-452 | The same for a value |
| `TableCodec.EncodeEntry` | BackendC/librabbitmq/librabbitmq/amqp_table.c:334-349 | The same for one entry, its key length cast to eight bits |
| `TableCodec.PatchLength` | BackendC/librabbitmq/librabbitmq/amqp_table.c:352-359 | Patching the length in front of the contents completes the wire form |
| `TableCodec.EncodeInt` | BackendC/librabbitmq/librabbitmq/amqp_private.h:220-230 | The offset moves on in any case; the big-endian bytes are written exactly when they fit |
| `TableCodec.EncodeBytes` | BackendC/librabbitmq/librabbitmq/amqp_private.h:329-345 | An empty string is accepted at any offset; otherwise the bytes are written exactly when they fit |
| `TableCodec.DecodeInt` | BackendC/librabbitmq/librabbitmq/amqp_private.h:232-240 | The integer is read exactly when its bytes are there |
| `TableCodec.DecodeTable` | BackendC/librabbitmq/librabbitmq/amqp_table.c:125-203 | The loop over a doubling entry array computes the specified table, or refuses the data |
| `TableCodec.DecodeArray` | BackendC/librabbitmq/librabbitmq/amqp_table.c:59-123 | The same for an array |
| `TableCodec.DecodeEntry` | BackendC/librabbitmq/librabbitmq/amqp_table.c:150-181 | The same for one entry |
| `TableCodec.DecodeValue` | BackendC/librabbitmq/librabbitmq/amqp_table.c:205-298 | The same for a value of any kind |
| `TableCodec.Store` | BackendC/librabbitmq/librabbitmq/amqp_table.c:83-98 | A full entry array is doubled and keeps its contents; no write is outside it |
| `Bytes.FromBEInvertsBE` | BackendC/librabbitmq/librabbitmq/amqp_private.h:260-322 | A big-endian integer in range reads back as itself |
| `Bytes.BEInvertsFromBE` | BackendC/librabbitmq/librabbitmq/amqp_private.h:260-322 | Bytes read as a big-endian integer are its big-endian form |
| `DeepCopy.CloneTable` | BackendC/librabbitmq/librabbitmq/amqp_table.c:600-629 | The status is that of the first thing refused: an empty key, an unknown kind, or an empty array with an entry pointer, for which the pool gives no memory; on success the clone is equal in value, every pointer in it is a region the pool handed out meanwhile, in order, and it shares no byte with any memory in use, in the pool or outside it |
| `DeepCopy.CloneEntry` | BackendC/librabbitmq/librabbitmq/amqp_table.c:583-598 | The same value, places and status for one entry; an empty key is refused first |
| `DeepCopy.CloneField` | BackendC/librabbitmq/librabbitmq/amqp_table.c:476-581 | The same value, places and status for a field value |
| `DeepCopy.CloneItems` | BackendC/librabbitmq/librabbitmq/amqp_table.c:545-566 | The same for an array with an entry pointer |
| `DeepCopy.CloneEach` | BackendC/librabbitmq/librabbitmq/amqp_table.c:559-565 | The loop over the values of an array, which stops at the first that is refused |
| `DeepCopy.CloneEntries` | BackendC/librabbitmq/librabbitmq/amqp_table.c:617-624 | The loop over the entries of a table, which stops at the first that is refused |
| `DeepCopy.CloneStatusMeans` | BackendC/librabbitmq/librabbitmq/amqp_table.c:476-581 | A value is copied if and only if it holds no unknown kind, no empty key and no empty array with an entry pointer, at any depth; without such an array it is never refused for want of memory |
| `DeepCopy.EntriesStatusMeans` | BackendC/librabbitmq/librabbitmq/amqp_table.c:600-629 | The same for the entries of a table |
| `DeepCopy.CloneableNormal` | BackendC/librabbitmq/librabbitmq/amqp_table.c:476-581 | What reads back from the wire can be cloned exactly when what was written can |
| `Merge.MergeIsOverlay` | BackendC/librabbitmq/librabbitmq/amqp_socket.c:1171-1230 | For tables with unique keys at every level, merging entry by entry in a temporary array is laying all of add over base, nested tables included; it fails exactly when they are not mergeable: both empty, an empty key, or a value that survives and cannot be copied |
| `Merge.LastEntryWins` | BackendC/librabbitmq/librabbitmq/amqp_socket.c:1203-1224 | For all tables, repeated keys included: when a merge succeeds, each key holds the value of add's last entry with it, which is merged with base's table when it fell on a table; a key not in add holds what base held |
| `Merge.WildExactly` | BackendC/librabbitmq/librabbitmq/amqp_socket.c:1207-1214 | For all tables: a merge follows a null pointer, or takes for a table what is none, only if some key stands twice in add with tables, only tables of this key between, and base has no table under it, or a nested merge does so; then no merge succeeds; and if nothing can be refused this is exactly when it happens |
| `Merge.EachTracks` | BackendC/librabbitmq/librabbitmq/amqp_socket.c:1203-1225 | From any entry of add on, the temporary array holds under every key what the last entries seen call for, until a dangerous entry or a refused nested merge ends the loop |
| `Merge.PathLookup` | BackendC/librabbitmq/librabbitmq/amqp_socket.c:1171-1175 | At every path of keys the merged table holds add's value, or the merge when both are tables, or base's value, unless a value of add that is no table replaced a table on the way |
| `Merge.LookupOverlay` | BackendC/librabbitmq/librabbitmq/amqp_socket.c:1203-1224 | Per key: add's value, the merge of two tables, or base's value |
| `Merge.CloneableOverlay` | BackendC/librabbitmq/librabbitmq/amqp_socket.c:1226-1226 | The final clone succeeds exactly when every key is nonempty and every value that survives can be cloned |
| `Merge.EachAgrees` | BackendC/librabbitmq/librabbitmq/amqp_socket.c:1203-1225 | From any entry of add on, the loop ends with the overlay of what it has seen, or fails at the first nested merge that does |
| `Merge.MergeInto` | BackendC/librabbitmq/librabbitmq/amqp_socket.c:1176-1230 | The method over a temporary array and pool gives the specified merge, with the status of the first value that cannot be copied, stored in regions of the target pool only, which share no byte with any memory in use, that of base and add included |
| `Merge.MergeEntries` | BackendC/librabbitmq/librabbitmq/amqp_socket.c:1203-1225 | The loop over add computes the specified fold |
| `Merge.MergeEntry` | BackendC/librabbitmq/librabbitmq/amqp_socket.c:1204-1224 | One entry of add overwrites, merges into or extends the temporary table as specified |
| `Merge.MergeCapabilities` | BackendC/librabbitmq/librabbitmq/amqp_socket.c:1176-1230 | With no add the base is cloned; otherwise the two are merged; the result shares no byte with any memory in use, that of base and add included |
| `Merge.GetEntryByKey` | BackendC/librabbitmq/librabbitmq/amqp_table.c:658-668 | The first entry with the key, or none |
| `Merge.RepeatedKeyIsWild` | BackendC/librabbitmq/librabbitmq/amqp_socket.c:1207-1214 | An instance: a key twice in add, both times a table, and an empty base |
| `Pool.AllocPlaces` | BackendC/librabbitmq/librabbitmq/amqp_mem.c:113-159 | An allocation leaves every region handed out since the last recycle where it was, and puts the new one at a multiple of eight inside its block, at least as long as requested and disjoint from all of them |
| `Pool.AllocAllSound` | BackendC/librabbitmq/librabbitmq/amqp_mem.c:113-159 | Between two recycles all results are pairwise disjoint and inside their blocks |
| `Pool.KeptStaysPlaced` | BackendC/librabbitmq/librabbitmq/amqp_mem.c:113-159 | A region handed out earlier keeps its place, clear of the new one |
| `Pool.NewIsApart` | BackendC/librabbitmq/librabbitmq/amqp_mem.c:113-159 | What a pool hands out shares no byte with memory in use before, live in the pool or in a block that is not the pool's, and its parts share none with each other |
| `Pool.PagesTaken` | BackendC/librabbitmq/librabbitmq/amqp_mem.c:142-156 | The pages in use after any requests are those counted by replaying the requests on an empty page count, and pages once owned are kept |
| `Pool.PageCountIsLargestNeed` | BackendC/librabbitmq/librabbitmq/amqp_mem.c:79-159 | Over any run of epochs, each ending in a recycle, the pool owns as many pages as its neediest epoch |
| `Pool.ReplayAllocatesNoPage` | BackendC/librabbitmq/librabbitmq/amqp_mem.c:79-159 | Replaying requests served in an earlier epoch allocates no new page |
| `Pool.AmqpPool.constructor` | BackendC/librabbitmq/librabbitmq/amqp_mem.c:52-64 | A new pool is empty, with a page size of 4096 when none is given |
| `Pool.AmqpPool.RecycleAll` | BackendC/librabbitmq/librabbitmq/amqp_mem.c:79-84 | The large blocks are given up, the pages kept, and nothing is live |
| `Pool.AmqpPool.AllocBytes` | BackendC/librabbitmq/librabbitmq/amqp_mem.c:161-165 | Allocation computes the specified pool, records the region as live, and keeps all live regions sound; only an empty request has no result |
| `Pool.AmqpPool.Take` | BackendC/librabbitmq/librabbitmq/amqp_mem.c:113-159 | The branches over large blocks, the current page, a kept page and a new page compute the specified pool and result |
| `Lifetimes.NoDanglingMemory` | BackendC/librabbitmq/librabbitmq/amqp_connection.c:419-462 | After any run of reading, queueing, putting back, taking, dropping, releasing and tuning from a new connection on: every queued link, its frame copy, every part of the frame, every frame the caller holds and the half-filled inbound buffer lie in memory that their channel's pool handed out since its last recycle, unless a call wrote behind the header buffer; and one did if and only if a header was refused that announced more than frame_max, and the calls after it brought more bytes than the header buffer had left |
| `Lifetimes.NextSafe` | BackendC/librabbitmq/librabbitmq/amqp_socket.c:722-895 | Every single step that stays inside the header buffer keeps all memory in use live, each region used at most once, and no block shared by two pools |
| `Lifetimes.RunSafe` | BackendC/librabbitmq/librabbitmq/amqp_connection.c:237-462 | So does every run from a safe state, as long as it goes on |
| `Lifetimes.OverrunExactly` | BackendC/librabbitmq/librabbitmq/amqp_connection.c:303-306 | A run writes behind the header buffer if and only if at some step a header with a payload is refused for frame_max and the steps after it read more bytes than the buffer has left |
| `Lifetimes.RefusedIsTooLong` | BackendC/librabbitmq/librabbitmq/amqp_connection.c:220-235 | The refused state of a run is the parser's: a call overruns here exactly when it does there |
| `Lifetimes.LongFirstFrame` | BackendC/librabbitmq/librabbitmq/amqp_connection.c:303-306 | An instance: after a header that announces 70000 bytes no byte can be read on in INITIAL, and one in HEADER |
| `Lifetimes.RecycleSafeIff` | BackendC/librabbitmq/librabbitmq/amqp_connection.c:438-462 | Recycling a channel's pool keeps memory safe if and only if no queued frame is of that channel and the parser is not filling a buffer of it |
| `Lifetimes.StalePutBackUnsafe` | BackendC/librabbitmq/librabbitmq/amqp_socket.c:879-895 | A frame whose channel was released since it was read must not be put back: whatever the pool hands out next, the queue then points to memory that is not live or serves twice |
| `Lifetimes.UsesDisjoint` | BackendC/librabbitmq/librabbitmq/amqp_mem.c:113-159 | Two uses of memory, on one channel or two, never share a byte |
| `Lifetimes.AllocSafe` | BackendC/librabbitmq/librabbitmq/amqp_mem.c:193-224 | A region handed out for a channel is live and used by nobody yet; the other channels' pools are not touched |
| `Lifetimes.QueueingSafe` | BackendC/librabbitmq/librabbitmq/amqp_socket.c:836-895 | Queueing in either allocation order and at either end moves the frame into the queue and points to live memory |
| `Lifetimes.FinishSafe` | BackendC/librabbitmq/librabbitmq/amqp_connection.c:333-407 | Completing, ignoring or failing a frame keeps memory safe |
| `Lifetimes.TakeSafe` | BackendC/librabbitmq/librabbitmq/amqp_socket.c:905-920 | Taking an entry and losing those ahead keeps memory safe |
| `Lifetimes.Buffers.MaybeReleaseOnChannel` | BackendC/librabbitmq/librabbitmq/amqp_connection.c:438-462 | The pool is recycled exactly when the parser rests and no queued frame is of the channel |
| `Lifetimes.Buffers.ReleaseBuffers` | BackendC/librabbitmq/librabbitmq/amqp_connection.c:419-430 | Every channel without a queued frame is recycled, every other pool is left alone, and memory stays safe |
| `CommandLine.ParseInvertsLine` | BackendC/librabbitmq/tools/win32/process.c:92-96 | A parser following the stated backslash rules gets back exactly the arguments from the command line, for every nonempty list, whether or not it knows doubled quotes |
| `CommandLine.ArgumentReadsBack` | BackendC/librabbitmq/tools/win32/process.c:98-136 | Inside quotes, from any character on and with any backslashes pending, the rest of an argument reads back as itself |
| `CommandLine.LengthBound` | BackendC/librabbitmq/tools/win32/process.c:72-85 | The line and its terminator never need more than the precomputed length, and need all of it if and only if every character of every argument is a quote or a backslash |
| `CommandLine.MakeCommandLine` | BackendC/librabbitmq/tools/win32/process.c:66-147 | The buffer has the precomputed length and holds the whole line followed by its terminator |
| `CommandLine.BufferLength` | BackendC/librabbitmq/tools/win32/process.c:72-85 | The first loop computes the worst case |
| `CommandLine.WriteLine` | BackendC/librabbitmq/tools/win32/process.c:98-143 | The second loop writes the whole line |
| `CommandLine.WriteArgument` | BackendC/librabbitmq/tools/win32/process.c:99-136 | The inner loop writes one quoted argument |
| `Url.UrlReadsBack` | BackendC/librabbitmq/librabbitmq/amqp_url.c:112-220 | For every URL put together from parts, with any characters percent-encoded, optional user, password, port and vhost, and a plain or bracketed host, parsing gives back the parts, with the defaults for those left out, if and only if the port is a number up to 65535 |
| `Url.EveryConnectionHasAUrl` | BackendC/librabbitmq/librabbitmq/amqp_url.c:112-220 | Every user, password, nonempty host and vhost of characters 1 to 127 and every port to 65535 can be written as a URL that parses back to them |
| `Url.ScanSpelled` | BackendC/librabbitmq/librabbitmq/amqp_url.c:62-110 | Scanning a component in any spelling up to a delimiter gives the component, the delimiter and what follows |
| `Url.ScannedIsSpelled` | BackendC/librabbitmq/librabbitmq/amqp_url.c:62-110 | And what is scanned is a spelled component followed by its delimiter or the end: nothing else is accepted |
| `Url.FindDelim` | BackendC/librabbitmq/librabbitmq/amqp_url.c:62-110 | The component is decoded where it stands, never ahead of the reading position, and terminated; nothing before it or from the next position on changes |
| `Url.ParseUrl` | BackendC/librabbitmq/librabbitmq/amqp_url.c:112-220 | The components in the buffer, read as C strings at the end, are those the URL means; anything else is AMQP_STATUS_BAD_URL |
| `Url.ParseFrom` | BackendC/librabbitmq/librabbitmq/amqp_url.c:132-219 | The same behind the prefix |
| `Url.ParseFront` | BackendC/librabbitmq/librabbitmq/amqp_url.c:132-154 | What may have been host and port turns out to be user and password when an at sign follows |
| `Url.ParseHost` | BackendC/librabbitmq/librabbitmq/amqp_url.c:156-184 | A bracketed address must be the whole host; an empty plain host keeps the default |
| `Url.ParsePort` | BackendC/librabbitmq/librabbitmq/amqp_url.c:186-189 | A port behind the host replaces one found before |
| `Url.ParseNumber` | BackendC/librabbitmq/librabbitmq/amqp_url.c:191-200 | A string is a number exactly when strtol reads it to its end: white space, a sign, and at least one digit |
| `Url.ParseVhost` | BackendC/librabbitmq/librabbitmq/amqp_url.c:202-214 | A vhost must end the URL |
| `Url.Survives` | BackendC/librabbitmq/librabbitmq/amqp_url.c:112-220 | A component found early is still in the buffer, unchanged, when parsing ends |
| `Url.DecimalReadsBack` | BackendC/librabbitmq/librabbitmq/amqp_url.c:191-200 | The decimal digits of every number parse back to it |

## Left out

- The C++ front end and `watermq`: unfinished code that is not part of this model.
- Sockets, TLS, name lookup, polling and certificate checks: foreign calls; sends and receives are scripts of what they meet.
- Clocks and heartbeat scheduling: which deadline a timeout belongs to is part of the script, and sending a heartbeat inside a wait is taken to need no receive (amqp_socket.c line 816 would refill the receive buffer before it is drained).
- Login, SASL and tuning negotiation: plumbing around the operations modelled; only the change of `frame_max` appears, in `Lifetimes`.
- Failing allocations and wrap-around of 64-bit sizes and offsets: memory is always there, sizes are unbounded; 32-bit lengths and 8-bit key lengths are truncated as in the code.
- Host byte order: the byte-swapping helpers are modelled as the big-endian integers that they produce.
- The individual methods and API wrappers of the generated file: covered by the theorems over any list of field types, with queue.declare compared statement by statement.
- Error texts, method names, host-name matching, and command-line tools other than the quoter: tables and small string functions that no protocol property rests on.
- The more-to-come socket flag of body frames (amqp_api.c lines 263 to 269): a hint to the kernel that does not change the bytes.
- Channel-pool hash table: a map from channels to pools.
- FrameParser.ChunkingIndependence: streams are followed up to the first failure; what calls after it do is stated by `CallAgainExactly`, and no reading method of the connection is stated for a parser that has failed.
- Frames.FrameToBytes: needs an outbound buffer with room for the fixed parts of the frame and for a body fragment, since the code copies those without a check; method and property encoders write to an array of their own that is then copied, not to a slice of the outbound buffer.
- InboundParser.DecodeFrame: payloads shorter than 4 bytes (methods) or 12 bytes (headers), where the code computes a length below zero, and headers with a third flag word, where it shifts by 32, end in an outcome of their own; nothing is said about what happens then.
- InboundParser.FrameBuffer: the pool memory a first frame is read into is taken to be zero, as a page new to the pool is. What a recycled page holds under the members of a properties structure may be different for every header payload, but is taken to be the same for equal payloads; the reader's copy clears it anyway.
- Frames and body fragments are values, not pointers into the frame buffer; that the memory behind them is still theirs is what `Lifetimes` proves.
- Generator.GeneratedDecoderInverts: layouts below 4 GiB, the range of a 32-bit table length.
- FieldTable.ValueRoundTrip: wire forms below 4 GiB, the range of a 32-bit length.
- Messages.CopyProperties: the table clone appears as its exact status and an equal value; the memory it takes is the subject of `DeepCopy`.
- Merge.MergeIsOverlay: the order of the entries and nested tables as a whole are stated for unique keys at every level; tables with repeated keys are the subject of `LastEntryWins` and `WildExactly`.
- Pool: block lists are sequences, and a freed large block's address is not handed out again.
- CommandLine.ParseInvertsLine: the special rule of the real Windows parser for the program name is not part of this model.
- Url.ParseUrl: an escape `%0x`, which the C standard rejects and some libraries read as zero, is rejected. A malformed escape ends parsing at once, where the code goes on to tests that all fail. What a failed call leaves in the connection parameters is not stated.
