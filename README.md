# PlanetaryProcessor: the controller–worker messaging stack

PlanetaryProcessor lets a .NET program (the controller, `Processor`) generate
the terrain maps of a Kerbal Space Program body. It does so by driving a
headless Unity application (the worker, `Entrypoint`) over a loopback TCP
connection. This project models that connection and the small pure utilities
around it, and proves properties of the model:

- **Framing** (`Frame`). Both ends write a message as a 4-byte little-endian
  length followed by the ASCII bytes. They read it back with "receive until
  the buffer is full or a `Receive` returns 0" loops over a socket. The socket
  is modelled as a list of chunks, one per `Receive` call.
- **Channels** (`Channels`, `Server`, `Client`).
  - A message is `ident + "::" + body`.
  - The receiving side splits it with `String.Split(new[] {"::"},
    RemoveEmptyEntries)` and queues the body on a FIFO queue per ident.
  - The server faults on 0- or 1-piece payloads and drops payloads of more
    than two pieces. The client drops everything but two pieces.
- **The controller's jobs** (`Controller`).
  - A job is two sends, then a read of `channel + "-ERR"` (anything but
    `"NONE"` throws), then 4 reads (raw maps) or 3 reads (encoded maps).
  - Raw jobs decode three files, 16 bytes per pixel, into `width × width/2`
    grids.
- **The worker's replies** (`Worker`):
  - the channel wiring of `Awake`;
  - the reply sequences of the two generators;
  - the raw write order.

  Generation itself is an opaque step that yields maps or an exception
  message.
- **The `NodeTree` configuration store** (`Config`): append-only lists with
  first-match lookup, and the indented serialiser.
- **Port selection** (`Ports`): the least port from the starting port on that
  nothing uses.

`EndToEnd` puts the two sides together. What a successful worker sends and
writes is exactly what the controller's job reads, parses and decodes. A
worker's exception message ends the job with that message.

The source's classes whose fields change in place are classes here:
`PipeServer`, `PipeClient`, `Processor`, `Entrypoint`, `NodeTree`, the file
system and the socket. Each class method is proved against a function of its
old state. Examples:

- `(r, State()) == Await(old(State()), ident)`;
- `(outcome, messages) == Demux(old(messages), frame)`.

The properties are then proved about those functions.

## Model

| member | source | states |
|---|---|---|
| Ascii.GetBytes | src/lib/PipeServer.cs:112 | `Encoding.ASCII.GetBytes` gives one byte per character, and every byte is below 128 |
| Ascii.GetString | src/lib/PipeServer.cs:180 | `Encoding.ASCII.GetString` gives one character per byte, and the text is ASCII |
| Ascii.GetBytesAt | src/lib/PipeServer.cs:112 | byte i is character i when that is ASCII, and '?' otherwise |
| Ascii.GetStringAt | src/lib/PipeServer.cs:180 | character i is byte i when that is below 128, and '?' otherwise |
| Ascii.AsciiRoundTrip | src/lib/PipeServer.cs:112-180 | decoding the encoded text gives it back if and only if every character is ASCII |
| Ascii.Int32ToString | src/unity/Entrypoint.cs:251 | `Int32.ToString` is non-empty, ends in a digit, and starts with a digit or '-' |
| Ascii.TryParseInt32 | src/lib/Processor.cs:163 | `Int32.TryParse` succeeds only with a value in the Int32 range; null fails |
| Ascii.ParsedOrZero | src/lib/Processor.cs:163 | the out value of `TryParse` is in the Int32 range, and 0 when parsing fails |
| Ascii.Int32TextRoundTrip | src/lib/Processor.cs:163 | `TryParse` of `n.ToString()` gives back n for every Int32 n, negative ones included |
| Ascii.DigitsRoundTrip | src/unity/Entrypoint.cs:251 | the digit value of the decimal digits of n is n |
| Frame.LengthHeader | src/lib/PipeServer.cs:116-119 | the header is 4 bytes: byte k is `(Byte)(length >> 8k)` |
| Frame.DecodeLength | src/lib/PipeServer.cs:147-153 | the OR of the shifted bytes is an Int32, and it is negative exactly when the top byte has bit 7 set |
| Frame.LengthRoundTrip | src/lib/PipeServer.cs:116-153 | every length 0..Int32.MaxValue decodes back from its header |
| Frame.HeaderOfLength | src/lib/PipeServer.cs:116-153 | a header that decodes to a non-negative size is exactly the header the sender writes for that size |
| Frame.EncodeFrame | src/lib/PipeServer.cs:108-124 | a frame is 4 header bytes plus one byte per character |
| Frame.Socket.constructor | src/lib/PipeServer.cs:184-186 | an accepted connection with the given chunks still to arrive and nothing sent |
| Frame.Socket.Receive | src/lib/PipeServer.cs:139-142 | at most `size` bytes are copied in order to `buffer[offset..]`; 0 exactly when `size` is 0 or the stream is exhausted; the rest of the buffer and the remaining stream are consistent |
| Frame.Socket.Send | src/lib/PipeServer.cs:121-122 | the whole buffer is appended to what was sent |
| Frame.SendFrame | src/lib/PipeServer.cs:108-124 | what is sent is exactly the header then the ASCII bytes (`PipeClient.cs` lines 100-113 are the same code) |
| Frame.SizeInfo | src/lib/PipeServer.cs:113-119 | the array the shifts fill is `LengthHeader(length)` |
| Frame.ReadSpec | src/lib/PipeServer.cs:126-182 | reading fails exactly when the header's top byte has bit 7 set; otherwise the header, the body and the rest make up the stream, and the body is ASCII |
| Frame.BodySpec | src/lib/PipeServer.cs:161-180 | the body is `min(size, available)` bytes, and the rest of the stream follows it |
| Frame.FrameRoundTrip | src/lib/PipeServer.cs:108-182 | an ASCII frame followed by anything reads back as its message and leaves the rest untouched |
| Frame.ReceiveAll | src/lib/PipeServer.cs:133-145 | the loop stops with `totalread == min(buffer size, bytes available)`; the buffer holds those bytes in order, the rest of it is untouched, and they are gone from the stream |
| Frame.ReadFrame | src/lib/PipeServer.cs:126-182 | the result and the remaining stream are `ReadSpec` of the stream |
| Frame.ReadHeader | src/lib/PipeServer.cs:130-153 | the size is the decoding of the bytes that arrived, zero-padded to four |
| Frame.ReadBody | src/lib/PipeServer.cs:161-180 | the text and the remaining stream are `BodySpec` of the stream |
| Channels.Join | src/lib/PipeServer.cs:104 | the payload is ident, two characters, then the body |
| Channels.RawSplit | src/lib/PipeServer.cs:54 | the left-to-right split on "::" has at least one piece |
| Channels.RemoveEmpty | src/lib/PipeServer.cs:54 | no piece of the result is empty, and there are at most as many pieces |
| Channels.RawSplitNoDelimiter | src/lib/PipeServer.cs:54 | text without "::" is a single piece |
| Channels.RawSplitJoin | src/lib/PipeServer.cs:54 | an ident without "::" and not ending in ':' is the first piece, and the body's pieces follow |
| Channels.SplitJoin | src/unity/PipeClient.cs:53 | `Split(ident + "::" + body)` is exactly `[ident, body]` for a non-empty ident and body without "::" whose ident does not end in ':' |
| Channels.IdentEndingInColon | src/unity/PipeClient.cs:53 | for every ident `i + ":"` (with `i` routable as an ident) and every body whose `":" + body` has no "::", the split is `[i, ":" + body]`: the ident loses its colon to the body |
| Channels.EmptyBody | src/unity/PipeClient.cs:53 | an empty body leaves a single piece |
| Channels.ErrChannel | src/lib/Processor.cs:150 | the error channel is never the job's channel |
| Channels.Frames | src/unity/Entrypoint.cs:248-254 | consecutive sends write at least a 4-byte header per message |
| Channels.FramesAppend | src/unity/Entrypoint.cs:248-254 | one more send appends exactly its frame |
| Channels.Enqueue | src/lib/PipeServer.cs:61-69 | the body joins the tail of the ident's queue, which is created if absent; every other queue is unchanged |
| Channels.Dequeue | src/lib/PipeServer.cs:88-91 | the head is returned and removed, and every other queue is unchanged |
| Channels.EnqueueAllOrder | src/lib/PipeServer.cs:61-69 | bodies enqueued on one ident wait in order behind what was there, and no other queue changes |
| Channels.EnqueueCommutes | src/lib/PipeServer.cs:61-69 | enqueues on different idents commute |
| Server.DemuxCases | src/lib/PipeServer.cs:54-69 | more than two pieces are dropped with no queue change; no piece faults with no queue change; one piece first creates `split[0]`'s empty queue, then faults, so nothing pending changes; two pieces append `split[1]` to `split[0]`'s queue and leave the others unchanged |
| Server.DemuxJoin | src/lib/PipeServer.cs:54-68 | a routable `SendMessage(ident, body)` lands at the tail of ident's queue |
| Server.EmptyErrorTextFaults | src/lib/PipeServer.cs:54-68 | an error reply with an empty message splits into one piece; the server creates the error channel's empty queue and faults, so nothing pending changes |
| Server.ErrSuffixNoDelimiter | src/lib/Processor.cs:150 | appending "-ERR" creates no "::" |
| Server.PollSpec | src/lib/PipeServer.cs:79-95 | a disposed pipe answers null; a non-empty queue gives up its head; an empty one blocks; other queues are unchanged |
| Server.Receive | src/lib/PipeServer.cs:188-195 | an iteration of the receive loop keeps the disposed flag, does nothing once stopped, and consumes input while it runs |
| Server.Await | src/lib/PipeServer.cs:75-97 | the blocking read answers null exactly when disposed; it hangs only when the loop has stopped and the queue is empty |
| Server.ReceiveAppends | src/lib/PipeServer.cs:61-69 | the receive loop only appends to a queue |
| Server.AwaitKeepsOthers | src/lib/PipeServer.cs:81-91 | a blocking read of one ident takes nothing from any other queue |
| Server.Bodies | src/lib/PipeServer.cs:61-69 | the bodies sent on one ident are at most all the messages |
| Server.DeliverableFrame | src/lib/PipeServer.cs:102-182 | a deliverable message reads back as `ident + "::" + body` |
| Server.ReceiveFrame | src/lib/PipeServer.cs:51-70 | one iteration on a deliverable frame queues its body on its ident and consumes exactly that frame |
| Server.EnqueueFramesAt | src/lib/PipeServer.cs:61-69 | each channel receives its own bodies in arrival order, behind what was waiting |
| Server.BodiesNone | src/lib/PipeServer.cs:61-69 | no frame on an ident means no body for it |
| Server.AwaitHead | src/lib/PipeServer.cs:88-91 | with a body waiting, the read takes it at once |
| Server.AwaitStep | src/lib/PipeServer.cs:188-195 | with the queue empty, the read waits for the receive loop |
| Server.AwaitLast | src/lib/PipeServer.cs:75-97 | when the next frame is on the ident, the read returns its body |
| Server.AwaitSkip | src/lib/PipeServer.cs:75-97 | a frame on another channel is queued there, and the wait goes on |
| Server.AwaitFrames | src/lib/PipeServer.cs:75-97 | on a stream whose last frame is on the ident, the read returns that body, queues every earlier one on its own channel, and leaves the rest of the stream |
| Server.PipeServer.constructor | src/lib/PipeServer.cs:41-49 | empty queues, not disposed, receive loop running |
| Server.PipeServer.CheckForNewMessages | src/lib/PipeServer.cs:51-70 | one frame is read; a negative size faults; otherwise the outcome and the new queues are `Demux` of the payload |
| Server.PipeServer.ReceiveStep | src/lib/PipeServer.cs:188-195 | an iteration of the loop is `Receive` of the old state; a fault stops the loop for good |
| Server.PipeServer.AwaitMessage | src/lib/PipeServer.cs:75-97 | polling until a body, a disposal or a dead loop gives `Await` of the old state |
| Server.PipeServer.ReadMessage | src/lib/PipeServer.cs:79-95 | one poll is `PollSpec` of the old queues |
| Server.PipeServer.SendMessage | src/lib/PipeServer.cs:102-106 | the frame of `ident + "::" + message` is appended to what was sent |
| Server.PipeServer.Dispose | src/lib/PipeServer.cs:198-203 | the disposed flag is set, and the queues are unchanged |
| Server.ReadAfterDispose | src/lib/PipeServer.cs:79-95 | after disposal every read answers null and changes nothing |
| Client.DemuxDropsOthers | src/unity/PipeClient.cs:53-62 | anything but two pieces is dropped, with no queue change and no fault |
| Client.DemuxAgreesWithServer | src/unity/PipeClient.cs:53-62 | both ends queue alike on two or more pieces; on fewer the client drops and the server faults |
| Client.DemuxJoin | src/unity/PipeClient.cs:53-61 | a routable message lands at the tail of its ident's queue, the same queue the server's side gives it |
| Client.ReaderStep | src/unity/PipeClient.cs:78-88 | disposed gives the final null; otherwise the head of the queue, if any; other queues are unchanged |
| Client.PipeClient.constructor | src/unity/PipeClient.cs:33-46 | empty queues, not disposed, receive coroutine running |
| Client.PipeClient.ReceiveStep | src/unity/PipeClient.cs:48-66 | one frame is read; a bad frame stops the coroutine; otherwise the queues are the client's `Demux` of the payload |
| Client.PipeClient.ReadStep | src/unity/PipeClient.cs:78-88 | one iteration is `ReaderStep` of the old queues |
| Client.PipeClient.ReadMessageInternal | src/unity/PipeClient.cs:76-89 | the callback receives the queued bodies in arrival order, at most one per iteration, and other queues are unchanged; a disposed pipe gives exactly one null |
| Client.PipeClient.SendMessage | src/unity/PipeClient.cs:94-98 | the frame of `ident + "::" + message` is appended to what was sent |
| Client.PipeClient.Dispose | src/unity/PipeClient.cs:170-175 | the disposed flag is set, and the queues are unchanged |
| Files.EncodePixel | src/unity/Entrypoint.cs:220-224 | a pixel is 16 bytes, r, g, b, a |
| Files.PixelRoundTrip | src/lib/Processor.cs:183-188 | components at offsets 0, 4, 8, 12 decode back the pixel that was written |
| Files.Chunk | src/lib/Processor.cs:183 | the k-th 16-byte read is bytes 16k..16k+16 of the file |
| Files.Rows | src/unity/Entrypoint.cs:215 | `width / 2` rows |
| Files.RawRow | src/unity/Entrypoint.cs:217-239 | a row of n pixels is 16n bytes |
| Files.RawRows | src/unity/Entrypoint.cs:215-245 | n rows are `16 * width * n` bytes |
| Files.RawFile | src/unity/Entrypoint.cs:215-245 | a raw map file is `16 * width * (width / 2)` bytes |
| Files.RawRowAt | src/unity/Entrypoint.cs:217-238 | byte 16x+i of a row is byte i of pixel x |
| Files.RawRowsAt | src/unity/Entrypoint.cs:215-245 | byte `16 * (y * width + x) + i` of the rows is byte i of pixel (x, y) |
| Files.RawLayout | src/lib/Processor.cs:178-207 | read `y * width + x` of the worker's file decodes to the worker's pixel (x, y) |
| Files.ReadText | src/unity/Entrypoint.cs:189 | `ReadAllText` fails exactly for a missing path, and gives back written text |
| Files.ReadBytes | src/lib/Processor.cs:172-174 | reading a file fails exactly for a missing path, and gives back written bytes |
| Files.FileSystem.WriteAllText | src/lib/Processor.cs:142 | the path now holds the text, and nothing else changes |
| Files.FileSystem.ReadAllText | src/unity/Entrypoint.cs:189 | the result is `ReadText` of the files |
| Files.FileSystem.Delete | src/unity/Entrypoint.cs:190 | the path is gone, and nothing else changes |
| Files.FileSystem.WriteAllBytes | src/unity/Entrypoint.cs:303-305 | the path now holds the bytes, and nothing else changes |
| Files.OutputStream.constructor | src/unity/Entrypoint.cs:210-212 | a newly opened stream has nothing written |
| Files.OutputStream.Write | src/unity/Entrypoint.cs:221-224 | the bytes are appended |
| Files.TextRoundTrip | src/unity/Entrypoint.cs:189 | what `WriteAllText` stored reads back unchanged |
| Files.ReadAfterDelete | src/unity/Entrypoint.cs:189-190 | after `Delete`, reading fails with the missing-file message |
| Config.FirstMatch | src/lib/NodeTree.cs:28-30 | no match exactly when no key equals the name; otherwise the index of a matching entry with no match before it |
| Config.FirstMatchAppend | src/lib/NodeTree.cs:69-72 | appending keeps the first match of a present key, and makes the new entry the match of an absent one |
| Config.Indent | src/lib/NodeTree.cs:88-93 | the indent at level L is 4·L spaces |
| Config.EmptySerializesEmpty | src/lib/NodeTree.cs:85-111 | an empty tree serialises to "" |
| Config.IndentStep | src/lib/NodeTree.cs:89-93 | one level deeper is four more spaces |
| Config.BlocksPrefix | src/lib/NodeTree.cs:102-108 | the blocks of the first k subtrees depend only on those subtrees |
| Config.SerializeSetValue | src/lib/NodeTree.cs:96-99 | a new value line goes after the other value lines and before every subtree block |
| Config.SerializeSetNode | src/lib/NodeTree.cs:102-108 | a new subtree's block `indent+name+"\n"+indent+"{\n"` + child + `indent+"}\n"` goes after the old text |
| Config.NodeTree.constructor | src/lib/NodeTree.cs:17-21 | no values and no subtrees |
| Config.NodeTree.GetNode | src/lib/NodeTree.cs:26-34 | null exactly when no subtree has that name; otherwise the first subtree with it |
| Config.NodeTree.SetNode | src/lib/NodeTree.cs:48-51 | the pair is appended even when the name is taken; the values are unchanged |
| Config.NodeTree.AddNode | src/lib/NodeTree.cs:39-43 | a new empty subtree is appended; the result is the first subtree of that name, which is the new one only when the name was free |
| Config.NodeTree.GetValue | src/lib/NodeTree.cs:56-64 | null exactly when no key equals the name; otherwise the value of the first such entry |
| Config.NodeTree.SetValue | src/lib/NodeTree.cs:69-72 | the pair is appended; `GetValue` of a present key is unchanged, and that of an absent key is the new value |
| Config.NodeTree.ToString | src/lib/NodeTree.cs:85-111 | the text is `Serialize` of the tree the node denotes |
| Config.WriteNodes | src/lib/NodeTree.cs:102-108 | the loop writes one block per subtree, each one level deeper |
| Config.MakeIndent | src/lib/NodeTree.cs:88-93 | the loop builds `Indent(level)` |
| Config.WriteValues | src/lib/NodeTree.cs:96-99 | the loop writes the value lines in order |
| Config.SnapshotNodesAt | src/lib/NodeTree.cs:102-108 | subtree i of the tree value is the value of subtree i of the node |
| Controller.ReadN | src/lib/Processor.cs:157-160 | n reads give n replies, or fail only by stalling |
| Controller.CheckErr | src/lib/Processor.cs:150-154 | the job goes on exactly when the error channel reads "NONE" |
| Controller.Job | src/lib/Processor.cs:150-160 | a successful job has exactly `count` replies |
| Controller.ReadNQueued | src/lib/Processor.cs:157-160 | replies already waiting are read in arrival order and removed from the queue |
| Controller.ErrorCheckKeepsReplies | src/lib/Processor.cs:150 | the error check takes nothing from the job's channel |
| Controller.WorkerErrorFailsJob | src/lib/Processor.cs:150-154 | any error text but "NONE" fails the job with that text before any read of the channel |
| Controller.OpenRead | src/lib/Processor.cs:172-174 | null throws; a missing path throws the missing-file message; otherwise the file's bytes |
| Controller.OpenAll | src/lib/Processor.cs:172-174 | all files open, or the first one that throws decides the error |
| Controller.RawInputs | src/lib/Processor.cs:162-174 | a negative parsed width throws at the allocation; otherwise the width and the opened files, or the first open's error |
| Controller.DecodeMaps | src/lib/Processor.cs:177-209 | three fresh `width × width/2` grids, cell (x, y) holding read `y * width + x` of each file |
| Controller.DecodeRow | src/lib/Processor.cs:180-208 | row y of each grid is filled from reads `y * width .. y * width + width - 1` |
| Controller.Store | src/lib/Processor.cs:183-189 | cell (x, y) takes the pixel of read `y * width + x` |
| Controller.ContinueNothing | src/lib/Processor.cs:157-160 | nothing read yet leaves the reads unchanged |
| Controller.ReadNStep | src/lib/Processor.cs:157-160 | one read taken out of the remaining ones |
| Controller.ReadNHang | src/lib/Processor.cs:157-160 | a read that hangs stalls the job |
| Controller.ReadNDone | src/lib/Processor.cs:157-160 | no reads left gives what was read |
| Controller.NextRow | src/lib/Processor.cs:178-180 | a finished row is the start of the next one |
| Controller.Processor.constructor | src/lib/Processor.cs:78-79 | a processor on a server with the chosen port, not disposed |
| Controller.Processor.GenerateMapsRaw | src/lib/Processor.cs:138-221 | writes the config; sends the raw command and the path; then either the job's error, or the `RawInputs` error, or grids decoded from the three files |
| Controller.Processor.GenerateMapsEncoded | src/lib/Processor.cs:226-256 | writes the config; sends the encoded command and the path; then either the job's error or the three opened files |
| Controller.Processor.KeepaliveStep | src/lib/Processor.cs:122-129 | sends only `("KEEPALIVE", port)` and nothing once disposed |
| Controller.Processor.Dispose | src/lib/Processor.cs:261-266 | `("KILL", "KILL")` is sent before the server is disposed and the flag set |
| Controller.Processor.RunJob | src/lib/Processor.cs:141-160 | the config is written, the two sends go out, and the replies are `Job` of the old server state |
| Controller.Processor.Request | src/lib/Processor.cs:145-147 | exactly `(command, channel)` then `(channel, configPath)` are sent |
| Controller.Processor.CheckError | src/lib/Processor.cs:150-154 | the result is `CheckErr` of the old server state |
| Controller.Processor.ReadReplies | src/lib/Processor.cs:157-160 | the reads are `ReadN` of the old server state |
| Worker.Dispatch | src/unity/Entrypoint.cs:44-49 | null is ignored; a raw or encoded start subscribes a reader on the named channel; a keepalive is echoed on "KEEPALIVE" |
| Worker.HandlerOf | src/unity/Entrypoint.cs:44-49 | a reader is found exactly when one is registered for the ident |
| Worker.WiringRoutes | src/unity/Entrypoint.cs:44-49 | each ident reaches its handler; channel messages are config paths; keepalives are echoed unchanged; "KILL" closes |
| Worker.Load | src/unity/Entrypoint.cs:189 | a missing config fails with the missing-file message; otherwise `ConfigNode.Parse` runs on its text |
| Worker.Run | src/unity/Entrypoint.cs:189-193 | a failed read or parse is the job's failure; otherwise generation runs on the parsed tree |
| Worker.Answer | src/unity/Entrypoint.cs:248-254 | every body on the channel, in order, then "NONE" on the error channel |
| Worker.RawWritten | src/unity/Entrypoint.cs:215-245 | files are written exactly when generation succeeded |
| Worker.EncodedWritten | src/unity/Entrypoint.cs:303-305 | files are written exactly when generation succeeded |
| Worker.ConfigKeptIffNotLoaded | src/unity/Entrypoint.cs:189-190 | the config stays on disk exactly when `ConfigNode.Parse` throws, since `Delete` runs only after it; then the file system is unchanged and only the exception message is sent |
| Worker.WrittenFilesReadBack | src/unity/Entrypoint.cs:189-212 | after a successful run each path holds its map, and the config is gone |
| Worker.RowStep | src/unity/Entrypoint.cs:217-239 | one more pixel extends the row |
| Worker.Entrypoint.constructor | src/unity/Entrypoint.cs:33-50 | the four readers of `Awake` are registered |
| Worker.Entrypoint.Handle | src/unity/Entrypoint.cs:44-49 | each callback subscribes, echoes, closes or runs a generator, as `Dispatch` says; no callback consumes bytes still to arrive from the controller, and closing keeps the queues |
| Worker.Entrypoint.GenerateRawPlanetMaps | src/unity/Entrypoint.cs:184-272 | the config is read and parsed, and deleted only once parsed; generation runs on the parsed tree; on success the three raw files are written and the paths, the width and "NONE" are sent; on any failure the exception message goes on the error channel |
| Worker.Entrypoint.GenerateEncodedPlanetMaps | src/unity/Entrypoint.cs:277-325 | the same read, parse, then delete order; on success the three PNG files are written and the three paths and "NONE" are sent; on any failure the exception message goes on the error channel |
| Worker.Entrypoint.Send | src/unity/Entrypoint.cs:248-254 | consecutive sends write their frames in order |
| Worker.Entrypoint.WriteRawMaps | src/unity/Entrypoint.cs:215-245 | each file is rows `y < width/2`, columns `x < width`, 16 bytes per pixel |
| Worker.Entrypoint.WriteRow | src/unity/Entrypoint.cs:217-244 | one row of each map is appended |
| Worker.Entrypoint.WritePixel | src/unity/Entrypoint.cs:220-224 | r, g, b, a are appended in order |
| EndToEnd.ConfigArrives | src/lib/Processor.cs:141-142 | the worker's `ConfigNode.Parse` gets exactly the text of `pqsConfig.ToString()` |
| EndToEnd.BodiesOnOne | src/unity/Entrypoint.cs:248-251 | frames all on one channel give that channel all their bodies |
| EndToEnd.ErrorCheckPasses | src/lib/Processor.cs:150-154 | the error check of a successful worker passes and leaves its replies queued |
| EndToEnd.OthersDeliverable | src/unity/Entrypoint.cs:248-251 | replies on the channel are deliverable and are not on the error channel |
| EndToEnd.QueuedBodies | src/lib/Processor.cs:150 | after the error check the job's channel holds the replies in order |
| EndToEnd.SuccessfulReplies | src/lib/Processor.cs:150-160 | the job's reads return the worker's bodies in order |
| EndToEnd.DeliveredAll | src/lib/Processor.cs:157-160 | three or four bodies become three or four non-null replies |
| EndToEnd.RawRepliesRead | src/unity/Entrypoint.cs:248-254 | the raw worker's replies satisfy exactly the four reads as color, height, normal, size |
| EndToEnd.EncodedRepliesRead | src/unity/Entrypoint.cs:308-313 | the encoded worker's replies satisfy exactly the three reads |
| EndToEnd.ErrorReplyRead | src/unity/Entrypoint.cs:268-271 | a worker's exception message fails the job with that message |
| EndToEnd.WidthRead | src/lib/Processor.cs:163 | the width the worker prints is the width the controller parses |
| EndToEnd.RawFilesRead | src/lib/Processor.cs:162-174 | the files the raw worker wrote are the files the job opens, with the width it sent |
| EndToEnd.RawPixelsRead | src/lib/Processor.cs:177-209 | the grid cell (x, y) of each map is the worker's pixel (x, y) |
| Ports.LeastFree | src/lib/Utility.cs:56-64 | the least unused port in `[start, 65535)`, or 0 when all are used; never 65535 |
| Ports.LeastFreeIs | src/lib/Utility.cs:56-62 | the least free port is unique |
| Ports.SameUse | src/lib/Utility.cs:56-62 | the result depends only on which ports in range are used |
| Ports.AtLeast | src/lib/Utility.cs:43-52 | exactly the ports `>= startingPort` are kept |
| Ports.FilterKeepsResult | src/lib/Utility.cs:43-52 | dropping the ports below the start does not change the result |
| Ports.OrderKeepsResult | src/lib/Utility.cs:54 | reordering the list does not change the result |
| Ports.Insert | src/lib/Utility.cs:54 | inserting into a sorted list keeps it sorted and adds exactly that element |
| Ports.PrependSorted | src/lib/Utility.cs:54 | a head no larger than the first element keeps the list sorted |
| Ports.ConsSorted | src/lib/Utility.cs:54 | a head no larger than anything behind it keeps the list sorted |
| Ports.Sort | src/lib/Utility.cs:54 | `List.Sort` gives a sorted permutation |
| Ports.Gathered | src/lib/Utility.cs:41-54 | the sorted list holds exactly the used ports from the start on |
| Ports.GetAvailablePort | src/lib/Utility.cs:35-65 | the result is the least free port of the three used-port lists |
| Ports.Scan | src/lib/Utility.cs:56-64 | the scan returns the first port not in the list, or 0 |

## Left out

- Threading and scheduling are not modelled: `Task.Run`, the `WaitForConnection` background loop, busy polling, unsynchronised sends and Unity coroutines. Each loop iteration is one explicit step.
- Server.PipeServer.AwaitMessage: the receive loop runs only while the awaited queue is empty. Any other interleaving fills the queues in the same per-channel order. A read that would spin forever (queue empty, loop dead) returns `Hang` instead of not returning.
- Client.PipeClient.ReadMessageInternal: the coroutine runs for a given number of iterations with no receive step in between; its endless `yield` loop is not modelled.
- Server.PipeServer.SendMessage: a send after `Dispose` throws in the source (the stream is closed). Here it writes nothing and returns false.
- Client.PipeClient.SendMessage: same as the server; a send after `Dispose` writes nothing and returns false.
- Socket I/O is not modelled: TCP listening, `AcceptTcpClientAsync`, `Connect`, `NoDelay`, `DontFragment`, and the stream closes in both `Dispose` methods. The socket is a list of received chunks and a sent byte sequence.
- Frame.Socket.Receive: each call returns bytes from the next chunk only. Any chunking the operating system produces is an input.
- Frame.ReadSpec: every non-negative declared size reads `min(size, available)` bytes. In the source, `new Byte[messagesize]` throws `OutOfMemoryException` for a size the runtime cannot allocate; that fault is not modelled.
- Frame.BodySpec: the same; a body size too large to allocate is not modelled as a fault.
- Files.ReadText: `File.ReadAllText` decodes UTF-8; on a file written as bytes the model decodes with ASCII ('?' for each byte from 128). On the modelled paths a text file is only read as text; the lemmas about the written files take the config path to differ from the map paths (`Distinct`).
- Files.ReadBytes: `WriteAllText` stores UTF-8; reading such a file as bytes gives the ASCII encoding here ('?' for each non-ASCII character). On the modelled paths the map files are only written as bytes.
- `Encoding.ASCII` maps non-ASCII characters to '?'. This is modelled, but the round-trip properties are stated only for ASCII payloads.
- Floating point is not modelled: `BitConverter.ToSingle`/`GetBytes` and `Color.cs`. A colour component is an opaque 4-byte word.
- Unity and Kopernicus work is not modelled: `InitKSP`, `InitKopernicus`, `GenerateBody`, `GenerateMaps`, `EncodeToPNG`, `DestroyImmediate`, `Application.Quit`. `ConfigNode.Parse` is an opaque function from the config text to a node tree or an exception message; it runs before the config is deleted. The `GetValue`/`Parse` calls of the generators and all the Unity work together are a second opaque function from that tree to maps or an exception message.
- Worker.Entrypoint.GenerateRawPlanetMaps: the width of generated maps is a natural number. A negative `Int32.Parse` result, which writes empty files and sends a negative width, is not modelled.
- Temporary files are not modelled: `Path.GetTempFileName` for the config and map paths, and `Guid.NewGuid` for the channel, are parameters. The creation of the empty temp files is not modelled. A map's bytes reach the file system when the handler finishes writing, not at each `Flush`.
- Controller.Processor.GenerateMapsRaw: assumes every 16-byte `ReadAsync` fills the buffer. Past the end of a file shorter than the grid, the model reads zeros. In the source the color, height and normal reads share one 16-byte buffer (`src/lib/Processor.cs` lines 177, 183, 192 and 201), so a read past the end keeps whatever the read before it left: the height map gets this pixel's color bytes, the normal map this pixel's height bytes, and the color map the previous pixel's normal bytes; a short last read overwrites only a prefix of the buffer.
- Controller.Processor.GenerateMapsEncoded: returns the bytes of the three files rather than `DestructableFileStream` wrappers. `DestructableFileStream.cs` is not part of this model.
- `Processor.Create` is not modelled: the KSP directory check, `ApplicationBuilder`, the process start and its environment. The constructor takes the connected server and the port, and `Utility.GetAvailablePort(5000)` is modelled on its own. `TransformPath` (a `Uri` computation) is not modelled.
- Ports.GetAvailablePort: the used-port lists from `IPGlobalProperties` are parameters.
- Config.NodeTree.ToString: carries a ghost nesting bound. A tree that contains itself has no finite serialisation (the source overflows its stack), and is outside the model.
- Null strings appear only as replies (`Option<string>`). A null ident, message or config path passed to the pipe or to `NodeTree` is not modelled.
- The worker's callbacks after `Dispose` receive null, which throws or sends on a closed client; `Dispatch` models them as doing nothing.
- `src/tester/Program.cs` and `ApplicationBuilder.cs` are not part of this model.
