# vsock-shell: the framed transport, the file download and the session registry

vsock-shell gives a remote shell and file transfer between virtual machines over one stream
socket per session. This project models the parts of it that hold state and proves what they
keep, for every input and every interleaving.

- **Frames** (`Frames.dfy`): the twelve-byte header of three little-endian words and the payload.
  The layout is that of `include/message.h`; the 8- and 16-bit header fields shown in the
  repository's README.md (lines 145-146) are not what the code sends.
- **Reassembly** (`Reassembly.dfy`): the receive buffer and its validate, deliver, move-down loop,
  for any message handler.
- **Ring** (`TxRing.dfy`): the send ring with its two cursors.
- **Message queue** (`MessageQueues.dfy`): the object with two arrays, a fill count and two cursors
  that implements both, updated in place.
- **Transport** (`ByteStreams.dfy`, `Transport.dfy`, `Stalling.dfy`): ring, byte channel and reassembler over
  whole runs, and when a receive buffer can fill up for good.
- **Requests** (`Requests.dfy`, `HandlerBuffers.dfy`): the text of a transfer request, printed, truncated and
  parsed, and the fixed buffers the handlers copy payloads into.
- **File sending** (`FileSending.dfy`, `ChunkSending.dfy`, `TransferCapacity.dfy`): the resumable,
  saturation-throttled send loop, its trace language and how large a file it can carry.
- **Server session** (`ServerProtocol.dfy`, `HandlerOutcomes.dfy`, `PathAccess.dfy`, `FileTransferServer.dfy`,
  `SessionRun.dfy`): the dispatcher, the transfer handlers and the sender, as functions and on the objects they
  update, what each message does, and which files a client reaches.
- **Client** (`DownloadClient.dfy`, `FileTransferClient.dfy`): the download receiver and the upload sender.
- **Upload** (`UploadRejection.dfy`): what becomes of the client's upload at the server.
- **Download** (`Download.dfy`, `DownloadSafety.dfy`, `DownloadWrites.dfy`, `DownloadBuffers.dfy`,
  `DownloadCapacity.dfy`, `DownloadProgress.dfy`, `DownloadEnding.dfy`, `InputWaiting.dfy`): client, server, two
  rings and two channels composed into one step system, and the end-to-end results.
- **Event loops** (`ServerLoop.dfy`, `ClientLoop.dfy`, `DownloadRun.dfy`): every step of that system on the real
  objects, with the real handlers inside the frame loop, and whole runs of both ends.
- **Registry** (`SessionRegistry.dfy`): the doubly linked session list, its counter and the queue table.

`Options.dfy` holds the type of a value that may be absent.

What a system call returns is a parameter: an integer, bounded only where the call bounds it, or a
function giving one for each file position or each call. In the layers below the event loops a message
callback with its context argument is any function on any type of state.

## Main results

- The transport delivers exactly what was accepted, in order, on exactly those runs in which no
  write fills the ring to its last byte; each such write loses exactly 1,000,000 bytes, and 244 messages
  are enough to get there.
- A sender that is only called while its queue is unsaturated never gets near that state: at most
  504,120 bytes are pending after a call.
- The end cursor of the ring wraps only when a frame ends exactly on the last index, however often the
  ring was drained. So a list of messages can be sent over one connection if and only if none of its frames
  crosses a multiple of 1,000,000 bytes.
- Reads can leave the receive buffer full for good if and only if some frame is larger than the buffer.
- In every run of a download the client's file is a prefix of the source as long as no local write fell
  short, and once the end mark is seen it is the whole source if and only if none did. While the server has
  the file open and no write fell short, what is in the client's file, in transit and unread is the source.
- The repository's README.md (line 212) promises chunked transmission that supports large files. The
  code does not keep this: with full reads no data frame of a download but the last can end on the last index
  of the ring. In the step system, in which either side may move at any time, a download can be completed
  without leaving a buffer if and only if the request names a regular file, the answer leaves a byte of the
  client's 300-byte buffer free (paths of less than 295 bytes together), and request and file size satisfy
  `TransferCapacity.Completes`: every file up to 996,737 bytes then does, none above 997,041 ever does, and both
  bounds are tight.
- Every completed download ends the session: the server does not know the client's acknowledgement, and
  the rejection runs into the error callback.
- In every run of a download the client's loop has ended if and only if a read failed, it was given a refusal or
  the end mark, or a call of `write()` failed or fell short; the session has ended if and only if a read failed or
  the server has rejected a message.
- No upload of this client ever stores a byte: the begin mark behind its request is a message the server's
  dispatcher rejects, however the bytes arrive, and the new file stays empty. The repository's README.md (line 10)
  lists uploads among the features.
- An upload by a client that leaves the begin mark out stores exactly the payloads, and is acknowledged if and
  only if the ring has room for twelve bytes.
- Bound to the client's loop as it is written, which waits for input before its first flush
  (client/file_transfer_client.c:369-387), no run ever gives the server the request: no download starts.
- The real objects of both ends, driven along any schedule, stay in the state of the step system as long as
  the client is not given an answer that overruns its buffer, and exactly then an overrun is reported.
- In a session, whatever messages arrive, data is never written to a download source, a descriptor
  created for writing is never read from, no file that existed before is changed, and file data is sent only
  from a path that an earlier download request named. A client can read back its own upload. All this is up
  to the first request or command whose payload does not fit the handler's 4,096 bytes, which the code does
  not check.
- In a download between these two programs the server's copies stay in their buffer in every run, and the
  client's copy of the answer does if and only if the paths make up less than 295 bytes for a granted
  request, the source less than 267 for a missing one, less than 272 for one that is not a regular file, or the
  error text less than 275 if it cannot be opened.
- The linked list, its counter and the queue table agree after any sequence of connects, forks, disconnects
  and reapings. Reaping during the walk removes exactly the dead sessions: exactly their files, sockets and
  pseudo-terminals are closed, exactly their children killed, and each of their sockets is sent one flush of its
  queue with the last message appended; the others keep their files, their queues and what is queued.

## Model

| member | source | states |
|---|---|---|
| Frames.WordRoundTrip | include/message.h:14-19 | a header word and its four bytes determine each other |
| Frames.FrameBytes | include/message.h:14-19 | magic number, type and length byte by byte, least significant byte first, then the payload |
| Frames.FrontIsEncoding | lib/message_queue.c:229-246 | the frame loop recognises a message exactly when the buffer starts with that message's encoding |
| Frames.FrontIsStable | lib/message_queue.c:229-245 | bytes that arrive later never change what a decided front is |
| Frames.ParseIsSound | lib/message_queue.c:229-262 | parsing a stream loses no byte and stops only where no frame is complete |
| Frames.ParseInvertsEncode | lib/message_queue.c:79-81 | parsing recovers exactly the messages that were encoded |
| Frames.FramingIsPrefixFree | lib/message_queue.c:229-262 | a byte prefix of a framed stream that consists of frames is a message prefix |
| Reassembly.ProcessVerdict | lib/message_queue.c:229-262 | the accepted messages are those the handler took; each way the loop stops tells what stands at the front and what state the handler is in |
| Reassembly.AcceptedExactlyOnce | lib/message_queue.c:195-263 | for any handler and any chunking, accepted frames followed by the buffer are the bytes read: no message skipped, repeated or altered |
| Reassembly.ChunkingIndependence | lib/message_queue.c:212-262 | with a handler that accepts, messages, leftover and handler state are a function of the concatenation of the bytes read |
| Reassembly.BadMagicIsForever | lib/message_queue.c:232-238 | after a bad magic number no later read delivers anything, whatever arrives |
| Reassembly.RejectedIsPresentedAgain | lib/message_queue.c:247-253 | a rejected message stays at the front and is the first one the next read presents |
| Reassembly.RoomForNextRead | lib/message_queue.c:213-215 | with payloads of at most 4096 bytes the leftover is a strict prefix of the next frame and 95,893 bytes of room remain |
| TxRing.ContiguousSpaceDecides | lib/message_queue.c:66-77 | the cursor arithmetic accepts a write exactly if it fits the free space and does not cross the end of the array |
| TxRing.WriteAppendsIff | lib/message_queue.c:66-87 | an accepted write appends to the FIFO queue if and only if one byte stays free; otherwise the cursors meet |
| TxRing.EndAfterWrite | lib/message_queue.c:80-85 | the end cursor advances by the frame and wraps only on the last index |
| TxRing.TwoFullFlushesDrain | lib/message_queue.c:170-188 | two flushes that write all they offer empty the ring |
| TxRing.PositiveFlushesDrain | lib/message_queue.c:181-188 | flushes that each write at least a byte empty the ring within as many flushes as bytes are pending |
| MessageQueues.MessageQueue.WriteRaw | lib/message_queue.c:91-121 | the copy into the array and the cursor update do what the ring function says; a refused write changes neither cursor nor buffer |
| MessageQueues.MessageQueue.Write | lib/message_queue.c:51-88 | queues the encoded message, or refuses it and changes nothing |
| MessageQueues.MessageQueue.HasPendingWrites | lib/message_queue.c:124-134 | true exactly if bytes are pending |
| MessageQueues.MessageQueue.IsSaturated | lib/message_queue.c:137-155 | true exactly if more than 500,000 bytes are pending, wrapped or not |
| MessageQueues.MessageQueue.FlushWrites | lib/message_queue.c:158-192 | a write() that fails or takes nothing leaves the start cursor where it was; otherwise the smaller of its result and the contiguous bytes is written and the cursor moves by it, wrapping at the end; what was pending is what was written followed by what is still pending |
| MessageQueues.MessageQueue.Read | lib/message_queue.c:195-226 | appends what was read and leaves state, buffer and error report as the frame-loop function says; nothing read changes nothing |
| MessageQueues.MessageQueue.DeliverFrames | lib/message_queue.c:228-262 | the in-place loop refines the recursive one and terminates, each delivered frame taking its size off the fill count |
| Transport.RunKeepsLedger | lib/message_queue.c:51-88 | on every run each exact fill loses one ring of bytes and nothing else is lost |
| Transport.ConservedIffNeverExactlyFull | lib/message_queue.c:66-87 | everything accepted is delivered, buffered, on the wire or pending, if and only if no write filled the ring exactly |
| Transport.ExactFillIsReachable | lib/message_queue.c:66-87 | 243 messages of 4096 bytes and one of 1744, all accepted, fill the ring exactly and are all lost |
| Transport.DeliveredIsPrefixOfSent | lib/message_queue.c:195-263 | the delivered messages are a prefix of the accepted ones |
| Transport.DrainedMeansDelivered | lib/message_queue.c:158-263 | once ring and wire are empty an accepting handler has been given every accepted message |
| Transport.FullBufferStallsForever | lib/message_queue.c:213-224 | a receive buffer that is full before its frame is complete never changes again, on any run |
| Stalling.StallIffOversized | lib/message_queue.c:213-245 | with a handler that accepts, some reads of a stream of frames leave the buffer full for good if and only if some frame is larger than 100,000 bytes |
| Stalling.DeliveredFitsBuffer | lib/message_queue.c:213-245 | no handler is ever given a message whose frame is larger than the buffer |
| Transport.RunKeepsCursors | lib/message_queue.c:80-85 | the cursors are the running totals modulo the ring size |
| Transport.LifetimeCapacity | lib/message_queue.c:66-85 | more than 1,000,000 bytes are accepted on a connection only if some initial run of the frames adds up to exactly 1,000,000 |
| Transport.CanBeSentIff | lib/message_queue.c:66-87 | some schedule gets exactly these messages accepted, and none of them lost, if and only if no frame crosses the end of the array, laid one after another around it |
| Transport.CanBeDeliveredIff | lib/message_queue.c:51-263 | messages the sender can build can all be accepted and delivered to a handler that accepts, each once and in order, if and only if no frame crosses the end of the array |
| Transport.RefusedIff | lib/message_queue.c:66-77 | a message is refused exactly if it would cross the end of the array, counted from all bytes ever accepted, or exceeds the free space |
| Requests.RequestRoundTripIff | client/file_transfer_client.c:89-101 | the server recovers the printed paths if and only if both are non-empty and free of spaces and the text fits the data field; the printed text is truncated, the announced length is not |
| Requests.ParseRequestIff | server/file_transfer_server.c:132-142 | strtok yields exactly the first two maximal runs of non-spaces of the C string, and fails exactly if there are not two |
| HandlerBuffers.TerminatedHoldsTheText | server/file_transfer_server.c:126-137 | what is parsed out of the copy is what is parsed out of the payload, whatever the buffer held before |
| HandlerBuffers.CopyTerminated | server/file_transfer_server.c:73-81 | the copy into the buffer with the terminator behind it |
| FileSending.SendLoop | server/file_transfer_server.c:257-299 | the loop terminates, finishes only at the end of the file and pauses only on a saturated queue |
| FileSending.SendLoopTrace | server/file_transfer_server.c:257-299 | a pass queues chunks of 1 to 4096 bytes continuing the file, then an end mark exactly if it finished; no abort path queues one |
| FileSending.SendLoopNeverFills | server/file_transfer_server.c:284-298 | from an unsaturated queue a pass never fills the ring exactly and leaves at most 504,120 bytes pending |
| FileSending.CallNeverFills | client/file_transfer_client.c:114-165 | the same for a whole call of either sender, begin mark included |
| FileSending.TransferLanguage | server/file_transfer_server.c:244-299 | over any calls, pauses and flushes the server queues one begin mark, chunks that make up a prefix of the file, and one end mark only after all of it; the client may repeat the begin mark |
| FileSending.CallEnds | client/file_transfer_client.c:114-165 | for either sender, a call whose begin mark is accepted leaves the file open only on a saturated queue and further on; else it ends at the end of the file with one end mark, or without one after a failed read or a refused write |
| TransferCapacity.NoChunkEndsTheArray | server/file_transfer_server.c:284-288 | behind an answer of at most 312 bytes no full chunk ends on the last index of the ring |
| TransferCapacity.DownloadCompletesIff | server/file_transfer_server.c:231-300 | with full reads, a sender that has closed the file has queued the end mark if and only if the framed size fits |
| TransferCapacity.CompletesBounds | server/file_transfer_server.c:284-293 | files up to 996,736 bytes fit behind every answer, up to 996,737 behind every answer shorter than the buffer, files above 997,041 bytes behind none, and all bounds are tight |
| ChunkSending.SendChunks | server/file_transfer_server.c:257-299 | the loop on the real queue does what the loop function says |
| ServerProtocol.UploadAnswerSaysOkIff | server/file_transfer_server.c:93-113 | the answer says OK exactly if the file did not exist, its directory does and it could be created, and then it is open for writing; a refusal leaves the disk alone, and the session too unless open() failed, whose result overwrites the descriptor |
| ServerProtocol.DownloadAnswerSaysOkIff | server/file_transfer_server.c:146-166 | the answer says OK exactly if the source is a regular file that could be opened, and then it is open for reading; a refusal leaves the session alone unless open() failed |
| ServerProtocol.AnswerTexts | server/file_transfer_server.c:18-68 | a granting answer echoes the two paths; a refusal quotes the path it is about or ends with what open() reported |
| ServerProtocol.AcceptingFitsClientIff | client/file_transfer_client.c:211-219 | the client's copy of an accepting answer stays in its 300 bytes if and only if the two paths make up less than 295 |
| ServerProtocol.HandleCases | server/terminal_server.c:370-414 | any message leaves the file, closes it, opens one for reading, creates a new one, or appends to the open upload, and does nothing else to file and disk |
| ServerProtocol.SessionInvariantAlwaysHolds | server/terminal_server.c:302-439 | connection type and open mode agree, and files that existed before the session are unchanged, after any messages, terminal output, send calls and flushes, taking every copy to fit its buffer |
| PathAccess.OpenFileWasRequested | server/file_transfer_server.c:93-107 | an open file was named by an earlier request of the fitting kind |
| PathAccess.DataSentWasRequested | server/file_transfer_server.c:231-300 | file data is queued only by a send call, from a path an earlier download request named, and is what the file holds from the position on |
| PathAccess.UploadCanBeReadBack | server/file_transfer_server.c:124-174 | a file of 1 to 4096 bytes uploaded in one message to a new path that a request can carry is read out whole by a download request for it in the same session |
| SessionRun.RunSession | server/terminal_server.c:370-439 | the real objects of a session follow the session function, and keep its invariant, up to the first event whose payload does not fit its buffer, and exactly there the run stops |
| ServerProtocol.DataAcceptedIff | server/file_transfer_server.c:177-204 | data is accepted exactly if an upload is open and the whole payload was written, and then extends the file by it |
| ServerProtocol.UploadCollectsPayloads | server/file_transfer_server.c:177-204 | accepted data messages append their concatenation to the uploaded file and change nothing else |
| ServerProtocol.UploadEnds | server/file_transfer_server.c:207-228 | the end mark closes the file; it succeeds exactly if the ring has contiguous room for twelve bytes, and log and pending bytes then grow by exactly the acknowledgement |
| ServerProtocol.UploadStoresExactlyThePayloads | server/file_transfer_server.c:71-228 | a granted upload stores exactly the payloads, leaves every other file alone and closes the file; after the answer the acknowledgement is sent if and only if the ring has room for it |
| HandlerOutcomes.MalformedRequestOutcome | server/file_transfer_server.c:83-89 | a request without two paths is rejected and changes nothing |
| HandlerOutcomes.UploadRequestOutcome | server/file_transfer_server.c:71-121 | an upload request is answered by one message, queued exactly if it fits; session and disk change exactly if it is granted, but for the descriptor of a failed open() |
| HandlerOutcomes.DownloadRequestOutcome | server/file_transfer_server.c:124-174 | likewise for a download request, which never changes the disk |
| HandlerOutcomes.DataOutcome | server/file_transfer_server.c:177-204 | data is rejected outside an upload; in one the file grows by what write() took of it, and exactly the whole payload is accepted |
| HandlerOutcomes.TerminalOutcome | server/terminal_server.c:302-318 | opening a terminal changes the connection type even if it fails, and nothing of file, disk and queue |
| HandlerOutcomes.TerminalStopsDownload | server/file_transfer_server.c:231-242 | once a terminal was opened nothing more of an open download is sent |
| HandlerOutcomes.TerminalInputOutcome | server/terminal_server.c:321-367 | input and window sizes succeed only with a terminal, a window size only with the size of the structure, and change nothing |
| HandlerOutcomes.UnknownOutcome | server/terminal_server.c:407-410 | every other type of message, begin mark and acknowledgement among them, is rejected and changes nothing |
| HandlerOutcomes.PtyDataOutcome | server/terminal_server.c:417-430 | terminal output is queued in one message of at most 4096 bytes exactly if it fits, and nothing else changes |
| FileTransferServer.HandleUploadStart | server/file_transfer_server.c:71-121 | session, disk, queue and result after an upload request; a payload that does not fit the buffer is reported, and only such a one |
| FileTransferServer.HandleDownloadStart | server/file_transfer_server.c:124-174 | session, queue and result after a download request; overruns as for uploads |
| FileTransferServer.HandleData | server/file_transfer_server.c:177-204 | session, disk and result after a data message |
| FileTransferServer.HandleDataEnd | server/file_transfer_server.c:207-228 | the file is closed, and the acknowledgement queued exactly as `ServerProtocol.UploadEnds` says |
| FileTransferServer.HandleMessage | server/terminal_server.c:370-414 | the dispatcher does for every kind of message what the session function says; child and pseudo-terminal are set by a successful open and by nothing else |
| FileTransferServer.SendData | server/file_transfer_server.c:231-300 | position, begin flag, file and queue after a send call, resumed or not |
| FileTransferServer.ForwardPtyData | server/terminal_server.c:417-430 | terminal output is queued in one message of at most 4096 bytes, or dropped if the queue is full |
| FileTransferServer.EndSession | server/terminal_server.c:256-282 | the last message, one flush and the closed file |
| DownloadClient.LocalFileIff | client/file_transfer_client.c:206-266 | the local file is what was delivered up to the end mark if and only if no write was short, else shorter; only an end mark closes it |
| DownloadClient.LocalFileIsDeliveredIff | client/file_transfer_client.c:229-242 | the same in terms of what each call of write() returned for which payload |
| DownloadClient.CompletesIff | client/file_transfer_client.c:206-266 | the client stops if and only if it was given an answer that does not begin with OK, a call of write() failed or fell short, or it was given an end mark |
| DownloadClient.ShortWriteLeavesAGap | client/file_transfer_client.c:237-242 | after a short write the loop goes on and the file is no longer a prefix |
| FileTransferClient.Downloader.HandleDownloadMessage | client/file_transfer_client.c:206-266 | the handler updates file, flag and queue as the client function says and never rejects; an answer that does not fit the buffer is reported |
| FileTransferClient.Uploader.SendFileData | client/file_transfer_client.c:104-166 | position, file and queue after an upload call are those of the call `FileSending.CallEnds` speaks of |
| FileTransferClient.Uploader.HandleUploadMessage | client/file_transfer_client.c:169-203 | a granting answer starts a call of the sender, a refusal or an acknowledgement ends the loop, and nothing else does anything |
| UploadRejection.UploadStoresNothing | server/terminal_server.c:370-414 | whatever the client queues behind its upload request, and however it arrives, the server accepts the request at most, the new file stays empty and every other file is as it was |
| DownloadSafety.RunKeepsInvariant | server/terminal_server.c:485-515 | what every step of client and server keeps, for every request and disk |
| DownloadSafety.DownloadConservation | server/file_transfer_server.c:231-300 | client file, payload in transit and unread source are the source while the server's file is open |
| DownloadSafety.DownloadIsPrefixAndCompletionIsWhole | client/file_transfer_client.c:229-258 | the client's file is a prefix of the source, and after the end mark the whole of it if and only if no write was short |
| DownloadWrites.CompletedIsWholeIff | client/file_transfer_client.c:229-258 | after the end mark the client's file is the source if and only if no call of write() fell short of its payload |
| DownloadWrites.ClientStopsIff | client/file_transfer_client.c:206-273 | in every run the client has stopped if and only if a read failed, it was refused, a call of write() failed or fell short, or it was given the end mark |
| DownloadSafety.CompletedFileIsTheRequestedOne | client/file_transfer_client.c:339-395 | a completed download of space-free paths is the file named in the request |
| DownloadSafety.DownloadTransportNeverFails | lib/message_queue.c:195-263 | in no run does the client's reassembler fail or run out of room, or the server's ring exceed 504,120 bytes |
| DownloadSafety.DrainedDownloadIsDelivered | lib/message_queue.c:158-263 | a drained connection has handed the client every message the server queued |
| DownloadBuffers.GrantSizeIs | server/file_transfer_server.c:66 | the granting answer takes 17 bytes and the two paths in the ring, at most 312 |
| DownloadBuffers.AnswerFitsIff | client/file_transfer_client.c:211-219 | the client's copy of an answer stays in its buffer if and only if: a missing source has less than 267 bytes, one that is not a regular file less than 272, the error text less than 275, or the paths of a granted request less than 295 |
| DownloadBuffers.DownloadStaysInBuffersIff | client/file_transfer_client.c:206-226 | in every run the server's copies stay in their buffer, and the client's do if and only if the answer it was given, granting or refusing, fits; without an answer nothing is copied |
| DownloadCapacity.GrantedDownloadEndsIff | server/file_transfer_server.c:231-300 | in the composed system a granted download that the server has closed has ended if and only if request and file size satisfy the fit condition |
| DownloadCapacity.UnfittingDownloadNeverCompletes | server/file_transfer_server.c:284-293 | if they do not satisfy it, no run shows the client the end mark |
| DownloadCapacity.NoLargeDownloadCompletes | server/file_transfer_server.c:284-293 | no run ever completes a download of more than 997,041 bytes |
| DownloadCapacity.FittingDownloadArrivesWhole | client/file_transfer_client.c:244-258 | a granted download that fits, closed by the server and drained, has arrived whole, with the client's copies in their buffer if and only if the answer is shorter than it |
| DownloadProgress.CompletingSchedule | server/terminal_server.c:485-515 | steps of both sides that complete a download that fits, all copies inside their buffers |
| DownloadProgress.DownloadCanBeCompletedIff | server/file_transfer_server.c:231-300 | some run completes the download, all copies inside their buffers, if and only if the request names a regular file, the answer is shorter than the client's buffer, and request and file size satisfy the fit condition |
| DownloadEnding.CompletedDownloadEndsSession | server/terminal_server.c:407-410 | once the client has seen the end mark and all it sent has been read, the server has rejected the acknowledgement and destroyed the session |
| DownloadEnding.SessionEndsIff | server/terminal_server.c:442-460 | in every run the session has ended if and only if a read failed or the server has rejected a message, which stands at the front of its buffer |
| DownloadEnding.ReadEndsIff | lib/message_queue.c:228-262 | in any state a read that brings something leaves the session alive exactly if it leaves an unfinished frame, and a client left with a malformed one stops |
| DownloadEnding.DestroyOutcome | server/terminal_server.c:256-282 | the error callback queues the last message if there is room, writes as much of the contiguous bytes as write() takes, in order, and closes the file |
| InputWaiting.WaitingDownloadNeverStarts | client/file_transfer_client.c:369-387 | with a client that reads and flushes only when its socket is readable the server is never given the request |
| ServerLoop.ServeFrames | lib/message_queue.c:228-262 | the frame loop with the real dispatcher, which writes to the same queue, refines the recursive one, each message with the outcomes of its own system calls |
| ServerLoop.ServerReads | server/terminal_server.c:495-499 | reading on the real objects, error callback included, is the read step of the system |
| ServerLoop.ServerSends | server/terminal_server.c:505-508 | the guarded send call is the send step |
| ClientLoop.TakeFrames | lib/message_queue.c:228-262 | the frame loop with the real download handler, which writes to the same queue, refines the recursive one |
| ClientLoop.ClientReads | client/file_transfer_client.c:369-387 | reading on the real objects, error callback included, is the read step of the client |
| DownloadRun.ServerNeverOverruns | server/file_transfer_server.c:126-134 | in no run is the server given a message that does not fit its buffer |
| DownloadRun.RunDownload | client/file_transfer_client.c:339-395 | along any schedule the real objects end in the state of the step system, or an overrun is reported, and that exactly if the client was given an answer that does not fit its buffer |
| SessionRegistry.QueueTable.Init | lib/message_queue.c:24-36 | succeeds exactly on a free descriptor in range if there is memory, and touches no other entry |
| SessionRegistry.QueueTable.Destroy | lib/message_queue.c:39-48 | succeeds exactly on an occupied descriptor, and touches no other entry |
| SessionRegistry.Registry.AddToList | server/terminal_server.c:83-94 | the session is linked in at the front and counted |
| SessionRegistry.Registry.RemoveFromList | server/terminal_server.c:97-110 | exactly this session is unlinked, wherever it stands |
| SessionRegistry.Registry.CreateSession | server/terminal_server.c:227-253 | fails exactly for a descriptor out of range or in use or without memory; list, counter and table keep agreeing and all other queues stay in place |
| SessionRegistry.Registry.DestroySession | server/terminal_server.c:256-299 | the last message and one flush go out, file, pseudo-terminal and socket are closed, a child is killed, the session and its queue are gone, all others are as before and in order, with what is queued for them |
| SessionRegistry.Registry.FindSessionBySocket | server/terminal_server.c:113-125 | the unique session with the socket, or none if there is none |
| SessionRegistry.Registry.CleanupDeadSessions | server/terminal_server.c:518-540 | every session is visited once, in order, and exactly those not dead remain, in order and with their files, queues and queued bytes; every dead one has its file closed; closed are exactly the sockets and open pseudo-terminals of the dead, killed exactly their children; each of their sockets, and no other, is sent one flush of its old queue with the last message appended |
| SessionRegistry.SurvivorsIff | server/terminal_server.c:528-536 | a session remains exactly if it is not dead |
| SessionRegistry.Registry.SetupSelect | server/terminal_server.c:463-482 | the set is what was given plus the watched descriptors, the maximum is the maximum of all of them |
| SessionRegistry.WatchedIff | server/terminal_server.c:467-478 | watched are every socket, every open pseudo-terminal, and nothing else |
| SessionRegistry.EntriesStayProper | server/main.c:71-94 | after any connects, forks, disconnects and reapings the descriptors are distinct and index the queue table |
| SessionRegistry.Replay | server/terminal_server.c:182-299 | the heap structure stays valid and follows the list of sockets and children through any sequence of connects, with or without memory, forks, disconnects and reapings |

## Left out

- Read: a length field above INT_MAX - 12, whose frame size the C `int` cannot hold, makes the model stop with its own report; what the code does then is not modelled. Its callback is a pure function; the handlers that write to the queue being read are in `ServerLoop` and `ClientLoop`.
- DeliverFrames: as for Read, its callback is a pure function.
- Write: payloads above 4096 bytes, which the C message structure cannot hold, are a precondition.
- SessionInvariantAlwaysHolds: a START or OPEN_CMD payload above 4096 bytes overruns the handler's buffer in the code, and what happens then is not modelled; the session functions go on as if it fitted, the methods in `FileTransferServer` and `SessionRun` report it and stop.
- UploadStoresNothing: likewise for a request above 4096 bytes, which this client does not print.
- HandleDownloadMessage: likewise for an answer of 300 bytes or more, the longest the server builds; HandleUploadMessage too.
- SendData: descriptors are files with a path, a mode and a position; a descriptor that is overwritten while open, and so never closed, leaves no trace in the model.
- HandleMessage: what the child process does with its command, and bytes written to a pseudo-terminal, go nowhere; the calls that open a pseudo-terminal and fork succeed or fail together.
- DownloadCompletesIff: reads of the source that fail or return less than they are asked for are excluded here, in the main results of `DownloadCapacity` and in `DownloadProgress`; the safety results allow them.
- ServerReads: the step of the download system takes one set of outcomes for all messages of a read; its server accepts only one message. `ServerLoop.ServeFrames` takes one for each.
- Initial: a request that does not fit the data field, whose announced length exceeds the message structure, is excluded from the download system; `Requests` treats it.
- The range and null checks on the descriptor at the start of each queue operation, apart from those of creation and destruction; the queue is passed as an object.
- Raw writes into a queue have no caller in the repository; they appear only as the copy that message writes share.
- The client's event loop of an upload: its sender, its message handler and what the server makes of the messages are modelled, not the waiting in between.
- A terminal session from end to end, the terminal client and both main programs: event-loop and operating-system glue.
- The I/O pass over the list (server/terminal_server.c:485-515) as a traversal: after an error it continues with a destroyed session. What it does to one session is the steps of the download system and of `SessionRun`.
- Progress of the server's event loop, which waits for input too: nothing is proved about when it is woken.
- Logging, path validation on the client, and changes to files by other processes.
