# Verified model of the remote backup protocol

A client keeps a server's copy of a directory up to date. Files travel as messages of
type-length-value segments (TLVs), cut into chunks of at most 64 KiB, over a framed connection. This
project models the protocol from the bytes on the wire up to the agreement of both sides and proves
what it promises.

## Layers

- **Wire** (`Tlv`, `FMessage`, `MessageQueue`, `Sign`, `Connection`). Messages, the cursor over
  their segments, the cutting of a file into chunks that share one buffer, the packing of a reply
  into messages, the signs that join a path and a digest, and the frames both ends exchange. The
  objects that work in place are classes (`Message`, `TlvView`, `FMessage`, `MessageQueue`,
  `Socket`), each proved against a function on sequences.
- **Server** (`Server`, `RequestHandler`, `Service`, `Session`, `Replies`, `Upload`, `Request`,
  `Effect`, `Finish`, `Tree`). One session is a state: two phase flags, the tracked directory, the
  disk and the open upload stream. `Server` says what every request does to it; class
  `RequestHandler` runs the handlers step by step and is proved against it; `Service` serves a
  connection with it.
  `Request` proves what one request does and leaves alone, `Session`, `Replies`, `Upload`, `Effect`
  and `Finish` what holds over whole runs; `Tree` looks at directories.
- **Client** (`Client`, `Retrieval`, `RoundTrips`, `Restore`, `Operations`). Class `Scheduler`
  judges responses, scans, synchronizes, retrieves and restores. The round trips go from the
  server's disk to the client and back.
- **Both** (`Agreement`, `Settlement`, `Hazard`, `Exchange`, `Scan`, `Round`, `Arrival`, `Sync`,
  `Converge`, `EndToEnd`, `Listing`). A system of the client's directory, the server and the
  operations on their way; what each move of it keeps, byte by byte too, what a round of the watcher
  and what a synchronization achieve, and a whole session from its first listing on.

## Where the code does less than it promises

Each of these is a theorem with its exact condition.

- A file can be cut into chunks if and only if its size modulo the payload size
  M = 65536 - 7 - |sign| is neither M - 2 nor M - 1: the code asks for M bytes as soon as more than
  M - 3 remain (`CutExact`; `OneByteShort` is an instance).
- The test for the last chunk looks at three bytes only. Every chunk of an upload is replied to with
  OK and the file ends up in place if and only if, besides, no non-final payload ends in 03 00 00
  (`UploadIsPut`). When only an empty payload follows, a reply says that the file is there already,
  which the client takes for a success: the upload has the effect of a put if and only if no payload
  that is followed by further bytes of the file ends that way (`UploadTakesEffect`). Otherwise an
  update can remove the file altogether (`FalseEndIsFatal`). Until all of it has been sent, an
  update leaves the old file alone if and only if nothing that was sent ends that way
  (`UpdateIsAtomic`).
- An update that breaks off leaves its working copy behind, and the next update of the file appends
  to it. Whatever the server's state, the file is afterwards exactly the working copy if that has
  the announced digest, and gone otherwise (`UpdateFinishes`). One lost reply in the middle of an
  update, and the watcher's own retry, so remove the file from the server (`RetryLosesFile`). A
  synchronization works in every order if and only if, besides the files that are sent being
  uploadable, no working copy with bytes in it and no file of the client's is in the way of an
  update (`SyncConvergesExactly`; `StaleCopyBreaksSync` is an instance).
- A round of the watcher makes the server mirror the client, in whatever order its operations are
  delivered, if and only if every path allows it (`RoundMirrorsExactly`; `Attainable` is the
  condition on the client's entry, the local file and the server; `RoundBringsTheBytes` is the plain
  case with nothing in the way). What stands in the way can stay until the next synchronization. A file
  the client takes to be on the server and the server does not track is not tracked again, whatever
  else happens, because every update of it is refused (`LostForGood`; so after the retry above,
  `RetryLosesForGood`). A file that is removed locally after an update of it was lost is never
  erased, because the client asks under a digest the server does not have (`NeverErased`,
  `DroppedUpdateBlocksErase`).
- A user has one upload stream. However uploads are interleaved, all their bytes go to the file that
  was begun first (`InterleavedPieces`).
- A LIST that fails is taken for a listing of the files met by then, unless it fails at the first of
  them (`ListingIsTakenExactly`).
- A `RETRIEVE` that fails, and any request of type `NONE`, adds a segment to an empty queue, which
  is undefined in the code. `OutcomesExactly` says for which requests that happens and for which an
  exception leaves the handler; `MissingFileIsUndefined` is an instance.
- The chunks of uploads keep the server invariant if and only if no path of interest is another one
  plus `.temp` (`KeptExactly`; `TrackedWorkingCopyBreaks` is an instance).
- A lost reply to an update or an erase never makes the client wrong about the server, though it can
  cost the file on a retry, as above. A create whose last reply is lost, or whose file breaks off,
  leaves the client wrong about what is absent if and only if it looks finished to the server
  (`NextAgreesExactly`, with the condition on the server's disk and the payloads in `LooksFinished`;
  `LostReplyIsUnsafe` is an instance). The client repeats such a create, and takes the error that
  the file is there already for a success: it is then wrong about what is synced if and only if the
  file has changed in between (`NextTrustsExactly`; `ChangedFileIsBelieved` is the run).
- A retrieval that does not reach its END leaves what has arrived by then in the place of the local
  file, and counts as failed (`RetrieveExactly`).
- Erasing a file removes the directories that become empty; a create that fails its digest check
  leaves them. `FailedCreate` says when the tree is as before.

The code of an error is sent in decimal, as the handlers intend; in the code the string is gone by
the time it is read (server/core/request_handler.cpp:38-43). The session flags start out false.

## Model

| member | source | states |
|---|---|---|
| Tlvs.LengthRoundTrip | shared/communication/message.cpp:37-39 | the two length bytes written for a value give its length back exactly when that is at most 65535 |
| Tlvs.SegmentLayout | shared/communication/message.cpp:34-43 | a segment is its tag, its length with the high byte first, and its value; the two bytes tell the length exactly up to 65535 |
| Tlvs.ParseEncode | shared/communication/tlv_view.cpp:21-37 | walking the bytes of any list of segments with values of at most 65535 bytes gives exactly that list |
| Tlvs.EncodeParse | shared/communication/tlv_view.cpp:21-37 | a buffer the walk accepts is the encoding of what the walk saw, so it has one reading |
| Tlvs.MessageRoundTrip | shared/communication/message.cpp:14-43 | a message built of a type and segments has that type byte and gives those segments back |
| Tlvs.VerifyEndExact | shared/communication/tlv_view.cpp:44-51 | the end test holds exactly when the last segment is an empty END or its value ends in 03 00 00 |
| Tlvs.Message.AddTlv | shared/communication/message.cpp:34-43 | the buffer grows by the bytes of the segment and is otherwise unchanged |
| Tlvs.Message.Resize | shared/communication/message.cpp:87-89 | the buffer gets the length, by cutting its end off or adding zeros |
| Tlvs.TlvView.constructor | shared/communication/tlv_view.cpp:11-13 | the cursor stands behind the type byte of any buffer; on a well-formed message it starts before all its segments |
| Tlvs.TlvView.NextTlv | shared/communication/tlv_view.cpp:21-37 | the cursor shows the next segment in order, stays inside the buffer, moves on, and is finished for good after the last |
| Tlvs.Walk | shared/communication/message.cpp:95-106 | a loop over the cursor ends and visits exactly the segments of the message, in order |
| Tlvs.BuildAndWalk | shared/communication/message.cpp:34-43 | adding segments one by one and walking the message gives them back |
| FileMessages.CutExact | shared/communication/f_message.cpp:58-82 | cutting completes exactly for the good sizes; it yields one payload per M full bytes and one for the rest, of the stated sizes, and they join to the file, or to its full M-byte parts when it fails |
| FileMessages.OneByteShort | shared/communication/f_message.cpp:61-73 | a file of M - 1 bytes fails at its first chunk |
| FileMessages.ChunkSizes | shared/communication/f_message.cpp:61-79 | non-final chunk messages have exactly 65536 bytes, the final one with its END at most that, and no length is truncated |
| FileMessages.VerifyEndOfChunk | shared/communication/f_message.cpp:75-79 | on a chunk message the end test means: final, or the payload ends in 03 00 00 |
| FileMessages.FMessage.constructor | shared/communication/f_message.cpp:17-33 | the buffer has full size and holds the header of every chunk, all of the file remains, and if the sign leaves room for content the messages to come are those of the cut |
| FileMessages.FMessage.ReadContent | shared/communication/f_message.cpp:67-73 | length and content go over the previous chunk behind the header; it fails exactly when too few bytes remain |
| FileMessages.FMessage.NextChunk | shared/communication/f_message.cpp:58-82 | call after call the shared buffer is the next message of the cut of the file; then false for good, or the failed read of an incomplete cut |
| FileMessages.ReadChunks | server/core/request_handler.cpp:398-412 | driving a file message to its end gives all messages of the cut and tells whether the end was reached |
| MessageQueues.DecimalRoundTrip | server/communication/message_queue.cpp:46-49 | the number read back, as `std::stoi` reads it, from one written in decimal is that number, exactly for those that fit into an int |
| MessageQueues.StoiReads | server/communication/message_queue.cpp:46-49 | of any string the number read skips blanks and takes at most one sign and the digits behind it, and nothing after them; without digits or out of the range of an int it is an exception |
| MessageQueues.PackedConserves | server/communication/message_queue.cpp:36-50 | the packed messages together hold exactly the segments added, in order |
| MessageQueues.PackedMessages | server/communication/message_queue.cpp:14-50 | every packed message starts with the type of the queue, is well formed and has at most 65536 bytes |
| MessageQueues.PackedIsOptimal | server/communication/message_queue.cpp:36-50 | no split of the same segments, in order, into messages within the limit has fewer messages |
| MessageQueues.MessageQueue.constructor | server/communication/message_queue.cpp:14-22 | a new queue holds one empty message, or none for the types NONE and RETRIEVE |
| MessageQueues.MessageQueue.AddTlv | server/communication/message_queue.cpp:36-50 | the segment goes to the last message if it fits there, else to a new one; an ERROR sets the error code of the queue |
| MessageQueues.MessageQueue.AddMessage | server/communication/message_queue.cpp:52-54 | the message goes to the back |
| MessageQueues.MessageQueue.Pop | server/communication/message_queue.cpp:56-58 | the front message goes, the others stay |
| MessageQueues.PackAll | server/communication/message_queue.cpp:14-50 | adding segments one by one to a new queue packs them |
| Signs.SplitSignExact | shared/utilities/tools.cpp:33-40 | splitting gives a path and a digest exactly when the sign is made of them and the digest has no NUL; it fails exactly without a NUL |
| Signs.SignRoundTrip | shared/utilities/tools.cpp:17-40 | splitting a created sign gives back path and digest exactly for NUL-free digests, whatever the path |
| Connections.LittleEndianRoundTrip | client/core/connection.cpp:221-224 | the size header gives the size back |
| Connections.FrameLayout | client/core/connection.cpp:221-224 | a frame is the size in eight bytes, the lowest first, and the message |
| Connections.ReadReply | client/core/connection.cpp:258-288 | the read consumes exactly the frames of a reply with its only END last, gives the type byte and all segments in order, and leaves what follows |
| Connections.CutReplyIsLost | client/core/connection.cpp:258-288 | a reply that is cut off anywhere, between its frames or within one, is never taken for a reply |
| Connections.FindEnd | client/core/connection.cpp:278-280 | the scan of the glued buffer finds an END exactly when there is one |
| Connections.ReadBody | client/core/connection.cpp:268-276 | one frame is taken off the stream, without its type byte unless it is the first; when there is none, or it is empty, the method tells |
| Connections.ReadMessage | client/core/connection.cpp:258-305 | on any stream the loop that grows one buffer frame by frame ends with what `ReadReply` is about, without a response when the stream ends, or at a frame for which the code is undefined |
| Connections.PostMessage | client/core/connection.cpp:134-141 | one frame is written, then one reply is read, with whatever outcome |
| Connections.PostFile | client/core/connection.cpp:181-207 | each chunk is sent after the reply to the one before and none after a missing reply, so what is written is stated in every case; the response is the last reply, or none when a reply is missing or the file cannot be cut to its end |
| Connections.WriteResponse | server/core/connection.cpp:104-140 | the queue is drained into exactly its frames, in order |
| RequestHandlers.RequestHandler.constructor | server/core/request_handler.cpp:19-23 | a new session is neither authenticated nor listed, tracks nothing and has no stream |
| RequestHandlers.RequestHandler.OpenForAppend | server/core/open_streams.cpp:16-25 | the file exists afterwards; the stream of the user is the older one if there was one |
| RequestHandlers.RequestHandler.CloseResponse | server/core/request_handler.cpp:31-45 | the reply is closed with OK, or ERROR and the code, and an END |
| RequestHandlers.RequestHandler.HandleAuth | server/core/request_handler.cpp:56-82 | the session after, and the reply packed |
| RequestHandlers.RequestHandler.TrackFiles | server/core/request_handler.cpp:99-116 | the walk tracks its regular files and adds their signs, and fails on one that is tracked already |
| RequestHandlers.RequestHandler.HandleList | server/core/request_handler.cpp:91-126 | the session after, and the reply packed |
| RequestHandlers.RequestHandler.VerifyDigest | server/core/request_handler.cpp:208-218 | a file with another digest is removed from disk and directory |
| RequestHandlers.RequestHandler.Create | server/core/request_handler.cpp:159-227 | one CREATE chunk, step by step, is the chunk of the session model |
| RequestHandlers.RequestHandler.Replace | server/core/request_handler.cpp:303-329 | the working copy takes the place of the file and its digest is checked |
| RequestHandlers.RequestHandler.Update | server/core/request_handler.cpp:260-330 | one UPDATE chunk, step by step, is the chunk of the session model |
| RequestHandlers.RequestHandler.Erase | server/core/request_handler.cpp:358-376 | an ERASE, step by step, is the erase of the session model, which `EraseExactly` is about |
| RequestHandlers.RequestHandler.HandleUpload | server/core/request_handler.cpp:137-331 | the session after a CREATE or UPDATE request, its reply packed, and when an exception is raised instead |
| RequestHandlers.RequestHandler.HandleErase | server/core/request_handler.cpp:341-376 | the session after an ERASE request, its reply packed, and when an exception is raised instead |
| RequestHandlers.RequestHandler.HandleRetrieve | server/core/request_handler.cpp:385-418 | the reply is the chunk messages of the file; a broken sign raises an exception, and every other failure adds to an empty queue |
| RequestHandlers.RequestHandler.HandleRequest | server/core/request_handler.cpp:428-463 | every request gets the handler of its type and of the phase of the session: for every message, also those that end in an exception or in undefined behaviour, the object follows the session model |
| Services.ReadRequest | server/core/connection.cpp:181-209 | on any stream: one request is taken off it, or it ends, or the request is longer than the read buffer, which is undefined |
| Services.Exchange | server/core/connection.cpp:104-175 | any request is handled, and replied to unless its handling ends in an exception or in undefined behaviour |
| Services.ServeSession | server/core/connection.cpp:53-209 | for every stream of bytes: which requests are handled, what is written, in what state the session is left and how the serving ends |
| Services.ServeStreamIsRun | server/core/connection.cpp:104-209 | on the frames of requests that are replied to this is the run of the requests, and exactly its replies are written, in order |
| Services.ServeStreamEnds | server/core/connection.cpp:104-209 | and how it ends after them: a request that is cut off is not looked at and closes the upload stream, one that is too long or not well formed, or one that is not replied to, ends it with nothing more written and whatever follows not looked at |
| Sessions.EarlyPhases | server/core/request_handler.cpp:440-449 | before both phase steps no request touches disk or stream, and the steps are taken only by a valid AUTH and then a LIST |
| Sessions.LastPhase | server/core/request_handler.cpp:449-461 | the last phase is never left |
| Sessions.DiskNeedsAuthAndList | server/core/request_handler.cpp:428-463 | over any run: if the disk has changed, the AUTH that logged the session in and after it the LIST that succeeded came before the last request |
| Sessions.StepKeepsInv | server/core/request_handler.cpp:91-383 | any request keeps the server invariant: tracked entries match the disk, the stream only writes where it does no harm |
| Sessions.SessionKeepsInv | server/core/request_handler.cpp:137-383 | the invariant holds after every run of a session, uploads interleaved or abandoned at will |
| Sessions.TrackedWorkingCopyBreaks | server/core/request_handler.cpp:268-283 | a server, a digest and a chunk for which a tracked working copy breaks the invariant |
| Sessions.KeptExactly | server/core/request_handler.cpp:137-331 | the chunks of uploads keep the server invariant if and only if no path of interest is another one plus `.temp` |
| Replies.OutcomesExactly | server/core/request_handler.cpp:385-463 | exactly which requests raise an exception and which add to an empty queue |
| Replies.MissingFileIsUndefined | server/core/request_handler.cpp:414-417 | a RETRIEVE for a missing file adds to an empty queue |
| Replies.StepIsDeliverable | server/core/request_handler.cpp:31-45 | every reply has exactly one END, in last position, in frames that can be sent |
| Replies.Lockstep | client/core/connection.cpp:258-288 | over any run of requests that are replied to, as many reads give exactly the replies, each whole, and leave what follows |
| Uploads.ChunkTells | server/core/request_handler.cpp:137-331 | for any chunk on any server: OK on the last one only with the file stored under its digest, a mismatch means it is gone, other codes mean no change, and nothing else is touched |
| Uploads.ChangesAreTold | server/core/request_handler.cpp:428-463 | a request that changes anything is replied to with OK, a mismatch or a failed listing; every other reply means no change |
| Requests.CodeInDigits | server/core/request_handler.cpp:38-42 | an error code of three digits travels as these digits, the highest first |
| Requests.RefusedByType | server/core/request_handler.cpp:437-461 | a request without segments, and one of a type that the phase of the session does not allow, changes nothing and is replied to with its own error, or with nothing that is defined for NONE and RETRIEVE |
| Requests.RefusedByContent | server/core/request_handler.cpp:56-82 | an AUTH that lacks a name or a password or is not valid, and an upload or erase without an ITEM, changes nothing and is replied to with its own error |
| Requests.RefusedWithoutContent | server/core/request_handler.cpp:152-157 | so is a chunk without content, behind the sign it came with |
| Requests.ChunkCodes | server/core/request_handler.cpp:159-163 | a create is refused exactly for a file that is synced, an update exactly for one that is not tracked or has the digest already; other chunks are accepted, but for a last one that does not match |
| Requests.AskingChangesNothing | server/core/request_handler.cpp:456-460 | in a listed session no request but CREATE, UPDATE and ERASE changes anything; a keep-alive with a segment is replied to with OK and END |
| Requests.EraseExactly | server/core/request_handler.cpp:346-376 | an ERASE under the digest of the tracked file removes the file and its entry and nothing else, and gets OK; any other changes nothing and gets the mismatch |
| Requests.RequestFrame | server/core/request_handler.cpp:428-463 | in a listed session a request leaves every entry alone but that of the path it names, and every file but that path, its working copy and the file of the open stream |
| Requests.ChunkAppends | server/core/request_handler.cpp:175-185 | an accepted chunk before the last adds exactly its bytes to the file of the stream of the user, and to its own if there is none |
| Requests.InterleavedPieces | server/core/open_streams.cpp:16-25 | over any interleaving of uploads before their last chunks, the file that was begun first gets the bytes of all of them, in order, and no other file changes |
| Uploads.UploadIsRun | client/core/connection.cpp:185-201 | sending the messages of a file is handling its chunks, one reply each |
| Uploads.ChunksAreAPut | server/core/request_handler.cpp:137-331 | all chunks are accepted and leave the file in place, all else as before, if and only if the file is uploadable |
| Uploads.UploadIsPut | server/core/request_handler.cpp:137-331 | every request of a chunked CREATE or UPDATE is replied to with OK and the file ends up in place, all else as before, if and only if the size is good and no non-final payload ends in 03 00 00 |
| Finishes.UpdateIsAtomic | server/core/request_handler.cpp:268-310 | as long as not all of an update has been sent, for whatever reason, the old bytes and the old digest are there if and only if nothing that was sent ends in 03 00 00; and then only the working copy has grown, by what was sent |
| Finishes.UpdateFinishes | server/core/request_handler.cpp:260-330 | what the chunks of an update, however many arrive, leave on any server where it is not refused: the old file without an end; at the first end, real or false, exactly the working copy if it has the announced digest, and nothing at all otherwise |
| Finishes.AcceptedInPlaceExactly | server/core/request_handler.cpp:137-331 | from a server without an open stream, an upload gets OK and leaves the bytes of the file in place if and only if the file is uploadable and, for an update, no working copy with bytes in it is there |
| Uploads.SentIsPrefix | shared/communication/f_message.cpp:58-82 | that part is a prefix of the requests of the whole file |
| Effects.UploadTakesEffect | server/core/request_handler.cpp:137-331 | whatever the replies on the way: an upload leaves exactly the file in place if and only if the size is good and no payload that is followed by further bytes of the file ends in 03 00 00, and then the client takes the last reply for a success |
| Effects.FalseEndIsFatal | server/core/request_handler.cpp:286-320 | updating a file to M bytes ending in 03 00 00 and one byte more removes it from the server, old bytes and entry included, unless the digests of the content and of its first payload collide |
| Client.Scheduler.RunPosted | client/core/scheduler.cpp:432-441 | the posted steps note the entries as awaited and hand the operations on, in order |
| Client.Scheduler.JudgeResponse | client/core/scheduler.cpp:85-94 | a response is accepted, rejected or raises an exception by its type, its sign and its second segment |
| Client.Scheduler.HandleResponse | client/core/scheduler.cpp:71-179 | the entry is settled by the judgement, or by the lack of a response, and no other changes; nothing changes when an exception is raised or the path is unknown, which ends the program |
| Client.Scheduler.Scan | client/core/file_watcher.cpp:51-85 | one round posts the erases of the known paths without a file, then the creates and updates of the files |
| Client.Scheduler.SyncWithListing | client/core/scheduler.cpp:391-412 | the walk over a listing notes what agrees and posts an erase or an update for what does not, up to its end or to a broken sign |
| Client.Scheduler.Sync | client/core/scheduler.cpp:379-419 | the listing is walked, then creates are posted for what it lacks; it fails exactly on what is no listing or has a broken sign, and what was noted and posted by then is stated |
| Client.Scheduler.CollectContents | client/core/scheduler.cpp:300-304 | the loop joins the contents that come under the sign and stops at the first other segment |
| Client.Scheduler.FetchFile | client/core/scheduler.cpp:284-319 | the file is written, and removed again when it is complete but has another digest |
| Client.Scheduler.RetrieveFile | client/core/scheduler.cpp:253-319 | a file with the digest is left alone, one without makes way first |
| Client.Scheduler.RestoreFiles | client/core/scheduler.cpp:345-359 | the files of a listing are retrieved in order, up to an exception |
| Retrievals.CollectExact | client/core/scheduler.cpp:300-304 | for any segments: what is collected is exactly the contents they carry under the sign, in order, and whether that stops at an END, at the end of the segments or at something else is told |
| Retrievals.RetrieveExactly | client/core/scheduler.cpp:253-328 | for any response, when the client does not have the file: the other copy goes, and what the response carries takes its place; it stays with an END and the digest, which is a success, and also, as a failure, without an END; only with an END and another digest it goes again |
| Retrievals.RetrieveIsSafe | client/core/scheduler.cpp:253-319 | no other file is touched, a file that is there already is left alone, and a success means that the digest is right |
| Retrievals.RestoreLeaves | client/core/scheduler.cpp:345-359 | for any listing and answers: a restore touches no file the listing does not name |
| Retrievals.RestoreExactly | client/core/scheduler.cpp:345-359 | for any listing of distinct paths and any answers: a restore gets through if and only if no answer ends it in an exception, failed retrievals do not end it, and every listed file is as its own retrieval leaves it |
| RoundTrips.ListRoundTrip | server/core/request_handler.cpp:99-118 | the server tracks exactly its files, and the client decodes exactly their paths and digests, each once, over any number of messages |
| RoundTrips.RetrieveRoundTrip | server/core/request_handler.cpp:385-412 | a file of good size arrives byte for byte whatever it holds, and is kept exactly under the digest asked for |
| Restores.RestoreRoundTrip | client/core/scheduler.cpp:334-360 | listing and retrieving bring every file of the server back, under its digest, and leave the other local files; only the files the client lacks have to be of good size |
| Operations.JudgeReply | client/core/scheduler.cpp:87-100 | of the replies of the server exactly OK and the harmless error are accepted, and none raises an exception |
| Operations.JudgeExactly | client/core/scheduler.cpp:85-99 | of any well-formed message: exactly which are accepted, and that an exception is raised for an upload whose sign is followed by neither OK nor a number, and never for an erase |
| Operations.OnlyItsOwnReply | client/core/scheduler.cpp:85-94 | a reply to another file, another digest or another kind of request is never taken for a success; the operation's own is, exactly with OK or the harmless error |
| Operations.RefusalIsNoSuccess | client/core/scheduler.cpp:85-94 | nor is any reply without a sign in front |
| Operations.ServeIsRun | client/core/scheduler.cpp:443-547 | running the requests of an operation is serving it, and the last reply carries its code |
| Operations.ServePartIsRun | client/core/connection.cpp:189-200 | running its first requests is serving that part of it |
| Operations.ServedIsJudged | client/core/connection.cpp:185-201 | read off the connection, that reply is accepted exactly when the code is a success |
| Operations.ServeFrame | server/core/request_handler.cpp:137-383 | an operation, or any first part of it, changes no entry but its own |
| Operations.CreateFinishes | server/core/request_handler.cpp:159-227 | exactly when the chunks of a create, however many arrive and on any server, leave a synced file: the bytes that have arrived at some end, real or false, have the announced digest |
| Operations.CreateOutcome | server/core/request_handler.cpp:159-227 | a complete create succeeds exactly when the server then has a synced file there, which has the announced digest |
| Operations.UpdateOutcome | server/core/request_handler.cpp:260-330 | a complete update succeeds exactly when the server then has the announced digest |
| Agreement.NextTrustsExactly | client/core/scheduler.cpp:71-179 | a move, lost replies included, keeps the client right about what is synced if and only if it is no complete create of a file the server has synced under another digest |
| Agreement.NextAgreesExactly | client/core/scheduler.cpp:71-179 | a move keeps client and server in agreement, also about what is absent, if and only if it is no create that finishes on the server while its last reply is lost or its file breaks off |
| Agreement.BreakingOffIsSafe | client/core/connection.cpp:189-205 | that cannot happen before the final chunk, as long as nothing that has arrived ends in 03 00 00 |
| Agreement.LostReplyIsUnsafe | client/core/connection.cpp:195-199 | and it does when all of an unchanged file has arrived and the last reply is lost |
| Agreement.AlwaysAgreeExactly | client/core/file_watcher.cpp:48-85 | client and server agree in every state of a run if and only if all its moves are of that kind |
| Agreement.AlwaysTrustedExactly | client/core/file_watcher.cpp:48-85 | the client is right about what is synced in every state of a run if and only if no move of it is such a repeated create |
| Agreement.SyncedMeansBackedUp | client/core/scheduler.cpp:71-179 | after every such run, whatever else is lost on the way, what the client takes for synced is on the server's disk under the digest it noted |
| Settlements.SettledExactly | client/core/scheduler.cpp:71-179 | the entry of an operation that is over: gone after an erase that succeeded, synced and on the server after another success, else not synced and where it was taken to be, always under the digest of the operation; no other entry changes |
| Settlements.EraseIsForgotten | client/core/scheduler.cpp:163-177 | an ERASE the server accepts leaves the path on neither side and wanted by no later round; one it does not accept changes nothing there and is sent again |
| Hazards.ChangedFileIsBelieved | client/core/scheduler.cpp:92-96 | a run to the contrary: a create whose last reply is lost, a changed file, the create again; the client then takes the new file for synced and the server has the old one |
| Hazards.RetryLosesFile | client/core/file_watcher.cpp:78-81 | a run of safe and honest moves: an update broken off by a lost reply and repeated by the watcher leaves neither the new file nor the old one, exactly if the digest notices the bytes in front |
| Hazards.LostForGood | client/core/file_watcher.cpp:78-81 | whatever moves follow: a file the client takes to be on the server and the server does not track is never tracked there nor synced again |
| Hazards.RetryLosesForGood | server/core/request_handler.cpp:260-265 | so it is with the file of that run |
| Hazards.NeverErased | client/core/file_watcher.cpp:51-61 | while it is missing locally, a file the server has under another digest than the client keeps its entry on the server, whatever else is done |
| Hazards.DroppedUpdateBlocksErase | server/core/request_handler.cpp:358-363 | so it is after an update that was lost and the removal of the file |
| Exchanges.ResponseIsReply | client/core/connection.cpp:181-207 | of what the server writes for the requests of an operation the client is given the reply to the last one, or nothing when the file could not be sent to its end |
| Exchanges.DeliverIsExchange | client/core/connection.cpp:152-207 | so an operation that is delivered is that exchange of bytes: requests run on the server, response read, judged and settled, never an exception |
| Exchanges.LoseIsExchange | client/core/connection.cpp:195-199 | and one whose reply is lost is the exchange broken off |
| Exchanges.LostReplyIsUnanswered | client/core/connection.cpp:185-205 | when the connection breaks anywhere within the reply to a request, the callback gets no response, and exactly the requests up to that one have been sent |
| Exchanges.PostOperation | client/core/connection.cpp:181-207 | over a connection on which the server answers, the client writes exactly the requests of the operation and reads exactly their replies |
| Scans.ScanIsMoves | client/core/file_watcher.cpp:51-85 | a round that looks first and schedules later does what its moves do one by one |
| Scans.RoundExact | client/core/file_watcher.cpp:51-85 | a round schedules exactly the wanted operations, at most one for a path |
| Scans.RoundCovers | client/core/file_watcher.cpp:51-85 | after a round every local file is synced under its digest or awaited, every other known path is absent from the server or awaited, and what was right is untouched |
| Scans.QuietMeansMirrored | client/core/file_watcher.cpp:42-87 | wherever the agreement holds: when a round wants nothing and nothing is on its way, the server has every local file under its digest and nothing else synced |
| Rounds.RoundMirrorsExactly | client/core/file_watcher.cpp:51-85 | from agreement: in whatever order the operations of a round are delivered, every local file is synced under the digest the server has and every missing path is tracked and taken to be there no more, if and only if each path allows it by the client's entry, the local file and the server's |
| Rounds.MirroredIsQuiet | client/core/file_watcher.cpp:51-85 | and then the next round wants nothing |
| Arrivals.RoundBringsTheBytes | client/core/file_watcher.cpp:63-85 | when nothing is in the way, the server has besides the bytes of every local file that was not synced |
| Synchronizations.SyncListedExact | client/core/scheduler.cpp:391-412 | for any directory and listing the walk notes exactly what agrees and posts exactly the needed erases and updates |
| Synchronizations.SyncBreaksOff | client/core/scheduler.cpp:391-395 | at a sign that cannot be split the walk breaks off: what came before it is noted and posted, what comes after it is not looked at |
| Synchronizations.PlanExact | client/core/scheduler.cpp:391-419 | exactly the needed operations are scheduled, at most one for a path, and exactly the differing paths are touched |
| Convergence.SyncConvergesExactly | client/core/scheduler.cpp:367-421 | every order of the scheduled operations gets OK for each and makes the server's files the client's, if and only if the files that are sent are uploadable and neither a file of the client's nor a working copy with bytes in it is in the place of the working copy of an update |
| Convergence.StaleCopyBreaksSync | server/core/request_handler.cpp:268-320 | no order works that starts with an update of a file with such a working copy |
| EndToEnd.ServeAllIsRun | client/core/connection.cpp:181-207 | operations served in a row are the run of all their requests |
| EndToEnd.LoginIsTold | server/core/request_handler.cpp:56-82 | the reply to an AUTH, as the client reads it, starts with OK exactly if the session is logged in, which is exactly for a valid AUTH |
| EndToEnd.LoginAllowsList | server/core/request_handler.cpp:440-448 | a valid AUTH leads to a session that tracks nothing and can ask for its listing |
| Listings.RequestAsksForList | client/core/scheduler.cpp:368-369 | the request the client sends is one the session answers with a listing, once logged in |
| Listings.ListExactly | server/core/request_handler.cpp:91-126 | what a LIST leaves in its phase: it succeeds if and only if its walk meets only files that are not tracked, each once, and then adds exactly those; otherwise nothing is tracked any more |
| Listings.ListingIsTakenExactly | client/core/scheduler.cpp:379-386 | what the client reads of the reply to a LIST it takes for a listing if and only if the session is in the phase for it, the request has a segment and the first file met is not tracked already; a listing without files is one |
| Listings.OtherRepliesAreNone | client/core/scheduler.cpp:381 | and no reply to another request is taken for one |
| Listings.SyncOver | client/core/scheduler.cpp:367-421 | over a connection, for whatever is replied: the request is sent, and what is noted and posted is stated |
| Listings.SyncTakesListing | client/core/scheduler.cpp:379-421 | from the reply to the first LIST, an empty disk included, it gets through, notes what agrees and posts exactly the plan |
| Listings.RestoreOver | client/core/scheduler.cpp:334-360 | over a connection, for whatever is replied: the request is sent and the files of a listing are retrieved |
| Listings.RestoreTakesListing | client/core/scheduler.cpp:334-360 | from that reply it brings every file of the server back |
| EndToEnd.FirstSync | client/core/scheduler.cpp:367-421 | from the bytes of the server's listing, which the client takes for one, to the run of the requests it leads to: the scheduled operations work in every order exactly if the files can be synchronized |
| EndToEnd.SyncEstablishesAgreement | client/core/scheduler.cpp:391-419 | whatever the client's directory said before, a synchronization establishes the agreement |
| EndToEnd.WholeSession | client/core/file_watcher.cpp:42-87 | after a synchronization and any moves that follow: agreement throughout if and only if every move is safe, and what the client takes for synced is backed up as long as every move is at least honest |
| Trees.Root.Remove | server/core/request_handler.cpp:369 | a file or an empty directory goes, a directory with content is an error |
| Trees.Root.EraseAndCleanUp | server/core/request_handler.cpp:366-382 | the loop up the tree ends and leaves the pruned tree |
| Trees.EraseExact | server/core/request_handler.cpp:365-382 | the file goes, no other does, and exactly those directories below the root go that held nothing but the way to it |
| Trees.EraseLeavesNoEmptyDirs | server/core/request_handler.cpp:378-382 | what is left of the way holds something, the root stays, and a tree without empty directories stays one |
| Trees.EraseUndoesPlace | server/core/request_handler.cpp:165-184 | in a tree without empty directories a create is undone by the erase, directories included |
| Trees.FailedCreate | server/core/request_handler.cpp:212-217 | the removal of a mismatched create leaves the tree as it was exactly when the directory of the file was there before |
| Trees.EraseIsShown | server/core/request_handler.cpp:365-376 | the erase on the tree is the erase the session model makes on its disk |

## Left out

- TLS, name resolution, timers, keepalive, thread pools and the asynchronous machinery: what is kept is that frames arrive in order and that a connection handles one request at a time.
- Failing opens, removes, renames and writes, and the exits and replies they lead to (`ERR_CREATE_FAILED` and its kin): the disk of the model always obeys. A path that names a directory is not opened.
- Reconnection, and several sessions of one user: the map of open streams has one entry for the user of the session.
- MD5, SHA-512 and the check of a password: the digest is an uninterpreted function to 32 NUL-free bytes, the login a parameter.
- The paths of a walk over a directory, in any order, and the iteration order of the client's directory are parameters.
- Login prompts, options, console output and the logger.
- The class of the tracked directory (shared/directory/dir.cpp) and its lock: it is a `map` field of the object that owns it, and each call is atomic.
- Copies of a message share one buffer in the code, so that they see each other's changes. Messages of the model are values once they are queued or sent; only the buffer of a file message is shared.
- Directories are not part of the session state; `Trees` treats them on their own. Names are plain: `.` and `..` are not interpreted.
- The buffering of the upload stream: bytes are on the disk as soon as they are written.
- Retries: nothing is claimed about how often an operation is repeated before it succeeds, but for those that never do.
- Rounds.RoundMirrorsExactly: files do not change between the round and the deliveries, nothing is on its way when the round begins, and no stream is open on the server.
- Replies.Lockstep: requests have at most 65536 bytes, the size of the server's read buffer, and the signs of the files fit into a message each.
- What undefined behaviour of the code leads to: an empty frame or one whose segments overrun the client's buffer, a request longer than the server's buffer or not well formed, a segment added to an empty queue, a sign that leaves no room for content. The models say that it is reached and stop there.
- Tlvs.TlvView.NextTlv: the segments ahead lie in the buffer; the code reads past the end of others.
- FileMessages.FMessage.NextChunk: the sign leaves room for content, M at least 3; the arithmetic of the code wraps around below that.
- Agreement.NextAgreesExactly: the scheduling steps of one round run before the next round looks, and a sign that leaves no room for content is not sent; file contents may change at any moment otherwise.
- Convergence.SyncConvergesExactly: files do not change between scheduling and sending, and nothing is being uploaded when the server lists its files.
