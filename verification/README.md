# A verified model of cRPC

cRPC is an RPC server on io_uring. One thread owns an event loop (`IoContext`); each connection is a
reader coroutine, a writer coroutine and request handlers that share a response queue; requests and
responses are frames of a 12-byte header and a payload. This project models those layers, composes
them into one server thread, and proves what holds over every run.

* `Wire` is the frame format: encoder, parser, the one-shot reference scanner and the server's drain.
* `ByteBuffer`, `Protocol`, `ResponseQueues`, `Tasks`, `IoContexts`, `CoroConnections` and
  `ClientFraming` are imperative: the buffer over its memory, the parser and encoder on it, the queue
  and the write loop, the awaitable task, the intrusive free list and the index pools, the connection
  object, and the client's receive loop. Each method is proved against the specification functions below.
* `Connection` is one connection as a machine of coroutines and `ConnectionRuns` its runs; over every run
  `StreamDelivery` states what the reader delivers and `EchoServer` what the peers of the two echo servers
  get back; `Suspensions` tracks which coroutine waits for which operation.
* `RequestPool`, `EventLoop`, `Pools` and `Server` add request nodes, completions, resources and any
  number of connections; `ServerRuns` holds the theorems about whole runs and the shutdown drain, and
  `ServerAnswers` brings the theorems about single connections to every connection of a server.
* `SlidingWindow` is the pipelining client: two threads over an atomic counter and a locked map.
* `Totals` holds sums over sequences and what a series of writes took.

The environment is nondeterministic. An operation that is submitted completes at most once, in any
order; a positive result never exceeds what was asked for; registrations may be refused; peers may cut
their bytes into any chunks. Protobuf decoding, the service and protobuf encoding are one uninterpreted
function from request payload to optional response payload. The result of a completion is bound when it
is dispatched, because nothing looks at it earlier. The room a read asks for is bounded by what the
unread bytes leave of a fixed buffer, which allows more behaviours than the code has; the runs that are
shown to exist read single bytes, or a stream that the first read has room for, as the code allows.

Where code and documentation disagree the code is followed: the header has 12 bytes (`README.md` line 35
of the repository says 10), `Write` loops until everything is sent (the comment in `src/coro_connection.h`
says it may return early), and the queue takes pushes from many handlers (`src/response_queue.h` calls it
single-producer).

Five promises turn out not to hold in general, and their exact conditions are proved instead, each about
something a caller or peer can know beforehand: the round trip (`RoundTrip`, the payload length),
independence of chunking (`ChunkingNeverMattersIff`, the bytes of the stream), room to read in a fixed
buffer (`StreamStallsIff`, the frame sizes), `Write` reporting success for everything it sent
(`WriterGivesUpIff` over a run, `ServiceNeverSilencedIff` for a service, the response sizes), and the
client's sender stopping after a receive error (`SenderCanHangIff`, window and number of requests).

## Model

| member | source | states |
|---|---|---|
| `Wire.RoundTrip` | src/protocol.cpp:45-59 | What was encoded is parsed back, with magic and length normalised and whatever follows it, if and only if the payload is shorter than 2^32 bytes; otherwise a truncated payload comes back |
| `Wire.Layout` | src/protocol.h:8-19 | The encoded header is the letters TR, version, type, then sequence number and length most significant byte first |
| `Wire.ParsedIsFrame` | src/protocol.cpp:6-39 | Whatever the parser accepts is exactly a prefix that the encoder would print |
| `Wire.ParseStable` | src/protocol.cpp:18-38 | A verdict on the bytes at hand is never changed by later bytes |
| `Wire.ScanAppend` | src/protocol.cpp:18-39 | The reference scan of a stream can be cut anywhere and resumed from what it left |
| `Wire.DrainThenScan` | examples/coro_echo.cpp:74-81 | A drain is an initial part of the reference scan, and unless it skipped a byte it leaves nothing parseable |
| `Wire.DrainAppend` | examples/coro_echo.cpp:74-81 | A drain over more bytes continues one that skipped nothing, and repeats one that skipped |
| `Wire.DrainConserves` | examples/coro_echo.cpp:74-81 | Delivered, skipped and unread bytes of a drain add up, and the unread ones are the suffix |
| `Wire.ScanStream` | src/protocol.cpp:6-39 | A cut of a well-formed stream scans to its complete frames, skips nothing and leaves a strict prefix of the next frame |
| `ByteBuffer.Buffer.Dynamic` | src/buffer.h:18-19 | A growing buffer starts empty |
| `ByteBuffer.Buffer.Fixed` | src/buffer.h:14-15 | A fixed buffer starts empty on its region of a block |
| `ByteBuffer.Buffer.CopyIn` | src/buffer.h:21-21 | Bytes land behind the unread ones and nothing else in the block changes |
| `ByteBuffer.Buffer.HasWritten` | src/buffer.h:23-23 | Committing appends the copied bytes to the queue of unread bytes |
| `ByteBuffer.Buffer.Append` | src/protocol.cpp:52-58 | Copy and commit appends, and leaves every byte outside the region alone |
| `ByteBuffer.Buffer.HasRead` | src/buffer.h:27-27 | Consuming drops a prefix of the unread bytes |
| `ByteBuffer.Buffer.Compact` | src/buffer.h:44-53 | The unread bytes survive the overlapping move to the front, and nothing outside the region changes |
| `ByteBuffer.Buffer.EnsureWritable` | src/buffer.h:29-42 | Unread bytes are kept; it fails exactly when the buffer is fixed and unread plus requested exceeds the capacity |
| `Protocol.ParseMessage` | src/protocol.cpp:6-39 | On the real buffer: takes the frame, drops one byte, or waits, exactly as the parser specification says |
| `Protocol.EncodeMessage` | src/protocol.cpp:45-59 | On the real buffer: appends exactly the encoded frame, given a growing buffer or room |
| `Protocol.DrainRequests` | examples/coro_echo.cpp:73-81 | The interleaved parse-and-handle loop on the real buffer equals one drain followed by handling its frames |
| `Protocol.OnReadDone` | examples/coro_echo.cpp:69-82 | The loop body of handleConnection on the real buffer is the read step of the connection machine |
| `Protocol.Replay` | src/protocol.cpp:6-59 | Any interleaving of encodes and parses on one growing buffer behaves as a first-in first-out queue of messages |
| `Connection.FreshInv` | examples/coro_echo.cpp:64-70 | A connection just opened satisfies the invariant |
| `Connection.TakeItemKeeps` | examples/coro_echo.cpp:51-53 | Popping keeps the queue first-in first-out and the wire a concatenation of whole frames, and the writer leaves through it only from an empty queue |
| `Connection.PushKeeps` | src/response_queue.h:47-53 | A push, with the writer it may resume, keeps order and loses no wakeup |
| `Connection.CloseKeeps` | src/response_queue.h:57-63 | Closing, with the writer it may resume, keeps the queue invariant |
| `Connection.WrittenKeeps` | src/coro_connection.cpp:94-100 | Full, partial and failed writes keep the wire a prefix of whole frames in pop order; a completed frame ends the writer in Pop only if nothing is queued |
| `Connection.WorkFinish` | examples/coro_echo_async.cpp:43-60 | A finishing handler moves its request from asleep to answered and pushes exactly its own frame |
| `Connection.HandleKeeps` | examples/coro_echo.cpp:22-44 | Handling a delivered frame keeps queue and handler invariants, synchronous or not |
| `Connection.InStepKeeps` | examples/coro_echo.cpp:70-81 | A read and its drain keep delivered messages in step with the reference scanner |
| `Connection.NoByteLostKeeps` | examples/coro_echo.cpp:70-81 | A read and its drain lose no byte |
| `Connection.NextKeeps` | examples/coro_echo_async.cpp:32-93 | Every event of a connection keeps every invariant |
| `ConnectionRuns.RunInv` | examples/coro_echo_async.cpp:73-93 | The invariant holds after every run, the bytes received are the chunks in order and the buffers those given |
| `StreamDelivery.ArbitraryStream` | src/protocol.cpp:18-27 | On any bytes and chunking: delivered messages are a prefix of the one-shot scan, no byte is lost, at most one byte is skipped per read |
| `StreamDelivery.ChunkIndependence` | examples/coro_echo.cpp:69-82 | On well-formed streams, after each drain exactly the complete frames are delivered and a strict prefix of the next remains |
| `StreamDelivery.ChunkingNeverMattersIff` | src/protocol.cpp:18-23 | For every stream the first read has room for (the fixed buffer, else 65536 bytes): every chunking delivers what the scanner finds if and only if the stream is whole frames followed by bytes that hold no frame |
| `StreamDelivery.FramesThenNoneDelivers` | examples/coro_echo.cpp:69-82 | Such a stream delivers exactly its frames under every chunking, whatever the buffers |
| `StreamDelivery.GarbageDelaysFrame` | examples/coro_echo.cpp:77-77 | One garbage byte before any frame, read with it in the first read, keeps the frame back |
| `StreamDelivery.StallIff` | src/coro_connection.cpp:72-77 | A reader with a fixed buffer can be given no further byte if and only if the buffer is full of the start of one frame larger than itself |
| `StreamDelivery.FittingFramesNeverStall` | src/buffer.h:29-42 | Streams whose frames fit always leave room to read |
| `StreamDelivery.StreamStallsIff` | src/coro_connection.cpp:68-83 | A well-formed stream can leave the reader with a full buffer if and only if one of its frames is larger than the buffer |
| `EchoServer.ResponsesAreReplies` | examples/coro_echo.cpp:22-44 | The handlers answer exactly the frames of type 0 whose payload decodes, each with type 1, its own version and sequence number and the served payload |
| `EchoServer.OneReplyEach` | examples/coro_echo.cpp:79-80 | One reply per request that decodes, in order, and none for other frames |
| `EchoServer.SyncServer` | examples/coro_echo.cpp:22-84 | For every run: the wire is a prefix of the encoded replies in request order; if no write failed and none is outstanding it is the replies to all complete requests received, provided their lengths are positive as an int |
| `EchoServer.SyncServerAnswers` | examples/coro_echo.cpp:22-84 | A scanner on the wire finds the complete replies in request order |
| `EchoServer.SyncRoundTrip` | examples/coro_echo.cpp:22-84 | With any well-formed stream consumed, no write failed and none outstanding, the peer reads one response per frame of type 0 that decodes, in order, with its sequence number, version and served payload, and nothing for the other frames |
| `EchoServer.AsyncServer` | examples/coro_echo_async.cpp:32-93 | In any completion order: whole frames in push order; when no write failed or is outstanding, all that was pushed while the writer was there; a frame is asleep or finished exactly if it is of type 0 and decodes; one frame per finished request, its answer |
| `EchoServer.AnswersInTimerOrder` | examples/coro_echo_async.cpp:40-60 | The asynchronous server answers in the order in which timers fire, and never before |
| `EchoServer.ClosedQueueIsWritten` | examples/coro_echo_async.cpp:63-71 | After Close, when no write failed or is outstanding and every pushed frame's length is positive as an int, every frame pushed before Close is on the wire |
| `EchoServer.LeavesEmptyQueue` | src/response_queue.h:37-42 | The step in which the writer leaves through Pop leaves the queue closed and empty, with everything pushed popped |
| `EchoServer.PushedInTimeIsWritten` | examples/coro_echo_async.cpp:63-71 | A frame pushed at any time before the writer left, after Close included, is on the wire once no write is outstanding, if none failed |
| `EchoServer.LateFramesStay` | examples/coro_echo_async.cpp:60-71 | After the writer has left, no byte is written and later frames stay queued, over any continuation |
| `EchoServer.WriterGivesUpIff` | src/coro_connection.cpp:91-101 | Over every run: the writer has stopped answering if and only if some write failed or completed a frame whose length is not positive as an int |
| `EchoServer.WriterGoesOn` | examples/coro_echo.cpp:50-56 | If no write of a run failed and every pushed frame's length is positive as an int, the writer has not given up |
| `EchoServer.OversizedResponse` | src/coro_connection.cpp:91-101 | For every reply of another length there is a run in which every write succeeds, the peer has the whole frame and the writer has stopped |
| `EchoServer.ServiceNeverSilencedIff` | src/coro_connection.cpp:91-101 | Without failed writes no connection of a service ever stops answering if and only if no well-formed request has a reply of such a length |
| `EchoServer.NoLostWakeup` | src/response_queue.h:29-63 | In every reachable state a waiting writer means an empty open queue, pushed is popped followed by queued, and the writer leaves through Pop only on a closed and then empty queue |
| `Suspensions.NextSubmits` | src/response_queue.h:47-53 | Over any step, the operations submitted are distinct and belong exactly to the coroutines newly suspended, including writers woken inside the step |
| `RequestPool.SubmitKeeps` | src/io_context.cpp:108-131 | A submission keeps the free list duplicate-free and disjoint from nodes in flight, and the counter exact |
| `RequestPool.ReleaseKeeps` | src/io_context.cpp:120-125 | So does freeing a node in flight |
| `RequestPool.ResubmitReusesNode` | src/io_context.cpp:150-155 | The node freed by a completion is the one the resumed coroutine gets, and nothing else changes |
| `EventLoop.SuspendKeeps` | src/io_context.cpp:127-131 | A suspension keeps nodes, waiters and slots matched one to one |
| `EventLoop.PostKeeps` | src/io_context.cpp:148-150 | Completions in any order stay distinct and in flight |
| `EventLoop.DispatchKeeps` | src/io_context.cpp:149-156 | A dispatch writes the slot its coroutine waits on, never written before, frees the node and keeps every invariant |
| `EventLoop.IdleLoop` | src/io_context.cpp:175-175 | Counter zero means nobody waits, every submission was delivered and every node is free |
| `Pools.AcquireConserves` | src/coro_connection.cpp:20-40 | Opening a connection, with or without refused registration, keeps free and held indices a partition |
| `Pools.AcquireTakes` | src/coro_connection.cpp:20-40 | A connection gets a read buffer if one is free, a write buffer if two are, a file slot if one is free and the kernel agrees, each from the end of its free list |
| `Pools.InitialIsFull` | src/io_context.cpp:22-49 | New pools have all their indices free |
| `Pools.ReturnConserves` | src/coro_connection.cpp:45-63 | So does closing one |
| `Pools.PoolsConserved` | src/io_context.cpp:77-106 | So does every sequence of opens, refusals and repeated closes |
| `Pools.HeldExclusively` | src/io_context.cpp:77-106 | A held index is on no free list and held by no other connection; read and write buffer differ |
| `Pools.RegionsDisjoint` | src/io_context.cpp:22-26 | Buffer i starts at byte i times the size; distinct buffers occupy disjoint regions inside the pool |
| `Server.AcceptKeeps` | src/coro_tcp_server.cpp:66-77 | Accepting a connection keeps the whole invariant |
| `Server.OnEventKeeps` | src/io_context.cpp:150-155 | Resuming a connection's coroutine, with nested submissions and its possible destruction, keeps the whole invariant |
| `Server.CollectKeeps` | src/coro_connection.cpp:43-66 | A connection holds what it acquired while a coroutine refers to it and nothing afterwards |
| `Server.AliveStays` | examples/coro_echo.cpp:48-84 | A connection nobody refers to is never taken up again |
| `Server.DoKeeps` | src/io_context.cpp:133-195 | Every step of a server thread keeps the whole invariant |
| `ServerRuns.ServerRunInv` | src/io_context.cpp:133-195 | The whole invariant holds after every run |
| `ServerRuns.RequestNodesSafe` | src/io_context.cpp:108-160 | In every reachable state free, pending and completed nodes are distinct, and the counter equals undelivered submissions and suspended coroutines |
| `ServerRuns.DeliveredExactlyOnce` | src/io_context.cpp:149-156 | Each result went to its submitter and no submission was delivered twice |
| `ServerRuns.ResumesItsOwnSuspension` | src/io_context.cpp:149-156 | A completion writes the slot its coroutine is suspended on, even if the node is reused at once |
| `ServerRuns.OutstandingTargetsAreOwned` | src/coro_connection.cpp:68-131 | Buffer and file slot of an outstanding operation are on no free list and held by no other connection |
| `ServerRuns.HeldWhileInUse` | src/coro_connection.cpp:43-66 | In every reachable state a connection holds what it was given exactly while its reader or writer is there |
| `ServerRuns.AcceptGivesWhatThereIs` | src/coro_tcp_server.cpp:51-77 | An accepted connection gets the buffers and slot that are free, with their size, and acceptor and new reader wait for the kernel |
| `ServerRuns.KeepsAccepting` | src/coro_tcp_server.cpp:51-77 | Over every run: the server accepts until an accept fails, opens one connection per success, and its pools keep their size |
| `ServerRuns.CleanShutdown` | src/io_context.cpp:162-195 | At counter zero every coroutine has ended and every buffer, slot and node is free |
| `ServerRuns.CancelsOnce` | src/io_context.cpp:162-173 | Over every run: the cancellation completes at most once, only in the drain, and its completion is the only one that resumes nobody |
| `ServerRuns.EventShrinks` | src/io_context.cpp:180-190 | Each event lowers its own part of the drain measure and raises none above it |
| `ServerRuns.DrainDescends` | src/io_context.cpp:175-192 | With finite peer input every step of the drain strictly lowers a lexicographic measure |
| `ServerRuns.DrainProgresses` | src/io_context.cpp:165-192 | A drain with operations outstanding can always take a step |
| `ServerRuns.EveryDrainEnds` | src/io_context.cpp:175-192 | No infinite sequence of drain steps exists |
| `ServerRuns.RunDrain` | src/io_context.cpp:165-195 | Waiting, then dispatching the batch: both loops terminate against any kernel, and nothing is left behind unless a wait returns a negative value, a timeout included, while operations are outstanding |
| `ServerAnswers.Projection` | src/io_context.cpp:149-156 | Seen from one connection, every run of a server is a run of that connection with the buffers it was given |
| `ServerAnswers.EveryConnectionAnswers` | examples/coro_echo.cpp:64-84 | Each connection of a synchronous server answers the bytes it was sent, in order, and completely when none of its own writes failed or is outstanding, whatever the others do |
| `ServerAnswers.CleanAnswers` | src/io_context.cpp:162-195 | When a server has come to rest, a synchronous connection none of whose writes failed has been sent the responses to all its complete requests |
| `IoContexts.IoContext.constructor` | src/io_context.cpp:8-54 | Pools start with exactly the indices from 0 to their size free, or empty where registration is refused |
| `IoContexts.IoContext.AllocRequestData` | src/io_context.cpp:108-118 | The head of the threaded list, or a new node, and the list stays threaded |
| `IoContexts.IoContext.FreeRequestData` | src/io_context.cpp:120-125 | The node becomes the head of the threaded list |
| `IoContexts.IoContext.Submit` | src/io_context.cpp:127-131 | On the heap: exactly the pool's submission, list threaded and free of duplicates |
| `IoContexts.IoContext.Dispatch` | src/io_context.cpp:150-154 | On the heap: the submitter's slot holds the result, its handle is returned, the pool releases the node |
| `IoContexts.IoContext.AllocateBuffer` | src/io_context.cpp:77-84 | As long as one is free: the last free index, no longer free, and its region at index times size inside the block; else none |
| `IoContexts.IoContext.FreeBuffer` | src/io_context.cpp:86-89 | The index is free again |
| `IoContexts.IoContext.RegisterFile` | src/io_context.cpp:91-100 | The last free slot, no longer free, if there is one and the kernel agrees; else none, with the table unchanged |
| `CoroConnections.CoroConnection.constructor` | src/coro_connection.cpp:10-41 | It holds a read buffer exactly if one was free, a write buffer if two were, a slot if one was and the kernel agreed; pools and holdings are those of the acquire specification, and the buffers lie in their regions |
| `CoroConnections.CoroConnection.Close` | src/coro_connection.cpp:45-66 | Everything is returned once; a second close changes nothing |
| `CoroConnections.CoroConnection.PrepareRead` | src/coro_connection.cpp:68-83 | Unread bytes are kept, the room offered fits the fixed buffer and is zero exactly when unread bytes fill it, and at least 4096 bytes without one |
| `CoroConnections.CoroConnection.WriteOnce` | src/coro_connection.cpp:103-125 | The next bytes are staged, as many as there are or as the fixed buffer holds, inside its own region only |
| `CoroConnections.CoroConnection.Write` | src/coro_connection.cpp:91-101 | For every sequence of results: each operation offers what follows the bytes taken before it, all but the last succeed, and the result is the failing one or, with everything taken, the length reduced to an int; at most one operation per byte |
| `CoroConnections.CompleteRead` | src/io_context.cpp:22-26 | A read completing into one connection's region of the shared block leaves the unread bytes of another connection as they were |
| `ResponseQueues.ResponseQueue.Push` | src/response_queue.h:47-53 | The item is last and the waiter, if any, is handed over once |
| `ResponseQueues.ResponseQueue.Close` | src/response_queue.h:57-63 | The queue is closed and the waiter, if any, is handed over once |
| `ResponseQueues.ResponseQueue.AwaitResume` | src/response_queue.h:37-42 | The oldest item, or none exactly when empty |
| `ResponseQueues.WriteLoop.constructor` | examples/coro_echo.cpp:48-51 | The write loop starts waiting in its first pop |
| `ResponseQueues.WriteLoop.OnPush` | src/response_queue.h:47-53 | On the objects: a push and the loop it resumes are the machine's push step |
| `ResponseQueues.WriteLoop.OnClose` | src/response_queue.h:57-63 | On the objects: a close and the loop it resumes are the machine's close step |
| `ResponseQueues.WriteLoop.OnWritten` | examples/coro_echo.cpp:50-56 | On the objects: a write completion is the machine's write step, and the loop ends in Pop only with the queue closed and empty |
| `Tasks.TaskT.Return` | src/coro.h:160-179 | The value is stored and control goes to the registered awaiter |
| `Tasks.AwaitOnce` | src/coro.h:154-200 | In either order the awaiter goes on exactly once, with the returned value |
| `ClientFraming.SendAll` | examples/multiplex_bench.cpp:58-66 | Each send offers all that is left; it fails only where the kernel failed, having sent what the sends before took, and else sends everything |
| `ClientFraming.RecvExact` | examples/multiplex_bench.cpp:69-76 | Staged and remaining bytes always make up the stream; it takes no piece it does not need, and fails only when the stream ends short |
| `ClientFraming.ReceiveFrame` | examples/multiplex_bench.cpp:114-129 | Under every chunking it takes the frame and leaves the bytes that the server's parser would, and waits for no piece beyond the frame |
| `ClientFraming.ReceiveAll` | examples/multiplex_bench.cpp:114-129 | Over a well-formed stream it reads the scanner's headers, frame by frame, and leaves the rest |
| `SlidingWindow.SenderKeeps` | examples/multiplex_bench.cpp:156-186 | Every sender step keeps the invariant |
| `SlidingWindow.ReceiverKeeps` | examples/multiplex_bench.cpp:114-144 | Every receiver step keeps the invariant |
| `SlidingWindow.WindowKept` | examples/multiplex_bench.cpp:110-186 | Under every interleaving the counter is within the window and equals the map size corrected by the two mid-step positions, and every response finds its entry |
| `SlidingWindow.AllRecorded` | examples/multiplex_bench.cpp:110-191 | At the end each request is recorded exactly once and the map is empty |
| `SlidingWindow.RunLength` | examples/multiplex_bench.cpp:110-186 | Every effective step uses up exactly one of a fixed budget, so runs are finite |
| `SlidingWindow.NoDeadlock` | examples/multiplex_bench.cpp:156-159 | With a window of at least one, some effective step is possible until both threads are done |
| `SlidingWindow.SenderCanHangIff` | examples/multiplex_bench.cpp:156-159 | For every number of requests and window: some run ends with the receiver failed and the sender unable ever to end, if and only if there are requests and the window is smaller than their number |
| `SlidingWindow.HangsIff` | examples/multiplex_bench.cpp:156-159 | Once the receiver has failed, no continuation ends the sender if and only if it is at a closed gate |

## Left out

- StreamDelivery.ChunkingNeverMattersIff: the only-if half covers streams that fit into the first read; for longer ones a read of the whole stream is impossible and which cuts remain depends on where the buffer was last compacted. The if half, `FramesThenNoneDelivers`, has no such bound.
- io_uring, sockets, signals, clocks and memory alignment: replaced by the environment described above; a full submission ring is not modelled.
- `src/coro_tcp_server.cpp`: only its accept loop, as the step that opens a connection; socket setup has no state that later behaviour depends on.
- `src/registry.cpp`: a thin client of an etcd library that is not visible.
- `src/logger.h` and all logging: output only.
- Protobuf: an uninterpreted function.
- `examples/latency_bench.cpp`, `examples/latency_bench_mt.cpp`, `examples/mt_multiplex_bench.cpp`: ping-pong or per-connection copies of the modelled client.
- Percentiles, averages and command lines: reporting only, after the protocol has ended.
- Coroutine frame allocation and exceptions in tasks: language runtime.
- The main loop of Run: its steps are those of `Server.Do` in any order; it has no end of its own, so only the drain loop is a method.
- Destruction of IoContext: it runs after the drain and nothing observes the pools any more.
