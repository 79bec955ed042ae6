# The receive path and the thread pool of ServerPlus, verified

ServerPlus receives bytes into a ring buffer, cuts them into NUL-terminated frames, decrypts them in
place, and drives a small request machine with them; a thread pool runs tasks under a mutex and a
condition variable. This project models those two stacks in Dafny and proves what each layer promises
to the one above it, for all inputs, all ways of cutting the stream, and all reachable states.

`dafny verify dfyconfig.toml` checks everything.

| file | what it models |
|---|---|
| `Bits.dfy` | 32- and 64-bit unsigned arithmetic, the bitwise mask, powers of two |
| `RingGeometry.dfy` | which cells two free-running cursors select, and the windows of a callback write |
| `Delimiters.dfy` | how much the two `read_to` overloads take |
| `Attempts.dfy` | what each call of `try_send` was given and how much of it got onto the wire |
| `Receiver.dfy` | the receive callback's view of a socket, and the operating system below it |
| `CircularBuffer.dfy` | the ring, as a class over an array and two cursors |
| `Framing.dfy` | NUL framing over a stream cut anywhere, and stalling |
| `Socket.dfy` | `try_recv`, `try_send`, `read_buffer` and the rest of the plain socket |
| `SendLock.dfy` | concurrent senders under the send mutex |
| `Crypto.dfy` | the cryptography and message formats as opaque functions; the handshake steps as functions |
| `SecureSocket.dfy` | the encrypted socket |
| `Handshake.dfy` | every run of one key exchange |
| `RequestParser.dfy` | `read_sock` as a function, and its refinement of a whole-stream parser |
| `Context.dfy` | `read_sock` as methods of a class |
| `ThreadPool.dfy` | the pool as interleaved atomic steps, and as an object that performs them |
| `PoolProgress.dfy` | what the pool can still finish from every reachable state, and when a graceful stop can return |

Two kinds of statement meet in most layers. A class carries the fields the program updates, and each
method's postcondition says what the new contents are as a function of the old ones. The lemmas beside
it are about those functions: what they keep over whole runs, and which simpler description they refine.
Ghost out-parameters of the receiving methods name what cannot be computed from their results: the bytes
the system delivered (`chunk`), the bytes that became readable (`landed`, `arrived`), and the callback
runs (`made`). They are tied to the connection: `chunk` is what left `pending` and was added to `taken`, the
runs are those added to `calls`, and their results add up to the length of `chunk`. The history of a
`Context` is made of nothing but these receptions.

## Conventions

- **The outside world.** `Receivers.Receiver` stands for the socket fields the receive callback reaches
  through its untyped argument, together with the peer: `pending` is all the peer will ever send, and each
  system call delivers as little of it as it likes. `send` takes at least one byte or fails. The random
  vector of `handshake_init` is a parameter; the times put into error messages come from an arbitrary clock.
- **Cryptography.** `encrypt`, `decrypt`, `derive`, `hash` and the protobuf messages are arbitrary
  functions that may fail. What a theorem needs of them is a hypothesis of that theorem: decryption does
  not lengthen a text (CBC, section 6.2 of NIST SP 800-38A, with the padding of section 6.3 of RFC 5652),
  decryption inverts encryption, the exchange commutes, the messages parse back.
- **Inheritance** is composition: a `SecureSocket` holds a `Socket`, which holds a `Receiver` and a ring.
- **One `Context`.** `read_sock` is modelled on one object, and endpoint handlers do not touch the ring.

## Where the code departs from its documentation

The model follows the code. For each departure the exact condition is proved.

- A capacity that is not a power of two is corrected to 1024, but the array is allocated with the
  uncorrected argument: `AllocationCoversMaskExactlyWhen`.
- A callback write calls twice even after a short first call and then leaves a gap inside the counted
  bytes. It is an append whatever the callback does exactly when the end of the array does not split the free
  space: `WriteIsAppendExactlyWhen`, with a write that leaves a gap in `GapHappens`. For given calls the bytes
  land in a row exactly under the condition of `ContiguousExactlyWhen`. Everything about `try_recv` that needs
  the delivered bytes in order assumes `Seamless` calls: a filled first window or an empty second call.
- The string overload of `read_to` looks for the delimiter among bytes it has not taken yet. In a ring of a
  given capacity it reads as documented only for one-byte delimiters, those longer than the ring, and those
  of the ring's own length that the search never finds: `StringReadAsDocumentedExactlyWhen`. In
  `read_buffer` a failed search can reorder the ring (`FailedStringSearchIsIdentityExactlyWhen`), and a
  delimiter of two bytes or more is only ever met at the very end of the contents, where one byte of it is
  removed (`LongDelimiterRead`); an empty delimiter loses a byte (`EmptyDelimiterRead`).
- A send that fails half-way leaves an unterminated piece on the wire, which runs into the next message:
  `SuccessesArriveExactlyWhen`, and `TornSendHappens` for such a history.
- `stop` clears `run` without the mutex, so its notification can miss a worker:
  `StopNotificationMissedExactlyWhen`, with reachable states in `MissedStopHappens`. A graceful stop that has
  sent its notification can return, without new calls of `enqueue` and spurious wake-ups, exactly when no more
  workers sleep, or are bound to, than calls are under way: `StopCanReturnExactlyWhen`. At the moment of the
  notification that is: no worker stands between its test and its sleep, or a call is under way
  (`NotifiedStopCanReturnExactlyWhen`). A stop drains the queue only if there is a worker:
  `StopDrainsExactlyWhen`.
- A receive on an insecure socket clears the buffer without `reset`, so a header that is pending then survives
  and takes the first frame after the clearing for its body: `RunStartsFromScratchExactlyWhen`, with an
  input in `PendingHeaderSurvives`. `read_sock` alone never gets there, since a header becomes pending only on
  a secure socket and `read_sock` restarts the handshake only on an insecure one: this is part of the class
  invariant of `Context`, and `OnReadable` promises that an insecure call leaves nothing behind.

## Model

| member | source | states |
|---|---|---|
| Bits.MaskIsMod | src/circular-buffer.cpp:15-17 | masking with capacity - 1 is the remainder modulo the capacity, for every power of two |
| Bits.PowerOfTwoTest | src/circular-buffer.cpp:6-13 | the test with c and c - 1 is zero exactly for powers of two |
| RingGeometry.MaskOfAdvance | src/circular-buffer.cpp:19-35 | an advanced cursor selects the cell that many places on, also when it passes 2^64 |
| RingGeometry.MaskOfTruncated | src/circular-buffer.cpp:170-176 | a cursor saved in 32 bits still selects the same cell |
| RingGeometry.WindowsAreFree | src/circular-buffer.cpp:208-221 | both windows of a callback write lie inside the array and avoid every live byte, however short the first call was |
| RingGeometry.WindowsInRingOrder | src/circular-buffer.cpp:208-221 | the windows are, in ring order, exactly the first n free cells |
| RingGeometry.ContiguousExactlyWhen | src/circular-buffer.cpp:218-224 | the two chunks land on consecutive free cells if and only if the first call filled its window or the second delivered nothing |
| CircularBuffers.CapacityIsPowerOfTwo | src/circular-buffer.cpp:6-13 | the corrected capacity is a power of two, and the argument itself exactly when that is one |
| CircularBuffers.AllocationCoversMaskExactlyWhen | src/circular-buffer.cpp:37-43 | every cursor selects an allocated cell if and only if the argument is a power of two or at least 1024 |
| CircularBuffers.FillBothWindows | src/circular-buffer.cpp:203-225 | live bytes survive both calls, and if the calls leave no gap the contents grow by exactly the two chunks in order |
| CircularBuffers.WriteIsAppendExactlyWhen | src/circular-buffer.cpp:212-224 | a callback write is an append for every filling of its windows if and only if nothing is asked for or the free space is not split by the end of the array |
| CircularBuffers.GapHappens | src/circular-buffer.cpp:218-224 | a filling of split windows after which the contents are not the old ones and the delivered byte |
| CircularBuffers.CircularBuf.constructor | src/circular-buffer.cpp:37-43 | a new ring is empty and has the corrected capacity |
| CircularBuffers.CircularBuf.Push | src/circular-buffer.cpp:19-26 | appends one byte, or refuses exactly when full |
| CircularBuffers.CircularBuf.Shift | src/circular-buffer.cpp:28-35 | removes the oldest byte, or refuses exactly when empty |
| CircularBuffers.CircularBuf.Read | src/circular-buffer.cpp:122-133 | takes the first min(lim, size) bytes and leaves the rest |
| CircularBuffers.CircularBuf.ReadTo | src/circular-buffer.cpp:135-144 | takes everything through the first delimiter, which is the last byte taken and occurs nowhere before, or everything, and leaves exactly the rest |
| CircularBuffers.CircularBuf.ReadToString | src/circular-buffer.cpp:146-163 | takes what the string search really accepts and leaves exactly the rest |
| CircularBuffers.CircularBuf.ReadFrom | src/circular-buffer.cpp:165-179 | returns the suffix from the offset and leaves the prefix, through the 32-bit saved cursor |
| CircularBuffers.CircularBuf.Write | src/circular-buffer.cpp:181-189 | appends as many bytes as fit and returns their count |
| CircularBuffers.CircularBuf.WriteVia | src/circular-buffer.cpp:203-225 | keeps the old contents, counts the delivered bytes, makes exactly the calls planned for the two cursors, says which cells they wrote even with a gap, and appends the bytes in order when the calls are seamless |
| CircularBuffers.PlannedCallsAreProper | src/circular-buffer.cpp:208-221 | no planned window is empty when bytes are wanted, only the first call may block, and the calls together store at most n bytes |
| CircularBuffers.PlannedCallsAre | src/circular-buffer.cpp:208-221 | the first call is offered the free cells up to n or the end of the array; a second follows at the start of the array whenever the first stored fewer than n and cells are free there |
| CircularBuffers.FilledCallsTakeAll | src/circular-buffer.cpp:208-224 | calls that fill their windows store exactly n bytes |
| CircularBuffers.CircularBuf.Clear | src/circular-buffer.cpp:227-230 | empties the ring |
| Delimiters.IndexOf | src/circular-buffer.cpp:135-144 | the first position of a byte, with none before it |
| Delimiters.OneByteOverloadsAgree | src/circular-buffer.cpp:135-163 | on one-byte delimiters the string overload takes what the char overload takes |
| Delimiters.StringReadAsDocumentedExactlyWhen | include/circular-buffer.hpp:90-96 | in a ring of the given capacity the string overload reads up to the first delimiter on all contents if and only if the delimiter has one byte, is longer than the ring, or has the ring's length and is never found |
| Delimiters.NeverFound | src/circular-buffer.cpp:151-159 | a delimiter with a nonzero byte behind its first is never found |
| Delimiters.ZeroTailTaken | src/circular-buffer.cpp:146-163 | any other non-empty delimiter is found at the first occurrence of its first byte, if it would fit from there, and else everything is taken |
| Receivers.Receiver.Callback | src/socket.cpp:275-309 | stores what was received in its window, blocks only on its first run, and closes the descriptor exactly when the system call returned 0 |
| Sockets.Socket.TryRecv | src/socket.cpp:253-310 | asks for len bytes or, for zero, for all the space, bounded by the space: so many arrive if the system delivers all it is asked for, and never more; they are what the callback left in the cells counted, the bytes taken if the calls were seamless; reports the remaining space, never asks for zero bytes, and closes the descriptor exactly when the peer hung up |
| Sockets.Socket.TrySend | src/socket.cpp:320-347 | with a descriptor that does not listen: all data goes out and true, or a proper prefix, one refusal and false; otherwise nothing and false |
| Sockets.Socket.TrySendText | src/socket.cpp:312-314 | the text with its terminator goes out, or is cut short by a refusal |
| Sockets.Socket.ReadBuffer | src/socket.cpp:349-377 | with a delimiter in the ring, the old contents are the frame, which holds none, the delimiter and the new contents; without one, nothing is returned and nothing changes |
| Sockets.Socket.ReadBufferString | src/socket.cpp:379-394 | what a read delimited by a string returns and leaves, failures included |
| Sockets.Socket.FlushBuffer | src/socket.cpp:401-404 | returns all contents and empties the ring |
| Sockets.Socket.ClearBuffer | src/socket.cpp:406-409 | empties the ring |
| Framing.OneByteStringIsFrame | src/socket.cpp:349-394 | the two delimited reads agree on one-byte delimiters |
| Framing.FailedStringSearchIsIdentityExactlyWhen | src/socket.cpp:379-394 | a failed search leaves every ring of the given capacity as it was if and only if the delimiter has at most one byte, is longer than the ring, or has a nonzero byte behind its first |
| Framing.LongDelimiterRead | src/socket.cpp:379-394 | what a read delimited by two bytes or more returns and leaves, for every contents: something only for a never-found delimiter that ends the contents, and then all but the last byte |
| Framing.EmptyDelimiterRead | src/socket.cpp:379-394 | a read with an empty delimiter drops the first byte |
| Framing.FramesOfConcat | src/socket.cpp:349-377 | cutting a stream behind a frame cuts its list of frames |
| Framing.FramingRoundTripsExactlyWhen | src/socket.cpp:312-314 | the frames of the encoded messages are the messages if and only if every message is non-empty and NUL-free |
| Framing.RunConserves | src/socket.cpp:349-377 | over every run of receives and reads no frame is lost, invented or reordered, and what is left is a suffix of the stream |
| Framing.ReceivedMessagesArePrefix | src/socket.cpp:253-261 | under every cutting and interleaving the results are a prefix of the messages sent, and all of them once all is received and read |
| Framing.ReceiverStallsExactlyWhen | src/socket.cpp:370-373 | some schedule fills the ring without a frame if and only if the stream has capacity bytes in a row without a delimiter |
| Framing.EncodedIsDenseExactlyWhen | src/socket.cpp:312-314 | an encoded list has no such stretch if and only if every message with its terminator fits the capacity |
| Framing.FittingMessagesAlwaysArrive | src/socket.cpp:349-377 | messages that fit never stall the receiver, and from wherever a run has got to it can still hand out exactly the list |
| SendLock.NeverInterleaved | src/socket.cpp:332-344 | in every reachable state the wire is the calls' bytes one after the other: all of each success, a proper prefix of each failure |
| SendLock.SuccessesArriveExactlyWhen | src/socket.cpp:335-340 | the receiver's frames are the successful messages if and only if no send that failed after some bytes is followed by a success |
| SendLock.TornSendHappens | src/socket.cpp:335-340 | a reachable history in which the frames are not the successful messages |
| Attempts.SpokeThen | src/socket.cpp:320-347 | attempts for one list of texts and then for another are attempts for both in order, with their bytes and refusals |
| Attempts.UnrefusedTextsArrive | src/socket.cpp:335-346 | when no send was refused, the wire has grown by exactly the texts |
| SecureSockets.SentIsReceived | src/secure-socket.cpp:197-242 | an encrypted terminated message, received whole, becomes the receiver's next frame |
| SecureSockets.EncryptedRequestsArriveInOrder | src/context.cpp:100-167 | messages sent encrypted and received whole reach the handlers in order while the ring does not overflow, and all of them once all are delivered and read |
| SecureSockets.EncryptedRequestsAreHandledAtOnce | src/context.cpp:100-167 | if every receive leaves room, nothing is dropped and after each call exactly the messages delivered so far have been handled, with an empty ring |
| SecureSockets.SealedIsOpened | src/secure-socket.cpp:197-242 | a text sealed by one end, received whole by an end with the same key and vector, has as outcome that text |
| SecureSockets.SecureSocket.PostedIsReceived | src/secure-socket.cpp:197-242 | so has what a successful send put on the wire |
| SecureSockets.SecureSocket.TryRecv | src/secure-socket.cpp:197-221 | asks for all the space; -2 and an empty ring without a key; 0 exactly when nothing arrived; -1 and the old contents when what arrived does not decrypt or decrypts to nothing; otherwise old contents followed by the plaintext and its length; the reported space never exceeds the real one |
| SecureSockets.SecureSocket.TrySend | src/secure-socket.cpp:223-242 | on success the bytes added to the wire decrypt to the text; it fails only without key, ciphertext or line, when nothing goes out, or by one refusal |
| SecureSockets.SecureSocket.HandshakeInit | src/secure-socket.cpp:64-82 | forgets the old key, takes a new vector, and sends key and vector |
| SecureSockets.SecureSocket.ReceiveMessage | src/secure-socket.cpp:89-95 | nothing exactly when nothing arrived; otherwise the whole ring, old contents first, without its last byte, and an empty ring |
| SecureSockets.SecureSocket.HandshakeAccept | src/secure-socket.cpp:84-124 | the accept step on what arrived, and only on that: state, reply and ring, with each failure branch |
| SecureSockets.SecureSocket.HandshakeFinal | src/secure-socket.cpp:126-169 | the final step on what arrived, and only on that: state, confirmation and ring, with each failure branch |
| SecureSockets.SecureSocket.HandshakeConfirm | src/secure-socket.cpp:171-195 | asks for two bytes; succeeds exactly when two came, the ring then starts with 1 and holds a terminator, and the secret has a hash; anything else than a confirmation changes no key |
| Handshake.HandshakeAgreement | src/secure-socket.cpp:64-195 | over every run, two secure ends hold the same key, secret and vector, a secure peer implies a secure host, and a secure key is the hash of the derived secret |
| Handshake.MessageIsPayload | src/secure-socket.cpp:89-95 | what a step reads when a whole message arrives in an empty ring is the payload of the exchange's step |
| Handshake.ExchangeCanSecureExactlyWhen | src/secure-socket.cpp:64-195 | some run secures both ends if and only if the secret of their keys exists and has a hash |
| Handshake.UnimpededRunSecures | src/secure-socket.cpp:64-195 | with all messages delivered and all sends successful the four steps secure both ends |
| RequestParser.ParseConcat | src/context.cpp:118-159 | the stream parser may be stopped behind any frame and resumed with its pending header |
| RequestParser.DemandsParse | src/context.cpp:118-159 | the stream parser gives back exactly the demands whose frames it reads: each header with its own body, one event each |
| RequestParser.MessageHandledAtOnce | src/context.cpp:118-166 | one whole message received into an empty ring with room left is handled at once and completely |
| RequestParser.AwaitHeaderExplained | src/context.cpp:118-166 | a call that awaits a header consumes whole frames and reports exactly the stream parser's events for them |
| RequestParser.ReadBodyExplained | src/context.cpp:154-166 | the same for a call that awaits a body |
| RequestParser.CallExplained | src/context.cpp:100-167 | the same for every exit of a call that is not blocked |
| RequestParser.RunRefinesStreamParser | src/context.cpp:100-167 | over every run and chunking the events of each stretch are exactly the whole-stream parser's on the frames consumed from it, and the pending header agrees |
| RequestParser.RefinedEventsArePrefix | src/context.cpp:100-167 | so the events of a stretch are a prefix of what its whole text parses to |
| RequestParser.CallConservesBytes | src/context.cpp:118-166 | a call's frames and dropped bytes followed by the live bytes are what was there and what came |
| RequestParser.RunConservesBytes | src/context.cpp:118-166 | over every run the plaintext received is, in order, frames and dropped bytes, then the live bytes |
| RequestParser.RoomIsKept | src/context.cpp:101-166 | whenever there was room before a call there is room after it |
| RequestParser.NeverWedged | src/context.cpp:101-166 | from a ring with room no run ends with a full one |
| RequestParser.ReceivedIsIncoming | src/context.cpp:100-167 | the plaintext of a run is what its receives brought, in order |
| RequestParser.RunStartsFromScratchExactlyWhen | src/context.cpp:104-107 | over a run every stretch after a clearing is parsed from scratch if and only if no blocked call meets a pending header |
| RequestParser.PendingHeaderSurvives | src/context.cpp:104-107 | a run of two calls after which a stretch is not parsed from scratch |
| RequestParser.RequestsArriveInOrder | src/context.cpp:100-167 | while nothing is cleared the events are a prefix of what the sender's messages themselves parse to, and all of it at the end |
| Contexts.RepliesConcat | src/context.cpp:178-189 | the texts sent for two lists of actions are those for the one and then for the other, each at its own time |
| Contexts.ActedThen | src/context.cpp:100-167 | actions and the texts on the wire compose in order |
| Contexts.GroundedKept | src/context.cpp:100-167 | a call adds one step of the request machine, on what its bytes decrypt to, to a history that refines the stream parser, loses no byte and accounts for all actions |
| Contexts.LogHandled | src/context.cpp:100-167 | the requests served and the pings taken up are, in order, those the parser's events call for |
| Contexts.ActionsConcat | src/context.cpp:100-167 | what is seen of two stretches of a log is what is seen of the one and then of the other |
| Contexts.Context.Reset | src/context.cpp:67-71 | clears both buffers and the pending header |
| Contexts.Context.DoError | src/context.cpp:178-189 | records the code; with key, ciphertext and line, and no refusal, the bytes added to the wire decrypt to the terminated message of that code and time |
| Contexts.Context.HandleRequest | src/context.cpp:57-65 | a registered path is served with header and body and nothing is sent, any other is error 13002 reported to the peer, and without a server nothing happens |
| Contexts.Context.AnswerPing | src/context.cpp:138-145 | posts the echo, which the peer can decrypt if it went out whole, and exactly otherwise the error |
| Contexts.Context.Greeting | src/context.cpp:105-107 | restarts the handshake with a new vector and sends its message |
| Contexts.Context.ReadHeader | src/context.cpp:118-152 | contents, pending header, actions and texts on the wire of every exit of the header half |
| Contexts.Context.ReadRequest | src/context.cpp:154-166 | contents, pending header, actions and texts on the wire of the body half |
| Contexts.Context.ReadSock | src/context.cpp:100-167 | one call takes a chunk off the stream and makes the step of the request machine on what it decrypts to: contents, pending header, actions, texts on the wire, keys; without a key, without bytes and with bytes that do not decrypt, the outcome is spelled out |
| Contexts.Context.OnReadable | src/context.cpp:100-167 | the same, with at least one system call, keeping as class invariant that the history of the bytes taken explains state and actions, refines the stream parser, loses no byte and leaves room |
| Contexts.Context.TakenBytesAreAccountedFor | src/context.cpp:100-167 | what the bytes taken off the stream decrypt to equals, in order, the frames read and the bytes dropped, then the ring's contents |
| Contexts.Context.HandlersSeeTheMessages | src/context.cpp:100-167 | when the bytes taken were the ciphertexts of a list of messages and the ring did not overflow, the requests served and pings taken up are in order those the messages call for, and all of them at the end |
| Contexts.Context.HandlersKeepUp | src/context.cpp:100-167 | if besides every receive left room, exactly the messages delivered so far have been handled and the ring is empty |
| ThreadPools.InvKept | src/thread-pool.cpp:35-86 | every atomic step of every thread keeps the pool's invariant |
| ThreadPools.ExclusionKept | src/thread-pool.cpp:40-55 | the mutex has at most one owner |
| ThreadPools.WorkKept | include/thread-pool.hpp:42-55 | with a worker asleep, queued tasks never outnumber workers about to look plus notifications due |
| ThreadPools.NoLostWakeUp | include/thread-pool.hpp:42-55 | in every reachable state with nobody about to look and nothing to notify, a sleeping worker means an empty queue |
| ThreadPools.EachTaskOnce | src/thread-pool.cpp:49-56 | in every reachable state an accepted task is queued, in flight or finished, exactly once, and tasks are popped in order |
| ThreadPools.RunningPoolAcceptsExactlyWhen | include/thread-pool.hpp:43-51 | while the pool runs, the task of a call whose push does not throw is accepted exactly when the call is past its critical section |
| ThreadPools.StopDrains | src/thread-pool.cpp:66-81 | once the waits of a graceful stop are over, every accepted task has finished exactly once |
| ThreadPools.StopDrainsExactlyWhen | src/thread-pool.cpp:66-81 | a graceful stop drains the pool if and only if the pool has a worker |
| ThreadPools.ExitIsFinal | src/thread-pool.cpp:49-52 | once a worker has left, the pool is stopped and empty for ever and accepts nothing |
| ThreadPools.FuturesMatchWorkers | src/thread-pool.cpp:29-64 | each promise is set exactly when its own worker has left, by that worker, and at most once over any run; no worker is lost to an exception |
| ThreadPools.StopNotificationMissedExactlyWhen | src/thread-pool.cpp:68-71 | after the notification some run puts a worker to sleep if and only if one stood between its test and its sleep |
| ThreadPools.MissedWorkerHangsStop | src/thread-pool.cpp:73-76 | a missed worker keeps the graceful stop waiting until a spurious wake-up or another notification |
| ThreadPools.MissedStopHappens | src/thread-pool.cpp:68-76 | such a moment, and the hung state after it, are reachable in a pool of one worker that was never given a task |
| ThreadPools.UnnoticedWorkerSleepsOn | src/thread-pool.cpp:73-76 | with no call under way a missed worker sleeps on, and the stop waits, through every run without a new call or its own spurious wake-up |
| PoolProgress.StopCanReturnExactlyWhen | src/thread-pool.cpp:66-81 | after the notification some run without new calls and spurious wake-ups ends the stop if and only if no more workers sleep, or are bound to, than calls are under way |
| PoolProgress.NotifiedStopCanReturnExactlyWhen | src/thread-pool.cpp:68-71 | at the notification: if and only if no worker stands between its test and its sleep, or a call is under way |
| PoolProgress.HungStopNeverReturns | src/thread-pool.cpp:73-76 | otherwise no such run ever gets past the waits |
| PoolProgress.EveryTaskCanFinish | src/thread-pool.cpp:35-61 | from every reachable state of a pool with workers some run of workers and outstanding calls alone finishes every accepted task exactly once |
| PoolProgress.GracefulStopCanComplete | src/thread-pool.cpp:66-81 | from every reachable running state a graceful stop can be called and some run then ends it, with every accepted task finished |
| PoolProgress.QueuedWorkIsNeverStuck | src/thread-pool.cpp:35-61 | while a task waits, some worker or outstanding call can make a step |
| ThreadPools.StepsAreThreadActions | src/thread-pool.cpp:35-86 | a step is enabled exactly when some thread takes it next |
| ThreadPools.ThreadPool.constructor | src/thread-pool.cpp:18-23 | a new pool has n workers at the lock and an empty queue |
| ThreadPools.ThreadPool.WorkerAction | src/thread-pool.cpp:35-61 | a worker performs exactly its next step, or nothing while it is blocked |
| ThreadPools.ThreadPool.EnqueueAction | include/thread-pool.hpp:42-55 | a call of enqueue performs exactly its next step |
| ThreadPools.ThreadPool.StopAction | src/thread-pool.cpp:66-81 | a graceful stop performs exactly its next step, and when done every accepted task has run |

## Left out

- Socket set-up (`try_listen`, `try_connect`, `try_accept`), address lookup, event callbacks, `Server`, `Handler`, `Logger`, `Lobby`, random numbers and time: foreign calls, plumbing, or easy map facts.
- The copy of the `Context` made by the receive event callback, which loses the pending header between events: one object is modelled.
- OpenSSL, CryptPlus and protobuf internals: opaque functions. A protobuf header is only its type, size and path.
- Capacity 0, moved-from rings, and the copying and data-initialising ring constructors: the last never advance the write cursor, so such a ring is empty.
- Receiving through rings of 2^31 bytes and more, where the program's `int` counts overflow, and string delimiters so long that `from + nbytes` wraps: 2^32 bytes less the ring's size, and more.
- The element one past the end that `read_to` names when the ring runs empty: it is never written, so the model does not form it.
- Races on the ring between `recv_mux` and `buf_mux` holders: the receive path is modelled as one thread, as the server uses it.
- A `recvfrom` on descriptor 0 is taken to fail, and a `send` of some bytes never to return 0.
- SecureSockets.SecureSocket.HandshakeConfirm: an empty first frame, on which the program's `front` is undefined, is taken as a refusal.
- SecureSockets.EncryptedRequestsArriveInOrder: each receive brings one whole ciphertext; the program has no framing for ciphertexts, so a cut or joined one is just another text to decrypt.
- Handshake.HandshakeAgreement: one exchange; a retry draws a new vector and can meet an old message, so nothing is claimed across retries, and messages arrive whole.
- Contexts.Context.DoError: the error message is an opaque function of code and time.
- Contexts.Context.ReadSock: a call handles at most one request, as in the program; further complete frames wait for the next receive.
- ThreadPools.ThreadPool.StopAction: `stop(false)` and the default thread count are not modelled.
- PoolProgress.StopCanReturnExactlyWhen: it says when a graceful stop can return, not that it does; schedulers are not assumed fair.
- Tasks are numbers and their effects are not modelled; a task that throws something other than a `std::exception` ends the program and is not modelled.
