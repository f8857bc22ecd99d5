# Verified core of the Micro XRCE-DDS Agent

A Dafny model of the stateful parts of the Agent, with proofs about whole runs: every interleaving, every sequence of calls,
every reachable state.  `dafny verify dfyconfig.toml` checks the project.  Code that updates fields in place is a class whose methods
are proved equal to a function of the old state; protocols are step machines built from the same functions, so a lemma about runs
is a lemma about the methods.

| part | files |
|---|---|
| readers/writer locks | `SharedMutex.dfy`, `SharedMutexPriority.dfy` |
| centralized middleware: topic history, delivery, access classes, topic registry | `CedTopic.dfy`, `CedDelivery.dfy`, `CedAccess.dfy`, `CedTopicManager.dfy` |
| clients, sessions, liveliness, objects | `SessionManager.dfy`, `Root.dfy`, `Processor.dfy`, `Liveliness.dfy`, `HeartbeatSweep.dfy`, `ProxyClient.dfy`, `Conversion.dfy` |
| packet scheduler | `PacketScheduler.dfy` |
| rate limiter and read task | `TokenBucket.dfy`, `Reader.dfy` |
| message framing | `Cdr.dfy`, `Payloads.dfy`, `PayloadSizes.dfy`, `Message.dfy`, `WireFormat.dfy`, `ByteOrder.dfy` |
| reliable streams, fragments, end to end | `ReliableStream.dfy`, `ReliableLink.dfy`, `LinkRuns.dfy`, `Fragments.dfy`, `EndToEnd.dfy`, `Conversation.dfy` |
| serial numbers, words, arithmetic | `SeqNum.dfy`, `Words.dfy`, `Arithmetic.dfy`, `Options.dfy` |

## What the proofs found

Where the code does not keep a property that one would expect, the property is replaced by the exact condition under which it holds,
with a concrete run or input that shows the failure.

- `SharedMutexPriority` can lose a wake-up: its `notify_one` may pick a reader that a waiting writer still holds back
  (`WakeUpIsLost`, `WakeUpKeptIffUsefulChoice`, `RunsWithUsefulChoices`).
- A topic reader that falls behind by just over a multiple of 65536 writes skips entries that are still in the ring
  (`BlindSpot`, `OnlyOverwrittenSkippedIff`, `ShortGapsAreVisible`), and a waiter that is woken more than a ring behind is handed an
  entry that a later read hands out again (`WaiterGoesBack`, `WakeThenReadInOrderIff`,
  `AlwaysInOrderIffPrompt`).
- A keyed client that deletes itself leaves its session behind (`KeyedDeleteLeavesSession`, `MixedRunsAgreeIff`), and the end
  or the move of a keyed client's session can remove the route of another client at the same endpoint (`SharedEndpointLosesRoute`,
  `DestroyOfIsLocalIff`, `EstablishIsLocalIff`).
- The counter of liveliness tries is not set by the constructor, so the number of requests before a removal is three only if the
  counter happens to be zero or a packet came first (`StrayCounters`, `ThreeTriesIffZero`, `DeadVisitsCounted`).
- The token bucket grants tokens that are not there when its wait reaches back before its last update: with a negative timeout, and at
  rate 1 with any timeout, where it grants everything (`NegativeTimeoutOvergrants`, `RateOneGrantsEverything`, `OvergrantsIffBackward`,
  `RateKeptIff`).  The read task never makes such
  a call at rates from 2, although its timeouts can be negative (`ReadAtRate`).
- The read task compares its sample counter with the limit after counting, so the limit 0 does not stop it after the first sample
  (`OverrunsLimit`).
- The read task looks at its time limit between samples only: a sample larger than the bucket is never pushed, and keeps the thread busy
  until somebody stops it (`OutlastsTimeLimit`, `ReadTask.Run`).
- The MTU is the client's, and nothing checks it.  The fragment loop never ends for a submessage of more than 65535 bytes, which its sixteen
  bits cannot count, nor for any submessage that needs fragments at an MTU of just the headers (`LongSubmessageNeverEnds`, `StatusNeverReturns`,
  `LoopEndsIff`); at an MTU below them it copies from behind the submessage (`SmallMtuLeavesSubmessage`, `FragmentInside`).
- A reset does not clear the fragment buffer: a client that restarts in the middle of a submessage in fragments finds its next one glued
  behind the old bytes (`RestartGlues`, `RestartIsCleanIff`).
- A submessage under the wrong byte-order flag is misread, unless all its numbers are byte palindromes (`ClearedFlagMisreads`,
  `PayloadReadIff`, `MessageReadIff`).
- A submessage cut into more than 32767 fragments leaves a sender that sends nothing and heartbeats that announce nothing
  (`LongSampleStalls`, `QuietLinkMovesIff`), and its window looks open again from 32785 unacknowledged messages on (`WindowOpenExactly`).
- A copy of a message that arrives 65521 to 65536 messages late, or a multiple of 65536 later, is taken for a new one
  (`OldCopyDeliveredAgain`, `StaleCopyKeptIff`), and so is a message of the run before a restart whose number is in the window
  (`OldMessageDelivered`, `OldMessageHarmsIff`).
- A message that was only retransmitted, never sent in turn, is acknowledged in vain until the sender has sent it
  (`UnsentNeverAcknowledged`, `AcknowledgementIgnoredIff`).
- Replacing an object whose new representation fails leaves neither the old nor the new one (`ReplaceLosesParticipant`,
  `FailedReplaceLeavesNothing`, `FailureKeepsTableIff`).
- The comments on deletion in include/uxr/agent/Agent.hpp promise that the children of a participant, topic, publisher or subscriber go with
  it; the code erases that one object (`DeletionRemovesOneObject`), and the model follows the code.

## Parameters instead of the outside world

Clocks are parameters (nanoseconds in the limiter, any unit in the liveliness check), and a sleep moves the clock to its deadline.  The choice of
`notify_one`, spurious wake-ups, the source and sink of the read task, the results of `send_message`, and the fate of every packet on
the network are arbitrary.  A `wait` on a condition variable is the step that is taken once its condition holds.  A time limit of zero, which the
source turns into the largest time point, is the absence of a deadline.  `size_t` has 64 bits and the host is little-endian.
The clock holds 64-bit nanoseconds, so that timeouts and time differences are below 2^44 milliseconds.
A link joins the Agent's output stream to the Agent's input stream: the client library at the other end is taken to run the same algorithm.
It reads DATA as the Agent reads WRITE_DATA: the sample takes the length in the subheader less the four bytes of the request.
Packets on a link may arrive at any time and any number of times, or never; `RunKeptIffProper` says exactly which arrivals keep the
protocol, and `RecentIsReadRight` how old a packet may be.

## Model

| member | source | states |
|---|---|---|
| `SharedMutexes.RunKeepsInv` | include/uxr/agent/utils/SharedMutex.hpp:63-135 | in every state of every interleaving of any number of threads, with spurious wake-ups: the fields count the holders, shared waiters sleep only under an exclusive holder, and a free mutex with a sleeper has a woken waiter that will get it |
| `SharedMutexes.MutualExclusionOnRuns` | include/uxr/agent/utils/SharedMutex.hpp:63-135 | beside an exclusive holder every other holder is a shared lock of the same thread |
| `SharedMutexes.WaitersProgress` | include/uxr/agent/utils/SharedMutex.hpp:63-135 | whenever nobody holds the mutex and somebody waits, some woken waiter acquires it by its next step: no wake-up is lost |
| `SharedMutexes.OwnSharedLockNeverBlocks` | include/uxr/agent/utils/SharedMutex.hpp:63-75 | the exclusive owner never blocks on a shared lock of its own |
| `SharedMutexes.ReaderEntersIff` | include/uxr/agent/utils/SharedMutex.hpp:63-75 | in every run, by the holders alone: a shared lock is granted exactly if nobody holds exclusively or its own thread does, and sleeps otherwise |
| `SharedMutexes.WriterEntersIff` | include/uxr/agent/utils/SharedMutex.hpp:112-124 | an exclusive lock is granted exactly if nobody holds the mutex, and sleeps otherwise |
| `SharedMutexes.LeavingWakes` | include/uxr/agent/utils/SharedMutex.hpp:77-135 | the writer that leaves wakes every sleeper, the last reader exactly one, any other reader none |
| `SharedMutexes.StepKeepsWakeUps` | include/uxr/agent/utils/SharedMutex.hpp:77-135 | one step keeps the absence of lost wake-ups: `notify_one` after the last reader and `notify_all` after the writer are enough |
| `SharedMutexes.StepKeepsExclusion` | include/uxr/agent/utils/SharedMutex.hpp:63-135 | one step keeps mutual exclusion and the exactness of `shared_counter_` and `exclusively_locked_` |
| `SharedMutexes.StepKeepsWaitersBlocked` | include/uxr/agent/utils/SharedMutex.hpp:63-135 | no step puts a shared waiter to sleep unless the mutex is held exclusively |
| `SharedMutexes.SharedMutex.SharedEnter` | include/uxr/agent/utils/SharedMutex.hpp:63-75 | a pass of `SharedLock::lock` takes the shared lock or sleeps, as the step machine says |
| `SharedMutexes.SharedMutex.SharedLeave` | include/uxr/agent/utils/SharedMutex.hpp:77-89 | `SharedLock::unlock` releases and wakes one waiter when the count reaches zero |
| `SharedMutexes.SharedMutex.ExclusiveEnter` | include/uxr/agent/utils/SharedMutex.hpp:112-124 | a pass of `ExclusiveLock::lock` takes the mutex when it is free, or sleeps |
| `SharedMutexes.SharedMutex.ExclusiveLeave` | include/uxr/agent/utils/SharedMutex.hpp:126-135 | `ExclusiveLock::unlock` releases and wakes every waiter |
| `SharedMutexesPriority.WRunKeepsExclusion` | include/uxr/agent/utils/SharedMutexPriority.hpp:69-151 | in every run the counters are exact, `exclusive_counter_` counts the writers announced or holding, and there is mutual exclusion |
| `SharedMutexesPriority.WMutualExclusionOnRuns` | include/uxr/agent/utils/SharedMutexPriority.hpp:69-151 | beside an exclusive holder every other holder is a shared lock of the same thread |
| `SharedMutexesPriority.WritersHoldBackReaders` | include/uxr/agent/utils/SharedMutexPriority.hpp:69-84 | while a writer is announced or holds, only the thread in `exclusive_thread_id_` newly gains a shared lock |
| `SharedMutexesPriority.ReaderEntersIff` | include/uxr/agent/utils/SharedMutexPriority.hpp:69-84 | in every run, by the holders alone: a shared lock is granted exactly if no writer is announced or holds, or its thread is the last exclusive owner; otherwise it sleeps |
| `SharedMutexesPriority.ReadersShare` | include/uxr/agent/utils/SharedMutexPriority.hpp:69-84 | readers do not exclude each other: without a writer the shared lock joins the ones that hold |
| `SharedMutexesPriority.WOwnSharedLockNeverBlocks` | include/uxr/agent/utils/SharedMutexPriority.hpp:69-84 | the exclusive owner never blocks on a shared lock of its own, whoever else is announced |
| `SharedMutexesPriority.WriterEntersIff` | include/uxr/agent/utils/SharedMutexPriority.hpp:123-139 | an exclusive lock is granted exactly if nobody holds the mutex, and then its thread is the owner; otherwise it sleeps |
| `SharedMutexesPriority.LeavingWakes` | include/uxr/agent/utils/SharedMutexPriority.hpp:86-151 | the writer that leaves wakes every sleeper, the last reader exactly one, any other reader none |
| `SharedMutexesPriority.ReadersSleepOnlyForWriters` | include/uxr/agent/utils/SharedMutexPriority.hpp:69-151 | in no state of any run does a reader sleep without a writer announced or holding |
| `SharedMutexesPriority.WakeUpKeptIffUsefulChoice` | include/uxr/agent/utils/SharedMutexPriority.hpp:86-98 | from a state without a lost wake-up, a step loses one if and only if the last reader leaves and `notify_one` picks a reader that a waiting writer holds back while nobody else awake can proceed |
| `SharedMutexesPriority.RunsWithUsefulChoices` | include/uxr/agent/utils/SharedMutexPriority.hpp:69-151 | a whole run never loses a wake-up if and only if no step makes that choice |
| `SharedMutexesPriority.WakeUpIsLost` | include/uxr/agent/utils/SharedMutexPriority.hpp:69-98 | a run of six steps after which the mutex is free, a writer and a reader sleep, and nobody is awake who would take it: only a spurious wake-up or a later unlock can go on |
| `SharedMutexesPriority.SharedMutexPriority.SharedEnter` | include/uxr/agent/utils/SharedMutexPriority.hpp:69-84 | a pass of `lock` is the step of the machine, of which `ReaderEntersIff` says whom it lets in |
| `SharedMutexesPriority.SharedMutexPriority.ExclusiveAnnounce` | include/uxr/agent/utils/SharedMutexPriority.hpp:123-127 | the announcement raises `exclusive_counter_` before the critical section |
| `SharedMutexesPriority.SharedMutexPriority.ExclusiveEnter` | include/uxr/agent/utils/SharedMutexPriority.hpp:123-139 | a writer takes the mutex when it is free, or sleeps |
| `SharedMutexesPriority.SharedMutexPriority.SharedLeave` | include/uxr/agent/utils/SharedMutexPriority.hpp:86-98 | the last reader wakes one waiter of any kind |
| `SharedMutexesPriority.SharedMutexPriority.ExclusiveLeave` | include/uxr/agent/utils/SharedMutexPriority.hpp:141-151 | the writer withdraws its announcement and wakes everybody |
| `SeqNums.LessAbstractsCounters` | include/uxr/agent/utils/SeqNum.hpp:36-45 | counters at most 32767 apart compare like their 16-bit images, for `<`, `<=` and `==` |
| `SeqNums.LessIsShortDistance` | include/uxr/agent/utils/SeqNum.hpp:36-42 | `a < b` holds exactly when b is 1 to 32767 steps ahead of a |
| `SeqNums.UnorderedIffOpposite` | include/uxr/agent/utils/SeqNum.hpp:36-45 | two numbers are unordered exactly when they are 32768 apart |
| `SeqNums.ArithmeticCommutes` | include/uxr/agent/utils/SeqNum.hpp:53-109 | `++`, both forms of `+=` and `-=` commute with reduction modulo 65536 |
| `SeqNums.IncrementFormsAgree` | include/uxr/agent/utils/SeqNum.hpp:53-70 | the `int` and the `SeqNum` form of `+=` accept exactly the increments 0 to 32767 |
| `SeqNums.SubIsCircular` | include/uxr/agent/utils/SeqNum.hpp:95-109 | `-=` moves back round the circle for every operand |
| `SeqNums.SeqNum.AddAssign` | include/uxr/agent/utils/SeqNum.hpp:53-61 | an increment out of range leaves the number alone |
| `SeqNums.SeqNum.AddAssignSeq` | include/uxr/agent/utils/SeqNum.hpp:62-70 | the same for a `SeqNum` operand |
| `SeqNums.SeqNum.Increment` | include/uxr/agent/utils/SeqNum.hpp:89-94 | `++` wraps from 65535 to 0 |
| `SeqNums.SeqNum.SubAssign` | include/uxr/agent/utils/SeqNum.hpp:95-102 | `-=` wraps below 0 |
| `CedTopics.CedGlobalTopic.constructor` | src/cpp/middleware/ced/CedEntities.cpp:139-147 | an empty ring stands for an empty log with the write position at 65535 |
| `CedTopics.CedGlobalTopic.Write` | src/cpp/middleware/ced/CedEntities.cpp:158-178 | a write appends to the log if and only if the writer's access allows it, and the ring keeps refining the log |
| `CedTopics.CedGlobalTopic.GetData` | src/cpp/middleware/ced/CedEntities.cpp:240-253 | a reader advances by one and gets the entry that sits in that slot, if permitted |
| `CedTopics.CedGlobalTopic.Scan` | src/cpp/middleware/ced/CedEntities.cpp:197-202 | the retry loop ends and returns the first permitted entry from the clamped position on |
| `CedTopics.CedGlobalTopic.Read` | src/cpp/middleware/ced/CedEntities.cpp:180-202 | a non-waiting read returns the first permitted entry of the window min(lag, size), and moves just past it |
| `CedTopics.CedGlobalTopic.WaitCheck` | src/cpp/middleware/ced/CedEntities.cpp:204-217 | a woken waiter, which is not clamped, reads its own next entry if and only if at most `size` writes have passed since its position |
| `CedTopics.ClampExact` | src/cpp/middleware/ced/CedEntities.cpp:189-195 | for every distance d in 1..65535 the two-clause test leaves the reader at distance min(d, size) |
| `CedTopics.ClampReachesStart` | src/cpp/middleware/ced/CedEntities.cpp:189-195 | the clamp moves a lagging reader to its own next entry or the oldest one in the ring |
| `CedTopics.RingRefinesLog` | src/cpp/middleware/ced/CedEntities.cpp:139-178 | after any number of writes, across 16-bit wraps, the slot of `last_write_ - j` holds data and source of the (n-j)-th accepted write |
| `CedTopics.SlotOfImage` | src/cpp/middleware/ced/CedEntities.cpp:168-176 | reducing a counter to 16 bits does not change its slot |
| `CedTopics.ResidentSharesSlot` | src/cpp/middleware/ced/CedEntities.cpp:240-253 | which entry sits in the slot of an older one, and when it is still that one |
| `CedDelivery.CedDataReader.Read` | src/cpp/middleware/ced/CedEntities.cpp:180-202 | a reader's 16-bit `last_read_` stands for its position in the log; the part of a read that does not wait |
| `CedDelivery.CedDataReader.Wake` | src/cpp/middleware/ced/CedEntities.cpp:204-217 | the part that waits: each look takes what sits in the slot of the next entry and moves on by one |
| `CedDelivery.TurnHands` | src/cpp/middleware/ced/CedEntities.cpp:204-217 | a reader has moved past what it was handed if and only if it did not take it as a waiter more than `size` entries behind |
| `CedDelivery.PromptRunsInOrder` | src/cpp/middleware/ced/CedEntities.cpp:180-253 | over runs of reads and wake-ups with prompt waiters: permitted entries only, in log order, none twice |
| `CedDelivery.AlwaysInOrderIffPrompt` | src/cpp/middleware/ced/CedEntities.cpp:180-253 | every first part of a run of reads and wake-ups, followed at once by a read, hands out entries in log order, none twice, if and only if all waiters are prompt |
| `CedDelivery.WakeThenReadInOrderIff` | src/cpp/middleware/ced/CedEntities.cpp:180-253 | a waiter that takes an entry and reads again gets only later entries if and only if it was prompt |
| `CedDelivery.WaiterGoesBack` | src/cpp/middleware/ced/CedEntities.cpp:180-253 | seventeen writes into a ring of sixteen during one wait: the waiter is handed the last entry, and its next read the second one |
| `CedDelivery.DeliveredInOrder` | src/cpp/middleware/ced/CedEntities.cpp:180-253 | over any run of reads and any lags: permitted entries only, in log order, none twice |
| `CedDelivery.OnlyOverwrittenSkippedIff` | src/cpp/middleware/ced/CedEntities.cpp:180-253 | over any run of reads: every permitted entry the reader has passed was delivered or overwritten, if and only if no read is blind, that is, has a retained permitted entry before its start |
| `CedDelivery.OneReadSkipsIff` | src/cpp/middleware/ced/CedEntities.cpp:180-202 | the same for one read, in both directions |
| `CedDelivery.BlindReadLoses` | src/cpp/middleware/ced/CedEntities.cpp:180-253 | a blind read loses an entry for good: no read delivers it and none finds it overwritten |
| `CedDelivery.BlindNeedsInvisibleLag` | src/cpp/middleware/ced/CedEntities.cpp:189-195 | only a lag of at least 65536 that is less than `size` above a multiple of 65536 makes a read blind, and always does for a reader with complete access |
| `CedDelivery.VisibleLagsNeverBlind` | src/cpp/middleware/ced/CedEntities.cpp:189-195 | visible lags keep a whole run from being blind |
| `CedDelivery.ShortGapsAreVisible` | src/cpp/middleware/ced/CedEntities.cpp:189-195 | at most 65536 - size writes between consecutive reads keep every lag visible |
| `CedDelivery.BlindSpot` | src/cpp/middleware/ced/CedEntities.cpp:189-202 | fewer than 65536 writes between reads are not enough: a run that skips six retained entries |
| `CedAccess.RunIsAttributed` | src/cpp/middleware/ced/CedMiddleware.cpp:21-53 | in every run each entry carries its writer's source class and was written by a client that may write it, and each delivery was permitted to its receiver; what is delivered is in `OrdinaryTakesNext` and `ExternalTakesOrdinary` |
| `CedAccess.NoEcho` | src/cpp/middleware/ced/CedMiddleware.cpp:21-53 | in every run with any mix of clients: external clients write nothing, the internal client reads nothing, and what an external client gets came from an ordinary client |
| `CedAccess.ClassByKey` | src/cpp/middleware/ced/CedMiddleware.cpp:33-41 | the internal client is the key 0xEAEAEAEA, external clients the others with the first byte 0xEA, all the rest are ordinary |
| `CedAccess.PublishedIff` | src/cpp/middleware/ced/CedMiddleware.cpp:33-53 | a publication is kept at the end of the log, with its data and writer, exactly if its client is not external |
| `CedAccess.OrdinaryTakesNext` | src/cpp/middleware/ced/CedMiddleware.cpp:46-52 | a read of an ordinary client delivers exactly the next entry of the ring, whoever wrote it, and moves behind it |
| `CedAccess.OrdinaryWakesNext` | src/cpp/middleware/ced/CedMiddleware.cpp:46-52 | a waiting ordinary client within the ring is woken with its own next entry |
| `CedAccess.ExternalTakesOrdinary` | src/cpp/middleware/ced/CedMiddleware.cpp:39-45 | a read of an external client delivers the first entry of the ring whose writer is ordinary, or nothing when there is none |
| `CedAccess.InternalTakesNothing` | src/cpp/middleware/ced/CedMiddleware.cpp:33-38 | the internal client never receives anything |
| `CedAccess.OrdinaryCatchesUp` | src/cpp/middleware/ced/CedEntities.cpp:180-202 | an ordinary client within the ring receives every entry it lacks, in log order, by as many reads |
| `CedAccess.LateSubscriberCatchesUp` | src/cpp/middleware/ced/CedEntities.cpp:180-202 | an ordinary client that subscribes late receives all that the ring holds, from the first entry on |
| `CedAccess.ReadersCanAlwaysRead` | src/cpp/middleware/ced/CedEntities.cpp:309-315 | a registered reader's position never runs ahead of the log |
| `CedTopicManagers.CedTopicManager.RegisterTopic` | src/cpp/middleware/ced/CedEntities.cpp:70-108 | a living (domain, name) pair is shared; otherwise each domain callback hears of a new domain once and then each topic callback of the new topic once, and nobody else hears anything; the registry stays exact |
| `CedTopicManagers.CedTopicManager.UnregisterTopic` | src/cpp/middleware/ced/CedEntities.cpp:110-137 | only an expired entry goes, and its domain with the last one |
| `CedTopicManagers.CedTopicManager.Release` | src/cpp/middleware/ced/CedEntities.cpp:148-151 | the last owner takes the topic out; the registry holds exactly the living pairs and no empty domain |
| `CedTopicManagers.CedTopicManager.RegisterOnNewDomain` | src/cpp/middleware/ced/CedEntities.cpp:31-41 | a new callback hears of every domain, of each once, and nobody else hears anything |
| `CedTopicManagers.CedTopicManager.RegisterOnNewTopic` | src/cpp/middleware/ced/CedEntities.cpp:49-62 | a new callback hears of every living topic, of each once, and as a listener of every later one |
| `CedTopicManagers.CedTopicManager.UnregisterOnNewDomain` | src/cpp/middleware/ced/CedEntities.cpp:43-47 | removing the callback keeps everything else |
| `CedTopicManagers.CedTopicManager.UnregisterOnNewTopic` | src/cpp/middleware/ced/CedEntities.cpp:64-68 | removing the callback keeps everything else |
| `CedTopicManagers.ListenersMissNothing` | src/cpp/middleware/ced/CedEntities.cpp:31-108 | a listener was called for every living topic, and for every domain before its topics |
| `CedTopicManagers.LearnedFromCalls` | src/cpp/middleware/ced/CedEntities.cpp:31-108 | the summary of a listener's knowledge is exactly what its calls say |
| `SessionManagers.SessionManager.EstablishSession` | include/uxr/agent/transport/SessionManager.hpp:62-102 | the old endpoint of the key is forgotten, and afterwards the client is found at the endpoint exactly if its session id is at least 0x80 |
| `SessionManagers.SessionManager.DestroySessionAt` | include/uxr/agent/transport/SessionManager.hpp:104-121 | destroying by endpoint removes the client found there |
| `SessionManagers.SessionManager.DestroySessionOf` | include/uxr/agent/transport/SessionManager.hpp:123-140 | destroying by key removes the key and whatever route its endpoint had |
| `SessionManagers.SessionManager.GetClientKey` | include/uxr/agent/transport/SessionManager.hpp:142-158 | the client found at an endpoint has exactly that endpoint |
| `SessionManagers.SessionManager.GetEndpoint` | include/uxr/agent/transport/SessionManager.hpp:160-176 | a client that is found at an endpoint is sent its packets there |
| `SessionManagers.RoutesStayConsistent` | include/uxr/agent/transport/SessionManager.hpp:62-140 | after any calls with any mix of sessions `endpoint_to_client_map_` is injective and every entry has its inverse |
| `SessionManagers.DestroyOfIsLocalIff` | include/uxr/agent/transport/SessionManager.hpp:123-140 | destroying by key leaves the other clients' routes alone if and only if its endpoint is not another client's route |
| `SessionManagers.EstablishIsLocalIff` | include/uxr/agent/transport/SessionManager.hpp:62-102 | establishing a session does so if and only if the client does not leave an endpoint where another is found, and, when keyless, does not come to one |
| `SessionManagers.SharedEndpointLosesRoute` | include/uxr/agent/transport/SessionManager.hpp:62-140 | a keyed client at a keyless client's endpoint: its end and its move to another endpoint both cut off the keyless one |
| `Roots.Root.CreateClient` | src/cpp/Root.cpp:55-159 | status by key, cookie and version; the client is registered with its session, its record is replaced exactly if the session differs, and no other record changes |
| `Roots.Root.DeleteClient` | src/cpp/Root.cpp:179-207 | the client goes, and the cursor steps off it first |
| `Roots.Root.GetNextClient` | src/cpp/Root.cpp:221-236 | returns the client at the cursor, which is registered, and moves on; at the end it rewinds |
| `Roots.Root.Reset` | src/cpp/Root.cpp:306-316 | empties the registry and rewinds the cursor |
| `Roots.SweepVisitsAll` | src/cpp/Root.cpp:179-236 | between two false returns the visits go strictly up in key order, and every client that stays registered is visited, whatever else is created, replaced or deleted |
| `Roots.SweepKeepsInv` | src/cpp/Root.cpp:55-236 | at every point of a sweep the cursor is valid and everything stable before it has been visited |
| `Processors.Processor.ProcessCreateClient` | src/cpp/processor/Processor.cpp:245-317 | another client at the same source gives way; a session is established only for an accepted client |
| `Processors.Processor.ProcessInputPacket` | src/cpp/processor/Processor.cpp:45-183 | the client is named by a keyed header or found by endpoint; its own DELETE removes it and the session of the source |
| `Processors.Processor.RemoveDeadClient` | src/cpp/processor/Processor.cpp:1028-1033 | the sweep removes the client and the session of its key |
| `Processors.PacketRemovesOwnClient` | src/cpp/processor/Processor.cpp:45-183 | a packet removes exactly the client it is from, by its header's key or by its endpoint, and only if it asks for it |
| `Processors.CreationReplacesAtSource` | src/cpp/processor/Processor.cpp:245-317 | a creation removes exactly another client found at its source, even if it is then rejected; an accepted client is registered with its session and gets its packets at the source |
| `Processors.ExpiryRemovesOne` | src/cpp/processor/Processor.cpp:1028-1033 | an expiry removes one client and the session of its key, and changes no other record |
| `Processors.KeylessRunsAgree` | src/cpp/processor/Processor.cpp:245-396 | after every keyless run of creations, moves, deletions and removals the session maps are exact inverses and know exactly the registered clients |
| `Processors.HandlingKeepsAgreement` | src/cpp/processor/Processor.cpp:245-396 | one handler keeps that agreement |
| `Processors.CreatedClientIsReachable` | src/cpp/processor/Processor.cpp:245-317 | a created client is found from its endpoint and from no other |
| `Processors.DeleteAgreesIff` | src/cpp/processor/Processor.cpp:362-396 | a DELETE keeps registry and sessions in step if and only if its source is the endpoint through which the client is found |
| `Processors.MixedRunsAgreeIff` | src/cpp/processor/Processor.cpp:245-396 | for any mix of keyed and keyless sessions, registry and sessions know the same clients throughout a run if and only if every DELETE of a registered client comes from the endpoint through which that client is found |
| `Processors.KeyedDeleteLeavesSession` | src/cpp/processor/Processor.cpp:362-396 | a keyed client that deletes itself leaves its session behind |
| `Liveliness.ProxyClient.GetState` | src/cpp/client/ProxyClient.cpp:752-763 | an alive client is dead exactly from its dead time on after its last packet; any other state stays |
| `Liveliness.ProxyClient.UpdateState` | src/cpp/client/ProxyClient.cpp:765-773 | becoming alive resets time and tries |
| `Liveliness.ProxyClient.Visit` | src/cpp/processor/Processor.cpp:980-1040 | heartbeats go exactly to alive clients with a known endpoint, requests to dead ones and removal to those to remove, under the hard check only |
| `Liveliness.SeenAliveIff` | src/cpp/client/ProxyClient.cpp:752-773 | in every run: a visit less than the dead time after the last packet sees the client alive, and the first visit from then on sees it dead |
| `Liveliness.SoftIsLeftAlone` | src/cpp/processor/Processor.cpp:980-1040 | in every run a client without the hard check is never asked for information and never removed |
| `Liveliness.RemovalNeedsFourVisits` | src/cpp/processor/Processor.cpp:980-1040 | with tries starting at zero, a removal has the hard check and three dead visits with a GET_INFO before it and no packet in between |
| `HeartbeatSweeps.Sweeper.CheckHeartbeats` | src/cpp/processor/Processor.cpp:959-1042 | one whole call from a rewound cursor visits every client exactly once, in key order, with the heartbeats, request or removal that its state asks for: removable clients go with their sessions, all others are as one visit leaves them, sessions and registry stay in agreement, and the cursor is rewound |
| `HeartbeatSweeps.Sweeper.VisitClient` | src/cpp/processor/Processor.cpp:980-1041 | one turn of the loop: removal of client and session, or the client as the visit leaves it |
| `HeartbeatSweeps.Sweeper.MoveOn` | src/cpp/Root.cpp:221-236 | the next client of the sweep is the first one behind the current, so nobody is passed over |
| `Liveliness.PacketRevives` | src/cpp/client/ProxyClient.cpp:765-773 | a packet before the removal returns the client to alive with no tries |
| `Liveliness.DeadVisitsCounted` | src/cpp/processor/Processor.cpp:1002-1008 | from any starting value of the counter, the exact number of dead visits before removal |
| `Liveliness.ThreeTriesIffZero` | src/cpp/processor/Processor.cpp:1002-1008 | exactly three requests come before removal if and only if the counter, which the constructor does not set, starts at zero |
| `Liveliness.StrayCounters` | src/cpp/processor/Processor.cpp:959-1042 | a counter that starts at 2 allows one request before the removal, one that starts at 3 allows 256 |
| `Conversions.ObjectIdRoundTrip` | include/uxr/agent/utils/Conversion.hpp:24-32 | object id and (raw id, kind) determine each other |
| `Conversions.ObjectIdDetermined` | include/uxr/agent/utils/Conversion.hpp:24-27 | two object ids with the same raw id and kind are the same |
| `Conversions.ObjectIdDigits` | include/uxr/agent/utils/Conversion.hpp:24-32 | the twelve bits of a raw id are the first three hexadecimal digits of the object id, its kind the last |
| `Conversions.ClientKeyRoundTrip` | include/uxr/agent/utils/Conversion.hpp:39-55 | a client key survives the raw form |
| `Conversions.RawKeyRoundTrip` | include/uxr/agent/utils/Conversion.hpp:39-55 | a raw key survives the byte form |
| `Conversions.RawKeepsKeyOrder` | include/uxr/agent/utils/Conversion.hpp:39-45 | raw keys are ordered like the keys, so the registry is swept in key order |
| `CedMiddlewares.MakeAddsOneId` | src/cpp/middleware/ced/CedMiddleware.cpp:73-319 | a successful creation adds exactly one raw id, to the map of its kind, where it was absent |
| `CedMiddlewares.EraseRemovesOneId` | src/cpp/middleware/ced/CedMiddleware.cpp:321-349 | a deletion removes exactly that raw id of that kind |
| `CedMiddlewares.CutAtFirstOccurrence` | src/cpp/middleware/ced/CedMiddleware.cpp:55-68 | the suffix is cut at its first occurrence, or not at all |
| `ProxyClients.ProxyClient.TryCreate` | src/cpp/client/ProxyClient.cpp:232-608 | a missing parent is an unknown reference, a middleware failure a DDS error, and only success enters the table |
| `ProxyClients.ProxyClient.CreateObject` | src/cpp/client/ProxyClient.cpp:93-180 | Table 7 of OMG DDS-XRCE for an id that is there: already-exists, mismatch and matched exactly by mode and by whether the entity is the one asked for; table and middleware stay in agreement |
| `ProxyClients.TableSeven` | src/cpp/client/ProxyClient.cpp:93-180 | the same for the table as a value, which stays as it was unless the object is replaced |
| `ProxyClients.MatchedIsTheOne` | src/cpp/middleware/ced/CedMiddleware.cpp:386-513 | an entity matches exactly if it is a participant of the domain, or a topic, writer or reader of the name asked for; publishers and subscribers always match |
| `ProxyClients.MissingIsCreatedIff` | src/cpp/client/ProxyClient.cpp:93-608 | for an id that is not there: unknown reference exactly if the named parent is missing, a DDS error exactly if the format is unknown or no topic of that name lives in the participant, success otherwise |
| `ProxyClients.MadeIffMakeable` | src/cpp/middleware/ced/CedMiddleware.cpp:73-319 | the middleware makes an entity exactly if it knows the format and, for a writer or reader, a topic, writer or reader holds the topic of that name and participant |
| `ProxyClients.ReplacingIsCreatingAnew` | src/cpp/client/ProxyClient.cpp:117-177 | replacing an object is deleting it and creating it as if it had not been there |
| `ProxyClients.CreatedIsTheOne` | src/cpp/client/ProxyClient.cpp:93-180 | a success adds one object to the table, and its entity is the one asked for |
| `ProxyClients.CreatedBelongs` | src/cpp/middleware/ced/CedMiddleware.cpp:73-319 | a new topic, publisher or subscriber belongs to the participant it names, a writer or reader to the topic of its name there, a participant is unlike all before it |
| `ProxyClients.ParticipantsAreToldApart` | src/cpp/middleware/ced/CedMiddleware.cpp:73-89 | after any sequence of calls no two participants share an identity, so no two share a topic |
| `ProxyClients.ProxyClient.DeleteObject` | src/cpp/client/ProxyClient.cpp:182-194 | deletion removes the object from table and middleware or reports an unknown reference |
| `ProxyClients.ProxyClient.DeleteObjectUnlock` | src/cpp/client/ProxyClient.cpp:726-750 | erasing the entry deletes the middleware entity with it |
| `ProxyClients.ProxyClient.Release` | src/cpp/client/ProxyClient.cpp:222-225 | after release neither the table nor the middleware holds anything |
| `ProxyClients.CallsKeepAgreement` | src/cpp/client/ProxyClient.cpp:93-225 | after any sequence of creations in any mode, deletions and releases, an id of the six kinds is in the table exactly when its raw id is in the middleware map of its kind |
| `ProxyClients.CreationKeepsAgreement` | src/cpp/client/ProxyClient.cpp:93-180 | one creation in any mode keeps that agreement |
| `ProxyClients.RemovalKeepsAgreement` | src/cpp/client/ProxyClient.cpp:726-750 | one deletion keeps it and leaves the id in neither |
| `ProxyClients.DeletionRemovesOneObject` | src/cpp/client/ProxyClient.cpp:726-750 | deletion removes one object from table and middleware and nothing else; the children that include/uxr/agent/Agent.hpp says go with it stay |
| `ProxyClients.DeletionChangesNoEntity` | src/cpp/middleware/ced/CedMiddleware.cpp:321-349 | every entity that stays has the same identity, domain and name as before |
| `ProxyClients.FailedReplaceLeavesNothing` | src/cpp/client/ProxyClient.cpp:117-177 | a failed replacement leaves the id in neither and every other object in place |
| `ProxyClients.FailureKeepsTableIff` | src/cpp/client/ProxyClient.cpp:93-180 | a creation that fails leaves everything as it was if and only if it was not to replace an object that was there |
| `ProxyClients.ReplaceLosesParticipant` | src/cpp/client/ProxyClient.cpp:93-180 | a participant replaced with a representation of unknown format is gone, and there is none in its place |
| `ProxyClients.SuccessfulCreationIsVisible` | src/cpp/client/ProxyClient.cpp:93-180 | after success the id is in both and the middleware entity matches what was asked for |
| `ProxyClients.EmptyTableEmptyMiddleware` | src/cpp/client/ProxyClient.cpp:222-225 | an empty table in agreement means an empty middleware |
| `PacketSchedulers.PacketScheduler.Push` | include/uxr/agent/scheduler/PacketScheduler.hpp:93-104 | the oldest is dropped exactly when the queue is full, then the element goes to the back |
| `PacketSchedulers.PacketScheduler.PushFront` | include/uxr/agent/scheduler/PacketScheduler.hpp:107-113 | the element goes to the front, whatever the size |
| `PacketSchedulers.PacketScheduler.IsEmpty` | include/uxr/agent/scheduler/PacketScheduler.hpp:116-126 | true exactly when every queue is empty |
| `PacketSchedulers.PacketScheduler.FindHighest` | include/uxr/agent/scheduler/PacketScheduler.hpp:137-144 | finds the highest priority with something queued |
| `PacketSchedulers.PacketScheduler.Pop` | include/uxr/agent/scheduler/PacketScheduler.hpp:129-152 | takes the front of the highest non-empty priority, or nothing when stopped |
| `PacketSchedulers.StartSchedulers` | src/cpp/transport/Server.cpp:71-73 | after start, priority 1 of the input always takes pushes, priority 0 of both exactly when the maximum size is positive, and no other input priority does |
| `PacketSchedulers.AlwaysPushableIff` | include/uxr/agent/scheduler/PacketScheduler.hpp:93-104 | a priority takes pushes whatever its queue holds if and only if its size is positive |
| `PacketSchedulers.PutBackUndoesPop` | src/cpp/transport/Server.cpp:247-268 | putting back the element just popped restores the scheduler |
| `PacketSchedulers.SenderTurn` | src/cpp/transport/Server.cpp:247-268 | one turn of the sender loses no packet: it is handed out, or the scheduler is as before |
| `PacketSchedulers.RunKeepsLines` | include/uxr/agent/scheduler/PacketScheduler.hpp:93-152 | in every run with any producers and one consumer that may put back: per priority, what survives keeps push order and every push is accounted for exactly once |
| `PacketSchedulers.QueuesStayBoundedAndOrdered` | include/uxr/agent/scheduler/PacketScheduler.hpp:93-152 | pushed = finished + dropped + in hand + queued; finished in push order; a queue of size S never exceeds S + 1 |
| `PacketSchedulers.WithoutDropsFifo` | include/uxr/agent/scheduler/PacketScheduler.hpp:93-152 | a priority that never overflowed is first-in first-out, whatever was put back |
| `PacketSchedulers.OnlyTheOldestIsDropped` | include/uxr/agent/scheduler/PacketScheduler.hpp:93-104 | a push drops exactly when the queue is full, and then the oldest of that queue |
| `PacketSchedulers.ConsumerKeepsLine` | src/cpp/transport/Server.cpp:247-268 | taking, putting back and finishing move an element along its line and change nothing else |
| `TokenBuckets.TokenBucket.constructor` | include/uxr/agent/utils/TokenBucket.hpp:55-63 | a new bucket is full; capacity 0 means the rate |
| `TokenBuckets.TokenBucket.ConsumeTokens` | include/uxr/agent/utils/TokenBucket.hpp:66-111 | the call in 64-bit wrapping arithmetic; tokens never exceed the capacity; what is granted, when and at what price is in `GrantedAtOnce`, `WaitGrantedIff`, `RefusedAtOnce` and `TokensAreConserved` |
| `TokenBuckets.GrantedAtOnce` | include/uxr/agent/utils/TokenBucket.hpp:66-111 | a call for no more tokens than are there is granted at once and leaves exactly the others |
| `TokenBuckets.WaitGrantedIff` | include/uxr/agent/utils/TokenBucket.hpp:84-101 | a call that has to wait goes on at its deadline; it is granted exactly if the tokens will be there by then and leaves exactly the others, otherwise it takes nothing |
| `TokenBuckets.CallConserves` | include/uxr/agent/utils/TokenBucket.hpp:66-111 | tokens left and paid are the tokens before and accrued, unless some overflow the bucket |
| `TokenBuckets.TokensAreConserved` | include/uxr/agent/utils/TokenBucket.hpp:66-111 | over any sequence of such calls: granted + left == tokens at first + accrued |
| `TokenBuckets.RateBound` | include/uxr/agent/utils/TokenBucket.hpp:66-111 | over any sequence of calls, rate 2..65535, non-negative timeouts: granted + left <= capacity + floor(rate * elapsed ms / 1000) |
| `TokenBuckets.RateKeptIff` | include/uxr/agent/utils/TokenBucket.hpp:66-111 | a fresh bucket of rate 1 to 65535 keeps that bound over all sequences of calls if and only if the rate is not 1 |
| `TokenBuckets.RateOneGrantsEverything` | include/uxr/agent/utils/TokenBucket.hpp:83-101 | at rate 1, with a full bucket, any number of one-token calls without timeout at the same instant are all granted |
| `TokenBuckets.ReachingIsForward` | include/uxr/agent/utils/TokenBucket.hpp:83-101 | at rates from 2, a timeout, negative or not, that ends at or after the last update does not make a call look back |
| `TokenBuckets.CallKeepsBound` | include/uxr/agent/utils/TokenBucket.hpp:66-111 | for every rate, one call that does not look back in time keeps the bound |
| `TokenBuckets.WaitExactly` | include/uxr/agent/utils/TokenBucket.hpp:85-89 | a call that has to wait waits for its whole timeout at rates from 2, and at rate 1 goes a second back in time for every token it lacks |
| `TokenBuckets.LevelAtMost` | include/uxr/agent/utils/TokenBucket.hpp:79-81 | wrapping can only lose tokens |
| `TokenBuckets.OvergrantsIffBackward` | include/uxr/agent/utils/TokenBucket.hpp:83-101 | at every rate 1..65535: a call hands out tokens that are not there if and only if it has to wait and its wait reaches a millisecond or more before the last update |
| `TokenBuckets.NegativeTimeoutOvergrants` | include/uxr/agent/utils/TokenBucket.hpp:83-101 | an empty bucket of rate 2 grants a token to a call with a timeout of -1 ms |
| `TokenBuckets.BackwardLooksFull` | include/uxr/agent/utils/TokenBucket.hpp:90-92 | there the product wraps and the bucket looks full |
| `Readers.ReadTask.Consume` | include/uxr/agent/reader/Reader.hpp:158 | a grant is counted, and the time of the bucket never runs ahead of the clock while no call looks back |
| `Readers.ReadTask.WriteSample` | include/uxr/agent/reader/Reader.hpp:160-163 | the inner loop writes the sample once, or ends by a stop |
| `Readers.ReadTask.PushSample` | include/uxr/agent/reader/Reader.hpp:156-170 | one grant at most per sample; only a stop leaves it unwritten, not the time limit; a sample larger than the bucket is never written |
| `Readers.ReadTask.Sample` | include/uxr/agent/reader/Reader.hpp:153-171 | one turn reads one sample and pushes it |
| `Readers.ReadTask.Run` | include/uxr/agent/reader/Reader.hpp:129-177 | bytes pushed <= bytes granted; samples pushed are the samples read, in order, all but possibly the last; at most `max_samples` when that is 1..0xFFFE; it ends by a stop, at the sample limit or past the time limit; once a sample larger than the bucket was read, only a stop ends the thread |
| `Readers.ReadTask.constructor` | include/uxr/agent/reader/Reader.hpp:136-149 | the rate is the one asked for or, for 0, the largest; the deadline is that many seconds after the start or, for 0, none |
| `Readers.ReadTask.Timeout` | include/uxr/agent/reader/Reader.hpp:151-155 | the timeout is 100 ms, or what is left of the time limit if that is less, negative behind it |
| `Readers.ReadTask.Over` | include/uxr/agent/reader/Reader.hpp:173-175 | the thread ends exactly at the sample limit, unless that is 0xFFFF, or past the time limit, if there is one |
| `Readers.OutlastsTimeLimit` | include/uxr/agent/reader/Reader.hpp:151-176 | a sample of two bytes at one byte a second and a limit of one second: any number of tries, and nothing is pushed |
| `Readers.ReadAtRate` | include/uxr/agent/reader/Reader.hpp:129-177 | with any time limit and a rate of at least 2, bytes pushed <= rate + floor(rate * elapsed ms / 1000): negative timeouts do no harm here |
| `Readers.OverrunsLimit` | include/uxr/agent/reader/Reader.hpp:173-175 | for the other limits, 0 and 0xFFFF (which the source takes for unlimited), a run that pushes more samples than that |
| `Cdrs.EncodeAppend` | src/cpp/types/XRCETypes.cpp:5912-5937 | items serialized one after the other start where the previous one ends |
| `Cdrs.EncodeFromMultipleOfFour` | include/uxr/agent/message/OutputMessage.hpp:154-166 | an encoding does not depend on which multiple of four it starts at |
| `Payloads.GetsAddress` | src/cpp/types/XRCETypes.cpp:861-938 | each of the four address formats is read back as written, at any position |
| `Payloads.GetsAddresses` | src/cpp/types/XRCETypes.cpp:5927-5937 | so is any sequence of addresses |
| `ByteOrders.ObjectInfoRead` | src/cpp/types/XRCETypes.cpp:6508-6560 | with the other byte order, optional configuration and activity of an agent are read as written if and only if all numbers, counts and lengths in them are byte palindromes |
| `Payloads.GetsPayload` | src/cpp/types/XRCETypes.cpp:8226-8375 | a payload is read back as written, or with the other byte order with the bytes of its numbers swapped, and reading ends where it ends; which bytes were written is in `PayloadOnWire` |
| `ByteOrders.PayloadReadIff` | include/uxr/agent/message/InputMessage.hpp:96-112 | any payload under any flags is read as written, up to its end, if and only if sixteen bits can count its sample, and the byte order is the announced one or all its numbers, counts and lengths are byte palindromes |
| `Payloads.GetsData` | src/cpp/types/XRCETypes.cpp:8849-8869 | a sample is read back if and only if the length in the subheader is its own |
| `PayloadSizes.AddressSize` | src/cpp/types/XRCETypes.cpp:861-887 | the size of an address in any format is what is written |
| `PayloadSizes.ActivitySize` | src/cpp/types/XRCETypes.cpp:5912-5925 | the loop over any address list adds up to what is written |
| `PayloadSizes.ObjectInfoSize` | src/cpp/types/XRCETypes.cpp:6508-6528 | the size with and without the optional parts |
| `PayloadSizes.PayloadSize` | src/cpp/types/XRCETypes.cpp:8226-8235 | `getCdrSerializedSize` of GET_INFO, DELETE, STATUS_AGENT, STATUS, INFO, DATA, ACKNACK and HEARTBEAT is the number of bytes their serializer writes |
| `PayloadSizes.AgentSize` | src/cpp/types/XRCETypes.cpp:1194-1213 | the size of an agent without properties |
| `PayloadSizes.RequestSize` | src/cpp/types/XRCETypes.cpp:6615-6623 | the size of a request |
| `PayloadSizes.ResultSize` | src/cpp/types/XRCETypes.cpp:5835-5845 | the size of a result status |
| `PayloadSizes.ReplySize` | src/cpp/types/XRCETypes.cpp:6685-6693 | the size of a reply |
| `Messages.HeaderSize` | src/cpp/types/MessageHeader.cpp:93-107 | 4 bytes, 8 with a client key, as written |
| `Messages.SubheaderSize` | src/cpp/types/SubMessageHeader.cpp:90-99 | the size of a subheader, as written |
| `Messages.GetsHeader` | src/cpp/types/MessageHeader.cpp:109-129 | a keyed header is read back as written, a keyless one with a zero key |
| `Messages.GetsSubheader` | src/cpp/types/SubMessageHeader.cpp:101-117 | a subheader is read back as written |
| `Messages.OutputMessage.constructor` | include/uxr/agent/message/OutputMessage.hpp:31-40 | the message starts with its header when that fits |
| `Messages.OutputMessage.Put` | include/uxr/agent/message/OutputMessage.hpp:168-182 | one item with its padding, which `PadAligns` says is the least that aligns it, or nothing when it does not fit |
| `WireFormats.PadAligns` | src/cpp/types/MessageHeader.cpp:92-106 | the padding before a number of k bytes is the least that brings it to a multiple of k |
| `WireFormats.WiresHeader` | src/cpp/types/MessageHeader.cpp:109-118 | the header is session, stream, number in little-endian order, and the key exactly below session 128 |
| `WireFormats.WiresSubheader` | src/cpp/types/SubMessageHeader.cpp:101-106 | the subheader is id, flags and length in little-endian order |
| `WireFormats.PayloadOnWire` | src/cpp/types/XRCETypes.cpp:8226-8375 | the bytes of every payload are those of a byte-level format written down without the serializers: field order, ids, alignment, counts and NULs |
| `WireFormats.FramedOnWire` | include/uxr/agent/message/OutputMessage.hpp:92-166 | one more submessage starts at the next multiple of four, with zeros before it |
| `WireFormats.MessageOnWire` | include/uxr/agent/message/OutputMessage.hpp:34-166 | every message is its header and its submessages in that format |
| `WireFormats.FramedRawOnWire` | include/uxr/agent/message/OutputMessage.hpp:130-152 | a raw payload lies right behind its subheader |
| `EndToEnd.FragmentOnWire` | include/uxr/agent/client/session/stream/OutputStream.hpp:341-373 | a fragment is id 13, flags 3 for the last and 1 for the others, its length in little-endian order, and its bytes |
| `Messages.OutputMessage.Serialize` | include/uxr/agent/message/OutputMessage.hpp:168-182 | succeeds exactly when everything fits, and then the buffer holds it behind what was there |
| `Messages.OutputMessage.JumpToSubmessage` | include/uxr/agent/message/OutputMessage.hpp:164-165 | jumps over zeros to a multiple of four, or stays at the end of the buffer |
| `Messages.OutputMessage.AppendSubheader` | include/uxr/agent/message/OutputMessage.hpp:154-166 | the length is cut to sixteen bits |
| `Messages.OutputMessage.AppendSubmessage` | include/uxr/agent/message/OutputMessage.hpp:92-103 | succeeds exactly when the framed submessage fits, and then the buffer is the message with it |
| `Messages.InputMessage.constructor` | include/uxr/agent/message/InputMessage.hpp:30-45 | reads the header |
| `Messages.InputMessage.PrepareNextSubmessage` | include/uxr/agent/message/InputMessage.hpp:96-112 | reads the next aligned subheader and takes over its byte order, or reports the end |
| `Messages.InputMessage.ReadPayload` | include/uxr/agent/message/InputMessage.hpp:164-168 | reads the payload of the current submessage |
| `Messages.InputMessage.ReadAll` | src/cpp/processor/Processor.cpp:185-193 | the loop of `process_input_message` reads exactly the parsed submessages |
| `Messages.MessageRoundTrip` | include/uxr/agent/message/InputMessage.hpp:96-112 | parsing any header and any list of legible submessages gives the same header, ids, flags, lengths and payloads, the latter as their flags let them be read, and stops at the end |
| `Messages.OutputMessage.AppendFragment` | include/uxr/agent/message/OutputMessage.hpp:131-152 | succeeds exactly when the framed fragment fits, and then the buffer is the message with it |
| `Messages.NextFramed` | include/uxr/agent/message/InputMessage.hpp:96-112 | the subheader behind the padding is the one that was appended, and what follows it is held there |
| `ByteOrders.ClearedFlagMisreads` | include/uxr/agent/message/InputMessage.hpp:96-112 | a heartbeat for message 1 with the byte-order flag cleared is not read as it was written |
| `ByteOrders.MessageReadIff` | include/uxr/agent/message/InputMessage.hpp:96-112 | any message with any flags is parsed as written, up to its end, if and only if every submessage is read as written |
| `Messages.BuildReply` | src/cpp/processor/Processor.cpp:107-134 | header + subheader + payload sizes are exactly the bytes written, for every modelled payload |
| `ReliableStreams.ReliableOutputStream.PushMessage` | include/uxr/agent/client/session/stream/OutputStream.hpp:315-323 | the next number is taken and the message kept under it |
| `ReliableStreams.ReliableOutputStream.GetNextMessage` | include/uxr/agent/client/session/stream/OutputStream.hpp:380-391 | the next unsent message, if any |
| `ReliableLinks.KeptExactly` | include/uxr/agent/client/session/stream/OutputStream.hpp:393-406 | what can be looked up is exactly the unacknowledged messages, each under its number |
| `ReliableStreams.ReliableOutputStream.UpdateFromAcknack` | include/uxr/agent/client/session/stream/OutputStream.hpp:408-420 | the loop drops the acknowledged messages, and none for an acknowledgement beyond the last sent |
| `ReliableStreams.ReliableInputStream.PushMessage` | include/uxr/agent/client/session/stream/InputStream.hpp:246-271 | a message is kept if it is in the window of 16 and not kept already; the answer is true exactly if it is in the window and new, by presence or by number |
| `ReliableStreams.ReliableInputStream.PopMessage` | include/uxr/agent/client/session/stream/InputStream.hpp:273-286 | the next message in order, if it is there |
| `ReliableStreams.ReliableInputStream.UpdateFromHeartbeat` | include/uxr/agent/client/session/stream/InputStream.hpp:319-332 | announces, and skips what the sender no longer has |
| `ReliableStreams.ReliableInputStream.FillAcknack` | include/uxr/agent/client/session/stream/InputStream.hpp:334-358 | the bits of the two bytes of the bitmap mark exactly the messages of the window that look announced and are missing |
| `ReliableLinks.RunKeepsInv` | include/uxr/agent/client/session/stream/OutputStream.hpp:280-428 | over a network that loses, repeats, delays and reorders, in every run of proper steps: the receiver delivers a prefix of what was pushed, in order, each message once |
| `ReliableLinks.RunKeptIffProper` | include/uxr/agent/client/session/stream/OutputStream.hpp:280-428 | the protocol is kept throughout a run if and only if every step is proper: no number is reused while unacknowledged, and every packet that arrives is read right |
| `ReliableLinks.StepKeepsInvIff` | include/uxr/agent/client/session/stream/InputStream.hpp:246-358 | one step keeps the exact contents of both message maps if and only if it is proper |
| `ReliableLinks.KeepKeepsReceiverIff` | include/uxr/agent/client/session/stream/InputStream.hpp:246-271 | a message of any age does no harm if and only if its number modulo 65536 is outside the window, or it is the message of that number or there already |
| `ReliableLinks.StaleCopyKeptIff` | include/uxr/agent/client/session/stream/InputStream.hpp:246-271 | an old copy is taken for a new message if and only if its age is 0 to 15 below a multiple of 65536 and its number is free; all other ages are ignored |
| `ReliableLinks.RecentIsReadRight` | include/uxr/agent/client/session/stream/InputStream.hpp:246-332 | data up to 65520 messages old, heartbeats and acknowledgements up to 32768 old, are read right while fewer than 32768 messages are outstanding |
| `ReliableLinks.PushKeepsSender` | include/uxr/agent/client/session/stream/OutputStream.hpp:315-323 | a message is kept under its number if and only if fewer than 65536 are unacknowledged |
| `ReliableLinks.LessModulo` | include/uxr/agent/utils/SeqNum.hpp:36-42 | what the comparison says about any two counters, however far apart |
| `ReliableLinks.NextIsThere` | include/uxr/agent/client/session/stream/OutputStream.hpp:380-391 | the lookup of the next unsent message never fails; there is one for the code if and only if 1 to 32767 are unsent |
| `ReliableLinks.WindowOpenExactly` | include/uxr/agent/client/session/stream/OutputStream.hpp:290-293 | the wait condition holds exactly below 16 unacknowledged messages, and again from 32785 on |
| `ReliableLinks.WindowExactly` | include/uxr/agent/client/session/stream/InputStream.hpp:252-256 | the comparisons accept exactly the numbers that are 0 to 15 ahead modulo 65536 |
| `ReliableLinks.MissingExactly` | include/uxr/agent/client/session/stream/InputStream.hpp:334-358 | the bitmap names exactly the announced messages of the window that are not there |
| `ReliableLinks.BeatKeepsReceiverIff` | include/uxr/agent/client/session/stream/InputStream.hpp:319-332 | a heartbeat of any age skips nothing and announces what it should if and only if its numbers do not look ahead when they are not |
| `ReliableLinks.BeatSkipsIff` | include/uxr/agent/client/session/stream/InputStream.hpp:319-332 | a heartbeat whose first message lies ahead makes the receiver wait for exactly that message if and only if it is less than 32768 ahead; what it holds stays |
| `ReliableLinks.AckKeepsSenderIff` | include/uxr/agent/client/session/stream/OutputStream.hpp:408-420 | an acknowledgement of any age moves the sender to it, or is ignored, as it should, if and only if the two comparisons say so |
| `ReliableLinks.RoundRecoversWindow` | src/cpp/processor/Processor.cpp:610-642 | while fewer than 32768 messages are outstanding, one round of heartbeat, acknowledgement, retransmission and `update_from_acknack` without losses delivers everything pushed or a whole window of 16, and drops at the sender what was handled before, if all of that had been sent in turn |
| `ReliableLinks.RoundsDeliverAll` | src/cpp/processor/Processor.cpp:610-672 | then ceil(pending / 16) such rounds deliver everything |
| `ReliableLinks.RoundOpensWindow` | include/uxr/agent/client/session/stream/OutputStream.hpp:408-420 | once everything was sent and delivered, one more round acknowledges everything and opens the whole window |
| `ReliableLinks.QuietLinkMovesIff` | include/uxr/agent/client/session/stream/OutputStream.hpp:380-391 | a link at rest with something pushed can go on if and only if at most 32767 messages were pushed at once |
| `ReliableLinks.AcknowledgementIgnoredIff` | include/uxr/agent/client/session/stream/OutputStream.hpp:408-420 | an acknowledgement of any age leaves the sender as it is if and only if one of the two comparisons fails |
| `LinkRuns.UnsentNeverAcknowledged` | include/uxr/agent/client/session/stream/OutputStream.hpp:408-420 | a message that was only retransmitted, never sent in turn, is delivered by the first round without losses and not acknowledged by any number of them |
| `LinkRuns.OldCopyDeliveredAgain` | include/uxr/agent/client/session/stream/InputStream.hpp:246-271 | a run of 65536 messages after which a late copy of the first is delivered again |
| `LinkRuns.OldMessageHarmsIff` | include/uxr/agent/client/session/stream/InputStream.hpp:246-271 | a message of the run before a restart harms the new one if and only if its number modulo 65536 is in the window and free, and does not stand for that same message |
| `LinkRuns.SameToTheReceiver` | include/uxr/agent/client/session/stream/InputStream.hpp:246-271 | a message is kept as if it were the one of this run for which its number stands |
| `LinkRuns.OldHeartbeatIgnoredIff` | include/uxr/agent/client/session/stream/InputStream.hpp:319-332 | a heartbeat of the run before is ignored if and only if neither of its numbers looks ahead |
| `LinkRuns.OldMessageDelivered` | include/uxr/agent/client/session/stream/InputStream.hpp:246-271 | message 0 of the run before is delivered in a new one where nothing was pushed |
| `LinkRuns.BurstStalls` | include/uxr/agent/client/session/stream/OutputStream.hpp:380-391 | more than 32767 messages pushed at once on an idle link: nothing is sent, announced or asked for any more |
| `LinkRuns.PushAllKeepsIff` | include/uxr/agent/client/session/stream/OutputStream.hpp:341-373 | the messages of a submessage keep the protocol if and only if no number is reused while it is unacknowledged |
| `LinkRuns.ModestPushKeepsCalm` | include/uxr/agent/client/session/stream/OutputStream.hpp:290-293 | at an open window, up to 32752 messages at once keep fewer than 32768 outstanding |
| `LinkRuns.ModestIsSharp` | include/uxr/agent/client/session/stream/OutputStream.hpp:290-293 | with 15 unacknowledged messages, 32753 do not |
| `LinkRuns.CalmStep` | include/uxr/agent/client/session/stream/InputStream.hpp:246-332 | every other step of a calm link keeps it calm and is proper, if packets are not too old |
| `Fragments.SplitSubmessage` | include/uxr/agent/client/session/stream/OutputStream.hpp:335-373 | for every MTU, watched for any number of turns: the loop has ended exactly if `Returns` allows it and the turns are enough, and then has cut the submessage into full fragments and a last one; otherwise it goes on with a fragment in every turn, or, for MTUs below the headers only, has left the submessage |
| `Fragments.LoopEndsIff` | include/uxr/agent/client/session/stream/OutputStream.hpp:335-373 | for every MTU: some number of turns of the 16-bit counter ends the loop inside the submessage if and only if it has at most 65535 bytes, and its fragments have room for a byte or the first one takes all of it |
| `Fragments.FragmentInside` | include/uxr/agent/client/session/stream/OutputStream.hpp:335-350 | a turn stays inside the submessage if and only if the MTU is not below the headers, or the wrapped size still fits |
| `Fragments.LongSubmessageNeverEnds` | include/uxr/agent/client/session/stream/OutputStream.hpp:341-373 | with 65536 bytes no number of turns ends it |
| `Fragments.NoRoomNeverEnds` | include/uxr/agent/client/session/stream/OutputStream.hpp:335-373 | ten bytes at an MTU of 8, without a key: no number of turns ends it |
| `Fragments.SmallMtuLeavesSubmessage` | include/uxr/agent/client/session/stream/OutputStream.hpp:335-350 | at an MTU of 7 the first turn leaves those ten bytes |
| `Conversations.StatusNeverReturns` | include/uxr/agent/client/session/stream/OutputStream.hpp:341-373 | so the Agent's STATUS answer to a client without a key never returns at an MTU of 8, and leaves the submessage below that |
| `Fragments.SplitCount` | include/uxr/agent/client/session/stream/OutputStream.hpp:341-373 | the number of fragments |
| `Fragments.FragmentBuffer.PopFragmentMessage` | include/uxr/agent/client/session/stream/InputStream.hpp:390-402 | a complete message is handed on once and the buffer cleared |
| `Fragments.FragmentBuffer.Take` | include/uxr/agent/client/session/stream/InputStream.hpp:368-402 | the bytes of a message are handed on, or its fragment is added behind the header of the first one, and what is complete is handed on |
| `EndToEnd.PushSubmessage` | include/uxr/agent/client/session/stream/OutputStream.hpp:280-378 | for every payload and MTU, its loop watched for any number of turns: exactly at an open window a submessage that can be sent joins the stream as bytes, whole or in fragments, with the next numbers in the headers; for all others, what the call pushes and how it stands |
| `EndToEnd.BuildFragment` | include/uxr/agent/message/OutputMessage.hpp:131-152 | the message of a fragment is built with exactly its size |
| `EndToEnd.PieceIsSound` | include/uxr/agent/message/InputMessage.hpp:170-203 | a fragment message gives back its header, its bytes and whether it is the last |
| `EndToEnd.WholeIsSound` | include/uxr/agent/message/InputMessage.hpp:96-112 | a message with one submessage is not taken for a fragment |
| `Fragments.PiecesReassemble` | include/uxr/agent/client/session/stream/InputStream.hpp:368-402 | the fragments of a submessage hand on nothing until the last, and then exactly header and submessage |
| `Fragments.StreamReassembles` | include/uxr/agent/client/session/stream/InputStream.hpp:368-402 | any sequence of submessages, whole or in fragments, comes out as it went in, with an empty buffer |
| `Fragments.StreamHandsOnSubmessages` | include/uxr/agent/client/session/stream/InputStream.hpp:368-402 | any first part of a stream hands on a first part of the submessages, and the whole stream all of them |
| `EndToEnd.TrafficDecodes` | include/uxr/agent/message/InputMessage.hpp:170-203 | the bytes of the stream decode to its messages |
| `EndToEnd.ReassembledIsMessage` | include/uxr/agent/client/session/stream/OutputStream.hpp:326-339 | a reassembled submessage is byte for byte the message that one piece would have been |
| `Fragments.StreamAppend` | include/uxr/agent/client/session/stream/OutputStream.hpp:326-375 | the messages of the next submessage go behind the stream, under the next numbers |
| `EndToEnd.TrafficAppend` | include/uxr/agent/client/session/stream/OutputStream.hpp:280-378 | so do their bytes |
| `EndToEnd.InputStream.Process` | src/cpp/processor/Processor.cpp:102-105 | everything that is next in order goes through the fragment buffer, in that order |
| `EndToEnd.DrainIsPops` | src/cpp/processor/Processor.cpp:102-105 | that loop is so many `Pop` steps of the link, until nothing is next |
| `EndToEnd.ProcessIsDelivery` | src/cpp/processor/Processor.cpp:102-105 | what it hands on and leaves in the buffer is what the delivered messages of the link hand on and leave |
| `EndToEnd.InputStream.Reset` | include/uxr/agent/client/session/stream/InputStream.hpp:360-366 | the numbers start again, the fragment buffer stays as it is |
| `EndToEnd.SubmessagesArriveInOrder` | src/cpp/processor/Processor.cpp:96-105 | for submessages with any flags in a link's log: what is parsed are the first of them, in order, each once, as their flags let them be read |
| `Conversations.ActKeepsInvIff` | include/uxr/agent/client/session/stream/OutputStream.hpp:280-378 | a call of `push_submessage`, or any step of the network, keeps the log equal to the traffic of the accepted submessages, and the protocol, if and only if it is proper |
| `Conversations.SubmessagesArrive` | src/cpp/processor/Processor.cpp:96-105 | in every run of `push_submessage` calls, DATA among them, at any MTU, and network steps, all proper, as bytes, through fragmentation, loss, repetition, reordering, reassembly and parsing: the submessages parsed are the first ones pushed, in order, each once and unchanged |
| `Conversations.GentleRunsStayCalm` | include/uxr/agent/client/session/stream/OutputStream.hpp:280-420 | every run is proper and stays calm if no submessage takes more than 32752 messages and no packet is older than `RecentIsReadRight` allows |
| `Conversations.EverythingArrives` | src/cpp/processor/Processor.cpp:610-672 | from every state of such a run, ceil(pending / 16) rounds without losses bring out every submessage pushed |
| `Conversations.LongSampleStalls` | include/uxr/agent/client/session/stream/OutputStream.hpp:341-373 | a sample of 33000 to 65000 bytes, at the smallest MTU that lets fragments pass, leaves a new link without anything to send, announce or ask for, and with a window that looks open |
| `Fragments.BufferEmptyIff` | include/uxr/agent/client/session/stream/InputStream.hpp:368-402 | after any first part of a stream the fragment buffer is empty if and only if the part ends with a whole submessage |
| `Fragments.BodiesFromBufferIff` | include/uxr/agent/client/session/stream/InputStream.hpp:368-402 | behind a buffer that is not empty a submessage comes out right if and only if it fits in one message or the buffer is just its header; otherwise it is glued to the buffer |
| `Fragments.StreamFromBufferIff` | include/uxr/agent/client/session/stream/InputStream.hpp:368-402 | the same for whole streams |
| `Fragments.StreamAfterResetIff` | include/uxr/agent/client/session/stream/InputStream.hpp:360-402 | after a first part of one stream and a reset, the next stream comes out right if and only if the part ended with a whole submessage or nothing of the next stream travels in fragments |
| `Conversations.RestartIsCleanIff` | include/uxr/agent/client/session/stream/InputStream.hpp:360-402 | the same for two conversations as bytes, before and after a restart of the client |
| `Conversations.RestartGlues` | include/uxr/agent/client/session/stream/InputStream.hpp:360-402 | a DELETE in three fragments, interrupted after the first by a restart and pushed again, comes out behind the first three bytes of the old one |

## Left out

- Fast RTPS and Fast DDS middleware, XML parsing, serial, CAN, UDP, TCP and custom transports and their framing, discovery, argument parsing, logging: libraries and I/O.
- `InternalClient` and `AgentDiscoverer`: driven by an external client library.
- Frequency throttling of data readers and writers: counters over uninitialised fields and floating point.
- `count_submessages`: its loop flag is never set, so it counts at most one submessage.
- Payloads other than GET_INFO, DELETE, STATUS_AGENT, STATUS, INFO, DATA, ACKNACK and HEARTBEAT, and agent representations with properties, whose size function omits the sequence length.
- The size of the liveliness GET_INFO message, which is computed before its header is set.
- `int - SeqNum`: it returns the operands in the opposite order, and nothing uses it in the modelled code.
- Requesters and repliers beyond their creation, which always fails in the centralized middleware.
- Success status for object kinds without a creator: `TryCreate` reports OK and creates nothing, and the lemmas about success exclude those kinds.
- The race between the expiry of a topic and a new registration of the same name: registry operations run one after the other.
- CedMiddlewares.MakeAddsOneId: the maps are values with identities for participants and topics, so shared ownership of a topic by its writers and readers is modelled by name and instance only.
- CedTopicManagers.CedTopicManager.Release: the nested map of the source is a set of domains and a flat map of pairs.
- SharedMutexesPriority.WRunKeepsExclusion: the increment of `exclusive_counter_` outside the mutex is one atomic step.
- PacketSchedulers.PacketScheduler.Push: requires a positive size or a non-empty queue, because removing the front of an empty deque is undefined in the source (`AlwaysPushableIff`).
- Messages.OutputMessage.Serialize: after a failure only the bytes written before the call are promised.
- Messages.MessageRoundTrip: leaves out an INFO with activity whose flags lack the byte-order bit, where counts and lengths are misread as well, and samples that sixteen bits cannot count; `MessageReadIff` covers every message.
- ReliableLinks.RunKeepsInv: a reset starts a new run with both sides at their first numbers; which packets of the old run do harm there is in `OldMessageHarmsIff`, `OldHeartbeatIgnoredIff` and `AcknowledgementIgnoredIff`, and what stays in the fragment buffer in `RestartIsCleanIff`.  Best-effort streams are not modelled.
- Payloads.GetsPayload: the same exceptions; `PayloadReadIff` covers every payload.
- Fragments.SplitSubmessage: once a turn has left the submessage, which is undefined in the source, nothing more is said.
- EndToEnd.SubmessagesArriveInOrder: the log is given as traffic of submessages that can be sent, and the fragment buffer is empty at first; `Conversations.SubmessagesArrive` derives the log from the calls, `RestartIsCleanIff` covers the buffer.
- ReliableLinks.RoundRecoversWindow: requires at most 32767 unacknowledged messages; beyond that a link can stop (`QuietLinkMovesIff`).
- EndToEnd.PushSubmessage: the same; `n` is the number of messages pushed before, of which the stream keeps the low sixteen bits.
- Session locking around the streams: each stream operation is one atomic step under its own mutex.
