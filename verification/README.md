# Verified models of the sentry robot's software

Dafny models of the parts of the repository whose correctness rests on state, interleavings or exact algebra, and proofs
about them. Check everything with `dafny verify dfyconfig.toml`.

Code that updates state in place is modelled by classes and methods; each such method is proved equal to a function of
the old state, and the results are proved about that function over all runs. Code made of expressions is modelled by
functions. Doubles are exact reals (with an explicit non-finite case where the code tests `isfinite`), clocks are whole
ticks that the caller supplies, and CRC registers are bit vectors. Nondeterminism (how a read is fragmented, which
thread runs next, whom `notify_one` wakes, what a detector sees) is left open: the theorems hold for every choice.

| modules | subject |
|---|---|
| `Folds`, `Crc16Spec`, `Crc16Table`, `Crc16`, `Crc16Detection`, `Periods`, `Crc16Period`, `Crc16Frame` | CRC-16 of the serial link: the table fold is polynomial division (the checksum of Appendix C.2 of RFC 1662 without the final complement), what it detects, padding |
| `Crc8Table`, `Crc8` | CRC-8 of the frame header |
| `SerialLink`, `Streams`, `SerialRoundTrip` | receive loop against an uninterrupted parse; whole-stream round trip with noise, fragmentation and bit errors |
| `SentryCommand`, `ExchangeOnce` | packing of the sentry command word; the ammunition exchange node down to the wire |
| `ThreadPool`, `OrderedQueue`, `ThreadSafeQueue`, `Scans`, `ImuAlign` | concurrency primitives, and IMU alignment through the bounded queue |
| `DualCamera`, `DualCameraThreads` | camera arbitration over all runs; the three threads around it |
| `AimGuard` | lost-frame and fire guard, class and inline copies |
| `Numbers`, `Plane`, `LookAhead`, `ArcLength` | path geometry over the reals |
| `Recovery`, `HpWindow`, `GimbalSweep` | behaviour and control nodes |

Results that differ from what comments in the code suggest:

- After a fragmented body the receive buffer is longer than the frame (`data_buf` is pre-sized and then inserted into).
  It is judged correctly all the same, because a zero residue stays zero under zero bytes
  (`SerialLink.ReceiveBody`, `Crc16Frame.PaddingIsInvisible`). Reads of the 3-byte header are not re-assembled:
  `SerialLink.Scan` says what the loop finds when they are cut, `SerialLink.WholeScan` that it finds all when they are
  not. When a header read misses its last byte, the header is rejected unless its CRC-8 is 0
  (`SerialRoundTrip.ShortHeaderIsRejected`).
- `OrderedQueue` notifies one consumer however many frames it releases. That is enough over a run exactly if no arrival
  fills the gap in front of too many buffered ids (`OrderedQueue.OneNotificationSufficesIff`); with two consumers one can
  sleep beside a waiting frame. `ThreadSafeQueue`, which notifies all, never leaves a consumer asleep beside a value.
- `imu_at` always pops at least one sample, so its two samples need not be neighbours; `ImuAlign.NeighboursIff` says when
  they are.
- The yaw comparison of the fire guard never matters (`AimGuard.YawLimitIsIrrelevant`), and a guard that has only seen
  non-finite commands still fires (`AimGuard.FiresOnNothingFinite`); it fires where a frame of the run told it to exactly
  if the run has a frame found with control and finite angles (`AimGuard.FiresAtGivenAimIff`).
- The code below the loop of `RecoveryNode::tick` only runs when the number of attempts is lowered under a run
  (`Recovery.FallsThroughIff`).
- A trigger of `IsHpDecreased` whose hold outlasts the window is forgotten afterwards (`HpWindow.QuietAfterHold`).
- Every message of the exchange node, packed into the command word, also orders posture 3: it leaves the posture at 0,
  which the packing replaces (`ExchangeOnce.OnlyAsksForAmmunition`).
- The exchange node publishes on every tick of a visit, although its log line says "no republish". The command word must
  carry a value that never decreases. It can fall, because the field holds the amount modulo 2048; it never falls in any
  run exactly if the plan of amounts is safe (`ExchangeOnce.WireNeverFallsIff`), which for steps from 0 to 2047 means that
  the first amount and the maximum lie in one block of 2048 (`ExchangeOnce.SmallStepSafeIff`).

## Model

| member | source | states |
|---|---|---|
| Crc16.EntryIsEightSteps | standard_robot_pp_ros2/src/crc8_crc16.cpp:94-116 | all 256 table entries are the register after eight steps of the reflected division by 0x8408 |
| Crc16.TableStepIsByte | standard_robot_pp_ros2/src/crc8_crc16.cpp:131-134 | one table step divides exactly the eight bits of the byte, least significant first |
| Crc16.TableFoldIsDivision | standard_robot_pp_ros2/src/crc8_crc16.cpp:125-137 | the table CRC of any byte string from any start is the polynomial division of its bits |
| Crc16Spec.DivideLinear | standard_robot_pp_ros2/src/crc8_crc16.cpp:125-137 | the division is linear over GF(2) in register and input together |
| Crc16Detection.ParityLaw | standard_robot_pp_ros2/src/crc8_crc16.cpp:125-137 | the parity of the register is the parity of everything divided so far, since x + 1 divides the generator |
| Crc16Detection.OddErrors | standard_robot_pp_ros2/src/crc8_crc16.cpp:125-155 | any odd number of flipped bits, anywhere, leaves a non-zero remainder |
| Crc16Detection.BurstErrors | standard_robot_pp_ros2/src/crc8_crc16.cpp:125-155 | any non-zero pattern inside sixteen consecutive bits, anywhere, leaves a non-zero remainder |
| Crc16Period.OrderOfShift | standard_robot_pp_ros2/src/crc8_crc16.cpp:125-137 | the register 1 returns to 1 after exactly the multiples of 32767 steps |
| Crc16Period.TwoBitErrors | standard_robot_pp_ros2/src/crc8_crc16.cpp:125-155 | two flipped bits go unseen if and only if their distance is a multiple of 32767 |
| Crc16Frame.GetCrc16CheckSum | standard_robot_pp_ros2/src/crc8_crc16.cpp:125-137 | the loop computes the fold over the first `length` bytes; the null message yields 0xffff |
| Crc16Frame.VerifyCrc16CheckSum | standard_robot_pp_ros2/src/crc8_crc16.cpp:145-155 | answers whether the last two bytes are the checksum of the rest; too short or null is rejected |
| Crc16Frame.AppendCrc16CheckSum | standard_robot_pp_ros2/src/crc8_crc16.cpp:163-172 | seals the first `length` bytes so that they are accepted, and touches nothing else |
| Crc16Frame.SealedIsAccepted | standard_robot_pp_ros2/src/crc8_crc16.cpp:145-172 | append then verify succeeds for every message |
| Crc16Frame.AcceptedIffResidueZero | standard_robot_pp_ros2/src/crc8_crc16.cpp:180-192 | a buffer is accepted if and only if the checksum over all of it, trailer included, is 0 |
| Crc16Frame.InitInvertsFirst | standard_robot_pp_ros2/src/crc8_crc16.cpp:125-137 | starting from 0xffff is starting from 0 with the first two bytes inverted |
| Crc16Frame.ShortIsRejected | standard_robot_pp_ros2/src/crc8_crc16.cpp:145-155 | a buffer of at most two bytes is never accepted |
| Crc16Frame.PaddingIsInvisible | standard_robot_pp_ros2/src/standard_robot_pp_ros2.cpp:324-346 | a buffer followed by any number of zero bytes is accepted if and only if the buffer is |
| Crc16Frame.UnseenDamage | standard_robot_pp_ros2/src/crc8_crc16.cpp:145-155 | an accepted frame with flipped bits stays accepted if and only if the error pattern itself has remainder 0 |
| Crc16Frame.DetectableIsRejected | standard_robot_pp_ros2/src/crc8_crc16.cpp:145-155 | bursts of at most 16 bits, odd numbers of flips, and up to 3 flips in at most 4095 bytes turn an accepted frame into a rejected one |
| Crc8.EntryIsEightSteps | standard_robot_pp_ros2/src/crc8_crc16.cpp:21-38 | all 256 table entries are eight steps of the reflected division by x^8+x^5+x^4+1 |
| Crc8.TableFoldIsDivision | standard_robot_pp_ros2/src/crc8_crc16.cpp:47-55 | the table CRC of any byte string is the polynomial division of its bits |
| Crc8.GetCrc8CheckSum | standard_robot_pp_ros2/src/crc8_crc16.cpp:47-55 | the loop computes the fold over the first `length` bytes |
| Crc8.VerifyCrc8CheckSum | standard_robot_pp_ros2/src/crc8_crc16.cpp:63-71 | answers whether the last byte is the checksum of the rest; too short or null is rejected |
| Crc8.AppendCrc8CheckSum | standard_robot_pp_ros2/src/crc8_crc16.cpp:79-87 | seals the first `length` bytes so that they are accepted, and touches nothing else |
| Crc8.SealedIsAccepted | standard_robot_pp_ros2/src/crc8_crc16.cpp:63-87 | append then verify succeeds for every message |
| Crc8.InitInvertsFirst | standard_robot_pp_ros2/src/crc8_crc16.cpp:47-55 | starting from 0xff is starting from 0 with the first byte inverted |
| Crc8.ShortIsRejected | standard_robot_pp_ros2/src/crc8_crc16.cpp:63-71 | a buffer of at most two bytes is never accepted |
| Crc8.OneByteChangesCrc | standard_robot_pp_ros2/src/crc8_crc16.cpp:47-55 | replacing one byte by any other changes the checksum, at every length |
| Crc8.OneByteIsRejected | standard_robot_pp_ros2/src/crc8_crc16.cpp:63-71 | an accepted header with one byte changed in any way is rejected |
| SerialLink.SerialPort.Receive | standard_robot_pp_ros2/src/standard_robot_pp_ros2.cpp:324-326 | a read returns between one byte and the buffer size, of the choice of the line, all of them only if it is one the line does not cut; the rest of the buffer keeps its content |
| SerialLink.InsertFragment | standard_robot_pp_ros2/src/standard_robot_pp_ros2.cpp:326-336 | inserting a further fragment at the received length keeps the shape data, then zero bytes |
| SerialLink.ReceiveBody | standard_robot_pp_ros2/src/standard_robot_pp_ros2.cpp:324-336 | however the body is fragmented, the loop ends with the wire bytes followed by some zero bytes |
| SerialLink.JudgePadded | standard_robot_pp_ros2/src/standard_robot_pp_ros2.cpp:341-350 | the padded buffer is delivered if and only if the frame itself would be |
| SerialLink.ReceiveFrame | standard_robot_pp_ros2/src/standard_robot_pp_ros2.cpp:324-350 | the part after an accepted header does what one turn of the reference parser does |
| SerialLink.ReceiveTurn | standard_robot_pp_ros2/src/standard_robot_pp_ros2.cpp:296-350 | one turn equals, for the 1, 2 or 3 bytes that its header read returned, the turn of the byte stream cut there; 3 bytes always, if the line does not cut header reads |
| SerialLink.CutIsZeros | standard_robot_pp_ros2/src/standard_robot_pp_ros2.cpp:307-322 | a header read that is cut short acts as if zero bytes stood on the line in place of the missing ones |
| SerialLink.WholeTurn | standard_robot_pp_ros2/src/standard_robot_pp_ros2.cpp:296-350 | with a complete header read the turn is the reference parser's |
| SerialLink.WholeScan | standard_robot_pp_ros2/src/standard_robot_pp_ros2.cpp:288-350 | with complete header reads throughout, the loop finds on the line what the reference parser finds |
| SerialLink.ParseInParts | standard_robot_pp_ros2/src/standard_robot_pp_ros2.cpp:288-350 | a stream may be parsed in parts: the frames of one part, then those of what it leaves unparsed followed by the next; waiting neither loses nor invents a frame |
| SerialLink.UnparsedIsBegun | standard_robot_pp_ros2/src/standard_robot_pp_ros2.cpp:288-350 | a stream leaves unparsed nothing but a start of frame with fewer bytes after it than its frame needs |
| SerialLink.ReceiveData | standard_robot_pp_ros2/src/standard_robot_pp_ros2.cpp:288-350 | until it can do no more the loop hands over exactly the frames found under the lengths its header reads had; on a line that does not cut header reads, exactly the frames of the reference parse, in order; every buffer handed over has passed both checks |
| SerialRoundTrip.SealFrame | standard_robot_pp_ros2/src/standard_robot_pp_ros2.cpp:783-846 | filling in and sealing header and trailer yields the frame format |
| SerialRoundTrip.FrameShape | standard_robot_pp_ros2/src/standard_robot_pp_ros2.cpp:783-846 | a sealed frame carries header and payload unchanged and is accepted |
| SerialRoundTrip.NoiseMeansNothing | standard_robot_pp_ros2/src/standard_robot_pp_ros2.cpp:296-305 | bytes other than the start byte are skipped, whatever follows |
| SerialRoundTrip.ArrivedShape | standard_robot_pp_ros2/src/standard_robot_pp_ros2.cpp:338-350 | a frame hit by a detectable error after its header is never accepted, an intact one always |
| SerialRoundTrip.HeadlessMeans | standard_robot_pp_ros2/src/standard_robot_pp_ros2.cpp:307-322 | a header its CRC-8 rejects is skipped, and the bytes after it are read as noise |
| SerialRoundTrip.OneByteOfHeader | standard_robot_pp_ros2/src/standard_robot_pp_ros2.cpp:296-322 | a frame with any one of its four header bytes changed in any way is lost and costs nothing else, if no start byte turns up in what is then read as noise |
| SerialRoundTrip.StreamRoundTrip | standard_robot_pp_ros2/src/standard_robot_pp_ros2.cpp:288-350 | any list of frames with noise between them, some with a detectably damaged body and some with a rejected header that no start byte follows, parses to exactly the undamaged frames in order, without debug frames unless asked for, whatever follows |
| SerialRoundTrip.ParseStream | standard_robot_pp_ros2/src/standard_robot_pp_ros2.cpp:288-350 | the same for a whole stream that ends in noise |
| SerialRoundTrip.ReceiveStream | standard_robot_pp_ros2/src/standard_robot_pp_ros2.cpp:288-350 | on a line that does not cut header reads the receive loop hands over exactly those frames, however all other reads are cut |
| SerialRoundTrip.ShortHeaderIsRejected | standard_robot_pp_ros2/src/standard_robot_pp_ros2.cpp:307-322 | a header read that misses its last byte is accepted if and only if the header's CRC-8 is 0 |
| SentryCommand.FieldsReadBack | standard_robot_pp_ros2/src/standard_robot_pp_ros2.cpp:988-998 | fields laid side by side are read back from where the ones before them end |
| SentryCommand.OrField | standard_robot_pp_ros2/src/standard_robot_pp_ros2.cpp:1003-1049 | OR-ing a shifted field in above the others is laying it beside them |
| SentryCommand.StandardRobot.CmdSentryCallback | standard_robot_pp_ros2/src/standard_robot_pp_ros2.cpp:983-1055 | the packing yields the protocol's fields side by side, with masks, shifts and the fallback posture 3 |
| SentryCommand.CommandReadsBack | standard_robot_pp_ros2/src/standard_robot_pp_ros2.cpp:983-1055 | from the packed word a receiver reads what the message says: bits 0, 1 and 23 are 1 if and only if the flag is set, bits 2-12 the amount modulo 2048, bits 13-16 and 17-20 the two counts modulo 16, bits 21-22 the posture if it is 1 to 3 and else 3, bits 24-31 0 |
| SentryCommand.ExtractedBits | standard_robot_pp_ros2/src/standard_robot_pp_ros2.cpp:988-998 | what a receiver extracts are exactly the binary digits of the word from that position on |
| SentryCommand.ReservedBitsAreClear | standard_robot_pp_ros2/src/standard_robot_pp_ros2.cpp:1051-1054 | bits 24 to 31 are 0 |
| SentryCommand.AmountOnWireIff | standard_robot_pp_ros2/src/standard_robot_pp_ros2.cpp:1013-1018 | the amount is recovered from bits 2-12 if and only if it is below 2048 |
| ExchangeOnce.ExchangeProjectileOnce.Tick | pb2025_sentry_behavior/plugins/action/exchange_projectile_once.cpp:139-225 | one tick, with missing messages, zone, thresholds, one advance a visit and the publication |
| ExchangeOnce.ExchangeProjectileOnce.PublishExchangeCommand | pb2025_sentry_behavior/plugins/action/exchange_projectile_once.cpp:124-137 | publishes one message with the amount cut to 16 bits |
| ExchangeOnce.PublishesExpected | pb2025_sentry_behavior/plugins/action/exchange_projectile_once.cpp:178-224 | over any run the messages are those worked out from the inputs alone: the k-th amount throughout the k-th visit in which anything is published |
| ExchangeOnce.PublishesIff | pb2025_sentry_behavior/plugins/action/exchange_projectile_once.cpp:139-225 | in every run a tick publishes one message and answers SUCCESS if and only if both messages are present, a zone that counts is detected, ammunition is below its threshold and gold not below its minimum; otherwise nothing and FAILURE |
| ExchangeOnce.MessageCarries | pb2025_sentry_behavior/plugins/action/exchange_projectile_once.cpp:124-137 | the i-th message carries the base amount and one step for every visit with messages before, clamped and cut to 16 bits, and nothing else |
| ExchangeOnce.OnlyAsksForAmmunition | pb2025_sentry_behavior/plugins/action/exchange_projectile_once.cpp:124-137 | on the wire such a message confirms, requests and activates nothing else, but orders posture 3 |
| ExchangeOnce.KnowsZone | pb2025_sentry_behavior/plugins/action/exchange_projectile_once.cpp:178-191 | the node knows whether the robot was in the zone when last both messages were present |
| ExchangeOnce.AmountsOfRun | pb2025_sentry_behavior/plugins/action/exchange_projectile_once.cpp:201-218 | messages of one visit are equal, and amounts never decrease and stay between 0 and the maximum |
| ExchangeOnce.AmountsOnWire | pb2025_sentry_behavior/plugins/action/exchange_projectile_once.cpp:124-137 | with a maximum of at most 2047 a receiver reads the very amounts, which never decrease on the wire |
| ExchangeOnce.ShuttleSent | pb2025_sentry_behavior/plugins/action/exchange_projectile_once.cpp:201-218 | in a run of n + 1 visits the k-th message carries the k-th amount, for every k up to n |
| ExchangeOnce.ExactOnWireIff | pb2025_sentry_behavior/plugins/action/exchange_projectile_once.cpp:201-218 | every run's amounts arrive exactly if and only if the maximum is below 2048, or the step is not positive and the base below 2048 |
| ExchangeOnce.RequestOnWire | standard_robot_pp_ros2/src/standard_robot_pp_ros2.cpp:1013-1018 | a receiver reads the amount modulo 2048 |
| ExchangeOnce.UnsafeRunFalls | pb2025_sentry_behavior/plugins/action/exchange_projectile_once.cpp:201-218 | with an unsafe plan there is a run in which a receiver reads less from a message than from an earlier one, for a positive step from the very next one |
| ExchangeOnce.WireNeverFallsIff | pb2025_sentry_behavior/plugins/action/exchange_projectile_once.cpp:201-218 | for every step, what a receiver reads never falls in any run if and only if the plan is safe: the step is 0; or it is positive, and no term lies between the first one and the maximum or the terms below the maximum stay, modulo 2048, at or below the maximum's remainder; or it is negative, and the first amount, the first term below the maximum and the step are whole multiples of 2048 as far as they come to bear |
| ExchangeOnce.SmallStepSafeIff | pb2025_sentry_behavior/plugins/action/exchange_projectile_once.cpp:201-218 | for steps from 0 to 2047 a plan is safe if and only if the step is 0 or the first amount and the maximum lie in one block of 2048 |
| ThreadPool.Workers.EnqueueLocked | sp_vision_25/tools/thread_pool.hpp:164-174 | the critical section of enqueue: throws when stopped, else appends; a notification is owed |
| ThreadPool.Workers.CheckLocked | sp_vision_25/tools/thread_pool.hpp:132-140 | a worker holding the lock sleeps, returns or takes the front task |
| ThreadPool.Workers.StopLocked | sp_vision_25/tools/thread_pool.hpp:149-153 | the destructor's critical section stops the pool and discards the queue |
| ThreadPool.Workers.NotifyAll | sp_vision_25/tools/thread_pool.hpp:154 | every sleeping worker is woken |
| ThreadPool.RunInv | sp_vision_25/tools/thread_pool.hpp:126-174 | the pool's invariant survives every interleaving, spurious wake-ups included |
| ThreadPool.FirstInFirstOut | sp_vision_25/tools/thread_pool.hpp:132-174 | accepted tasks are the started ones, in order and once each, then the discarded and the queued ones |
| ThreadPool.TasksAccountedFor | sp_vision_25/tools/thread_pool.hpp:126-174 | in every run exactly the tasks handed over before the stop are accepted, in order, and every started task has finished or is being executed by a worker of its own; each accepted task is followed by one notification |
| ThreadPool.OthersStay | sp_vision_25/tools/thread_pool.hpp:126-174 | a step changes no worker but the one it concerns, a new task or the stop none; only notify_all wakes more than one |
| ThreadPool.OldestIsStarted | sp_vision_25/tools/thread_pool.hpp:132-141 | a worker that looks at a non-empty queue starts the oldest accepted task not yet started, and runs it |
| ThreadPool.StartedGrows | sp_vision_25/tools/thread_pool.hpp:132-141 | the list of started tasks only grows at its end |
| ThreadPool.NoWakeUpLost | sp_vision_25/tools/thread_pool.hpp:132-174 | while not stopped, if any worker sleeps then queued tasks are at most pending notifications plus workers about to re-check |
| ThreadPool.NoDeadlock | sp_vision_25/tools/thread_pool.hpp:132-174 | with tasks queued and not stopped, a worker can run or a wake-up is on its way |
| ThreadPool.ComesToRest | sp_vision_25/tools/thread_pool.hpp:126-174 | wherever a run has brought a pool that is not stopped, its own steps (checks, finished tasks, notifications) bring it to rest: every accepted task started, no wake-up pending, every worker asleep; each step brings it closer, whichever is taken, and none is left only at rest |
| ThreadPool.JoinsReturn | sp_vision_25/tools/thread_pool.hpp:147-160 | after notify_all nobody sleeps, every worker step brings the joins closer, none sets them back, and one is possible until all have returned |
| OrderedQueue.Queue.EnqueueItem | sp_vision_25/tools/thread_pool.hpp:61-88 | drops small ids, buffers later ones, and releases the current one with its buffered successors |
| OrderedQueue.Queue.DequeueItem | sp_vision_25/tools/thread_pool.hpp:90-99 | sleeps on empty, else takes the front |
| OrderedQueue.Queue.TryDequeueItem | sp_vision_25/tools/thread_pool.hpp:102-111 | takes the front without waiting, if there is one |
| OrderedQueue.DrainReleases | sp_vision_25/tools/thread_pool.hpp:74-80 | the drain loop ends and releases exactly the buffered frames with consecutive ids |
| OrderedQueue.EnqueueInv | sp_vision_25/tools/thread_pool.hpp:61-88 | an arrival extends what must be released and what must be buffered in step with the specification |
| OrderedQueue.DeliveredInOrder | sp_vision_25/tools/thread_pool.hpp:61-111 | for every arrival order with duplicates and gaps: delivered then queued frames are ids 1, 2, ... up to the first missing one, each the latest of its id when it became releasable; the buffer holds exactly the later ids |
| OrderedQueue.AllArrivedAllReleased | sp_vision_25/tools/thread_pool.hpp:61-111 | once 1..n have arrived, all n are delivered or queued |
| OrderedQueue.OneNotificationIsEnoughIff | sp_vision_25/tools/thread_pool.hpp:82-84 | the one notify_one of an arrival leaves a frame beside a sleeper if and only if two consumers sleep and enough consecutive ids after it are buffered; no other step does |
| OrderedQueue.OneNotificationSufficesIff | sp_vision_25/tools/thread_pool.hpp:61-111 | in a run of any number of consumers nobody ever misses a frame if and only if no arrival is of that kind |
| OrderedQueue.OneConsumerSleepsOnlyOnEmpty | sp_vision_25/tools/thread_pool.hpp:82-99 | with a single consumer, in every run, it sleeps un-notified only beside an empty queue |
| OrderedQueue.TwoConsumersCanMissOne | sp_vision_25/tools/thread_pool.hpp:82-99 | with two consumers a frame can wait beside a sleeping one |
| ThreadSafeQueue.Queue.Push | sp_vision_25/tools/thread_safe_queue.hpp:39-54 | both overflow policies: evict the oldest, or discard and call the handler; a value put in wakes all sleepers, so that no consumer sleeps beside a value |
| ThreadSafeQueue.Queue.TryPop | sp_vision_25/tools/thread_safe_queue.hpp:29-37 | takes the front if there is one |
| ThreadSafeQueue.Queue.Pop | sp_vision_25/tools/thread_safe_queue.hpp:56-80 | one pass through the wait: falls asleep on empty, else takes the front |
| ThreadSafeQueue.Queue.Front | sp_vision_25/tools/thread_safe_queue.hpp:82-89 | one pass through the wait: falls asleep on empty, else reads the front without taking it |
| ThreadSafeQueue.Queue.Clear | sp_vision_25/tools/thread_safe_queue.hpp:109-116 | empties the queue, wakes all sleepers and keeps the order of what went out |
| ThreadSafeQueue.PopsKeepOrder | sp_vision_25/tools/thread_safe_queue.hpp:39-80 | values pushed in an order are popped in that order, whatever overflow lost |
| ThreadSafeQueue.OverflowKeeps | sp_vision_25/tools/thread_safe_queue.hpp:39-54 | without pops an evicting queue holds the newest values that fit, a dropping one the oldest |
| ImuAlign.CBoard.Open | sp_vision_25/io/cboard.cpp:8-20 | waits for the first two samples while the callback runs; it stays blocked only when the supply has run out, the queue is empty and fewer than two were popped |
| ImuAlign.CBoard.PopSample | sp_vision_25/tools/thread_safe_queue.hpp:56-80 | the blocking pop of the only consumer, sleeping, woken and looking again, ends with a sample unless the supply has run out and the queue is empty |
| ImuAlign.CBoard.Deliver | sp_vision_25/io/cboard.cpp:68-84 | the callback pushes samples in order at any moment; none is lost unless the queue has been full |
| ImuAlign.CBoard.Search | sp_vision_25/io/cboard.cpp:26-31 | the loop pops up to the first later sample and leaves the one before it as the lower end; it stays blocked only when the supply has run out, the queue is empty and nothing it popped was later |
| ImuAlign.CBoard.ImuAt | sp_vision_25/io/cboard.cpp:22-45 | refines the alignment of the stream of popped samples and brackets the query; it stays blocked only when the supply has run out, the queue is empty and nothing it popped was later; with room for the supply in the queue, if and only if no sample in the queue or the supply is later |
| ImuAlign.AlignBrackets | sp_vision_25/io/cboard.cpp:22-41 | a query not earlier than the lower end ends with ahead <= t < behind, and the factor is exactly the share of the time between the two that has passed |
| ImuAlign.AlignIs | sp_vision_25/io/cboard.cpp:22-41 | the upper end becomes the first later sample after the previous upper end; the lower end the one before it, or stays if that is the previous upper end and not earlier than the query |
| ImuAlign.EveryQueryBracketed | sp_vision_25/io/cboard.cpp:22-41 | so does every query of a non-decreasing sequence, each consuming at least one sample |
| ImuAlign.NeighboursIff | sp_vision_25/io/cboard.cpp:22-41 | when the two samples are neighbours in the stream, both directions |
| ImuAlign.CBoard.AnswerAll | sp_vision_25/io/cboard.cpp:22-45 | a caller of imu_at for a non-decreasing sequence of times, over the bounded queue: every answer ends with ahead.t <= t < behind.t and a factor in [0, 1), the two being the samples of the alignment of the popped stream; a query stays unanswered only when the supply has run out, the queue is empty and nothing popped since the last answer is later; with room for the supply the answers are exactly those the whole stream has; popped samples are in time order if pushed ones are |
| DualCamera.Controller.Iterate | sp_vision_25/src/sentry_dual_sn_ros.cpp:282-322 | one iteration of the arbitration |
| DualCamera.RunSummary | sp_vision_25/src/sentry_dual_sn_ros.cpp:245-322 | the loop variables always summarise the history of turns |
| DualCamera.TurnOfRun | sp_vision_25/src/sentry_dual_sn_ros.cpp:282-322 | every turn of every run is the decision made from the history alone |
| DualCamera.HandoffIff | sp_vision_25/src/sentry_dual_sn_ros.cpp:303-315 | a handoff happens if and only if the front is unlocked, the back has a target and more than 2000 ms have passed since every front lock and handoff |
| DualCamera.HandoffSends | sp_vision_25/src/sentry_dual_sn_ros.cpp:303-307 | a handoff sends the back direction at once, without firing |
| DualCamera.LockedSends | sp_vision_25/src/sentry_dual_sn_ros.cpp:282-300 | while the front camera is locked its own command is sent, and its position published if and only if it is locked with a valid one |
| DualCamera.SendsNothingIff | sp_vision_25/src/sentry_dual_sn_ros.cpp:282-322 | nothing is sent if and only if the front camera is not locked and was not just before, nothing is handed over, and every handoff still awaiting the front camera is at least 800 ms old |
| DualCamera.AfterHandoff | sp_vision_25/src/sentry_dual_sn_ros.cpp:300-321 | until the front locks: the same back direction without firing for 800 ms, then nothing up to 2000 ms |
| DualCamera.HoldIff | sp_vision_25/src/sentry_dual_sn_ros.cpp:316-321 | a hold is sent if and only if the front has just unlocked and nothing is handed over; it repeats the last front direction without firing |
| DualCamera.OneHoldPerEpisode | sp_vision_25/src/sentry_dual_sn_ros.cpp:316-321 | between two holds the front camera has locked again |
| DualCameraThreads.FireOnlyFromOneFrontFrame | sp_vision_25/src/sentry_dual_sn_ros.cpp:184-192 | in every interleaving a command to fire is one locked front frame's own |
| DualCameraThreads.HandoffClearsFront | sp_vision_25/src/sentry_dual_sn_ros.cpp:143-192 | after a handoff at most one more real result is published, and the three after it are blank |
| DualCameraThreads.SnapshotInQuarantine | sp_vision_25/src/sentry_dual_sn_ros.cpp:269-279 | while the last result is one of those three, the shared front result reads unlocked and without position |
| DualCameraThreads.SnapshotBeforeQuarantine | sp_vision_25/src/sentry_dual_sn_ros.cpp:143-192 | before the first blank result the shared front result is the one of the handoff, or the one the front worker had ready then |
| DualCameraThreads.CancelledIff | sp_vision_25/src/sentry_dual_sn_ros.cpp:269-322 | until a result follows the three blank ones, and without another handoff, the wait begun by a handoff is cancelled if and only if a snapshot shows a locked front result, and that can only be the one of the handoff or the one that was ready |
| DualCameraThreads.FrontIsLastPublished | sp_vision_25/src/sentry_dual_sn_ros.cpp:184-192 | the shared front result is the last published one |
| DualCameraThreads.FrontReportsFrames | sp_vision_25/src/sentry_dual_sn_ros.cpp:134-193 | in every interleaving front results are published one for each frame in order, and the shared one reports its frame: locked if and only if the tracker is not lost, then with the aimer's command, and with a valid position if and only if armors are left besides |
| DualCameraThreads.LockIsReported | sp_vision_25/src/sentry_dual_sn_ros.cpp:134-193 | a frame with an armor and the tracker not lost is possible from the start and shows locked, with command and position, once published |
| DualCameraThreads.BackReportsLastFrame | sp_vision_25/src/sentry_dual_sn_ros.cpp:208-228 | in every interleaving the shared back result is that of the last back frame: a target if and only if armors were detected and the decider takes control |
| DualCameraThreads.SnapshotIsShared | sp_vision_25/src/sentry_dual_sn_ros.cpp:256-279 | what the controller acts on is what both workers had published, together, when it took its last snapshot |
| DualCameraThreads.NobodyWaits | sp_vision_25/src/sentry_dual_sn_ros.cpp:134-279 | in every state each of the three threads can take its next step: none waits for another |
| DualCameraThreads.ThreeFramesAreBlanked | sp_vision_25/src/sentry_dual_sn_ros.cpp:143-156 | in every interleaving exactly the three frames taken up after a handoff are blanked |
| DualCameraThreads.ControllerRuns | sp_vision_25/src/sentry_dual_sn_ros.cpp:256-322 | in every interleaving the controller's iterations are a run of the loop on the snapshots it took |
| DualCameraThreads.SystemHandoffIff | sp_vision_25/src/sentry_dual_sn_ros.cpp:303-315 | when the system of three threads hands over, both directions |
| AimGuard.Guard.Process | sp_vision_25/tools/aim_guard.cpp:6-50 | one frame of the class |
| AimGuard.InlineGuard.Guard | sp_vision_25/src/sentry_dual_cameras.cpp:319-383 | one frame of the inline block is one frame of the class with default parameters |
| AimGuard.StateOfRun | sp_vision_25/tools/aim_guard.cpp:6-50 | the counters, the stable flag, the last valid command and the last found time in terms of the run |
| AimGuard.AnswerIsReference | sp_vision_25/tools/aim_guard.cpp:6-50 | the answer to every run, NaN inputs included, is the one defined from the run alone |
| AimGuard.AnswerOfFrame | sp_vision_25/tools/aim_guard.cpp:6-50 | a found frame is answered with control and at its own angles if finite; a lost one never fires, and is answered with control if and only if neither the frame nor the time limit is exceeded, else with nothing |
| AimGuard.AnswersAreFinite | sp_vision_25/tools/aim_guard.cpp:20-48 | every angle that leaves the guard is finite |
| AimGuard.FiresIff | sp_vision_25/tools/aim_guard.cpp:25-30 | fires if and only if enabled, with a positive limit, after enough frames found with control in a row |
| AimGuard.YawLimitIsIrrelevant | sp_vision_25/tools/aim_guard.cpp:26-27 | two guards with different positive yaw limits answer every run alike |
| AimGuard.InlineCopiesAgree | sp_vision_25/src/sentry_dual_sn.cpp:358-423 | the copies with limits 2.0 and 5.0 produce identical runs |
| AimGuard.InlineLimits | sp_vision_25/src/sentry_dual_cameras.cpp:319-383 | an inline copy fires if and only if the last three frames were all found with control, and answers a lost frame with control for at most eight frames and 200 ms |
| AimGuard.FiresAtGivenAimIff | sp_vision_25/tools/aim_guard.cpp:13-30 | a command to fire aims at the angles of the last frame found with control and finite angles, if and only if the run has such a frame; else at zero |
| AimGuard.FiresOnNothingFinite | sp_vision_25/src/sentry_dual_sn.cpp:358-423 | three non-finite commands make the guard fire at the zero command |
| LookAhead.FirstFar | pb2025_sentry_nav/pb_omni_pid_pursuit_controller/src/omni_pid_pursuit_controller.cpp:367-370 | the first pose at the look-ahead distance or beyond |
| LookAhead.Crossing | pb2025_sentry_nav/pb_omni_pid_pursuit_controller/src/omni_pid_pursuit_controller.cpp:394-425 | from inside to outside the circle: no division by zero, a non-negative discriminant, and a point on the circle and on the segment |
| LookAhead.CrossingIsUnique | pb2025_sentry_nav/pb_omni_pid_pursuit_controller/src/omni_pid_pursuit_controller.cpp:394-425 | only one point of the segment is on the circle |
| LookAhead.DirectionDoesNotMatter | pb2025_sentry_nav/pb_omni_pid_pursuit_controller/src/omni_pid_pursuit_controller.cpp:415-423 | the sign augmentation makes the formula independent of the direction of the segment |
| LookAhead.LookAheadIsExact | pb2025_sentry_nav/pb_omni_pid_pursuit_controller/src/omni_pid_pursuit_controller.cpp:363-392 | with interpolation, when the path leaves the circle after its first pose, the point is exactly at the look-ahead distance on the segment that ends in the first pose at the distance or beyond, and the only such point; frame and stamp are those of the two poses |
| LookAhead.LookAheadOtherwise | pb2025_sentry_nav/pb_omni_pid_pursuit_controller/src/omni_pid_pursuit_controller.cpp:366-391 | otherwise it is the first pose at the distance or beyond, no earlier and no later one, or the last pose if there is none |
| ArcLength.CalculateCumulativeDistances | pb2025_sentry_nav/pb_omni_pid_pursuit_controller/src/omni_pid_pursuit_controller.cpp:630-643 | the loop computes the arc lengths of all poses; one entry for an empty path |
| ArcLength.LengthsAreSorted | pb2025_sentry_nav/pb_omni_pid_pursuit_controller/src/omni_pid_pursuit_controller.cpp:630-643 | the distances start at 0 and never decrease |
| ArcLength.LengthsBound | pb2025_sentry_nav/pb_omni_pid_pursuit_controller/src/omni_pid_pursuit_controller.cpp:630-643 | the arc between two poses is at least their straight-line distance |
| ArcLength.FoundInside | pb2025_sentry_nav/pb_omni_pid_pursuit_controller/src/omni_pid_pursuit_controller.cpp:657-666 | a target inside lands on a segment with cum[i-1] < target <= cum[i] |
| ArcLength.FoundRatio | pb2025_sentry_nav/pb_omni_pid_pursuit_controller/src/omni_pid_pursuit_controller.cpp:665-678 | the ratio is in (0, 1], without division by zero |
| ArcLength.FoundAtDistance | pb2025_sentry_nav/pb_omni_pid_pursuit_controller/src/omni_pid_pursuit_controller.cpp:645-682 | the point lies on that segment, exactly target - cum[i-1] past pose i-1 and cum[i] - target short of pose i |
| ArcLength.FoundOutside | pb2025_sentry_nav/pb_omni_pid_pursuit_controller/src/omni_pid_pursuit_controller.cpp:645-682 | outside the path the whole pose is the first or the last one, on an empty path a default one |
| ArcLength.FoundBehind | pb2025_sentry_nav/pb_omni_pid_pursuit_controller/src/omni_pid_pursuit_controller.cpp:645-682 | inside it has the header and the orientation of the pose that ends the segment of the target |
| ArcLength.LookupIsContinuous | pb2025_sentry_nav/pb_omni_pid_pursuit_controller/src/omni_pid_pursuit_controller.cpp:645-682 | two targets are looked up no further apart than they are, across poses and at both ends |
| Recovery.RecoveryNode.Tick | pb2025_sentry_behavior/plugins/control/recovery_node.cpp:27-100 | one tick ends, and does what the fold over the children's answers does, halts included; two children are demanded |
| Recovery.RecoveryNode.Halt | pb2025_sentry_behavior/plugins/control/recovery_node.cpp:103-108 | halts the children and resets the counters |
| Recovery.RunExplained | pb2025_sentry_behavior/plugins/control/recovery_node.cpp:27-100 | over any number of ticks the finished executions are rounds of one failure and one recovery, then exactly the answer that ends the run; final results leave (0, 0) |
| Recovery.ResultOfRun | pb2025_sentry_behavior/plugins/control/recovery_node.cpp:38-96 | strict alternation, at most 2n + 1 finished executions, and the result read off the last one, in both directions |
| Recovery.AttemptsAreBounded | pb2025_sentry_behavior/plugins/control/recovery_node.cpp:38-96 | in any run the first child finishes at most n + 1 times and the second at most n times |
| Recovery.SuccessIff | pb2025_sentry_behavior/plugins/control/recovery_node.cpp:43-47 | SUCCESS is returned if and only if the first child returned SUCCESS |
| Recovery.RunningIsInvisible | pb2025_sentry_behavior/plugins/control/recovery_node.cpp:62-64 | a run cut into ticks by RUNNING answers ends as one tick on the other answers does |
| Recovery.FallsThroughIff | pb2025_sentry_behavior/plugins/control/recovery_node.cpp:98-100 | when the code below the loop runs, both directions; never with a fixed number of attempts; it then returns FAILURE and leaves (0, 0) |
| Recovery.OnlyCurrentActive | pb2025_sentry_behavior/plugins/control/recovery_node.cpp:43-96 | no child is executed while the other is not halted, and a final result leaves none active; RUNNING leaves the current one active |
| HpWindow.IsHpDecreased.Tick | pb2025_sentry_behavior/plugins/condition/is_hp_decreased.cpp:56-132 | one tick: hold, recording, purge, maximum and trigger |
| HpWindow.Max | pb2025_sentry_behavior/plugins/condition/is_hp_decreased.cpp:108-113 | the highest HP in the window and now |
| HpWindow.WindowIsExact | pb2025_sentry_behavior/plugins/condition/is_hp_decreased.cpp:89-101 | after each recording tick the history is exactly the samples ever recorded of an age within the window |
| HpWindow.TriggerIff | pb2025_sentry_behavior/plugins/condition/is_hp_decreased.cpp:107-131 | a recording tick answers SUCCESS if and only if some sample ever recorded is in the window and above the HP by more than the threshold |
| HpWindow.DropIff | pb2025_sentry_behavior/plugins/condition/is_hp_decreased.cpp:89-131 | in terms of the ticks alone: a recording tick answers SUCCESS if and only if in some recording tick, itself included, not longer ago than the window the HP was higher than now by more than the threshold |
| HpWindow.HoldEndIff | pb2025_sentry_behavior/plugins/condition/is_hp_decreased.cpp:115-116 | a hold covers exactly the clock readings up to one nanosecond short of its time after the trigger |
| HpWindow.TriggerHolds | pb2025_sentry_behavior/plugins/condition/is_hp_decreased.cpp:77-86 | a trigger gives SUCCESS on every tick before the hold ends, and those ticks change nothing |
| HpWindow.SuccessIff | pb2025_sentry_behavior/plugins/condition/is_hp_decreased.cpp:77-131 | over any run SUCCESS is answered if and only if this tick triggers or a trigger's hold has not ended |
| HpWindow.QuietAfterHold | pb2025_sentry_behavior/plugins/condition/is_hp_decreased.cpp:77-131 | after a hold longer than the window the first tick answers FAILURE |
| GimbalSweep.GimbalManager.GimbalCmdCallback | standard_robot_pp_ros2/src/gimbal_manager.cpp:45-83 | drops a repeat, else sets both axes; the static last message starts as a default message |
| GimbalSweep.GimbalManager.TimerCallback | standard_robot_pp_ros2/src/gimbal_manager.cpp:34-42 | the first call only takes the time, later ones step both axes and publish |
| GimbalSweep.GimbalManager.UpdateState | standard_robot_pp_ros2/src/gimbal_manager.cpp:85-94 | steps exactly the axes in velocity mode and publishes |
| GimbalSweep.UpdateAxisPosition | standard_robot_pp_ros2/src/gimbal_manager.cpp:96-116 | one step of an axis, turning the velocity around in place |
| GimbalSweep.FmodRange | standard_robot_pp_ros2/src/gimbal_manager.cpp:103 | the truncating remainder is shorter than the divisor and has the dividend's sign |
| GimbalSweep.ContinuousStep | standard_robot_pp_ros2/src/gimbal_manager.cpp:101-105 | a continuous axis lands in [min, max), whole ranges away from current + velocity * delta |
| GimbalSweep.PlaceIsUnique | standard_robot_pp_ros2/src/gimbal_manager.cpp:101-105 | no other place in the range is |
| GimbalSweep.TurnsAddUp | standard_robot_pp_ros2/src/gimbal_manager.cpp:101-105 | over any number of steps the turn is the velocity times the whole time, up to whole ranges |
| GimbalSweep.BoundedStep | standard_robot_pp_ros2/src/gimbal_manager.cpp:107-115 | a bounded axis goes exactly where its velocity carries it and keeps the velocity while that is within its bounds; beyond an end it stands on that end with the velocity turned around; it is within its bounds after every step if and only if they are in order |
| GimbalSweep.StepIsShort | standard_robot_pp_ros2/src/gimbal_manager.cpp:96-116 | from inside the range a step moves a bounded axis no further than its velocity carries it, and in that direction |
| GimbalSweep.SweepGoesStraight | standard_robot_pp_ros2/src/gimbal_manager.cpp:107-116 | over any number of steps that carry it to no place beyond an end the axis is where it started plus velocity times time, with its velocity unchanged |
| GimbalSweep.BothEndsReached | standard_robot_pp_ros2/src/gimbal_manager.cpp:107-115 | from inside the range both ends are reached within 2n + 1 steps, where n steps cover the range |
| GimbalSweep.DropsRepeats | standard_robot_pp_ros2/src/gimbal_manager.cpp:49-53 | over any run the node equals one without the comparison on the commands with repeats removed |
| GimbalSweep.RepeatChangesNothing | standard_robot_pp_ros2/src/gimbal_manager.cpp:49-53 | a repeated command can be inserted anywhere before the next different one without changing anything |
| GimbalSweep.CommandIsFollowed | standard_robot_pp_ros2/src/gimbal_manager.cpp:45-116 | both axes always follow the last command, up to the direction of a sweep |
| GimbalSweep.SameIff | standard_robot_pp_ros2/src/gimbal_manager.cpp:49-53 | commands count as repeats if and only if they differ in nothing but the header |
| GimbalSweep.FirstIsDroppedIff | standard_robot_pp_ros2/src/gimbal_manager.cpp:47-53 | the only first command that is dropped is the one that equals a default message apart from its header |
| GimbalSweep.DifferentIsObeyed | standard_robot_pp_ros2/src/gimbal_manager.cpp:45-83 | in every run a command that differs from the one before it in anything but the header sets both axes: a position stops the axis there, a velocity makes it sweep from where it is between the given ends, or without ends if they lie a full turn apart up to 0.01 |
| GimbalSweep.RepeatWouldTurn | standard_robot_pp_ros2/src/gimbal_manager.cpp:49-53 | obeying a repeat would change the node if and only if a sweep has turned around |
| GimbalSweep.SweepsInRange | standard_robot_pp_ros2/src/gimbal_manager.cpp:85-116 | in every run a sweeping axis is in its range after a timer step |
| GimbalSweep.TimersSweep | standard_robot_pp_ros2/src/gimbal_manager.cpp:34-42 | after any run, any series of timer calls takes each axis through exactly the sweep over the clock differences, and leaves it alone in other modes |
| GimbalSweep.KnowsLastReading | standard_robot_pp_ros2/src/gimbal_manager.cpp:34-42 | the node always knows the last clock reading, and a first one moves nothing |
| GimbalSweep.NodeSweepsStraight | standard_robot_pp_ros2/src/gimbal_manager.cpp:85-116 | after any run, timer calls carry a bounded axis of the node at its velocity, without turning, while that leads to no place beyond an end |
| GimbalSweep.NodeReachesBothEnds | standard_robot_pp_ros2/src/gimbal_manager.cpp:85-116 | after any run, a bounded sweeping axis of the node is at either end within 2n + 1 timer calls, where n of them cover the range |
| GimbalSweep.NodeTurnsByElapsedTime | standard_robot_pp_ros2/src/gimbal_manager.cpp:85-105 | after any run, timer calls turn a continuous axis of the node by the velocity times the time from the last one before to the last of them, up to whole ranges |

## Left out

- SerialLink.ReceiveData: read errors, reconnection, decoding of the payload and its publication are not modelled. Equality with the uncut reference parse needs a line that does not cut header reads, since the code does not re-assemble them.
- SerialRoundTrip.ReceiveStream: a damaged header is followed through the stream when the CRC-8 rejects it and no start byte stands in what is then read as noise; otherwise the bytes after it may be taken for a header, and what is found from there on is not stated.
- SerialRoundTrip.SealFrame: one sealed frame; the sender's loop, timing and unsynchronised access to the message it sends are not modelled.
- Crc16Frame.VerifyCrc16CheckSum: stands for both overloads, which differ only in how they take the bytes. The table is modelled as sixteen row functions.
- ThreadPool.Workers.CheckLocked: tasks are opaque and do not throw; thread creation and join are steps of the model, not threads.
- OrderedQueue.Queue.EnqueueItem: ids are unbounded integers; the destructor is not modelled.
- ThreadSafeQueue.Queue.constructor: an evicting queue of capacity 0 is excluded, since its push pops an empty std::queue. The condition variable is modelled by how many consumers sleep and how many are awake, not by which; after a wake-up they pass the wait in any order.
- ImuAlign.CBoard.ImuAt: the spherical interpolation itself is not modelled, only its factor; clock values are integers.
- DualCamera.Controller.Iterate: commands carry control, fire flag, yaw and pitch; the feed-forward zeros and the frame-rate printing are left out.
- DualCameraThreads.HandoffClearsFront: detector, decider, tracker, aimer and shooter results are arbitrary, except that filters only remove armors and that a new tracker that sees none stays lost. No claim is made about how fresh a camera frame is.
- AimGuard.Guard.Process: the field horizon_distance of a command is not modelled.
- LookAhead.LookAheadIsExact: the square root is any function that gives non-negative roots; rounding is not modelled. An empty plan is excluded, its caller throws.
- ArcLength.CalculateCumulativeDistances: std::lower_bound is its specification, the first entry not below the target; std::hypot is any function that gives the length of every vector.
- Recovery.RecoveryNode.Tick: counters are unbounded; a child is an arbitrary sequence of answers.
- HpWindow.WindowIsExact: the clock does not run backwards and the window does not grow during a run.
- GimbalSweep.ContinuousStep: float32 fields are reals; the clock difference is exact.
- ExchangeOnce.PublishesExpected: the exchange index and products are unbounded integers; the three amount ports are fixed over a run. std::clamp demands a maximum that is not negative.
- ROS plumbing, parameters, logging, transforms, camera and USB drivers, the extended Kalman filter, Euler angles and other numerics.
- Duplicates and easy members: sp_vision_25/tools/crc.cpp, the PID classes, condition nodes with a single comparison.
