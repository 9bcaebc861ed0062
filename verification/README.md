# Verification of the virtual CAN system

A Dafny model of the embedded CAN simulation and of what its parts guarantee together: the bus
server that relays frames between ECUs, the HSM that protects frames, the ECU with its
intrusion-detection counters and fail-safe, the controller loops, the protected memory with secure
boot, and the number printers and tolerance assertions of the bundled Unity library.

`dafny verify dfyconfig.toml` checks everything.

## How it is organised

| file | contents |
|---|---|
| `Xor.dfy` | XOR folds of byte strings, the accumulator loop |
| `Arithmetic.dfy` | uniqueness of quotient and remainder |
| `Gf2.dfy` | polynomials over GF(2), schoolbook product, division with remainder and its uniqueness |
| `Crc32.dfy` | the bit-serial CRC, its equality with polynomial division, affinity, burst detection |
| `Can.dfy` | the frame as a value and as the struct programs update, the serialized buffer |
| `Hsm.dfy` | key derivation, MAC, protect, verify; interoperation and tamper detection |
| `KeyFold.dfy` | what an ECU's name contributes to its messages |
| `Ids.dfy`, `Ecu.dfy` | wrapping counters, send, receive, histories of calls |
| `Controller.dfy` | the security check and the controller loop |
| `Bus.dfy`, `BusRuns.dfy` | one select round over the two tables; runs of rounds and their traces |
| `EndToEnd.dfy` | ECUs, connections and bus as one system |
| `ProtectedMemory.dfy` | the memory region and histories of calls on it |
| `UnityPrint.dfy`, `UnityWithin.dfy` | number printers, tolerance assertions |

Objects whose operations update fields are classes; each method is proved against a function of the
old state, and the results are lemmas about those functions, over all inputs, histories and runs.
Machine widths are explicit: words are 32-bit vectors, bytes 8-bit vectors, the counters wrap at 2^32,
Unity's numbers are 64-bit subset types (its configuration where long has 64 bits).

The environment appears as parameters: what `select` reports, which descriptors `accept` returns,
what each receive delivers, whether a send succeeds. The assumptions about it are the predicates
`BusRuns.EnvironmentOk` (select reports watched descriptors only, accept returns a descriptor that is
not open) and `EndToEnd.Permitted` (in addition, connections deliver unchanged and in order, senders
set `secured`, use a listed id and a dlc of at most 8, and all keys share one XOR fold).

In a bus trace one `Relayed` event stands for one successful receive together with the list of
sends attempted for it, in order; the server is single-threaded, so nothing comes between them.

## What was found

- Cross-ECU verification depends only on the XOR folds of the derived keys
  (`Hsm.Interoperates`). The wheel ECUs and `brake_controller` have fold 0; `steering_controller` has
  fold 0x0A, so it rejects every wheel frame and goes into fail-safe at the first one
  (`KeyFold.WheelFramesAtControllers`, `EndToEnd.AcceptedIffFoldsAgree`).
- A controller can act if and only if its command id is whitelisted
  (`Controller.CanActIffWhitelisted`). The brake controller tests 0x200, which is not, so it never
  acts (`Controller.BrakeNeverActs`); the documentation and `include/can.h` give 0x300 as the brake
  command, which is the id the steering controller tests.
- Whether a controller acts on a frame does not depend on the frame being secured or on its CRC
  (`Controller.ActsIff`); even the frame that trips fail-safe is acted upon in the same turn if it
  passes the security check (`Controller.TrippingFrameStillActs`). Over any inbox a controller acts on
  at most three frames that are unsecured or fail verification (`Controller.AtMostThreeBadActions`), and
  `Controller.BadFramesThatAct` gives inputs: one unsecured command, or three with a broken checksum.
- The integrity check fails before the first write, because initialisation leaves an all-zero hash
  that no contents have (`ProtectedMemory.IntactIffWritten`). The comments in `pm_init` say that data
  and size are not reset, but the `memset` resets both; the model follows the code.
- `boot_ok` can go stale when a write follows a boot (`ProtectedMemory.StaleBoot`).
  `ProtectedMemory.BootOkTruthfulIff` gives the exact condition over all histories, and
  `ProtectedMemory.BootOkTruthfulUntilWritten` the calls that keep it true.
- The array tolerance check passes at once when both pointers are the same, also in the mode that
  compares every element with the first one. That verdict is right for every content exactly in the
  cases `UnityWithin.SameArrayVerdict` lists; `UnityWithin.SameArrayPasses` is an input where it is not.
  None of the assertion macros of `unity_internals.h` selects that mode for this function, so only a
  direct call gets there.
- `crc32_compute` is the real CRC-32 although its comment calls it a placeholder; the digests called
  HMAC and SHA-256 are single-byte XOR folds and are modelled as such. The CRC-error counter is never
  incremented by the ECU (`Ecu.FailSafeIffTripped`).

## Model

| member | source | states |
|---|---|---|
| Crc32.Compute | src/core/hsm.c:9-19 | the nested loops return the specified CRC of the first `len` bytes |
| Crc32.CrcIsRemainder | src/core/hsm.c:9-19 | for every byte string the CRC is the complement of the unique remainder of (message * x^32, first 32 coefficients complemented) divided by the CRC-32 generator, bits least significant first: the procedure of section 8.1.1.6.2 of ITU-T V.42 |
| Gf2.RemainderUnique | src/core/hsm.c:9-19 | quotient and remainder by a monic divisor are unique, so the previous row determines the CRC |
| Crc32.CheckValue | src/core/hsm.c:9-19 | the nine digits "123456789" have the CRC 0xCBF43926, the published check value of CRC-32 |
| Crc32.RegisterIsBitwise | src/core/hsm.c:12-18 | mixing in a byte and shifting eight times equals feeding its bits one by one |
| Crc32.StepReduces | src/core/hsm.c:15-16 | one masked shift of the register is one step of long division |
| Crc32.CrcAffine | src/core/hsm.c:9-19 | crc(a^b^c) = crc(a)^crc(b)^crc(c) for equal lengths |
| Crc32.BurstDetected | src/core/hsm.c:9-19 | messages that differ only within some 32 consecutive bits, at any offset, have different CRCs |
| Crc32.ClearedByWindow | src/core/hsm.c:12-18 | at most 32 bits clear the register only if they equal what it held |
| Can.CanFrame.SerializeInto | src/core/hsm.c:54-65 | fills the 13-byte buffer with the big-endian id, dlc and min(dlc, 8) payload bytes, by value and by position |
| Can.Serialize | src/core/hsm.c:82-91 | the buffer has 5 + min(dlc, 8) bytes and never more than 13, byte 4 is dlc and the rest the covered payload in order, for any dlc |
| Can.IdIsBigEndian | src/core/hsm.c:57-60 | the first four bytes, weighted 2^24, 2^16, 2^8 and 1, give the id |
| Can.SerializeInjective | src/core/hsm.c:54-65 | two buffers are equal if and only if id, dlc and covered payload are |
| Crc32.ByteBurstDetected | src/core/hsm.c:9-19 | messages that differ only within some four consecutive bytes have different CRCs |
| Hsm.HsmContext.constructor | src/core/hsm.c:31-46 | byte i of the communication key is name[i % len] ^ i |
| Hsm.NameInKey | src/core/hsm.c:37-39 | the key has 32 bytes, and byte i XOR i is name[i % len] |
| Hsm.HsmContext.HmacDummy | src/core/hsm.c:21-29 | the tag is the XOR fold of key and data spread as acc ^ i |
| Hsm.TagIsMac | src/core/hsm.c:21-29 | that tag is the only string of 32 bytes whose first byte is the XOR fold of key and data and whose byte i differs from it by i |
| Hsm.HsmContext.ProtectFrame | src/core/hsm.c:79-97 | sets crc, mac and secured of a frame and nothing else; false for a null frame |
| Hsm.ProtectKeepsTheRest | src/core/hsm.c:79-97 | id, dlc, data and time stamp stay, the checksum is the CRC of the buffer and the mac its tag |
| Hsm.HsmContext.VerifyFrame | src/core/hsm.c:99-127 | true exactly when crc and mac both match; false for a null frame |
| Hsm.HsmContext.VerifyMac | src/core/hsm.c:50-76 | true exactly when the mac matches; false for a null frame |
| Hsm.AcceptsExactly | src/core/hsm.c:50-127 | the MAC check accepts exactly the mac that protecting would write, full verification exactly the frames that protecting leaves alone, whether marked secured or not |
| Hsm.MacAcceptsOneTag | src/core/hsm.c:50-76 | given the covered fields the MAC check accepts exactly one mac |
| Hsm.ChangedMacByteRejected | src/core/hsm.c:50-127 | changing any one byte of an accepted mac makes both checks fail |
| Hsm.Interoperates | src/core/hsm.c:79-127 | a frame protected under one key verifies under another, by either check, if and only if the keys' XOR folds agree |
| Hsm.ProtectIdempotent | src/core/hsm.c:79-127 | protecting twice changes nothing, a protected frame verifies, covered fields are untouched, for every dlc |
| Hsm.VerifyDependsOnCovered | src/core/hsm.c:99-127 | verification depends on the covered fields, crc and mac only, and given the covered fields accepts exactly one crc and mac |
| Hsm.TamperingDetected | src/core/hsm.c:50-76 | under unchanged tags a change passes the MAC check iff the fold is unchanged, and the full check iff the CRC is unchanged as well |
| Hsm.BurstRejected | src/core/hsm.c:99-117 | a change of id or payload within 32 consecutive covered bits, dlc and crc unchanged, is rejected under every key |
| Hsm.ChangedIdRejected | src/core/hsm.c:99-117 | a frame with any other id and everything else kept is rejected under every key |
| Hsm.ChangedPayloadRejected | src/core/hsm.c:99-117 | so is any change of covered payload within four consecutive bytes |
| KeyFold.FoldOfName | src/core/hsm.c:36-41 | the fold of a key is that of the characters visited an odd number of times by i % len for i < 32 |
| KeyFold.VisitsOf | src/core/hsm.c:37-39 | for any number of positions, each character is visited once per full round and once more if the last round reaches it |
| KeyFold.EvenNamesFoldToZero | src/core/hsm.c:36-41 | a name whose length divides 16 gives a key of fold 0 |
| KeyFold.LongNamesFoldTheirTail | src/core/hsm.c:36-41 | a name of 16 to 32 characters contributes exactly its characters from position 32 - len on |
| KeyFold.WheelFramesAtControllers | src/ecu/main_steering_controller.c:8-26 | wheel frames always verify at the brake controller and never at the steering controller |
| Ids.IdsCounters.UpdateOnMacError | src/core/ids.c:7-13 | counts modulo 2^32 and reports fail-safe from 3 on |
| Ids.IdsCounters.UpdateOnCrcError | src/core/ids.c:15-21 | counts modulo 2^32 and reports fail-safe from 5 on |
| Ids.IdsCounters.UpdateOnUnsecured | src/core/ids.c:23-29 | counts modulo 2^32 and reports fail-safe from 1 on |
| Ecu.EcuNode.Init | src/core/ecu.c:7-21 | no ECU when the connection failed, otherwise that descriptor, the first 31 characters of the name, zero counters, no fail-safe and the key of the name |
| Ecu.EcuNode.Send | src/core/ecu.c:23-39 | new state, the frame handed to the network if any, and the caller's frame afterwards |
| Ecu.EcuNode.Receive | src/core/ecu.c:41-64 | new state for every received frame, none for a failed receive |
| Ecu.FailSafeIffTripped | src/core/ecu.c:23-64 | over any history of calls fail-safe holds iff some call carried an unsecured frame or at least three received frames failed verification, and every counter is its count modulo 2^32 |
| Ecu.FailSafeIsForever | src/core/ecu.c:23-24 | fail-safe is never left and nothing is sent from then on |
| Ecu.WireIsDue | src/core/ecu.c:23-39 | what a history hands to the network is, in order, the protected form of each secured frame passed in before anything tripped the ECU |
| Ecu.WireIsProtected | src/core/ecu.c:23-39 | every frame a history hands to the network is secured and verifies under the sender's key |
| Ecu.UnsecuredForwarding | src/core/ecu.c:26-38 | an unsecured frame is forwarded, as it is, iff the ECU is not in fail-safe and its counter is 2^32 - 1 |
| Ecu.UnsecuredForwardingUnreachable | src/core/ecu.c:26-38 | no history leads to such a state: outside fail-safe the unsecured counter is 0 |
| Controller.SecurityCheckFrame | src/core/main_security_checks.c:25-50 | the status in the order null, dlc, id, MAC |
| Controller.CheckFrame | src/core/main_security_checks.c:25-50 | ok exactly for a frame with dlc at most 8, a whitelisted id and a matching MAC; a dlc error for a missing frame or a larger dlc, a spoofing error for an unlisted id of legal dlc, a MAC error for the rest |
| Controller.ChangedMacByteRefused | src/core/main_security_checks.c:43-46 | a frame that passes is refused with a MAC error once any one byte of its mac is changed |
| Controller.RunController | src/ecu/main_brake_controller.c:16-41 | the loop ends in the specified state with the specified actions for any inbox |
| Controller.LastServed | src/ecu/main_brake_controller.c:16-40 | a failed receive changes nothing, a refused frame sets fail-safe, and a passed one is acted upon, by its first payload byte, iff it has the command's id and a payload |
| Controller.SurvivesIff | src/ecu/main_brake_controller.c:16-41 | a fresh controller is still in its loop iff every receive succeeded, every frame was secured, of legal dlc, whitelisted and MAC-valid, and at most 2 failed full verification |
| Controller.ActsOnAcceptedPrefix | src/ecu/main_steering_controller.c:14-31 | it acts on the accepted prefix of its inbox, whole and in order, and stops where a receive fails, the check rejects or fail-safe is set |
| Controller.CanActIffWhitelisted | src/ecu/main_brake_controller.c:33-40 | some inbox makes a controller act iff its command id is on the whitelist |
| Controller.BrakeNeverActs | src/ecu/main_brake_controller.c:33-40 | no inbox makes the brake controller act |
| Controller.ActsIff | src/ecu/main_brake_controller.c:16-40 | over any inbox a fresh controller acts on a frame iff everything before it was admissible with at most two verification failures and the frame is a command that passes the check, secured and CRC-valid or not |
| Controller.TrippingFrameStillActs | src/ecu/main_steering_controller.c:16-30 | after any admissible inbox the receive step trips exactly for an unsecured frame or a third verification failure, and that frame is still acted upon iff it is a command that passes the check |
| Controller.AtMostThreeBadActions | src/ecu/main_steering_controller.c:14-31 | over any inbox at most three unsecured or unverified frames are acted upon |
| Controller.BadFramesThatAct | src/ecu/main_steering_controller.c:14-31 | inputs: an unsecured command acts once and trips, three commands with a broken checksum all act and the third trips |
| Controller.ThreeBadActionsReached | src/ecu/main_steering_controller.c:14-31 | the bound of three is reached |
| Bus.BusServer.WatchSet | src/core/bus.c:61-74 | the watched set is the listeners and clients, and maxfd its maximum |
| Bus.BusServer.ServeRound | src/core/bus.c:82-125 | tables and trace of one round, for any tables and any environment |
| Bus.AdmitEffects | src/core/bus.c:82-100 | a new connection goes to the end of its table, or, when 32 are there, is accepted and closed at once; a failed accept does nothing |
| BusRuns.TablesAfterRound | src/core/bus.c:82-125 | both tables after a round, in order: the monitors with the admitted one at the end, and what the client loop leaves of the clients with the admitted one at their end |
| Bus.BusServer.ServeClients | src/core/bus.c:102-125 | the loop with swap-removal terminates and computes the specified table and events |
| Bus.BusServer.SwapOut | src/core/bus.c:109 | the last client takes the place of the closed one and all others stay in theirs |
| BusRuns.ServedInOrder | src/core/bus.c:102-125 | clients are served front to back, except that after a disconnect the last one is served next, in the place that became free; the table is left in the order of the visits; every frame goes to the monitors last |
| Bus.BusServer.Broadcast | src/core/bus.c:114-123 | the send targets are every other client in table order, then every monitor |
| BusRuns.ExceptCutsOut | src/core/bus.c:115-119 | the other clients are the table with the sender cut out, order kept |
| BusRuns.RunServer | src/core/bus.c:60-126 | tables and trace of any sequence of rounds from the empty tables |
| BusRuns.RoundReceives | src/core/bus.c:102-112 | in a round exactly the ready clients are received from, each once, never one accepted in that round |
| BusRuns.EachReadyClientOnce | src/core/bus.c:102-125 | from any position the swap-removing loop serves every ready remaining client once; a missing frame closes, a present one is relayed unchanged |
| BusRuns.ClientsAfterRound | src/core/bus.c:82-112 | the client table is the old one plus the admitted descriptor minus exactly those whose receive failed |
| BusRuns.ServeKeeps | src/core/bus.c:102-125 | bounds, distinctness and agreement of tables and trace survive the loop |
| BusRuns.ConnectionsConserved | src/core/bus.c:50-112 | between any two rounds of any run both tables hold at most 32, all descriptors and listeners are distinct, and the accepted and not closed descriptors are exactly those in the tables |
| BusRuns.ConservedInsideRounds | src/core/bus.c:82-125 | the same holds inside every round: after each accept and after every turn of the client loop |
| Bus.LoopReachesEnd | src/core/bus.c:102-125 | the turns of the client loop end after one turn per client, with the table and events of the round |
| BusRuns.TotalOrderBroadcast | src/core/bus.c:60-126 | between any two trace positions a connected client is sent the log without its own frames and a monitor the whole log: no loss, duplicate, echo or reordering, descriptor reuse included |
| BusRuns.NothingWhileAbsent | src/core/bus.c:107-112 | nothing is sent to a descriptor that is not connected |
| BusRuns.ReceiversAgree | src/core/bus.c:114-123 | any two receivers see third-party frames in the same order |
| BusRuns.SenderFifo | src/core/bus.c:102-106 | the log holds each sender's frames as delivered, once and in order |
| EndToEnd.NobodyFailsSafe | src/core/ecu.c:23-64 | in every permitted run of the whole system no ECU is in fail-safe, all counters are 0, and every frame an ECU has received or is about to passes verification and security check |
| EndToEnd.EndToEndConservation | src/core/bus.c:114-119 | at every connection what was sent equals what was logged plus what is in flight, and what was consumed plus what is in flight equals what others logged since it joined |
| EndToEnd.WaitingFrameCanTravel | src/core/bus.c:102-119 | whenever a frame waits for the bus some round satisfies every assumption, and it moves exactly that frame to every other connection once |
| EndToEnd.SystemRunsTheBus | src/core/bus.c:60-126 | the system's tables and trace are those of a run of the bus server |
| EndToEnd.AcceptedIffFoldsAgree | src/core/main_security_checks.c:43-46 | a compliant frame passes another ECU's check, and leaves its controller running, iff the key folds agree; otherwise that controller is in fail-safe |
| ProtectedMemory.Memory.constructor | src/core/protected_memory.c:27-42 | everything zero but firmware hash, signature and version, field by field |
| ProtectedMemory.HashIsTag | src/core/protected_memory.c:9-13 | the hash is the tag of the data under no key: its XOR fold, byte i differing from the first by i |
| ProtectedMemory.Memory.SecureBoot | src/core/protected_memory.c:62-88 | records and returns whether the contents hash to the firmware hash |
| ProtectedMemory.Memory.Lock | src/core/protected_memory.c:90-94 | sets locked only |
| ProtectedMemory.Memory.Write | src/core/protected_memory.c:96-108 | rejects null, locked and more than 4096 bytes; otherwise replaces the first bytes, size and hash and keeps the tail |
| ProtectedMemory.Memory.Read | src/core/protected_memory.c:110-117 | copies out exactly the contents and their number and leaves the memory and the rest of the buffer alone; false for a null buffer or a null size |
| ProtectedMemory.Memory.VerifyIntegrity | src/core/protected_memory.c:119-132 | whether the cached hash is the recomputed one; raises the tamper flag if not |
| ProtectedMemory.Memory.FlagTamper | src/core/protected_memory.c:134-137 | raises the tamper flag only |
| ProtectedMemory.IntegrityAndTamper | src/core/protected_memory.c:96-137 | after any history integrity holds iff some write succeeded, the flag is up iff raised by hand or by a check before the first write, the contents are the last successful write, the memory is locked iff some call locked it and the signature counts as valid iff some call booted |
| ProtectedMemory.IntactIffWritten | src/core/protected_memory.c:119-132 | the all-zero hash of a fresh memory matches no contents |
| ProtectedMemory.LockFreezes | src/core/protected_memory.c:62-98 | once locked, contents, size and hash never change, all boots agree, and boot_ok is their answer |
| ProtectedMemory.MatchesWritten | src/core/protected_memory.c:75-83 | after any history the contents match iff the last write, judged from the calls alone, hashes to the firmware hash |
| ProtectedMemory.BootOkIsLastBoot | src/core/protected_memory.c:62-88 | after any history boot_ok is what the last boot met, judged from the calls alone |
| ProtectedMemory.BootOkTruthfulIff | src/core/protected_memory.c:62-108 | after any history boot_ok tells the truth about the contents iff those two agree |
| ProtectedMemory.BootOkTruthfulUntilWritten | src/core/protected_memory.c:62-108 | once booted it tells the truth whatever is called, as long as no call writes successfully |
| ProtectedMemory.BootOkAfterWrite | src/core/protected_memory.c:85-107 | from any state, an allowed write leaves boot_ok truthful iff the new data's match with the firmware hash equals boot_ok |
| ProtectedMemory.StaleBoot | src/core/protected_memory.c:85-107 | a concrete history with boot_ok set on contents that do not match |
| ProtectedMemory.OutOfBandChange | src/core/protected_memory.c:9-13 | a change of the bytes behind the interface is noticed iff it changes the XOR fold of the contents |
| ProtectedMemory.OutOfBandHash | src/core/protected_memory.c:119-129 | a change of the cached hash behind the interface is always noticed |
| ProtectedMemory.SingleByteChange | src/core/protected_memory.c:119-129 | a single changed byte is noticed iff it lies within the contents |
| UnityPrint.LeadingDivisor | unity/unity.c:277-283 | the divisor loop ends at the power of ten of the leading digit, at most 10^19, without overflow |
| UnityPrint.PrintNumberUnsigned | unity/unity.c:275-291 | prints the decimal notation of every 64-bit number |
| UnityPrint.DecimalRoundTrip | unity/unity.c:275-291 | that notation has no leading zero, reads back as the number, and is the only such notation |
| UnityPrint.PrintNumber | unity/unity.c:260-271 | prints every signed 64-bit number, the most negative included |
| UnityPrint.SignedRoundTrip | unity/unity.c:260-271 | the signed notation reads back as the number |
| UnityPrint.SignedNotation | unity/unity.c:260-271 | the signed notation starts with a minus sign iff the number is negative, has no leading zero, zero is not negated, and it is the only such notation of the number |
| UnityPrint.PrintNumberHex | unity/unity.c:294-317 | prints as many hex digits as asked, at most 16, which read back as the number modulo 16^count |
| UnityPrint.NibbleCount | unity/unity.c:297-302 | a count from 0 to 16 is kept, any other means 16 |
| UnityWithin.SignedSubtraction | unity/unity.c:1486-1493 | the wrapping difference of the casts is the true distance for every ordered pair of 64-bit numbers |
| UnityWithin.Unity.AssertIntNumbersWithin | unity/unity.c:1477-1507 | fails iff the true distance exceeds delta, unless already failed or ignored |
| UnityWithin.Unity.AssertUintNumbersWithin | unity/unity.c:1509-1539 | the same for unsigned numbers |
| UnityWithin.Unity.AssertNumbersArrayWithin | unity/unity.c:1542-1703 | the verdict in every case; for distinct arrays of bytes in memory, read with the style's width and sign, it fails iff some pair's true distance exceeds delta, and reports the first such index and the two values |
| UnityWithin.CompareElements | unity/unity.c:1576-1702 | the element loop with its two advancing pointers computes that verdict |
| UnityWithin.LittleEndianDigit | unity/unity.c:1581-1650 | byte j of an element's bytes is the digit of weight 256^j of the number they hold |
| UnityWithin.ElementIsTwosComplement | unity/unity.c:1581-1650 | an element is congruent to the number its bytes hold modulo 256^width and lies in the range of its type: two's complement when signed |
| UnityWithin.LoadAt | unity/unity.c:1581-1650 | a load gives the element's value, sign- or zero-extended |
| UnityWithin.ShownIsElement | unity/unity.c:1677-1682 | masking before printing leaves the element's value |
| UnityWithin.SameArrayVerdict | unity/unity.c:1566-1569 | passing at once for identical pointers is right for every content iff elements are compared in pairs, there is one element, or delta reaches the span of the type |
| UnityWithin.SameArrayPasses | unity/unity.c:1566-1569 | an input on which it passes although an element is beyond delta |

## Left out

- Sockets: bind, listen, connect, send and recv are foreign calls; their results are parameters.
- The failure of select and the shutdown after the bus loop: the run results speak about states inside the loop.
- The limit FD_SETSIZE on descriptor numbers, and select blocking: a round starts with what select reported.
- Partially received frames: a failed receive is an absent frame, and the caller's buffer is not described after it.
- Bus.BusServer.Broadcast: the results of the individual sends are ignored by the server and do not appear; a send is recorded as an attempt.
- EndToEnd.NobodyFailsSafe: monitors only receive and have no node in the system model; ECUs check what they receive as the controllers do.
- Key material other than the communication key: the master and seed keys are written but never read.
- Random numbers, time stamps and seeding of the C library generator.
- Ecu.EcuNode.Init: the empty ECU name is excluded because the key derivation divides by its length; null contexts and ECUs are excluded by the types.
- Logging, sleeping, the monitor's display and the attack generators; attackers are arbitrary frames in an inbox or on the bus.
- The periodic value generators of the wheel, engine and sensor programs, which would only add simple members.
- Real HMAC, SHA-256, signatures and replay protection: the repository does not implement them; no cryptographic strength is claimed.
- UnityWithin.Unity.AssertNumbersArrayWithin: memory is little-endian, as on the targets the repository names; of the failure message only the index and the two values are described.
- Unity's floating-point assertions and printers, its long jumps, mocks and command line.
