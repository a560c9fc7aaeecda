# Verified model of the MCU firmware's protocol code

This project models the parts of the MCU ROM and its runtime library that carry
real logic, and proves what they promise. `dafny verify dfyconfig.toml` checks
all of it.

| file | models |
|---|---|
| `Common.dfy` | machine words, bytes, error codes |
| `MailboxChecksum.dfy` | the mailbox checksum and what it detects |
| `Mailbox.dfy` | one mailbox exchange, its request sent at once or step by step, as an automaton over single register accesses, with its invariant; the register map the response object's offsets are decoded by |
| `Response.dfy` | the move-only response object, its word stream and running checksum, and the `McuResult` that carries it |
| `Driver.dfy` | the `CaliptraSoC` methods, proved to make exactly the automaton's accesses; which offsets of the response object work |
| `Protocol.dfy` | any number of agents and Caliptra interleaving single accesses on one mailbox, for any offsets: exchanges, calls made outside of one, and `finish_mailbox_resp` called on its own |
| `Ownership.dfy` | who owes the release, over every sequence of moves, assignments and destructions |
| `Objects.dfy` | the same sequences carried out on the objects of `Response.dfy`, with one EXECUTE write for every release of the ledger |
| `Crc8.dfy` | CRC-8: bit loop, carry-less-multiply form, polynomial division, burst detection |
| `BootStatus.dfy`, `BootFlow.dfy` | the flow status register, the boot flows with every step free to fail, sequences of resets |
| `AxiUsers.dfy` | configuring, locking and verifying the MCU mailbox AXI users |
| `Otp.dfy`, `I3c.dfy` | the OTP and I3C drivers against devices with arbitrary timing |
| `LibC.dfy` | `memmove`, `memcpy`, `memcmp` on a flat memory |

How the pieces of the mailbox fit together: the registers answer every read
with an arbitrary value (`Response.Registers.answer`), and record a trace. The
exchange automaton (`Mailbox.Step`, `Mailbox.Run`) accepts exactly the traces
of one exchange. `Driver.CaliptraSoC.ExecMailboxReqU32` is proved to produce an
accepted trace, and so is the request half of `RequestStepwise`, so every lemma
about accepted traces is about the driver; the agents of `Protocol` step through
the same automaton. The ledger of `Ownership` is tied to the response and result
classes by `Objects.Run`: on any sequence of operations the real objects
write EXECUTE exactly as often as the ledger records a release.

## Assumptions about the hardware and the platform

- A LOCK read that finds the mailbox free takes it and empties its input;
  clearing EXECUTE frees it; LOCK reads 1 while it is owned; each DATAOUT read
  pops one word; Caliptra changes length and output only while EXECUTE is set.
  Only `Protocol` uses these; `Driver` and `Response` assume nothing.
- `CaliptraMailboxResponse` has DATAOUT at 0x00 and EXECUTE at 0x04 of the base
  address it is given (romtime/include/romtime/soc_manager.hpp:113-114), and is
  given the mailbox's own (romtime/src/soc_manager.cpp:284), where `CaliptraSoC`
  has LOCK at 0x00, CMD at 0x04, DATAOUT at 0x10 and EXECUTE at 0x18 (lines
  199-205 of the header). The offsets are a parameter of everything that depends
  on them: `Mailbox.SHIPPED` are the ones of the class, `Mailbox.MATCHING` those
  of the manager. An access where the manager has no register does nothing to the
  mailbox.
- `size_t` is 32 bits. Request and response buffers are smaller than the
  address space (`4 * count < 2^32`); the length Caliptra reports is any 32-bit
  value, and the wrap-around of the word count is modelled.
- Destroying a response leaves its `released_` as it is. What is destroyed with a
  result's value is a `std::optional` around it. Whether its engaged flag survives too
  is a parameter of every assignment (`kept` in `Ownership.Op.AssignCarrier` and
  `ResponseResult.MoveAssign`): reading it afterwards is undefined in C++, and
  libstdc++, which the emulator build names
  (platforms/emulator/rom/src/libc_stubs.cpp:98), clears it.
- A set lock bit freezes the AXI user register it belongs to. The OTP
  controller stores what a command that does not fail writes. I3C levels are
  read modulo 32, as the driver masks them.

## Where the code and its promises part

- With the offsets as they are, no exchange that is answered with data gives the
  mailbox back: the destructor of the response writes the command register, and
  every word after the first is read from LOCK (`Mailbox.ShippedExchange`,
  `Protocol.SuccessAbandonsAsShipped`). It is given back by every such exchange
  exactly if EXECUTE is at 0x18, and the words come out of DATAOUT exactly if that
  is at 0x10 (`Driver.GivenBackIff`, `Driver.AllPoppedIff`, `Driver.MatchingIff`).
- A timeout, a status without a verdict and a too small response buffer all
  leave EXECUTE set and the lock taken at any offsets. Exchanges and calls outside of
  one never get it back (`Protocol.AbandonedForever`); only `finish_mailbox_resp`
  called on its own does, exactly if it ends with the command failed, with no data,
  or with a response object that has EXECUTE at 0x18 (`Protocol.RecoveredIff`,
  `Protocol.FinishRecoversIff`).
- Called during another agent's exchange, `finish_mailbox_resp` frees the mailbox
  under it, and a third agent can take it (`Protocol.LoneFinishSteals`). Every agent in
  an exchange owns the mailbox throughout exactly if that never happens
  (`Protocol.HoldersOwnIff`).
- The error `MBOX_INVALID_RESPONSE` is returned both when the mailbox was given back
  and when it was not, exactly for the calls that are sent and have room for a
  response (`Driver.InvalidResponseIsAmbiguousIff`).
- The re-checks of LOCK in `set_command`, `write_data` and `execute_command` tell that
  the mailbox is taken, not by whom: a word written by an agent that has not locked
  it is mixed into another's request (`Protocol.StrayWordIsMixedIn`), and a check on a
  free mailbox takes it (`Protocol.StrayCallTakesLock`). Unless the mailbox was freed
  under its owner, a request is whole exactly if
  no other agent wrote a word since the mailbox was taken and no other value of command
  or length since the owner wrote its own (`Protocol.RequestIsWholeIff`); an answer
  belongs to the reader's request exactly if no other agent executed a command since
  (`Protocol.AnswersAreNotMixedIff`). Among exchanges alone, all of that always holds.
- `exec_mailbox_req_u32` never checks the response's checksum: any words at all
  can be delivered with Ok (`Driver.AnyResponseIsDelivered`).
- `reset()` is documented to reset the iteration, but DATAOUT is not rewound; a
  second pass sees the same words exactly when no word after the first was taken
  (`Response.TakeResetDrain`, `Response.ResetRewindsIff`).
- A `McuResult` whose `value() &&` is called but not taken loses the release of
  the mailbox (`Ownership.LostByIff`, `Ownership.DroppedValueIsLost`).
- A `McuResult` that is assigned an error destroys its value, and `value() &&`
  called on it after that still hands out what is there. Where destroying the value
  kept its flags, the mailbox is released twice (`Ownership.RevivedIff`,
  `Ownership.RevivedValueIsReleasedTwice`); where it did not, no value comes back
  (`Ownership.NothingIsRevived`). Each response
  is released exactly once exactly when it was lost as often as brought back.
- The I3C levels are masked to five bits, so a multiple of 32 received bytes reads
  as an empty FIFO. Without anything more arriving, a read gets the number of
  waiting bytes modulo 32 and then waits in vain (`I3c.NothingArrives`).
- An OTP write whose second wait misses reports a timeout, and has stored its word
  all the same (`Otp.Driver.WriteWord`).
- `memcpy` called on overlapping blocks is `memmove` exactly when the source
  block repeats itself at their distance (`LibC.MemcpyIsMemmoveIff`).

## Model

| member | source | states |
|---|---|---|
| MailboxChecksum.CalcChecksum | romtime/src/soc_manager.cpp:335-350 | the 32-bit accumulation and negation make command bytes, payload bytes and checksum add up to zero modulo 2^32 |
| MailboxChecksum.EqualChecksumsIffEqualSums | romtime/src/soc_manager.cpp:335-350 | up to the mailbox size nothing wraps: two checksums agree exactly when the byte sums agree as integers |
| MailboxChecksum.PayloadByteChangeIsSeen | romtime/src/soc_manager.cpp:344-347 | changing one payload byte changes the checksum, for every payload length |
| MailboxChecksum.CommandByteChangeIsSeen | romtime/src/soc_manager.cpp:338-342 | changing one command byte changes the checksum |
| MailboxChecksum.ExchangedBytesAreNotSeen | romtime/src/soc_manager.cpp:344-347 | exchanging two payload bytes never changes it |
| Mailbox.RunIsConsistent | romtime/src/soc_manager.cpp:181-333 | at every point of every exchange: what was written so far, in order and once; which statuses led there; which words were delivered from which values read, and which of them DATAOUT was popped for |
| Mailbox.ExecuteLeftAssertedIff | romtime/src/soc_manager.cpp:237-286 | once executed, at any offsets of the response object, EXECUTE stays set exactly when the response buffer is too small, all polls were busy, the final status has none of failure, complete and data-ready, or it was data-ready and the object has EXECUTE elsewhere |
| Mailbox.ResultAndRelease | romtime/src/soc_manager.cpp:250-286 | a timeout leaves EXECUTE set, a failed command clears it, and success clears it exactly when the offsets agree |
| Mailbox.ResultByStatus | romtime/src/soc_manager.cpp:240-286 | by the status values read: 400000 times bit 0 set is MBOX_TIMEOUT with EXECUTE left set; else the last one decides, read after a poll with bit 0 clear: bit 1 is MBOX_CMD_FAILED with EXECUTE cleared, bit 2 without it no data with EXECUTE cleared, bit 3 without both success, and none of them MBOX_INVALID_RESPONSE with EXECUTE left set |
| Mailbox.ResultWithoutExecute | romtime/src/soc_manager.cpp:197-234 | an exchange that never executed ends in MBOX_LOCK_FAILED, or without any access in MBOX_INVALID_RESPONSE exactly for more than 0x40000 bytes or an empty one-shot request |
| Mailbox.WordsCoverBytes | romtime/src/soc_manager.cpp:78-81 | a length up to 2^32 - 4 has as many words as its bytes need, a greater one none |
| Mailbox.SuccessfulExchange | romtime/src/soc_manager.cpp:288-333 | a successful exchange wrote command, length in bytes, all words in order, EXECUTE 1 and a 0 to whatever is at the response's EXECUTE offset and nothing else, read the length once, delivered as many words as that many bytes need, masked, and popped all of them or only the first |
| Mailbox.ShippedExchange | romtime/include/romtime/soc_manager.hpp:112-114 | at the offsets of the class every successful exchange leaves EXECUTE set, writes CMD 0 instead, and pops one word |
| Response.CaliptraMailboxResponse.Next | romtime/src/soc_manager.cpp:77-111 | nothing exactly if the words so far cover the length (or it is above 2^32 - 4); else one word of the stream: unmasked first word without a read, later words masked to their valid bytes and summed |
| Response.CaliptraMailboxResponse.VerifyChecksum | romtime/src/soc_manager.cpp:68-75 | Ok exactly when running sum and first word add up to zero modulo 2^32 |
| Response.CaliptraMailboxResponse.Move | romtime/src/soc_manager.cpp:38-46 | the new object takes position, sum and duty to release; the source has no duty left |
| Response.CaliptraMailboxResponse.MoveAssign | romtime/src/soc_manager.cpp:48-66 | releases what the target held, then moves; self-assignment does nothing |
| Response.CaliptraMailboxResponse.Destroy | romtime/src/soc_manager.cpp:29-36 | writes 0 to its EXECUTE exactly when the object still has the duty |
| Response.CaliptraMailboxResponse.Reset | romtime/src/soc_manager.cpp:113-116 | position and sum start over, DATAOUT does not |
| Response.StreamedChecksumIsChecksum | romtime/src/soc_manager.cpp:68-111 | after the whole stream, the verdict is Ok exactly when word 0 is the checksum of bytes 4 up to the length, whatever junk follows them in the last word |
| Response.DeliveredWordIsByteSlice | romtime/src/soc_manager.cpp:93-103 | a masked word is the zero-extended slice of response bytes it stands for |
| Response.DeliveredBytes | romtime/src/soc_manager.cpp:77-111 | byte for byte, the words delivered for a length are that many bytes of the response, and zeros after them in the last word unless it is the first |
| Response.Drain | romtime/src/soc_manager.cpp:38-46 | moving the response to new objects at any points of the iteration changes neither words nor sum and never releases |
| Response.DrainAndVerify | romtime/src/soc_manager.cpp:68-111 | next driven to exhaustion with moves in between, then verified: as many words as the length's bytes need, which words, and the verdict, for every 32-bit length, including lengths whose word count wraps to 0 |
| Response.TakeResetDrain | romtime/src/soc_manager.cpp:77-116 | n words taken with next, then reset, then all words: the first list is the start of the response, the second is read from where DATAOUT stood |
| Response.ResetRewindsIff | romtime/src/soc_manager.cpp:113-116 | for all responses that second list is the response again exactly when at most one word had been taken |
| Response.ResponseResult.OkValue | include/common/error.hpp:116-122 | the response goes through a temporary into the storage with its position and duty |
| Response.ResponseResult.Move | include/common/error.hpp:88-94 | the value moves to the new result and the old one has none |
| Response.ResponseResult.MoveAssign | include/common/error.hpp:97-110 | the old value is destroyed, releasing if it has to, then the other's is moved in, an empty optional included; without one the destroyed value's bytes stay if its flags are kept, and bytes where there was no value always; self-assignment does nothing |
| Response.ResponseResult.TakeValue | include/common/error.hpp:168-171 | the taken object has the position and duty that the bytes say, the storage has neither and will not be destroyed |
| Response.ResponseResult.UnwrapOr | include/common/error.hpp:150-156 | the value if there is one, and then the fallback is destroyed with its duty, else the fallback's duty moves on |
| Response.ResponseResult.Destroy | include/common/error.hpp:81-85 | destroys the value only if there is one |
| Driver.CaliptraSoC.LockMailbox | romtime/src/soc_manager.cpp:162-168 | one LOCK read, Ok exactly when it returns 0 |
| Driver.CaliptraSoC.SetCommand | romtime/src/soc_manager.cpp:170-179 | command and length written only after LOCK reads 1 |
| Driver.CaliptraSoC.InitiateRequest | romtime/src/soc_manager.cpp:223-234 | the accesses of lock and command setup, none at all for an oversized request |
| Driver.CaliptraSoC.StartMailboxReq | romtime/src/soc_manager.cpp:197-221 | the full access trace of a one-shot request and its result |
| Driver.OneShotWrites | romtime/src/soc_manager.cpp:204-220 | the one-shot request writes everything or nothing |
| Driver.OneShotByLocks | romtime/src/soc_manager.cpp:162-221 | by bit 0 of the two LOCK values: the first set, or the second clear, ends the request in MBOX_LOCK_FAILED with nothing written; else CMD, DLEN, the words in order and EXECUTE 1 are written, and it is Ok |
| Driver.OneShotRuns | romtime/src/soc_manager.cpp:197-221 | the one-shot request is the request half of an exchange |
| Driver.CaliptraSoC.RequestStepwise | romtime/src/soc_manager.cpp:181-234 | initiate, write each word, execute: its writes are always a prefix of the one-shot request's, and all of them exactly when every LOCK read after the first still saw the lock taken; with the length of its words it is the request half of an exchange |
| Driver.CaliptraSoC.WaitWhileBusy | romtime/src/soc_manager.cpp:249-256 | polls until bit 0 of a status is clear, and gives up exactly when 400000 had it set |
| Driver.CaliptraSoC.FinishMailboxResp | romtime/src/soc_manager.cpp:236-286 | by the values it reads: the accesses, one by one, and the result for bit 1 of the status after the polls, bit 2, bit 3 and none of them; buffers under 8 bytes make no access; all of that is the automaton from the poll loop on |
| Driver.CaliptraSoC.ExecMailboxReqU32 | romtime/src/soc_manager.cpp:288-333 | the trace is one exchange of the request with its first word replaced by the checksum, the result is that exchange's, and the response buffer holds its first words and is otherwise untouched, also when both buffers are the same |
| Driver.SentRequestSumsToZero | romtime/src/soc_manager.cpp:299-305 | only the header word is replaced, by the value that makes command, payload and header add up to zero |
| Driver.InvalidResponseIsAmbiguousIff | romtime/src/soc_manager.cpp:240-279 | at any offsets a call can end with MBOX_INVALID_RESPONSE both with EXECUTE set and with EXECUTE cleared exactly if it is sent, at once or step by step, and has room for a header; of the others, one of the wrong size never leaves it set and one without room always does |
| Driver.AnyResponseIsDelivered | romtime/src/soc_manager.cpp:323-332 | every length and every list of words can be delivered with Ok: the checksum plays no part |
| Driver.GivenBackIff | romtime/include/romtime/soc_manager.hpp:112-114 | all successful exchanges give the mailbox back exactly when the response's EXECUTE offset is 0x18 |
| Driver.AllPoppedIff | romtime/include/romtime/soc_manager.hpp:112-114 | all successful exchanges take every word out of DATAOUT exactly when the response's DATAOUT offset is 0x10 |
| Driver.MatchingIff | romtime/include/romtime/soc_manager.hpp:112-114 | all successful exchanges do both exactly at the manager's own offsets |
| Protocol.HoldersOwnIff | romtime/src/soc_manager.cpp:162-286 | for every run of any number of agents, in exchanges, in calls outside of one and finishing on their own, at any offsets: each agent between a successful lock and its release owns the mailbox at every point exactly if no finish on its own cleared EXECUTE while there was such an agent |
| Protocol.MutualExclusion | romtime/src/soc_manager.cpp:162-221 | then at most one agent is between a successful lock and its release |
| Protocol.LockIsNeverLost | romtime/src/soc_manager.cpp:171-194 | then none of the re-checks of LOCK, before the command, a word or EXECUTE, fails for the agent that took it |
| Protocol.RequestIsWholeIff | romtime/src/soc_manager.cpp:170-195 | for every run, at the EXECUTE of an exchange: Caliptra finds its words exactly if none was dropped and no other agent wrote one since it took the mailbox, its command exactly if no other agent wrote a different one since, likewise its length; words are only dropped when a finish on its own freed the mailbox and another agent took it (where others then wrote just as many, the values decide) |
| Protocol.AnswersAreNotMixedIff | romtime/src/soc_manager.cpp:249-285 | for every run, an agent that polls or drains does so while its own request is the last one executed, exactly if no other agent executed a command since |
| Protocol.RequestsAreNeverMixed | romtime/src/soc_manager.cpp:170-234 | in runs of exchanges alone, whatever Caliptra finds at EXECUTE is one agent's command, length and words, whole and in order |
| Protocol.AnswersAreNotMixed | romtime/src/soc_manager.cpp:249-285 | and an agent that polls or drains does so while its own whole request is the last one executed |
| Protocol.EndingAbandonsIff | romtime/src/soc_manager.cpp:250-285 | the access that ends an exchange leaves the agent owning the mailbox exactly in the three cut-short endings and in a successful one whose offsets disagree, and frees it exactly with no data and in a successful one whose offsets agree |
| Protocol.SuccessAbandonsAsShipped | romtime/include/romtime/soc_manager.hpp:112-114 | at the offsets of the class every successful exchange abandons the mailbox |
| Protocol.RecoveredIff | romtime/include/romtime/soc_manager.hpp:169-170 | in every run, an owned mailbox without an exchange stays so exactly as long as no finish on its own clears EXECUTE |
| Protocol.AbandonedForever | romtime/src/soc_manager.cpp:162-195 | until then no agent ever holds it again, and no command is executed but by calls outside an exchange |
| Protocol.FinishReleasesIff | romtime/src/soc_manager.cpp:249-286 | as long as no other agent's finish on its own clears EXECUTE, one has cleared it exactly when it found the command failed, when it ended with no data, or when its response object went with EXECUTE at 0x18 |
| Protocol.FinishRecoversIff | romtime/src/soc_manager.cpp:249-286 | so such a call recovers an abandoned mailbox exactly if it ends in one of these ways |
| Protocol.AbandonmentHappens | romtime/src/soc_manager.cpp:240-248 | abandoned mailboxes are reachable: one call without room for a response leaves one |
| Protocol.AbandonmentIsRecovered | romtime/src/soc_manager.cpp:271-274 | and another agent's finish that finds the command complete frees it |
| Protocol.LoneFinishSteals | romtime/src/soc_manager.cpp:271-274 | the same call during an exchange frees the mailbox under it, and two agents hold it at once |
| Protocol.StrayWordIsMixedIn | romtime/src/soc_manager.cpp:181-187 | a word written without having locked passes the LOCK check and becomes part of another agent's request |
| Protocol.StrayCallTakesLock | romtime/src/soc_manager.cpp:162-195 | on a free mailbox the LOCK check of any call takes the lock, and no exchange holds it |
| Ownership.ApplyKeepsBalance | include/common/error.hpp:81-171 | every construction, move, assignment, destruction, value() and unwrap, also of a destroyed value, keeps each duty to release in one place: released once, carried by one object, or lost |
| Ownership.ReleasesAndOwners | romtime/src/soc_manager.cpp:29-66 | after every sequence of operations, the releases of a response, its live owners and its lost duties are one more than the times it was brought back |
| Ownership.ReleasesInNumbers | romtime/src/soc_manager.cpp:29-66 | all releases, live owners and lost duties are the responses constructed and those brought back |
| Ownership.ReleasedOnceIff | romtime/src/soc_manager.cpp:29-66 | when all objects are gone, a response was released exactly once exactly when it was lost as often as brought back |
| Ownership.ReleasedExactlyOnce | romtime/src/soc_manager.cpp:29-66 | when all objects are gone and no destroyed value was brought back, each response was released exactly once exactly when nothing was lost |
| Ownership.ReleasedOnceUnlessRevived | include/common/error.hpp:97-110 | when nothing was lost, exactly when no destroyed value was brought back |
| Ownership.CheckedProgram | include/common/error.hpp:168-171 | so a program that drops no value and calls value() only on results that have one releases each response exactly once |
| Ownership.ReleasedTwiceOnlyIfRevived | include/common/error.hpp:97-110 | at no time was a response released twice that was not brought back |
| Ownership.LostByIff | include/common/error.hpp:81-110 | a sequence of operations loses a release exactly when some value() was called on a result with a duty, nothing took it since, and the result is destroyed or built over |
| Ownership.LostIff | include/common/error.hpp:81-110 | one operation loses a release exactly when it destroys or builds over a carrier whose value was asked for and not taken |
| Ownership.RevivedIff | include/common/error.hpp:97-110 | a sequence brings a destroyed value back exactly when an error was assigned to a result with a duty, the destroyed value's flags were kept, its bytes were left alone since, and value() takes them |
| Ownership.NothingIsRevived | include/common/error.hpp:97-110 | where no destroyed value's flags are kept, none is brought back |
| Ownership.NothingIsLost | include/common/error.hpp:168-171 | without such a dropped value nothing is ever lost or stranded |
| Ownership.DroppedValueIsLost | include/common/error.hpp:168-171 | with one, five operations lose a release for good |
| Ownership.RevivedValueIsReleasedTwice | include/common/error.hpp:97-110 | where they are kept, seven operations release one response twice |
| Objects.LedgerAgrees | include/common/error.hpp:81-171 | on what objects show, their flags and whether they will release, the ledger does what the objects do |
| Objects.Run | romtime/src/soc_manager.cpp:29-66 | every sequence of operations carried out on real responses and results writes 0 to EXECUTE exactly once for every release of the ledger, and leaves the objects as the ledger has them |
| Crc8.PlatformCrc8Host | romtime/src/platform_host.cpp:20-33 | the loop runs the shift register eight times over crc xor data |
| Crc8.FoldIsRemainder | romtime/src/platform_host.cpp:20-33 | over byte strings of any length and any seed, the CRC is r exactly when r is the remainder of seed * x^8n + message * x^8 modulo x^8 + x^2 + x + 1 over GF(2) |
| Crc8.CheckValue | romtime/src/platform_host.cpp:20-33 | the CRC of the ASCII digits 1 to 9 is 0xF4 |
| Crc8.DivisionIsUnique | romtime/src/platform_host.cpp:21-22 | quotient and remainder of that division are unique |
| Crc8.RiscvMatchesHost | romtime/src/platform_riscv32.cpp:22-41 | two carry-less products give the same byte as eight conditional shifts |
| Crc8.FoldRiscvMatchesFold | romtime/src/platform_riscv32.cpp:22-41 | so do their folds over every byte string |
| Crc8.AppendedCrcCancels | romtime/src/platform_host.cpp:20-33 | a message followed by its CRC leaves zero |
| Crc8.CollisionIffMultiple | romtime/src/platform_host.cpp:20-33 | two messages of one length share a CRC exactly when their difference is a multiple of the generator |
| Crc8.UndetectedChangeIsWide | romtime/src/platform_host.cpp:20-33 | an undetected change touches two bits at least eight positions apart |
| Crc8.BurstIsDetected | romtime/src/platform_host.cpp:20-33 | messages that differ only within eight consecutive bits never share a CRC |
| BootStatus.StatusPacking | romtime/src/mci.cpp:58-86 | after any sequence of calls the high half is the OR of all milestones, the low half the last checkpoint |
| BootStatus.RegisterHalves | romtime/src/mci.cpp:58-86 | milestones are the upper 16 bits, the checkpoint the lower 16 |
| BootStatus.CodesAreDistinct | rom/include/rom/boot_status.hpp:35-102 | the checkpoint codes of the flows are distinct |
| BootFlow.Rom.ColdBoot | rom/src/cold_boot.cpp:23-94 | the calls made are those of the path up to the first failing step, with its error; Ok exactly if OTP comes up, the owner is determined, one of the first 100000 polls is not busy, and each of the six other steps is granted, and the three of a pending transfer |
| BootFlow.Rom.TransferOwnership | rom/src/device_ownership_transfer.cpp:22-68 | the same for the ownership transfer, with its branch on the ownership state |
| BootFlow.Rom.WaitReady | rom/src/cold_boot.cpp:138-148 | TIMEOUT exactly when the first 100000 polls are all busy |
| BootFlow.Rom.WarmBoot | rom/src/warm_boot.cpp:22-51 | the warm reset flow's calls up to its first failing step |
| BootFlow.Rom.FwBoot | rom/src/fw_boot.cpp:22-41 | the firmware boot flow's calls up to its first failing step |
| BootFlow.Rom.FwHitlessUpdate | rom/src/fw_hitless_update.cpp:22-50 | the hitless update flow's calls up to its first failing step |
| BootFlow.Rom.RomStart | rom/src/rom.cpp:397-481 | the milestone, then one flow: by the three reset bits, which flow's start is noted (none for two bits or more), and its completion exactly if all that flow asks for is granted |
| BootFlow.ColdBootIsDiagnosable | rom/src/cold_boot.cpp:23-94 | for every combination of outcomes the code left in the register tells which step failed, or that none did |
| BootFlow.ColdBootReachesIff | rom/src/cold_boot.cpp:23-94 | each checkpoint, milestone and step of a cold boot is reached exactly when a number of steps, given for each, of a list of nine or twelve in their order, all succeed |
| BootFlow.ColdBootOkIff | rom/src/cold_boot.cpp:81-94 | Ok, the completion milestone and the last checkpoint each exactly when every step is granted, firmware loading included |
| BootFlow.ColdBootFailsWith | rom/src/cold_boot.cpp:23-94 | else the result is the error of the first failing step, TIMEOUT for the wait |
| BootFlow.ColdBootLeavesCode | rom/include/rom/boot_status.hpp:35-102 | the number in the low half of the register for each failing step, and for none |
| BootFlow.ColdBootSetsMilestones | rom/include/rom/boot_status.hpp:104-116 | each milestone bit of the register is set after a cold boot exactly if it was before or the steps it reports succeeded |
| BootFlow.WarmBootReachesIff | rom/src/warm_boot.cpp:22-51 | each item of the warm reset flow is reached, and the flow is Ok, exactly when the steps before it are granted, in this order |
| BootFlow.FwBootReachesIff | rom/src/fw_boot.cpp:22-41 | likewise for the firmware boot flow |
| BootFlow.HitlessReachesIff | rom/src/fw_hitless_update.cpp:22-50 | likewise for the hitless update flow |
| BootFlow.DispatchedByBits | rom/src/rom.cpp:444-472 | a reset notes the start of cold, warm, firmware boot or hitless update flow exactly for bits 0, 1, 2 and 4, and each completion exactly if that flow's steps all succeed |
| BootFlow.ColdBootEmitsPrefix | rom/src/cold_boot.cpp:23-94 | the emitted checkpoints are a prefix of the path's, and all of them exactly on Ok |
| BootFlow.FusesBurnedIff | rom/src/device_ownership_transfer.cpp:43-61 | fuses are burned at most once, and exactly when a transfer is pending and all steps before, key derivation included, succeeded |
| BootFlow.MilestonesStayOrdered | rom/src/rom.cpp:408-472 | over every sequence of resets of any kind and outcome: complete implies fuses written implies boot go implies ROM started |
| BootFlow.MilestonesOrderedFromZero | rom/src/rom.cpp:408-472 | in particular from a cleared status register |
| BootFlow.ResetReasonByBits | romtime/src/mci.cpp:127-144 | the reset reason is decided by the value of the three bits, every combination of two or more being invalid |
| BootFlow.MilestonesAreSticky | romtime/src/mci.cpp:66-86 | no checkpoint, milestone or step clears a milestone |
| AxiUsers.SlotEffect | romtime/src/mci.cpp:252-282 | writing and locking a slot keeps a frozen user, sets an unfrozen one, locks, and touches no other slot of either mailbox |
| AxiUsers.ConfigureMcuMboxAxiUsers | rom/src/rom.cpp:262-292 | the configuration returned and what became of every slot of both mailboxes |
| AxiUsers.VerifyMcuMboxAxiUsers | rom/src/rom.cpp:343-391 | Ok exactly when every slot matches its expected user and lock |
| AxiUsers.ConfigureThenVerify | rom/src/rom.cpp:262-391 | for five slots of both mailboxes, by register offset: verification after configuration is Ok exactly when every slot's lock bit was clear at boot, or the slot is configured and held the wanted user already |
| Otp.Driver.WaitForIdle | rom/src/otp.cpp:179-186 | Ok after the first poll that finds the controller idle, TIMEOUT exactly when none of as many polls as the budget does, or of 2^32 for a budget of 0 |
| Otp.CommandNeverBegins | rom/src/otp.cpp:69-92 | TIMEOUT without a command when none of 10000 polls finds the controller idle |
| Otp.CommandNeverEnds | rom/src/otp.cpp:69-92 | TIMEOUT with the command issued when it is idle in time, but not within the 10000 polls after that |
| Otp.CommandEnds | rom/src/otp.cpp:69-129 | idle within 10000 polls both times, a read or write never times out: it is Ok exactly if its command does not fail, which one more STATUS read tells |
| Otp.UntilIsFirst | rom/src/otp.cpp:179-186 | the polls counted before the end of a wait are those before the first that finds the controller idle |
| Otp.Driver.ReadWord | rom/src/otp.cpp:69-92 | result, poll count and command count: TIMEOUT exactly if the first or the second wait misses, else OTP_READ_ERROR exactly if the command fails, else the cell's value |
| Otp.Driver.WriteWord | rom/src/otp.cpp:105-129 | likewise for a write, whose cell is stored exactly when the command was issued and did not fail, also if the second wait misses |
| Otp.Driver.ReadWords | rom/src/otp.cpp:94-103 | result, words done, polls and commands are those of a transfer that stops at the first failing word; on failure the prefix read so far is in the buffer and the rest is untouched |
| Otp.Driver.WriteWords | rom/src/otp.cpp:131-139 | likewise; the words before the failing one are stored, and that one exactly when its command was issued and did not fail |
| Otp.TransferGetsTo | rom/src/otp.cpp:94-139 | a transfer passes word i exactly when it got there, both waits end and the command does not fail |
| Otp.TransferStopsAtFirstFailure | rom/src/otp.cpp:94-139 | a transfer that fails ends with its first failing word, and with that word's error |
| Otp.FaultsDecide | rom/src/otp.cpp:94-139 | when no wait misses, exactly the words before the first failing command are transferred, and the result is its error, or Ok if there is none |
| Otp.StoredWordIsFound | rom/src/otp.cpp:131-139 | every stored word is found at its address, also where the range wraps around |
| Otp.OtherCellsAreKept | rom/src/otp.cpp:131-139 | no cell outside the range is written |
| Otp.Driver.WriteThenRead | rom/src/otp.cpp:94-139 | the result is the write's error or else the read's; with Ok what was written is read back; when no wait misses it is Ok exactly when no command fails |
| I3c.Driver.Write | rom/src/i3c.cpp:73-88 | against any bus: writes as many bytes as a writer that pushes after every level read that shows room, stopping with the last one of the data, so all of them exactly if it would; bytes sent followed by the FIFO are the old ones followed by the data written; the FIFO's length is that writer's, and never passes 16 if it was not above |
| I3c.PushesIff | rom/src/i3c.cpp:77-83 | such a writer gets no byte into a FIFO within the limit exactly as long as it is full and the bus takes nothing |
| I3c.NothingTaken | rom/src/i3c.cpp:77-83 | when the bus takes nothing it fills the FIFO to the next 16 above a multiple of 32 bytes, where the masked level stops it |
| I3c.AllTakenInTime | rom/src/i3c.cpp:73-88 | n bytes are written within d * n level reads if the bus takes one before at least one out of every d in a row |
| I3c.Driver.WaitForSpace | rom/src/i3c.cpp:77-80 | ends exactly when such a writer would push within the allowed level reads, and at the first such read |
| I3c.Driver.WaitForData | rom/src/i3c.cpp:94-97 | ends exactly when at one of the allowed level reads the old FIFO and what arrived by then are not a multiple of 32 bytes, and at the first such read |
| I3c.Driver.Read | rom/src/i3c.cpp:90-105 | moves as many bytes as a reader pops that takes one after every level read that is not a multiple of 32, stopping with the last one of the buffer; the buffer's filled part followed by the FIFO is the old FIFO followed by what arrived; the rest of the buffer is untouched |
| I3c.PopsIff | rom/src/i3c.cpp:94-100 | such a reader gets a byte exactly when some level read shows one |
| I3c.NothingArrives | rom/src/i3c.cpp:94-111 | with nothing arriving it gets the waiting bytes modulo 32, so none at all out of a multiple of 32 |
| I3c.AllArriveInTime | rom/src/i3c.cpp:90-105 | n bytes are read within (d + 1) * n level reads if out of every d in a row one finds that not a multiple of 32 bytes arrived |
| LibC.Memmove | platforms/emulator/rom/src/libc_stubs.cpp:41-57 | for all offsets and lengths the destination becomes the old source and nothing else changes |
| LibC.Memcpy | platforms/emulator/rom/src/libc_stubs.cpp:31-38 | every destination byte is the source's, or where the copy overwrites its own source that of the first bytes over and over, and no other byte changes |
| LibC.ForwardCopyAt | platforms/emulator/rom/src/libc_stubs.cpp:31-38 | the same of the copy as a function, for all offsets and lengths |
| LibC.MemcpyIsMemmoveIff | platforms/emulator/rom/src/libc_stubs.cpp:31-57 | memcpy does what memmove does exactly when dest is not above src or the source block repeats at their distance |
| LibC.MemcpyIsMemmoveForAllIff | platforms/emulator/rom/src/libc_stubs.cpp:31-57 | for all contents: exactly when dest is not above src or the blocks are disjoint |
| LibC.Memcmp | platforms/emulator/rom/src/libc_stubs.cpp:60-71 | the sign of the first difference, 0 exactly for equal blocks |
| LibC.BelowIsTotal | platforms/emulator/rom/src/libc_stubs.cpp:60-71 | any two blocks of one length compare |
| LibC.BelowIsTransitive | platforms/emulator/rom/src/libc_stubs.cpp:60-71 | the order is transitive |

## Left out

- I3c.Driver.Write: the unbounded spin of the source is given a number of level reads as a parameter, because on a bus that never drains it does not end; a transfer that still spins is covered for every such number.
- I3c.Driver.Read: the same for the wait for received bytes.
- BootFlow.Rom.ColdBoot: the stub steps are outcomes of a plan chosen in advance; I3C initialisation, which always succeeds, and the OTP wait count as one step.
- Exchanges given up midway, without an error, are agents that take no more steps: they hold the mailbox.
- `value() &` of a result, through which a response could be moved out or another moved in while the result still has a value: nothing in the repository calls it on a response.
- `McuResult<T>` is modelled for the optional response it carries; `unwrap` on an error, which loops for ever, is an operation that cannot be performed. In `Ownership` the optional always has a response when the result is Ok.
- `Soc` register accessors, `set_axi_users` and `populate_fuses`: straight register writes.
- `verify_prod_debug_unlock_pk_hash`: it compares a register count of 12 with 96 and always fails.
- OTP partition locking, error decoding and I3C control registers: single register accesses and case tables.
- Recovery flows: not reached from `rom_start`; I3C recovery has no protocol yet.
- Lifecycle decoding, fuse layout, bit flags, flash helpers, hex printing: finite tables or holders.
- `memset` and `strlen`: one-line loops.
- Runtime kernel capsules, components and drivers: stubs.
- Raw addressing, CSR reads, cycle counter, startup code, UART, panic and exception loops: hardware and I/O.
