# Verified models of Trusted Firmware-M

Dafny models of the stateful cores of Trusted Firmware-M, with proofs of what holds in every run.
`dafny verify dfyconfig.toml` checks all of it.

| files | what they model |
|---|---|
| `SpmModel`, `SpmRuns`, `SpmTheorems`, `SpmProgress`, `SpmReturn`, `SpmMachine` | the library-model Secure Partition Manager: secure function calls, deprivileged interrupts, boot |
| `MailboxModel`, `MailboxProofs`, `MailboxProgress`, `MailboxStats`, `MailboxOverflow`, `MailboxQueue` | the non-secure mailbox between two cores |
| `BootTlv`, `BootArea` | the TLV area from boot loader to runtime firmware: writer and filtering reader |
| `NsClients` | the non-secure client contexts and their free list |
| `MemUtils` | word-wise memory copy and fill |
| `LogFormat` | the buffered log formatter |
| `KeySizes`, `KeyPairSizes` | the size bounds of exported RSA keys |
| `BitMasks`, `Options`, `Sequences`, `Words` | shared vocabulary |

Each stateful core comes in two layers. Functions on values describe what an operation does; lemmas about them
carry the theorems over whole runs. Classes and methods update fields and arrays in place, as the C code does,
and are proved against those functions. The partition database, the mailbox queue, the client list, the shared area
and the buffers are arrays; context stacks, vectors, signal masks and the memory of callers are sequences that are
reassigned.

## What is assumed

Secure Partition Manager:
- Partition identifiers are unique; only the non-secure partition lacks the application-root-of-trust flag; the
  identifiers 0 and 1 are also the indices of the first two partitions, as the boot code uses them.
- A request names an existing partition, and an interrupt an existing handler.
- A service leaves through the function return, a handler through the interrupt return.
- Calls and interrupt entries are single steps: they run in handler mode or with interrupts disabled. The
  function return in thread mode does not; `SpmReturn.ReturnInRuns` shows that interrupts inside it, whatever their
  handlers do, do not change what it does. Such a return is to a secure partition. The return to non-secure code, the
  only one that writes memory, is made by the SVC handler (`secure_fw/core/tfm_core_svcalls_func.c:56`).
- Non-secure code may write its memory, and a running service the out lengths of the copy, at any time.
- Memory checks are arbitrary predicates that grant only what exists. Memory of vectors is addressed in words.
- Every partition initialisation succeeds.

Mailbox: one step per critical section or unprotected access; one reply interrupt at a time; the secure core takes
a pending slot, later writes its reply, then sets its replied bit. The polling mode has one slot, the multi-client mode
2 to 32.

Boot data: the area has 4 to 65535 bytes, and the reader's buffer lies outside it. Where an addition would write past
the area, the model stops.

Client contexts: context management and client identification are built in, for at least two slots, with one
TZ_InitContextSystem_S straight after configuration; the lemmas `NsClients.InitAgain...` state what a second one does.

Log: arguments match the tags of the format string. Unsupported tags are part of the model.

Keys: lengths are those of DER, sections 8.1.3 and 8.3 of ITU-T X.690, for the types of appendices A.1.1 and A.1.2
of RFC 8017.

## Where code, comments and expectations differ

- `bl2/src/boot_record.c` promises one entry per type. A minor number above 12 bits passes the duplicate check and is then
  truncated, so types can repeat: `BootTlv.OutOfRangeTypeRepeats`, and the exact condition in
  `BootTlv.AddKeepsTypesDistinct`.
- `interface/include/psa/crypto_sizes.h:515` counts seven half-size integers in a key pair. There are five; the bound holds.
- The bound on public keys states no limit of its own; it holds up to 524191 bits, a little less than the limit stated
  for a single INTEGER (524279 bits). The bound on key pairs has slack enough to reach 29826087 bits.
- `bl2/src/boot_record.c` measures an entry by its length in 16 bits. An item of 65532 bytes or more is accepted by its
  truncated length and copied past the area: `BootTlv.OversizedItemIsAccepted`, and the exact condition in
  `BootTlv.AcceptedAdditionFits`.
- The tenths of the slot average are wrong exactly when the remainder times ten overflows 32 bits:
  `MailboxStats.AverageIsExact`, and a run in `MailboxOverflow.AverageGoesWrong`.
- Resetting the mailbox statistics while a task is between its two counters lets the used slots exceed N for each
  transmission: `MailboxStats.ResetWhileCounting`, and the exact condition in `MailboxStats.ResetKeepsBound`.
- A second TZ_InitContextSystem_S neither resets free_index nor the active client, and forgets all clients but the
  default one: `NsClients.InitAgainLosesActive`, and the exact conditions in `NsClients.InitAgain` and
  `NsClients.InitAgainKeepsClients`.
- Between the last two state changes of a function return no partition is active. An interrupt there leaves the wrong
  running index, which the very next statement corrects: `SpmReturn.LeaveFindsNoneActive`, `SpmReturn.ReturnIsAtomic`.

## Model

| member | source | states |
|---|---|---|
| SpmRuns.LeaveUndoesEnter | secure_fw/core/tfm_func_api.c:416-472 | Leaving an interrupt undoes entering it on the whole control state, also when the handler is the interrupted partition or is itself on the call chain. |
| SpmRuns.CallStep | secure_fw/core/tfm_func_api.c:627-670 | A successful request keeps the whole invariant, with the new activation recorded. |
| SpmRuns.ReturnDefined | secure_fw/core/tfm_func_api.c:480-504 | A function return succeeds exactly while a call is in progress; from non-secure code it halts. |
| SpmRuns.ReturnStep | secure_fw/core/tfm_func_api.c:504-536 | A successful return keeps the whole invariant, with the last activation dropped. |
| SpmRuns.IrqReturnRestores | secure_fw/core/tfm_func_api.c:541-576 | With an interrupt in progress, the interrupt return succeeds and yields the control state saved when it was taken, and changes nothing else. |
| SpmRuns.StepKeepsInv | secure_fw/core/tfm_func_api.c:314-576 | Every step (call, return, interrupt, interrupt return, writes by the service or by non-secure code, end of interrupt) keeps the invariant. |
| SpmRuns.StepDefined | secure_fw/core/tfm_func_api.c:314-576 | From a state that satisfies the invariant every permitted step is defined. |
| SpmRuns.RunKeepsInv | secure_fw/core/tfm_func_api.c:314-576 | The invariant holds in every configuration of every run from boot on. |
| SpmTheorems.MatchedReturnRestores | secure_fw/core/tfm_func_api.c:541-576 | In every run, for every interrupt and its matching return, the control state afterwards equals the one just before: states, callers, identities, context stacks, vectors, lock and running index. |
| SpmTheorems.FramesBelow | secure_fw/spm/spm_api_func.c:98-158 | Between an interrupt and its matching return the frames below it stay, one frame more for each interrupt still in progress. |
| SpmTheorems.ContextStacksAreProjections | secure_fw/spm/spm_api_func.c:98-158 | In every run each partition's context stack is the projection of the one global stack of interrupts in progress. |
| SpmTheorems.ContextStackSizeIsEnough | docs/user_guides/tfm_secure_irq_handling.rst:137-171 | The documented maximum size of a context stack is never exceeded while a partition handles at most as many interrupts at a time as it has sources. |
| SpmTheorems.InterruptedAtMostOnceMore | secure_fw/spm/tfm_spm_db.inc.template:88-101 | Why the size is enough: a partition is interrupted at most once more than it is handling interrupts. |
| SpmTheorems.OnePartitionActive | secure_fw/spm/spm_api_func.c:175-183 | In every run exactly one partition is RUNNING or HANDLING_IRQ, the one running_partition_idx names; it handles an interrupt exactly while one is in progress. |
| SpmTheorems.NeverUndefined | secure_fw/core/tfm_func_api.c:314-576 | No permitted step of any run indexes outside the database, a context stack or caller memory. |
| SpmTheorems.UnwindReachesBottom | secure_fw/core/tfm_func_api.c:541-576 | Returning from all interrupts in progress, one after the other, reaches the control state beneath them. |
| SpmTheorems.CallerChain | secure_fw/core/tfm_func_api.c:254-275 | In every run, with interrupts unwound, following caller_partition_idx from the running partition meets distinct partitions, all blocked after the first, ends at the non-secure one, and the lock is the number of links, below the partition count. |
| SpmTheorems.LockCountsCalls | secure_fw/core/tfm_func_api.c:590-606 | In every run, interrupts or not, the lock equals the number of calls in progress. |
| SpmTheorems.NsEntryOnlyUnlocked | secure_fw/core/tfm_func_api.c:590-606 | Non-secure code enters only with the lock at zero, no call or interrupt in progress, into an idle service, with a negative identity. |
| SpmTheorems.IdentityIsKept | secure_fw/core/tfm_func_api.c:378-387 | In every run each partition on the chain holds the client identity captured at its activation: negative exactly if non-secure code called it directly, else the identifier of its caller. |
| SpmTheorems.CallerClientIdIsTrue | secure_fw/core/tfm_func_api.c:775-815 | A service acting on a call, with a result pointer that it may write, and no other code, is told its caller, and it is the identity captured at its activation. |
| SpmTheorems.NsCallCopiesVectors | secure_fw/core/tfm_func_api.c:392-406 | After a non-secure call the service's copy holds exactly the vectors the caller named in memory, which is unchanged. |
| SpmTheorems.CopyHoldsVectors | secure_fw/core/tfm_func_api.c:206-227 | In every reachable configuration with a call in progress the copy holds that call's vectors in all but the out lengths. |
| SpmTheorems.CopyIsKept | secure_fw/core/tfm_func_api.c:392-406 | Nested calls, their returns and interrupts leave the copy of the outermost call alone; only the service changes out lengths. |
| SpmTheorems.CopyOverRun | secure_fw/core/tfm_func_api.c:392-406 | Over any part of a run with a call in progress the copy changes exactly by the out lengths that services set. |
| SpmTheorems.MemOverRun | secure_fw/core/tfm_func_api.c:521-531 | Over any part of a run with a call in progress memory changes exactly by the writes of code other than the partition manager. |
| SpmTheorems.MemIsKept | secure_fw/core/tfm_func_api.c:521-531 | The partition manager writes memory only when it returns to non-secure code. |
| SpmTheorems.NestedReturn | secure_fw/core/tfm_func_api.c:506-536 | A return to a secure partition changes the database only. |
| SpmTheorems.WriteBackEffect | secure_fw/core/tfm_func_api.c:527-530 | The write-back sets the length words of the first out_len out vectors to the copy's lengths and changes no other word. |
| SpmTheorems.ReturnToNonSecure | secure_fw/core/tfm_func_api.c:506-531 | When control returns to non-secure code, memory differs only in those length words, the stack pointer and exception-return value are those saved by the call, and the copy is cleared. |
| SpmTheorems.NsCallRoundTrip | secure_fw/core/tfm_func_api.c:506-531 | Over a whole run from a non-secure call to its return, whatever nested calls and interrupts came in between: control resumes with the stack pointer and exception-return value of that call; memory changes by the writes of other code in between, exactly, and at the return in the out lengths the call named, to those handed over at the call as the services updated them. |
| SpmReturn.ReturnIsAtomic | secure_fw/core/tfm_func_api.c:504-536 | Any number of interrupts before, between and after the database updates of a return, nested in any way and with handlers that write memory, set out lengths and end interrupts: the database is as after the return alone, the rest of the state as after the handlers alone. |
| SpmReturn.ReturnInRuns | secure_fw/core/tfm_func_api.c:672-706 | In every run a return under any such interrupts ends in the state after the step it is taken to be, with the effects of the handlers; a return to a secure partition, the one in thread mode, has no effect of its own on memory, copy and masks. |
| SpmReturn.TakeAllRestores | secure_fw/core/tfm_func_api.c:416-576 | While one partition is active, any forest of interrupts, all returned from, has the effects of its handlers and restores the whole control state. |
| SpmReturn.TakeAllFindsNoneActive | secure_fw/core/tfm_func_api.c:533-536 | In the instant when no partition is active, any such interrupts have the effects of their handlers and change the running index at most. |
| SpmReturn.LeaveFindsNoneActive | secure_fw/core/tfm_func_api.c:533-536 | In that instant one interrupt leaves its handler named as running and restores all else. |
| SpmReturn.ReturnOpsAreReturn | secure_fw/core/tfm_func_api.c:504-536 | The updates taken one by one are the control part of the return. |
| SpmProgress.CallSucceedsExactly | secure_fw/core/tfm_func_api.c:254-275 | In every run a request succeeds if and only if its vectors are accepted, no interrupt handler makes it, it is non-secure exactly when no call is in progress and then has a negative identity, and its target is a service not already on the call chain. |
| SpmProgress.InterruptTakenExactly | secure_fw/core/tfm_func_api.c:285-296 | In every run, whatever is in progress, an interrupt is taken if and only if its handler is not the closed core partition. |
| SpmProgress.EverythingCompletes | secure_fw/core/tfm_func_api.c:474-576 | In every run, as many returns as there are interrupts and calls in progress succeed one after the other and leave the database as after boot. |
| SpmMachine.IdxOfIsInverse | secure_fw/spm/spm_api.c:30-45 | Looking up a partition's identifier gives back its index. |
| SpmMachine.Spm.GetPartitionIdx | secure_fw/spm/spm_api.c:30-45 | The scan returns the first index with the identifier, or the invalid index. |
| SpmMachine.Spm.SetPartitionState | secure_fw/spm/spm_api_func.c:175-183 | Sets the state, and the running index for an active one, and nothing else. |
| SpmMachine.Spm.StorePartitionContext | secure_fw/spm/spm_api_func.c:160-167 | Stores the stack pointer and exception-return value of one partition. |
| SpmMachine.Spm.PushInterruptedCtx | secure_fw/spm/spm_api_func.c:98-109 | Pushes the partition's state. |
| SpmMachine.Spm.PopInterruptedCtx | secure_fw/spm/spm_api_func.c:111-124 | Pops a state and sets it. |
| SpmMachine.Spm.PushHandlerCtx | secure_fw/spm/spm_api_func.c:126-139 | Pushes state and caller. |
| SpmMachine.Spm.PopHandlerCtx | secure_fw/spm/spm_api_func.c:141-158 | Pops both and sets them. |
| SpmMachine.Spm.CheckSfnParameters | secure_fw/core/tfm_func_api.c:128-204 | Accepts exactly the vectors that satisfy the declarative check. |
| SpmMachine.Spm.ReadVectors | secure_fw/spm/spm_api_func.c:206-233 | Reads the caller's vectors, leaving unused entries as they were. |
| SpmMachine.Spm.SetIovecArgs | secure_fw/spm/spm_api_func.c:206-233 | The partition holds the caller's vectors and where its out vectors are. |
| SpmMachine.Spm.CleanupContext | secure_fw/spm/spm_api_func.c:240-258 | The partition holds no caller, no vectors and no out vectors. |
| SpmMachine.Spm.CopyVectors | secure_fw/core/tfm_func_api.c:206-227 | The copy gets the vectors in use and keeps its other entries. |
| SpmMachine.Spm.ClearedVectors | secure_fw/core/tfm_func_api.c:229-243 | Clears every vector and both counts. |
| SpmMachine.Spm.Start | secure_fw/core/tfm_func_api.c:314-414 | The in-place start agrees with the model in every outcome, errors included. |
| SpmMachine.Spm.SfnRequest | secure_fw/core/tfm_func_api.c:627-708 | The request, with the thread-mode check before it, agrees with the model in every outcome. |
| SpmMachine.Spm.HandBackVectors | secure_fw/core/tfm_func_api.c:521-531 | Writes the out lengths back, one after the other, and clears the copy. |
| SpmMachine.Spm.ReturnFromPartition | secure_fw/core/tfm_func_api.c:474-539 | The in-place return agrees with the model in every outcome and names the place where execution resumes. |
| SpmMachine.Spm.StartIrq | secure_fw/core/tfm_func_api.c:416-472 | The in-place interrupt entry agrees with the model in every outcome. |
| SpmMachine.Spm.ReturnFromIrq | secure_fw/core/tfm_func_api.c:541-576 | The in-place interrupt return agrees with the model in every outcome. |
| SpmMachine.Spm.DbInit | secure_fw/spm/spm_api.c:47-79 | Every partition starts uninitialised, without caller, with an empty context stack. |
| SpmMachine.Spm.PartitionInit | secure_fw/spm/spm_api_func.c:46-96 | The boot loop, calling each initialisation function through the request and return above, leaves every partition but the core's idle, none with a caller, and the lock at zero. |
| SpmMachine.Spm.Boot | secure_fw/core/tfm_core.c:211-249 | The boot sequence establishes the state every run starts from. |
| MailboxProofs.StepKeepsInv | interface/src/tfm_ns_mailbox.c:188-339 | Every step of a client task, of the reply interrupt or of the secure core keeps the mailbox invariant. |
| MailboxProofs.RunKeepsInv | interface/src/tfm_ns_mailbox.c:188-425 | The invariant holds after every interleaving, for any number of tasks, in the polling and in the multi-client mode. |
| MailboxProofs.EveryCallGetsItsReply | interface/src/tfm_ns_mailbox.c:239-274 | A call returns the reply the secure core wrote for its own message: since it was pended, exactly one request was finished on its slot, namely this one. |
| MailboxProofs.MessageIsKept | interface/src/tfm_ns_mailbox.c:215-233 | From pending until the reply is read the slot holds the call's message, and the secure core works on no other message there. |
| MailboxProofs.EachSlotOnePhase | interface/src/tfm_ns_mailbox.c:90-115 | In every interleaving each slot is in exactly one phase, the masks are disjoint and within the slots, and a slot is non-empty exactly if one call in progress owns it, and only one does. |
| MailboxProofs.NeverQueueFull | interface/src/tfm_multi_core_api.c:14-45 | Calls in progress and the semaphore count together never exceed the slots, so no call is refused for want of a slot, even if semaphore releases fail. |
| MailboxProofs.CallKeepsMessage | interface/src/tfm_multi_core_psa_ns_api.c:161-200 | A call keeps its message through every step of any party. |
| MailboxProofs.InitialInv | interface/src/tfm_ns_mailbox.c:356-387 | Initialisation establishes the invariant. |
| MailboxProgress.StepWorks | interface/src/tfm_ns_mailbox.c:188-339 | Every step but the start of a call and an idle interrupt reduces the work ahead. |
| MailboxProgress.CallContinues | interface/src/tfm_ns_mailbox.c:390-425 | For every call in progress some party can act: no deadlock in either mode. |
| MailboxProgress.EveryCallCompletes | interface/src/tfm_multi_core_psa_ns_api.c:161-200 | From any point of any run, if no call starts any more, only boundedly many steps are possible in whatever order, and when no party can act all calls have completed. |
| MailboxQueue.SendIsItsSteps | interface/src/tfm_ns_mailbox.c:188-237 | The transmission as one function is its steps in the interleaving, taken without interruption. |
| MailboxQueue.ReceiveIsItsSteps | interface/src/tfm_ns_mailbox.c:239-274 | The reception as one function is its steps, taken without interruption. |
| MailboxQueue.NsMailbox.Init | interface/src/tfm_ns_mailbox.c:356-387 | All slots empty, nothing pending or replied, counters at zero; the mask of empty slots is 2^N - 1, without overflow for up to 32 slots. |
| MailboxQueue.NsMailbox.AcquireEmptySlot | interface/src/tfm_ns_mailbox.c:90-115 | Takes the lowest empty slot, or reports that there is none. |
| MailboxQueue.NsMailbox.FirstSet | interface/src/tfm_ns_mailbox.c:104-108 | The scan finds the lowest set bit. |
| MailboxQueue.NsMailbox.CountEmpty | interface/src/tfm_ns_mailbox.c:156-162 | The loop counts the set bits. |
| MailboxQueue.NsMailbox.TxStatsUpdate | interface/src/tfm_ns_mailbox.c:139-167 | Counts the transmission and adds the slots in use, with 32-bit wrap-around. |
| MailboxQueue.NsMailbox.TxStatsInit | interface/src/tfm_ns_mailbox.c:125-137 | Clears both counters, and nothing else. |
| MailboxQueue.NsMailbox.TxClientReq | interface/src/tfm_ns_mailbox.c:188-237 | Acquire, fill, own, pend; the handle names the slot; every refusal leaves the queue alone. |
| MailboxQueue.NsMailbox.IsMsgReplied | interface/src/tfm_ns_mailbox.c:276-304 | True exactly if the slot that the low byte of the handle minus one names has its replied bit. |
| MailboxQueue.NsMailbox.RxClientReply | interface/src/tfm_ns_mailbox.c:239-274 | Returns the slot's reply and makes the slot empty, unowned and unmarked. |
| MailboxQueue.NsMailbox.FetchReplyMsgIsr | interface/src/tfm_ns_mailbox.c:306-339 | Turns the first replied slot into a woken one and names it. |
| MailboxQueue.NsMailbox.StatsAvgSlot | interface/src/tfm_ns_mailbox.c:169-185 | The two bytes of the average in 32-bit arithmetic; nothing before initialisation. |
| MailboxStats.UsedSlotsBounded | interface/src/tfm_ns_mailbox.c:139-167 | In every interleaving without counter wrap the used slots counted are at most N per transmission, if no task was between its two counters at the last reset; in particular without resets. |
| MailboxStats.AverageIsExact | interface/src/tfm_ns_mailbox.c:169-185 | The whole part fits its byte, the tenths are at most nine, and they give the average rounded down to tenths exactly if the multiplication by ten does not overflow. |
| MailboxOverflow.AverageGoesWrong | interface/src/tfm_ns_mailbox.c:182-184 | A run in which the tenths of the average are wrong. |
| MailboxOverflow.OneMoreTransmission | interface/src/tfm_multi_core_psa_ns_api.c:161-200 | For every number of calls within the counters there is a run in which so many calls completed and the next one is between its two counters. |
| MailboxOverflow.TenthsOverflow | interface/src/tfm_ns_mailbox.c:182-184 | The counters of that run, and why the 32-bit product goes wrong for them. |
| MailboxStats.ResetKeepsBound | interface/src/tfm_ns_mailbox.c:125-137 | In every run, with any resets before: after a reset of the statistics the bound holds until the next one, whatever the parties do, if and only if at the reset no task is between its two counters. |
| MailboxStats.ResetWhileCounting | interface/src/tfm_ns_mailbox.c:125-137 | A run in which it does not: a reset while the first call is counted. |
| MailboxStats.CountsItsOwnSlot | interface/src/tfm_ns_mailbox.c:152-165 | In every run a task that counts the used slots counts at least its own. |
| BootTlv.TypeFieldsRoundTrip | bl2/include/tfm_boot_status.h:142-150 | Major and minor number read back exactly if they fit their bits. |
| BootTlv.IasFieldsRoundTrip | bl2/include/tfm_boot_status.h:152-159 | Software module and claim read back from an attestation type. |
| BootTlv.DecodeEncodedArea | bl2/include/tfm_boot_status.h:25-61 | Decoding any memory that starts with an encoded area gives back its entries. |
| BootTlv.HeaderReadsBack | bl2/include/tfm_boot_status.h:164-177 | The header holds the magic number and the total length. |
| BootTlv.EntryAt | bl2/include/tfm_boot_status.h:181-193 | Each entry of an encoded area stands where the lengths before it say. |
| BootTlv.FoundIffSameType | bl2/src/boot_record.c:325-332 | The duplicate scan finds an entry exactly if the type is in range and present. |
| BootTlv.AddKeepsTypesDistinct | bl2/src/boot_record.c:316-335 | An accepted addition keeps types distinct exactly if the type is in range or its truncation is new. |
| BootTlv.OutOfRangeTypeRepeats | bl2/src/boot_record.c:328-335 | An input for which it does not: a minor number above 12 bits. |
| BootTlv.AcceptedAdditionFits | bl2/src/boot_record.c:334-346 | An addition that the checks accept fits the area exactly if its entry length fits 16 bits. |
| BootTlv.OversizedItemIsAccepted | bl2/src/boot_record.c:334-352 | An input for which it does not fit: 65532 bytes, measured as 0, pass the checks of a 1024-byte area. |
| BootTlv.AdditionsAreProper | bl2/src/boot_record.c:316-346 | After any sequence of additions in bounds the accepted entries have distinct types and fit the area with its header. |
| BootTlv.FittingIsLongest | secure_fw/core/tfm_boot_data.c:219-237 | The prefix the reader copies is the longest that fits, and all of it exactly if the header and all selected entries fit. |
| BootTlv.SelectMembers | secure_fw/core/tfm_boot_data.c:224-224 | The reader selects exactly the entries of the requested major number. |
| BootTlv.BufferAccessIsContainment | secure_fw/core/tfm_func_api.c:742-773 | The buffer check grants exactly aligned non-empty ranges inside the partition's data, wrap-around included. |
| BootArea.SharedArea.Initialise | bl2/src/boot_record.c:306-314 | Writes the header of an empty area. |
| BootArea.SharedArea.Scan | bl2/src/boot_record.c:316-332 | The offset-advancing scan terminates and finds a duplicate exactly if there is one. |
| BootArea.SharedArea.Append | bl2/src/boot_record.c:348-354 | The bytes written and the new total make the area the encoding of the entries with one more at the end. |
| BootArea.SharedArea.AddData | bl2/src/boot_record.c:293-357 | Status and decoded entries are those of the abstract addition; a refused one leaves every byte as it was. |
| BootArea.AddAllData | bl2/src/boot_record.c:293-357 | After a sequence of additions the area in memory encodes the entries of the abstract additions. |
| BootArea.BootDataReader.Validate | secure_fw/core/tfm_boot_data.c:121-134 | Data written by the boot loader is recognised. |
| BootArea.BootDataReader.CopyIfSelected | secure_fw/core/tfm_boot_data.c:219-236 | One round of the copy loop: copies the entry if it is selected and fits, fails exactly if it does not fit, writes nothing beyond. |
| BootArea.BootDataReader.CopySelected | secure_fw/core/tfm_boot_data.c:204-241 | Succeeds exactly if header and selected entries fit; the buffer then holds their encoding, otherwise that of the longest prefix; no byte after it changes. |
| BootArea.BootDataReader.Get | secure_fw/core/tfm_boot_data.c:136-242 | Each refused check leaves the buffer alone, otherwise as above. |
| BootArea.AddThenRead | secure_fw/core/tfm_boot_data.c:197-241 | Round trip on memory: after any additions the area decodes to the accepted entries in order, with distinct types if those asked for are in range; the reader then succeeds exactly if header and entries of the major number fit, and its buffer decodes to these entries, all of them or the longest prefix that fits. |
| NsClients.InitialInv | secure_fw/core/tfm_nspm_func.c:86-110 | Configuration followed by initialisation threads all slots but the first. |
| NsClients.CallKeepsInv | secure_fw/core/tfm_nspm_func.c:86-299 | Every operation, from handler or thread mode, keeps the free-list invariant. |
| NsClients.FreeListIsExact | secure_fw/core/tfm_nspm_func.c:118-145 | In every run the walk from free_index meets each slot with the invalid identifier exactly once, nothing else, and ends. |
| NsClients.AllocIsFresh | secure_fw/core/tfm_nspm_func.c:118-145 | Allocation fails exactly if no slot is free, else returns a free slot, gives it a negative identifier and changes no other slot. |
| NsClients.TableIsSafe | secure_fw/core/tfm_nspm_func.c:152-188 | In every run identifiers are negative or invalid, indices stay in the table, operations on an unused slot (a second free among them) are refused without effect. |
| NsClients.FreeThenAlloc | secure_fw/core/tfm_nspm_func.c:118-188 | A freed slot is the next one allocated; then the free list and every other slot are as before. |
| NsClients.InitAgain | secure_fw/core/tfm_nspm_func.c:86-110 | Initialising again keeps the table consistent if and only if the head of the free list is one of two and the default slot is the active one. |
| NsClients.InitAgainForgets | secure_fw/core/tfm_nspm_func.c:97-104 | It takes the identifier from every slot in use but the default one, and from no other. |
| NsClients.InitAgainKeepsClients | secure_fw/core/tfm_nspm_func.c:97-104 | It keeps every client exactly if no slot but the default one is in use. |
| NsClients.InitAgainLosesActive | secure_fw/core/tfm_nspm_func.c:86-110 | A run after which the free list would fit and the active client is lost: it stays active with the invalid identifier. |
| NsClients.ClientTable.GetNextNsClientId | secure_fw/core/tfm_nspm_func.c:38-46 | The generator with 32-bit wrap-around. |
| NsClients.ClientTable.ConfigureClients | secure_fw/core/tfm_nspm_func.c:49-62 | Every slot but the first invalid, the first given an identifier. |
| NsClients.ClientTable.InitContextSystem | secure_fw/core/tfm_nspm_func.c:86-110 | The loop threads the list through the slots; refused in thread mode. |
| NsClients.ClientTable.AllocModuleContext | secure_fw/core/tfm_nspm_func.c:118-145 | The in-place operation is the model's. |
| NsClients.ClientTable.FreeModuleContext | secure_fw/core/tfm_nspm_func.c:152-188 | The in-place operation is the model's. |
| NsClients.ClientTable.LoadContext | secure_fw/core/tfm_nspm_func.c:195-225 | The in-place operation is the model's. |
| NsClients.ClientTable.StoreContext | secure_fw/core/tfm_nspm_func.c:232-267 | The in-place operation is the model's. |
| NsClients.ClientTable.RegisterClientId | secure_fw/core/tfm_nspm_func.c:271-299 | The in-place operation is the model's. |
| MemUtils.MemCpy | secure_fw/core/tfm_core_utils.c:18-54 | The word-wise copy equals the byte-by-byte copy for every length and every two distinct addresses, overlapping or not. |
| MemUtils.WordStep | secure_fw/core/tfm_core_utils.c:37-40 | Four bytes at once equal four single bytes, as addresses of equal alignment are a word apart. |
| MemUtils.CopyMoves | secure_fw/core/tfm_core_utils.c:18-54 | The copy moves the bytes and changes nothing outside the destination when the ranges are disjoint or the destination is lower. |
| MemUtils.CopyMovesExactly | secure_fw/core/tfm_core_utils.c:18-54 | It moves the bytes for all contents if and only if the destination does not start inside the source. |
| MemUtils.CopyOverlaps | secure_fw/core/tfm_core_utils.c:18-54 | What it does in that case: the bytes before the destination repeat. |
| MemUtils.QuadPattern | secure_fw/core/tfm_core_utils.c:62-63 | Each byte of the word pattern is the fill byte. |
| MemUtils.MemSet | secure_fw/core/tfm_core_utils.c:56-80 | Fills exactly the bytes asked for with the low byte of the value. |
| LogFormat.NumbersRoundTrip | interface/src/log/tfm_log_raw.c:51-96 | Signed, unsigned and hexadecimal text of every 32-bit value parses back to it. |
| LogFormat.WordDigitsFit | interface/src/log/tfm_log_raw.c:51-96 | No 32-bit value needs more than ten digits, within the digit buffer. |
| LogFormat.Printer.Put | interface/src/log/tfm_log_raw.c:27-36 | One character more, whatever the fill of the buffer. |
| LogFormat.Printer.PutString | interface/src/log/tfm_log_raw.c:38-49 | One string more. |
| LogFormat.Printer.FillDigits | interface/src/log/tfm_log_raw.c:65-68 | The digit buffer holds the digits in reverse. |
| LogFormat.Printer.PutNumber | interface/src/log/tfm_log_raw.c:51-96 | The text of the number more. |
| LogFormat.Printer.PutSigned | interface/src/log/tfm_log_raw.c:51-76 | The sign and the text of the magnitude, the most negative value included. |
| LogFormat.Printer.PutNext | interface/src/log/tfm_log_raw.c:105-152 | One round of the format loop advances and produces the next piece of the reference rendering. |
| LogFormat.Printer.Print | interface/src/log/tfm_log_raw.c:98-159 | The chunks sent, concatenated, are the reference rendering; none is empty or longer than the buffer. |
| KeySizes.ContentIsMinimal | interface/include/psa/crypto_sizes.h:470-479 | The model of DER content octets: they denote the number, as a non-negative one, without a superfluous octet. |
| KeySizes.ContentLen | interface/include/psa/crypto_sizes.h:475-479 | Their number is the bit length divided by eight, plus one. |
| KeySizes.IntegerBoundIsExact | interface/include/psa/crypto_sizes.h:470-481 | The bound on INTEGER holds for all numbers of a bit length if and only if that is at most 2^19 - 9. |
| KeySizes.PublicKeyFits | interface/include/psa/crypto_sizes.h:483-495 | Every public key whose content fits two length octets fits its bound. |
| KeySizes.PublicKeyBoundIsExact | interface/include/psa/crypto_sizes.h:483-495 | The bound on public keys holds for all keys of a size if and only if that is at most 524191 bits. |
| KeySizes.PrimesAreHalf | interface/include/psa/crypto_sizes.h:497-499 | Primes that differ by at most a bit in size have at most half the bits of the modulus, plus one. |
| KeySizes.KeyPairFits | interface/include/psa/crypto_sizes.h:497-520 | Every key pair under the stated assumptions whose content fits two length octets fits its bound. |
| KeyPairSizes.KeyPairBoundIsExact | interface/include/psa/crypto_sizes.h:497-520 | The bound on key pairs holds for all sizes up to a number of bits if and only if that is at most 29826087. |
| KeyPairSizes.KeyPairFitsUpTo | interface/include/psa/crypto_sizes.h:497-520 | Up to there every key pair fits, whatever the number of its length octets. |
| KeyPairSizes.LargeKeyPair | interface/include/psa/crypto_sizes.h:519-520 | A key pair of 29826088 bits that exceeds the bound. |

## Left out

- SpmMachine.Spm.Start: nothing is promised about the state in which the system halts.
- SpmMachine.Spm.SfnRequest: nothing is promised about the state in which the system halts, such as the closed caller.
- SpmMachine.Spm.PartitionInit: the path of a failing initialisation, which passes an identifier where an index is expected.
- SpmMachine.Spm.ReturnFromPartition: only where the model's return is defined, which `SpmTheorems.NeverUndefined` shows of every run.
- MailboxQueue.NsMailbox.TxClientReq: uninterrupted; the interleaved form is in `MailboxModel`.
- MailboxQueue.NsMailbox.StatsAvgSlot: requires a transmission; with none counted the C code divides by zero.
- MailboxQueue.NsMailbox.IsMsgReplied: requires an index below 32, beyond which the C code shifts too far.
- MailboxQueue.NsMailbox.RxClientReply: requires the index of a slot, beyond which the C code reads past the queue.
- BootArea.SharedArea.AddData: an item that is accepted though it does not fit is not written; what memory then holds is not modelled.
- BootArea.AddThenRead: for at least one addition, since only the first one initialises the area, and for items whose entry length fits 16 bits.
- KeyPairSizes.LargeKeyPair: its factors are not prime; primality plays no part in the sizes bounded.
- LogFormat.Printer.Print: the emitted characters only, not the returned count.
- The IPC-model partition manager (`secure_fw/spm/spm_api_ipc.c`).
- Exception frames, stack limits and memory attribution: saved stack pointers are opaque values.
- psa_eoi beyond clearing signals: its checks of signal and interrupt line.
- tfm_core_validate_secure_caller and the service calls that only read one field.
- MailboxProgress.EveryCallCompletes: assumes that a party that can act does; notification and wake-up from sleep belong to the platform.
- Mailbox calls before initialisation.
- boot_save_boot_status and the individual-claims variant.
- Crypto, storage, attestation, audit and platform client wrappers, veneers, SVC dispatch, RTOS wrappers: they marshal arguments.
- Export bounds of keys other than RSA: the same arithmetic on simpler shapes.
- Flash drivers, NV counters, public-key tables, the manifest generator.
