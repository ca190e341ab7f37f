# MagicDesk, verified

MagicDesk runs Linux desktops and their services on Android. This project models the parts of it that keep state,
parse or generate code, and proves what those parts promise: the typed D-Bus bridge, the seccomp profile compiler, the
terminal and pipe relays, the crash-recoverable k3s installer, the guest file server, and four smaller pieces of code
with hard invariants. `dafny verify dfyconfig.toml` checks all of it.

## How it is laid out

Every part has the same two layers. Pure functions say what the code computes, and lemmas prove what the source and its
documentation promise about them. Where the source updates memory in place, methods on classes and arrays do the same
and are proved equal to those functions, so that every law holds of the imperative code. System calls, polls, failures
and crashes are parameters: a theorem about a run holds for every answer the environment can give.

| files | part |
|---|---|
| `Common`, `Decimal` | bytes, big-endian words, decimal text |
| `DBusTypes`, `DBusValues` | signatures and typed value trees of the D-Bus Specification |
| `BusCodec`, `BusCodecProofs`, `BusRoundTrip`, `BusLimits` | the wire form of a message: soundness of the reader, round trip, exact acceptance |
| `BusDescriptors`, `BusAgent` | the descriptor table, its rollback, and runs of the agent |
| `BusWire`, `BusTransfer` | the growable buffer, the table's arrays and the recursive transfer over them |
| `KernelProfile`, `KernelVerify` | restriction table to classic BPF, a BPF machine, and the self-check |
| `PtyControl`, `PtyRelay`, `PtyFairness`, `PtyBridge` | control frames, the relay as a state machine, its progress, and its buffers |
| `PipeShell`, `TerminalSession` | the pipe relay; the session shutdown protocol |
| `K3sInstall` | install and cleanup on a machine that may stop at any step |
| `GuestServer`, `GuestTree` | request framing and quotas; changes to the imported directory tree |
| `DnsName` | compressed names, section 4.1.4 of RFC 1035 |
| `KwinPatch`, `KwinSites`, `KwinAdapt` | A64 encodings and an A64 machine; overlapping patches; the entry patching loop |
| `SvcText` | live publication of instructions |
| `AudioContinuity` | the streaming silence detector and its phase markers |

## Main results

- What the D-Bus writer accepts the reader rebuilds identically if and only if each double in it is scanned back from
  its text; what the reader accepts is a well-typed bounded message; the writer accepts exactly the messages that fit
  the frame, the limits and the descriptor table.
- The generated BPF program decides every system call as the table's first matching rule does.
- On every run of the relays no byte is repeated or reordered, frames are whole, and none is lost before its receiver
  stops taking them. The terminal relay gets back to its control descriptor within a bounded number of turns, and to the
  terminal unless it answers queries instead.
- An installation interrupted anywhere after its manifest is undone by a cleanup interrupted any number of times:
  exactly if it finishes, and but for the parent directories it made otherwise.
- A session reported gone stays gone, and its id is not reused while signals are sent. The bridge signals only that
  session if and only if no stranger takes a number between its check and its signal; `TerminalSession.RacingKill` is
  the race that the two system calls leave open.
- The guest file server keeps request boundaries on every run and confines every change beneath the import directory.
- Every patched window-manager entry reaches exactly one trampoline, which is its own if and only if no later patch
  falls on its words; all of them reach their own if and only if no selected entry stands one word after another that
  has a landing pad. `KwinAdapt.ClashExample` is a selection of fifty symbols that passes every check of the loop and
  misdirects one.

## Where code and documentation differ

The model follows the code. Scalars are scanned as `strtoll` and `strtoull` scan them, so the reader accepts numerals
the writer never prints: leading white space, signs and zeros. The laws therefore go from the writer to the reader.

The reader refuses some finite doubles that the writer prints: `strtod` may set `errno` for a subnormal that it scans
exactly, and `append_scalar` gives up on any `errno`. `BusRoundTrip.RefusedDouble` is such a message.

A comment in `relay_pty` says that a full queue never pauses the opposite direction. Pending input is indeed typed while
output waits, but control bytes are read only when the output buffer is empty (`PtyFairness.FullOutputPauses`).

## Model

| member | source | states |
|---|---|---|
| `BusRoundTrip.ValuesRoundTrip` | native/linux-settings/bus_wire.c:66-211 | a list of well-typed arguments that the writer accepts is read back identically, with each handle resolving to its descriptor and the cursor on the last byte, if and only if each double in it is scanned back from its text; if some double is refused and none is mistaken for another, the reader refuses the message |
| `BusRoundTrip.RefusedDouble` | native/linux-settings/bus_wire.c:77-97 | a finite double whose text `append_scalar` refuses, as when `strtod` sets `errno` for a subnormal, is written but its message is not read back |
| `BusRoundTrip.EncodingInjective` | native/linux-settings/bus_wire.c:154-211 | two messages that leave the same bytes and the same descriptor table are the same message, if the texts of the doubles that occur in them tell those doubles apart |
| `BusRoundTrip.TextsCollide` | native/linux-settings/bus_wire.c:173-198 | doubles with the same text leave the same bytes, so the condition of injectivity is needed |
| `BusRoundTrip.ValueBack` | native/linux-settings/bus_wire.c:99-200 | a value written at any depth, in any surrounding frame, reads back as itself if and only if its doubles are scanned back, whether its type is declared by itself or expected by its container, and also in a later table that kept its descriptors; a refused double refuses it |
| `BusRoundTrip.ContainerBack` | native/linux-settings/bus_wire.c:113-172 | arrays, structures, dict entries and variants read back with exactly the children that were written, if and only if the doubles among them are scanned back |
| `BusRoundTrip.WriteScalarBack` | native/linux-settings/bus_wire.c:66-198 | every basic value that is no double, including a descriptor moved into the table, is recovered from its printed text; a double is exactly if its text is scanned back |
| `BusRoundTrip.WriteValuesKeeps` | native/linux-settings/bus_wire.c:154-211 | writing only appends bytes and only adds descriptors, on success and on failure |
| `BusRoundTrip.CountBounded` | native/linux-settings/bus_wire.c:154-200 | a container that was written has no more children than the value limit, so the reader does not refuse its count |
| `BusLimits.MessageAccepted` | native/linux-settings/bus_wire.c:154-211 | a message is written if and only if no descriptor in it is negative and no double non-finite, its bytes (handles sized by the serials they will get) fit the frame, its values are at most 16384 and its nesting at most 32, and the table has a free slot and an unused serial for each descriptor; then it takes exactly that |
| `BusLimits.ValueAccepted` | native/linux-settings/bus_wire.c:154-200 | the same exact condition for one value at any depth, with the bytes, values, slots and serials it takes |
| `BusLimits.InsertRoom` | native/linux-settings/bus_wire.c:188-194 | a descriptor finds a place if and only if it is not negative, a slot is free and a serial is left; it takes one of each |
| `BusCodecProofs.ReadValuesSound` | native/linux-settings/bus_wire.c:147-153 | whatever the bytes, the cursor stays in the frame, and an accepted frame is a message of well-typed complete arguments, at most 32 levels deep and 16384 values in all |
| `BusCodecProofs.ReadValueSound` | native/linux-settings/bus_wire.c:99-146 | an accepted value has exactly the declared or expected type, the counter grew by exactly its nodes, and depth and count are within their limits |
| `BusCodecProofs.ReadContainerSound` | native/linux-settings/bus_wire.c:113-146 | structure and dict-entry field counts are exact, array elements all have the element type, a variant has one child of its declared type |
| `BusCodecProofs.ScanScalarSound` | native/linux-settings/bus_wire.c:66-98 | an accepted text denotes a value of the asked basic type that is in range and valid |
| `BusCodecProofs.DeclaredSound` | native/linux-settings/bus_wire.c:101-106 | a signature is accepted only if it is one complete type within the limits, and equal to the expected one if there is one |
| `DBusTypes.SingleCharacterised` | native/linux-settings/bus_wire.c:104-106 | a text is one signature if and only if a complete type within the limits prints it, and then it is that type |
| `DBusTypes.ParsePrinted` | native/linux-settings/bus_wire.c:104-106 | parsing inverts printing of a type in front of any further text |
| `DBusTypes.ParsedPrints` | native/linux-settings/bus_wire.c:104-106 | what was parsed is complete and prints as the bytes consumed |
| `Decimal.PrintScan` | native/linux-settings/bus_wire.c:66-98 | scanning gives back every printed number of the scanner's range |
| `DBusValues.WellTypedShape` | native/linux-settings/bus_wire.c:154-200 | the type of a well-typed value is shaped as D-Bus requires, and only dict entries are not complete types |
| `BusWire.Wire.Put` | native/linux-settings/bus_wire.c:12-24 | the growable array is plain append: the frame grows by exactly the bytes, or by nothing and fails when the frame limit would be passed |
| `BusWire.Wire.Grow` | native/linux-settings/bus_wire.c:12-24 | doubling never passes the frame limit, makes the asked room and keeps the contents |
| `BusWire.Wire.ReadU32` | native/linux-settings/bus_wire.c:35-39 | the cursor on the array refines the reader on byte sequences |
| `BusWire.Wire.ReadText` | native/linux-settings/bus_wire.c:40-48 | the same for texts, with the NUL and UTF-8 refusals |
| `BusWire.WriteU32` | native/linux-settings/bus_wire.c:26-34 | writing a word to the array refines the abstract writer |
| `BusWire.WriteText` | native/linux-settings/bus_wire.c:26-34 | writing a text to the array refines the abstract writer |
| `BusWire.Fds.constructor` | native/linux-settings/bus_wire.c:49-51 | a new table is the empty one |
| `BusWire.Fds.Insert` | native/linux-settings/bus_wire.c:188-194 | the slot search over the arrays refines the abstract insertion; a descriptor that finds no room is closed |
| `BusWire.Fds.Resolve` | native/linux-settings/bus_wire.c:55-61 | the scan finds the live slot the abstract lookup finds |
| `BusWire.Fds.Release` | native/linux-settings/bus_wire.c:62-65 | releasing closes exactly the resolved slot |
| `BusWire.Fds.Clear` | native/linux-settings/bus_wire.c:52-54 | clearing the arrays refines the abstract clear |
| `BusWire.Fds.CloseAbove` | native/linux-settings/bus_agent.c:65-67 | the rollback loop closes exactly the live slots with a serial above the mark |
| `BusTransfer.WriteScalar` | native/linux-settings/bus_wire.c:172-198 | the imperative writer of a basic value refines the writer the laws are about |
| `BusTransfer.WriteValue` | native/linux-settings/bus_wire.c:154-200 | the recursive writer over the mutable frame and table refines the writer the laws are about |
| `BusTransfer.WriteValues` | native/linux-settings/bus_wire.c:201-211 | the whole message writer refines the writer the laws are about |
| `BusTransfer.ScanScalar` | native/linux-settings/bus_wire.c:66-98 | the scalar scanner over the mutable table refines the scanner the laws are about |
| `BusTransfer.ReadValue` | native/linux-settings/bus_wire.c:99-146 | the recursive reader over the mutable frame refines the reader the laws are about |
| `BusTransfer.ReadContainer` | native/linux-settings/bus_wire.c:115-146 | the child loop refines the recursive reader of children |
| `BusTransfer.ReadValues` | native/linux-settings/bus_wire.c:147-153 | the whole message reader refines the reader the laws are about |
| `BusDescriptors.InsertKeeps` | native/linux-settings/bus_wire.c:188-194 | insertion keeps serials distinct and issued and every descriptor held once or closed once; the new handle names the inserted descriptor, and older handles keep theirs |
| `BusDescriptors.HandleResolves` | native/linux-settings/bus_wire.c:55-61 | the printed handle of a live slot resolves to that slot |
| `BusDescriptors.CloseSlotKeeps` | native/linux-settings/bus_wire.c:62-65 | closing a live slot keeps the table valid and the descriptor balance |
| `BusDescriptors.RollbackRestores` | native/linux-settings/bus_agent.c:65-67 | rolling back to an earlier serial restores exactly the earlier slots under the earlier serials |
| `BusDescriptors.ClearClosesAll` | native/linux-settings/bus_wire.c:52-54 | after clearing, every descriptor ever received has been closed, once |
| `BusAgent.RespondKeeps` | native/linux-settings/bus_agent.c:52-73 | a response that does not fit leaves exactly the descriptors held before it; one that fits only adds; only an event is dropped without a substitute |
| `BusAgent.LimitReplyFits` | native/linux-settings/bus_agent.c:69-71 | the substitute reply always fits and touches no descriptor, so the recursion is one level deep |
| `BusAgent.StepKeeps` | native/linux-settings/bus_agent.c:52-73 | each agent operation keeps the table valid, and a dead serial stays dead |
| `BusAgent.RunKeeps` | native/linux-settings/bus_agent.c:52-287 | over every run of responses, releases and disconnects the table stays valid and a handle that was issued and closed never resolves again |
| `BusAgent.ReleasedIsDead` | native/linux-settings/bus_wire.c:62-65 | a released handle does not resolve, under any spelling of its number |
| `BusAgent.DisconnectClosesAll` | native/linux-settings/bus_agent.c:250-287 | a run that ends by disconnecting has closed every descriptor it received |
| `BusAgent.SendResponse` | native/linux-settings/bus_agent.c:52-73 | the recursive method over the mutable table refines the abstract response |
| `BusAgent.WriteFrame` | native/linux-settings/bus_agent.c:54-64 | header, texts and arguments are written in the order of the abstract reply |
| `KernelProfile.CompileCorrect` | native/guest-exec-lab/kernel_profile.c:90-118 | on every call the generated program returns kill for another architecture, the ENOSYS rule from call number 449, else the errno of the first rule whose number and masked low words match, else allow |
| `KernelProfile.CompileAdmitted` | native/guest-exec-lab/kernel_profile.c:90-118 | every jump is forward and lands inside the program, every load is an aligned word of the call, and the last instruction returns |
| `KernelProfile.Generate` | native/guest-exec-lab/kernel_profile.c:90-118 | the emitting and backpatching loop succeeds if and only if the compiled program fits, yields it, and so decides every call as the table says |
| `KernelProfile.EmitRule` | native/guest-exec-lab/kernel_profile.c:101-116 | the emitted and patched block is the compiled rule, and earlier code is untouched |
| `KernelProfile.EmitConditions` | native/guest-exec-lab/kernel_profile.c:105-113 | condition tests are emitted with open jumps whose positions are recorded |
| `KernelProfile.PatchRule` | native/guest-exec-lab/kernel_profile.c:115-116 | every open jump of the rule is closed to the instruction after the block, and nothing else changes |
| `KernelProfile.PatchJump` | native/guest-exec-lab/kernel_profile.c:115-116 | the byte stored as a jump offset is the distance to the end of the block, not cut, and no other instruction changes |
| `KernelProfile.FirstMatch` | native/guest-exec-lab/kernel_profile.c:33-50 | the selected rule matches and no earlier one does; none is selected only if none matches |
| `KernelProfile.RunConditions` | native/guest-exec-lab/kernel_profile.c:106-116 | a block of conditions reaches its return if and only if all conditions hold, else the code after it |
| `KernelVerify.ProbeNamesRule` | native/guest-exec-lab/kernel_profile.c:54-58 | probe and real program select the same rule on every call, and two calls get the same probe verdict if and only if the same rule decided them |
| `KernelVerify.VerifyRules` | native/guest-exec-lab/kernel_profile.c:59-74 | with probe errnos the rule checks succeed if and only if every rule catches its own witness; for real they succeed whenever that is so |
| `KernelVerify.ProbeOutcome` | native/guest-exec-lab/kernel_profile.c:60-74 | one probe check succeeds if and only if its rule catches its own witness |
| `KernelVerify.RealOutcome` | native/guest-exec-lab/kernel_profile.c:60-74 | a rule that catches its witness answers it with its own errno |
| `KernelVerify.BuildArgs` | native/guest-exec-lab/kernel_profile.c:62-63 | the argument loop builds the witness of the rule |
| `KernelVerify.ShippedReached` | native/guest-exec-lab/kernel_profile.c:33-50 | the shipped table fits the program limit and each of its 14 rules catches its own witness |
| `KernelVerify.ReachedIf` | native/guest-exec-lab/kernel_profile.c:60-74 | a rule that matches its witness, with no earlier rule matching it, catches it |
| `PtyControl.FragmentationIndependent` | native/magicdesk_pty_bridge.c:514-597 | however the control stream is cut into reads, the reader yields the events of the one-pass parser and rejects at the same point, leaving unread exactly what follows it |
| `PtyControl.FeedStep` | native/magicdesk_pty_bridge.c:522-597 | one read followed by the rest of the stream means what the whole stream means from the same state |
| `PtyControl.DrainIsResume` | native/magicdesk_pty_bridge.c:522-597 | any run of reads from any partial frame agrees with the one-pass parser resumed there |
| `PtyControl.PeerUnderstood` | app/src/main/java/io/github/mekhontsev/magicdesk/PtyControlProtocol.java:18-53 | every list of requests the app encodes is parsed to exactly those keys, sizes and queries |
| `PtyRelay.StepKeeps` | native/magicdesk_pty_bridge.c:656-752 | every turn of the poll loop keeps the stream invariant, or leaves the streams intact when it ends |
| `PtyRelay.RunKeeps` | native/magicdesk_pty_bridge.c:656-752 | on every run and however it ends the terminal received a prefix of the peer's input and the peer a prefix of whole frames carrying exactly the terminal's output and the query answers; after the terminal ended all of them were delivered |
| `PtyRelay.RelayCorrect` | native/magicdesk_pty_bridge.c:656-752 | the same from the start, stated against the one-pass parser: until input closes, typed plus pending bytes are the DATA payloads in order |
| `PtyRelay.TracksFeed` | native/magicdesk_pty_bridge.c:522-597 | the relay's partial frame always stands where the one-pass parser of the bytes read so far stands |
| `PtyRelay.PendingMoves` | native/magicdesk_pty_bridge.c:707-718 | pending output moves in the very turn its descriptor accepts bytes, and pending input too unless the write of output ends the relay |
| `PtyRelay.OutputDelivered` | native/magicdesk_pty_bridge.c:656-752 | over any run whose output descriptor keeps taking bytes, pending output is delivered within as many turns as it has bytes, and a relay that ends because the terminal has ended has delivered all of it |
| `PtyRelay.InputTyped` | native/magicdesk_pty_bridge.c:656-752 | over any run whose terminal keeps taking bytes, pending input is typed within as many turns as it has bytes |
| `PtyRelay.StepExtends` | native/magicdesk_pty_bridge.c:656-752 | no turn takes back or reorders what is shown or pending, nor what is typed or pending until the terminal takes no more |
| `PtyFairness.ReadOrAsked` | native/magicdesk_pty_bridge.c:717-742 | a turn that polls a terminal with bytes to offer reads it, also when it reads control bytes, if and only if it completes no query of the peer |
| `PtyFairness.ControlOccupies` | native/magicdesk_pty_bridge.c:522-597 | control bytes occupy the output buffer exactly when they complete a query |
| `PtyFairness.TerminalServed` | native/magicdesk_pty_bridge.c:656-752 | over any run whose output descriptor takes bytes and whose terminal offers them, the terminal is read within one turn more than there are pending bytes of output, unless a query was answered instead |
| `PtyFairness.QueriesFirst` | native/magicdesk_pty_bridge.c:717-742 | that exception is needed: a peer that always has a query ready keeps a readable terminal unread for any number of turns |
| `PtyFairness.ControlServed` | native/magicdesk_pty_bridge.c:656-752 | over any run whose descriptors take and offer bytes and whose terminal stays open for input, control bytes are read within a bounded number of turns: pending input and at most one bufferful of output come first |
| `PtyFairness.FullOutputPauses` | native/magicdesk_pty_bridge.c:670-687 | as long as the output descriptor takes nothing, pending output keeps the terminal and also the control descriptor unread |
| `PtyBridge.RelayPty` | native/magicdesk_pty_bridge.c:656-752 | the poll loop over the mutable buffers is the abstract run, so it carries the streams faithfully |
| `PtyBridge.Bridge.Turn` | native/magicdesk_pty_bridge.c:656-752 | one turn over the mutable state is one step of the state machine; the output slot is free whenever a frame is queued |
| `PtyBridge.Bridge.ReadControl` | native/magicdesk_pty_bridge.c:522-597 | reading control bytes into the header and resize arrays is the abstract read |
| `PtyBridge.Bridge.Obey` | native/magicdesk_pty_bridge.c:560-592 | a completed frame has the effect of its event: input to the terminal buffer, a query answered into the output buffer |
| `PtyBridge.Bridge.ReadMaster` | native/magicdesk_pty_bridge.c:725-742 | terminal output goes whole into one frame, or ends the terminal |
| `PtyBridge.Bridge.FlushOutput` | native/magicdesk_pty_bridge.c:707-710 | flushing the output buffer is the abstract flush |
| `PtyBridge.Bridge.FlushInput` | native/magicdesk_pty_bridge.c:711-718 | flushing the input buffer is the abstract flush, including the loss of pending input when the terminal stops taking it |
| `PtyBridge.RelayBuffer.Queue` | native/magicdesk_pty_bridge.c:96-108 | queueing succeeds if and only if the slot is free and the payload fits; a refusal keeps the pending bytes |
| `PtyBridge.RelayBuffer.Flush` | native/magicdesk_pty_bridge.c:599-611 | a short write moves a prefix and keeps the rest pending in order |
| `PtyBridge.ControlFrame.Accept` | native/magicdesk_pty_bridge.c:522-597 | storing a chunk in the in-place frame and acting on what it completes is one step of the incremental parser |
| `PtyBridge.ControlFrame.Room` | native/magicdesk_pty_bridge.c:526-538 | the reader asks for no more than the frame it is in can take |
| `PipeShell.DriveKeeps` | native/magicdesk_pipe_shell.h:6-48 | on every run, splitting written plus pending frames by kind gives exactly the bytes read from the command's stdout and stderr, each in order; success only when both ended and every frame was written |
| `PipeShell.FinishedStreams` | native/magicdesk_pipe_shell.h:6-48 | a demultiplexer of the finished byte stream recovers both streams exactly |
| `PipeShell.SplitBack` | native/magicdesk_pipe_shell.h:6-48 | splitting inverts encoding of any list of frames in front of any bytes |
| `PipeShell.AdvanceKeeps` | native/magicdesk_pipe_shell.h:6-48 | every turn keeps the stream invariant, and reports success only with both outputs ended and nothing pending |
| `PipeShell.RelayPipe` | native/magicdesk_pipe_shell.h:6-48 | the poll loop over the mutable buffers is the abstract run and keeps its invariant |
| `PipeShell.Shell.TurnOnce` | native/magicdesk_pipe_shell.h:11-46 | one turn over the mutable buffers and flags is one step of the state machine, stdout tried first |
| `PipeShell.Shell.Peer` | native/magicdesk_pipe_shell.h:28-34 | the peer side of a turn is the abstract read then write |
| `PipeShell.Shell.Input` | native/magicdesk_pipe_shell.h:35-36 | feeding and closing the command's stdin is the abstract step |
| `PipeShell.Shell.Read` | native/magicdesk_pipe_shell.h:37-45 | one output read becomes one frame, or ends that output |
| `TerminalSession.OverForever` | native/magicdesk_pty_bridge.c:794-834 | while the shell is not reaped its session id is not reused, and a session once over stays over whatever other processes do |
| `TerminalSession.ActKeeps` | native/magicdesk_pty_bridge.c:764-834 | each process step keeps the session reserved, and an empty session empty |
| `TerminalSession.MembersInherit` | native/magicdesk_pty_bridge.c:764-792 | a member of the session was one before or was forked by one |
| `TerminalSession.ReapedIdReused` | native/magicdesk_pty_bridge.c:836-862 | why the order matters: once the shell is reaped a stranger can take its number and session id |
| `TerminalSession.AwaitExit` | native/magicdesk_pty_bridge.c:794-834 | the positive result means the session is over, at the return and so for ever |
| `TerminalSession.StopShell` | native/magicdesk_pty_bridge.c:836-862 | the shell is reaped only when its session is over; only the session was signalled if and only if no signal raced with a stranger taking a checked number, which cannot happen if nobody is forked to such a number; unreaped means the failure code |
| `TerminalSession.Kernel.SignalSession` | native/magicdesk_pty_bridge.c:764-792 | the count is that of the scan, the session id stays reserved throughout, and only family is signalled if and only if no checked number was taken by a stranger before its signal |
| `TerminalSession.Kernel.SignalEntry` | native/magicdesk_pty_bridge.c:780-789 | the check, the signal and the SIGCONT are three steps with other processes running in between; whoever holds the number is signalled |
| `TerminalSession.Kernel.KillGroup` | native/magicdesk_pty_bridge.c:840-851 | every process of the group of the shell is signalled, and all of them are family |
| `TerminalSession.HolderExactly` | native/magicdesk_pty_bridge.c:782-787 | whoever holds the number of a member after any actions is family if and only if no child of a stranger took it |
| `TerminalSession.RacingKill` | native/magicdesk_pty_bridge.c:782-783 | the race: a checked member dies and is reaped, and a stranger forks a child to its number, while the session stays reserved |
| `K3sInstall.InstallAndRecover` | native/guest-exec-lab/fixtures/k3s-boot.py:25-75 | install stopped anywhere after its manifest, also inside a copy, or raised, or finished and in use, then cleanup stopped and restarted any number of times: the first that finishes has restored every path, and one that raises every path but for the parent directories made |
| `K3sInstall.Install` | native/guest-exec-lab/fixtures/k3s-boot.py:25-54 | a refusal changes nothing; from the manifest on, wherever it stops or raises, also inside a copy or at a link that leads nowhere, every original is safe and nothing beyond the manifest changed; finished, every original is aside and every missing parent directory made |
| `K3sInstall.MoveAside` | native/guest-exec-lab/fixtures/k3s-boot.py:44-46 | the rename loop stopped anywhere keeps everything recoverable; finished, every original is in its saved place |
| `K3sInstall.MakeParents` | native/guest-exec-lab/fixtures/k3s-boot.py:47-48 | making the missing parent directories, stopped anywhere or raised at a link that leads nowhere, keeps everything recoverable; finished, all of them are made |
| `K3sInstall.RemoveParents` | native/guest-exec-lab/fixtures/k3s-boot.py:74-75 | the last loop raises at a parent that is not a directory or not empty, and finishes only with every path as before |
| `K3sInstall.Cleanup` | native/guest-exec-lab/fixtures/k3s-boot.py:57-75 | stopped anywhere it can be run again; past its renames every path but for made directories is as before; finished, every path is; with enough steps it is not stopped, and on a sound file system it then finishes if and only if every parent it is to remove is there as a directory, and raises otherwise |
| `K3sInstall.RemoveAll` | native/guest-exec-lab/fixtures/k3s-boot.py:62-70 | the removal loop, also when cut inside a tree, removes only what is not the last copy of an original |
| `K3sInstall.RestoreAll` | native/guest-exec-lab/fixtures/k3s-boot.py:71-73 | the restore loop stopped anywhere keeps everything recoverable; finished, no saved copy is left |
| `K3sInstall.Operate` | native/guest-exec-lab/fixtures/k3s-boot.py:49-54 | a running installation may change owned and backed-up paths arbitrarily and stays recoverable |
| `K3sInstall.PlanDescribes` | native/guest-exec-lab/fixtures/k3s-boot.py:25-42 | the manifest built from the file system describes it: owned paths were absent, saved names are free and distinct from every other path |
| `K3sInstall.RenameKeeps` | native/guest-exec-lab/fixtures/k3s-boot.py:44-46 | moving an original between its two places keeps everything recoverable |
| `K3sInstall.ChangeKeeps` | native/guest-exec-lab/fixtures/k3s-boot.py:49-70 | writing or removing a path whose content nothing depends on keeps everything recoverable |
| `K3sInstall.RestoredAll` | native/guest-exec-lab/fixtures/k3s-boot.py:57-73 | cleared paths with no saved copy left are exactly the original files, but for made directories |
| `GuestServer.Serve` | native/magicdesk_guest_files.c:267-300 | with a client that sends requests ahead of the replies but withholds an upload body until it is admitted, every operation byte is read at a request boundary on all runs, and each kept import is the body of an import request |
| `GuestServer.ImportFile` | native/magicdesk_guest_files.c:239-265 | an import is kept whole and counted or not counted at all, and a failure ends the connection; count, total and quota stay consistent; when nothing fails it is kept if and only if it passes the name, size, total and count checks |
| `GuestServer.ReceiveFile` | native/magicdesk_guest_files.c:166-181 | over short writes the file holds exactly the next bytes of the stream or a prefix of them |
| `GuestServer.ReadSize` | native/magicdesk_guest_files.c:183-189 | the size is the big-endian number of the next eight bytes if and only if it is within the file limit |
| `GuestServer.SizeRoundTrip` | hosted-runtime/src/main/java/io/github/mekhontsev/magicdesk/hosted/GuestFileBridge.java:117-141 | the server reads back every 64-bit size the client writes |
| `GuestServer.Mutate` | native/magicdesk_guest_files.c:209-237 | an upload refused before its body leaves the stream at a request boundary; one that fails inside its body ends the connection |
| `GuestServer.Dispatch` | native/magicdesk_guest_files.c:279-298 | every surviving request leaves the stream at a request boundary |
| `GuestServer.ReadHeader` | native/magicdesk_guest_files.c:269-278 | operation, length and path are read as the client wrote them |
| `GuestServer.WriteChunk` | native/magicdesk_guest_files.c:171-177 | short writes lose and repeat nothing |
| `GuestServer.Imports.Keep` | native/magicdesk_guest_files.c:263 | the byte count stays the sum of the kept sizes, within 256 MiB and 128 files |
| `GuestTree.Mutate` | native/magicdesk_guest_files.c:209-237 | for every tree and path, nothing changes but the named entry of one directory inside the import directory and, for a removal, what lies beneath it; no link is followed and no descriptor stays open; success means the change was made, and when nothing fails it succeeds if and only if the path leads somewhere and the change is possible there |
| `GuestTree.RemoveTree` | native/magicdesk_guest_files.c:84-97 | only names in the subtree disappear, no link is followed, every descriptor is closed on every path; success means the name is gone |
| `GuestTree.Empty` | native/magicdesk_guest_files.c:88-95 | the entry loop empties the directory and touches nothing above or outside it |
| `GuestTree.RelativeParent` | native/magicdesk_guest_files.c:191-207 | the directory of the last component is held open and is the one the path leads to inside the import directory, or nothing is held |
| `GuestTree.WalkStays` | native/magicdesk_guest_files.c:191-207 | a walk from a directory ends in a directory beneath it, whatever the path says |
| `GuestTree.Store` | native/magicdesk_guest_files.c:218-231 | an upload creates its file under a free name and fills it, or takes it back; only if that fails too a part of its body stays, under that name |
| `GuestTree.MakeDirectory` | native/magicdesk_guest_files.c:216 | creating a directory changes that one entry of its parent and nothing else |
| `GuestTree.RemoveLeaf` | native/magicdesk_guest_files.c:217 | removal changes that one entry of its parent and what lies beneath it |
| `DnsName.ReadExact` | native/guest-exec-lab/boot_service_io.py:19-36 | the reader yields labels if and only if they spell the name: its loop guard refuses exactly the names that never end |
| `DnsName.ReadName` | native/guest-exec-lab/boot_service_io.py:19-36 | the loop takes at most as many steps as the packet has bytes, and yields the rendered labels and the offset after the name |
| `DnsName.ReadComplete` | native/guest-exec-lab/boot_service_io.py:19-36 | the guard against revisited offsets stops no name, compressed or not |
| `DnsName.ReadSound` | native/guest-exec-lab/boot_service_io.py:19-36 | what is accepted is spelled by the packet in a finite number of steps |
| `DnsName.SpellingUnique` | native/guest-exec-lab/boot_service_io.py:19-36 | a name has one spelling, reached in one number of steps |
| `DnsName.EncoderInverted` | native/guest-exec-lab/boot_service_io.py:69-71 | the reader gives back the encoded parts of a query anywhere in a packet if and only if every part has 1 to 63 ASCII characters; the end is then just past the zero |
| `DnsName.HostRead` | native/guest-exec-lab/boot_service_io.py:53-71 | the name read from the query for a host name is that name in lower case, the text answers are compared to |
| `DnsName.PartsJoined` | native/guest-exec-lab/boot_service_io.py:32 | rendering the dot-separated parts of any host name gives it back in lower case |
| `DnsName.SuffixCompressed` | native/guest-exec-lab/boot_service_io.py:19-36 | replacing a suffix by a pointer to an equal suffix elsewhere gives the same labels, ending just past the pointer |
| `KwinPatch.EntryReaches` | native/guest-exec-lab/fixtures/kwin-module-adapt.py:100-130 | executing a patched entry, with or without a landing pad, reaches the address stored in its slot and changes only x16 |
| `KwinPatch.StubRuns` | native/guest-exec-lab/fixtures/kwin-module-adapt.py:101-109 | the three trampoline instructions load the slot and branch to it from any page in range |
| `KwinPatch.AdrpDecodes` | native/guest-exec-lab/fixtures/kwin-module-adapt.py:103-105 | the ADRP word means x16 and the page distance, for every distance the check admits |
| `KwinPatch.LoadDecodes` | native/guest-exec-lab/fixtures/kwin-module-adapt.py:106 | the LDR word means x16 from x16 at the slot's page offset |
| `KwinPatch.BranchDecodes` | native/guest-exec-lab/fixtures/kwin-module-adapt.py:126-128 | the B word means the distance, for every distance the check admits |
| `KwinSites.AllEnterExactly` | native/guest-exec-lab/fixtures/kwin-module-adapt.py:117-131 | every selected entry reaches its own trampoline if and only if none stands one word after another that has a landing pad, in whatever order they are patched; the source does not check this |
| `KwinSites.EntryExactly` | native/guest-exec-lab/fixtures/kwin-module-adapt.py:117-131 | entry by entry: an entry reaches its own trampoline if and only if no later site stands on the second word of its patch, and no later padded site stands one word before it |
| `KwinSites.EntersWinner` | native/guest-exec-lab/fixtures/kwin-module-adapt.py:117-131 | every entry reaches exactly one trampoline: that of a later padded site one word before, else of a later site on its second word, else its own |
| `KwinSites.PaddedNow` | native/guest-exec-lab/fixtures/kwin-module-adapt.py:119-124 | whether an entry still has its landing pad at its turn depends on the original text and the sites before it in a way that can be told beforehand |
| `KwinSites.Untouched` | native/guest-exec-lab/fixtures/kwin-module-adapt.py:128-129 | a word that no patch of a stretch of the loop writes is the same after it |
| `KwinAdapt.CallArrives` | native/guest-exec-lab/fixtures/kwin-module-adapt.py:99-136 | whatever the selection, calling a symbol runs to the address in the slot of the item that serves it, and only x16 differs on arrival |
| `KwinAdapt.ClashMisdirects` | native/guest-exec-lab/fixtures/kwin-module-adapt.py:99-136 | with a clash some call arrives at the address in the slot of an item with another entry |
| `KwinAdapt.RoomyAccepted` | native/guest-exec-lab/fixtures/kwin-module-adapt.py:101-127 | items with different entries, room for any patch and everything in reach pass the checks whatever the text is |
| `KwinAdapt.ClashExample` | native/guest-exec-lab/fixtures/kwin-module-adapt.py:57-136 | fifty symbols, two of them a word apart and the first with a landing pad, pass every check of the loop, and a call of the first runs the replacement of the second |
| `KwinSites.Unclaimed` | native/guest-exec-lab/fixtures/kwin-module-adapt.py:118-129 | a word that is no selected entry, and does not follow one with a landing pad, is unchanged |
| `KwinAdapt.CallsRedirected` | native/guest-exec-lab/fixtures/kwin-module-adapt.py:99-136 | once the loop succeeded without a clash, calling any selected symbol or alias runs the module's symbol; only x16 differs on arrival |
| `KwinAdapt.AliasShares` | native/guest-exec-lab/fixtures/kwin-module-adapt.py:111-116 | every alias has the target of the first item with its entry |
| `KwinAdapt.SitesAreFirsts` | native/guest-exec-lab/fixtures/kwin-module-adapt.py:111-117 | exactly the first item of each entry is patched, with the trampoline of its index |
| `KwinAdapt.Adapt` | native/guest-exec-lab/fixtures/kwin-module-adapt.py:99-136 | the loop succeeds if and only if every item passes its checks; then the text holds the patches in order, the code section every trampoline, and the rest of it is unchanged |
| `KwinAdapt.WriteStub` | native/guest-exec-lab/fixtures/kwin-module-adapt.py:103-109 | the four words of a trampoline and nothing else are written |
| `SvcText.Prepare` | native/guest-exec-lab/svc_text.c:15-44 | on success the text is exactly the wanted range of the source, writable and staged; bad arguments are refused; any failure leaves object, descriptors and mappings as before |
| `SvcText.CopySource` | native/guest-exec-lab/svc_text.c:25-31 | interrupted and short reads only delay the copy; an early end is an error |
| `SvcText.Acquire` | native/guest-exec-lab/svc_text.c:20-43 | every failing call gives back what was taken before it |
| `SvcText.PublishSite` | native/guest-exec-lab/svc_text.c:76-87 | publication succeeds if and only if the site is aligned and inside, the text is running and both words are eligible; the store is the only change |
| `SvcText.PublishKeeps` | native/guest-exec-lab/svc_text.c:76-87 | a publication redirects exactly one word, and the text stays derived from its source |
| `SvcText.PublishAllKeeps` | native/guest-exec-lab/svc_text.c:73-87 | over any run of publications only words that were SVC #0 or B in the source differ from it, and they are still SVC #0 or B |
| `SvcText.FixedWords` | native/guest-exec-lab/svc_text.c:73-87 | a word the source did not allow to be redirected never changes |
| `SvcText.PublishableBySource` | native/guest-exec-lab/svc_text.c:73-87 | whether a site can be published depends on the source alone, not on earlier publications |
| `SvcText.StoreWord` | native/guest-exec-lab/svc_text.c:79-81 | a stored word is read back, and every word beside it is unchanged |
| `SvcText.Activate` | native/guest-exec-lab/svc_text.c:45-51 | activation maps exactly the range of the text to the staged area; a failure keeps the staged area, and leaves what is executed as it was unless the kernel discarded the mappings of that range |
| `SvcText.DiscardedExactly` | native/guest-exec-lab/svc_text.h:17-19 | a discarded range is vacant, no address outside it changes, and nothing is lost exactly if it was vacant before |
| `SvcText.MapNew` | native/guest-exec-lab/svc_text.c:52-65 | the text is mapped only where its whole range is vacant, no address mapped before changes, and a failure gives its area back |
| `SvcText.Install` | native/guest-exec-lab/svc_text.c:66-72 | the text runs, or nothing is held and nothing executed changed if and only if the kernel discarded no mapping of the range |
| `SvcText.SharedText.Release` | native/guest-exec-lab/svc_text.c:9-14 | exactly the held areas and descriptor are given back |
| `AudioContinuity.CaptureDetected` | native/guest-exec-lab/fixtures/audio-continuity.py:37-67 | however a capture is split into reads, the spans are exactly its ended maximal runs of silent blocks from two seconds on, each once, in order and apart, and the leftover is less than a block |
| `AudioContinuity.DetectsRuns` | native/guest-exec-lab/fixtures/audio-continuity.py:48-67 | the incremental detector agrees with the definition by maximal runs on every sequence of blocks |
| `AudioContinuity.SplitIndependent` | native/guest-exec-lab/fixtures/audio-continuity.py:48-60 | two captures of the same samples report the same spans, frames and leftover, whatever the reads were |
| `AudioContinuity.FeedsCut` | native/guest-exec-lab/fixtures/audio-continuity.py:48-60 | feeding read by read takes the blocks of the joined bytes, each stamped by the read that completed it |
| `AudioContinuity.FinishReports` | native/guest-exec-lab/fixtures/audio-continuity.py:62-67 | closing at the end reports the open run like one ended by a noisy block |
| `AudioContinuity.Record` | native/guest-exec-lab/fixtures/audio-continuity.py:107-123 | the recording loop reports the maximal silent runs of the blocks read, the last one closed at the end; it fails only on an empty read or too few frames |
| `AudioContinuity.PCMWindow.Feed` | native/guest-exec-lab/fixtures/audio-continuity.py:48-60 | the in-place loop over the pending bytes is the abstract feed |
| `AudioContinuity.PCMWindow.FinishSpan` | native/guest-exec-lab/fixtures/audio-continuity.py:62-67 | closing a span in place is the abstract close |
| `AudioContinuity.PhaseTimeline.constructor` | native/guest-exec-lab/fixtures/audio-continuity.py:19-25 | phases start where the seconds before them end, in ascending order |
| `AudioContinuity.PhaseTimeline.Advance` | native/guest-exec-lab/fixtures/audio-continuity.py:27-34 | markers followed by pending phases are always all the phases in order; after a call exactly the reached ones are marked, none before its frame |
| `Common.U32RoundTrip` | native/magicdesk_pty_bridge.c:71-83 | encoding and decoding a big-endian word are inverse in both directions |

## Left out

- The text of a double is opaque: which doubles `strtod` gives back without setting `errno` is a parameter, and the round trip says exactly what follows from it.
- Allocation failures of the wire buffer and of libdbus; memory is unbounded.
- libdbus itself: signatures and values follow the D-Bus Specification's "Type System" section, and a value tree stands for its iterators.
- BusRoundTrip.EncodingInjective: compares the descriptor table too, because a handle's bytes name a slot's serial and not the descriptor behind it.
- BusAgent.RunKeeps: the order of event frames after a failed one is not modelled; the dispatch batch goes on after a failure.
- Connecting, tokens, launching, environment and the agent's requests other than release and disconnect: plumbing around the transfer, without invariants of its own.
- KernelVerify.VerifyRules: leaves out the host calls made at the end of the check, which depend on the running kernel.
- The answers to terminal queries (working directory, foreground process) are given by the environment.
- PipeShell.DriveKeeps: claims no fairness between stdout and stderr, because stdout is tried first.
- TerminalSession.AwaitExit: takes each pass over /proc as one snapshot and time as a list of waits.
- K3sInstall.MakeParents: takes the ancestors of the two directories to exist, as `mkdir` would otherwise make those too.
- The network setup, readiness waits and container checks of the k3s fixture.
- GuestServer.Serve: leaves out the descriptor export of operation 1 beyond its framing, and there is no quota for operation 4, as in the source.
- GuestTree.Mutate: the guest does not change the tree while a request runs.
- GuestTree.RelativeParent: the path buffer that the source cuts in place at each slash is a slice here, so aliasing of that buffer is not captured.
- Creating and clearing the import directory at start-up.
- `dns_addresses` and the multicast exchange around it: they only iterate the name reader over records. Lower case is that of ASCII.
- KwinAdapt.Adapt: works on 32-bit words at virtual addresses of two sections; file offsets, little-endian packing and the ELF writer are not modelled.
- KwinPatch.EntryReaches: models the instructions the patch uses; branch target checks by the processor are not modelled.
- Relocation of the slots, and the selection before the loop with its checks on hashes, layouts and symbol types.
- SvcText.PublishSite: cache maintenance and the order in which other processors see a store are not modelled.
- AudioContinuity.Record: leaves out the recorder process, its deadline and the list of delivery gaps; times are opaque numbers.
- The uinput bridge, portal settings, version checks, CPU statistics, the KWin and Mesa fixtures in C++ and the display kernel module: easier, or made of calls into Qt, Mesa, the kernel and other libraries.
