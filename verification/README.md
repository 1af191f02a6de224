# libsusrv: a verified model of the SU shell session

libsusrv forks one `su` shell per process and lets any number of threads run command strings in it. Callers write
frames to a local socket, the shell answers on the same socket, and a handler thread splits the answer into lines,
recognises the end-of-command tag, stores the exit code and signals a condition variable. A Java facade sits on top.
This project models that protocol and the code around it in Dafny and proves what callers can and cannot rely on.
`dafny verify dfyconfig.toml` checks everything.

## What is modelled

- `text.dfy`, `tag.dfy`: byte streams, LF-terminated lines, C strings; `$?` printed in decimal and scanned back by
  `sscanf` as in section 7.21.6.2 of ISO C11. A byte is a `char`; nothing depends on its range.
- `handler.dfy`: the handler thread's read loop as a class with its buffer grown in place, proved against a pure
  "split at LF, then classify each line". It holds for all streams, embedded NULs included: the handler sees the C
  string of a line, so what is logged of a line ends at its first NUL.
- `shell.dfy`: command frames, what a shell does with their lines, and the reference reply to a list of commands. The
  shell has one rule for every line `echo "t"$?`; that the library's own echo line prints the tag is proved from it.
- `errors.dfy`: the error codes that native code and facade share.
- `protocol.dfy`: the protocol as a step relation over a program counter for each exec caller, one exit caller, the
  mutex owner, both byte FIFOs, the shell, the handler thread (storing the code and signalling are two steps), the
  exit code field and the log. Callers blocked on the mutex are a multiset, so the mutex is not first-come
  first-served; a signal wakes any one waiter.
- `invariant.dfy`, `guarantees.dfy`: what every step keeps, and what follows in every state of every run for any
  number of exec callers and one exit request.
- `delivery.dfy`: what exec returns for any number of callers, told by the order of the run's steps.
- `progress.dfy`: without new calls every run ends, in a state that cannot go on.
- `logging.dfy`: what the log holds in every run, whatever the echo switch does.
- `single.dfy`, `transcript.dfy`: a single client, with exact results, when exactly it hangs, and the exact log.
- `outcomes.dfy`: runs, for every command and every shell, that show what a caller cannot rely on.
- `teardown.dfy`: the exit call against the handler's end-of-file path, and the bounded stop loop that both use. The
  child's death and the end of file on the socket are two events of the environment; neither implies the other, and
  neither needs to come.
- `proctable.dfy`, `paths.dfy`: the growable process table with its lookup, and the path arithmetic.
- `facade.dfy`: the Java instance and observer state machine.

Assumptions, stated once:

- Writes to the socket are complete, mutex and condition variable calls do not fail, allocation succeeds, and the log
  file is open.
- A signal wakes exactly one waiter if there is one, and there are no spurious wakeups (`pthread_cond_signal` in the
  System Interfaces volume of POSIX.1-2008).
- The handler's first step comes after the session pointer is set, and the shell is silent until the first command.
- A command is a single line, is not `exit` and does not read the socket (`CmdOkIff`). It is complete: no open quote or
  trailing backslash swallows the echo line behind it. Its output holds neither NUL nor the tag; it need not end in LF.
  Blank lines and lines `echo "t"$?` do what a shell does with them; output and exit status of other commands are
  arbitrary functions of the commands executed before (`$?` is section 2.5.2 of the Shell & Utilities volume).
- In the session protocol the whole output of a line is sent before the shell reads the next one. A background job that
  prints later, and could glue its text to another command's tag, is not part of that model.
- In `teardown.dfy` no exec call is in flight, and exit's null test and lock acquisition are one step.
- In `facade.dfy` observer callbacks do not call back into the facade.

## What was found

- `README.md:181` of the library promises each thread its own return value. The code does not give that.
  `CallerMayGetOthersStatus`: with two callers waiting, the second may return the first one's status.
  `ClientMayGetInvalid`: even a single caller may return -9996, because the reset comes after the writes.
  `ClientMayHang`: even a single caller may wait for ever, because the handler signals without the lock.
  `NextCallerMayEraseStatus`: a caller whose status was stored while it waited may still return -9996, because it reads
  the field after the unlock. `ExitMayWakeCaller`: so may a caller woken by the exit request's own signal. The exact
  conditions: `OwnStatusIff` says when a caller, one of any number, gets its own status, and `ReturnValueSoundness`
  what it gets otherwise, which is never older than its own reset. `SingleClientDelivery` and `ClientHangsIff` say the
  same for a single client, and `StuckIff` with `StuckWaiters` how many callers of any number wait for ever.
  `EveryRunSettles` shows that, without new calls, every run reaches such a state.
- A command whose output does not end in LF, such as `printf x`, still wakes a caller, but its status is lost: the tag
  is glued to the output, and `sscanf` does not match (`GluedTagStoresNothing`, `PipelineOrder`, `StoringIff`). A
  single client that returns then always gets -9996 (`SingleClientDelivery`, `ClientMayGetStatusIff`), and the
  unterminated part of the output is missing from the log (`TranscriptTheorem`).
- The order promised in `README.md:13` and `README.md:63` does hold, as lock order (`PipelineOrder`).
- `jni/su_srv.h:63-65` documents -9999 for a failed exit; the code returns -1 (`jni/su_srv.c:358`), keeps the session
  bound and leaves the mutex locked (`ExitResult`), for every retry bound (`ExitMayFail`).
- Exit may block in `pthread_join` although the shell is dead and reaped: a background job that inherited the socket
  keeps the handler reading. `ExitReturnsIff` shows that nothing else keeps exit from returning.
- The handler deletes the session even when its own stop loop gave up on a shell that still runs
  (`HandlerMayLeaveChild`).
- The test for growing the line buffer uses the size of a pointer, so a buffer of 32 bytes is reallocated for almost
  every byte and also shrinks; it never overflows for pointer sizes 2 to 32 (`LineHandler.InBounds`).
- Socket paths of pids from 100000 on are cut and may coincide (`SocketPathsCollide`); log paths are cut too but tell
  all pids below 1000000000 apart (`LogPathExact`). The library's `README.md:68-69` names other file names than the
  code uses; the model follows the code.

## Model

| member | source | states |
|---|---|---|
| Errors.ErrorsAreDistinct | jni/su_srv.h:14-17 | the error codes differ from each other and from every exit status 0 to 255 |
| Text.SplitUnique | jni/su_srv.c:227-240 | any list of LF-terminated lines followed by a tail is what splitting their concatenation gives: cutting at LF is unambiguous |
| Tag.CharacterClasses | jni/su_srv.c:245-247 | digits and white space are the character codes 48 to 57, and 32 and 9 to 13 |
| Tag.PlaceValue | jni/su_srv.c:245-247 | digits denote a number in base ten: cut anywhere, the left part counts powers of ten, and a single digit its distance from `0` |
| Tag.ScanIntIff | jni/su_srv.c:245-247 | `%d` stores n if and only if the text starts with white space, an optional sign and a maximal run of digits denoting n |
| Tag.ScanDecimal | jni/su_srv.c:245-247 | `%d` reads back every printed integer behind any white space and before anything but a digit; a plus sign changes nothing |
| Tag.TagRoundTrip | jni/su_srv.c:44-46 | scanning the tag line printed for any status returns that status |
| Tag.SignalsIff | jni/su_srv.c:243-250 | for every line: it signals if and only if the tag occurs in it and is not at the start followed only by white space |
| Tag.StoresIff | jni/su_srv.c:245-247 | for every line: it stores n if and only if the tag is at the start and an integer n follows |
| Tag.GluedTagStoresNothing | jni/su_srv.c:243-250 | a tag behind unterminated output wakes a caller but leaves the exit code field unchanged |
| Tag.ClassifyTagEnd | jni/su_srv.c:243-250 | the line a printed tag ends always signals, and stores the printed status if and only if nothing precedes the tag |
| Arrivals.Conservation | jni/su_srv.c:227-269 | logged, silenced and tag lines in arrival order, then the pending fragment, are exactly the bytes read; at end of file only the fragment is dropped |
| Arrivals.MeaningSnoc | jni/su_srv.c:227-240 | reading one more byte changes the reference meaning only at LF, by the line that ends there |
| Arrivals.ArrivalIsEffect | jni/su_srv.c:243-267 | what one line changes: text without the tag is logged if and only if echo is on, and becomes the last line; a line that calls for a signal causes one; a line that starts with the tag and an integer stores it; nothing else changes |
| Arrivals.FieldHoldsLast | jni/su_srv.c:245-247 | the exit code field holds the integer of the last line that starts with the tag and an integer, or what it held before |
| Arrivals.LongestIsMax | jni/su_srv.c:227-240 | the line length in the buffer's bound is attained by a line or the fragment and exceeded by none |
| Handler.LineHandler.constructor | jni/su_shell_session.c:36-62 | a new session has a 32-byte buffer, echo on, no last line, nothing logged or signalled, and satisfies the handler invariant |
| Handler.LineHandler.SetTtyEcho | jni/su_srv.c:193-197 | any non-zero value turns echo on, zero turns it off, nothing else changes |
| Handler.LineHandler.StoreByte | jni/su_srv.c:229-235 | for pointer sizes 2 to 32 the byte is stored in bounds, room for the NUL remains, earlier bytes of the line are kept, and the buffer is reallocated to offset + 32 bytes exactly when the offset exceeds the pointer size less 2 |
| Handler.LineHandler.FinishLine | jni/su_srv.c:237-267 | a completed line, cut at its first NUL, has exactly the effect `LineEffect` says on log, last line, signals and exit code field |
| Handler.LineHandler.Receive | jni/su_srv.c:227-268 | an LF has the effect of the line it ends, any other byte changes no log, signal, code or last line; buffer and effects stay equal to the pure meaning of the bytes received |
| Handler.LineHandler.ReadLoop | jni/su_srv.c:220-269 | for every stream and any echo toggling the whole loop has the effects of splitting at LF and classifying; the exit code field is that of the last line that carries one; the buffer ends with the pending fragment and is at least 32 and at most max(32, longest line + 31) bytes |
| Shell.FramesSplit | jni/su_srv.c:139-142 | the shell sees any number of frames as command line, echo line and blank line, frame by frame |
| Shell.FrameBytes | jni/su_srv.c:139-142 | a frame is the command, LF, the line `echo "<SU_SRV_EOC>"$?` and a blank line, byte for byte |
| Shell.EchoTextIff | jni/su_srv.c:44 | the shell's echo rule applies to exactly the lines `echo "t"$?` with t free of quotes, `$`, backslash and LF, and determines t |
| Shell.EocCmdPrintsStatus | jni/su_srv.c:44-46 | by that rule a shell answers the third write of a frame with the tag and the status of the command before, which the handler scans back |
| Shell.CommandMeaning | jni/su_srv.c:139-141 | the i-th command's status and output are those the environment gives it after the earlier commands; a blank one has no output and leaves the status, an echo line prints its text and the status before it |
| Shell.AfterFrames | jni/su_srv.c:139-142 | after any frames the shell lives, has executed the commands in order, and `$?` is that of the library's echo |
| Shell.RunInput | jni/su_srv.c:384-389 | given the frames and possibly the exit line, the shell sends the whole reference reply, and ends if and only if the exit line came |
| Shell.RunFrames | jni/su_srv.c:44-46 | running the frames' lines gives each command's output, then the tag with that command's own status, glued to output that does not end in LF |
| Shell.ReplySplits | jni/su_srv.c:227-240 | the handler cuts the whole reply into exactly the reference reply lines |
| Shell.ReplyEffect | jni/su_srv.c:243-250 | for a whole reply there is one signal for each command, and the codes stored are the statuses of the commands with terminated output, in order |
| Shell.StoringIff | jni/su_srv.c:243-250 | a command's code is stored if and only if its output is empty or ends in LF, in lock order |
| Invariant.StepKeepsInv | jni/su_srv.c:127-150 | every step of every thread keeps: one mutex owner, sent bytes plus owed bytes are whole frames, no byte lost on either FIFO, handler effects follow the lines, signals add up |
| Invariant.RunKeepsInv | jni/su_srv.c:127-183 | that invariant holds in every state of every run |
| Guarantees.PipelineOrder | jni/su_srv.c:134-147 | for any number of callers the stored codes are, in lock order, the statuses of exactly the commands with terminated output, as far as scanned; the shell executes commands in lock order |
| Guarantees.AllTerminated | jni/su_srv.c:134-147 | when every output is terminated, the codes to be stored are all statuses: the k-th tag line carries the k-th frame's |
| Guarantees.FrameAtomicity | jni/su_srv.c:134-172 | the outbound stream is whole frames in lock order, then a prefix of the mutex owner's own unit, at most one exit line last; at most one caller, exit included, is between lock and unlock |
| Delivery.ReturnValueSoundness | jni/su_srv.c:144-149 | for any number of callers, an exec that returned had reset the field and later read it; its result is what the last write before the read put there: if that is a store, the status of the command whose tag line was stored, and -9996 if it is a reset; that write is never older than the caller's own reset |
| Delivery.OwnStatusIff | README.md:181 | a caller gets its own status whenever the step that stored it precedes the caller's read with no reset and no other store in between; and only then, if the status is neither -9996 nor another command's |
| Guarantees.LostSignalAccounting | jni/su_srv.c:144-147 | before any exit: callers woken plus signals that found nobody are the signals sent, which are the tag lines scanned and no more than the frames; once drained, the callers still waiting are as many as the lost signals |
| Guarantees.StuckIff | jni/su_srv.c:144-147 | before any exit no step can move a caller, the shell or the handler if and only if all is drained, nobody asks for the mutex, and every caller waits or has returned |
| Guarantees.StuckWaiters | jni/su_srv.c:144-147 | in such a state exactly as many callers wait for ever as signals were lost, and the others have returned |
| Progress.EveryStepGoesDown | jni/su_srv.c:127-150 | every step of callers, exit, shell and handler, except a new call and the echo switch, lowers one well-founded measure |
| Progress.NoEndlessRun | jni/su_srv.c:127-269 | no run goes on for ever without new calls, whatever the order of its steps; no fairness is assumed |
| Progress.EveryRunSettles | jni/su_srv.c:127-150 | once no new call is made, every run that moves while it can reaches a state that cannot go on; unless exit was called, every caller has then returned or waits for ever, and those that wait are as many as the lost signals |
| Guarantees.DrainedIsAnswered | jni/su_srv.c:227-250 | with both FIFOs, shell and handler drained, the bytes read are the whole reference reply and every frame was signalled |
| Guarantees.BytesConserved | jni/su_srv.c:227-269 | in every state of every run arrived lines plus the line in hand or the fragment are the bytes read |
| Logging.LogIsExact | jni/su_srv.c:251-266 | in every run, with any number of callers and any echo toggling, the log's command entries are the commands logged in lock order and then the exit request, its output entries exactly the lines without the tag that arrived while echo was on, in order; the last line kept is the last one without the tag |
| Logging.LineArrives | jni/su_srv.c:243-256 | a line is a tag line if it holds the tag, else it is logged if echo is on and silenced if not |
| Logging.EchoStep | jni/su_srv.c:193-197 | the switch sets the echo, and no other step changes it |
| SingleClient.SingleClientDelivery | jni/su_srv.c:134-149 | a single client's i-th exec returns command i's status if a code was stored between its reset and its read, which needs terminated output, and -9996 otherwise; never another command's status |
| SingleClient.WaitingClientGetsStatus | jni/su_srv.c:144-149 | a tag line whose code is stored while its caller waits delivers that command's status |
| SingleClient.ClientHangsIff | jni/su_srv.c:144-147 | when nothing can move any more the newest call waits for ever if and only if its signal was sent while it was still submitting; otherwise it has returned |
| Transcript.TranscriptTheorem | jni/su_srv.c:137-147 | for a single client with echo on, when the newest call has returned the log is exactly each command line followed by its output up to the last LF, and no output entry holds the tag |
| Transcript.EntriesText | jni/su_srv_log.c:94-101 | the log entries of whole commands render as "# ", the command and LF, then the output up to its last LF |
| Outcomes.ClientMayHang | jni/su_srv.c:243-250 | for every command and shell a run of a single client ends with the caller waiting and no step left that could wake it |
| Outcomes.ClientMayGetInvalid | jni/su_srv.c:144-149 | for every command and shell a run of a single client returns -9996 |
| Outcomes.ClientMayGetStatusIff | jni/su_srv.c:144-149 | a run of a single client returns the command's status, when it is not -9996, if and only if the output is terminated |
| Outcomes.CallerMayGetOthersStatus | README.md:181 | for all commands a and b, a with terminated output, a run exists in which the caller of b returns the status of a |
| Outcomes.NextCallerMayEraseStatus | jni/su_srv.c:144-149 | for all commands a run exists in which the first caller is signalled in time and still returns -9996, while the next caller has the mutex |
| Outcomes.ExitMayWakeCaller | jni/su_srv.c:162-165 | for all commands a run exists in which the exit request's signal, before any line was scanned, wakes a caller that returns -9996 |
| Teardown.StopProcess | jni/su_srv.c:323-359 | for any retry bound: 0 if and only if the first non-zero poll within the bound is the child's pid; exactly as many polls as needed; one kill if and only if the first poll finds the child running |
| Teardown.StopAgrees | jni/su_srv.c:336-358 | polls of either thread, interleaved with the other thread, the child and the socket, end as the stop loop does on the same answers |
| Teardown.DeletedAtMostOnce | jni/su_srv.c:393-398 | in every interleaving the session is deleted at most once and neither thread uses it afterwards |
| Teardown.ExitFirstExcludesHandler | jni/su_srv.c:271-285 | once exit holds the mutex the handler never takes it, and only exit deletes, after the handler thread has ended |
| Teardown.ExitResult | jni/su_srv.c:152-183 | exit returns 0 if and only if its stop loop succeeded and the handler was joined, and then the session is gone; -1 leaves it bound and the mutex locked; -9997 means that the handler ended it before |
| Teardown.HandlerStops | jni/su_srv.c:277-280 | when the handler is about to delete the session it owns the mutex and its own stop loop is over, successful or not, as the loop's contract says |
| Teardown.ExitReturnsIff | jni/su_srv.c:152-183 | no run is longer than 2 * bound + 13 steps; where neither thread can move, exit has returned if and only if it is not joining a handler that still reads an open socket |
| Teardown.ExitMaySucceedIff | jni/su_srv.c:172-178 | some run has exit return 0 if and only if the retry bound is positive |
| Teardown.ExitMayHangIff | jni/su_srv.c:175 | some run leaves exit joining, with the shell reaped and the socket open, if and only if the retry bound is positive |
| Teardown.ExitMayFail | jni/su_srv.c:172-182 | for every bound some run has exit return -1 with the handler ended, the session bound and the mutex locked |
| Teardown.HandlerMayLeaveChild | jni/su_srv.c:277-280 | for every bound some run has the handler delete the session while the shell runs, and exit return -9997 |
| ProcTable.CapacityBounds | jni/su_shell_tools.c:104-109 | capacity is 32 or 32 + 16k, never below the rows and less than 16 above them once grown |
| ProcTable.RowOfIff | jni/su_shell_tools.c:87-102 | an entry yields a row if and only if its name is white space, a sign and digits to the end denoting the pid (the number itself inside the range of a `long` of any width, its bound outside; the empty name denotes 0), its cmdline file opens non-empty, and the command is its bytes before the first LF or NUL, at most 254 |
| ProcTable.DecimalDenotes | jni/su_shell_tools.c:87-102 | an entry named by a number in decimal gives a row of exactly that pid, with that process's command |
| ProcTable.RowsExact | jni/su_shell_tools.c:85-116 | the rows are exactly those of the entries that should give one, one each, in directory order |
| ProcTable.ReadEntry | jni/su_shell_tools.c:87-102 | reading an entry yields exactly such a row, or none when there is none |
| ProcTable.AddRow | jni/su_shell_tools.c:104-115 | adding a row keeps the earlier rows, also when the table is reallocated |
| ProcTable.GetProcList | jni/su_shell_tools.c:68-127 | the table holds exactly the readable numeric entries in directory order, at the capacity 16-row growth gives |
| ProcTable.GetPid | jni/su_shell_tools.c:20-66 | the lookup's own early-stopping scan of /proc answers the first non-negative pid of that name among the rows of the directory, failing that the last one, failing that -1; with non-negative entry names that is the first row of the name, and in general it agrees with it exactly under the condition of AgreeIff |
| ProcTable.WalkIsAnswer | jni/su_shell_tools.c:34-61 | what the walk answers, told by the rows: first non-negative pid of the name, else the last, else -1 |
| ProcTable.WalkFindsFirst | jni/su_shell_tools.c:34-61 | with non-negative entry names the walk is the first row of that name |
| ProcTable.FirstWithIsFirst | jni/su_shell_tools.c:55-56 | the table lookup is the pid of the first row with the name, and -1 when no row has it |
| ProcTable.AgreeIff | jni/su_shell_tools.c:34-57 | walk and first row agree if and only if the first row of the name has a non-negative pid, or none has and the last one has the same pid |
| ProcTable.NegativeNameBreaksAgreement | jni/su_shell_tools.c:34-57 | a directory with entries -5 and 7 of one command name, where the lookup gives 7 and the table's first row -5 |
| Paths.Format05Length | jni/su_shell_session.c:28-29 | `%05d` takes exactly five characters from -9999 to 99999 and more outside |
| Paths.Format05Meaning | jni/su_shell_session.c:28-29 | `%05d` prints digits, after a minus sign for a negative number, that read back as the number and fill at least five characters, more only if needed |
| Paths.SocketPathText | jni/su_shell_session.c:141-145 | for every pid the socket path is the full text cut to root, fixed part and five characters |
| Paths.SocketPathFits | jni/su_shell_session.c:132-134 | a root is accepted if and only if the path and its NUL fit into 108 bytes, whatever the pid |
| Paths.SocketPathExact | jni/su_shell_session.c:141-145 | the socket path is untruncated if and only if the pid has at most five characters, and injective on 0 to 99999 |
| Paths.SocketPathsCollide | jni/su_shell_session.c:28-29 | a pid of six or more digits shares its socket path with the pid without its last digit |
| Paths.LogPathText | jni/su_srv_log.c:29-37 | for every pid the log path is the full text cut to the buffer |
| Paths.LogPathExact | jni/su_srv_log.c:21-37 | the log path is untruncated if and only if the pid has at most five characters, and injective below 1000000000 |
| Paths.LogPathsCollide | jni/su_srv_log.c:21-37 | a pid of ten or more digits shares its log path with the pid without its last digit |
| Paths.PathsDiffer | jni/su_srv_log.c:21-37 | under one root no log path is a socket path, whatever the pids |
| Paths.InitAfUnAddress | jni/su_shell_session.c:130-153 | fails with -1 exactly for roots that are too long and then leaves the address alone; else `sun_path` holds the socket path as a C string |
| Paths.InitLogPath | jni/su_srv_log.c:26-37 | the log path buffer holds the log path as a C string |
| Facade.SuShells.GetInstance | src/org/openmarl/susrv/SuShell.java:84-105 | a bound instance is returned unchanged; otherwise a new object is bound if and only if a native session exists or opens and does not die while its environment is set up; nobody is notified |
| Facade.SuShells.AddObserver | src/org/openmarl/susrv/SuShell.java:127-130 | appends one registration to that object's list, leaves every other object's list alone and returns the list's size |
| Facade.SuShells.RemoveObserver | src/org/openmarl/susrv/SuShell.java:139-142 | removes exactly the first registration of the given observer from that object's list, nothing if there is none, and returns the list's size |
| Facade.SuShells.Ping | src/org/openmarl/susrv/SuShell.java:173-183 | answers whether a native session is bound; if it is, nothing changes; if not, the object's observers are notified and forgotten and the instance unbound, other objects' lists stay |
| Facade.SuShells.Exec | src/org/openmarl/susrv/SuShell.java:395-403 | returns the native result and changes nothing, -9996 included; invalidates, notifying the object's observers, and throws exactly when there is no session or the native exec answers -9997 |
| Facade.SuShells.Exit | src/org/openmarl/susrv/SuShell.java:380-383 | unbinds the instance whatever the native exit answers, leaves all observer lists alone and notifies nobody; the session survives if and only if the answer is -1 |
| Facade.SuShells.InvalidatedSessionError | src/org/openmarl/susrv/SuShell.java:536-543 | every listed observer is notified once, in order, and the list emptied |
| Facade.ObserverConservation | src/org/openmarl/susrv/SuShell.java:127-142 | over every sequence of operations each registration is in exactly one of listed, removed or notified, there once and with one object only, and nothing else is anywhere |
| Facade.StaleInstanceIff | src/org/openmarl/susrv/SuShell.java:84-105 | an instance is bound without a native session if and only if the session died while it was bound and no ping, exec or exit followed |

## Left out

- `fork`, `execve`, `dup2`, the socket rendez-vous, signal masks and `find_su_binary`: the model starts after a successful open.
- Failing allocation, mutex or thread creation: the error branches are unfinished in the code; success is assumed.
- Exec callers in flight while the session is deleted, and exit racing a handler that already holds the mutex: they touch freed state, so the teardown model excludes them and no abort delivery is claimed.
- In the session protocol the socket stays open: end of file, and a read that fails, are modelled in the teardown only.
- `su_srv_exec` and the exit call as imperative methods: they interleave with other threads between any two actions, so they are modelled on values as steps; update in place of the session's fields by several threads is what the step relation expresses.
- `sscanf` of a number that does not fit an `int` is undefined in C; the model stores the number itself. Statuses printed by a shell fit.
- Diagnostic log lines starting with `[su_srv]`; no exec call writes one while a session is bound.
- Shell language beyond "a line yields output and a status, a blank line nothing, the echo line the tag and `$?`"; `chmod`, `cp` and `mkdir` command building.
- `importAsset`, `getLastTtyLine` and the other getters, `su_srv_pfs.c`, the JNI glue, `SuShellAsyncInit` and the build: easy members only.
- ProcTable.GetPid: cmdline files whose first string is empty are excluded, because the code then reads the byte before its buffer.
- Facade.SuShells: SuShell objects are handles into a list of observer lists, so observer identity is a number and callbacks are entries of a list.
