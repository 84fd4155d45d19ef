# winsvc: the service run loop, its handlers and the manager's string codecs

The repository lets a Go program be a Windows service. `svc.Run` starts a goroutine whose `select` loop
stands between the service control manager (SCM) and a handler; `debug.Run` drives the same handler from
the console; package `mgr` reads and writes service configurations as UTF-16. This project models that
logic and proves properties of it. `dafny verify dfyconfig.toml` checks all of it.

**The run loop.** A goroutine is a partial step function over labelled events: each rendezvous on an
unbuffered channel is one event, and an event the goroutine cannot take part in has no step. A run is the
sequence of its events, so "for every run" is "for every sequence that the step function accepts".
`RunLoop` is the loop of `service.run` with an arbitrary handler: a handler may offer any status, receive
at any time and exit with any code. `SetServiceStatus` succeeds or fails at will, always with a non-zero
errno when it fails. `Service` is the same object in imperative form; its methods are proved to follow the
step function and to stop only where it refuses the next offered event.

**The example service.** `ExampleHandler` holds the handler and the worker of `myservice.Execute`, each as a
program-counter machine and as the structured code that is proved to be that machine. `ExampleAnswers` states
what it reports at start-up and in answer to each command. `ExampleService`
composes loop, control callbacks, handler and worker, and proves what the SCM is told over all runs.
`ExampleLiveness` proves deadlock freedom, bounded activity and that Stop leads to Stopped. `ExampleWorker` has
the worker's reports over all runs and when they make an answer to Interrogate stale; `ExamplePreShutdown`
treats the runs with a PreShutdown; `ExampleLanguage` characterises exactly which sequences of states complete
runs report, building a run for each of them with the steps of `ExampleRuns`.

**The other drivers.** `DebugRun` proves that a handler that is only told to stop can observe exactly the
same under `debug.Run` and `service.run`, and with which handlers `debug.Run` cannot deadlock. `Handshake` is the protocol between the
assembly thread `servicemain` and the run goroutine over two auto-reset events, in every interleaving.

**Package mgr.** `Utf16` is the encoding form (definition D91 in section 3.9 of the Unicode Standard) with
U+FFFD for unpaired surrogates; `StringBlock` has the single-string and multi-string codecs; `ServiceConfig`
has `Config` and `UpdateConfig` over one SCM entry, with their get/put laws. `ControlService` is the polling
loop of the example's command line.

## Findings

- `debug.Run` can deadlock: a signal commits the driver to sending Stop, and a handler that is blocked sending
  a status is then never received from again. The package comment promises that Ctrl+C sends Stop. It is
  free of deadlock exactly with handlers that, told nothing but to stop, never get into a state in which they
  can only send (`DebugRun.SafeHandlers`). The example handler is not one of them: a signal before its first
  status deadlocks (`DebugRun.ExampleDeadlocksUnderDebug`), and so does a second Ctrl+C while it sends its
  final StopPending (`DebugRun.SecondSignalDeadlocks`).
- The reported state can go back from StopPending to Running: an Interrogate delivered before the worker's
  first report echoes the older status after it (`ExamplePreShutdown.StaleEcho`). On complete, failure-free
  runs it never goes back if and only if, once StopPending is first reported, the handler has no other status
  still to report and no Pause or Continue is delivered any more (`ExamplePreShutdown.NeverBackIff`).
- A list of strings survives `toStringBlock` and `toStringSlice` exactly when none contains a NUL and the
  block fits into 2^24 units (`StringBlock.MultiStringRoundTrip`); the list of the one string U+0000 is lost
  (`StringBlock.NulStringIsLost`).
- `UpdateConfig` is not atomic: it changes the entry without succeeding exactly when the first call succeeds
  and changes something, and the description contains a NUL or its call fails (`ServiceConfig.UpdateConfig`);
  `ServiceConfig.PanicsHalfway` is such an update.
- Writing back what `Config` returned is a no-op exactly when the stored strings are well-formed and, the
  dependencies apart, at most 4096 units long (`ServiceConfig.ConfigThenUpdate`); a path that is one unpaired
  surrogate is overwritten (`ServiceConfig.LoneSurrogateIsReplaced`).

## Assumptions

- The composed service is sound for at most one delivered PreShutdown; a second would close `shutdown`
  twice. Theorems that need it say so (`PreShutdowns(es) <= 1`), and the worker then stands at `Overlapping`;
  those that do not, such as `CompletedRunsAreInLanguage`, `EveryRunReportsPrefix` and `NeverBackIff`, are on
  runs with a second PreShutdown statements about the model only.
- The reads and writes of the variable `checkpoint`, which handler and worker share, are atomic.
- `goWaits.Wait()` succeeds; the code ignores its error.
- `StringToUTF16Ptr`, `UTF16ToString`, `utf16.Encode` and `utf16.Decode` belong to Go's libraries and behave
  as documented: the first panics on a NUL, the second stops at the first zero unit.
- The SCM's side of the foreign calls (winapi/service.go:166-169) is assumed: a failed call changes nothing
  there, NULL and SERVICE_NO_CHANGE mean "keep" (`ServiceConfig.Scm.ChangeServiceConfig`), and a buffer that is
  too small is refused with the size needed (`ServiceConfig.Scm.QueryServiceConfig`).
- Sleeps in the polling loop last at least their nominal time, and the clock does not run backwards.

## Model

| member | source | states |
|---|---|---|
| ServiceStatus.QuerySeesKnownBits | svc/service.go:160-174 | the manager sees the reported state, each of the four known accept bits unchanged, and no other bit |
| ServiceStatus.ExitCodeDecodes | svc/service.go:175-184 | the two exit-code fields determine (svcSpecific, errno) whenever errno is non-zero, even for a plain 1066 |
| RunLoop.CommandsAreFifo | svc/service.go:215-231 | for any handler, commands received are commands delivered plus at most one pending one, in order, and exactly one of inch and outch is non-nil |
| RunLoop.StatusAgreement | svc/service.go:213-242 | the loop's status is the last one SetServiceStatus accepted, or Stopped, and the SCM holds exactly its record with no error; a rejected status is never adopted |
| RunLoop.RequestsCarryCurrentStatus | svc/service.go:229-242 | every delivered request carries the last status accepted before it, and is the oldest undelivered command |
| RunLoop.QueryAgrees | mgr/service.go:63-73 | what Query returns is the state of the current status and its known accept bits |
| RunLoop.CauseKnown | svc/service.go:221-245 | the exit code the loop ends with is that of the first breaking event; one the loop itself detected is service-specific and non-zero |
| RunLoop.ExitCodeIntegrity | svc/service.go:214-249 | over whole runs every record but the last carries NO_ERROR; the last one is Stopped and decodes to the cause of the exit |
| RunLoop.ExitCodeByEvent | svc/service.go:221-248 | over whole runs the code left behind is the errno of the refused update, 0x20000000 for a missing handle, the callback's errno, or what Execute returned; the last record says Stopped and carries it, as 1066 plus the specific code or as a plain errno, and only the final update and the signal follow |
| RunLoop.HeldRecord | svc/service.go:160-187 | until then the SCM is told state, controls, check point and wait hint of the last accepted status, own-process type, and no exit code |
| RunLoop.FinalRecordShown | svc/service.go:248 | after the final update the SCM shows Stopped with the cause, or the last accepted status if that update failed |
| RunLoop.CallbacksProject | svc/service.go:220-231 | a run of the loop among its callbacks is a run of the loop |
| RunLoop.CallbacksReceivedOnce | svc/service.go:286-299 | a callback that has returned was received exactly once, a blocked one not at all |
| RunLoop.ControlTaken | svc/service.go:286-299 | on the right thread the loop receives the control as it came; on another it receives 0x20000001, ends with it, and delivers nothing more |
| Service.Service.UpdateStatus | svc/service.go:156-188 | what the SCM is told in each field: type, state, the four flags, both exit-code fields, check point and wait hint; its refusal without a handle, and when the SCM's record changes |
| Service.Service.Run | svc/service.go:195-250 | the loop over inch, outch, cmd, status and ec takes part in exactly the events of the step function and ends in its state |
| Service.Service.Finish | svc/service.go:248-249 | the final update and what follows it, in the same sense |
| Service.Service.Announce | svc/service.go:249 | cWaits is set, once, after the final update |
| ExampleHandler.Execute | example/service.go:22-85 | the structured handler goes exactly as far as its program-counter machine with any environment |
| ExampleHandler.EchoTwice | example/service.go:40-44 | both echoes of Interrogate with the sleep between them |
| ExampleHandler.StopAndReturn | example/service.go:83-84 | the last StopPending, carrying the check point read, and the return |
| ExampleHandler.ReportOnce | example/service.go:64-66 | one progress report and the work up to the increment |
| ExampleHandler.RunWorker | example/service.go:48-71 | the worker loop and its deferred close follow the worker machine |
| ExampleAnswers.StartsUp | example/service.go:24-30 | a failure-free run begins with StartPending and then Running with Stop, Shutdown, PauseAndContinue and PreShutdown accepted |
| ExampleAnswers.CommandsAnswered | example/service.go:39-77 | in every interleaving the next report after a Pause is Paused, on the slow tick from then on; after a Continue Running, on the fast tick; after an Interrogate the status it carries; after a Stop or Shutdown StopPending with a check point reached by then, before the return |
| ExampleAnswers.AnswerIsDue | example/service.go:39-83 | until then the handler is about to send that report or to read the check point for it |
| ExampleAnswers.OtherCommands | example/service.go:47-80 | PreShutdown starts the worker at check point 1; it and unknown commands leave the handler at its select on the same tick |
| ExampleAnswers.SecondEcho | example/service.go:40-44 | the report after the first echo is the same status again, and then the handler is back at its select |
| ExampleAnswers.OnlyReturns | example/service.go:84 | after the last StopPending the handler can only return false and 0 |
| ExampleService.SystemProjects | svc/service.go:195-250 | a run of the composed system is a run of the loop and its callbacks |
| ExampleService.ReportsArePublished | svc/service.go:232-248 | the reports of a composed run are the statuses its loop got accepted |
| ExampleService.Reachable | example/service.go:24-83 | the invariant relating loop status, SCM record, handler, tick and worker |
| ExampleService.InterrogateIsNoOp | example/service.go:40-44 | no echo is ever of the initial Stopped or of StartPending, and before a PreShutdown both leave the SCM's record as it is |
| ExampleService.PausedIffSlowTick | example/service.go:72-77 | before a PreShutdown, with the handler at its select, the SCM shows Paused exactly on the slow tick |
| ExampleService.CompletedRunsAreInLanguage | example/service.go:24-84 | a completed failure-free run reports StartPending, Running, any of Running, Paused and StopPending, then StopPending, then one Stopped |
| ExampleService.EveryRunReportsPrefix | svc/service.go:232-248 | every run of the model, failing or not, reports a prefix of such a word, followed at most by Stopped |
| ExampleService.CompletedRunsAttemptStopped | svc/service.go:243-248 | every completed run ends with the attempt to report Stopped, with zero codes exactly when the handler ended it |
| ExampleService.OnceStopping | example/service.go:31-84 | without a PreShutdown, only Stopped follows a reported StopPending |
| ExampleLiveness.SomeStep | svc/service.go:218-246 | names an enabled step in every state that is neither idle nor done |
| ExampleLiveness.QuietIffIdle | svc/service.go:218-246 | deadlock freedom: a reachable state before the loop's return has no enabled step exactly when it is idle |
| ExampleLiveness.MeasureStep | example/service.go:31-83 | every step but ticks and arrivals decreases the measure |
| ExampleLiveness.ActivityIsBounded | example/service.go:31-83 | at most 8 + 202 n internal steps for n controls |
| ExampleLiveness.StopLeadsToStopped | svc/service.go:218-249 | after Stop or Shutdown: at most one more control, one handler report, the worker's remaining reports (at most 30) and one exit; a maximal run has attempted Stopped once and set cWaits |
| ExampleWorker.CheckPointsInOrder | example/service.go:47-71 | in every run with at most one PreShutdown the worker's statuses are check points 1, 2, ... with wait hint 3000, at most thirty, and shutdown is closed at most once, after the thirtieth |
| ExampleWorker.ProgressShown | example/service.go:64 | after the worker's k-th accepted report the SCM is told StopPending with check point k and wait hint 3000 |
| ExampleWorker.EchoIsNoOpIff | example/service.go:40-44 | in such a run an accepted echo leaves the SCM's record as it is exactly when the worker has made no report since the Interrogate was delivered, or, for the second echo, since the first |
| ExamplePreShutdown.PreShutdownProgress | example/service.go:47-71 | the reports after a PreShutdown are check points 1 to 30 with wait hint 3000, then 31, then Stopped; shutdown is closed once, after the thirtieth |
| ExamplePreShutdown.PlannedReportsShown | example/service.go:47-83 | after each of these reports the SCM holds its state, check point and wait hint: k and 3000 after the k-th, 31 and 0 after the handler's last |
| ExamplePreShutdown.PreShutdownCompletes | example/service.go:47-84 | whatever came before, a run with one PreShutdown extends to a complete one without a further delivery or failure |
| ExamplePreShutdown.PreShutdownLeadsToStopped | example/service.go:34-35 | every maximal run with one PreShutdown has returned and set cWaits |
| ExamplePreShutdown.PreShutdownStaysStopping | example/service.go:47-83 | only StopPending is reported until Stopped, unless Pause, Continue or a stale Interrogate is delivered |
| ExamplePreShutdown.StaysStoppingIff | example/service.go:40-83 | on complete failure-free runs every report after the PreShutdown is StopPending, until Stopped, exactly when no such command is delivered |
| ExamplePreShutdown.StoppingIsReported | example/service.go:83 | every complete failure-free run has a first report of StopPending |
| ExamplePreShutdown.NeverBackIff | example/service.go:40-83 | on such runs nothing but StopPending and Stopped follows that report exactly when the handler then has no other status to report and no Pause or Continue is delivered any more |
| ExamplePreShutdown.StaleEcho | example/service.go:40-44 | a run in which Running is reported after StopPending |
| ExampleLanguage.ExactLanguage | example/service.go:22-85 | the sequences of states that complete failure-free runs with at most one PreShutdown report are exactly StartPending, Running, Running/Paused/StopPending in any order that at most thirty progress reports and doubled echoes can produce, StopPending, Stopped |
| ExampleLanguage.EntriesAreBounded | example/service.go:40-83 | every run with at most one PreShutdown enters StopPending at most once per progress report and once more, hence at most 31 times, and at most once without a PreShutdown |
| ExampleLanguage.EntriesReached | example/service.go:40-83 | every number of entries from 1 to 31 occurs |
| DebugRun.Run | debug/service.go:22-45 | the driver's select loop follows its step function |
| DebugRun.SendStop | debug/service.go:33-34 | once committed to a Stop, only the handler's receive or return gets the driver on |
| DebugRun.SimulationStep | debug/service.go:29-38 | each debug step is matched by a service step with the same handler act |
| DebugRun.DebugRefinesService | debug/service.go:29-40 | for any handler, every run under debug.Run is matched by a run under service.run with the same handler states and the same trace |
| DebugRun.StopsRefineDebug | debug/service.go:29-40 | conversely, every run under service.run with Stop controls and successful updates only, up to the return of Execute, is matched by one under debug.Run |
| DebugRun.SameStopTraces | debug/service.go:19-40 | a trace that ends in a handler state is possible under debug.Run exactly when it is possible under service.run with Stop controls only |
| DebugRun.ResultsAgree | debug/service.go:40-44 | debug.Run returns nil exactly when the service's final record carries no error |
| DebugRun.DebugStuckIff | debug/service.go:31-36 | the driver is stuck exactly when it is committed and the handler offers nothing but sends or another request |
| DebugRun.SafeHandlers | debug/service.go:19-38 | debug.Run never gets stuck with a handler, whenever signals come, exactly when the handler, told nothing but to stop, is never in a state in which it can only send |
| DebugRun.SignalDeadlocks | debug/service.go:33-35 | in any such state one signal deadlocks it, while the service, after the same trace, takes whatever status the handler is sending |
| DebugRun.EarlyInterruptDeadlocks | debug/service.go:33-35 | a signal before the first status deadlocks debug.Run with a handler that starts by sending, and not the service |
| DebugRun.ExampleDeadlocksUnderDebug | example/service.go:24 | the example handler is one of those |
| DebugRun.SecondSignalDeadlocks | example/service.go:83 | with the example handler a second signal deadlocks too, while its final StopPending is being sent; the service takes that status |
| Handshake.Reachable | svc/sys_amd64.s:7-29 | the invariant of both threads, and that the loop part of a run is a run of the loop |
| Handshake.Registered | svc/sys_amd64.s:13-20 | there is at most one registration, and the handle in use is its result |
| Handshake.ExecuteStartsAfterPublication | svc/service.go:195-211 | Execute starts only after a successful registration, with the registered handle and the arguments the SCM passed |
| Handshake.EachEventSetOnce | svc/event.go:33-48 | each event is set at most once, and Execute starts only after goWaits was set |
| Handshake.MainReturnsLast | svc/sys_amd64.s:18-33 | servicemain returns because registration failed, and Execute never starts, or after the final Stopped attempt |
| Handshake.HandshakeProgresses | svc/sys_amd64.s:7-33 | unless the loop is at work, one of the two threads can step |
| Handshake.EveryLoopRunOccurs | svc/sys_amd64.s:7-33 | for every non-zero handle every run of the loop occurs after some handshake, with the arguments as passed, and extends to servicemain's return once the loop has returned |
| Utf16.ZeroUnits | mgr/mgr.go:72 | a zero unit arises only from U+0000 |
| Utf16.DecodeEncode | mgr/config.go:64 | decoding inverts encoding, whatever follows in memory |
| Utf16.EncodeDecode | mgr/config.go:64 | encoding what was decoded keeps the length, and the units exactly when they are well-formed |
| Utf16.DecodeCut | mgr/config.go:50 | a cut string decodes to what fits, with U+FFFD for a split pair |
| Utf16.PairsInOrder | mgr/mgr.go:72 | surrogate pairs in unit order have increasing values, all between U+10000 and U+10FFFF |
| Utf16.PairsReachAll | mgr/mgr.go:72 | every such value is that of the pair it is encoded as |
| Utf16.WellFormedIffEncoded | mgr/mgr.go:72 | the well-formed unit sequences are exactly the encodings of strings |
| StringBlock.ToStringBlock | mgr/mgr.go:56-73 | the loop builds the block of the non-empty strings, or nil |
| StringBlock.ToStringSlice | mgr/config.go:53-69 | the index loop scans to the first empty string, or runs off the 2^24-unit view |
| StringBlock.MultiStringRoundTrip | mgr/mgr.go:56-73 | reading a block back gives the non-empty strings exactly when they are NUL-free and fit |
| StringBlock.NulStringIsLost | mgr/mgr.go:63-72 | the block of the list of one string U+0000 reads back as the empty list |
| StringBlock.ScanThenPrint | mgr/config.go:58-67 | printing a scanned block reproduces the units up to the first empty string's terminator exactly when they are well-formed, and nil if it is first |
| StringBlock.SingleStringRoundTrip | mgr/config.go:46-51 | for any string, through nil when it is empty: toPtr panics exactly on a NUL, and otherwise toString gives it back exactly when it has at most 4096 units, and the decoding of the first 4096 if not |
| ServiceConfig.StoredPtr | mgr/mgr.go:49-54 | what the SCM stores for toPtr(s): the units of s, or the old value for an empty s |
| ServiceConfig.PutStores | mgr/config.go:126-139 | each given string, password included, is stored so that it decodes to what was given, an empty one keeps the old value, numbers other than SERVICE_NO_CHANGE are stored, non-empty NUL-free dependencies are stored in order, and the tag stays |
| ServiceConfig.GetReturns | mgr/config.go:102-113 | each returned field, the tag included, is that of the entry, each string whole up to 4096 units, and the password is empty |
| ServiceConfig.UpdateDescription | mgr/config.go:116-124 | the description alone changes, on success |
| ServiceConfig.UpdateConfig | mgr/config.go:126-139 | the resulting entry and result in every case, what is stored field by field, and exactly when the entry changes although the update does not succeed |
| ServiceConfig.PanicsHalfway | mgr/config.go:116-139 | with a NUL in the description UpdateConfig panics with the new path in place and the old description |
| ServiceConfig.ReadConfig | mgr/config.go:71-114 | on the 1024-byte path and the retry path alike the result is the same function of the entry and returns every field of it |
| ServiceConfig.UpdateThenConfig | mgr/config.go:71-139 | after an update Config returns the new non-empty strings, the old value for empty ones, the filtered dependencies, the given types and error control unless SERVICE_NO_CHANGE, the entry's own tag and no password |
| ServiceConfig.DependenciesSurviveIff | mgr/mgr.go:58-73 | non-empty dependencies survive an update exactly when they are NUL-free |
| ServiceConfig.ConfigThenUpdate | mgr/config.go:71-139 | writing back what was read changes nothing exactly when the stored strings are well-formed and short enough |
| ServiceConfig.LoneSurrogateIsReplaced | mgr/config.go:46-51 | a stored path of one unpaired surrogate reads as U+FFFD, and writing it back changes the entry |
| ControlService.Control | example/manage.go:34-61 | at most 34 queries; success exactly when the last status observed is the first with the wanted state |
| ControlService.SlowestPoll | example/manage.go:49-59 | the bound of 34 is reached |

## Left out

- Handshake: servicemain and the run goroutine interleave on shared globals, so they are one transition system on values and not two methods; update in place of the globals is not captured beyond that.
- ExampleService.Step: the composition of the goroutines is a transition system on values for the same reason; the imperative forms are the single goroutines.
- ExampleHandler.Execute: handlers that panic and the close of an already closed channel are not modelled, nor are runs with a second delivered PreShutdown.
- RunLoop.CallbacksReceivedOnce: nothing is claimed about callbacks or goroutines still blocked after the loop has ended.
- ExampleLiveness.StopLeadsToStopped: bounds and maximal runs instead of fairness; ticks and sleeps are plain steps without duration.
- DebugRun.Run: the driver goroutine's steps after Execute has returned are not modelled, since debug.Run has then returned.
- Utf16.Encode: strings are sequences of Unicode scalar values; Go strings that are not valid UTF-8 are not modelled.
- ServiceConfig.ReadConfig: the entry does not change between the first query and the retry, and the strings the SCM returns contain no NUL.
- The event type, event data and context of a control, which the loop never reads, and the conversion of the arguments.
- CreateService, Start, Delete, Connect and the other calls of package mgr that only pass values on.
- svc/sys_386.s, whose handshake is that of svc/sys_amd64.s, and calling conventions.
- newCallback, getServiceMain, the generated foreign-call wrappers, and svc/security.go.
- Packages eventlog and registry, debug/log.go, and the installation and command-line parts of the example.
