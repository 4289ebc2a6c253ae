# A verified model of the core of gazoo-device

gazoo-device (GDM) controls smart devices in a test lab. This project models the parts of it that are algorithms or
state machines rather than device I/O, and proves what each of them promises. Code that updates state in place is a
class or a method with loops, proved against a function; what that function means is then proved in lemmas.

| Files | What they model |
|---|---|
| `UnmatchedEvents`, `OptimalPairing`, `EffectOrder`, `RebootMatching` | Pairing causes (reboot triggers) with effects (bootups): the greedy loop, the deletion of the matched entries, and the proof by exchange that the greedy choice is a maximum matching, down to the log file |
| `EventHistory`, `HistoryAnswers`, `EventWaiting`, `EventLabels`, `SampleLogs` | The event queries over a log file (reverse, grep, limit, count) as fast forms of one list, and which of the file's lines they answer with; waiting for labels while the log grows |
| `ImplicitExport`, `Registry`, `RegistryRuns`, `RegistryContents`, `RegistryLimits`, `Registrar`, `NameResolution` | Registering extension packages: the worklist of implicit exports, the staged commit with rollback, which packages are accepted and what the registry then holds, what every run of registrations keeps, and `has_capabilities` as the reader of the registry |
| `LogSync`, `LogDelivery`, `HandlerOrder`, `LogFlush`, `MultiprocessLogging` | Logging through a queue and a consumer thread: `sync` and `stop` as barriers in every interleaving, and the switch of modes that must not change who receives what |
| `Readiness` | `make_device_ready` against a device that may answer every action in any way |
| `OpenDevices` | The manager's open devices and the user counts of shared instances |
| `Detection`, `DetectionEntries`, `DetectionRepeats`, `DeviceDetector`, `Redetection`, `RedetectionSaves` | Detecting devices and redetecting one, as transactions over two coupled pairs of dictionaries |
| `TextBuffer`, `TextPieces`, `ConsoleBatches`, `Console` | The console's bounded text area, and batches of log lines that must look like single lines |
| `Common` | Option, Result, and sequences: filtering, deleting, positions |

Things outside GDM are parameters on which nothing is assumed, except what a `Valid` predicate says: whether a line
matches a label and how it is parsed, class attributes and conformance checks, what a device answers, which connections
belong to which device class. Where every step depends on outside events (`LogSync`, `EventWaiting`, `OpenDevices`) the
theorems are about every sequence of them.

## Where the code does less than its documentation says

The model follows the code. For each point the theorems named say exactly when the code does what is expected, or show
what happens instead.

- When two different causes carry the same time, `get_unmatched_events` looks up the *first* of them for both matches, so
  the second one stays, fewer causes than effects disappear, and a cause and an effect that could be matched can both be
  returned (`OptimalPairing.BalancedExactlyWhen`, `OptimalPairing.ExhaustedExactlyWhen`).
- Its early `break` relies on newest-first effects, that is, on a log whose times never go back
  (`EffectOrder.NewestFirstExactlyWhen`, `RebootMatching.OutOfOrderLogLosesAPair`).
- With a start time, `get_event_history` does not apply `count` (`HistoryAnswers.CountBoundsExactlyWhen`).
- A limited history and the last event can miss events if undecodable lines use up grep's limit, and the count includes
  such lines (`EventHistory.LimitedIsPrefix`, `EventHistory.LastIsHead`, `EventHistory.CountIsLength`,
  `EventLabels.GarbledLineMisleads`). A query killed by
  its timeout keeps the newest events if it was limited but the oldest ones if it was not
  (`EventHistory.LimitedTimeoutKeepsNewest`, `EventHistory.UnlimitedTimeoutKeepsOldest`).
- The queries look for lines that mention a label. An event whose line merely quotes the label, or has a longer label that
  ends in it, is returned and waited for like an event of the label (`EventLabels.EventsCarryLabelExactlyWhen`,
  `EventLabels.MentionIsNotLabel`, `EventLabels.WaitsForWrongEvent`).
- `wait_for_event_labels` in order asks for the newest event of each label only. It can overlook events in the right order
  (`EventWaiting.LaterRepeatHidesOrder`); the contract of `EventWaiting.FindEventLabelsInOrder` says exactly when it
  succeeds on a log that no longer grows. Waiting without order never succeeds if a label is given twice, by the contract
  of `EventWaiting.FindAllEventLabels`.
- Within one package, two flavors, or two interfaces, with the same generated name pass the uniqueness checks, which look at
  the keys of a dictionary: one of them is lost (`RegistryLimits.TwinFlavorIsLost`, `RegistryLimits.TwinInterfaceIsLost`,
  `RegistryRuns.FlavorsFoundExactlyWhen`, `RegistryLimits.InterfacesFoundExactlyWhen`).
- Nothing stops a new interface from taking the name of an older flavor, so interface and flavor names are not claimed to
  be disjoint (`RegistryLimits.InterfacesFoundExactlyWhen`, `RegistryLimits.FlavorHidesInterface`). An interface that takes
  the name of an older capability passes its own checks and is stopped by the one of the flavor names
  (`RegistryLimits.InterfaceChecksPass`, `RegistryLimits.InterfaceNamedLikeCapability`).
- `register` rolls back on PackageRegistrationError only. Another exception from a check leaves the interfaces, and possibly
  the flavors, registered (`RegistryLimits.CrashUnchangedExactlyWhen`, `RegistryLimits.CrashLeavesInterface`). The CLI mixins
  are not in the backup copy, but no check follows their change.
- After a `sync` that timed out, a later `sync` can return too early (`LogSync.BarrierExactlyWhen`,
  `LogSync.TimeoutSpoilsNextSync`).
- After the switch to multiprocess logging a handler added twice hears twice, a handler removed while records for it are
  queued misses them, and records below DEBUG of a component with a lowered log level are gone
  (`LogDelivery.StepSimulatesExactlyWhen`, `LogDelivery.AlongsideExactlyWhen`, and the last three lemmas of `LogDelivery`).
- `redetect` of a name that exists as a primary and as an auxiliary device deletes the primary entry only, and may lose it
  (`Redetection.FindsAgainExactlyWhen`, `Redetection.TwinIsLost`).
- A device that is detected without an address stops the next detection (`DetectionRepeats.CanRepeatExactlyWhen`).
- `create_device` leaves a new device open if `make_device_ready` raises something other than a DeviceError (the contract of
  `OpenDevices.Manager.CreateDevice`, and that of `OpenDevices.Manager.Execute` for programs).
- A console cursor whose line is dropped can end in different columns in one batch and in several
  (`TextPieces.PiecesAgreeExactlyWhen`, `ConsoleBatches.BatchesKeepCursorExactlyWhen`, `ConsoleBatches.BatchMovesCursor`).

## Model

| member | source | states |
|---|---|---|
| UnmatchedEvents.NearestDatetime | gazoo_device/capabilities/event_parser_default.py:1720-1746 | The latest time strictly before the target; None exactly when there is none |
| UnmatchedEvents.FindMatches | gazoo_device/capabilities/event_parser_default.py:1200-1223 | The pairing loop matches the newest effects, each with the first cause at the nearest earlier free time, up to the early break |
| UnmatchedEvents.DeleteMatched | gazoo_device/capabilities/event_parser_default.py:1227-1242 | With no effects nothing is deleted; otherwise the "both lists non-empty" guard never skips a match |
| UnmatchedEvents.GetUnmatchedEvents | gazoo_device/capabilities/event_parser_default.py:1139-1242 | The method with its loops computes the closed form, also for histories that timed out |
| UnmatchedEvents.TimedOutUnmatched | gazoo_device/capabilities/event_parser_default.py:1139-1242 | A history that timed out counts as empty: the other one is returned as it is |
| UnmatchedEvents.SortIsIrrelevant | gazoo_device/capabilities/event_parser_default.py:1224-1242 | Sorting the matches by time delta does not change what is deleted |
| UnmatchedEvents.DeleteAllIsRemoveFirsts | gazoo_device/capabilities/event_parser_default.py:1227-1242 | Deleting entries one after the other removes, of each, as many first occurrences as asked for, in any order |
| OptimalPairing.Exchange | gazoo_device/capabilities/event_parser_default.py:1200-1223 | Giving the newest effect its nearest earlier cause costs any pairing at most one pair |
| OptimalPairing.NoLargerPairing | gazoo_device/capabilities/event_parser_default.py:1200-1223 | No one-to-one pairing of causes with strictly later effects has more pairs than the loop finds |
| OptimalPairing.GreedyPairing | gazoo_device/capabilities/event_parser_default.py:1200-1223 | The times the loop picks are those of a one-to-one pairing |
| OptimalPairing.GreedyIsMaximum | gazoo_device/capabilities/event_parser_default.py:1200-1223 | For newest-first effects the greedy matching is a maximum one: the early break loses no pair |
| OptimalPairing.UnmatchedIsOptimal | gazoo_device/capabilities/event_parser_default.py:1139-1242 | As many causes as effects are removed, the maximum of any pairing; the returned lists are order-preserving sublists missing exactly the matched entries; no returned cause is earlier than a returned effect |
| OptimalPairing.NothingPairableLeft | gazoo_device/capabilities/event_parser_default.py:1139-1242 | No returned cause could have caused a returned effect |
| OptimalPairing.SecondCauseStays | gazoo_device/capabilities/event_parser_default.py:1217-1242 | A cause that is not the first one at its time is never removed |
| OptimalPairing.SameTimeCausesUnbalance | gazoo_device/capabilities/event_parser_default.py:1217-1242 | Two different causes at one time make the removals unequal for some effects |
| OptimalPairing.BalancedExactlyWhen | gazoo_device/capabilities/event_parser_default.py:1217-1242 | Removals are equal in number for all newest-first effects if and only if causes of the same time are equal entries |
| OptimalPairing.ExhaustedExactlyWhen | gazoo_device/capabilities/event_parser_default.py:1217-1242 | No returned cause is earlier than a returned effect, for all newest-first effects, if and only if causes of the same time are equal entries |
| EffectOrder.LaterAfterEarlier | gazoo_device/capabilities/event_parser_default.py:1209-1220 | For any effects not in newest-first order: causes of one time for which the early break loses a pair, and a pairable cause and effect are returned |
| EffectOrder.NewestFirstExactlyWhen | gazoo_device/capabilities/event_parser_default.py:1139-1242 | The removals are a maximum for all causes, and nothing pairable is returned for all causes, if and only if the effects come newest first |
| EventHistory.GetEventsFromJsonOutput | gazoo_device/capabilities/event_parser_default.py:280-336 | It raises if and only if a line is JSON without a usable timestamp; otherwise the events are, one each and in order, those of the lines that decode to one from the start time on, with the line's own values for exactly those of its labels that were asked for, or for all |
| EventHistory.GrepReverse | gazoo_device/capabilities/event_parser_default.py:378-404 | Searching the reversed file gives the reversed matches |
| EventHistory.GrepMaxIsTake | gazoo_device/capabilities/event_parser_default.py:489-520 | grep that stops at the n-th match prints the first n matches |
| EventHistory.QueriesDecodeOneList | gazoo_device/capabilities/event_parser_default.py:339-520 | The full and the limited query decode the same newest-first list of lines, or its beginning |
| EventHistory.LimitedIsPrefix | gazoo_device/capabilities/event_parser_default.py:449-520 | The limited history is a prefix of the full one, and its first n events if and only if no undecodable line uses up the limit or nothing decodable is older |
| EventHistory.LastIsHead | gazoo_device/capabilities/event_parser_default.py:209-277 | The last event is the head of the full history if and only if the newest relevant line decodes or none does |
| EventHistory.CountIsLength | gazoo_device/capabilities/event_parser_default.py:407-446 | The count is the length of the full history if and only if every line that mentions the label decodes |
| EventLabels.GarbledLineMisleads | gazoo_device/capabilities/event_parser_default.py:315-321 | A file with an undecodable newest line, on which the limited history, the last event and the count all disagree with the full history |
| EventHistory.StartTimeFilters | gazoo_device/capabilities/event_parser_default.py:309-336 | A start time keeps exactly the events at or after it, in order |
| HistoryAnswers.CountBoundsExactlyWhen | gazoo_device/capabilities/event_parser_default.py:601-788 | Over all files, at most count events are returned if and only if no start time is given, a label is unknown, or no line can give an event from the start time on |
| EventHistory.LimitedTimeoutKeepsNewest | gazoo_device/capabilities/event_parser_default.py:489-520 | A limited query that is killed returns a prefix of the full history: its newest events; and what it would have returned if and only if the lines it did not print decode to nothing |
| EventHistory.UnlimitedTimeoutKeepsOldest | gazoo_device/capabilities/event_parser_default.py:378-404 | An unlimited query that is killed returns a suffix of the full history: its oldest events; and all of it if and only if the lines it did not print decode to nothing |
| HistoryAnswers.GetEventHistoryMeans | gazoo_device/capabilities/event_parser_default.py:601-788 | On a file read to its end: an error for an unknown label, all events from a start time on, at most count of the newest, or all of them; position by position these are the events of the lines that mention a label, the last line first, with the values of the labels asked for |
| HistoryAnswers.LimitedMeans | gazoo_device/capabilities/event_parser_default.py:449-520 | A limited query answers with the events of the last `limit` lines that mention a label |
| HistoryAnswers.LastMeans | gazoo_device/capabilities/event_parser_default.py:209-277 | The last event is that of the last line that mentions the label, and missing if and only if that line decodes to none or there is no such line |
| HistoryAnswers.HistoryFailsExactlyWhen | gazoo_device/capabilities/event_parser_default.py:309-336 | A history raises if and only if a line that mentions a label is JSON without a usable timestamp |
| HistoryAnswers.NoFile | gazoo_device/capabilities/event_parser_default.py:209-240 | Without an event file every query times out empty, after the check for unknown labels |
| HistoryAnswers.NothingToGrepFor | gazoo_device/capabilities/event_parser_default.py:378-404 | With empty labels only, the unlimited history answers with what grep reads from standard input, and the others with nothing |
| HistoryAnswers.KilledQueries | gazoo_device/capabilities/event_parser_default.py:209-277 | A killed history of all labels is empty, a killed count 0, and a killed query for the last event right or empty |
| HistoryAnswers.HistoryIsNewestFirst | gazoo_device/capabilities/event_parser_default.py:339-404 | If events are appended in the order of their times, every history is newest-first |
| RebootMatching.UnmatchedInLog | gazoo_device/capabilities/event_parser_default.py:1139-1242 | For every such log file whose causes differ in time: get_unmatched_events, with its queries, leaves out a maximum matching and returns nothing that could be matched |
| RebootMatching.OutOfOrderLogLosesAPair | gazoo_device/capabilities/event_parser_default.py:1209-1220 | A log file, written across a clock change, for which get_unmatched_events returns a cause and a later effect |
| RebootMatching.CountIsExceeded | gazoo_device/capabilities/event_parser_default.py:766-775 | A query for at most one event from a start time on that can return more |
| EventWaiting.QueryIsLogged | gazoo_device/capabilities/event_parser_default.py:209-277 | Whatever a query of the growing file reports is an event in the log, on a line that mentions the label |
| EventWaiting.OnePass | gazoo_device/capabilities/event_parser_default.py:1588-1607 | One pass splits the labels into found and missed; for each found one the log has an event, on a line that mentions it, between the start time and the reported time; on a complete log exactly those with a recent newest event are found |
| EventWaiting.FindAllEventLabels | gazoo_device/capabilities/event_parser_default.py:1563-1610 | When all labels are reported found, each is mentioned by the line of an event at or after the start time, the reported time is that of one of them, and no label was given twice; on a complete log it succeeds if and only if the newest such event of every label is recent enough and no label is given twice |
| EventWaiting.FindEventLabelsInOrder | gazoo_device/capabilities/event_parser_default.py:1523-1561 | Success means events on lines that mention the labels in the given order, with non-decreasing times from the start time on, while the log grows; on a complete log it succeeds if and only if the newest such events are in order |
| EventWaiting.WaitForEventLabels | gazoo_device/capabilities/event_parser_default.py:1442-1521 | True is sound, in the sense of lines that mention the labels, in both modes while the log grows, and given exactly when the newest such events allow it on a complete log; False is returned only if errors are not to be raised; unknown labels raise |
| EventWaiting.NewestInOrderMeans | gazoo_device/capabilities/event_parser_default.py:1540-1561 | The recursive success condition is: the first newest event is not too old and none is older than the one before |
| EventWaiting.LaterRepeatHidesOrder | gazoo_device/capabilities/event_parser_default.py:1540-1561 | A complete log with events in the right order, and time enough, for which waiting in order fails |
| EventLabels.EventsCarryLabelExactlyWhen | gazoo_device/capabilities/event_parser_default.py:309-336 | For every file: all events in the history of a label carry it if and only if every line that mentions it and decodes is an event of that label |
| EventLabels.MentionIsNotLabel | gazoo_device/capabilities/event_parser_default.py:322-331 | A log whose history of one label consists of an event of a longer one |
| EventLabels.WaitedForCarry | gazoo_device/capabilities/event_parser_default.py:1540-1561 | If every line that mentions the labels is an event of theirs, waiting in order means events that carry the labels, in order |
| EventLabels.WaitsForWrongEvent | gazoo_device/capabilities/event_parser_default.py:1588-1608 | A log without any event of the label for which waiting succeeds |
| ImplicitExport.ReachableInClosed | gazoo_device/package_registrar.py:447-480 | A closed set with the exported classes holds every class reachable through flavors, sub-flavors and used device classes |
| ImplicitExport.ClosureIsLeast | gazoo_device/package_registrar.py:447-480 | The reachable classes are the least closed set that holds the exported ones |
| ImplicitExport.ClosureIdempotent | gazoo_device/package_registrar.py:416-504 | Exporting again from the result adds nothing |
| ImplicitExport.ExportDeviceClasses | gazoo_device/package_registrar.py:447-480 | The worklist terminates and yields exactly the reachable device classes with exactly their flavors and sub-flavors |
| ImplicitExport.Export | gazoo_device/package_registrar.py:416-504 | The implicit exports, member by member: the flavors and sub-flavors of every reachable device class; of their proper parents those that are no base class and abstract, empty or listed; the communication types of the reachable classes; and the reachable auxiliary and primary classes that were not listed |
| Registry.Bind | gazoo_device/package_registrar.py:335-338 | A dictionary from names to classes has every name, each bound to a class of that name |
| RegistryRuns.WithInterfacesInv | gazoo_device/package_registrar.py:332-348 | Writing the interfaces keeps the listing under capabilities exact and interface names apart from capability names |
| RegistryRuns.RegisterKeepsInv | gazoo_device/package_registrar.py:267-413 | Every registration, accepted, rejected or crashed, keeps the invariant: distinct device types, classes under their own names, interfaces listed exactly under their capabilities, interface and capability names disjoint, criteria only for known communication types, distinct key paths |
| RegistryRuns.RegisterGrows | gazoo_device/package_registrar.py:267-413 | No registration removes or rebinds a name, and later names stay clear of the meanings that earlier names have |
| RegistryRuns.RegisteredIsComplete | gazoo_device/package_registrar.py:267-413 | After an accepted registration everything exported explicitly is found in the registry, and so are the reachable auxiliary and primary device classes, flavors, interfaces and communication types; the package entry was not there before |
| RegistryContents.BindsTheLast | gazoo_device/package_registrar.py:335-338 | Of several classes with one name, exactly the last one stays |
| RegistryContents.CompletedMeans | gazoo_device/package_registrar.py:297-326 | The completed exports are what the package lists with what its device classes lead to, and nothing else |
| RegistryContents.RegisteredContents | gazoo_device/package_registrar.py:332-413 | The whole registry after an accepted package: each class under its name, interfaces under their capabilities, device lists, queries, keys with the package's download function, the CLI mixin and the package entry; whatever was not written is as before |
| RegistryContents.WroteIsUnique | gazoo_device/package_registrar.py:332-413 | This describes only one registry |
| RegistryContents.RegisteredExactlyWhen | gazoo_device/package_registrar.py:267-413 | A package is accepted if and only if it is new, has a version, its completed exports have the right kinds of classes and clash with no registered name or device type, the conformance checks pass, its queries are for known communication types, key paths differ, and keys come with a download function |
| RegistryContents.CrashedContents | gazoo_device/package_registrar.py:332-413 | What another exception leaves behind: the interfaces with their capabilities, the flavors unless their own check raised it, and nothing else |
| RegistryRuns.FlavorsFoundExactlyWhen | gazoo_device/package_registrar.py:782-827 | Every flavor of an accepted package is found under its name if and only if no two share one |
| RegistryRuns.BoundExactlyWhen | gazoo_device/package_registrar.py:335-338 | A dictionary by names loses no class if and only if the names differ |
| RegistryRuns.RunKeepsInv | gazoo_device/package_registrar.py:79-159 | The invariant holds after every run of registrations |
| RegistryRuns.RunGrows | gazoo_device/package_registrar.py:79-159 | Bindings only grow over every run of registrations |
| RegistryLimits.CrashUnchangedExactlyWhen | gazoo_device/package_registrar.py:146-159 | After an exception other than PackageRegistrationError the registry is as before if and only if the package brings no new interface name and, once its flavors are written, no new flavor name |
| RegistryLimits.CrashLeavesInterface | gazoo_device/package_registrar.py:332-358 | For every interface: a package whose registration fails in this way although the interface stays registered |
| RegistryLimits.InterfacesFoundExactlyWhen | gazoo_device/package_registrar.py:332-358 | Every interface of an accepted package is what its name means if and only if no two of them share a name and no older flavor has it |
| RegistryLimits.TwinFlavorIsLost | gazoo_device/package_registrar.py:782-806 | Any two flavors of one name are accepted in one package, and only one of them is registered |
| RegistryLimits.TwinInterfaceIsLost | gazoo_device/package_registrar.py:717-741 | So are any two interfaces of one name that is not their capabilities' |
| RegistryLimits.FlavorHidesInterface | gazoo_device/package_registrar.py:782-827 | For every flavor and interface of one name: both are accepted in this order, and the name means the flavor |
| RegistryLimits.InterfaceNamedLikeCapability | gazoo_device/package_registrar.py:808-815 | An interface named like a registered capability is always rejected, by the check of the flavor names |
| RegistryLimits.InterfaceChecksPass | gazoo_device/package_registrar.py:717-779 | Its own checks let such an interface pass |
| Registrar.Globals.CopyExtensions | gazoo_device/package_registrar.py:1052-1063 | The backup has the contents of the registry in new nested dictionaries that later writes cannot reach |
| Registrar.Globals.RestoreExtensions | gazoo_device/package_registrar.py:1066-1077 | After restoring, the registry is the backup's, nested dictionaries included |
| Registrar.Globals.StageInterfaces | gazoo_device/package_registrar.py:267-358 | The first checks and writes, in the source's order |
| Registrar.Globals.RegisterFlavors | gazoo_device/package_registrar.py:350-413 | The flavor stage: conformance may reject or crash with the interfaces already written |
| Registrar.Globals.FinishRegistration | gazoo_device/package_registrar.py:360-413 | The last stage: the remaining validations may reject or raise another exception, and most writes come before the check of the key function, which may still reject |
| Registrar.Globals.RegisterPackage | gazoo_device/package_registrar.py:79-159 | All or nothing: done with exactly the specified registry, or a registration error with the whole registry as before, wherever the check fails |
| Registrar.CallsAreRuns | gazoo_device/package_registrar.py:79-159 | The registries that successive calls leave behind are those of the runs of RegistryRuns |
| Registrar.Globals.UpdateCapabilities | gazoo_device/package_registrar.py:345-348 | The loop joins, per capability, the new interface names with the registered ones and touches nothing else |
| Registrar.Globals.UpdateCriteria | gazoo_device/package_registrar.py:392-396 | The loop joins the nested query dictionaries, without sharing one between communication types |
| NameResolution.Broadest | gazoo_device/base_classes/gazoo_device_base.py:766-778 | Of a capability's interfaces, one with the fewest base classes is taken |
| NameResolution.HasCapabilities | gazoo_device/base_classes/gazoo_device_base.py:721-802 | True if and only if, for every lowered name, a supported flavor is a subclass of the class it stands for: the flavor of that name, else the interface, else the first of the capability's interfaces with the fewest base classes; an unknown name stands for none |
| NameResolution.ResolveMeans | gazoo_device/base_classes/gazoo_device_base.py:759-778 | Which class a name stands for, and that it stands for none if and only if it is neither flavor, interface nor capability |
| NameResolution.SupportedInterfaces | gazoo_device/base_classes/gazoo_device_base.py:796-802 | A device that supports a flavor has every interface above it unless a flavor has that name, and a capability all of whose interfaces it supports |
| NameResolution.BroaderLater | gazoo_device/base_classes/gazoo_device_base.py:766-778 | More interfaces for a capability can only make the chosen one broader |
| NameResolution.GrowingIsStable | gazoo_device/base_classes/gazoo_device_base.py:759-802 | In a grown registry a name that meant a flavor or an interface means the same class, and one that meant a capability still does |
| NameResolution.ResolutionIsStable | gazoo_device/base_classes/auxiliary_device.py:483-563 | So it is in every run: for any past and any future registrations, successful or not |
| NameResolution.AnswersAreFinal | gazoo_device/base_classes/gazoo_device_base.py:721-802 | For such names the answer of has_capabilities for a device never changes |
| LogSync.NextConserves | gazoo_device/multiprocess_logging.py:84-223 | At every step, the records handled followed by those queued are the records emitted, in order |
| LogSync.NextOrderly | gazoo_device/multiprocess_logging.py:174-223 | Without timed-out syncs, at most one SYNC or set event is outstanding, and only during a sync |
| LogSync.NextGuarded | gazoo_device/multiprocess_logging.py:174-223 | While a sync waits behind a mark, it can wake only after all records up to the mark are handled |
| LogSync.NextEnding | gazoo_device/multiprocess_logging.py:157-223 | A thread that has ended took its TERMINATE after every record before it |
| LogSync.RunsAreGood | gazoo_device/multiprocess_logging.py:98-223 | All of this holds in every state of every interleaving |
| LogSync.SyncIsBarrier | gazoo_device/multiprocess_logging.py:174-194 | When sync returns without timing out, every record enqueued before its sentinel has been handled, in order; never more than one SYNC or set event is outstanding |
| LogSync.StopIsBarrier | gazoo_device/multiprocess_logging.py:157-172 | When stop has joined the thread, every record enqueued before has been handled |
| LogSync.OneSyncRun | gazoo_device/multiprocess_logging.py:174-223 | From any state without an older SYNC that matters, one sync call stays guarded in every interleaving |
| LogSync.EarlyEvent | gazoo_device/multiprocess_logging.py:174-223 | From any other state there is an interleaving in which the event is set too early |
| LogSync.BarrierExactlyWhen | gazoo_device/multiprocess_logging.py:174-194 | A sync call is a barrier in all interleavings if and only if no older SYNC or event can wake it before the records are handled |
| LogSync.TimeoutSpoilsNextSync | gazoo_device/multiprocess_logging.py:174-194 | A sync that timed out leaves such a state |
| LogDelivery.CallRendered | gazoo_device/multiprocess_logging.py:84-95 | A record formatted before it is queued is delivered like the original |
| HandlerOrder.CallDelivers | gazoo_device/multiprocess_logging.py:215-223 | Which handlers receive a record, how often, in which order, and what |
| HandlerOrder.LoggedIsDelivered | gazoo_device/multiprocess_logging.py:84-223 | A record its logger passes is delivered so at once in direct mode, and through an empty queue unless it is below DEBUG |
| LogDelivery.StepSimulatesExactlyWhen | gazoo_device/multiprocess_logging.py:84-130 | A step keeps "delivered and pending together are what direct logging has delivered" if and only if it is harmless: the record is stopped by its logger, at DEBUG or above or wanted by nobody; the handler is not there twice, and nothing queued is for it |
| LogDelivery.AlongsideExactlyWhen | gazoo_device/gdm_logger.py:157-179 | The two modes stay together through a run if and only if every step of it is harmless |
| LogDelivery.HarmlessIsUnheard | gazoo_device/gdm_logger.py:56-71 | A step is harmless if and only if the drained logs stay equal, at once and after any one more record |
| LogDelivery.HarmlessWhen | gazoo_device/gdm_logger.py:117-123 | Whatever is logged at a level that a logger at DEBUG passes is harmless, and so is any removal after a flush |
| LogDelivery.RunSimulates | gazoo_device/gdm_logger.py:157-179 | So it is after every run since the switch |
| LogDelivery.SwitchPreservesDelivery | gazoo_device/gdm_logger.py:157-179 | After the switch each handler has received a prefix of what direct logging would have given it, and all of it once the queue is empty |
| LogDelivery.DrainingCompletes | gazoo_device/multiprocess_logging.py:208-223 | Consuming what is queued makes the deliveries equal |
| LogFlush.RunDelivers | gazoo_device/multiprocess_logging.py:196-223 | In every interleaving of producers, consumer and main thread, what was delivered is what was handled, in order |
| LogFlush.SyncFlushes | gazoo_device/gdm_logger.py:74-77 | A flush whose sync succeeds has delivered at least what direct logging had delivered when it was called, whatever is logged meanwhile |
| LogFlush.SyncEmpties | gazoo_device/gdm_logger.py:74-77 | If nothing is logged meanwhile the queue is empty of records afterwards, so removing a handler is harmless |
| LogDelivery.AddedTwiceHearsTwice | gazoo_device/multiprocess_logging.py:114-122 | A handler added again receives records twice, unlike in direct logging |
| LogDelivery.RemovedTooEarlyMisses | gazoo_device/gdm_logger.py:209-224 | A handler removed without a flush misses records |
| LogDelivery.BelowDebugIsLost | gazoo_device/gdm_logger.py:227-235 | Records below DEBUG from a component whose log level was lowered do not reach the queue |
| MultiprocessLogging.LoggingThread.Emit | gazoo_device/multiprocess_logging.py:84-95 | Emitting is the step of LogSync with the formatted record |
| MultiprocessLogging.LoggingThread.RunOnce | gazoo_device/multiprocess_logging.py:208-223 | One turn of the consuming loop is the step of LogSync, and delivers as LogDelivery says |
| MultiprocessLogging.LoggingThread.CallHandlers | gazoo_device/multiprocess_logging.py:196-223 | One delivery for each place in a handler list that is reached and takes the record's level, with that level and the formatted message: the thread's own handlers first, then those of each ancestor as long as the loggers before it propagate |
| MultiprocessLogging.GdmLogger.SwitchToMultiprocessLogging | gazoo_device/gdm_logger.py:157-179 | The thread takes over handlers, propagation and parents; a second switch does nothing |
| MultiprocessLogging.GdmLogger.AddHandler | gazoo_device/gdm_logger.py:56-71 | Adding a handler is the step of the mode the logger is in |
| MultiprocessLogging.GdmLogger.RemoveHandler | gazoo_device/gdm_logger.py:209-224 | Removing a handler is the step of the mode the logger is in |
| MultiprocessLogging.GdmLogger.Log | gazoo_device/multiprocess_logging.py:84-95 | Logging a record, at a logger of any effective level, is the step of the mode the GDM logger is in |
| Readiness.TryToRecover | gazoo_device/base_classes/gazoo_device_base.py:552-591 | The loop follows the policy, and ends finished, given up with an error, or out of attempts |
| Readiness.LastResort | gazoo_device/base_classes/gazoo_device_base.py:606-620 | Reflashes and checks again only under "flash_build" with the capability; otherwise raises the error |
| Readiness.MakeDeviceReady | gazoo_device/base_classes/auxiliary_device.py:579-672 | Every action stands where the order of the events before it allows it, none is allowed at the end, each outcome is the device's answer, and the method ends with what its last action raised |
| Readiness.FollowsExactlyWhen | gazoo_device/base_classes/gazoo_device_base.py:531-620 | A sequence of events is a run of the policy if and only if each check comes first or after something that succeeded, each recovery for a device error of the check just before it, of another type than the last one, with attempts left, and each reflash as in RecoveryBeforeReflash |
| Readiness.FinishedExactlyWhen | gazoo_device/base_classes/gazoo_device_base.py:531-620 | A run is finished if and only if no action is allowed any more; it then ends with what its last action raised |
| Readiness.RecoveryBeforeReflash | gazoo_device/base_classes/gazoo_device_base.py:558-614 | Just before a reflash a recovery failed, or a check failed with the type of the error just recovered from, or with CheckDeviceReadyError after as many recoveries as attempts |
| Readiness.FailedCheckIsRecovered | gazoo_device/base_classes/gazoo_device_base.py:558-590 | A check that raises a device error with attempts left, of another type than the last one recovered, and not in "check_only", is followed by recover with that error |
| Readiness.ForeignEnds | gazoo_device/base_classes/gazoo_device_base.py:558-620 | An exception that is no DeviceError is always the last event, and is raised |
| Readiness.FollowsIsBounded | gazoo_device/base_classes/gazoo_device_base.py:531-620 | What every unfinished run has done: how many checks and recoveries, and when it may reflash |
| Readiness.RecoversANewError | gazoo_device/base_classes/gazoo_device_base.py:558-590 | Each recovery is for the error of the check just before, and never of the same type as the one recovered before |
| Readiness.RaisesOnlyWhen | gazoo_device/base_classes/gazoo_device_base.py:558-614 | It does not give up early: a device error is raised only when only checking, out of attempts, or after a recovery that failed or did not help, and without a reflash only if it must not reflash or the final check raised something other than a CheckDeviceReadyError |
| Readiness.RunsEnd | gazoo_device/base_classes/gazoo_device_base.py:531-620 | No run has more than two actions per attempt and three more |
| Readiness.ReadinessGuarantees | gazoo_device/base_classes/gazoo_device_base.py:531-620 | For all outcomes: returns only for "off" or after a successful check, else raises the error of its last action; bounds on recoveries, checks and reflashes; never recovers under "check_only" |
| Readiness.RunIsUnique | gazoo_device/base_classes/gazoo_device_base.py:531-620 | Against one device there is only one run |
| OpenDevices.Device.Close | gazoo_device/base_classes/auxiliary_device.py:263-298 | Counts a user down, and cleans up at the last one or when forced |
| OpenDevices.Manager.CloseInstance | gazoo_device/base_classes/auxiliary_device.py:263-298 | Keeps the counts right for any handle ever created; closing a stale one changes nothing |
| OpenDevices.Manager.CreateDevice | gazoo_device/manager.py:196-297 | Shares an open auxiliary device with one more user, rejects or reuses an open primary one, or opens a new instance that is closed again if it does not become ready |
| OpenDevices.Manager.RunCalls | gazoo_device/manager.py:196-297 | In every sequence of create_device and unforced close calls, an auxiliary device is open exactly while it has users, and its cleanup runs exactly once |
| OpenDevices.Manager.CloseOpenDevices | gazoo_device/manager.py:171-182 | Leaves nothing open, from every reachable state and whatever the counts |
| OpenDevices.Manager.EnterBlock | gazoo_device/manager.py:313-322 | The beginning of a with block opens a device, adds a user, uses one without counting, or fails, possibly leaving a device open |
| OpenDevices.Manager.LeaveBlock | gazoo_device/manager.py:322-326 | The end of a with block undoes its beginning, whatever its body has called, if the body leaves open devices and user counts as it found them, or has leaked one device |
| OpenDevices.Manager.Execute | gazoo_device/manager.py:300-326 | Nested and sequenced create_and_close_device blocks, also with exceptions, leave open names and user counts as they were if and only if no block that is reached opens a device whose make_device_ready raises something other than a DeviceError; then exactly that device stays open, with one user |
| Detection.DetectOneAdds | gazoo_device/device_detector.py:303-327 | One detected device is added to both maps of its category or to none, and nothing else changes |
| DetectionEntries.DetectOneMeans | gazoo_device/device_detector.py:329-367 | If and only if a new name can be generated, the device gets its entry: in its category, under that name, with the properties read and the name, and the options read with the generic ones unset; nothing else changes |
| DetectionEntries.NewNameMeans | gazoo_device/device_detector.py:466-501 | The name is the device type and the last four characters of the serial number, or the last eight if another serial number has that name |
| Detection.DetectAllAdds | gazoo_device/device_detector.py:303-327 | All earlier entries survive, the name sets of the two maps stay equal, and every candidate is a new entry or a failure |
| Detection.Accounted | gazoo_device/device_detector.py:303-327 | Each candidate has its own entry afterwards or is reported |
| Detection.HandledIsSettled | gazoo_device/device_detector.py:348-367 | Once handled, a device is not added again under any later configuration, whether it has the short or the long name |
| Detection.DetectionIsIdempotent | gazoo_device/device_detector.py:281-327 | Detecting again on the same connections and the resulting configuration changes nothing |
| Detection.DetectionAccounts | gazoo_device/device_detector.py:281-327 | Every connection that is not known ends as an entry or in the not-identified list, with matching numbers; nothing is lost |
| DetectionEntries.ConsideredMeans | gazoo_device/device_detector.py:369-464 | A connection is looked at if and only if no configured device has its address, ADB port removed |
| DetectionEntries.PortGoes | gazoo_device/device_detector.py:452 | Each occurrence of the ADB port is removed |
| DetectionEntries.NoPortStays | gazoo_device/device_detector.py:452 | An address without one stays as it is |
| DetectionEntries.VisitsByType | gazoo_device/device_detector.py:510-571 | Connections are looked at type by type, and in sorted order within a type |
| DetectionEntries.CandidatesInOrder | gazoo_device/device_detector.py:510-571 | Those that are identified are handled in that order, each as the first class that matches |
| DetectionRepeats.CanRepeatExactlyWhen | gazoo_device/device_detector.py:369-389 | After every detection a detector can be made again if and only if no identified connection gives an entry without an address |
| DeviceDetector.Detector.CreateKnownConnections | gazoo_device/device_detector.py:369-389 | Collects exactly the addresses of all entries, or fails if an entry has none |
| DeviceDetector.Detector.AddToConfigs | gazoo_device/device_detector.py:329-367 | Adds to both maps of the category with the default options, or raises and changes nothing |
| DeviceDetector.Detector.IdentifyConnections | gazoo_device/device_detector.py:510-571 | Pairs every identified address with the first matching class and lists the others, in order |
| DeviceDetector.Detector.DetectNewDevices | gazoo_device/device_detector.py:281-327 | The object ends with the configuration, and reports the list, that the theorems of Detection are about |
| Redetection.ManagerConfig.DeleteUnsaved | gazoo_device/manager.py:525-566 | Deletes from the primary maps first, else from the auxiliary ones, on copies |
| Redetection.ManagerConfig.RedetectDevice | gazoo_device/manager.py:980-1056 | Saves the specified configuration, or raises with the old one in place |
| Redetection.RedetectKeepsTheRest | gazoo_device/manager.py:980-1056 | If redetect saves, the device is present with exactly its old options, all other entries are unchanged, and the maps have the same names |
| Redetection.RedetectFindsAgain | gazoo_device/manager.py:1020-1056 | Unless its name is ambiguous, the device was really gone in between and is back in its category |
| RedetectionSaves.SavesExactlyWhen | gazoo_device/manager.py:980-1056 | For a name of one category: redetect saves if and only if its entry is usable, the other entries admit a detector, and the detection finds the name in that category only |
| RedetectionSaves.ConnectedDeviceIsSaved | gazoo_device/manager.py:980-1056 | With its connection identified and leading to its old name, a primary device is saved with new properties and its old options, and nothing else changes |
| Redetection.AmbiguousNameLosesAnEntry | gazoo_device/manager.py:541-566 | A name in both categories: redetect saves although nothing is connected, and the primary entry is gone |
| Redetection.FindsAgainExactlyWhen | gazoo_device/manager.py:980-1056 | Whenever redetect saves, each category that had the name has it again, if and only if the name is not in both, or the remaining entries admit no detector |
| Redetection.TwinIsLost | gazoo_device/manager.py:541-566 | A configuration for which it is lost |
| TextBuffer.LinesFrom | gazoo_device/console.py:102-120 | Cutting a text where a line begins leaves exactly the lines from there on, whatever text follows |
| TextBuffer.KeepLastIsSuffix | gazoo_device/console.py:105-110 | The last lines joined are the text without as many characters as the offset |
| TextBuffer.KeepLastEarly | gazoo_device/console.py:102-120 | Truncating before more text arrives does not change what is kept in the end |
| TextBuffer.DownPresses | gazoo_device/console.py:113-119 | When "down" is pressed it is at least once, and leads into the first kept line |
| TextBuffer.Truncate | gazoo_device/console.py:102-120 | The cursor is always within the text |
| TextBuffer.TruncateKeeps | gazoo_device/console.py:102-120 | The text is the last lines, the dropped prefix is as long as the offset, and a cursor behind it points at the same character |
| TextBuffer.TruncateKeepsLastLines | gazoo_device/console.py:102-120 | At most the maximum number of lines stays, and they are the last ones |
| TextBuffer.TruncateMovesDown | gazoo_device/console.py:113-119 | A cursor in the dropped prefix moves to the first kept line, to its column or the line's end |
| TextBuffer.AppendFollows | gazoo_device/console.py:91-100 | On the last line the cursor follows the text to its end and stays on the last line |
| TextBuffer.AppendHolds | gazoo_device/console.py:91-120 | Elsewhere the cursor keeps its character, row and column, or moves to the first kept line |
| TextBuffer.AppendAllText | gazoo_device/console.py:91-120 | In however many pieces text is appended, the last lines of all of it are shown |
| TextBuffer.PiecesFollow | gazoo_device/console.py:91-120 | With the cursor on the last line, pieces and one append give the same document |
| TextBuffer.PiecesHold | gazoo_device/console.py:91-120 | So they do while the cursor's line is kept |
| TextPieces.SplittingsAgreeExactlyWhen | gazoo_device/console.py:91-120 | Two ways of cutting a text into pieces give the same document if and only if the cursor follows the text or ends in the same column, the least of its own and of the lengths of the lines it was moved to |
| TextPieces.PiecesAgreeExactlyWhen | gazoo_device/console.py:91-120 | Any number of pieces and one append give the same document if and only if the cursor follows, or every line to which a piece but the last moves it is long enough for its final column |
| TextPieces.ShortLineLosesColumn | gazoo_device/console.py:113-119 | For every limit from 3 lines on, a document and two pieces for which they differ |
| ConsoleBatches.BatchesShowTheStream | gazoo_device/console.py:402-428 | For every split into batches, and wherever the user moves the cursors in between, every window's text is that of adding one transformed line at a time |
| ConsoleBatches.WindowShowsLastLines | gazoo_device/console.py:402-428 | That text is the last lines of everything that was for the window |
| ConsoleBatches.ShowLinesAt | gazoo_device/console.py:413-428 | Line by line, a window gets exactly its own transformed lines in order |
| ConsoleBatches.ForWindowMeans | gazoo_device/console.py:413-428 | A window's lines are those that are for it, in order, each the result of applying the substitutions one after the other |
| ConsoleBatches.BatchesKeepCursorExactlyWhen | gazoo_device/console.py:402-428 | Whatever the batches, a window ends in every respect as with single lines if and only if it is a plain one, its cursor follows the text, or no line moves the cursor to a column before the one to which the batches move it |
| ConsoleBatches.BatchKeepsCursorExactlyWhen | gazoo_device/console.py:402-428 | The same for one batch, in terms of the first kept lines |
| ConsoleBatches.LinesMoveFurther | gazoo_device/console.py:402-428 | Single lines never leave the cursor to the right of where batches leave it |
| ConsoleBatches.BatchMovesCursor | gazoo_device/console.py:402-428 | A full window of the real size for which one batch of two lines and the single lines differ |
| Console.TextArea.AppendText | gazoo_device/console.py:91-100 | The method updates the document as the function of TextBuffer says, at 100000 lines |
| Console.TextArea.TruncateText | gazoo_device/console.py:102-120 | The same for truncation |
| Console.ConsoleApp.SortIntoWindows | gazoo_device/console.py:414-419 | The dictionary holds, for each window, its lines in order, and no empty list |
| Console.ConsoleApp.TransformLine | gazoo_device/console.py:422-426 | There is a sequence of texts from the line to the result in which each is a substitution applied to the one before |
| Console.ConsoleApp.AddTextToWindow | gazoo_device/console.py:362-381 | Only the named window changes; text for an unknown window is dropped |
| Console.ConsoleApp.ProcessDeviceLogs | gazoo_device/console.py:402-428 | The screen ends as the batch function of ConsoleBatches says, in whatever order the windows are taken |

## Left out

- The `tac`, `grep`, `head` and `timeout` processes, regular expressions, JSON and datetime parsing: reverse, filter, take, an uninterpreted match and parse, and a cut for a query that is killed. A line cut in the middle by the kill is not modelled, nor are negative limits.
- The wall clock: an increasing function of the queries made so far. Waiting for the file to appear is a query that finds no file.
- The content of messages, names of logged errors, and the summary lists `new_names` and `errs` of a detection.
- Class internals: names, device types, sub-flavors, used device classes and base classes are fixed functions of class ids; conformance checks of flavors, device classes and detection queries may accept, reject or raise another exception, and so may computing a key's path. The checks that classes are subclasses raise nothing else, and an exception before the first write, which changes nothing, is not modelled.
- Registry.Register: lists that the source builds through sets are sets, so the order of device lists is not modelled; an empty string stands for the absent download function of a package without keys.
- Importing packages and loading their command line mixins into the CLI.
- Formatting errors in `QueueHandler.emit`, handlers that raise, changed handler levels, and child processes that log on their own.
- Device classes, serial ports, SSH, ADB and every other transport: the outcome of each action is a parameter.
- OpenDevices.Manager.CloseInstance: forced closes of stale handles, finalisers and atexit handlers are not modelled; a primary device is closed by name, so its stale handle does remove a newer instance, as the contract says.
- OpenDevices.Manager.CreateDevice: unknown names, simulated devices and log file names are not modelled.
- Alias dictionaries, hub ports and power switching during `redetect`; errors while the config files are written.
- Detection.DetectionIsIdempotent: assumes that identification and extraction answer the same at every run, as a parameter must; whether a second detector can be made at all is DetectionRepeats.CanRepeatExactlyWhen.
- DeviceDetector.Detector.IdentifyConnections: the detection log files and the threads that run queries in parallel are not modelled.
- prompt_toolkit is not part of this model: its Document is represented by a text and an offset, with rows, columns and `get_cursor_down_position` as that library documents them. The text of the help window, layout, key bindings and menus are left out.
- Console.ConsoleApp.ProcessDeviceLogs: `re.sub` with a pattern and a replacement is an arbitrary function on lines.
- Usage reports, testbeds, the Fire command line, `usb_port_map.py`, `log_parser.py` and the power capabilities would add easy members only.
