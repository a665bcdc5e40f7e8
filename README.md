# Heuristic project scheduling, modelled in Dafny

The `heuristics` package schedules a project made of activities. Each activity
has a duration and a per-time-unit resource demand. It is identified by a pair of
nodes `start-end`, and precedence follows from the nodes: an activity precedes every
activity that starts at the node where it ends. The package has four layers, and
this project models each of them.

- **Activities and the project.**
  - `ActivityID` parses, validates, prints and orders ids.
  - `Activity` validates its fields and finds its predecessors and successors in a list.
  - The initializer wires a whole list.
  - `Project` (and its twin `CPMProject`) sorts the list by id, wires it and totals its resources.
  - The loader validates and converts data lines and refuses duplicate ids.
- **The critical path method (CPM).**
  - A forward sweep in list order computes earliest starts and ends.
  - A backward sweep in reverse order computes latest ends and starts, counted back from the planned end when that end is late enough.
  - Then come the time reserves and the project's start and end.
- **The resource ledger** of the heuristic methods. It is a list holding the capacity left in each time slot. It grows lazily with slots at `r_max`, and scheduling an activity debits its window `[start, start + duration)`.
- **The schedulers.**
  - The serial method takes the activities in list order. Each one is probed forward from the end of its predecessors, jumping past the latest conflicting slot.
  - The parallel method, PHM and PHMDP step through decision times. At each one they collect the viable activities, sort them by (priority, id) and commit each one that still fits.
  - PHMDP recomputes the priorities at every decision time as latest start less the time.

How the model is organised:

- **Activities live in an arena.**
  - Activities are `Activity` records held in the project's `array<Activity>`.
  - Predecessor and successor lists are sequences of positions in that array.
  - `None` stands for a Python attribute that is still `None`.
  - Python's exceptions become the `Error` datatype, returned in a `Result` or an `Outcome`.
- **Classes where state changes in place.**
  - The code that changes things in place keeps the source's form: `Projects.Project`, `Cpm.CriticalPathMethod` and `HeuristicMethods.HeuristicMethod` are classes, and the sweeps, the ledger and the scheduler loops are methods with loop invariants.
  - Each such method states its new state in terms of functions and predicates on sequences: the sweeps and the serial pass as the activities' defined times and earliest fitting starts, the ledger as `Booked`, and a decision time of the parallel loop as `Decision` (the refreshed priorities, `Commit` of the viable list sorted by (priority, id), then `NextFinish`).
  - The parallel loop as a whole records its run, the sequence of states at its decision times, each one following from the one before by `Decision`; what the source promises about the schedule is then proved about every such run.
- **Reference definitions for CPM.** `CpmSpec` defines earliest and latest times recursively over the network. The single sweeps are proved to compute exactly those times whenever list order is a topological order. This holds for a constructed project in which every id has `start < end`.
- **One loop for the parallel schedulers.**
  - The parallel method, PHM and PHMDP share one loop, `Parallel.DecisionLoop`, written after `phm.py`.
  - A `Priorities` value selects the policy:
    - `TimeReserves` for the parallel method and PHM;
    - `DynamicPriorities` for PHMDP.
  - Where the code as written fails, the failure is modelled separately and listed under Findings.

## Model

| member | source | states |
|---|---|---|
| ActivityIds.Make | heuristics/core/cpm/activities/activity_id.py:18-22 | Construction succeeds exactly for two given nodes with 1 <= start <= end and keeps them; a missing node is a TypeError, any other rejection a ValueError |
| ActivityIds.ParseId | heuristics/core/cpm/activities/activity_id.py:37-41 | Succeeds exactly when the text splits at '-' into two numerals, yielding their values; otherwise ValueError |
| ActivityIds.FromStr | heuristics/core/cpm/activities/activity_id.py:24-29 | Accepts exactly what parses and passes validation, with the parsed nodes; every failure is a ValueError |
| ActivityIds.RoundTrip | heuristics/core/cpm/activities/activity_id.py:24-29 | Reading back a printed id gives the same id |
| ActivityIds.CanonicalText | heuristics/core/cpm/activities/activity_id.py:37-41 | Accepted text whose numerals have no leading zero is exactly the printed form of the id it yields |
| ActivityIds.PrintedNumeral | heuristics/core/cpm/activities/activity_id.py:65-66 | A numeral without a leading zero is the decimal printing of its value |
| ActivityIds.NumeralPositive | heuristics/core/cpm/activities/activity_id.py:44-59 | A numeral without a leading zero is at least 1, so it passes the node check |
| ActivityIds.LessIsTupleOrder | heuristics/core/cpm/activities/activity_id.py:76-77 | `<` on ids is lexicographic order on (start_node, end_node) |
| ActivityIds.LessIsStrictTotalOrder | heuristics/core/cpm/activities/activity_id.py:76-77 | `<` is irreflexive, transitive, asymmetric, and relates any two different ids |
| ActivityIds.Equals | heuristics/core/cpm/activities/activity_id.py:68-74 | Equal exactly when both nodes agree; an operand of another kind raises NotImplementedError |
| Activities.ValidateDurationResources | heuristics/core/activities/activity.py:143-154 | Passes exactly for a given, non-negative duration and resource demand; a missing one is a TypeError, a negative one a ValueError |
| Activities.ResolveId | heuristics/core/activities/activity.py:52 | An id object is taken as it is, a string is read with `from_str` |
| Activities.NewActivity | heuristics/core/activities/activity.py:48-71 | The id is resolved first, then the numbers validated, with those errors; a built activity carries the given fields, total resources = duration * resources, and is not scheduled |
| Activities.FreshActivity | heuristics/core/activities/activity.py:60-71 | A freshly built activity has no predecessor or successor list, no CPM time, is not scheduled and is not finished at any time |
| Activities.IsFinishedAsWritten | heuristics/core/activities/activity.py:138-140 | `actual_end <= time` raises TypeError exactly when the end is unset, and otherwise agrees with `IsFinished` |
| Activities.UnscheduledIsFinishedRaises | heuristics/core/activities/activity.py:138-140 | On an unscheduled activity the code as written raises, while the activity is plainly unfinished |
| Activities.GetTimeframe | heuristics/core/activities/activity.py:113-132 | "cpm" gives the earliest window and "serial_method" the actual one, both labelled with the id and demand; any other kind is a ValueError |
| Activities.Equals | heuristics/core/activities/activity.py:160-166 | Compares every field but the predecessor and successor lists; an operand of another kind raises NotImplementedError |
| Activities.EqualsIgnoresWiring | heuristics/core/activities/activity.py:160-166 | Rewiring an activity leaves it equal to itself |
| Activities.EqualsIsEquivalence | heuristics/core/activities/activity.py:160-166 | Activity equality is reflexive, symmetric and transitive |
| Activities.IndicesWhere | heuristics/core/activities/activity.py:93-98 | The filter keeps exactly the positions whose element qualifies, in ascending order |
| Activities.PredecessorsInSpec | heuristics/core/activities/activity.py:93-98 | The predecessors found are exactly the positions of the activities ending where this one starts, in list order |
| Activities.SuccessorsInSpec | heuristics/core/activities/activity.py:106-111 | The successors found are exactly the positions of the activities starting where this one ends, in list order |
| Activities.WiringReadsIds | heuristics/core/activities/activity.py:87-111 | Wiring reads nothing of a list but its ids |
| Activities.DeterminePredecessors | heuristics/core/activities/activity.py:87-98 | Replaces the predecessor list of one activity with the one its id determines; nothing else changes |
| Activities.DetermineSuccessors | heuristics/core/activities/activity.py:100-111 | Replaces the successor list of one activity with the one its id determines; nothing else changes |
| Initializer.ValidateArgument | heuristics/core/activities/initializer.py:12-16 | A list of activities, possibly empty, passes; anything else raises TypeError |
| Initializer.WireSpec | heuristics/core/activities/initializer.py:18-21 | After wiring, every activity carries exactly the lists its id determines, no other field has changed, and wiring again changes nothing |
| Initializer.SuccessorIffPredecessor | heuristics/core/activities/activity.py:87-111 | In a wired list b is a successor of a exactly when a is a predecessor of b |
| Initializer.InitActivities | heuristics/core/cpm/activities/initializer.py:18-20 | The loop rewires every activity from the whole list in list order and leaves the list as `Wire` describes |
| Projects.Project.constructor | heuristics/core/project.py:52-65 | The caller's list becomes the project's list, sorted by id, wired, holding the same activities; the total is the sum of total resources; the other fields are stored as given, actual end unset |
| Projects.SortActivitiesById | heuristics/core/project.py:86-90 | The in-place sort leaves the list ascending by id and a permutation of what it was |
| Projects.SortedDistinctIsStrict | heuristics/core/project.py:86-90 | With distinct ids, a list sorted by id is strictly ascending |
| Projects.PredecessorBeforeSuccessor | heuristics/core/project.py:86-90 | In a project whose ids all point forward, every predecessor sits before its activity and every successor after it |
| Projects.FreshIsBasic | heuristics/core/activities/activity.py:48-71 | The fixture shorthand builds the activity the three-argument constructor does |
| Projects.FixtureTotals | heuristics/core/project.py:80-84 | The two project fixtures require 130 and 110 resources in total |
| Sorting.SortByKey | heuristics/core/cpm/project/project.py:78-82 | An in-place insertion sort: the array ends ascending by the key and a permutation of its contents |
| Loader.MatchesId | heuristics/core/activities/loader.py:59-60 | The scanner accepts exactly the texts matching `[1-9][0-9]*-[1-9][0-9]*` in full |
| Loader.ScanFromStart | heuristics/core/activities/loader.py:59-60 | The scanner's states track the id pattern, character by character |
| Loader.IdPatternParses | heuristics/core/activities/loader.py:37-41 | Text of the id pattern parses into two numbers at least 1, and an accepted one prints back as itself |
| Loader.ValidateActivityLine | heuristics/core/activities/loader.py:50-71 | Passes exactly for three non-empty fields with an id of the pattern and two `[0-9]+` numbers; a wrong field count or an empty field is DataNotFoundError, a bad pattern ValueError |
| Loader.ActivityFromLine | heuristics/core/activities/loader.py:31-41 | Yields an activity exactly for a valid line whose id `from_str` accepts: that id, the two numbers as duration and demand, unwired and unscheduled; otherwise the validator's or `from_str`'s error |
| Loader.LineRoundTrip | heuristics/core/activities/loader.py:31-41 | Loading the line an activity is written as gives back that activity |
| Loader.CheckDuplicate | heuristics/core/activities/loader.py:43-48 | Passes exactly when no loaded activity has the same id; otherwise ValueError |
| Loader.CollectValues | heuristics/core/activities/loader.py:23-26 | A successful load holds what each line yielded, in line order, with distinct ids |
| Loader.CollectSucceeds | heuristics/core/activities/loader.py:23-26 | Loading succeeds exactly when every line yields an activity and no id repeats |
| Loader.CollectKeepsError | heuristics/core/activities/loader.py:23-26 | Once a prefix of the lines fails, the whole load fails with the same error |
| Loader.LoadSpec | heuristics/core/activities/loader.py:19-28 | Loading succeeds exactly when every line loads with distinct ids, giving the activities in line order; failures are DataNotFoundError or ValueError |
| Loader.LoadActivities | heuristics/core/activities/loader.py:23-26 | The loop of converting, checking and appending computes `Load` |
| CpmSpec.EarliestStart | heuristics/core/cpm.py:104-106 | An activity without predecessors starts at the project start |
| CpmSpec.MaxEarliestEndIsMax | heuristics/core/cpm.py:108-110 | The latest earliest end among predecessors bounds them all and is one of them |
| CpmSpec.MinLatestStartIsMin | heuristics/core/cpm.py:133-136 | The earliest latest start among successors bounds them all and is one of them |
| CpmSpec.FinalsNonEmpty | heuristics/core/cpm.py:142-145 | A non-empty network has a final activity, its last one |
| CpmSpec.ProjectEnd | heuristics/core/cpm.py:122-131 | The end counted back from is the planned end when given and not earlier than the earliest possible end, else that end; never earlier than it |
| CpmSpec.LatestEnd | heuristics/core/cpm.py:122-131 | A final activity's latest end is the project end |
| CpmSpec.EarliestStartIsLastPredecessorEnd | heuristics/core/cpm.py:104-110 | An activity starts when its last predecessor ends: no earlier than any, and exactly when one does |
| CpmSpec.LatestEndIsFirstSuccessorStart | heuristics/core/cpm.py:133-136 | An activity must end when its first successor must start: no later than any, and exactly when one must |
| CpmSpec.EarliestStartBound | heuristics/core/cpm.py:59-61 | No earliest start precedes the project start, and the first activity starts exactly then |
| CpmSpec.PrecedenceRespected | heuristics/core/cpm.py:59-61 | An activity's earliest end is no later than any successor's earliest start |
| CpmSpec.EarliestEndBound | heuristics/core/cpm.py:122-123 | The earliest possible project end bounds every earliest end |
| CpmSpec.ReserveNonNegative | heuristics/core/cpm.py:83-92 | Counting back from an end no earlier than the earliest possible one, every latest end is at least the earliest end, so no reserve is negative |
| CpmSpec.LatestEndBound | heuristics/core/cpm.py:70-73 | No latest end is after the project end, and a final activity's is exactly that end |
| Cpm.NetworkIsDag | heuristics/core/cpm.py:59-70 | A constructed project whose ids all point forward is wired, mirrored and in topological order |
| Cpm.FinalsAreSinks | heuristics/core/cpm.py:142-160 | The final activities are exactly the sinks of the network |
| Cpm.LatestStoredEnd | heuristics/core/cpm.py:108-110 | `max` over predecessors' stored earliest ends bounds them and equals one |
| Cpm.EarliestStoredStart | heuristics/core/cpm.py:133-136 | `min` over successors' stored latest starts bounds them and equals one |
| Cpm.GetEarliestStart | heuristics/core/cpm.py:94-110 | The project start for a first activity, otherwise the latest earliest end among its predecessors |
| Cpm.GetLatestEnd | heuristics/core/cpm.py:112-136 | For a final activity the planned end when given and late enough, otherwise the latest final earliest end, warning exactly when the planned end is too early; for others the earliest successor latest start, without warning |
| Cpm.FirstStart | heuristics/core/cpm.py:138-139 | `min` of the earliest starts bounds them all and equals one |
| Cpm.LastEnd | heuristics/core/cpm.py:140 | `max` of the latest ends bounds them all and equals one |
| Cpm.ForwardStep | heuristics/core/cpm.py:59-61 | When all predecessors are done, the sweep's start for the next activity is the defined earliest start |
| Cpm.ForwardAdvance | heuristics/core/cpm.py:59-61 | Storing the defined earliest times extends the finished prefix by one |
| Cpm.StoredFinish | heuristics/core/cpm.py:122-131 | The end the backward sweep reads off the stored values is the defined project end, and it warns exactly when the planned end is too early |
| Cpm.StoredFinishIsEarliestFinish | heuristics/core/cpm.py:122-123 | The latest stored earliest end over the final activities is the earliest possible project end |
| Cpm.BackwardStep | heuristics/core/cpm.py:112-136 | When all successors are done, the sweep's end for the next activity is the defined latest end, with the warning only for a final activity and a too-early planned end |
| Cpm.BackwardAdvance | heuristics/core/cpm.py:70-73 | Storing the defined latest times extends the finished suffix by one |
| Cpm.FinalCount | heuristics/core/cpm.py:142-145 | The number of final activities is the count of activities without successors |
| Cpm.StoreEarliest | heuristics/core/cpm.py:60-61 | One activity gets an earliest start and the matching earliest end |
| Cpm.StoreLatest | heuristics/core/cpm.py:72-73 | One activity gets a latest end and the matching latest start |
| Cpm.StepBack | heuristics/core/cpm.py:70-73 | One step of the backward sweep stores the defined latest times and reports the warning exactly when it is printed |
| Cpm.CriticalPathMethod.constructor | heuristics/core/cpm.py:29-35 | Remembers the final activities: exactly the activities without successors |
| Cpm.CriticalPathMethod.ForwardWalk | heuristics/core/cpm.py:52-61 | Every activity, in list order, gets exactly the defined earliest start and end |
| Cpm.CriticalPathMethod.BackwardWalk | heuristics/core/cpm.py:63-73 | Every activity, in reverse order, gets exactly the defined latest end and start from the project end; one warning per final activity exactly when the planned end is too early |
| Cpm.WalkBack | heuristics/core/cpm.py:63-73 | The reverse loop gives every activity its defined latest end and start, and counts one warning per final activity exactly when the planned end is too early |
| Cpm.CriticalPathMethod.CalculateTimeReserves | heuristics/core/cpm.py:75-92 | Passes exactly when every activity's two slacks agree, storing each reserve; otherwise RuntimeError at the first disagreement, the earlier activities keeping theirs |
| Cpm.CriticalPathMethod.CalculateProjectStartEnd | heuristics/core/cpm.py:138-140 | The project starts at the smallest earliest start and ends at the largest latest end; no activities is a ValueError |
| Cpm.CriticalPathMethod.Sweeps | heuristics/core/cpm.py:37-49 | After both sweeps every activity has the defined times, its slacks agree, and the warnings are counted |
| Cpm.CriticalPathMethod.Solve | heuristics/core/cpm.py:37-49 | Every activity gets the defined times and reserve; the project keeps its start and ends at the defined project end; warnings exactly for a too-early planned end; an empty project is a ValueError |
| Cpm.ForwardDone | heuristics/core/cpm.py:52-73 | The forward sweep keeps the network and its final activities, and the end the backward sweep reads is the defined project end |
| Cpm.ForwardedIsStored | heuristics/core/cpm.py:52-61 | After the forward sweep every activity has its defined earliest times |
| Cpm.SweepsAgree | heuristics/core/cpm.py:83-92 | After both sweeps the two slacks agree for every activity, so the RuntimeError branch is never taken |
| Cpm.SolvedState | heuristics/core/cpm.py:37-49 | The state `solve` leaves has every activity's defined earliest start and latest end |
| Cpm.SolvedReservesNonNegative | heuristics/core/cpm.py:83-92 | After `solve` no time reserve is negative |
| Cpm.ShapeKept | heuristics/core/cpm.py:52-92 | Filling in times keeps the network and its final activities |
| Cpm.SolvedFirstStart | heuristics/core/cpm.py:139 | After `solve` the smallest earliest start is the given project start |
| Cpm.SolvedLastEnd | heuristics/core/cpm.py:140 | After `solve` the largest latest end is the end the backward sweep counted from |
| Cpm.SolvedKeepsOtherFields | heuristics/core/cpm.py:37-49 | `solve` changes nothing of an activity but its CPM times and reserve |
| HeuristicMethods.Started | heuristics/methods/method.py:49-50 | Scheduling sets the actual start and an actual end one duration later, and nothing else |
| HeuristicMethods.Debit | heuristics/methods/method.py:52-53 | Exactly the slots of `[start, start + duration)` lose the demand; the others are unchanged |
| HeuristicMethods.HeuristicMethod.constructor | heuristics/methods/method.py:27-30 | The ledger starts empty |
| HeuristicMethods.HeuristicMethod.InitMissingUntil | heuristics/methods/method.py:33-40 | The ledger grows to max(old length, end + 1); old slots keep their values, new ones hold `r_max` |
| HeuristicMethods.HeuristicMethod.ScheduleActivityFrom | heuristics/methods/method.py:42-53 | The activity's actual times are set and exactly its window is debited |
| HeuristicMethods.EmptyIsBooked | heuristics/methods/method.py:27-30 | The empty ledger books an unscheduled project |
| HeuristicMethods.UsageBeyond | heuristics/methods/method.py:52-53 | Slots beyond every scheduled window carry no load |
| HeuristicMethods.ExtendKeepsBooked | heuristics/methods/method.py:33-40 | Growing the ledger keeps it booking exactly the scheduled activities |
| HeuristicMethods.ScheduleKeepsBooked | heuristics/methods/method.py:42-53 | Scheduling an activity and debiting its window keeps the ledger booking exactly the scheduled activities |
| HeuristicMethods.BookedAtMostRMax | heuristics/methods/method.py:36-53 | No slot of a booked ledger holds more than `r_max` |
| HeuristicMethods.SlotsOfExtension | heuristics/methods/method.py:36-40 | The slots of a grown ledger are the capacities the old one stood for |
| HeuristicMethods.MaxActualEndIsMax | heuristics/methods/method.py:58 | The latest actual end bounds every actual end and is one of them |
| HeuristicMethods.ProjectActualEnd | heuristics/methods/method.py:55-58 | `max` of the actual ends: ValueError with no activity, a lone activity's end as it is, TypeError when one of two or more is unset, otherwise the latest end |
| HeuristicMethods.NetworkPredecessorsFirst | heuristics/core/project.py:86-90 | A constructed project with forward ids lists every predecessor before its activity |
| HeuristicMethods.Grow | heuristics/methods/method.py:33-40 | Growing to a length gives max(old, length) slots, extending with `r_max` |
| HeuristicMethods.ConflictOfExtension | heuristics/methods/serial_method.py:42-46 | A window conflicts with the grown ledger exactly when it conflicts with the capacities the old one stood for |
| HeuristicMethods.DebitKeepsFeasible | heuristics/methods/serial_method.py:42-46 | Debiting a window that fits leaves no slot below zero |
| HeuristicMethods.Unscheduled | heuristics/methods/method.py:42-53 | Clearing actual times position by position |
| Serial.LatestPredecessorEndIsMax | heuristics/methods/serial_method.py:57-58 | The latest predecessor end bounds all of them and is one of them |
| Serial.PredecessorsFinishedTime | heuristics/methods/serial_method.py:50-58 | The project start without predecessors, otherwise the latest end among them |
| Serial.LatestConflict | heuristics/methods/serial_method.py:60-72 | None exactly when every slot of the window holds enough; otherwise the latest slot that holds too little |
| Serial.ConflictsUpTo | heuristics/methods/serial_method.py:48 | Every start from the current one up to a conflicting slot conflicts too, so jumping past it skips no feasible start |
| Serial.TryStart | heuristics/methods/serial_method.py:38-48 | One probe either schedules the activity there, the window fitting, or returns the latest conflicting slot, every start up to it conflicting |
| Serial.ConflictOfGrow | heuristics/methods/serial_method.py:38-40 | Growing the ledger changes no window's conflicts |
| Serial.ProbeFrom | heuristics/methods/serial_method.py:34-48 | The start found is the earliest from the first candidate on at which the window fits; the activity is scheduled there and its window debited |
| Serial.ScheduleActivity | heuristics/methods/serial_method.py:32-48 | The activity starts at the earliest fitting time no earlier than its predecessors' ends (or the project start); the ledger keeps booking exactly the scheduled activities |
| Serial.ScheduleNext | heuristics/methods/serial_method.py:15-16 | Scheduling the next activity extends the scheduled prefix of the pass; every activity so far starts at the earliest time, from its predecessors' ends, at which its window fits beside the activities before it |
| Serial.TurnOfNext | heuristics/methods/serial_method.py:15-16 | In list order, the next activity's predecessors are all already scheduled |
| Serial.StepKeepsPrefix | heuristics/methods/serial_method.py:15-16 | One step keeps every scheduled activity after its predecessors |
| Serial.StepKeepsLedger | heuristics/methods/serial_method.py:42-48 | One step keeps the ledger booking, non-negative and reaching the latest end |
| Serial.LedgerReachesEnd | heuristics/methods/serial_method.py:38-40 | After each step the ledger reaches the slot of the latest actual end so far |
| Serial.Solve | heuristics/methods/serial_method.py:9-18 | After CPM every activity is scheduled once, after all its predecessors end, at its earliest fitting start; no slot is overdrawn or above `r_max`; the actual end is the latest end and the ledger has exactly `actual_end + 1` slots; an empty project is a ValueError |
| Serial.SchedulePass | heuristics/methods/serial_method.py:15-18 | The pass after CPM leaves the state `Solve` promises |
| Serial.ScheduleAll | heuristics/methods/serial_method.py:15-16 | The loop schedules every activity in list order, each at the earliest time, from its predecessors' ends, at which its window fits beside the activities before it |
| Serial.SolveCpm | heuristics/methods/serial_method.py:13 | CPM on the project leaves a list ready for the pass, or ValueError on an empty project |
| Serial.SolvedIsReady | heuristics/methods/serial_method.py:13-16 | What CPM leaves of a constructed project is ready for the pass |
| Serial.ScheduledAll | heuristics/methods/serial_method.py:18 | The finished pass gives the latest actual end as the project end |
| Serial.ScheduledInTurn | heuristics/methods/serial_method.py:36-58 | Scheduling in turn keeps every activity after its predecessors |
| Serial.ConflictIsNoFit | heuristics/methods/serial_method.py:60-72 | While the later activities are unstarted, a window conflicts with the ledger exactly when it does not fit beside the activities scheduled before |
| Serial.UsageOfPrefix | heuristics/methods/serial_method.py:42-48 | Unstarted activities take nothing from any slot, so the usage is that of the scheduled prefix |
| Serial.FinishedTimeFrame | heuristics/methods/serial_method.py:50-58 | The predecessors' finished time depends only on the predecessors' actual ends |
| Serial.StepKeepsEarliest | heuristics/methods/serial_method.py:32-48 | Starting the next activity where it fits, with every earlier start from its predecessors' ends conflicting, keeps every activity so far at its earliest fitting start |
| Parallel.UnfinishedExistAsWritten | heuristics/methods/parallel_method.py:56-59 | `any(not is_finished)` as written agrees with the corrected test when it answers, and raises TypeError on the first unscheduled activity it meets |
| Parallel.FreshProjectRaises | heuristics/methods/phm.py:80-83 | The loop test as written raises on every non-empty project at time 0 |
| Parallel.ResourcesExceeded | heuristics/methods/phm.py:138-145 | Some slot of the window holds too little exactly when the serial search for the latest one finds one |
| Parallel.ExceededIsConflict | heuristics/methods/phm.py:138-145 | Over a grown ledger, `_resources_exceeded` is a conflict with the capacities it stands for |
| Parallel.Viable | heuristics/methods/phm.py:85-98 | Exactly the positions of the unscheduled activities whose predecessors have finished and whose window fits, in list order |
| Parallel.SortKeyAsWritten | heuristics/methods/parallel_method.py:101-111 | The sort key raises AttributeError exactly when no priority was ever assigned |
| Parallel.SortAsWritten | heuristics/methods/parallel_method.py:101-111 | The sort as written fails exactly when some viable activity has no priority |
| Parallel.UnassignedPrioritiesRaise | heuristics/methods/phmdp.py:24-25 | With PHMDP's empty initialisation and no update, sorting a non-empty viable list raises AttributeError |
| Parallel.DynamicOrderIsLatestStartOrder | heuristics/methods/phmdp.py:27-30 | Ordering by (latest start - t, id) is ordering by (latest start, id) |
| Parallel.EarliestRunningEnd | heuristics/methods/phm.py:147-152 | None exactly when nothing runs; otherwise the smallest end of a running activity, after t |
| Parallel.NextFinish | heuristics/methods/phm.py:147-152 | The earliest end among the running activities, after t, or the project start when none runs |
| Parallel.NextFinishAsWritten | heuristics/methods/parallel_method.py:122-126 | `min` without a default raises ValueError exactly when nothing runs, and otherwise agrees with PHM's |
| Parallel.ZeroDurationLastActivityRaises | heuristics/methods/parallel_method.py:122-126 | A lone activity of duration 0 finishes at once, and the next-time step as written raises ValueError there |
| Parallel.Commit | heuristics/methods/phm.py:40-44 | The commit loop keeps the list and ledger lengths |
| Parallel.CommitFrame | heuristics/methods/phm.py:40-44 | The commit loop only takes capacity away and touches only the activities it is given |
| Parallel.CommitChoices | heuristics/methods/phm.py:42-44 | Each viable activity is either scheduled at t or left as it was because its window no longer fits |
| Parallel.CommitFirst | heuristics/methods/phm.py:42-44 | The first activity is scheduled when it fits |
| Parallel.CommitLedger | heuristics/methods/phm.py:42-44 | The commit loop keeps the ledger booking exactly the scheduled activities, with no slot below zero |
| Parallel.ExceededPersists | heuristics/methods/phm.py:138-145 | A window that does not fit still does not fit once capacity is taken away |
| Parallel.PendingDrops | heuristics/methods/phm.py:34-46 | Scheduling lowers the number of unscheduled activities, strictly when one more is scheduled |
| Parallel.HorizonBounds | heuristics/methods/phm.py:147-152 | The horizon bounds every actual end |
| Parallel.InitActivityPriorities | heuristics/methods/phm.py:62-70 | Time reserves as priorities for the parallel method and PHM; nothing for PHMDP |
| Parallel.UpdatePriorities | heuristics/methods/phmdp.py:27-30 | Nothing for PHM; for PHMDP every priority becomes latest start - t, nothing else changing |
| Parallel.ActivityIsViable | heuristics/methods/phm.py:100-118 | Viable exactly when the predecessors have finished and the window fits; the ledger grows only in that case |
| Parallel.GetViableActivities | heuristics/methods/phm.py:85-98 | Returns exactly `Viable` in list order, growing the ledger to the furthest tentative end |
| Parallel.GatherStep | heuristics/methods/phm.py:85-98 | One position of the gathering loop extends the viable prefix |
| Parallel.SortByPriorityAndId | heuristics/methods/phm.py:126-136 | A permutation of the viable list, ascending by (priority, id) |
| Parallel.CommitAt | heuristics/methods/phm.py:42-44 | The loop over the sorted list computes `Commit` on the list and ledger |
| Parallel.CommitOne | heuristics/methods/phm.py:43-44 | Schedules the activity at t when its window fits the live ledger, otherwise nothing changes |
| Parallel.CommitUnfold | heuristics/methods/phm.py:42-44 | One step of the commit loop is one step of `Commit`, and the remaining windows still lie within the ledger |
| Parallel.Bared | heuristics/methods/phm.py:24-48 | Removing what the schedulers add, position by position |
| Parallel.SchedFacts | heuristics/methods/phm.py:34-46 | The loop state keeps predecessors first and every demand within `r_max` |
| Parallel.PrioritiesKeep | heuristics/methods/phmdp.py:27-30 | Changing priorities alone keeps the loop state, the pending count and the horizon |
| Parallel.ExtendKeepsLedger | heuristics/methods/phm.py:100-118 | Growing the ledger keeps it holding |
| Parallel.DistinctCount | heuristics/methods/phm.py:85-98 | A list without repeats has each element at most once |
| Parallel.DistinctPermutation | heuristics/methods/phm.py:126-136 | Sorting a list without repeats keeps it without repeats |
| Parallel.OrderCommittable | heuristics/methods/phm.py:40-44 | The sorted viable list holds distinct unscheduled activities whose windows lie within the ledger |
| Parallel.CommitKeepsShape | heuristics/methods/phm.py:42-44 | The commit loop keeps what CPM gave each activity and every activity after its predecessors |
| Parallel.CommitKeepsLedger | heuristics/methods/phm.py:42-44 | The commit loop keeps the ledger holding |
| Parallel.CommitProgresses | heuristics/methods/phm.py:39-44 | With a non-empty viable list at least one more activity is scheduled |
| Parallel.FirstUnscheduled | heuristics/methods/phm.py:34 | Some activity is the first unscheduled one |
| Parallel.StallMeansViable | heuristics/methods/phm.py:34-46 | When something is unfinished and nothing runs, the first unscheduled activity is viable, so the loop cannot stall |
| Parallel.CommitStep | heuristics/methods/phm.py:39-44 | A decision time with viable activities keeps the loop state and schedules at least one more |
| Parallel.StallStep | heuristics/methods/phm.py:147-152 | A decision time without viable activities has a running activity, so the next time is later |
| Parallel.Step | heuristics/methods/phm.py:35-46 | One decision time is `Decision`: the refreshed priorities, `Commit` of the viable list in (priority, id) order, and the next time `NextFinish`; it keeps the loop state and either schedules more or moves time forward |
| Parallel.RefreshPriorities | heuristics/methods/phm.py:35 | The list becomes `Refreshed`: latest start - t as priority under PHMDP, unchanged otherwise; the loop state, the pending count and the horizon are kept |
| Parallel.CommitViable | heuristics/methods/phm.py:37-44 | Something is committed exactly when the viable list is non-empty; the new list and ledger are `Commit` of the viable list sorted by (priority, id), over the ledger grown to the furthest tentative end |
| Parallel.DecisionLoop | heuristics/methods/phm.py:33-46 | The loop ends with every activity finished, the loop state intact and the ledger covered; its run starts from the initial state at time 0 and each decision time follows from the one before by `Decision` |
| Parallel.LoopDone | heuristics/methods/phm.py:48 | The ended loop gives the latest actual end as the project end, with the ledger ending at its slot |
| Parallel.LedgerDoneAtEnd | heuristics/methods/phm.py:48 | When every activity has finished, the project actual end is the latest actual end and the ledger books them all within `r_max`, with exactly `actual_end + 1` slots |
| Parallel.InitKeepsSched | heuristics/methods/phm.py:31-33 | After the priority initialisation the loop state holds at time 0 |
| Parallel.SolvedIsParallelReady | heuristics/methods/phm.py:29-31 | What CPM leaves of a constructed project is ready for the loop |
| Parallel.ParallelPass | heuristics/methods/phm.py:31-48 | After CPM, the priorities and the loop leave the state `Solve` promises, produced by a run of decision times |
| Parallel.PrioritiesAndLoop | heuristics/methods/phm.py:31-46 | The priority initialisation and the loop leave a finished schedule with an actual end, produced by a run from the initialised list |
| Parallel.CommitSorted | heuristics/methods/phm.py:40-44 | Sorting the viable list by (priority, id) and committing it in that order computes `Commit` of a sorted permutation of the viable list |
| Parallel.ChainGrows | heuristics/methods/phm.py:34-46 | Appending a state that follows by `Decision` from the last one extends the run |
| Parallel.CommitStarts | heuristics/methods/phm.py:42-44 | The commit loop leaves every activity as it was, or started at t when it is in the list committed |
| Parallel.DecidedStarts | heuristics/methods/phm.py:37-44 | After a decision time every activity keeps its start, or starts at that time when it was viable then |
| Parallel.DecisionStarts | heuristics/methods/phm.py:35-46 | One step of a run keeps every start, or starts a viable activity at the decision time |
| Parallel.RunTail | heuristics/methods/phm.py:34-46 | A run of more than one state is one decision time followed by a run |
| Parallel.RunStarts | heuristics/methods/phm.py:34-46 | Over a run every activity keeps its initial start, or starts at one of the decision times at which it was viable |
| Parallel.StartsWhenViable | heuristics/methods/phm.py:31-48 | In what `Solve` leaves, every activity started at a decision time of the run at which it was viable, with the refreshed priorities and the ledger then |
| Parallel.FurthestReachBounds | heuristics/methods/phm.py:85-98 | The furthest tentative end the gathering loop extends the ledger to bounds every activity's and is one of them |
| Parallel.RefreshCovers | heuristics/methods/phmdp.py:27-30 | Changing priorities leaves the ledger covered |
| Parallel.GrowCovers | heuristics/methods/phm.py:109-113 | Extending the ledger to the furthest tentative end keeps it covered by an activity |
| Parallel.LeftOutConflicts | heuristics/methods/phm.py:37-44 | An activity with finished predecessors that the commit loop leaves unscheduled has a window that does not fit the ledger left |
| Parallel.ConflictMeansRunning | heuristics/methods/phm.py:138-145 | A window that does not fit the booked ledger overlaps an activity still running at its start |
| Parallel.DecisionCovers | heuristics/methods/phm.py:35-46 | Each decision time keeps the ledger no longer than the actual end + 1 of a scheduled activity or the tentative end + 1 of one still waiting |
| Parallel.GrownCovers | heuristics/methods/phm.py:35-37 | After the priority update and the ledger growth, the ledger still books what it did, holds every viable window and stays covered |
| Parallel.CommittedCovers | heuristics/methods/phm.py:42-46 | After the commit loop and the move to the next time, the covering activity has started, or still waits at a later time |
| Parallel.WaitingCovers | heuristics/methods/phm.py:42-46 | An activity left waiting with finished predecessors means something runs, so the next time is later and its predecessors are still finished |
| Parallel.CoveredAfterAll | heuristics/methods/phm.py:48 | Once every activity is scheduled, the ledger ends at the latest actual end at most |
| Parallel.Solve | heuristics/methods/phm.py:24-48 | After CPM every activity is scheduled, after all its predecessors end; under time reserves every priority is the reserve; no slot is overdrawn or above `r_max`; the schedule comes from a run of decision times, each committing the viable activities in (priority, id) order; the actual end is the latest end and the ledger has exactly `actual_end + 1` slots; an empty project is a ValueError |
| Text.ParseNat | heuristics/core/cpm/activities/activity_id.py:40-41 | `int()` on a numeral gives its value, and fails on anything else |
| Text.Split | heuristics/core/cpm/activities/activity_id.py:40 | `str.split` gives at least one piece, none containing the separator |
| Text.JoinSplit | heuristics/core/cpm/activities/activity_id.py:40 | Joining the pieces back with the separator gives the text: splitting loses nothing |
| Text.NatToString | heuristics/core/cpm/activities/activity_id.py:65-66 | Printing a number gives a numeral of that value, without a leading zero |

## Left out

- File and CSV reading, the header line and `from_file_and_args` (heuristics/core/activities/loader.py:17-22, heuristics/core/project.py:67-77). The loader is modelled on the data lines as lists of strings. A CSV reader never yields `None` fields, so the `None` test of the validator reduces to the empty-field test.
- Python's `int()` also accepts surrounding whitespace, underscores and a sign. The fields reach `int()` only after matching `[0-9]+`, so this never matters. `FromStr` on arbitrary text reads numerals as digit strings only.
- The JSON export methods and the Gantt chart: file output and plotting.
- The warning `print` of heuristics/core/cpm.py:126-128 is modelled as a returned flag, counted by `BackwardWalk` and `Solve`.
- `ActivityID.__hash__`, `__repr__` and `as_dict` aliasing: not part of scheduling.
- `Projects.Project.constructor` sorts before it wires, while the source wires first. Predecessor and successor lists here are positions in the list, and a sort would invalidate positions computed before it. The sets of predecessors and successors are the same either way. The order within a list follows ids instead of the input order, and no consumer reads that order: CPM and the schedulers take `max`, `min` or `all` over it. The initializer itself, `Initializer.InitActivities`, is modelled in input order.
- `CPMProject` (heuristics/core/cpm/project/project.py) is the same class with the field `end` in place of `earliest_end` and without `actual_end`. It shares `Projects.Project`, and its initializer shares `Initializer.InitActivities`.
- The CPM and scheduler entry points require what only a constructed project guarantees, with every id pointing forward (`start < end`):
  - a wired list, sorted by id, whose order is topological;
  - for the heuristic methods, final activities found by the constructor.

  `ActivityID` accepts `k-k`, and such an activity is its own predecessor. The forward sweep would then read an unset field. That case is excluded rather than modelled.
- `Serial.Solve`, `Parallel.Solve`: they require every demand to be at most `r_max`. Otherwise the source's probe loop never ends, and so does the parallel loop. They also require a project start of at least 0, since ledger slots are list indices.
- `Parallel.Solve`: every activity must start without a priority, as a constructed project's do.
- `Parallel.Solve`, `Projects.Project.constructor`: Python's `list.sort` is stable, so among viable activities with equal (priority, id) keys the source commits them in list order. `Sorting.SortByKey` and `Decided` leave the order of equal keys open. Equal keys need a duplicate id, which the constructor accepts and only the loader refuses, so for such a project `Parallel.Solve` admits commit orders the source does not produce.
- The concrete schedules the repository's tests expect of the three schedulers (problem 1 with `r_max` 7 giving 24, 20 and 21, and so on) are not stated as fixtures. The schedulers are methods on the heap, and the model proves their general properties instead. The expected CPM times of the CPM tests are not stated as fixtures either; the CPM sweeps are proved equal to the reference definitions of `CpmSpec` for every project instead.
- The parallel method's own loop (heuristics/methods/parallel_method.py:9-31) is modelled as the PHM loop with the `TimeReserves` policy. It differs from it only in the no-op priority update, which PHMDP's priority hook would need (second row under Findings), and in the `min` without a default (third row under Findings). The failure of the first row under Findings is shared by all three schedulers and is no difference.
- The helpers `_is_first`, `_is_final` and `_predecessors_finished` are plain predicates (`Cpm.IsFirst`, `Cpm.IsFinal`, `Parallel.PredecessorsFinished`), without rows of their own.
- Timing, concurrency and floating point do not occur in the core.

## Findings

| source | as written | input that shows it | evidently intended | confidence | as-written member | corrected member |
|---|---|---|---|---|---|---|
| heuristics/core/activities/activity.py:138-140, heuristics/methods/phm.py:80-83 | `is_finished` compares `actual_end <= time` while `actual_end` is still `None`, so `_unfinished_activities_exist` raises TypeError; `_predecessors_finished` (heuristics/methods/phm.py:120-123, heuristics/methods/parallel_method.py:96-98) calls `is_finished` on predecessors that may be unscheduled and has the same defect. PHM, PHMDP and the parallel method share it | any non-empty project at time 0, before anything is scheduled | an unscheduled activity is not finished | not executed | Parallel.FreshProjectRaises | Parallel.DecisionLoop |
| heuristics/methods/phmdp.py:1-30, heuristics/methods/parallel_method.py:9-31,101-111 | PHMDP inherits the parallel method's loop, which never calls `_update_priorities`, and its own initialisation assigns nothing, so sorting reads a priority never set and raises AttributeError. As written, the TypeError of the first row comes first, at heuristics/methods/parallel_method.py:19,59; the AttributeError is reached only once `is_finished` is corrected | any project with a viable activity at the first decision time, once `is_finished` is corrected | priorities set to latest start less the time at every decision time, as in the PHM loop | not executed | Parallel.UnassignedPrioritiesRaise | Parallel.UpdatePriorities |
| heuristics/methods/parallel_method.py:122-126 | `min` over the running activities without a default raises ValueError when none is running. As written, the TypeError of the first row comes first; this ValueError is reached only once `is_finished` is corrected | a single activity of duration 0, once `is_finished` is corrected: committed at time 0, finished at once, nothing running | the project start as default, as in heuristics/methods/phm.py:147-152 | not executed | Parallel.ZeroDurationLastActivityRaises | Parallel.NextFinish |
