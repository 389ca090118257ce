# Smart Scheduler: a verified model of the scheduling endpoint

The Smart Scheduler serves one endpoint, `POST /api/v1/projects/:projectId/schedule`.
It takes a list of tasks. Each task has a title, estimated hours, a due date and
optional dependencies, given as titles of other tasks. The endpoint answers with a
recommended order and a few metrics.

The order comes from Kahn's topological sort with a priority queue. On every
iteration the ready queue is sorted by due date and then by hours, and its head
is emitted. When fewer titles come out than there were tasks, the sort throws
"Circular dependency detected in tasks". Before sorting, the handler rejects a
missing `tasks` field and validates every task. After sorting, it computes the
metrics: the task count, the total hours, and the earliest and latest due dates.

This project models that core in Dafny and proves what it promises.

- **Validation and input.** `Js` holds JSON values, JavaScript truthiness and
  property access. `Validation` holds `validateTasks` as a function, plus the loop
  that computes it.
- **Sort data.** `Tasks` holds the task record and the title bookkeeping (the
  `taskMap` and the key order of a JavaScript `Map`). `Graph` holds the adjacency
  lists and the in-degrees.
- **The sort.** `Kahn` holds the priority Kahn algorithm over its abstract state.
  `Sorter` holds `topologicalSort` as an imperative method over maps, proved to
  compute `Kahn.TopoOrder`.
- **What the sort guarantees.** `KahnProperties` proves the following:
  - the order is a permutation of the titles;
  - every task comes after its prerequisites;
  - each emitted task is the most urgent ready one;
  - the sort reports a cycle exactly when titles repeat or some set of tasks
    waits on itself.
- **Unknown dependencies.** `Resolution` proves that dependency names matching no
  task change nothing.
- **Metrics.** `Metrics` holds the metrics reductions.
- **The handler.** `Scheduler` holds the handler, as a function from the request
  to the response and as a method that calls the two methods above.
- **Comparator.** `Comparator` holds the queue comparator as written and as
  intended (see Findings).
- **Worked example.** `Example` proves the sort's outcome and the metrics for the
  example project of the client's task form.

Modelling choices:

- **Dates.** A due date is the integer millisecond timestamp it parses to.
  `Date.parse` is a parameter `parse: Json -> Parsed`, with three outcomes:
  `Throws` for a TypeError raised while turning the value into a string, `NaN`,
  or `At(ms)` for an instant. `new Date(d)` is taken to give the same instant.
- **Numbers.** Numbers are integers, so hours are integers.
- **Map iteration order.** A JavaScript `Map` iterates in insertion order. This
  is `Tasks.FirstOccurrences`, the order in which titles first appear.
- **Queue order.** The queue's stable sort followed by `shift` takes out the
  first element of minimal (due date, hours) key. This is `Kahn.FirstMin`. The
  model then removes that element and leaves the rest of the queue in arrival
  order, where the source leaves it sorted. Both queues hold the same titles,
  and a stable sort keeps titles of equal key in their relative order, so the
  first element of minimal key is the same title in both at every later step.
- **In-degrees.** The counter of a title, after the titles in `done` have been
  emitted, equals `Graph.Pending`: the listings of task titles not yet emitted.
  The decrement loop pushes a neighbour at its last occurrence in the adjacency
  list, and only when its counter reaches 0. This is `Kahn.Released`.
- **Failed responses.** A thrown `TypeError` becomes a 500 response whose message
  is the runtime's own (`Scheduler.RuntimeTypeError`). Three inputs throw one:
  - a `null` task (while validating);
  - a due date `Date.parse` cannot turn into a string, such as an object whose
    own `toString` is not a function (while validating);
  - an empty task list (`tasks[0].dueDate` in the metrics).

## Model

| member | source | states |
|---|---|---|
| Tasks.FirstOccurrences | server.js:19-23 | the key order of `inDegree` and `adjList`: each title at its first occurrence in the task list |
| Graph.Adj | server.js:26-35 | `adjList[c]` after the second `forEach`: the title of every task, once per listing of `c` among its dependencies, in task order |
| Graph.Pending | server.js:26-35 | the in-degree counter of title `x` once the titles in `done` are emitted: the listings of task titles not in `done` by the tasks titled `x` |
| Kahn.ZeroInDegree | server.js:38-43 | the titles among the given keys whose in-degree is 0, in key order |
| Kahn.Seed | server.js:38-43 | the initial queue: `ZeroInDegree` over the `inDegree` key order |
| Kahn.Released | server.js:66-71 | the neighbours the decrement loop pushes: each adjacency entry at its last occurrence whose final counter is 0, in adjacency order |
| Kahn.Head | server.js:49-63 | the title the sort-then-`shift` emits: the queue element at `FirstMin` |
| Kahn.NextQueue | server.js:47-72 | the queue after one iteration: the head removed, then the titles it releases pushed at the back |
| Kahn.Run | server.js:47-72 | the `result` array when the `while` loop ends, from a given emitted prefix and queue |
| Kahn.TopoOrder | server.js:13-80 | the sort's outcome: the emission order when it holds as many titles as there are tasks, the cycle error otherwise |
| Sorter.VisitNeighbour | server.js:66-71 | one neighbour callback: its counter drops by one, and its title is pushed when the counter reaches 0, keeping the loop's counters and pushes on track |
| Resolution.Resolve | server.js:28-33 | the request with every dependency name that matches no task removed, all else unchanged |
| Validation.CheckTask | server.js:88-100 | one task's verdict: a `null` task throws; otherwise the first failing check of title, hours, due date and dependencies gives its message, except that a due date `Date.parse` throws on throws |
| Validation.FirstProblem | server.js:88-103 | the loop's verdict: the first task whose verdict is not a pass, or a pass when there is none |
| Validation.Validate | server.js:83-104 | `validateTasks`: the not-an-array error, or the loop's verdict |
| Metrics.TotalHours | server.js:128 | the sum of the hours, folded from 0 left to right |
| Metrics.EarliestFrom | server.js:129-132 | the earliest-date `reduce` from a seed: a task replaces the running value only when strictly earlier |
| Metrics.LatestFrom | server.js:133-136 | the latest-date `reduce` from a seed: a task replaces the running value only when strictly later |
| Metrics.ComputeMetrics | server.js:126-137 | the metrics object: count, total hours, and both reductions seeded with the first task's due date |
| Scheduler.Schedule | server.js:107-153 | the handler's response: 400 for missing `tasks`, 500 for a thrown TypeError, 400 with the validation message, 500 with the cycle message, 500 for an empty list, otherwise the order and metrics |
| Comparator.SourceCompare | server.js:53-59 | the comparator as written: the instants' difference when the due-date texts differ, otherwise the hours' difference |
| Tasks.KeyLess | server.js:49-60 | the queue order: an earlier due date first, then, on the same date, fewer hours |
| Tasks.TitleSet | server.js:19-23 | the keys of `taskMap`, `inDegree` and `adjList`: the title of every task |
| Graph.EdgesFrom | server.js:28-32 | what one task adds to `adjList[c]`: its title, once per listing of `c` |
| Graph.Unmet | server.js:28-31 | how many listings in a dependency list name a task not yet emitted; a name matching no task is never counted |
| Kahn.RemoveAt | server.js:62 | the queue with the element at a position removed, as `shift` does after the sort |
| Js.Truthy | server.js:89-113 | the `!x` tests: `undefined`, `null`, `false`, `0` and `""` are falsy, every other value truthy |
| Js.Prop | server.js:89-99 | reading a property: an object's own field, or `undefined` |
| Validation.TaskOk | server.js:88-100 | all of one task's checks pass: not `null`, a non-empty string title, positive numeric hours, a due date that parses to an instant, and no dependencies or an array of them |
| Validation.DueDateThrows | server.js:95 | `Date.parse` is applied only to a truthy due date, and here it throws |
| Tasks.TaskMap | server.js:19-20 | `taskMap` has exactly the task titles as keys |
| Tasks.TitleOf | server.js:19-23 | every key of the maps is the title of some task |
| Tasks.TaskMapOfDistinct | server.js:19-20 | with unique titles, `taskMap` maps each task's title to that task |
| Tasks.FirstOccurrencesAreTitles | server.js:19-23 | the `inDegree` key order lists every title exactly once, and nothing else |
| Graph.ReadyIffPendingZero | server.js:26-35 | a title's in-degree is 0 exactly when every prerequisite it lists that names a task has been emitted |
| Graph.PendingZero | server.js:26-35 | the counted in-degree of a title is 0 exactly when every prerequisite listed under that title that names a task is among the emitted titles |
| Graph.EdgesFromCount | server.js:28-32 | a task puts its title into `adjList[c]` once per listing of `c` |
| Graph.AdjInTitles | server.js:28-32 | adjacency lists hold only task titles |
| Kahn.FirstMin | server.js:49-62 | the title that sort-then-`shift` takes out is in the queue, no queued title has a smaller key, and every earlier queued title has a larger key (stability) |
| Kahn.InDegrees | server.js:21-31 | the `inDegree` map has exactly the titles as keys |
| Kahn.SeedInv | server.js:38-43 | the initial queue holds exactly the titles with in-degree 0, each once |
| Kahn.ReleasedSound | server.js:66-71 | a neighbour pushed while decrementing is at its last occurrence in the adjacency list, and its counter ended at 0 |
| Kahn.ReleasedDistinct | server.js:66-71 | the decrement loop pushes no neighbour twice |
| Kahn.ReleasedComplete | server.js:66-71 | every adjacency entry whose counter ends at 0 is pushed |
| Kahn.StepKeepsInv | server.js:47-72 | one iteration keeps the loop invariant: emitted and queued titles are distinct task titles, and a title is emitted or queued exactly when its in-degree is 0; the count of emitted titles stays below the number of titles |
| Sorter.InitMaps | server.js:19-23 | the first `forEach` builds `taskMap`, zero in-degrees and empty adjacency lists for exactly the titles, and records the `Map` key order |
| Sorter.AddEdges | server.js:27-34 | one task's dependency loop adds its title to the adjacency list of each known prerequisite, and adds that many to its own in-degree |
| Sorter.CountEdges | server.js:26-35 | the second `forEach` leaves every in-degree at `Pending` with nothing emitted, and every adjacency list at `Adj` |
| Sorter.ZeroQueue | server.js:38-43 | the initial queue is the titles with in-degree 0, in key order |
| Sorter.Decrement | server.js:66-71 | the decrement loop leaves the counters at their new in-degrees and appends exactly `Released` to the queue |
| Sorter.TopologicalSort | server.js:13-80 | the imperative sort returns the reference outcome `Kahn.TopoOrder` |
| KahnProperties.Outcome | server.js:13-80 | the emitted titles are distinct task titles; each was ready and no more urgent ready title was left behind; nothing left out was ready; the sort fails exactly when fewer titles than tasks came out |
| KahnProperties.SortedIsPermutation | server.js:74-77 | a successful order has one entry per task, the titles are unique, and it is a permutation of the titles |
| KahnProperties.DuplicateTitlesCircular | server.js:74-77 | two tasks with one title always make the sort report a cycle |
| KahnProperties.SortedRespectsDependencies | server.js:13-80 | in a successful order every task comes after every prerequisite it lists that names a task |
| KahnProperties.SortedIsGreedy | server.js:47-63 | each emitted task has no ready, not yet emitted task with an earlier due date, or with the same date and fewer hours |
| KahnProperties.DeadlockCircular | server.js:74-77 | a non-empty set of tasks each waiting on a member of the set makes the sort report a cycle |
| KahnProperties.CircularHasDeadlock | server.js:74-77 | with unique titles, a reported cycle comes with such a self-waiting set |
| KahnProperties.CircularIff | server.js:74-77 | the sort reports a cycle if and only if titles repeat or some set of tasks waits on itself |
| KahnProperties.CycleCircular | server.js:74-77 | a dependency cycle through tasks makes the sort report a cycle |
| KahnProperties.SelfDependencyCircular | server.js:74-77 | a task listing its own title makes the sort report a cycle |
| Resolution.Known | server.js:29 | the dependency names kept are exactly those that name a task |
| Resolution.ResolveKeepsPending | server.js:29-32 | dropping unknown names keeps every in-degree |
| Resolution.ResolveKeepsAdj | server.js:29-30 | dropping unknown names keeps every adjacency list |
| Resolution.UnknownDependenciesIgnored | server.js:28-33 | the sort gives the same outcome with every unknown dependency name removed |
| Validation.CheckTaskValid | server.js:88-101 | a task passes exactly when it is an object whose title, hours, due date and dependencies all pass their checks |
| Validation.CheckTaskOrder | server.js:88-101 | the checks run in source order: a `null` task throws, then title, hours, due date and dependencies are checked, and the first failing check decides the message; a TypeError comes exactly from a `null` task or from a due date `Date.parse` throws on after title and hours pass |
| Validation.MessagesDistinct | server.js:93-99 | the three per-task messages determine the title they quote and never coincide with one another |
| Validation.FirstProblemValid | server.js:88-101 | the loop passes exactly when every task passes |
| Validation.ValidateValid | server.js:83-104 | `{valid: true}` exactly when `tasks` is an array of tasks that all pass |
| Validation.FirstFailure | server.js:88-101 | a failing verdict is the verdict of the first failing task, and every task before it passes |
| Validation.StopsAtFirstFailure | server.js:88-103 | conversely, the first task that does not pass gives the loop's verdict, whatever follows it |
| Validation.ValidateTasks | server.js:83-104 | the early-returning loop computes `Validate` |
| Metrics.EarliestFromIsMin | server.js:129-132 | the earliest-date reduction is at most every due date and at most its seed, and equals one of them |
| Metrics.LatestFromIsMax | server.js:133-136 | the latest-date reduction is at least every due date and at least its seed, and equals one of them |
| Metrics.MetricsMeaning | server.js:125-137 | the metrics give the task count, the total hours, and the minimum and maximum due date, each attained by some task |
| Scheduler.StringItems | server.js:28-29 | the dependency listings that can match a title are exactly the string items |
| Scheduler.ToTask | server.js:19-20 | a validated task's title, hours and due date are those of the JSON object, and its hours are positive |
| Scheduler.ToTasks | server.js:123 | the sort sees one record per validated task, in order |
| Scheduler.HandleSchedule | server.js:107-153 | the handler's step-by-step flow gives the response `Schedule` describes |
| Scheduler.MissingTasksRejected | server.js:113-115 | a falsy or missing `tasks` gets 400 "Missing tasks in request body" |
| Scheduler.InvalidRejectedBeforeSort | server.js:117-120 | a validation error is returned with 400 as it is, before any sorting |
| Scheduler.DueDateThrowFails | server.js:95-152 | when the first task that does not pass has a due date `Date.parse` throws on, the `catch` block answers 500 with the TypeError |
| Scheduler.EmptyListFails | server.js:123-137 | an empty array passes validation and sorts, but the metrics throw, giving 500 |
| Scheduler.ScheduledIff | server.js:107-145 | the request succeeds if and only if `tasks` is a non-empty array of valid tasks that sorts; the response carries that order and the metrics of that list |
| Scheduler.SuccessOrder | server.js:123-145 | a successful response lists each task's title once, after all of its prerequisites |
| Scheduler.SuccessMetrics | server.js:125-145 | a successful response echoes the project id and gives the task count, total hours, and due-date range of the request |
| Scheduler.CycleRejected | server.js:74-77 | valid tasks with a dependency cycle, or with a repeated title, get 500 "Circular dependency detected in tasks" |
| Comparator.Compare | server.js:49-60 | the corrected comparator is negative exactly for an earlier due date, or the same date and fewer hours |
| Comparator.CompareIsKeyLess | server.js:49-60 | the corrected comparator is the order `KeyLess` the rest of the model sorts by |
| Comparator.CompareConsistent | server.js:49-60 | the corrected comparator is antisymmetric and transitive |
| Comparator.SameSpellingAgrees | server.js:53-59 | the comparator as written agrees with the corrected one whenever one instant always has one spelling |
| Comparator.SourceCompareInconsistent | server.js:53-59 | as written, two spellings of one date break the comparator's transitivity |
| Example.ExampleOrder | client/src/components/TaskForm.jsx:72-101 | the four-task project sorts to Design API, Implement Backend, Build Frontend, End-to-End Test |
| Example.ExampleMetrics | server.js:125-137 | the four-task project has 4 tasks, 35 hours, and due dates from 25 to 31 October 2025 |

## Left out

- HTTP and Express plumbing are not modelled: routing, CORS, JSON body parsing,
  `console.error`, the health and root endpoints, and `listen`. A response is a
  status and a body value.
- Numbers are integers. Fractional hours, and sums that lose precision in
  floating point, are not modelled.
- Scheduler.ToTask: a task's instant is the one `parse` gives its due date, and
  the sort and the metrics use that instant too. For a numeric `dueDate` `n`,
  the source validates `Date.parse(String(n))` but orders and measures by
  `new Date(n)`, which is `n` milliseconds, so for such a due date the model's
  order and metrics can differ from the source's.
- `Date.parse` itself is a parameter: which texts it accepts, and the rule
  that only objects and arrays can make it throw, are not modelled.
- The metrics' due dates are timestamps. The `Date` objects, and their ISO
  strings in the JSON response, are not modelled.
- The text of runtime `TypeError` messages is not modelled. It is the single
  value `Scheduler.RuntimeTypeError`.
- Kahn.FirstMin: the queue order is modelled with the corrected comparator. With
  two spellings of one due date, the source's comparator is inconsistent, and
  the order the engine's sort then produces is unspecified (see Findings).

## Findings

| source | as written | input that shows it | evidently intended | confidence | as-written member | corrected member |
|---|---|---|---|---|---|---|
| server.js:53-59 | two tasks tie on the date step whenever their `dueDate` texts differ but parse to the same instant, and the hours step is skipped; the comparator is then not transitive | three tasks in this order: `"2025-10-25"` with 5 hours, `"2025-10-25T00:00:00Z"` with 3 hours, `"2025-10-25"` with 4 hours; the first ties with the second (the texts differ, the instants agree), the second ties with the third, yet the first sorts after the third (same text, more hours) | compare the parsed instants, then the hours | medium, not executed | Comparator.SourceCompare (Comparator.SourceCompareInconsistent) | Comparator.Compare (Comparator.CompareConsistent, Comparator.CompareIsKeyLess) |
