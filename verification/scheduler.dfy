/**
  The `POST /api/v1/projects/:projectId/schedule` handler: the missing-tasks
  check, validation, the sort and the metrics, and the response each path
  produces. HTTP plumbing is left out; a response is its status and body.
*/
module Scheduler {
  import opened Js
  import opened Tasks
  import opened Kahn
  import opened Validation
  import opened Metrics
  import opened KahnProperties
  import Sorter

  const MissingTasks := "Missing tasks in request body"
  const CircularDependency := "Circular dependency detected in tasks"
  const Scheduled := "Tasks scheduled successfully"

  /** The `error` of a failed request: one of the scheduler's messages, or
      the message of a TypeError the runtime raised. */
  datatype Error = Message(text: string) | RuntimeTypeError

  datatype Response =
    | Success(projectId: string, recommendedOrder: seq<string>, metrics: ScheduleMetrics, message: string)
    | Failure(status: int, error: Error)

  /** The string items of a `dependencies` array. Other items can never equal
      a (string) title, so the sort ignores them anyway. */
  function StringItems(items: seq<Json>): (r: seq<string>)
    ensures forall d :: d in r <==> Str(d) in items
  {
    if items == [] then []
    else
      var prefix := items[..|items| - 1];
      var last := items[|items| - 1];
      assert forall v :: v in items <==> v in prefix || v == last by {
        assert items == prefix + [last];
      }
      StringItems(prefix) + (if last.Str? then [last.s] else [])
  }

  /** The task record the sort works on, read off a task that passed
      validation; missing or falsy `dependencies` mean none. */
  function ToTask(task: Json, parse: Json -> Parsed): (t: Task)
    requires TaskOk(task, parse)
    ensures Str(t.title) == Prop(task, "title") && Num(t.hours) == Prop(task, "estimatedHours")
    ensures parse(Prop(task, "dueDate")) == At(t.due)
    ensures t.hours > 0
  {
    var deps := Prop(task, "dependencies");
    Task(
      Prop(task, "title").s,
      Prop(task, "estimatedHours").n,
      parse(Prop(task, "dueDate")).ms,
      if deps.Arr? then StringItems(deps.items) else [])
  }

  function ToTasks(items: seq<Json>, parse: Json -> Parsed): (ts: seq<Task>)
    requires forall i :: 0 <= i < |items| ==> TaskOk(items[i], parse)
    ensures |ts| == |items| && forall i :: 0 <= i < |items| ==> ts[i] == ToTask(items[i], parse)
  {
    if items == [] then [] else ToTasks(items[..|items| - 1], parse) + [ToTask(items[|items| - 1], parse)]
  }

  /** The handler's response to a request whose body has `tasks` (or
      `undefined` when it has none). */
  function Schedule(projectId: string, tasks: Json, parse: Json -> Parsed): Response
  {
    if !Truthy(tasks) then Failure(400, Message(MissingTasks))
    else
      match Validate(tasks, parse)
      case ThrowsTypeError => Failure(500, RuntimeTypeError)
      case Invalid(e) => Failure(400, Message(e))
      case Valid =>
        ValidateValid(tasks, parse);
        var ts := ToTasks(tasks.items, parse);
        match TopoOrder(ts)
        case Circular => Failure(500, Message(CircularDependency))
        case Sorted(order) =>
          if ts == [] then Failure(500, RuntimeTypeError)
          else Success(projectId, order, ComputeMetrics(ts), Scheduled)
  }

  /** The handler as written: each step runs only when the one before it
      let the request through. */
  method HandleSchedule(projectId: string, tasks: Json, parse: Json -> Parsed) returns (r: Response)
    ensures r == Schedule(projectId, tasks, parse)
  {
    if !Truthy(tasks) {
      return Failure(400, Message(MissingTasks));
    }
    var validation := ValidateTasks(tasks, parse);
    if validation.ThrowsTypeError? {
      return Failure(500, RuntimeTypeError);
    }
    if validation.Invalid? {
      return Failure(400, Message(validation.error));
    }
    ValidateValid(tasks, parse);
    var ts := ToTasks(tasks.items, parse);
    var outcome := Sorter.TopologicalSort(ts);
    if outcome.Circular? {
      return Failure(500, Message(CircularDependency));
    }
    if ts == [] {
      return Failure(500, RuntimeTypeError);
    }
    r := Success(projectId, outcome.order, ComputeMetrics(ts), Scheduled);
  }

  /** A request without `tasks` is turned away before anything else. */
  lemma MissingTasksRejected(projectId: string, tasks: Json, parse: Json -> Parsed)
    requires !Truthy(tasks)
    ensures Schedule(projectId, tasks, parse) == Failure(400, Message(MissingTasks))
  {
  }

  /** A validation failure is reported as it is, whatever the sort would
      have said: validation runs before the sort. */
  lemma InvalidRejectedBeforeSort(projectId: string, tasks: Json, parse: Json -> Parsed, e: string)
    requires Truthy(tasks) && Validate(tasks, parse) == Invalid(e)
    ensures Schedule(projectId, tasks, parse) == Failure(400, Message(e))
  {
  }

  /** A due date `Date.parse` throws on, in the first task that does not
      pass, gets the 500 response the `catch` block gives a TypeError. */
  lemma DueDateThrowFails(projectId: string, tasks: Json, parse: Json -> Parsed, i: nat)
    requires tasks.Arr? && i < |tasks.items|
    requires forall j :: 0 <= j < i ==> TaskOk(tasks.items[j], parse)
    requires !tasks.items[i].Undefined? && !tasks.items[i].Null?
    requires TitleOk(tasks.items[i]) && HoursOk(tasks.items[i]) && DueDateThrows(tasks.items[i], parse)
    ensures Schedule(projectId, tasks, parse) == Failure(500, RuntimeTypeError)
  {
    forall j | 0 <= j < i ensures CheckTask(tasks.items[j], parse) == Valid {
      CheckTaskValid(tasks.items[j], parse);
    }
    StopsAtFirstFailure(tasks.items, parse, i);
  }

  /** An empty task list passes validation and sorts to the empty order,
      but reading the first task's due date for the metrics throws. */
  lemma EmptyListFails(projectId: string, parse: Json -> Parsed)
    ensures Schedule(projectId, Arr([]), parse) == Failure(500, RuntimeTypeError)
  {
    assert TopoOrder([]) == Sorted([]) by {
      SeedInv([]);
      assert Seed([]) == [];
    }
  }

  /** A request succeeds exactly when it is a non-empty array of well-formed
      tasks that sorts; the response carries that order and the metrics of
      that list. */
  lemma ScheduledIff(projectId: string, tasks: Json, parse: Json -> Parsed)
    ensures Schedule(projectId, tasks, parse).Success? <==>
      && tasks.Arr? && tasks.items != []
      && (forall i :: 0 <= i < |tasks.items| ==> TaskOk(tasks.items[i], parse))
      && TopoOrder(ToTasks(tasks.items, parse)).Sorted?
    ensures Schedule(projectId, tasks, parse).Success? ==>
      Schedule(projectId, tasks, parse) ==
        var ts := ToTasks(tasks.items, parse);
        Success(projectId, TopoOrder(ts).order, ComputeMetrics(ts), Scheduled)
  {
    ValidateValid(tasks, parse);
  }

  /** A successful response lists every task exactly once, each after the
      tasks it depends on. */
  lemma SuccessOrder(projectId: string, tasks: Json, parse: Json -> Parsed)
    requires Schedule(projectId, tasks, parse).Success?
    ensures tasks.Arr? && forall i :: 0 <= i < |tasks.items| ==> TaskOk(tasks.items[i], parse)
    ensures DistinctTitles(ToTasks(tasks.items, parse))
    ensures var order := Schedule(projectId, tasks, parse).recommendedOrder;
      multiset(order) == multiset(Titles(ToTasks(tasks.items, parse)))
    ensures var order := Schedule(projectId, tasks, parse).recommendedOrder;
      var ts := ToTasks(tasks.items, parse);
      forall i, p, q ::
        (0 <= i < |ts| && 0 <= p < |order| && 0 <= q < |order| &&
         ts[i].title == order[q] && order[p] in ts[i].deps) ==> p < q
  {
    ScheduledIff(projectId, tasks, parse);
    var ts := ToTasks(tasks.items, parse);
    SortedIsPermutation(ts);
    SortedRespectsDependencies(ts);
  }

  /** The metrics of a successful response describe the whole task list:
      its size, its total hours and the range of its due dates. */
  lemma SuccessMetrics(projectId: string, tasks: Json, parse: Json -> Parsed)
    requires Schedule(projectId, tasks, parse).Success?
    ensures tasks.Arr? && tasks.items != []
    ensures forall i :: 0 <= i < |tasks.items| ==> TaskOk(tasks.items[i], parse)
    ensures Schedule(projectId, tasks, parse).projectId == projectId
    ensures Schedule(projectId, tasks, parse).message == Scheduled
    ensures Schedule(projectId, tasks, parse).metrics.totalTasks == |tasks.items|
    ensures Schedule(projectId, tasks, parse).metrics.totalEstimatedHours == TotalHours(ToTasks(tasks.items, parse))
    ensures var m := Schedule(projectId, tasks, parse).metrics;
      forall i :: 0 <= i < |tasks.items| ==>
        m.earliestDueDate <= ToTask(tasks.items[i], parse).due <= m.latestDueDate
    ensures var m := Schedule(projectId, tasks, parse).metrics;
      (exists i :: 0 <= i < |tasks.items| && m.earliestDueDate == ToTask(tasks.items[i], parse).due) &&
      (exists i :: 0 <= i < |tasks.items| && m.latestDueDate == ToTask(tasks.items[i], parse).due)
  {
    ScheduledIff(projectId, tasks, parse);
    MetricsMeaning(ToTasks(tasks.items, parse));
  }

  /** A dependency cycle among well-formed tasks, or two tasks with the same
      title, gets the 500 response with the cycle message. */
  lemma CycleRejected(projectId: string, tasks: Json, parse: Json -> Parsed, c: seq<nat>)
    requires tasks.Arr? && forall i :: 0 <= i < |tasks.items| ==> TaskOk(tasks.items[i], parse)
    requires IsCycle(ToTasks(tasks.items, parse), c) || !DistinctTitles(ToTasks(tasks.items, parse))
    ensures Schedule(projectId, tasks, parse) == Failure(500, Message(CircularDependency))
  {
    ValidateValid(tasks, parse);
    var ts := ToTasks(tasks.items, parse);
    assert Validate(tasks, parse) == Valid;
    if IsCycle(ts, c) {
      CycleCircular(ts, c);
    } else {
      DuplicateTitlesCircular(ts);
    }
  }
}
