/**
  `validateTasks`: the shape checks on the `tasks` of a scheduling request.
  The tasks are checked one after the other, each in a fixed order (title,
  estimated hours, due date, dependencies), and the first problem found is
  the one reported.
*/
module Validation {
  import opened Js

  const NotAnArray := "Tasks must be an array"
  const BadTitle := "Each task must have a valid title"

  /** The messages about one task quote its title between these. */
  const TaskQuote := "Task \""
  const HoursTail := "\" must have a valid estimatedHours (positive number)"
  const DueDateTail := "\" must have a valid dueDate"
  const DependenciesTail := "\" dependencies must be an array"

  function BadHours(title: string): string
  {
    TaskQuote + title + HoursTail
  }

  function BadDueDate(title: string): string
  {
    TaskQuote + title + DueDateTail
  }

  function BadDependencies(title: string): string
  {
    TaskQuote + title + DependenciesTail
  }

  /** `{valid: true}`, `{valid: false, error}`, or the TypeError thrown when
      a task is `null` and its `title` is read, or when `Date.parse` cannot
      turn a due date into a string. */
  datatype Verdict = Valid | Invalid(error: string) | ThrowsTypeError

  /** A non-empty string title. */
  predicate TitleOk(task: Json)
    requires !task.Undefined? && !task.Null?
  {
    var title := Prop(task, "title");
    Truthy(title) && title.Str?
  }

  /** A number that is neither zero nor negative. */
  predicate HoursOk(task: Json)
    requires !task.Undefined? && !task.Null?
  {
    var hours := Prop(task, "estimatedHours");
    Truthy(hours) && hours.Num? && hours.n > 0
  }

  /** A truthy due date that `Date.parse` turns into an instant. */
  predicate DueDateOk(task: Json, parse: Json -> Parsed)
    requires !task.Undefined? && !task.Null?
  {
    var due := Prop(task, "dueDate");
    Truthy(due) && parse(due).At?
  }

  /** A truthy due date on which `Date.parse` throws; a falsy one is never
      parsed. */
  predicate DueDateThrows(task: Json, parse: Json -> Parsed)
    requires !task.Undefined? && !task.Null?
  {
    var due := Prop(task, "dueDate");
    Truthy(due) && parse(due).Throws?
  }

  /** No dependencies, or an array of them. */
  predicate DependenciesOk(task: Json)
    requires !task.Undefined? && !task.Null?
  {
    var deps := Prop(task, "dependencies");
    !Truthy(deps) || deps.Arr?
  }

  /** Every check a single task must pass. */
  predicate TaskOk(task: Json, parse: Json -> Parsed)
  {
    && !task.Undefined? && !task.Null?
    && TitleOk(task) && HoursOk(task) && DueDateOk(task, parse) && DependenciesOk(task)
  }

  /** The body of the loop for one task: the first of its checks that fails. */
  function CheckTask(task: Json, parse: Json -> Parsed): Verdict
  {
    if task.Undefined? || task.Null? then ThrowsTypeError
    else if !TitleOk(task) then Invalid(BadTitle)
    else
      var title := Prop(task, "title").s;
      if !HoursOk(task) then Invalid(BadHours(title))
      else if DueDateThrows(task, parse) then ThrowsTypeError
      else if !DueDateOk(task, parse) then Invalid(BadDueDate(title))
      else if !DependenciesOk(task) then Invalid(BadDependencies(title))
      else Valid
  }

  /** The verdict on the tasks from the first one on: the first failing task
      decides it. */
  function FirstProblem(items: seq<Json>, parse: Json -> Parsed): Verdict
  {
    if items == [] then Valid
    else if CheckTask(items[0], parse) != Valid then CheckTask(items[0], parse)
    else FirstProblem(items[1..], parse)
  }

  /** `validateTasks(tasks)`. */
  function Validate(tasks: Json, parse: Json -> Parsed): Verdict
  {
    if !tasks.Arr? then Invalid(NotAnArray) else FirstProblem(tasks.items, parse)
  }

  /** A task is accepted exactly when it passes all four checks. */
  lemma CheckTaskValid(task: Json, parse: Json -> Parsed)
    ensures CheckTask(task, parse) == Valid <==> TaskOk(task, parse)
  {
  }

  /** The checks run in a fixed order: each message names the check that
      failed, every earlier check of the same task having passed, and carries
      the task's title. A TypeError comes from a `null` task, or from a due
      date `Date.parse` throws on once title and hours have passed. */
  lemma CheckTaskOrder(task: Json, parse: Json -> Parsed)
    ensures CheckTask(task, parse) == ThrowsTypeError <==>
      task.Undefined? || task.Null? ||
      (TitleOk(task) && HoursOk(task) && DueDateThrows(task, parse))
    ensures CheckTask(task, parse) == Invalid(BadTitle) <==> !task.Undefined? && !task.Null? && !TitleOk(task)
    ensures !task.Undefined? && !task.Null? && TitleOk(task) ==>
      var t := Prop(task, "title").s;
      && (CheckTask(task, parse) == Invalid(BadHours(t)) <==> !HoursOk(task))
      && (CheckTask(task, parse) == Invalid(BadDueDate(t)) <==>
            HoursOk(task) && !DueDateThrows(task, parse) && !DueDateOk(task, parse))
      && (CheckTask(task, parse) == Invalid(BadDependencies(t)) <==>
            HoursOk(task) && DueDateOk(task, parse) && !DependenciesOk(task))
  {
    if !task.Undefined? && !task.Null? && TitleOk(task) {
      MessagesDistinct(Prop(task, "title").s, Prop(task, "title").s);
    }
  }

  /** A message of the form `Task "<title>" ...` determines its title. */
  lemma MessageTitle(t1: string, t2: string, tail: string)
    requires TaskQuote + t1 + tail == TaskQuote + t2 + tail
    ensures t1 == t2
  {
    var m := TaskQuote + t1 + tail;
    assert |t1| == |t2|;
    assert t1 == m[|TaskQuote|..|TaskQuote| + |t1|];
    assert t2 == m[|TaskQuote|..|TaskQuote| + |t2|];
  }

  /** Where the messages differ: the first character, the fifth (the blank
      after `Task` or the `s` of `Tasks`) and the last one. */
  lemma MessageMarks(t: string)
    ensures BadHours(t)[0] == 'T' && BadHours(t)[4] == ' ' && BadHours(t)[|BadHours(t)| - 1] == ')'
    ensures BadDueDate(t)[0] == 'T' && BadDueDate(t)[4] == ' ' && BadDueDate(t)[|BadDueDate(t)| - 1] == 'e'
    ensures BadDependencies(t)[0] == 'T' && BadDependencies(t)[4] == ' ' && BadDependencies(t)[|BadDependencies(t)| - 1] == 'y'
  {
    assert TaskQuote[0] == 'T' && TaskQuote[4] == ' ';
    assert HoursTail[|HoursTail| - 1] == ')';
    assert DueDateTail[|DueDateTail| - 1] == 'e';
    assert DependenciesTail[|DependenciesTail| - 1] == 'y';
  }

  /** No two messages coincide unless they report the same check for the
      same title, so the error text identifies the problem. */
  lemma MessagesDistinct(t1: string, t2: string)
    ensures BadHours(t1) == BadHours(t2) ==> t1 == t2
    ensures BadDueDate(t1) == BadDueDate(t2) ==> t1 == t2
    ensures BadDependencies(t1) == BadDependencies(t2) ==> t1 == t2
    ensures BadHours(t1) != BadDueDate(t2) && BadHours(t1) != BadDependencies(t2)
    ensures BadDueDate(t1) != BadDependencies(t2) && BadDueDate(t1) != BadHours(t2)
    ensures BadDependencies(t1) != BadHours(t2) && BadDependencies(t1) != BadDueDate(t2)
    ensures BadTitle != BadHours(t1) && BadTitle != BadDueDate(t1) && BadTitle != BadDependencies(t1)
    ensures NotAnArray != BadTitle && NotAnArray != BadHours(t1) && NotAnArray != BadDueDate(t1)
    ensures NotAnArray != BadDependencies(t1)
  {
    if BadHours(t1) == BadHours(t2) {
      MessageTitle(t1, t2, HoursTail);
    }
    if BadDueDate(t1) == BadDueDate(t2) {
      MessageTitle(t1, t2, DueDateTail);
    }
    if BadDependencies(t1) == BadDependencies(t2) {
      MessageTitle(t1, t2, DependenciesTail);
    }
    MessageMarks(t1);
    MessageMarks(t2);
    assert BadTitle[0] == 'E';
    assert NotAnArray[0] == 'T' && NotAnArray[4] == 's';
  }

  /** A well-formed list yields `{valid: true}`: the tasks are accepted
      exactly when the input is an array and every task passes its checks. */
  lemma {:induction false} FirstProblemValid(items: seq<Json>, parse: Json -> Parsed)
    ensures FirstProblem(items, parse) == Valid <==> forall i :: 0 <= i < |items| ==> CheckTask(items[i], parse) == Valid
  {
    if items != [] {
      FirstProblemValid(items[1..], parse);
      assert forall i :: 1 <= i < |items| ==> items[i] == items[1..][i - 1];
    }
  }

  lemma ValidateValid(tasks: Json, parse: Json -> Parsed)
    ensures Validate(tasks, parse) == Valid <==>
      tasks.Arr? && forall i :: 0 <= i < |tasks.items| ==> TaskOk(tasks.items[i], parse)
  {
    if tasks.Arr? {
      FirstProblemValid(tasks.items, parse);
      forall i | 0 <= i < |tasks.items| {
        CheckTaskValid(tasks.items[i], parse);
      }
    }
  }

  /** Only the first failure is reported: when the list is rejected, the
      verdict is that of a task `i` after which nothing is looked at, all
      tasks before it being well-formed. */
  lemma {:induction false} FirstFailure(items: seq<Json>, parse: Json -> Parsed) returns (i: nat)
    requires FirstProblem(items, parse) != Valid
    ensures i < |items| && CheckTask(items[i], parse) == FirstProblem(items, parse)
    ensures forall j :: 0 <= j < i ==> CheckTask(items[j], parse) == Valid
  {
    if CheckTask(items[0], parse) != Valid {
      i := 0;
    } else {
      var k := FirstFailure(items[1..], parse);
      i := k + 1;
      forall j | 0 <= j < i ensures CheckTask(items[j], parse) == Valid {
        if j > 0 {
          assert items[j] == items[1..][j - 1];
        }
      }
    }
  }

  /** Conversely, the first task that does not pass decides the verdict,
      whatever follows it. */
  lemma {:induction false} StopsAtFirstFailure(items: seq<Json>, parse: Json -> Parsed, i: nat)
    requires i < |items| && CheckTask(items[i], parse) != Valid
    requires forall j :: 0 <= j < i ==> CheckTask(items[j], parse) == Valid
    ensures FirstProblem(items, parse) == CheckTask(items[i], parse)
  {
    if i > 0 {
      assert items[1..][i - 1] == items[i];
      forall j | 0 <= j < i - 1 ensures CheckTask(items[1..][j], parse) == Valid {
        assert items[1..][j] == items[j + 1];
      }
      StopsAtFirstFailure(items[1..], parse, i - 1);
    }
  }

  /** `validateTasks` as written: a loop over the tasks with an early return
      at the first problem. */
  method ValidateTasks(tasks: Json, parse: Json -> Parsed) returns (v: Verdict)
    ensures v == Validate(tasks, parse)
  {
    if !tasks.Arr? {
      return Invalid(NotAnArray);
    }
    var items := tasks.items;
    for k := 0 to |items|
      invariant FirstProblem(items, parse) == FirstProblem(items[k..], parse)
    {
      var task := items[k];
      assert items[k..][1..] == items[k + 1..];
      if task.Undefined? || task.Null? {
        return ThrowsTypeError;
      }
      var title := Prop(task, "title");
      if !Truthy(title) || !title.Str? {
        return Invalid(BadTitle);
      }
      var hours := Prop(task, "estimatedHours");
      if !Truthy(hours) || !hours.Num? || hours.n <= 0 {
        return Invalid(BadHours(title.s));
      }
      var due := Prop(task, "dueDate");
      if Truthy(due) && parse(due).Throws? {
        return ThrowsTypeError;
      }
      if !Truthy(due) || !parse(due).At? {
        return Invalid(BadDueDate(title.s));
      }
      var deps := Prop(task, "dependencies");
      if Truthy(deps) && !deps.Arr? {
        return Invalid(BadDependencies(title.s));
      }
    }
    return Valid;
  }
}
