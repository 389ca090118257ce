/**
  What `topologicalSort` promises, proved about the reference order
  `TopoOrder`: a successful result lists every task exactly once, after all
  of its prerequisites, always taking the most urgent ready task; the cycle
  error is raised exactly when titles repeat or some tasks wait on each
  other; and dependency names that match no task are ignored.
*/
module KahnProperties {
  import opened Tasks
  import opened Graph
  import opened Kahn

  /** The task emitted at position `k` of `r` was ready at that moment, and
      no other ready task had a strictly earlier (due date, hours) key. */
  ghost predicate EmittedWell(ts: seq<Task>, r: seq<string>, k: nat)
    requires k < |r| && r[k] in TitleSet(ts)
  {
    && Ready(ts, r[k], r[..k])
    && forall x :: x in TitleSet(ts) && x !in r[..k] && Ready(ts, x, r[..k]) ==>
         !KeyLess(TaskMap(ts)[x], TaskMap(ts)[r[k]])
  }

  /** The run only extends the emitted titles, and it ends in a state where
      the queue is empty and the invariant still holds. */
  lemma {:induction false} RunEnd(ts: seq<Task>, done: seq<string>, queue: seq<string>)
    requires Inv(ts, done, queue)
    ensures |done| <= |Run(ts, done, queue)|
    ensures Run(ts, done, queue)[..|done|] == done
    ensures Inv(ts, Run(ts, done, queue), [])
    decreases |TitleSet(ts)| - |done|
  {
    if queue != [] {
      StepKeepsInv(ts, done, queue);
      var c := Head(ts, queue);
      RunEnd(ts, done + [c], NextQueue(ts, done, queue));
      var r := Run(ts, done + [c], NextQueue(ts, done, queue));
      assert r[..|done|] == r[..|done| + 1][..|done|];
    }
  }

  /** The title emitted first from a state is ready and of minimal key. */
  lemma FirstEmission(ts: seq<Task>, done: seq<string>, queue: seq<string>, r: seq<string>)
    requires Inv(ts, done, queue) && queue != []
    requires |done| < |r| && r[..|done| + 1] == done + [Head(ts, queue)]
    ensures r[|done|] in TitleSet(ts)
    ensures EmittedWell(ts, r, |done|)
  {
    var m := FirstMin(TaskMap(ts), queue);
    assert r[|done|] == r[..|done| + 1][|done|];
    assert r[..|done|] == r[..|done| + 1][..|done|];
    ReadyIffPendingZero(ts, r[|done|], r[..|done|]);
    forall x | x in TitleSet(ts) && x !in r[..|done|] && Ready(ts, x, r[..|done|])
      ensures !KeyLess(TaskMap(ts)[x], TaskMap(ts)[r[|done|]])
    {
      ReadyIffPendingZero(ts, x, r[..|done|]);
      var j :| 0 <= j < |queue| && queue[j] == x;
    }
  }

  /** Every title the run emits was emitted well. */
  lemma {:induction false} RunSteps(ts: seq<Task>, done: seq<string>, queue: seq<string>)
    requires Inv(ts, done, queue)
    ensures forall k :: |done| <= k < |Run(ts, done, queue)| ==>
      Run(ts, done, queue)[k] in TitleSet(ts) && EmittedWell(ts, Run(ts, done, queue), k)
    decreases |TitleSet(ts)| - |done|
  {
    if queue != [] {
      StepKeepsInv(ts, done, queue);
      var c := Head(ts, queue);
      var r := Run(ts, done, queue);
      assert r == Run(ts, done + [c], NextQueue(ts, done, queue));
      RunSteps(ts, done + [c], NextQueue(ts, done, queue));
      RunEnd(ts, done + [c], NextQueue(ts, done, queue));
      forall k | |done| <= k < |r| ensures r[k] in TitleSet(ts) && EmittedWell(ts, r, k) {
        if k == |done| {
          FirstEmission(ts, done, queue, r);
        }
      }
    }
  }

  /** The titles of the tasks, in input order. */
  function Titles(ts: seq<Task>): (r: seq<string>)
    ensures |r| == |ts| && forall i :: 0 <= i < |ts| ==> r[i] == ts[i].title
  {
    if ts == [] then [] else Titles(ts[..|ts| - 1]) + [ts[|ts| - 1].title]
  }

  /** In a duplicate-free sequence every element occurs exactly once. */
  lemma {:induction false} DistinctMultiplicity(s: seq<string>, x: string)
    requires Distinct(s)
    ensures multiset(s)[x] == if x in s then 1 else 0
  {
    if s != [] {
      var prefix := s[..|s| - 1];
      assert s == prefix + [s[|s| - 1]];
      assert Distinct(prefix);
      DistinctMultiplicity(prefix, x);
    }
  }

  /** What the emitted order `r` of a finished run satisfies: distinct task
      titles, each emitted well, and every title left out not ready. */
  ghost predicate Emission(ts: seq<Task>, r: seq<string>)
  {
    && Distinct(r)
    && (forall x :: x in r ==> x in TitleSet(ts))
    && (forall k {:trigger EmittedWell(ts, r, k)} :: 0 <= k < |r| ==> EmittedWell(ts, r, k))
    && (forall x :: x in TitleSet(ts) && x !in r ==> !Ready(ts, x, r))
  }

  /** The run from the initial queue ends in an emission, and the sort
      reports it, or the cycle error when it is shorter than the task list. */
  lemma Outcome(ts: seq<Task>) returns (r: seq<string>)
    ensures Emission(ts, r)
    ensures TopoOrder(ts) == if |r| != |ts| then Circular else Sorted(r)
  {
    SeedInv(ts);
    r := Run(ts, [], Seed(ts));
    RunEnd(ts, [], Seed(ts));
    RunSteps(ts, [], Seed(ts));
    forall x | x in TitleSet(ts) && x !in r ensures !Ready(ts, x, r) {
      ReadyIffPendingZero(ts, x, r);
    }
  }

  /** An emission never holds more titles than there are distinct titles. */
  lemma EmissionLength(ts: seq<Task>, r: seq<string>)
    requires Emission(ts, r)
    ensures |r| <= |TitleSet(ts)| <= |ts|
    ensures |r| == |ts| ==> DistinctTitles(ts) && forall x :: x in TitleSet(ts) ==> x in r
  {
    DistinctCardinality(r, TitleSet(ts));
    TitleSetCardinality(ts);
  }

  /** A complete emission lists every task title exactly once. */
  lemma EmissionPermutation(ts: seq<Task>, r: seq<string>)
    requires Emission(ts, r) && |r| == |ts|
    ensures DistinctTitles(ts)
    ensures multiset(r) == multiset(Titles(ts))
  {
    EmissionLength(ts, r);
    var titles := Titles(ts);
    assert Distinct(titles);
    forall x ensures multiset(r)[x] == multiset(titles)[x] {
      DistinctMultiplicity(r, x);
      DistinctMultiplicity(titles, x);
      if x in TitleSet(ts) {
        var i := TitleOf(ts, x);
        assert titles[i] == x;
      }
    }
  }

  /** On success every task title occurs exactly once: the order is a
      permutation of the input titles, so no two tasks share a title. */
  lemma SortedIsPermutation(ts: seq<Task>)
    requires TopoOrder(ts).Sorted?
    ensures |TopoOrder(ts).order| == |ts|
    ensures DistinctTitles(ts)
    ensures multiset(TopoOrder(ts).order) == multiset(Titles(ts))
  {
    var r := Outcome(ts);
    EmissionPermutation(ts, r);
  }

  /** Conversely, when the titles repeat the maps collapse the duplicates, so
      fewer titles are emitted than there are tasks and the sort fails. */
  lemma DuplicateTitlesCircular(ts: seq<Task>)
    requires !DistinctTitles(ts)
    ensures TopoOrder(ts) == Circular
  {
    var r := Outcome(ts);
    EmissionLength(ts, r);
  }

  /** In an emission every title was ready at its turn and comes after the
      prerequisites of its task(s). */
  lemma EmissionRespectsDependencies(ts: seq<Task>, r: seq<string>)
    requires Emission(ts, r)
    ensures forall q :: 0 <= q < |r| ==> Ready(ts, r[q], r[..q])
    ensures forall i, p, q :: 0 <= i < |ts| && 0 <= p < |r| && 0 <= q < |r| && ts[i].title == r[q] && r[p] in ts[i].deps
              ==> p < q
  {
    forall q | 0 <= q < |r| ensures Ready(ts, r[q], r[..q]) {
      assert EmittedWell(ts, r, q);
    }
    forall i, p, q | 0 <= i < |ts| && 0 <= p < |r| && 0 <= q < |r| && ts[i].title == r[q] && r[p] in ts[i].deps
      ensures p < q
    {
      assert EmittedWell(ts, r, q);
      assert r[p] in r[..q];
      var j :| 0 <= j < q && r[j] == r[p];
    }
  }

  /** On success every task was ready at its turn and comes after each of its
      prerequisites that names a task of the request. */
  lemma SortedRespectsDependencies(ts: seq<Task>)
    requires TopoOrder(ts).Sorted?
    ensures var order := TopoOrder(ts).order;
      forall q :: 0 <= q < |order| ==> Ready(ts, order[q], order[..q])
    ensures var order := TopoOrder(ts).order;
      forall i, p, q :: 0 <= i < |ts| && 0 <= p < |order| && 0 <= q < |order| && ts[i].title == order[q] && order[p] in ts[i].deps
        ==> p < q
  {
    var r := Outcome(ts);
    EmissionRespectsDependencies(ts, r);
  }

  /** With unique titles, each emitted task is the most urgent ready one. */
  lemma EmissionGreedy(ts: seq<Task>, r: seq<string>)
    requires Emission(ts, r) && DistinctTitles(ts)
    ensures forall k, i, j :: 0 <= k < |r| && 0 <= i < |ts| && 0 <= j < |ts| && ts[j].title == r[k]
              && ts[i].title !in r[..k] && Ready(ts, ts[i].title, r[..k])
              ==> !KeyLess(ts[i], ts[j])
  {
    forall k, i, j | 0 <= k < |r| && 0 <= i < |ts| && 0 <= j < |ts| && ts[j].title == r[k]
        && ts[i].title !in r[..k] && Ready(ts, ts[i].title, r[..k])
      ensures !KeyLess(ts[i], ts[j])
    {
      assert EmittedWell(ts, r, k);
      TaskMapOfDistinct(ts, i);
      TaskMapOfDistinct(ts, j);
    }
  }

  /** On success each task is the most urgent of the tasks ready at its
      turn: no task that was ready and not yet emitted had an earlier due
      date, or the same due date and fewer hours. */
  lemma SortedIsGreedy(ts: seq<Task>)
    requires TopoOrder(ts).Sorted?
    ensures var order := TopoOrder(ts).order;
      forall k, i, j :: 0 <= k < |order| && 0 <= i < |ts| && 0 <= j < |ts| && ts[j].title == order[k]
        && ts[i].title !in order[..k] && Ready(ts, ts[i].title, order[..k])
        ==> !KeyLess(ts[i], ts[j])
  {
    var r := Outcome(ts);
    EmissionPermutation(ts, r);
    EmissionGreedy(ts, r);
  }

  /** Some task titled `x` lists a title of `S` among its prerequisites. */
  ghost predicate WaitsWithin(ts: seq<Task>, x: string, S: set<string>)
  {
    exists i, d :: 0 <= i < |ts| && ts[i].title == x && d in ts[i].deps && d in S
  }

  /** A non-empty set of task titles each of which waits on a title of the
      set: none of them can ever become ready. */
  ghost predicate Deadlocked(ts: seq<Task>, S: set<string>)
  {
    && (exists x :: x in S)
    && (forall x :: x in S ==> x in TitleSet(ts))
    && (forall x {:trigger WaitsWithin(ts, x, S)} :: x in S ==> WaitsWithin(ts, x, S))
  }

  /** A ready title does not wait on titles that are not done yet. */
  lemma ReadyNotWaiting(ts: seq<Task>, x: string, done: seq<string>, S: set<string>)
    requires Ready(ts, x, done)
    requires forall y :: y in S ==> y in TitleSet(ts) && y !in done
    ensures !WaitsWithin(ts, x, S)
  {
  }

  /** No title of a deadlocked set is ever emitted. */
  lemma {:induction false} NoneEmitted(ts: seq<Task>, S: set<string>, r: seq<string>, k: nat)
    requires Deadlocked(ts, S) && Emission(ts, r)
    requires k <= |r|
    ensures forall x :: x in r[..k] ==> x !in S
  {
    if k > 0 {
      NoneEmitted(ts, S, r, k - 1);
      assert EmittedWell(ts, r, k - 1);
      ReadyNotWaiting(ts, r[k - 1], r[..k - 1], S);
      forall x | x in r[..k] ensures x !in S {
        var j :| 0 <= j < k && r[j] == x;
        if j < k - 1 {
          assert x in r[..k - 1];
        }
      }
    }
  }

  /** A duplicate-free sequence of titles that avoids a non-empty set of
      titles is shorter than the task list. */
  lemma AvoidingIsShort(ts: seq<Task>, S: set<string>, r: seq<string>)
    requires (exists x :: x in S) && forall x :: x in S ==> x in TitleSet(ts)
    requires Distinct(r) && forall y :: y in r ==> y in TitleSet(ts) && y !in S
    ensures |r| < |ts|
  {
    var x :| x in S;
    DistinctCardinality(r, TitleSet(ts) - {x});
    TitleSetCardinality(ts);
  }

  /** An emission misses every title of a deadlocked set. */
  lemma DeadlockShortens(ts: seq<Task>, S: set<string>, r: seq<string>)
    requires Deadlocked(ts, S) && Emission(ts, r)
    ensures |r| < |ts|
  {
    NoneEmitted(ts, S, r, |r|);
    assert forall x :: x in r ==> x in r[..|r|];
    AvoidingIsShort(ts, S, r);
  }

  /** Tasks that wait on each other make the sort fail. */
  lemma DeadlockCircular(ts: seq<Task>, S: set<string>)
    requires Deadlocked(ts, S)
    ensures TopoOrder(ts) == Circular
  {
    var r := Outcome(ts);
    DeadlockShortens(ts, S, r);
  }

  /** The task titles an order leaves out. */
  ghost function LeftOut(ts: seq<Task>, r: seq<string>): (S: set<string>)
    ensures forall x :: x in S <==> x in TitleSet(ts) && x !in r
  {
    set x | x in TitleSet(ts) && x !in r
  }

  /** Every title an emission leaves out waits on another title left out. */
  lemma LeftOutWaits(ts: seq<Task>, r: seq<string>)
    requires Emission(ts, r)
    ensures forall x :: x in LeftOut(ts, r) ==> WaitsWithin(ts, x, LeftOut(ts, r))
  {
    forall x | x in LeftOut(ts, r) ensures WaitsWithin(ts, x, LeftOut(ts, r)) {
      assert !Ready(ts, x, r);
      var i, d :| 0 <= i < |ts| && ts[i].title == x && d in ts[i].deps && d in TitleSet(ts) && d !in r;
      assert d in LeftOut(ts, r);
    }
  }

  /** With unique titles, an emission shorter than the task list leaves
      some title out. */
  lemma LeftOutNonEmpty(ts: seq<Task>, r: seq<string>)
    requires Emission(ts, r) && |r| != |ts| && DistinctTitles(ts)
    ensures exists x :: x in LeftOut(ts, r)
  {
    EmissionLength(ts, r);
    TitleSetCardinality(ts);
    var missing := Uncovered(r, TitleSet(ts));
    assert missing in LeftOut(ts, r);
  }

  /** With unique titles, the titles a short emission leaves out wait on
      each other. */
  lemma LeftOutDeadlocked(ts: seq<Task>, r: seq<string>)
    requires Emission(ts, r) && |r| != |ts| && DistinctTitles(ts)
    ensures Deadlocked(ts, LeftOut(ts, r))
  {
    LeftOutWaits(ts, r);
    LeftOutNonEmpty(ts, r);
  }

  /** When the titles are unique and the sort fails, the titles left out wait
      on each other. */
  lemma CircularHasDeadlock(ts: seq<Task>) returns (S: set<string>)
    requires TopoOrder(ts) == Circular && DistinctTitles(ts)
    ensures Deadlocked(ts, S)
  {
    var r := Outcome(ts);
    LeftOutDeadlocked(ts, r);
    S := LeftOut(ts, r);
  }

  /** The sort fails exactly when two tasks share a title or some tasks wait
      on each other. */
  lemma CircularIff(ts: seq<Task>)
    ensures TopoOrder(ts) == Circular <==> !DistinctTitles(ts) || exists S :: Deadlocked(ts, S)
  {
    if TopoOrder(ts) == Circular && DistinctTitles(ts) {
      var S := CircularHasDeadlock(ts);
    }
    if exists S :: Deadlocked(ts, S) {
      var S :| Deadlocked(ts, S);
      DeadlockCircular(ts, S);
    }
    if !DistinctTitles(ts) {
      DuplicateTitlesCircular(ts);
    }
  }

  /** A dependency cycle through the tasks at positions `c`: each task lists
      the title of the next one, and the last lists the first. */
  ghost predicate IsCycle(ts: seq<Task>, c: seq<nat>)
  {
    && c != []
    && (forall j :: 0 <= j < |c| ==> c[j] < |ts|)
    && (forall j :: 0 <= j < |c| - 1 ==> ts[c[j + 1]].title in ts[c[j]].deps)
    && ts[c[0]].title in ts[c[|c| - 1]].deps
  }

  /** The titles of the tasks on a cycle. */
  ghost function CycleTitles(ts: seq<Task>, c: seq<nat>): set<string>
    requires forall j :: 0 <= j < |c| ==> c[j] < |ts|
  {
    set j | 0 <= j < |c| :: ts[c[j]].title
  }

  /** Each title on a cycle waits on the title of the next task. */
  lemma CycleWaits(ts: seq<Task>, c: seq<nat>)
    requires IsCycle(ts, c)
    ensures forall x :: x in CycleTitles(ts, c) ==> x in TitleSet(ts) && WaitsWithin(ts, x, CycleTitles(ts, c))
  {
    var S := CycleTitles(ts, c);
    forall x | x in S ensures x in TitleSet(ts) && WaitsWithin(ts, x, S) {
      var j :| 0 <= j < |c| && ts[c[j]].title == x;
      var n := if j < |c| - 1 then j + 1 else 0;
      assert ts[c[n]].title in S;
    }
  }

  lemma CycleNonEmpty(ts: seq<Task>, c: seq<nat>)
    requires IsCycle(ts, c)
    ensures exists x :: x in CycleTitles(ts, c)
  {
    assert ts[c[0]].title in CycleTitles(ts, c);
  }

  /** The titles on a cycle wait on each other. */
  lemma CycleDeadlocked(ts: seq<Task>, c: seq<nat>)
    requires IsCycle(ts, c)
    ensures Deadlocked(ts, CycleTitles(ts, c))
  {
    CycleNonEmpty(ts, c);
    CycleWaits(ts, c);
  }

  /** Any dependency cycle makes the sort fail. */
  lemma CycleCircular(ts: seq<Task>, c: seq<nat>)
    requires IsCycle(ts, c)
    ensures TopoOrder(ts) == Circular
  {
    CycleDeadlocked(ts, c);
    DeadlockCircular(ts, CycleTitles(ts, c));
  }

  /** In particular, a task that lists itself makes the sort fail. */
  lemma SelfDependencyCircular(ts: seq<Task>, i: nat)
    requires i < |ts| && ts[i].title in ts[i].deps
    ensures TopoOrder(ts) == Circular
  {
    CycleCircular(ts, [i]);
  }
}
