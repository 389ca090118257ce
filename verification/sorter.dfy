/**
  `topologicalSort` step by step: three maps filled in `forEach` loops,
  in-degree counters decremented in place, and a ready queue from which the
  first title of minimal key is taken, and to which released titles are
  pushed, until it runs dry. The source re-sorts the whole queue and shifts
  its head instead; its sort is stable, so titles of equal key keep their
  relative order in both queues and the same title comes out each time.
*/
module Sorter {
  import opened Tasks
  import opened Graph
  import opened Kahn

  /** The four structures after the first `i` tasks have been visited. */
  ghost predicate InitializedSoFar(tasks: seq<Task>, i: nat, taskMap: map<string, Task>, inDegree: map<string, int>,
                                   keys: seq<string>, adjList: map<string, seq<string>>)
    requires i <= |tasks|
  {
    && taskMap == TaskMap(tasks[..i])
    && keys == FirstOccurrences(tasks[..i])
    && inDegree.Keys == TitleSet(tasks[..i]) && (forall x :: x in inDegree ==> inDegree[x] == 0)
    && adjList.Keys == TitleSet(tasks[..i]) && (forall x :: x in adjList ==> adjList[x] == [])
  }

  /** Visiting task `i` registers its title; `keys` grows only on a title not
      seen before. */
  lemma InitStep(tasks: seq<Task>, i: nat, taskMap: map<string, Task>, inDegree: map<string, int>,
                 keys: seq<string>, adjList: map<string, seq<string>>)
    requires i < |tasks|
    requires InitializedSoFar(tasks, i, taskMap, inDegree, keys, adjList)
    ensures
      var t := tasks[i];
      InitializedSoFar(tasks, i + 1, taskMap[t.title := t], inDegree[t.title := 0],
                       if t.title in inDegree then keys else keys + [t.title], adjList[t.title := []])
  {
    PrefixStep(tasks, i);
    FirstOccurrencesAreTitles(tasks[..i]);
  }

  /** The first `forEach`: every title gets its task, an in-degree of 0 and
      an empty adjacency list; `keys` records the order in which `inDegree`
      first saw each title. */
  method InitMaps(tasks: seq<Task>)
    returns (taskMap: map<string, Task>, inDegree: map<string, int>, keys: seq<string>, adjList: map<string, seq<string>>)
    ensures taskMap == TaskMap(tasks)
    ensures keys == FirstOccurrences(tasks)
    ensures inDegree.Keys == TitleSet(tasks) && forall x :: x in inDegree ==> inDegree[x] == 0
    ensures adjList.Keys == TitleSet(tasks) && forall x :: x in adjList ==> adjList[x] == []
  {
    taskMap, inDegree, keys, adjList := map[], map[], [], map[];
    var i := 0;
    while i < |tasks|
      invariant 0 <= i <= |tasks|
      invariant InitializedSoFar(tasks, i, taskMap, inDegree, keys, adjList)
    {
      var task := tasks[i];
      InitStep(tasks, i, taskMap, inDegree, keys, adjList);
      taskMap := taskMap[task.title := task];
      if task.title !in inDegree {
        keys := keys + [task.title];
      }
      inDegree := inDegree[task.title := 0];
      adjList := adjList[task.title := []];
      i := i + 1;
    }
    assert tasks[..|tasks|] == tasks;
  }

  /** The maps after the first `j` listings of `task.deps` have been visited. */
  ghost predicate EdgesSoFar(all: set<string>, task: Task, j: nat, inDegree0: map<string, int>, adjList0: map<string, seq<string>>,
                             inDegree: map<string, int>, adjList: map<string, seq<string>>)
    requires j <= |task.deps|
  {
    && inDegree0.Keys == all && adjList0.Keys == all
    && inDegree.Keys == all && adjList.Keys == all
    && (forall x :: x in all ==>
         inDegree[x] == inDegree0[x] + (if x == task.title then Unmet(task.deps[..j], all, []) else 0))
    && (forall c :: c in all ==> adjList[c] == adjList0[c] + EdgesFrom(task.title, task.deps[..j], c))
  }

  /** Visiting listing `j`: a listing that names a task adds one edge and one
      to the in-degree; any other listing changes nothing. */
  lemma AddEdgeStep(all: set<string>, task: Task, j: nat, inDegree0: map<string, int>, adjList0: map<string, seq<string>>,
                    inDegree: map<string, int>, adjList: map<string, seq<string>>)
    requires j < |task.deps| && task.title in all
    requires EdgesSoFar(all, task, j, inDegree0, adjList0, inDegree, adjList)
    ensures task.deps[j] in adjList ==>
      EdgesSoFar(all, task, j + 1, inDegree0, adjList0, inDegree[task.title := inDegree[task.title] + 1],
                 adjList[task.deps[j] := adjList[task.deps[j]] + [task.title]])
    ensures task.deps[j] !in adjList ==> EdgesSoFar(all, task, j + 1, inDegree0, adjList0, inDegree, adjList)
  {
    assert task.deps[..j + 1][..j] == task.deps[..j];
  }

  /** The body of the second `forEach` for one task: each listed prerequisite
      that names a task (a key of `adjList`) gets the task appended to its
      adjacency list and adds one to the task's in-degree; other names are
      skipped. */
  method AddEdges(ghost all: set<string>, task: Task, inDegree0: map<string, int>, adjList0: map<string, seq<string>>)
    returns (inDegree: map<string, int>, adjList: map<string, seq<string>>)
    requires inDegree0.Keys == all && adjList0.Keys == all && task.title in all
    ensures inDegree.Keys == all && adjList.Keys == all
    ensures forall x :: x in all ==>
      inDegree[x] == inDegree0[x] + (if x == task.title then Unmet(task.deps, all, []) else 0)
    ensures forall c :: c in all ==> adjList[c] == adjList0[c] + EdgesFrom(task.title, task.deps, c)
  {
    inDegree, adjList := inDegree0, adjList0;
    var j := 0;
    while j < |task.deps|
      invariant 0 <= j <= |task.deps|
      invariant EdgesSoFar(all, task, j, inDegree0, adjList0, inDegree, adjList)
    {
      var dep := task.deps[j];
      AddEdgeStep(all, task, j, inDegree0, adjList0, inDegree, adjList);
      if dep in adjList {
        adjList := adjList[dep := adjList[dep] + [task.title]];
        inDegree := inDegree[task.title := inDegree[task.title] + 1];
      }
      j := j + 1;
    }
    assert task.deps[..j] == task.deps;
  }

  /** The in-degrees once the first `i` tasks have been visited. */
  ghost predicate DegreesSoFar(tasks: seq<Task>, i: nat, inDegree: map<string, int>)
    requires i <= |tasks|
  {
    && inDegree.Keys == TitleSet(tasks)
    && forall x :: x in TitleSet(tasks) ==> inDegree[x] == Pending(tasks[..i], TitleSet(tasks), x, [])
  }

  /** The adjacency lists once the first `i` tasks have been visited. */
  ghost predicate AdjSoFar(tasks: seq<Task>, i: nat, adjList: map<string, seq<string>>)
    requires i <= |tasks|
  {
    && adjList.Keys == TitleSet(tasks)
    && forall c :: c in TitleSet(tasks) ==> adjList[c] == Adj(tasks[..i], c)
  }

  /** Visiting task `i` adds the unmet listings of its prerequisites to its
      in-degree. */
  lemma DegreeStep(tasks: seq<Task>, i: nat, inDegree0: map<string, int>, inDegree: map<string, int>)
    requires i < |tasks|
    requires DegreesSoFar(tasks, i, inDegree0)
    requires inDegree.Keys == TitleSet(tasks)
    requires forall x :: x in TitleSet(tasks) ==>
      inDegree[x] == inDegree0[x] + (if x == tasks[i].title then Unmet(tasks[i].deps, TitleSet(tasks), []) else 0)
    ensures DegreesSoFar(tasks, i + 1, inDegree)
  {
    var all := TitleSet(tasks);
    forall x | x in all
      ensures inDegree[x] == Pending(tasks[..i + 1], all, x, [])
    {
      assert inDegree0[x] == Pending(tasks[..i], all, x, []);
      PrefixEdges(tasks, i, all, [], x);
    }
  }

  /** Visiting task `i` appends its title to the list of each prerequisite. */
  lemma AdjStep(tasks: seq<Task>, i: nat, adjList0: map<string, seq<string>>, adjList: map<string, seq<string>>)
    requires i < |tasks|
    requires AdjSoFar(tasks, i, adjList0)
    requires adjList.Keys == TitleSet(tasks)
    requires forall c :: c in TitleSet(tasks) ==> adjList[c] == adjList0[c] + EdgesFrom(tasks[i].title, tasks[i].deps, c)
    ensures AdjSoFar(tasks, i + 1, adjList)
  {
    var all := TitleSet(tasks);
    forall c | c in all
      ensures adjList[c] == Adj(tasks[..i + 1], c)
    {
      assert adjList0[c] == Adj(tasks[..i], c);
      PrefixEdges(tasks, i, all, [], c);
    }
  }

  /** The second `forEach`: the in-degree of every title and the adjacency
      list of every prerequisite. */
  method CountEdges(tasks: seq<Task>, inDegree0: map<string, int>, adjList0: map<string, seq<string>>)
    returns (inDegree: map<string, int>, adjList: map<string, seq<string>>)
    requires inDegree0.Keys == TitleSet(tasks) && forall x :: x in inDegree0 ==> inDegree0[x] == 0
    requires adjList0.Keys == TitleSet(tasks) && forall x :: x in adjList0 ==> adjList0[x] == []
    ensures inDegree == InDegrees(tasks, [])
    ensures adjList.Keys == TitleSet(tasks) && forall c :: c in TitleSet(tasks) ==> adjList[c] == Adj(tasks, c)
  {
    inDegree, adjList := inDegree0, adjList0;
    var i := 0;
    assert tasks[..0] == [];
    while i < |tasks|
      invariant 0 <= i <= |tasks|
      invariant DegreesSoFar(tasks, i, inDegree) && AdjSoFar(tasks, i, adjList)
    {
      var inDegree1, adjList1 := AddEdges(TitleSet(tasks), tasks[i], inDegree, adjList);
      DegreeStep(tasks, i, inDegree, inDegree1);
      AdjStep(tasks, i, adjList, adjList1);
      inDegree, adjList := inDegree1, adjList1;
      i := i + 1;
    }
    assert tasks[..|tasks|] == tasks;
  }

  /** The `inDegree.forEach` that seeds the queue with every title whose
      in-degree is 0, in key order. */
  method ZeroQueue(ghost tasks: seq<Task>, keys: seq<string>, inDegree: map<string, int>) returns (queue: seq<string>)
    requires forall x :: x in keys ==> x in TitleSet(tasks)
    requires inDegree == InDegrees(tasks, [])
    ensures queue == ZeroInDegree(tasks, keys)
  {
    queue := [];
    var k := 0;
    while k < |keys|
      invariant 0 <= k <= |keys|
      invariant queue == ZeroInDegree(tasks, keys[..k])
    {
      assert keys[..k + 1] == keys[..k] + [keys[k]];
      assert keys[..k + 1][..k] == keys[..k];
      if inDegree[keys[k]] == 0 {
        queue := queue + [keys[k]];
      }
      k := k + 1;
    }
    assert keys[..k] == keys;
  }

  /** The counters after the first `j` entries of `adj` have been visited:
      each exceeds its final value `target` by the occurrences not yet
      visited. */
  ghost predicate CountersSoFar(target: map<string, int>, adj: seq<string>, j: nat, inDegree: map<string, int>)
    requires j <= |adj|
  {
    && inDegree.Keys == target.Keys
    && forall x {:trigger inDegree[x]} :: x in target ==> target[x] >= 0 && inDegree[x] == target[x] + multiset(adj[j..])[x]
  }

  /** One step of the neighbour loop: the counter of `adj[j]` loses the
      occurrence at `j`, and it hits zero exactly when `Released` takes that
      neighbour. */
  lemma DecrementStep(target: map<string, int>, adj: seq<string>, j: nat, inDegree: map<string, int>)
    requires j < |adj| && adj[j] in target
    requires CountersSoFar(target, adj, j, inDegree)
    ensures CountersSoFar(target, adj, j + 1, inDegree[adj[j] := inDegree[adj[j]] - 1])
    ensures inDegree[adj[j]] - 1 == 0 <==> adj[j] !in adj[j + 1..] && target[adj[j]] == 0
  {
    var y := adj[j];
    assert multiset(adj[j..]) == multiset(adj[j + 1..]) + multiset{y} by {
      assert adj[j..] == [y] + adj[j + 1..];
    }
  }

  /** Before the neighbour loop every occurrence in `adj` is still to be
      visited, and after it none is. */
  lemma CountersBounds(target: map<string, int>, adj: seq<string>, inDegree: map<string, int>)
    ensures CountersSoFar(target, adj, 0, inDegree) <==>
      inDegree.Keys == target.Keys && forall x :: x in target ==> target[x] >= 0 && inDegree[x] == target[x] + multiset(adj)[x]
    ensures CountersSoFar(target, adj, |adj|, inDegree) ==> inDegree == target
  {
    assert adj[0..] == adj;
    assert multiset(adj[|adj|..]) == multiset{};
  }

  /** The counters and the queue after the first `j` entries of `adj` have
      been visited. */
  ghost predicate DecrementedSoFar(target: map<string, int>, adj: seq<string>, j: nat, queue0: seq<string>,
                                   inDegree: map<string, int>, queue: seq<string>)
    requires j <= |adj|
  {
    CountersSoFar(target, adj, j, inDegree) && queue == queue0 + Released(adj, j, target)
  }

  /** The callback of the neighbour `forEach` for the entry `adj[j]`: its
      counter is decremented, and a counter that reaches 0 puts its title at
      the back of the queue. */
  method VisitNeighbour(ghost target: map<string, int>, adj: seq<string>, j: nat, ghost queue0: seq<string>,
                        inDegree0: map<string, int>, queue0': seq<string>)
    returns (inDegree: map<string, int>, queue: seq<string>)
    requires j < |adj| && adj[j] in target
    requires DecrementedSoFar(target, adj, j, queue0, inDegree0, queue0')
    ensures DecrementedSoFar(target, adj, j + 1, queue0, inDegree, queue)
  {
    var neighbor := adj[j];
    DecrementStep(target, adj, j, inDegree0);
    inDegree, queue := inDegree0[neighbor := inDegree0[neighbor] - 1], queue0';
    if inDegree[neighbor] == 0 {
      queue := queue + [neighbor];
    }
  }

  /** The neighbour loop after a title is emitted, over its adjacency list
      `adj`: each occurrence decrements a counter, and a counter that reaches
      0 puts its title at the back of the queue. Started from counters that
      exceed `target` by the occurrences in `adj`, it ends at `target` and
      pushes exactly `Released`. */
  method Decrement(ghost target: map<string, int>, adj: seq<string>, inDegree0: map<string, int>, queue0: seq<string>)
    returns (inDegree: map<string, int>, queue: seq<string>)
    requires forall y :: y in adj ==> y in target
    requires inDegree0.Keys == target.Keys
    requires forall x :: x in target ==> target[x] >= 0 && inDegree0[x] == target[x] + multiset(adj)[x]
    ensures inDegree == target
    ensures queue == queue0 + Released(adj, |adj|, target)
  {
    inDegree, queue := inDegree0, queue0;
    var j := 0;
    CountersBounds(target, adj, inDegree0);
    while j < |adj|
      invariant 0 <= j <= |adj|
      invariant DecrementedSoFar(target, adj, j, queue0, inDegree, queue)
    {
      inDegree, queue := VisitNeighbour(target, adj, j, queue0, inDegree, queue);
      j := j + 1;
    }
    CountersBounds(target, adj, inDegree);
  }

  /** Emitting `c` lowers each in-degree by its occurrences in `adjList[c]`. */
  lemma EmitStep(tasks: seq<Task>, result: seq<string>, c: string)
    requires c in TitleSet(tasks) && c !in result
    ensures forall y :: y in Adj(tasks, c) ==> y in InDegrees(tasks, result + [c])
    ensures forall x :: x in InDegrees(tasks, result + [c]) ==>
      InDegrees(tasks, result)[x] == InDegrees(tasks, result + [c])[x] + multiset(Adj(tasks, c))[x]
  {
    EmitLowersPending(tasks, result, c);
    AdjInTitles(tasks, c);
  }

  /** Computes exactly the reference order `TopoOrder`: the emission order when
      every task was emitted, the cycle error otherwise. */
  method TopologicalSort(tasks: seq<Task>) returns (r: SortOutcome)
    ensures r == TopoOrder(tasks)
  {
    ghost var all := TitleSet(tasks);
    // taskMap, zero counters and empty lists, one entry per title
    var taskMap, inDegree, keys, adjList := InitMaps(tasks);
    // one adjacency entry and one counter increment per known listing
    inDegree, adjList := CountEdges(tasks, inDegree, adjList);
    // titles that wait on nothing, in key order
    FirstOccurrencesAreTitles(tasks);
    var queue := ZeroQueue(tasks, keys, inDegree);

    var result: seq<string> := [];
    SeedInv(tasks);
    while queue != []
      invariant Inv(tasks, result, queue)
      invariant inDegree == InDegrees(tasks, result)
      invariant Run(tasks, result, queue) == Run(tasks, [], Seed(tasks))
      decreases |all| - |result|
    {
      StepKeepsInv(tasks, result, queue);
      // the most urgent ready title, earliest in the queue among equals
      var m := FirstMin(taskMap, queue);
      var current := queue[m];
      EmitStep(tasks, result, current);
      queue := RemoveAt(queue, m);
      result := result + [current];
      // its dependents wait on one listing less
      inDegree, queue := Decrement(InDegrees(tasks, result), adjList[current], inDegree, queue);
    }

    // a title never released means some tasks wait on each other
    if |result| != |tasks| {
      return Circular;
    }
    return Sorted(result);
  }
}
