/**
  Dependency names that match no task are dropped while the graph is built:
  they add no adjacency entry and no in-degree. The sort therefore gives the
  same outcome as on the request with every such name removed.
*/
module Resolution {
  import opened Tasks
  import opened Graph
  import opened Kahn

  /** The listings of `deps` that name a title in `all`, in order. */
  function Known(deps: seq<string>, all: set<string>): (r: seq<string>)
    ensures forall d :: d in r <==> d in deps && d in all
  {
    if deps == [] then []
    else
      var prefix := deps[..|deps| - 1];
      var last := deps[|deps| - 1];
      assert forall d :: d in deps <==> d in prefix || d == last by {
        assert deps == prefix + [last];
      }
      Known(prefix, all) + (if last in all then [last] else [])
  }

  /** The request with every unresolved dependency name removed. */
  function Resolve(ts: seq<Task>, all: set<string>): (r: seq<Task>)
    ensures |r| == |ts|
    ensures forall i :: 0 <= i < |ts| ==> r[i] == ts[i].(deps := Known(ts[i].deps, all))
  {
    if ts == [] then [] else Resolve(ts[..|ts| - 1], all) + [ts[|ts| - 1].(deps := Known(ts[|ts| - 1].deps, all))]
  }

  lemma ResolvePrefix(ts: seq<Task>, all: set<string>)
    requires ts != []
    ensures Resolve(ts, all)[..|ts| - 1] == Resolve(ts[..|ts| - 1], all)
  {
  }

  /** Dropped names were never counted as unmet. */
  lemma {:induction false} UnmetKnown(deps: seq<string>, all: set<string>, done: seq<string>)
    ensures Unmet(Known(deps, all), all, done) == Unmet(deps, all, done)
  {
    if deps != [] {
      var prefix := deps[..|deps| - 1];
      var last := deps[|deps| - 1];
      UnmetKnown(prefix, all, done);
      if last in all {
        var k := Known(deps, all);
        assert k == Known(prefix, all) + [last];
        assert k[..|k| - 1] == Known(prefix, all);
      } else {
        assert Known(deps, all) == Known(prefix, all);
      }
    }
  }

  /** Dropped names never produced an adjacency entry of a task title. */
  lemma {:induction false} EdgesKnown(title: string, deps: seq<string>, all: set<string>, c: string)
    requires c in all
    ensures EdgesFrom(title, Known(deps, all), c) == EdgesFrom(title, deps, c)
  {
    if deps != [] {
      var prefix := deps[..|deps| - 1];
      var last := deps[|deps| - 1];
      EdgesKnown(title, prefix, all, c);
      if last in all {
        var k := Known(deps, all);
        assert k == Known(prefix, all) + [last];
        assert k[..|k| - 1] == Known(prefix, all);
      } else {
        assert Known(deps, all) == Known(prefix, all);
      }
    }
  }

  /** Removing the names keeps the titles, their first-occurrence order and
      each title's due date and hours. */
  lemma {:induction false} ResolveKeepsTitles(ts: seq<Task>, all: set<string>)
    ensures TitleSet(Resolve(ts, all)) == TitleSet(ts)
    ensures FirstOccurrences(Resolve(ts, all)) == FirstOccurrences(ts)
    ensures forall x :: x in TitleSet(ts) ==>
      TaskMap(Resolve(ts, all))[x].due == TaskMap(ts)[x].due && TaskMap(Resolve(ts, all))[x].hours == TaskMap(ts)[x].hours
  {
    if ts != [] {
      ResolvePrefix(ts, all);
      ResolveKeepsTitles(ts[..|ts| - 1], all);
    }
  }

  /** Removing the names keeps every in-degree. */
  lemma {:induction false} ResolveKeepsPending(ts: seq<Task>, all: set<string>, x: string, done: seq<string>)
    ensures Pending(Resolve(ts, all), all, x, done) == Pending(ts, all, x, done)
  {
    if ts != [] {
      ResolvePrefix(ts, all);
      ResolveKeepsPending(ts[..|ts| - 1], all, x, done);
      UnmetKnown(ts[|ts| - 1].deps, all, done);
    }
  }

  /** Removing the names keeps the adjacency list of every task title. */
  lemma {:induction false} ResolveKeepsAdj(ts: seq<Task>, all: set<string>, c: string)
    requires c in all
    ensures Adj(Resolve(ts, all), c) == Adj(ts, c)
  {
    if ts != [] {
      ResolvePrefix(ts, all);
      ResolveKeepsAdj(ts[..|ts| - 1], all, c);
      EdgesKnown(ts[|ts| - 1].title, ts[|ts| - 1].deps, all, c);
    }
  }

  /** The queue head depends only on the due dates and hours. */
  lemma {:induction false} FirstMinByKey(m1: map<string, Task>, m2: map<string, Task>, queue: seq<string>)
    requires queue != []
    requires forall x :: x in queue ==> x in m1 && x in m2 && m1[x].due == m2[x].due && m1[x].hours == m2[x].hours
    ensures FirstMin(m1, queue) == FirstMin(m2, queue)
  {
    if |queue| > 1 {
      FirstMinByKey(m1, m2, queue[..|queue| - 1]);
    }
  }

  /** The in-degree maps of the two requests agree. */
  lemma ResolveKeepsInDegrees(ts: seq<Task>, done: seq<string>)
    ensures InDegrees(Resolve(ts, TitleSet(ts)), done) == InDegrees(ts, done)
  {
    var all := TitleSet(ts);
    ResolveKeepsTitles(ts, all);
    forall x | x in all ensures Pending(Resolve(ts, all), all, x, done) == Pending(ts, all, x, done) {
      ResolveKeepsPending(ts, all, x, done);
    }
  }

  /** The loop invariant carries over from the request to the resolved
      request; the run needs only this direction. */
  lemma ResolveKeepsInv(ts: seq<Task>, done: seq<string>, queue: seq<string>)
    requires Inv(ts, done, queue)
    ensures Inv(Resolve(ts, TitleSet(ts)), done, queue)
  {
    var all := TitleSet(ts);
    var rs := Resolve(ts, all);
    ResolveKeepsTitles(ts, all);
    forall x | x in all ensures (x in done || x in queue) <==> Pending(rs, TitleSet(rs), x, done) == 0 {
      ResolveKeepsPending(ts, all, x, done);
    }
  }

  /** One step of the main loop is the same on both requests. */
  lemma ResolveKeepsStep(ts: seq<Task>, done: seq<string>, queue: seq<string>)
    requires queue != [] && forall x :: x in queue ==> x in TitleSet(ts)
    ensures forall x :: x in queue ==> x in TitleSet(Resolve(ts, TitleSet(ts)))
    ensures Head(Resolve(ts, TitleSet(ts)), queue) == Head(ts, queue)
    ensures NextQueue(Resolve(ts, TitleSet(ts)), done, queue) == NextQueue(ts, done, queue)
  {
    var all := TitleSet(ts);
    var rs := Resolve(ts, all);
    ResolveKeepsTitles(ts, all);
    FirstMinByKey(TaskMap(rs), TaskMap(ts), queue);
    var c := Head(ts, queue);
    ResolveKeepsAdj(ts, all, c);
    ResolveKeepsInDegrees(ts, done + [c]);
  }

  /** The whole run is the same on both requests. */
  lemma {:induction false} ResolveKeepsRun(ts: seq<Task>, done: seq<string>, queue: seq<string>)
    requires Inv(ts, done, queue)
    ensures Inv(Resolve(ts, TitleSet(ts)), done, queue)
    ensures Run(Resolve(ts, TitleSet(ts)), done, queue) == Run(ts, done, queue)
    decreases |TitleSet(ts)| - |done|
  {
    ResolveKeepsInv(ts, done, queue);
    if queue != [] {
      StepKeepsInv(ts, done, queue);
      ResolveKeepsStep(ts, done, queue);
      ResolveKeepsRun(ts, done + [Head(ts, queue)], NextQueue(ts, done, queue));
    }
  }

  lemma {:induction false} ResolveKeepsZeroInDegree(ts: seq<Task>, keys: seq<string>)
    ensures ZeroInDegree(Resolve(ts, TitleSet(ts)), keys) == ZeroInDegree(ts, keys)
  {
    if keys != [] {
      var all := TitleSet(ts);
      ResolveKeepsTitles(ts, all);
      ResolveKeepsPending(ts, all, keys[|keys| - 1], []);
      ResolveKeepsZeroInDegree(ts, keys[..|keys| - 1]);
    }
  }

  /** A dependency name that matches no task never changes the outcome of
      the sort: not the order, and not whether the cycle error is raised. */
  lemma UnknownDependenciesIgnored(ts: seq<Task>)
    ensures TopoOrder(Resolve(ts, TitleSet(ts))) == TopoOrder(ts)
  {
    var rs := Resolve(ts, TitleSet(ts));
    ResolveKeepsTitles(ts, TitleSet(ts));
    ResolveKeepsZeroInDegree(ts, FirstOccurrences(ts));
    assert Seed(rs) == Seed(ts);
    SeedInv(ts);
    ResolveKeepsRun(ts, [], Seed(ts));
  }
}
