/**
  The dependency graph `topologicalSort` builds: the adjacency lists keyed by
  prerequisite title and the in-degree of every title, here written as the
  number of prerequisite listings that are still unmet.
*/
module Graph {
  import opened Tasks

  /** The entries a task titled `title` with prerequisites `deps` adds to
      `adjList[c]`: its own title, once per listing of `c`. */
  function EdgesFrom(title: string, deps: seq<string>, c: string): seq<string>
  {
    if deps == [] then []
    else EdgesFrom(title, deps[..|deps| - 1], c) + (if deps[|deps| - 1] == c then [title] else [])
  }

  /** `adjList[c]` once every task has been visited: the dependents of `c`,
      in task order. */
  function Adj(ts: seq<Task>, c: string): seq<string>
  {
    if ts == [] then [] else Adj(ts[..|ts| - 1], c) + EdgesFrom(ts[|ts| - 1].title, ts[|ts| - 1].deps, c)
  }

  /** How many listings in `deps` name a task (a title in `all`) that is not yet
      in `done`. A name that matches no task is never counted. */
  function Unmet(deps: seq<string>, all: set<string>, done: seq<string>): nat
  {
    if deps == [] then 0
    else
      Unmet(deps[..|deps| - 1], all, done)
        + (if deps[|deps| - 1] in all && deps[|deps| - 1] !in done then 1 else 0)
  }

  /** The in-degree of title `x` once the titles in `done` have been emitted:
      the unmet listings of every task titled `x`. */
  function Pending(ts: seq<Task>, all: set<string>, x: string, done: seq<string>): nat
  {
    if ts == [] then 0
    else
      Pending(ts[..|ts| - 1], all, x, done)
        + (if ts[|ts| - 1].title == x then Unmet(ts[|ts| - 1].deps, all, done) else 0)
  }

  /** Every prerequisite of the task(s) titled `x` that names a task of the
      request is already in `done`. */
  ghost predicate Ready(ts: seq<Task>, x: string, done: seq<string>)
  {
    forall i, d :: 0 <= i < |ts| && ts[i].title == x && d in ts[i].deps && d in TitleSet(ts) ==> d in done
  }

  /** The in-degree and adjacency list of a prefix grow one task at a time. */
  lemma PrefixEdges(ts: seq<Task>, i: nat, all: set<string>, done: seq<string>, x: string)
    requires i < |ts|
    ensures Pending(ts[..i + 1], all, x, done) ==
      Pending(ts[..i], all, x, done) + (if ts[i].title == x then Unmet(ts[i].deps, all, done) else 0)
    ensures Adj(ts[..i + 1], x) == Adj(ts[..i], x) + EdgesFrom(ts[i].title, ts[i].deps, x)
  {
    assert ts[..i + 1][..i] == ts[..i];
  }

  lemma {:induction false} UnmetZero(deps: seq<string>, all: set<string>, done: seq<string>)
    ensures Unmet(deps, all, done) == 0 <==> forall d :: d in deps && d in all ==> d in done
  {
    if deps != [] {
      var prefix := deps[..|deps| - 1];
      assert deps == prefix + [deps[|deps| - 1]];
      UnmetZero(prefix, all, done);
    }
  }

  /** An in-degree reaches zero exactly when every resolved prerequisite is done. */
  lemma {:induction false} PendingZero(ts: seq<Task>, all: set<string>, x: string, done: seq<string>)
    ensures Pending(ts, all, x, done) == 0 <==>
      forall i, d :: 0 <= i < |ts| && ts[i].title == x && d in ts[i].deps && d in all ==> d in done
  {
    if ts != [] {
      var prefix := ts[..|ts| - 1];
      var last := ts[|ts| - 1];
      PendingZero(prefix, all, x, done);
      UnmetZero(last.deps, all, done);
      assert forall i :: 0 <= i < |prefix| ==> ts[i] == prefix[i];
    }
  }

  lemma ReadyIffPendingZero(ts: seq<Task>, x: string, done: seq<string>)
    ensures Ready(ts, x, done) <==> Pending(ts, TitleSet(ts), x, done) == 0
  {
    PendingZero(ts, TitleSet(ts), x, done);
  }

  lemma {:induction false} UnmetSplit(deps: seq<string>, all: set<string>, done: seq<string>, c: string)
    requires c in all && c !in done
    ensures Unmet(deps, all, done) == Unmet(deps, all, done + [c]) + multiset(deps)[c]
  {
    if deps != [] {
      var prefix := deps[..|deps| - 1];
      assert deps == prefix + [deps[|deps| - 1]];
      UnmetSplit(prefix, all, done, c);
    }
  }

  lemma {:induction false} EdgesFromCount(title: string, deps: seq<string>, c: string, x: string)
    ensures multiset(EdgesFrom(title, deps, c))[x] == if title == x then multiset(deps)[c] else 0
  {
    if deps != [] {
      var prefix := deps[..|deps| - 1];
      assert deps == prefix + [deps[|deps| - 1]];
      EdgesFromCount(title, prefix, c, x);
    }
  }

  /** Emitting `c` lowers the in-degree of `x` by the number of times `x`
      occurs in `adjList[c]`: the decrement loop of the sort. */
  lemma {:induction false} PendingSplit(ts: seq<Task>, all: set<string>, x: string, done: seq<string>, c: string)
    requires c in all && c !in done
    ensures Pending(ts, all, x, done) == Pending(ts, all, x, done + [c]) + multiset(Adj(ts, c))[x]
  {
    if ts != [] {
      var prefix := ts[..|ts| - 1];
      var last := ts[|ts| - 1];
      PendingSplit(prefix, all, x, done, c);
      UnmetSplit(last.deps, all, done, c);
      EdgesFromCount(last.title, last.deps, c, x);
    }
  }

  lemma {:induction false} EdgesFromTitle(title: string, deps: seq<string>, c: string)
    ensures forall y :: y in EdgesFrom(title, deps, c) ==> y == title
  {
    if deps != [] {
      EdgesFromTitle(title, deps[..|deps| - 1], c);
    }
  }

  /** Every adjacency entry is the title of a task. */
  lemma {:induction false} AdjInTitles(ts: seq<Task>, c: string)
    ensures forall y :: y in Adj(ts, c) ==> y in TitleSet(ts)
  {
    if ts != [] {
      AdjInTitles(ts[..|ts| - 1], c);
      EdgesFromTitle(ts[|ts| - 1].title, ts[|ts| - 1].deps, c);
    }
  }
}
