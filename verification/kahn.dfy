/**
  The priority Kahn algorithm of `topologicalSort`, stated over its abstract
  state: the titles emitted so far (`done`, the `result` array) and the ready
  queue. In-degree counters are replaced by `Pending`, which says what the
  counters must equal; the imperative method in module Sorter is proved to
  compute exactly `TopoOrder`.
*/
module Kahn {
  import opened Tasks
  import opened Graph

  /** What `topologicalSort` returns, or the cycle error it throws. */
  datatype SortOutcome = Sorted(order: seq<string>) | Circular

  /** The element a stable sort by (due date, hours) brings to the head of the
      queue, which `shift` then removes: the first element of minimal key. */
  function FirstMin(taskMap: map<string, Task>, queue: seq<string>): (m: nat)
    requires queue != []
    requires forall x :: x in queue ==> x in taskMap
    ensures m < |queue|
    ensures forall j :: 0 <= j < |queue| ==> !KeyLess(taskMap[queue[j]], taskMap[queue[m]])
    ensures forall j :: 0 <= j < m ==> KeyLess(taskMap[queue[m]], taskMap[queue[j]])
  {
    if |queue| == 1 then 0
    else
      var m := FirstMin(taskMap, queue[..|queue| - 1]);
      if KeyLess(taskMap[queue[|queue| - 1]], taskMap[queue[m]]) then |queue| - 1 else m
  }

  function RemoveAt(s: seq<string>, m: nat): seq<string>
    requires m < |s|
  {
    s[..m] + s[m + 1..]
  }

  /** The titles among `keys` whose in-degree is zero, in the order of `keys`. */
  function ZeroInDegree(ts: seq<Task>, keys: seq<string>): seq<string>
  {
    if keys == [] then []
    else
      ZeroInDegree(ts, keys[..|keys| - 1])
        + (if Pending(ts, TitleSet(ts), keys[|keys| - 1], []) == 0 then [keys[|keys| - 1]] else [])
  }

  /** The initial queue: every title with in-degree 0, in `inDegree`'s key order. */
  function Seed(ts: seq<Task>): seq<string>
  {
    ZeroInDegree(ts, FirstOccurrences(ts))
  }

  /** The `inDegree` map once the titles in `done` have been emitted. */
  function InDegrees(ts: seq<Task>, done: seq<string>): (m: map<string, int>)
    ensures m.Keys == TitleSet(ts)
  {
    map x | x in TitleSet(ts) :: Pending(ts, TitleSet(ts), x, done)
  }

  /** The neighbours the decrement loop over `adj` (= `adjList[c]`) pushes
      after its first `k` steps, given the in-degrees `inDegree` it ends with:
      a neighbour's counter reaches zero at its last occurrence in `adj`, and
      only if no other prerequisite is still unmet. */
  function Released(adj: seq<string>, k: nat, inDegree: map<string, int>): seq<string>
    requires k <= |adj|
  {
    if k == 0 then []
    else
      Released(adj, k - 1, inDegree)
        + (if adj[k - 1] !in adj[k..] && adj[k - 1] in inDegree && inDegree[adj[k - 1]] == 0 then [adj[k - 1]] else [])
  }

  /** The title that sorting the queue and shifting its head emits. */
  function Head(ts: seq<Task>, queue: seq<string>): string
    requires queue != [] && forall x :: x in queue ==> x in TitleSet(ts)
  {
    queue[FirstMin(TaskMap(ts), queue)]
  }

  /** The queue after one iteration of the main loop: the head taken out,
      the neighbours released by emitting it pushed at the back. */
  function NextQueue(ts: seq<Task>, done: seq<string>, queue: seq<string>): seq<string>
    requires queue != [] && forall x :: x in queue ==> x in TitleSet(ts)
  {
    var m := FirstMin(TaskMap(ts), queue);
    var adj := Adj(ts, queue[m]);
    RemoveAt(queue, m) + Released(adj, |adj|, InDegrees(ts, done + [queue[m]]))
  }

  /** The invariant of the main loop: emitted and queued titles are distinct
      task titles, and a title has been emitted or queued exactly when its
      in-degree has dropped to zero. */
  ghost predicate Inv(ts: seq<Task>, done: seq<string>, queue: seq<string>)
  {
    && Distinct(done) && Distinct(queue)
    && (forall x :: x in queue ==> x !in done)
    && (forall x :: x in done ==> x in TitleSet(ts))
    && (forall x :: x in queue ==> x in TitleSet(ts))
    && (forall x :: x in TitleSet(ts) ==> ((x in done || x in queue) <==> Pending(ts, TitleSet(ts), x, done) == 0))
  }

  lemma {:induction false} ZeroInDegreeFacts(ts: seq<Task>, keys: seq<string>)
    requires Distinct(keys)
    ensures Distinct(ZeroInDegree(ts, keys))
    ensures forall x :: x in ZeroInDegree(ts, keys) <==> x in keys && Pending(ts, TitleSet(ts), x, []) == 0
  {
    if keys != [] {
      var prefix := keys[..|keys| - 1];
      assert keys == prefix + [keys[|keys| - 1]];
      ZeroInDegreeFacts(ts, prefix);
    }
  }

  lemma SeedInv(ts: seq<Task>)
    ensures Inv(ts, [], Seed(ts))
  {
    FirstOccurrencesAreTitles(ts);
    ZeroInDegreeFacts(ts, FirstOccurrences(ts));
  }

  /** Each title the decrement loop pushes occurs in the visited part of
      `adj`, not in the rest, and has in-degree zero. */
  lemma {:induction false} ReleasedSound(adj: seq<string>, k: nat, inDegree: map<string, int>)
    requires k <= |adj|
    ensures forall y :: y in Released(adj, k, inDegree) ==>
      y in adj[..k] && y !in adj[k..] && y in inDegree && inDegree[y] == 0
  {
    if k > 0 {
      ReleasedSound(adj, k - 1, inDegree);
      var y := adj[k - 1];
      assert adj[k - 1..] == [y] + adj[k..];
      assert adj[..k] == adj[..k - 1] + [y];
      forall z | z in Released(adj, k - 1, inDegree)
        ensures z in adj[..k] && z !in adj[k..]
      {
        assert z in adj[..k - 1] && z !in adj[k - 1..];
      }
    }
  }

  /** The decrement loop never pushes a title twice. */
  lemma {:induction false} ReleasedDistinct(adj: seq<string>, k: nat, inDegree: map<string, int>)
    requires k <= |adj|
    ensures Distinct(Released(adj, k, inDegree))
  {
    if k > 0 {
      ReleasedDistinct(adj, k - 1, inDegree);
      ReleasedSound(adj, k - 1, inDegree);
      assert adj[k - 1] in adj[k - 1..];
      DistinctAppend(Released(adj, k - 1, inDegree),
                     if adj[k - 1] !in adj[k..] && adj[k - 1] in inDegree && inDegree[adj[k - 1]] == 0 then [adj[k - 1]] else []);
    }
  }

  /** Every last occurrence of a title with in-degree zero is pushed. */
  lemma {:induction false} ReleasedComplete(adj: seq<string>, k: nat, inDegree: map<string, int>)
    requires k <= |adj|
    ensures forall p :: 0 <= p < k && adj[p] !in adj[p + 1..] && adj[p] in inDegree && inDegree[adj[p]] == 0
                ==> adj[p] in Released(adj, k, inDegree)
  {
    if k > 0 {
      ReleasedComplete(adj, k - 1, inDegree);
    }
  }

  /** Every value occurring in a sequence has a last occurrence. */
  lemma {:induction false} LastOccurrence(s: seq<string>, y: string) returns (p: nat)
    requires y in s
    ensures p < |s| && s[p] == y && y !in s[p + 1..]
  {
    if s[|s| - 1] == y {
      p := |s| - 1;
    } else {
      p := LastOccurrence(s[..|s| - 1], y);
      assert s[p + 1..] == s[..|s| - 1][p + 1..] + [s[|s| - 1]];
    }
  }

  /** Position `k` of the queue after `RemoveAt` holds the element that was at
      `k`, or at `k + 1` from `m` on. */
  lemma RemoveAtIndex(queue: seq<string>, m: nat, k: nat)
    requires m < |queue| && k < |queue| - 1
    ensures |RemoveAt(queue, m)| == |queue| - 1
    ensures RemoveAt(queue, m)[k] == if k < m then queue[k] else queue[k + 1]
  {
  }

  /** Taking one element out of a duplicate-free queue. */
  lemma RemoveAtFacts(queue: seq<string>, m: nat)
    requires Distinct(queue) && m < |queue|
    ensures Distinct(RemoveAt(queue, m))
    ensures forall x :: x in RemoveAt(queue, m) <==> x in queue && x != queue[m]
  {
    var rest := RemoveAt(queue, m);
    forall x | x in rest ensures x in queue && x != queue[m] {
      var k :| 0 <= k < |rest| && rest[k] == x;
      RemoveAtIndex(queue, m, k);
    }
    forall x | x in queue && x != queue[m] ensures x in rest {
      var k :| 0 <= k < |queue| && queue[k] == x;
      var k' := if k < m then k else k - 1;
      RemoveAtIndex(queue, m, k');
    }
    forall i, j | 0 <= i < j < |rest| ensures rest[i] != rest[j] {
      RemoveAtIndex(queue, m, i);
      RemoveAtIndex(queue, m, j);
    }
  }

  lemma DistinctAppend(a: seq<string>, b: seq<string>)
    requires Distinct(a) && Distinct(b)
    requires forall x :: x in b ==> x !in a
    ensures Distinct(a + b)
  {
    forall i, j | 0 <= i < j < |a + b| ensures (a + b)[i] != (a + b)[j] {
      if i < |a| && j >= |a| { assert (a + b)[j] in b; }
      if i >= |a| { assert (a + b)[i] == b[i - |a|] && (a + b)[j] == b[j - |a|]; }
    }
  }

  /** Emitting `c` lowers each in-degree by the occurrences in `adjList[c]`. */
  lemma EmitLowersPending(ts: seq<Task>, done: seq<string>, c: string)
    requires c in TitleSet(ts) && c !in done
    ensures forall x :: x in TitleSet(ts) ==>
      Pending(ts, TitleSet(ts), x, done) == Pending(ts, TitleSet(ts), x, done + [c]) + multiset(Adj(ts, c))[x]
  {
    forall x | x in TitleSet(ts)
      ensures Pending(ts, TitleSet(ts), x, done) == Pending(ts, TitleSet(ts), x, done + [c]) + multiset(Adj(ts, c))[x]
    {
      PendingSplit(ts, TitleSet(ts), x, done, c);
    }
  }

  /** A title released after emitting `c` listed `c`, so it had not been
      emitted or queued yet. */
  lemma ReleasedAreNew(ts: seq<Task>, done: seq<string>, queue: seq<string>, c: string)
    requires Inv(ts, done, queue) && c in queue
    ensures
      var adj := Adj(ts, c);
      forall y :: y in Released(adj, |adj|, InDegrees(ts, done + [c])) ==> y !in done && y !in queue && y != c
  {
    var adj := Adj(ts, c);
    ReleasedSound(adj, |adj|, InDegrees(ts, done + [c]));
    ReleasedDistinct(adj, |adj|, InDegrees(ts, done + [c]));
    ReleasedComplete(adj, |adj|, InDegrees(ts, done + [c]));
    AdjInTitles(ts, c);
    EmitLowersPending(ts, done, c);
    forall y | y in Released(adj, |adj|, InDegrees(ts, done + [c])) ensures y !in done && y !in queue && y != c {
      assert multiset(adj)[y] > 0;
    }
  }

  /** After emitting `c`, a title is emitted or queued exactly when its
      in-degree has dropped to zero. */
  lemma StepKeepsZero(ts: seq<Task>, done: seq<string>, queue: seq<string>, m: nat)
    requires Inv(ts, done, queue) && m < |queue|
    ensures
      var c := queue[m];
      var adj := Adj(ts, c);
      var queue' := RemoveAt(queue, m) + Released(adj, |adj|, InDegrees(ts, done + [c]));
      forall x :: x in TitleSet(ts) ==> ((x in done + [c] || x in queue') <==> Pending(ts, TitleSet(ts), x, done + [c]) == 0)
  {
    var all := TitleSet(ts);
    var c := queue[m];
    var adj := Adj(ts, c);
    var done' := done + [c];
    var released := Released(adj, |adj|, InDegrees(ts, done'));
    RemoveAtFacts(queue, m);
    ReleasedSound(adj, |adj|, InDegrees(ts, done'));
    ReleasedDistinct(adj, |adj|, InDegrees(ts, done'));
    ReleasedComplete(adj, |adj|, InDegrees(ts, done'));
    EmitLowersPending(ts, done, c);
    forall x | x in all
      ensures (x in done' || x in RemoveAt(queue, m) + released) <==> Pending(ts, all, x, done') == 0
    {
      if Pending(ts, all, x, done') == 0 && !(x in done || x in queue) {
        var p := LastOccurrence(adj, x);
      }
    }
  }

  /** One iteration of the main loop keeps the invariant. */
  lemma StepKeepsInv(ts: seq<Task>, done: seq<string>, queue: seq<string>)
    requires Inv(ts, done, queue) && queue != []
    ensures |done| < |TitleSet(ts)|
    ensures Inv(ts, done + [Head(ts, queue)], NextQueue(ts, done, queue))
  {
    var all := TitleSet(ts);
    var m := FirstMin(TaskMap(ts), queue);
    var c := queue[m];
    var adj := Adj(ts, c);
    var done' := done + [c];
    var rest := RemoveAt(queue, m);
    var released := Released(adj, |adj|, InDegrees(ts, done'));

    assert |done| < |all| by {
      DistinctAppend(done, [c]);
      DistinctCardinality(done + [c], all);
    }
    RemoveAtFacts(queue, m);
    ReleasedSound(adj, |adj|, InDegrees(ts, done'));
    ReleasedDistinct(adj, |adj|, InDegrees(ts, done'));
    ReleasedComplete(adj, |adj|, InDegrees(ts, done'));
    AdjInTitles(ts, c);
    ReleasedAreNew(ts, done, queue, c);
    DistinctAppend(done, [c]);
    DistinctAppend(rest, released);
    StepKeepsZero(ts, done, queue, m);
  }

  /** The titles in emission order once the ready queue has run dry. */
  function Run(ts: seq<Task>, done: seq<string>, queue: seq<string>): seq<string>
    requires Inv(ts, done, queue)
    decreases |TitleSet(ts)| - |done|
  {
    if queue == [] then done
    else
      StepKeepsInv(ts, done, queue);
      Run(ts, done + [Head(ts, queue)], NextQueue(ts, done, queue))
  }

  /** `topologicalSort`: the emission order when every task was emitted,
      otherwise the cycle error. */
  function TopoOrder(ts: seq<Task>): SortOutcome
  {
    SeedInv(ts);
    var order := Run(ts, [], Seed(ts));
    if |order| != |ts| then Circular else Sorted(order)
  }
}
