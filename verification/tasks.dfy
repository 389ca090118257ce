/**
  Task records as the scheduler sees them once the request has been validated,
  and the bookkeeping that `topologicalSort` keys by task title.
*/
module Tasks {

  /** One task of a scheduling request. The title is the task's identity within
      the request; `due` is the due date as a timestamp and `hours` the effort
      estimate; `deps` names the tasks that must come first. */
  datatype Task = Task(title: string, hours: int, due: int, deps: seq<string>)

  /** The ready-queue comparator: an earlier due date first, then fewer hours. */
  predicate KeyLess(a: Task, b: Task)
  {
    a.due < b.due || (a.due == b.due && a.hours < b.hours)
  }

  /** No element occurs twice. */
  ghost predicate Distinct<T>(s: seq<T>)
  {
    forall i, j :: 0 <= i < j < |s| ==> s[i] != s[j]
  }

  ghost predicate DistinctTitles(ts: seq<Task>)
  {
    forall i, j :: 0 <= i < j < |ts| ==> ts[i].title != ts[j].title
  }

  /** The keys of `taskMap`, `inDegree` and `adjList`. */
  function TitleSet(ts: seq<Task>): (r: set<string>)
    ensures forall i :: 0 <= i < |ts| ==> ts[i].title in r
  {
    if ts == [] then {} else TitleSet(ts[..|ts| - 1]) + {ts[|ts| - 1].title}
  }

  /** Every title in the set is the title of some task. */
  lemma {:induction false} TitleOf(ts: seq<Task>, x: string) returns (i: nat)
    requires x in TitleSet(ts)
    ensures i < |ts| && ts[i].title == x
  {
    if ts[|ts| - 1].title == x {
      i := |ts| - 1;
    } else {
      i := TitleOf(ts[..|ts| - 1], x);
    }
  }

  /** `taskMap` after the first `forEach`: a later task with the same title
      overwrites an earlier one. */
  function TaskMap(ts: seq<Task>): (m: map<string, Task>)
    ensures m.Keys == TitleSet(ts)
  {
    if ts == [] then map[] else TaskMap(ts[..|ts| - 1])[ts[|ts| - 1].title := ts[|ts| - 1]]
  }

  /** The iteration order of the `inDegree` map: a JavaScript `Map` iterates
      its keys in the order they were first inserted. */
  function FirstOccurrences(ts: seq<Task>): seq<string>
  {
    if ts == [] then []
    else
      var prefix := FirstOccurrences(ts[..|ts| - 1]);
      if ts[|ts| - 1].title in prefix then prefix else prefix + [ts[|ts| - 1].title]
  }

  /** The bookkeeping of a prefix grows by one task at a time. */
  lemma PrefixStep(ts: seq<Task>, i: nat)
    requires i < |ts|
    ensures TitleSet(ts[..i + 1]) == TitleSet(ts[..i]) + {ts[i].title}
    ensures TaskMap(ts[..i + 1]) == TaskMap(ts[..i])[ts[i].title := ts[i]]
    ensures FirstOccurrences(ts[..i + 1]) ==
      if ts[i].title in FirstOccurrences(ts[..i]) then FirstOccurrences(ts[..i])
      else FirstOccurrences(ts[..i]) + [ts[i].title]
  {
    assert ts[..i + 1][..i] == ts[..i];
  }

  lemma {:induction false} FirstOccurrencesAreTitles(ts: seq<Task>)
    ensures Distinct(FirstOccurrences(ts))
    ensures forall x :: x in FirstOccurrences(ts) <==> x in TitleSet(ts)
  {
    if ts != [] {
      FirstOccurrencesAreTitles(ts[..|ts| - 1]);
    }
  }

  /** With unique titles, looking a title up in `taskMap` gives back its task. */
  lemma {:induction false} TaskMapOfDistinct(ts: seq<Task>, i: int)
    requires DistinctTitles(ts)
    requires 0 <= i < |ts|
    ensures TaskMap(ts)[ts[i].title] == ts[i]
  {
    if i < |ts| - 1 {
      TaskMapOfDistinct(ts[..|ts| - 1], i);
    }
  }

  /** A duplicate-free sequence drawn from a set is no longer than the set,
      and as long only when it covers it. */
  lemma {:induction false} DistinctCardinality(s: seq<string>, S: set<string>)
    requires Distinct(s)
    requires forall x :: x in s ==> x in S
    ensures |s| <= |S|
    ensures |s| == |S| ==> forall x :: x in S ==> x in s
  {
    if s != [] {
      var last := s[|s| - 1];
      var prefix := s[..|s| - 1];
      assert forall x :: x in prefix ==> x in S - {last} by {
        forall x | x in prefix ensures x in S - {last} {
          var k :| 0 <= k < |prefix| && prefix[k] == x;
          assert s[k] == x;
        }
      }
      DistinctCardinality(prefix, S - {last});
      if |s| == |S| {
        forall x | x in S ensures x in s {
          if x != last {
            assert x in prefix;
          }
        }
      }
    }
  }

  /** A set whose every element occurs in a sequence is no larger than it. */
  lemma {:induction false} CoveredCardinality(s: seq<string>, S: set<string>)
    requires forall x :: x in S ==> x in s
    ensures |S| <= |s|
  {
    if s == [] {
      assert S == {};
    } else {
      var last := s[|s| - 1];
      var prefix := s[..|s| - 1];
      forall x | x in S - {last} ensures x in prefix {
        var k :| 0 <= k < |s| && s[k] == x;
        assert prefix[k] == x;
      }
      CoveredCardinality(prefix, S - {last});
    }
  }

  /** A sequence shorter than a set misses one of its elements. */
  lemma Uncovered(s: seq<string>, S: set<string>) returns (x: string)
    requires |s| < |S|
    ensures x in S && x !in s
  {
    assert !(forall y :: y in S ==> y in s) by {
      if forall y :: y in S ==> y in s {
        CoveredCardinality(s, S);
      }
    }
    x :| x in S && x !in s;
  }

  /** There are never more distinct titles than tasks, and exactly as many
      only when no two tasks share a title. */
  lemma {:induction false} TitleSetCardinality(ts: seq<Task>)
    ensures |TitleSet(ts)| <= |ts|
    ensures |TitleSet(ts)| == |ts| <==> DistinctTitles(ts)
  {
    if ts != [] {
      var prefix := ts[..|ts| - 1];
      var last := ts[|ts| - 1];
      TitleSetCardinality(prefix);
      if last.title in TitleSet(prefix) {
        var k := TitleOf(prefix, last.title);
        assert ts[k].title == ts[|ts| - 1].title;
      } else {
        if DistinctTitles(ts) {
          assert DistinctTitles(prefix) by {
            forall i, j | 0 <= i < j < |prefix| ensures prefix[i].title != prefix[j].title {
              assert ts[i] == prefix[i] && ts[j] == prefix[j];
            }
          }
        }
        if DistinctTitles(prefix) {
          forall i, j | 0 <= i < j < |ts| ensures ts[i].title != ts[j].title {
            if j < |ts| - 1 {
              assert ts[i] == prefix[i] && ts[j] == prefix[j];
            } else {
              assert ts[i].title in TitleSet(prefix) by { assert ts[i] == prefix[i]; }
            }
          }
        }
      }
    }
  }
}
