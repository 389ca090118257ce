/**
  The example project the client's task form loads
  (client/src/components/TaskForm.jsx:72-101), worked through the sort and
  the metrics: an API design that a backend and a frontend wait for, and an
  end-to-end test that waits for both. Due dates are midnight UTC in
  milliseconds.
*/
module Example {
  import opened Tasks
  import opened Graph
  import opened Kahn
  import opened Metrics

  const DesignApi := Task("Design API", 5, 1761350400000, [])
  const Backend := Task("Implement Backend", 12, 1761609600000, ["Design API"])
  const Frontend := Task("Build Frontend", 10, 1761782400000, ["Design API"])
  const EndToEnd := Task("End-to-End Test", 8, 1761868800000, ["Implement Backend", "Build Frontend"])

  const Project := [DesignApi, Backend, Frontend, EndToEnd]
  const Titles4 := ["Design API", "Implement Backend", "Build Frontend", "End-to-End Test"]

  lemma Prefixes()
    ensures Project[..3] == [DesignApi, Backend, Frontend]
    ensures Project[..3][..2] == [DesignApi, Backend]
    ensures Project[..3][..2][..1] == [DesignApi]
    ensures Project[..3][..2][..1][..0] == []
  {
  }

  lemma ProjectTitles()
    ensures TitleSet(Project) == {"Design API", "Implement Backend", "Build Frontend", "End-to-End Test"}
    ensures FirstOccurrences(Project) == Titles4
    ensures TaskMap(Project)["Implement Backend"] == Backend
    ensures TaskMap(Project)["Build Frontend"] == Frontend
  {
    Prefixes();
    var p1 := Project[..3][..2][..1];
    var p2 := Project[..3][..2];
    var p3 := Project[..3];
    assert TitleSet(p1) == {"Design API"};
    assert TitleSet(p2) == {"Design API", "Implement Backend"};
    assert TitleSet(p3) == {"Design API", "Implement Backend", "Build Frontend"};
    assert FirstOccurrences(p1) == ["Design API"];
    assert FirstOccurrences(p2) == ["Design API", "Implement Backend"];
    assert FirstOccurrences(p3) == ["Design API", "Implement Backend", "Build Frontend"];
    assert TaskMap(p3)["Implement Backend"] == Backend;
    assert TaskMap(p3)["Build Frontend"] == Frontend;
  }

  /** The in-degree of a title is the sum of the unmet listings of the
      tasks carrying it. */
  lemma PendingUnfold(x: string, done: seq<string>)
    ensures Pending(Project, TitleSet(Project), x, done) ==
      (if x == "Implement Backend" then Unmet(Backend.deps, TitleSet(Project), done) else 0)
      + (if x == "Build Frontend" then Unmet(Frontend.deps, TitleSet(Project), done) else 0)
      + (if x == "End-to-End Test" then Unmet(EndToEnd.deps, TitleSet(Project), done) else 0)
  {
    Prefixes();
    var all := TitleSet(Project);
    var p1 := Project[..3][..2][..1];
    var p2 := Project[..3][..2];
    var p3 := Project[..3];
    assert Pending(p1, all, x, done) == 0 by {
      assert Unmet(DesignApi.deps, all, done) == 0;
      assert p1[..0] == [];
    }
    assert Pending(p2, all, x, done) == Pending(p1, all, x, done)
      + (if x == "Implement Backend" then Unmet(Backend.deps, all, done) else 0);
    assert Pending(p3, all, x, done) == Pending(p2, all, x, done)
      + (if x == "Build Frontend" then Unmet(Frontend.deps, all, done) else 0);
  }

  lemma UnmetUnfold(done: seq<string>)
    ensures Unmet(Backend.deps, TitleSet(Project), done) == if "Design API" in done then 0 else 1
    ensures Unmet(Frontend.deps, TitleSet(Project), done) == if "Design API" in done then 0 else 1
    ensures Unmet(EndToEnd.deps, TitleSet(Project), done) ==
      (if "Implement Backend" in done then 0 else 1) + (if "Build Frontend" in done then 0 else 1)
  {
    ProjectTitles();
    assert Backend.deps[..0] == [];
    assert EndToEnd.deps[..1] == ["Implement Backend"];
    assert EndToEnd.deps[..1][..0] == [];
  }

  /** In-degrees: the design starts free, the backend and frontend wait for
      it, the test for both. */
  lemma StartDegrees()
    ensures Pending(Project, TitleSet(Project), "Design API", []) == 0
    ensures Pending(Project, TitleSet(Project), "Implement Backend", []) == 1
    ensures Pending(Project, TitleSet(Project), "Build Frontend", []) == 1
    ensures Pending(Project, TitleSet(Project), "End-to-End Test", []) == 2
  {
    UnmetUnfold([]);
    PendingUnfold("Design API", []);
    PendingUnfold("Implement Backend", []);
    PendingUnfold("Build Frontend", []);
    PendingUnfold("End-to-End Test", []);
  }

  lemma ProjectSeed()
    ensures Seed(Project) == ["Design API"]
  {
    StartDegrees();
    ProjectTitles();
    var k := Titles4;
    assert ZeroInDegree(Project, k[..1]) == ["Design API"] by {
      assert k[..1][..0] == [];
    }
    assert ZeroInDegree(Project, k[..2]) == ["Design API"] by {
      assert k[..2][..1] == k[..1];
    }
    assert ZeroInDegree(Project, k[..3]) == ["Design API"] by {
      assert k[..3][..2] == k[..2];
    }
    assert k[..|k| - 1] == k[..3];
  }

  /** `adjList[c]` gathers the tasks listing `c`, in task order. */
  lemma AdjUnfold(c: string)
    ensures Adj(Project, c) ==
      EdgesFrom(Backend.title, Backend.deps, c) + EdgesFrom(Frontend.title, Frontend.deps, c)
      + EdgesFrom(EndToEnd.title, EndToEnd.deps, c)
  {
    Prefixes();
    var p1 := Project[..3][..2][..1];
    var p2 := Project[..3][..2];
    var p3 := Project[..3];
    assert Adj(p1, c) == [] by {
      assert p1[..0] == [];
    }
    assert Adj(p2, c) == EdgesFrom(Backend.title, Backend.deps, c);
    assert Adj(p3, c) == Adj(p2, c) + EdgesFrom(Frontend.title, Frontend.deps, c);
  }

  lemma EdgesUnfold(title: string, c: string)
    ensures EdgesFrom(title, ["Design API"], c) == if c == "Design API" then [title] else []
    ensures EdgesFrom(title, EndToEnd.deps, c) ==
      (if c == "Implement Backend" then [title] else []) + (if c == "Build Frontend" then [title] else [])
  {
    assert ["Design API"][..0] == [];
    assert EndToEnd.deps[..1] == ["Implement Backend"];
    assert EndToEnd.deps[..1][..0] == [];
  }

  lemma DesignApiAdj()
    ensures Adj(Project, "Design API") == ["Implement Backend", "Build Frontend"]
  {
    AdjUnfold("Design API");
    EdgesUnfold("Implement Backend", "Design API");
    EdgesUnfold("Build Frontend", "Design API");
    EdgesUnfold("End-to-End Test", "Design API");
  }

  /** The backend and the frontend each have the test as their one dependent. */
  lemma DependentAdj(c: string)
    requires c == "Implement Backend" || c == "Build Frontend"
    ensures Adj(Project, c) == ["End-to-End Test"]
  {
    AdjUnfold(c);
    EdgesUnfold("Implement Backend", c);
    EdgesUnfold("Build Frontend", c);
    EdgesUnfold("End-to-End Test", c);
  }

  lemma EndToEndAdj()
    ensures Adj(Project, "End-to-End Test") == []
  {
    AdjUnfold("End-to-End Test");
    EdgesUnfold("Implement Backend", "End-to-End Test");
    EdgesUnfold("Build Frontend", "End-to-End Test");
    EdgesUnfold("End-to-End Test", "End-to-End Test");
  }

  lemma ProjectAdj()
    ensures Adj(Project, "Design API") == ["Implement Backend", "Build Frontend"]
    ensures Adj(Project, "Implement Backend") == ["End-to-End Test"]
    ensures Adj(Project, "Build Frontend") == ["End-to-End Test"]
    ensures Adj(Project, "End-to-End Test") == []
  {
    DesignApiAdj();
    DependentAdj("Implement Backend");
    DependentAdj("Build Frontend");
    EndToEndAdj();
  }

  /** The in-degrees the decrement loops leave behind as the run proceeds. */
  lemma RunDegrees()
    ensures Pending(Project, TitleSet(Project), "Implement Backend", ["Design API"]) == 0
    ensures Pending(Project, TitleSet(Project), "Build Frontend", ["Design API"]) == 0
    ensures Pending(Project, TitleSet(Project), "End-to-End Test", ["Design API", "Implement Backend"]) == 1
    ensures Pending(Project, TitleSet(Project), "End-to-End Test", ["Design API", "Implement Backend", "Build Frontend"]) == 0
  {
    UnmetUnfold(["Design API"]);
    UnmetUnfold(["Design API", "Implement Backend"]);
    UnmetUnfold(["Design API", "Implement Backend", "Build Frontend"]);
    PendingUnfold("Implement Backend", ["Design API"]);
    PendingUnfold("Build Frontend", ["Design API"]);
    PendingUnfold("End-to-End Test", ["Design API", "Implement Backend"]);
    PendingUnfold("End-to-End Test", ["Design API", "Implement Backend", "Build Frontend"]);
  }

  /** Emitting the design releases the backend and the frontend, in the
      order of their adjacency entries. */
  lemma Step1(ts: seq<Task>)
    requires "Design API" in TitleSet(ts) && "Implement Backend" in TitleSet(ts) && "Build Frontend" in TitleSet(ts)
    requires Adj(ts, "Design API") == ["Implement Backend", "Build Frontend"]
    requires Pending(ts, TitleSet(ts), "Implement Backend", ["Design API"]) == 0
    requires Pending(ts, TitleSet(ts), "Build Frontend", ["Design API"]) == 0
    ensures Head(ts, ["Design API"]) == "Design API"
    ensures NextQueue(ts, [], ["Design API"]) == ["Implement Backend", "Build Frontend"]
  {
    var adj := ["Implement Backend", "Build Frontend"];
    var empty: seq<string> := [];
    assert empty + ["Design API"] == ["Design API"];
    var m := InDegrees(ts, ["Design API"]);
    assert m["Implement Backend"] == 0 && m["Build Frontend"] == 0;
    assert adj[1..] == ["Build Frontend"] && adj[2..] == [];
    assert Released(adj, 1, m) == ["Implement Backend"];
    assert RemoveAt(["Design API"], 0) == [];
  }

  /** The backend is due first, so it leaves the queue first; the test still
      waits for the frontend. */
  lemma Step2(ts: seq<Task>)
    requires "Implement Backend" in TitleSet(ts) && "Build Frontend" in TitleSet(ts) && "End-to-End Test" in TitleSet(ts)
    requires TaskMap(ts)["Implement Backend"].due < TaskMap(ts)["Build Frontend"].due
    requires Adj(ts, "Implement Backend") == ["End-to-End Test"]
    requires Pending(ts, TitleSet(ts), "End-to-End Test", ["Design API", "Implement Backend"]) == 1
    ensures Head(ts, ["Implement Backend", "Build Frontend"]) == "Implement Backend"
    ensures NextQueue(ts, ["Design API"], ["Implement Backend", "Build Frontend"]) == ["Build Frontend"]
  {
    var q := ["Implement Backend", "Build Frontend"];
    var d2 := ["Design API", "Implement Backend"];
    assert FirstMin(TaskMap(ts), q) == 0 by {
      assert q[..1] == ["Implement Backend"];
    }
    assert ["Design API"] + [q[0]] == d2;
    var adj := Adj(ts, q[0]);
    var m := InDegrees(ts, d2);
    assert adj[0] == "End-to-End Test" && adj[1..] == [];
    assert m["End-to-End Test"] == 1;
    assert Released(adj, 1, m) == [];
    assert RemoveAt(q, 0) == ["Build Frontend"];
  }

  /** Emitting the frontend frees the test. */
  lemma Step3(ts: seq<Task>)
    requires "Build Frontend" in TitleSet(ts) && "End-to-End Test" in TitleSet(ts)
    requires Adj(ts, "Build Frontend") == ["End-to-End Test"]
    requires Pending(ts, TitleSet(ts), "End-to-End Test", ["Design API", "Implement Backend", "Build Frontend"]) == 0
    ensures Head(ts, ["Build Frontend"]) == "Build Frontend"
    ensures NextQueue(ts, ["Design API", "Implement Backend"], ["Build Frontend"]) == ["End-to-End Test"]
  {
    var q := ["Build Frontend"];
    var d3 := ["Design API", "Implement Backend", "Build Frontend"];
    assert FirstMin(TaskMap(ts), q) == 0;
    assert ["Design API", "Implement Backend"] + [q[0]] == d3;
    var adj := Adj(ts, q[0]);
    var m := InDegrees(ts, d3);
    assert adj[0] == "End-to-End Test" && adj[1..] == [];
    assert m["End-to-End Test"] == 0;
    assert Released(adj, 1, m) == ["End-to-End Test"];
    assert RemoveAt(q, 0) == [];
  }

  /** Emitting the test releases nothing, and the queue runs dry. */
  lemma Step4(ts: seq<Task>)
    requires "End-to-End Test" in TitleSet(ts)
    requires Adj(ts, "End-to-End Test") == []
    ensures Head(ts, ["End-to-End Test"]) == "End-to-End Test"
    ensures NextQueue(ts, ["Design API", "Implement Backend", "Build Frontend"], ["End-to-End Test"]) == []
  {
    assert RemoveAt(["End-to-End Test"], 0) == [];
  }

  /** One iteration of the main loop. */
  lemma RunStep(ts: seq<Task>, done: seq<string>, queue: seq<string>, done': seq<string>, queue': seq<string>)
    requires Inv(ts, done, queue) && queue != []
    requires done' == done + [Head(ts, queue)] && queue' == NextQueue(ts, done, queue)
    ensures Inv(ts, done', queue')
    ensures Run(ts, done, queue) == Run(ts, done', queue')
  {
    StepKeepsInv(ts, done, queue);
  }

  /** The last iteration emits the test and ends the run. */
  lemma RunFrom3(ts: seq<Task>)
    requires Inv(ts, ["Design API", "Implement Backend", "Build Frontend"], ["End-to-End Test"])
    requires Head(ts, ["End-to-End Test"]) == "End-to-End Test"
    requires NextQueue(ts, ["Design API", "Implement Backend", "Build Frontend"], ["End-to-End Test"]) == []
    ensures Run(ts, ["Design API", "Implement Backend", "Build Frontend"], ["End-to-End Test"]) == Titles4
  {
    var empty: seq<string> := [];
    assert ["Design API", "Implement Backend", "Build Frontend"] + ["End-to-End Test"] == Titles4;
    RunStep(ts, ["Design API", "Implement Backend", "Build Frontend"], ["End-to-End Test"], Titles4, empty);
  }

  lemma RunFrom2(ts: seq<Task>)
    requires Inv(ts, ["Design API", "Implement Backend"], ["Build Frontend"])
    requires Head(ts, ["Build Frontend"]) == "Build Frontend"
    requires NextQueue(ts, ["Design API", "Implement Backend"], ["Build Frontend"]) == ["End-to-End Test"]
    ensures Inv(ts, ["Design API", "Implement Backend", "Build Frontend"], ["End-to-End Test"])
    ensures Run(ts, ["Design API", "Implement Backend"], ["Build Frontend"]) ==
      Run(ts, ["Design API", "Implement Backend", "Build Frontend"], ["End-to-End Test"])
  {
    assert ["Design API", "Implement Backend"] + ["Build Frontend"] == ["Design API", "Implement Backend", "Build Frontend"];
    RunStep(ts, ["Design API", "Implement Backend"], ["Build Frontend"],
      ["Design API", "Implement Backend", "Build Frontend"], ["End-to-End Test"]);
  }

  lemma RunFrom1(ts: seq<Task>)
    requires Inv(ts, ["Design API"], ["Implement Backend", "Build Frontend"])
    requires Head(ts, ["Implement Backend", "Build Frontend"]) == "Implement Backend"
    requires NextQueue(ts, ["Design API"], ["Implement Backend", "Build Frontend"]) == ["Build Frontend"]
    ensures Inv(ts, ["Design API", "Implement Backend"], ["Build Frontend"])
    ensures Run(ts, ["Design API"], ["Implement Backend", "Build Frontend"]) ==
      Run(ts, ["Design API", "Implement Backend"], ["Build Frontend"])
  {
    assert ["Design API"] + ["Implement Backend"] == ["Design API", "Implement Backend"];
    RunStep(ts, ["Design API"], ["Implement Backend", "Build Frontend"], ["Design API", "Implement Backend"], ["Build Frontend"]);
  }

  lemma RunFrom0(ts: seq<Task>)
    requires Inv(ts, [], ["Design API"])
    requires Head(ts, ["Design API"]) == "Design API"
    requires NextQueue(ts, [], ["Design API"]) == ["Implement Backend", "Build Frontend"]
    ensures Inv(ts, ["Design API"], ["Implement Backend", "Build Frontend"])
    ensures Run(ts, [], ["Design API"]) == Run(ts, ["Design API"], ["Implement Backend", "Build Frontend"])
  {
    var empty: seq<string> := [];
    assert empty + ["Design API"] == ["Design API"];
    RunStep(ts, empty, ["Design API"], ["Design API"], ["Implement Backend", "Build Frontend"]);
  }

  /** The example's schedule: the backend is released together with the
      frontend and goes first for its earlier due date. */
  lemma ExampleOrder()
    ensures TopoOrder(Project) == Sorted(Titles4)
  {
    ProjectTitles();
    ProjectSeed();
    ProjectAdj();
    RunDegrees();
    SeedInv(Project);
    Step1(Project);
    Step2(Project);
    Step3(Project);
    Step4(Project);
    RunFrom0(Project);
    RunFrom1(Project);
    RunFrom2(Project);
    RunFrom3(Project);
  }

  /** The example's metrics: four tasks, 35 hours, due between 25 and 31
      October. */
  lemma ExampleMetrics()
    ensures ComputeMetrics(Project) == ScheduleMetrics(4, 35, 1761350400000, 1761868800000)
  {
    Prefixes();
    var p1 := Project[..3][..2][..1];
    var p2 := Project[..3][..2];
    var p3 := Project[..3];
    var first := DesignApi.due;
    assert TotalHours(p1) == 5 && EarliestFrom(p1, first) == first && LatestFrom(p1, first) == first by {
      assert p1[..0] == [];
    }
    assert TotalHours(p2) == 17 && EarliestFrom(p2, first) == first && LatestFrom(p2, first) == Backend.due;
    assert TotalHours(p3) == 27 && EarliestFrom(p3, first) == first && LatestFrom(p3, first) == Frontend.due;
  }
}
