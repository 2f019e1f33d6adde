/**
 * Worked examples of the task manager: the listing order of three tasks and a
 * two-task session with one dependency.
 */
module Scenarios {
  import opened Tasks
  import opened Manager

  /** Tasks A (priority 1, due 2024-01-01), B (priority 1, due 2024-02-01)
      and C (priority 2, due 2024-01-01), pending in any arrangement, are
      listed as A, B, C. */
  lemma ListingOfThree(pending: seq<Task>)
    requires multiset(pending) == multiset{
      Task("A", 1, "2024-01-01", []), Task("B", 1, "2024-02-01", []), Task("C", 2, "2024-01-01", [])}
    ensures SortByKey(pending) == [
      Task("A", 1, "2024-01-01", []), Task("B", 1, "2024-02-01", []), Task("C", 2, "2024-01-01", [])]
  {
    ThreeInOrder();
    SortedUnique(SortByKey(pending), [
      Task("A", 1, "2024-01-01", []), Task("B", 1, "2024-02-01", []), Task("C", 2, "2024-01-01", [])]);
  }

  lemma ThreeInOrder()
    ensures var q := [
      Task("A", 1, "2024-01-01", []), Task("B", 1, "2024-02-01", []), Task("C", 2, "2024-01-01", [])];
      SortedByKey(q) && TiesIdentical(q)
  {
    JanuaryBeforeFebruary();
    SortedOfThree(
      Task("A", 1, "2024-01-01", []), Task("B", 1, "2024-02-01", []), Task("C", 2, "2024-01-01", []));
  }

  lemma SortedOfThree(a: Task, b: Task, c: Task)
    requires a.priority == b.priority < c.priority
    requires LexLess(a.dueDate, b.dueDate)
    ensures SortedByKey([a, b, c]) && TiesIdentical([a, b, c])
  {
    BeforeAsymmetric(a, b);
  }

  lemma JanuaryBeforeFebruary()
    ensures LexLess("2024-01-01", "2024-02-01")
  {
    var x, y := "2024-01-01", "2024-02-01";
    assert x[..5] == y[..5];
    assert x[5..] == "01-01" && y[5..] == "02-01";
    assert LexLess(x[5..], y[5..]);
    LexLessCommonPrefix(x, y, 5);
  }

  /** Strings that agree on their first `n` characters compare as their
      remainders do. */
  lemma {:induction false} LexLessCommonPrefix(x: string, y: string, n: nat)
    requires n <= |x| && n <= |y| && x[..n] == y[..n]
    requires LexLess(x[n..], y[n..])
    ensures LexLess(x, y)
  {
    if n > 0 {
      assert x[0] == x[..n][0] == y[..n][0] == y[0];
      assert x[1..][..n - 1] == x[1..n] == y[1..n] == y[1..][..n - 1];
      assert x[1..][n - 1..] == x[n..] && y[1..][n - 1..] == y[n..];
      LexLessCommonPrefix(x[1..], y[1..], n - 1);
    }
  }

  /** On a fresh manager, a task that depends on a name nobody has is
      refused and nothing is added. */
  method RefuseMissingDependency(name: string, missing: string)
    requires !Text.Blank(name)
  {
    var m := new TaskManager();
    var outcome := m.AddTask(name, 1, "2024-01-01", [missing]);
    assert !Known([], {}, missing);
    assert outcome == UnknownDependency(missing);
    assert m.tasks == [] && m.PendingListing() == [];
  }

  /** A session with two tasks, such as "setup" and "build" where "build"
      depends on "setup": both are added; the next task is the one without
      dependencies; once it is completed, the next task is the other one. */
  method SetupThenBuild(setup: Task, build: Task)
    requires !Text.Blank(setup.name) && !Text.Blank(build.name) && setup.name != build.name
    requires setup.dependencies == [] && build.dependencies == [setup.name]
  {
    var m := new TaskManager();
    var outcome := m.AddTask(setup.name, setup.priority, setup.dueDate, setup.dependencies);
    assert outcome == Ok;
    assert setup in multiset(m.tasks);
    assert setup in m.tasks;
    assert Known(m.tasks, m.completed, setup.name);
    outcome := m.AddTask(build.name, build.priority, build.dueDate, build.dependencies);
    assert outcome == Ok;
    assert multiset(m.tasks) == multiset{setup, build};
    NextThenComplete(m, setup, build);
  }

  /** The second half of the session: with `setup` and `build` pending and
      nothing completed, the next task is `setup`; after completing it, the
      next task is `build`. */
  method NextThenComplete(m: TaskManager, setup: Task, build: Task)
    requires m.Valid() && multiset(m.tasks) == multiset{setup, build} && m.completed == {}
    requires setup.name != build.name
    requires setup.dependencies == [] && build.dependencies == [setup.name]
    modifies m
  {
    var next := m.GetNextTask();
    NextOfTwo(m.tasks, m.completed, setup, build);
    assert next == Some(setup);

    CompleteOfTwo(m.tasks, m.completed, setup, build);
    var outcome := m.CompleteTask(setup.name);
    assert outcome == Ok;
    assert multiset(m.tasks) == multiset{build};
    next := m.GetNextTask();
    assert build in multiset(m.tasks);
    assert next == Some(build);
  }

  /** Of two pending tasks, only `x` is executable: it is the next task. */
  lemma NextOfTwo(tasks: seq<Task>, completed: set<string>, x: Task, y: Task)
    requires multiset(tasks) == multiset{x, y}
    requires x.dependencies == [] && y.dependencies == [x.name] && x.name !in completed
    ensures NextExecutable(tasks, completed) == Some(x)
  {
  }

  /** Of two pending tasks with different names, `x` is executable:
      completing it leaves only `y` pending. */
  lemma CompleteOfTwo(tasks: seq<Task>, completed: set<string>, x: Task, y: Task)
    requires multiset(tasks) == multiset{x, y} && x.name != y.name
    requires x.dependencies == []
    ensures CompleteOutcome(tasks, completed, x.name) == Ok
    ensures multiset(RemoveAt(tasks, MatchIndex(tasks, x.name))) == multiset{y}
  {
  }
}
