/**
 * The task manager: a heap of pending tasks and a set of completed task
 * names, with the four operations add, complete, list pending and next
 * executable task. Each console message of the source becomes an `Outcome`;
 * saving to and loading from the JSON file are not modelled.
 */
module Manager {
  import opened Text
  import opened Tasks
  import opened Heapq

  /** What an operation reports instead of printing a message. */
  datatype Outcome =
    | Ok
    | InvalidName
    | UnknownDependency(dep: string)
    | UnsatisfiedDependencies
    | NotFound

  /** The first position of `s` whose element satisfies `p`, or `|s|` when
      there is none. */
  function FirstIndex<T>(s: seq<T>, p: T -> bool): (k: nat)
    ensures k <= |s|
    ensures forall j :: 0 <= j < k ==> !p(s[j])
    ensures k < |s| ==> p(s[k])
  {
    if s == [] || p(s[0]) then 0 else 1 + FirstIndex(s[1..], p)
  }

  /** The names of the pending tasks. */
  function PendingNames(tasks: seq<Task>): set<string>
  {
    set t | t in tasks :: t.name
  }

  /** A dependency may be named when a pending task or a completed task has
      that name. */
  predicate Known(tasks: seq<Task>, completed: set<string>, d: string)
  {
    d in PendingNames(tasks) || d in completed
  }

  /** A task is executable when all its dependencies are completed. */
  predicate Ready(t: Task, completed: set<string>)
  {
    forall d :: d in t.dependencies ==> d in completed
  }

  /** Every dependency of every pending task is a pending or a completed
      task: what the add operation checks, and what the two mutating
      operations keep. */
  ghost predicate DepsClosed(tasks: seq<Task>, completed: set<string>)
  {
    forall t, d :: t in tasks && d in t.dependencies ==> Known(tasks, completed, d)
  }

  /** The verdict of adding a task called `name` with dependencies `deps`:
      a blank name is refused first, then the first dependency that is
      neither pending nor completed; otherwise the task is added. */
  function AddOutcome(tasks: seq<Task>, completed: set<string>, name: string, deps: seq<string>): (r: Outcome)
    ensures r.Ok? || r.InvalidName? || r.UnknownDependency?
    ensures r.InvalidName? <==> Blank(name)
    ensures r.Ok? <==> !Blank(name) && forall d :: d in deps ==> Known(tasks, completed, d)
    ensures r.UnknownDependency? ==>
      exists k :: 0 <= k < |deps| && deps[k] == r.dep && !Known(tasks, completed, r.dep)
        && forall j :: 0 <= j < k ==> Known(tasks, completed, deps[j])
  {
    if Strip(name) == [] then InvalidName
    else
      var k := FirstIndex(deps, (d: string) => !Known(tasks, completed, d));
      if k < |deps| then UnknownDependency(deps[k]) else Ok
  }

  /** The position, in array order, of the first pending task called `name`,
      or `|tasks|` when there is none. */
  function MatchIndex(tasks: seq<Task>, name: string): (k: nat)
    ensures k <= |tasks|
    ensures k < |tasks| ==> tasks[k].name == name
    ensures forall j :: 0 <= j < k ==> tasks[j].name != name
    ensures k == |tasks| <==> name !in PendingNames(tasks)
  {
    FirstIndex(tasks, (t: Task) => t.name == name)
  }

  /** The verdict of completing `name`: not found when no pending task has
      that name; otherwise the first such task in array order decides, and
      it is completed exactly when all its dependencies are. */
  function CompleteOutcome(tasks: seq<Task>, completed: set<string>, name: string): (r: Outcome)
    ensures r.Ok? || r.NotFound? || r.UnsatisfiedDependencies?
    ensures r.NotFound? <==> name !in PendingNames(tasks)
    ensures r.Ok? <==> name in PendingNames(tasks) && Ready(tasks[MatchIndex(tasks, name)], completed)
  {
    var k := MatchIndex(tasks, name);
    if k == |tasks| then NotFound
    else if !Ready(tasks[k], completed) then UnsatisfiedDependencies
    else Ok
  }

  /** `tasks` without position `i`. */
  function RemoveAt(tasks: seq<Task>, i: nat): (r: seq<Task>)
    requires i < |tasks|
    ensures multiset(r) == multiset(tasks) - multiset{tasks[i]}
  {
    assert tasks == tasks[..i] + [tasks[i]] + tasks[i + 1..];
    tasks[..i] + tasks[i + 1..]
  }

  /** The next executable task: the first task in (priority, due date) order
      whose dependencies are all completed, or none. */
  function NextExecutable(tasks: seq<Task>, completed: set<string>): (r: Option<Task>)
    ensures r.None? <==> forall t :: t in tasks ==> !Ready(t, completed)
    ensures r.Some? ==> r.value in tasks && Ready(r.value, completed)
    ensures r.Some? ==> forall t :: t in tasks && Before(t, r.value) ==> !Ready(t, completed)
  {
    var sorted := SortByKey(tasks);
    var k := FirstIndex(sorted, (t: Task) => Ready(t, completed));
    if k < |sorted| then
      assert sorted[k] in multiset(tasks);
      EarlierReadyFirst(sorted, completed, k);
      Some(sorted[k])
    else
      assert forall t :: t in tasks ==> t in multiset(sorted);
      None
  }

  lemma EarlierReadyFirst(sorted: seq<Task>, completed: set<string>, k: nat)
    requires SortedByKey(sorted) && k < |sorted|
    requires forall j :: 0 <= j < k ==> !Ready(sorted[j], completed)
    ensures forall t :: t in multiset(sorted) && Before(t, sorted[k]) ==> !Ready(t, completed)
  {
    forall t | t in multiset(sorted) && Before(t, sorted[k])
      ensures !Ready(t, completed)
    {
      var j :| 0 <= j < |sorted| && sorted[j] == t;
      if j >= k {
        BeforeIrreflexive(t);
        assert false;
      }
    }
  }

  /** Adding a task whose dependencies are all known keeps every dependency
      known. */
  lemma AddKeepsDepsClosed(tasks: seq<Task>, completed: set<string>, t: Task, after: seq<Task>)
    requires DepsClosed(tasks, completed)
    requires forall d :: d in t.dependencies ==> Known(tasks, completed, d)
    requires multiset(after) == multiset(tasks) + multiset{t}
    ensures DepsClosed(after, completed)
  {
    forall u, d | u in after && d in u.dependencies
      ensures Known(after, completed, d)
    {
      assert u in multiset(after);
      assert Known(tasks, completed, d);
      if d !in completed {
        var v :| v in tasks && v.name == d;
        assert v in multiset(after);
        assert v in after;
      }
    }
  }

  /** Completing the task at position `i` keeps every dependency known: its
      name moves from the pending tasks to the completed set. */
  lemma CompleteKeepsDepsClosed(tasks: seq<Task>, completed: set<string>, i: nat, after: seq<Task>)
    requires DepsClosed(tasks, completed) && i < |tasks|
    requires multiset(after) == multiset(RemoveAt(tasks, i))
    ensures DepsClosed(after, completed + {tasks[i].name})
  {
    var rest := RemoveAt(tasks, i);
    forall u, d | u in after && d in u.dependencies
      ensures Known(after, completed + {tasks[i].name}, d)
    {
      assert u in multiset(rest);
      assert u in multiset(tasks);
      assert Known(tasks, completed, d);
      if d !in completed && d != tasks[i].name {
        var v :| v in tasks && v.name == d;
        assert v in multiset(tasks) && v != tasks[i];
        assert v in multiset(after);
        assert v in after;
      }
    }
  }

  /** The first pending task called `name` sits at position `i`. */
  lemma MatchIndexAt(tasks: seq<Task>, name: string, i: nat)
    requires i <= |tasks|
    requires forall j :: 0 <= j < i ==> tasks[j].name != name
    requires i < |tasks| ==> tasks[i].name == name
    ensures MatchIndex(tasks, name) == i
  {
  }

  /** When pending names are unique, completing `name` succeeds exactly when
      the pending task of that name has all its dependencies completed. */
  lemma CompleteUniqueName(tasks: seq<Task>, completed: set<string>, t: Task)
    requires t in tasks
    requires forall i, j :: 0 <= i < j < |tasks| ==> tasks[i].name != tasks[j].name
    ensures CompleteOutcome(tasks, completed, t.name) == if Ready(t, completed) then Ok else UnsatisfiedDependencies
  {
  }

  /** The task manager: the pending tasks, kept as a binary heap on
      (priority, due date), and the names of the completed tasks. */
  class TaskManager {
    var tasks: seq<Task>
    var completed: set<string>

    ghost predicate Valid()
      reads this
    {
      IsHeap(tasks)
    }

    /** A manager with no pending and no completed tasks (the source then
        loads the JSON file, which is not modelled). */
    constructor ()
      ensures Valid()
      ensures tasks == [] && completed == {}
    {
      tasks := [];
      completed := {};
    }

    /** Adds a task. The source's check that the priority is an integer always
        passes here, where `priority` is an `int`. */
    method AddTask(name: string, priority: int, dueDate: string, dependencies: seq<string>) returns (outcome: Outcome)
      requires Valid()
      modifies this
      ensures Valid()
      ensures outcome == AddOutcome(old(tasks), old(completed), name, dependencies)
      ensures completed == old(completed)
      ensures outcome.Ok? ==> multiset(tasks) == multiset(old(tasks)) + multiset{Task(name, priority, dueDate, dependencies)}
      ensures !outcome.Ok? ==> tasks == old(tasks)
      ensures DepsClosed(old(tasks), old(completed)) ==> DepsClosed(tasks, completed)
    {
      if Strip(name) == [] {
        return InvalidName;
      }
      var i := 0;
      while i < |dependencies|
        invariant 0 <= i <= |dependencies|
        invariant forall j :: 0 <= j < i ==> Known(tasks, completed, dependencies[j])
      {
        var dependency := dependencies[i];
        if dependency !in PendingNames(tasks) && dependency !in completed {
          return UnknownDependency(dependency);
        }
        i := i + 1;
      }
      var task := Task(name, priority, dueDate, dependencies);
      var pushed := HeapPush(tasks, task);
      if DepsClosed(tasks, completed) {
        AddKeepsDepsClosed(tasks, completed, task, pushed);
      }
      tasks := pushed;
      outcome := Ok;
    }

    /** The pending tasks as the source lists them. */
    function PendingListing(): (r: seq<Task>)
      reads this
      ensures SortedByKey(r)
      ensures multiset(r) == multiset(tasks)
    {
      SortByKey(tasks)
    }

    /** Completes the first pending task called `name` in array order, if its
        dependencies are all completed, and restores the heap. */
    method CompleteTask(name: string) returns (outcome: Outcome)
      requires Valid()
      modifies this
      ensures Valid()
      ensures outcome == CompleteOutcome(old(tasks), old(completed), name)
      ensures outcome.Ok? ==> completed == old(completed) + {name}
      ensures outcome.Ok? ==> multiset(tasks) == multiset(RemoveAt(old(tasks), MatchIndex(old(tasks), name)))
      ensures !outcome.Ok? ==> tasks == old(tasks) && completed == old(completed)
      ensures DepsClosed(old(tasks), old(completed)) ==> DepsClosed(tasks, completed)
    {
      var i := 0;
      while i < |tasks|
        invariant 0 <= i <= |tasks|
        invariant forall j :: 0 <= j < i ==> tasks[j].name != name
      {
        var task := tasks[i];
        if task.name == name {
          MatchIndexAt(tasks, name, i);
          if !Ready(task, completed) {
            return UnsatisfiedDependencies;
          }
          var rest := RemoveAt(tasks, i);
          var heap := Heapify(rest);
          if DepsClosed(tasks, completed) {
            CompleteKeepsDepsClosed(tasks, completed, i, heap);
          }
          completed := completed + {name};
          tasks := heap;
          return Ok;
        }
        i := i + 1;
      }
      MatchIndexAt(tasks, name, i);
      return NotFound;
    }

    /** The next executable task, scanning the pending tasks in
        (priority, due date) order. Changes nothing. */
    method GetNextTask() returns (next: Option<Task>)
      ensures next == NextExecutable(tasks, completed)
    {
      var sorted := SortByKey(tasks);
      var i := 0;
      while i < |sorted|
        invariant 0 <= i <= |sorted|
        invariant forall j :: 0 <= j < i ==> !Ready(sorted[j], completed)
      {
        if Ready(sorted[i], completed) {
          return Some(sorted[i]);
        }
        i := i + 1;
      }
      return None;
    }
  }
}
