# Task manager: ordering and dependency engine

This project models the `TaskManager` class of `2o_parcial.py`, a small
single-user task scheduler. It keeps two things:

- the pending tasks, a Python list used as a `heapq` binary heap of
  `(priority, due_date, record)` tuples;
- the set of completed task names.

Four operations work on them:

- **add a task**: refuses a blank name, then the first dependency that is
  neither a pending task nor a completed one; otherwise pushes the task onto
  the heap;
- **complete a task**: takes the first pending task with the given name in
  array order; refuses if any of its dependencies is not completed; otherwise
  records the name as completed, deletes the task and re-heapifies;
- **list pending tasks**: all pending tasks sorted by (priority, due date);
- **next executable task**: the first task in that order whose dependencies
  are all completed, or none.

Modules:

- `Text` (`text.dfy`): Python's `str.strip()` and `str.isspace()`, used to
  refuse blank names.
- `Tasks` (`tasks.dfy`): the task record, Python's string order on ISO dates,
  the (priority, due date) order, Python's tuple comparison as the source uses
  it, and the sort behind the listing.
- `Heapq` (`heapq.dfy`): `heappush` and `heapify` on a sequence of tasks.
- `Manager` (`manager.dfy`): the outcomes that replace the console messages,
  the functions that specify each operation, and the class `TaskManager`.
  Its methods change the two fields in place and are proved against those
  functions.
- `Scenarios` (`scenarios.dfy`): the listing order of three sample tasks.
  It also holds two client methods, `RefuseMissingDependency` and
  `SetupThenBuild` with `NextThenComplete`, which follow the two-task session
  ("setup", then "build" depending on it) through the class's contracts.

In these respects the model follows the code, which may differ from what a reader expects:

- the code never checks that a new task's name is unique among pending tasks;
- completion matches the first task in the heap's array order, not in sorted
  order;
- the integer check on the priority cannot fail once the priority is typed
  `int`, so there is no invalid-priority outcome.

The model proves an invariant that the code keeps without checking it again:
every dependency of a pending task names a pending or a completed task. The
methods state that it is preserved; they do not require it, because loading
from the JSON file (not modelled) could break it.

## Model

| member | source | states |
|---|---|---|
| `Text.TrimStart` | 2o_parcial.py:35 | the result is a suffix of the name that is empty or starts with a non-space, and everything dropped before it is whitespace |
| `Text.TrimEnd` | 2o_parcial.py:35 | the result is a prefix of the name that is empty or ends with a non-space, and everything dropped after it is whitespace |
| `Text.IsSpace` | 2o_parcial.py:35 | the characters `str.isspace()` accepts and `strip()` removes: TAB to CR, FS to US, SPACE, NEL, NO-BREAK SPACE, OGHAM SPACE MARK, U+2000 to U+200A, the line and paragraph separators, NARROW NO-BREAK SPACE, MEDIUM MATHEMATICAL SPACE and IDEOGRAPHIC SPACE |
| `Text.Strip` | 2o_parcial.py:35-37 | `name.strip()` is empty exactly when the name is whitespace only, which is when add refuses it; otherwise it neither starts nor ends with whitespace |
| `Tasks.LexLess` | 2o_parcial.py:54 | Python's `<` on two due-date strings: the first differing character decides by code point, and a proper prefix sorts first |
| `Tasks.LexLessIrreflexive` | 2o_parcial.py:54 | no due-date string sorts before itself under Python's string order |
| `Tasks.LexLessTransitive` | 2o_parcial.py:54 | Python's string order on due dates is transitive |
| `Tasks.LexLessTotal` | 2o_parcial.py:54 | any two different due-date strings are ordered one way or the other |
| `Tasks.Before` | 2o_parcial.py:54 | one task sorts strictly before another when its priority is smaller, or the priorities are equal and its due date is smaller as a string |
| `Tasks.TupleLess` | 2o_parcial.py:54 | Python's `<` on the stored tuples fails (TypeError) exactly when two different records tie on (priority, due date); otherwise it agrees with the (priority, due date) order |
| `Tasks.TieRaisesTypeError` | 2o_parcial.py:54 | two tasks with the same priority and due date make the first comparison of `heappush` fail |
| `Tasks.BeforeIrreflexive` | 2o_parcial.py:86 | no task sorts strictly before itself |
| `Tasks.BeforeAsymmetric` | 2o_parcial.py:86 | if one task sorts before another, the other does not sort before it and they do not tie |
| `Tasks.BeforeTransitive` | 2o_parcial.py:86 | the (priority, due date) order is transitive |
| `Tasks.BeforeTrichotomy` | 2o_parcial.py:86 | of two tasks, one sorts before the other or they tie on (priority, due date) |
| `Tasks.NotBeforeTransitive` | 2o_parcial.py:86 | "not after" is transitive, so (priority, due date) is a total preorder |
| `Tasks.BeforeThenNotBefore` | 2o_parcial.py:54 | a task strictly before `u` is not after any task that is not before `u` |
| `Tasks.Insert` | 2o_parcial.py:86 | inserting a task into a sorted list gives a sorted list holding exactly the old tasks plus the new one |
| `Tasks.SortByKey` | 2o_parcial.py:86 | the listing is sorted ascending by (priority, due date) and is a permutation of the pending tasks |
| `Tasks.SortedUnique` | 2o_parcial.py:86 | two sorted permutations of one collection are equal when only identical records tie on the key, so for every collection the source sorts without TypeError, any sort gives the listing the source prints |
| `Heapq.Swap` | 2o_parcial.py:98 | exchanging two positions keeps the multiset of tasks and changes no other position |
| `Heapq.HeapPush` | 2o_parcial.py:54 | pushing onto a heap gives a heap holding exactly the old tasks plus the new one |
| `Heapq.SiftUpStep` | 2o_parcial.py:54 | one exchange with the parent leaves only the parent position possibly out of order |
| `Heapq.SiftDown` | 2o_parcial.py:98 | sifting position `k` down keeps the tasks and the positions before `k`, and makes the heap property hold below `k` |
| `Heapq.SiftDownStep` | 2o_parcial.py:98 | one exchange with the smallest child leaves only the child's position possibly out of order |
| `Heapq.Heapify` | 2o_parcial.py:98 | the result is a heap holding exactly the given tasks |
| `Manager.FirstIndex` | 2o_parcial.py:43-46 | the result is the first position satisfying the test, or the length when none does |
| `Manager.Known` | 2o_parcial.py:44 | a dependency name is accepted when some pending task or the completed set has that name |
| `Manager.Ready` | 2o_parcial.py:93 | a task is executable when every one of its dependencies is in the completed set (the negation of the `any` test at line 93 and the `all` test at line 108) |
| `Manager.AddOutcome` | 2o_parcial.py:33-56 | add refuses a blank name (and only that) as InvalidName; it succeeds exactly when the name is not blank and every dependency is pending or completed; otherwise it reports the first dependency that is neither |
| `Manager.MatchIndex` | 2o_parcial.py:91-92 | the position of the first pending task called `name` in array order, or the length exactly when no pending task has that name |
| `Manager.CompleteOutcome` | 2o_parcial.py:89-103 | complete reports NotFound exactly when no pending task has the name; otherwise it succeeds exactly when the first match's dependencies are all completed, and reports UnsatisfiedDependencies if not |
| `Manager.RemoveAt` | 2o_parcial.py:97 | deleting position `i` removes exactly that one task from the multiset |
| `Manager.NextExecutable` | 2o_parcial.py:105-113 | the next task is none exactly when no pending task is executable; otherwise it is a pending executable task and no executable task sorts strictly before it |
| `Manager.AddKeepsDepsClosed` | 2o_parcial.py:43-54 | adding a task whose dependencies are all known keeps every pending task's dependencies known |
| `Manager.CompleteKeepsDepsClosed` | 2o_parcial.py:96-98 | completing a task keeps every remaining task's dependencies known, its name moving to the completed set |
| `Manager.CompleteUniqueName` | 2o_parcial.py:91-95 | when pending names are unique, completing a pending task's name succeeds exactly when that task's dependencies are completed |
| `Manager.TaskManager.constructor` | 2o_parcial.py:6-8 | a new manager has no pending and no completed tasks |
| `Manager.TaskManager.AddTask` | 2o_parcial.py:33-56 | the outcome is AddOutcome of the old state; on success the pending multiset grows by exactly the new record, otherwise the pending tasks are unchanged; the completed set never changes; the heap property and dependency closure are kept |
| `Manager.TaskManager.PendingListing` | 2o_parcial.py:79-87 | the listing is sorted by (priority, due date) and is a permutation of the pending tasks |
| `Manager.TaskManager.CompleteTask` | 2o_parcial.py:89-103 | the outcome is CompleteOutcome of the old state; on success the name joins the completed set and exactly the first matching task leaves the pending multiset, otherwise nothing changes; the heap property and dependency closure are kept |
| `Manager.TaskManager.GetNextTask` | 2o_parcial.py:105-113 | the read-only scan over the sorted copy returns exactly NextExecutable of the current state |
| `Scenarios.ListingOfThree` | 2o_parcial.py:86 | A (1, 2024-01-01), B (1, 2024-02-01) and C (2, 2024-01-01), in any arrangement, are listed as A, B, C |
| `Scenarios.NextOfTwo` | 2o_parcial.py:105-113 | with a task without dependencies and a task that depends on it pending, the first is the next task |
| `Scenarios.CompleteOfTwo` | 2o_parcial.py:89-103 | completing the task without dependencies succeeds and leaves only the other task pending |

## Left out

- Loading from and saving to the JSON file (`load_tasks`, `save_tasks`): file I/O. The saves made after a successful add or complete have no effect on the modelled state. A new manager starts empty.
- The interactive menu and `interactive_add_task`: console input and output. This includes the date-format check done with `datetime.strptime`.
- The console messages: each becomes an `Outcome`, and the listing and next task are returned rather than printed.
- The check that the priority is an integer: it cannot fail for a priority typed `int`.
- Ties on (priority, due date) between different records: the source raises TypeError in `heappush`, `sorted` or `heapify` (see Findings). Identical records tie without error, because Python finds the two tuples equal. The model compares on (priority, due date) only and decides a tie as `heapq` decides an equal pair: a task tied with its parent does not move up, and of two tied children the right one is taken.
- Python's `heapify` uses a bottom-up sift that moves the smaller child up to a leaf and then moves the item back up. The model uses the textbook sift-down, and on a tie between the two children it takes the right one, as `heapq` does. A tie between two different records raises TypeError in the source. Identical records tie without error, and which copy moves up decides where the other tasks on that path end up. With the right child taken on a tie, both give the same array whenever the source does not raise; this equivalence is argued here, not proved.
- Python's `sorted` is Timsort; the model uses an insertion sort. `Tasks.SortedUnique` shows both give the same listing whenever only identical records tie, which covers every collection the source sorts without TypeError.
- Aliasing: the task record keeps the caller's dependency list object, so a later change to that list by the caller would show in the task. Dafny sequences are values, so this is not modelled.
- Manager.TaskManager.AddTask: the ensures give the new pending list as a multiset plus the heap property, not its exact array order. The body computes that order with the same sift-up as `heappush`.
- Manager.TaskManager.CompleteTask: the ensures give the new pending list as a multiset plus the heap property, not its exact array order. The body computes it by deleting the match and running `Heapq.Heapify`, which takes the right child on a tie as described above.
- Heapq.SiftDown: the ensures give the multiset, the untouched prefix and the heap property below `k`, not the exact array. The body takes the right child on a tie between the children, as `heapq` does.
- Heapq.Heapify: the ensures give the heap property and the multiset, not the exact array `heapq.heapify` produces. Its sift-down differs from Python's bottom-up one as described above.

## Findings

| source | as written | input that shows it | evidently intended | confidence | as-written member | corrected member |
|---|---|---|---|---|---|---|
| 2o_parcial.py:54 | tasks are pushed as `(priority, due_date, record)` tuples, so a tie on priority and due date makes Python compare two dicts with `<` | `add_task("review", 1, "2024-01-01", [])` then `add_task("deploy", 1, "2024-01-01", [])`: `heappush` raises TypeError | order by (priority, due date) only, tied tasks in either order | not executed | `Tasks.TieRaisesTypeError` | `Heapq.HeapPush` |
