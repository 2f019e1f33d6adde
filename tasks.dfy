/**
 * A pending task and the order in which the task manager lists and scans
 * tasks: ascending by the pair (priority, due date).
 *
 * The source keeps each task as the tuple (priority, due_date, record) and
 * lets Python compare tuples. When two tuples agree on priority and due date,
 * Python goes on to compare the two records, which are dicts, and raises
 * TypeError (unless they are equal records). This model compares on
 * (priority, due date) only and leaves such ties in either order.
 */
module Tasks {

  /** A task record: its name, priority (lower runs first), due date as an
      ISO `YYYY-MM-DD` string, and the names of the tasks it depends on. */
  datatype Task = Task(name: string, priority: int, dueDate: string, dependencies: seq<string>)

  datatype Option<T> = None | Some(value: T)

  /** Python's `a < b` on strings: lexicographic by code point, a proper
      prefix sorting first. Used on ISO dates, where it is date order. */
  predicate LexLess(a: string, b: string)
  {
    if |a| == 0 then |b| > 0
    else if |b| == 0 then false
    else if a[0] != b[0] then a[0] < b[0]
    else LexLess(a[1..], b[1..])
  }

  lemma {:induction false} LexLessIrreflexive(a: string)
    ensures !LexLess(a, a)
  {
    if |a| > 0 {
      LexLessIrreflexive(a[1..]);
    }
  }

  lemma {:induction false} LexLessTransitive(a: string, b: string, c: string)
    requires LexLess(a, b) && LexLess(b, c)
    ensures LexLess(a, c)
  {
    if |a| > 0 && a[0] == b[0] && b[0] == c[0] {
      LexLessTransitive(a[1..], b[1..], c[1..]);
    }
  }

  lemma {:induction false} LexLessTotal(a: string, b: string)
    ensures a == b || LexLess(a, b) || LexLess(b, a)
  {
    if |a| > 0 && |b| > 0 && a[0] == b[0] {
      LexLessTotal(a[1..], b[1..]);
      assert a == [a[0]] + a[1..] && b == [b[0]] + b[1..];
    }
  }

  /** `t` sorts strictly before `u`: the tuple (priority, due date) of `t`
      is smaller. */
  predicate Before(t: Task, u: Task)
  {
    t.priority < u.priority || (t.priority == u.priority && LexLess(t.dueDate, u.dueDate))
  }

  /** `t` and `u` tie on the sort key. */
  predicate SameKey(t: Task, u: Task)
  {
    t.priority == u.priority && t.dueDate == u.dueDate
  }

  /** Python's `<` on the stored tuples (priority, due_date, record), as
      the source has it: the first differing component decides; equal
      records make the tuples equal; two different records with the same
      priority and due date are compared as dicts, which raises TypeError,
      here `None`. */
  function TupleLess(t: Task, u: Task): (r: Option<bool>)
    ensures r.None? <==> SameKey(t, u) && t != u
    ensures r.Some? ==> (r.value <==> Before(t, u))
  {
    if t.priority != u.priority then Some(t.priority < u.priority)
    else if t.dueDate != u.dueDate then Some(LexLess(t.dueDate, u.dueDate))
    else if t == u then
      LexLessIrreflexive(t.dueDate);
      Some(false)
    else None
  }

  /** Two tasks added with the same priority and due date, "review" and then
      "deploy": the first comparison `heappush` makes, the new item "deploy"
      against its parent "review", raises TypeError. */
  lemma TieRaisesTypeError()
    ensures TupleLess(Task("deploy", 1, "2024-01-01", []), Task("review", 1, "2024-01-01", [])).None?
  {
  }

  lemma BeforeIrreflexive(t: Task)
    ensures !Before(t, t)
  {
    LexLessIrreflexive(t.dueDate);
  }

  lemma BeforeAsymmetric(t: Task, u: Task)
    requires Before(t, u)
    ensures !Before(u, t) && !SameKey(t, u)
  {
    if t.priority == u.priority {
      LexLessIrreflexive(t.dueDate);
      if LexLess(u.dueDate, t.dueDate) {
        LexLessTransitive(t.dueDate, u.dueDate, t.dueDate);
      }
    }
  }

  lemma BeforeTransitive(t: Task, u: Task, v: Task)
    requires Before(t, u) && Before(u, v)
    ensures Before(t, v)
  {
    if t.priority == u.priority == v.priority {
      LexLessTransitive(t.dueDate, u.dueDate, v.dueDate);
    }
  }

  /** Any two tasks are ordered one way or the other, or tie on the key. */
  lemma BeforeTrichotomy(t: Task, u: Task)
    ensures Before(t, u) || Before(u, t) || SameKey(t, u)
  {
    LexLessTotal(t.dueDate, u.dueDate);
  }

  /** "Not after" is transitive: (priority, due date) is a total preorder. */
  lemma NotBeforeTransitive(t: Task, u: Task, v: Task)
    requires !Before(u, t) && !Before(v, u)
    ensures !Before(v, t)
  {
    BeforeTrichotomy(t, u);
    if Before(v, t) && Before(t, u) {
      BeforeTransitive(v, t, u);
    }
  }

  /** If `t` is strictly before `u` and `v` is not before `u`, then `v` is
      not before `t`. */
  lemma BeforeThenNotBefore(t: Task, u: Task, v: Task)
    requires Before(t, u) && !Before(v, u)
    ensures !Before(v, t)
  {
    if Before(v, t) {
      BeforeTransitive(v, t, u);
    }
  }

  /** Ascending by (priority, due date): no task sorts strictly before an
      earlier one. */
  predicate SortedByKey(s: seq<Task>)
  {
    forall i, j :: 0 <= i < j < |s| ==> !Before(s[j], s[i])
  }

  /** Two positions of `s` tie on the sort key only when they hold the same
      record: the collections Python sorts or heapifies without comparing
      two different dicts. */
  predicate TiesIdentical(s: seq<Task>)
  {
    forall i, j :: 0 <= i < j < |s| && SameKey(s[i], s[j]) ==> s[i] == s[j]
  }

  lemma ConsSorted(x: Task, s: seq<Task>)
    requires SortedByKey(s)
    requires forall y :: y in s ==> !Before(y, x)
    ensures SortedByKey([x] + s)
  {
  }

  /** Inserts `t` into a sorted sequence, in front of the first task that
      does not sort strictly before it. */
  function Insert(t: Task, s: seq<Task>): (r: seq<Task>)
    requires SortedByKey(s)
    ensures SortedByKey(r)
    ensures multiset(r) == multiset(s) + multiset{t}
  {
    if s == [] || !Before(s[0], t) then
      InsertInFront(t, s);
      [t] + s
    else
      var rest := Insert(t, s[1..]);
      assert s == [s[0]] + s[1..];
      InsertBehind(t, s, rest);
      [s[0]] + rest
  }

  lemma InsertInFront(t: Task, s: seq<Task>)
    requires SortedByKey(s)
    requires s == [] || !Before(s[0], t)
    ensures SortedByKey([t] + s)
  {
    forall y | y in s ensures !Before(y, t) {
      var k :| 0 <= k < |s| && s[k] == y;
      if k > 0 {
        NotBeforeTransitive(t, s[0], y);
      }
    }
    ConsSorted(t, s);
  }

  lemma InsertBehind(t: Task, s: seq<Task>, rest: seq<Task>)
    requires SortedByKey(s) && s != [] && Before(s[0], t)
    requires SortedByKey(rest) && multiset(rest) == multiset(s[1..]) + multiset{t}
    ensures SortedByKey([s[0]] + rest)
  {
    forall y | y in rest ensures !Before(y, s[0]) {
      assert y in multiset(rest);
      if y == t {
        BeforeAsymmetric(s[0], t);
      } else {
        assert y in s[1..];
        var k :| 0 <= k < |s[1..]| && s[1..][k] == y;
        assert s[k + 1] == y;
      }
    }
    ConsSorted(s[0], rest);
  }

  /** The order in which the source lists tasks (`sorted` over the tuples):
      here an insertion sort; any sort gives the same list when only
      identical records tie on the key (lemma SortedUnique). */
  function SortByKey(s: seq<Task>): (r: seq<Task>)
    ensures SortedByKey(r)
    ensures multiset(r) == multiset(s)
  {
    if s == [] then []
    else
      assert s == [s[0]] + s[1..];
      Insert(s[0], SortByKey(s[1..]))
  }

  /** A sorted arrangement of a collection in which only identical records
      tie on the key is unique: whatever sort is used, the listing is the
      same. */
  lemma {:induction false} SortedUnique(r: seq<Task>, q: seq<Task>)
    requires SortedByKey(r) && SortedByKey(q) && TiesIdentical(q)
    requires multiset(r) == multiset(q)
    ensures r == q
  {
    assert |q| == |multiset(q)| == |multiset(r)| == |r|;
    if r != [] {
      SameHead(r, q);
      DropHead(r, q);
      assert TiesIdentical(q[1..]) by {
        forall a, b | 0 <= a < b < |q[1..]| && SameKey(q[1..][a], q[1..][b])
          ensures q[1..][a] == q[1..][b]
        {
          assert q[1..][a] == q[a + 1] && q[1..][b] == q[b + 1];
        }
      }
      SortedUnique(r[1..], q[1..]);
      assert r == [r[0]] + r[1..] && q == [q[0]] + q[1..];
    }
  }

  lemma SameHead(r: seq<Task>, q: seq<Task>)
    requires SortedByKey(r) && SortedByKey(q) && TiesIdentical(q)
    requires multiset(r) == multiset(q) && r != [] && q != []
    ensures r[0] == q[0]
  {
    assert r[0] in multiset(q) && q[0] in multiset(r);
    var j :| 0 <= j < |q| && q[j] == r[0];
    var i :| 0 <= i < |r| && r[i] == q[0];
    assert j > 0 ==> !Before(q[j], q[0]);
    assert i > 0 ==> !Before(r[i], r[0]);
    BeforeIrreflexive(r[0]);
    BeforeTrichotomy(r[0], q[0]);
    if j != 0 {
      assert SameKey(q[0], q[j]);
    }
  }

  lemma DropHead(r: seq<Task>, q: seq<Task>)
    requires multiset(r) == multiset(q) && r != [] && q != [] && r[0] == q[0]
    ensures multiset(r[1..]) == multiset(q[1..])
  {
    assert r == [r[0]] + r[1..] && q == [q[0]] + q[1..];
    assert multiset(r[1..]) == multiset(r) - multiset{r[0]};
    assert multiset(q[1..]) == multiset(q) - multiset{q[0]};
  }
}
