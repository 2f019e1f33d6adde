/**
 * The two operations of Python's `heapq` that the task manager uses on its
 * pending list: `heappush` after a task is added and `heapify` after a task
 * is deleted from the middle of the list. Both work on a binary min-heap kept
 * in a sequence, position 0 at the root and the children of position `i` at
 * `2 * i + 1` and `2 * i + 2`, ordered by (priority, due date).
 *
 * `heapq` compares whole (priority, due_date, record) tuples. A tie on the
 * key between two different records makes it compare two dicts, and the
 * source raises TypeError; a tie between identical records makes the tuples
 * equal, and nothing is raised. Here a tie is decided as `heapq` decides an
 * equal pair: a task tied with its parent does not move up, and of two tied
 * children the right one is taken.
 */
module Heapq {
  import opened Tasks

  function Parent(j: nat): nat
    requires 0 < j
  {
    (j - 1) / 2
  }

  /** Position `j` does not sort strictly before its parent. */
  ghost predicate ParentOk(h: seq<Task>, j: nat)
    requires 0 < j < |h|
  {
    !Before(h[j], h[Parent(j)])
  }

  /** The heap property: no task sorts strictly before its parent. */
  ghost predicate IsHeap(h: seq<Task>)
  {
    forall j :: 0 < j < |h| ==> ParentOk(h, j)
  }

  /** The heap property below every position from `k` on: a heap under
      construction whose positions `k..` are already sifted down. */
  ghost predicate HeapFrom(h: seq<Task>, k: nat)
  {
    forall j :: 0 < j < |h| && k <= Parent(j) ==> ParentOk(h, j)
  }

  /** `h` with positions `a` and `b` exchanged. */
  function Swap(h: seq<Task>, a: nat, b: nat): (r: seq<Task>)
    requires a < |h| && b < |h|
    ensures |r| == |h| && multiset(r) == multiset(h)
    ensures r[a] == h[b] && r[b] == h[a]
    ensures forall j :: 0 <= j < |h| && j != a && j != b ==> r[j] == h[j]
  {
    h[a := h[b]][b := h[a]]
  }

  /** `heapq.heappush`: append `t` and move it towards the root while it
      sorts strictly before its parent. */
  method HeapPush(h: seq<Task>, t: Task) returns (r: seq<Task>)
    requires IsHeap(h)
    ensures IsHeap(r)
    ensures multiset(r) == multiset(h) + multiset{t}
  {
    r := h + [t];
    var i := |h|;
    forall j | 0 < j < |r| && j != i
      ensures ParentOk(r, j)
    {
      assert ParentOk(h, j);
    }
    while i > 0 && Before(r[i], r[Parent(i)])
      invariant 0 <= i < |r| == |h| + 1
      invariant multiset(r) == multiset(h) + multiset{t}
      invariant forall j :: 0 < j < |r| && j != i ==> ParentOk(r, j)
      invariant i > 0 ==> forall c :: 0 < c < |r| && Parent(c) == i ==> !Before(r[c], r[Parent(i)])
      decreases i
    {
      SiftUpStep(r, i);
      r := Swap(r, i, Parent(i));
      i := Parent(i);
    }
    assert i > 0 ==> ParentOk(r, i);
  }

  /** One exchange of `heappush`: `r[i]` sorts strictly before its parent,
      every other position is in order and the parent is in order with the
      children of `i`. After the exchange only the parent's position may be
      out of order, and its own parent is in order with its children. */
  lemma SiftUpStep(r: seq<Task>, i: nat)
    requires 0 < i < |r| && Before(r[i], r[Parent(i)])
    requires forall j :: 0 < j < |r| && j != i ==> ParentOk(r, j)
    requires forall c :: 0 < c < |r| && Parent(c) == i ==> !Before(r[c], r[Parent(i)])
    ensures var s, p := Swap(r, i, Parent(i)), Parent(i);
      && (forall j :: 0 < j < |s| && j != p ==> ParentOk(s, j))
      && (p > 0 ==> forall c :: 0 < c < |s| && Parent(c) == p ==> !Before(s[c], s[Parent(p)]))
  {
    var s, p := Swap(r, i, Parent(i)), Parent(i);
    forall j | 0 < j < |s| && j != p
      ensures ParentOk(s, j)
    {
      if j == i {
        BeforeAsymmetric(r[i], r[p]);
      } else if Parent(j) == i {
        assert s[j] == r[j] && s[i] == r[p];
      } else if Parent(j) == p {
        assert ParentOk(r, j);
        BeforeThenNotBefore(r[i], r[p], r[j]);
      } else {
        assert ParentOk(r, j);
      }
    }
    if p > 0 {
      var g := Parent(p);
      forall c | 0 < c < |s| && Parent(c) == p
        ensures !Before(s[c], s[g])
      {
        assert ParentOk(r, p);
        if c != i {
          assert ParentOk(r, c);
          NotBeforeTransitive(r[g], r[p], r[c]);
        }
      }
    }
  }

  /** Moves `h[k]` down, exchanging it with its smaller child (the right one
      on a tie, as `heapq` chooses) while that child sorts strictly before it, in a sequence that is already a heap
      below every position after `k`. */
  method SiftDown(h: seq<Task>, k: nat) returns (r: seq<Task>)
    requires k < |h|
    requires HeapFrom(h, k + 1)
    ensures |r| == |h| && r[..k] == h[..k]
    ensures multiset(r) == multiset(h)
    ensures HeapFrom(r, k)
  {
    r := h;
    var i := k;
    while true
      invariant k <= i < |r| == |h|
      invariant r[..k] == h[..k]
      invariant multiset(r) == multiset(h)
      invariant forall j :: 0 < j < |r| && k <= Parent(j) && Parent(j) != i ==> ParentOk(r, j)
      invariant i > k ==> forall c :: 0 < c < |r| && Parent(c) == i ==> !Before(r[c], r[Parent(i)])
      decreases |r| - i
    {
      var c := 2 * i + 1;
      if c >= |r| {
        SiftDownDone(r, k, i);
        return;
      }
      if c + 1 < |r| && !Before(r[c], r[c + 1]) {
        c := c + 1;
      }
      SmallestChild(r, i, c);
      if !Before(r[c], r[i]) {
        forall d | 0 < d < |r| && Parent(d) == i
          ensures !Before(r[d], r[i])
        {
          NotBeforeTransitive(r[i], r[c], r[d]);
        }
        SiftDownDone(r, k, i);
        return;
      }
      SiftDownStep(r, k, i, c);
      r := Swap(r, i, c);
      i := c;
    }
  }

  /** `r[c]` is a child of `r[i]` that no other child sorts strictly before:
      the right child unless the left one sorts strictly before it. */
  lemma SmallestChild(r: seq<Task>, i: nat, c: nat)
    requires 2 * i + 1 < |r|
    requires c == 2 * i + 1 || c == 2 * i + 2
    requires c == 2 * i + 2 <==> 2 * i + 2 < |r| && !Before(r[2 * i + 1], r[2 * i + 2])
    ensures forall d :: 0 < d < |r| && Parent(d) == i ==> !Before(r[d], r[c])
  {
    forall d | 0 < d < |r| && Parent(d) == i
      ensures !Before(r[d], r[c])
    {
      BeforeIrreflexive(r[d]);
      if c == 2 * i + 1 && d == 2 * i + 2 {
        BeforeAsymmetric(r[c], r[d]);
      }
    }
  }

  /** A sift-down stops once the moving task is in order with its children. */
  lemma SiftDownDone(r: seq<Task>, k: nat, i: nat)
    requires k <= i < |r|
    requires forall j :: 0 < j < |r| && k <= Parent(j) && Parent(j) != i ==> ParentOk(r, j)
    requires forall d :: 0 < d < |r| && Parent(d) == i ==> !Before(r[d], r[i])
    ensures HeapFrom(r, k)
  {
  }

  /** One exchange of a sift-down: `r[c]` is a smallest child of `r[i]` and
      sorts strictly before it. After the exchange only the positions below
      `c` may be out of order, and `c`'s parent is in order with them. */
  lemma SiftDownStep(r: seq<Task>, k: nat, i: nat, c: nat)
    requires k <= i < c < |r| && Parent(c) == i
    requires forall d :: 0 < d < |r| && Parent(d) == i ==> !Before(r[d], r[c])
    requires Before(r[c], r[i])
    requires forall j :: 0 < j < |r| && k <= Parent(j) && Parent(j) != i ==> ParentOk(r, j)
    requires i > k ==> forall d :: 0 < d < |r| && Parent(d) == i ==> !Before(r[d], r[Parent(i)])
    ensures var s := Swap(r, i, c);
      && (forall j :: 0 < j < |s| && k <= Parent(j) && Parent(j) != c ==> ParentOk(s, j))
      && (forall d :: 0 < d < |s| && Parent(d) == c ==> !Before(s[d], s[Parent(c)]))
  {
    var s := Swap(r, i, c);
    forall j | 0 < j < |s| && k <= Parent(j) && Parent(j) != c
      ensures ParentOk(s, j)
    {
      if j == c {
        BeforeAsymmetric(r[c], r[i]);
      } else if Parent(j) == i {
        assert s[j] == r[j] && s[i] == r[c];
      } else if j == i {
        assert s[Parent(i)] == r[Parent(i)];
      } else {
        assert ParentOk(r, j);
      }
    }
    forall d | 0 < d < |s| && Parent(d) == c
      ensures !Before(s[d], s[Parent(c)])
    {
      assert ParentOk(r, d);
    }
  }

  /** `heapq.heapify`: sift down every position that has a child, from the
      last such position back to the root. */
  method Heapify(s: seq<Task>) returns (h: seq<Task>)
    ensures IsHeap(h)
    ensures multiset(h) == multiset(s)
  {
    h := s;
    var k := |s| / 2;
    while k > 0
      invariant 0 <= k <= |s| / 2
      invariant |h| == |s| && multiset(h) == multiset(s)
      invariant HeapFrom(h, k)
    {
      k := k - 1;
      h := SiftDown(h, k);
    }
  }
}
