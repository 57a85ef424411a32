/**
 * The iterator of the level-order flat set (flatset_detail::iter): a tree
 * index into the array and the array's size. Stepping follows the in-order
 * walk of the implicit tree; random access converts to and from ranks.
 */
module TreeIter {
  import opened Eytzinger

  /** index == n is the end iterator. The array the iterator points into is not modelled. */
  datatype Iter = Iter(index: nat, n: nat)

  predicate Valid(it: Iter)
  {
    it.index <= it.n
  }

  /** The position of the iterator in ascending order (rank_from_eytzinger); end is at n. */
  function Position(it: Iter): (p: nat)
    requires Valid(it)
    ensures p <= it.n && (p == it.n <==> it.index == it.n)
  {
    IndexOfRankOfIndex(it.index, it.n);
    Rank(it.index, it.n)
  }

  /** The iterator at ascending position r (eytzinger_from_rank). */
  function AtRank(r: nat, n: nat): (it: Iter)
    requires r <= n
    ensures Valid(it) && it.n == n && Position(it) == r
  {
    RankOfIndexOfRank(r, n);
    Iter(IndexOfRank(r, n), n)
  }

  /** end() */
  function End(n: nat): (it: Iter)
    ensures Valid(it) && Position(it) == n
  {
    Iter(n, n)
  }

  /** operator+= / operator+ / operator-= / operator- with an offset d. */
  function Advance(it: Iter, d: int): (r: Iter)
    requires Valid(it) && 0 <= Position(it) + d <= it.n
    ensures Valid(r) && r.n == it.n && Position(r) == Position(it) + d
  {
    AtRank(Position(it) + d, it.n)
  }

  /** operator- between two iterators. */
  function Distance(a: Iter, b: Iter): int
    requires Valid(a) && Valid(b)
  {
    Position(a) - Position(b)
  }

  /** operator== (and !=): only the indices are compared. */
  predicate Same(a: Iter, b: Iter)
  {
    a.index == b.index
  }

  /** operator<; operator<=, > and >= compare the same distance with 0. */
  predicate Before(a: Iter, b: Iter)
    requires Valid(a) && Valid(b)
  {
    Distance(a, b) < 0
  }

  // ---------------------------------------------------------------- properties

  /** An iterator is determined by its position: Advance by d and back by d is the identity. */
  lemma AdvanceInverse(it: Iter, d: int)
    requires Valid(it) && 0 <= Position(it) + d <= it.n
    ensures Advance(Advance(it, d), -d) == it
  {
    IndexOfRankOfIndex(it.index, it.n);
  }

  /** Two advances add up. */
  lemma AdvanceCompose(it: Iter, d: int, e: int)
    requires Valid(it) && 0 <= Position(it) + d <= it.n && 0 <= Position(it) + d + e <= it.n
    ensures Advance(Advance(it, d), e) == Advance(it, d + e)
  {
    var a := Advance(it, d);
    var r := Position(a) + e;
    assert r == Position(it) + (d + e);
    AdvanceAt(a, e, r);
    AdvanceAt(it, d + e, r);
  }

  /** Advance by d lands on the iterator at rank r = Position(it) + d. */
  lemma AdvanceAt(it: Iter, d: int, r: nat)
    requires Valid(it) && r == Position(it) + d && r <= it.n
    ensures Advance(it, d) == AtRank(r, it.n)
  {
  }

  /** operator- undoes operator+. */
  lemma DistanceAdvance(it: Iter, d: int)
    requires Valid(it) && 0 <= Position(it) + d <= it.n
    ensures Distance(Advance(it, d), it) == d
  {
  }

  /** For iterators into one array, equal indices and distance 0 mean the same thing. */
  lemma SameIffNoDistance(a: Iter, b: Iter)
    requires Valid(a) && Valid(b) && a.n == b.n
    ensures Same(a, b) <==> Distance(a, b) == 0
  {
    if Distance(a, b) == 0 {
      RankInjective(a.index, b.index, a.n);
    }
  }

  /** operator< orders the iterators of one array totally: exactly one of a < b, a == b, b < a. */
  lemma BeforeTrichotomy(a: Iter, b: Iter)
    requires Valid(a) && Valid(b) && a.n == b.n
    ensures (Before(a, b) && !Same(a, b) && !Before(b, a))
         || (!Before(a, b) && Same(a, b) && !Before(b, a))
         || (!Before(a, b) && !Same(a, b) && Before(b, a))
  {
    SameIffNoDistance(a, b);
  }

  /** Dereferencing the iterator at position k of array c gives the key of rank k. */
  lemma DerefAtRank(c: seq<int>, k: nat)
    requires k < |c|
    ensures AtRank(k, |c|).index < |c| && c[AtRank(k, |c|).index] == InOrder(c)[k]
  {
  }

  // ---------------------------------------------------------------- tree facts used by the walks

  /** The descent to the left keeps the smallest rank of the subtree. */
  lemma LeftStep(x: nat, n: nat)
    ensures Lo(Left(x), n) + Size(Left(x), n) <= Lo(x, n) + Size(x, n) || x >= n
    ensures Lo(Left(x), n) == Lo(x, n)
  {
    LoOfChildren(x, n);
  }

  /** The descent to the right keeps the end of the rank range of the subtree. */
  lemma RightStep(x: nat, n: nat)
    requires x < n
    ensures Lo(Right(x), n) + Size(Right(x), n) == Lo(x, n) + Size(x, n)
  {
    assert Lo(Right(x), n) == Lo(x, n) + Size(Left(x), n) + 1 by {
      LoOfChildren(x, n);
    }
    SizeNode(x, n);
  }

  /** A node without a left child has the smallest rank of its subtree. */
  lemma NoLeftChild(y: nat, n: nat)
    requires y < n <= Left(y)
    ensures Rank(y, n) == Lo(y, n)
  {
  }

  /** A node without a right child has the largest rank of its subtree. */
  lemma NoRightChild(y: nat, n: nat)
    requires y < n <= Right(y)
    ensures Rank(y, n) + 1 == Lo(y, n) + Size(y, n)
  {
    SizeNode(y, n);
  }

  /** The successor of a node with a right child is the first node of that subtree. */
  lemma RightSubtreeStart(i: nat, n: nat)
    requires Right(i) < n
    ensures Lo(Right(i), n) == Rank(i, n) + 1
  {
    LoOfChildren(i, n);
  }

  /** The predecessor of a node with a left child is the last node of that subtree. */
  lemma LeftSubtreeEnd(i: nat, n: nat)
    requires Left(i) < n
    ensures Lo(Left(i), n) + Size(Left(i), n) == Rank(i, n)
  {
    LoOfChildren(i, n);
  }

  /** The whole tree spans ranks 0 .. n - 1. */
  lemma RootRange(n: nat)
    ensures Lo(0, n) == 0 && Size(0, n) == n
  {
    SizeRoot(n);
  }

  /** Climbing from a right child keeps the end of the rank range. */
  lemma ClimbFromRight(x: nat, n: nat)
    requires 0 < x < n && IsRightChild(x)
    ensures Parent(x) < x && Lo(Parent(x), n) + Size(Parent(x), n) == Lo(x, n) + Size(x, n)
  {
    var p := Parent(x);
    ParentChild(x);
    assert Lo(x, n) == Lo(p, n) + Size(Left(p), n) + 1 by {
      LoOfChildren(p, n);
    }
    SizeNode(p, n);
  }

  /** The parent of a left child x comes right after the subtree of x. */
  lemma ParentAfterLeft(x: nat, n: nat)
    requires 0 < x < n && IsLeftChild(x)
    ensures Parent(x) < n && Rank(Parent(x), n) == Lo(x, n) + Size(x, n)
  {
    var p := Parent(x);
    ParentChild(x);
    assert Lo(x, n) == Lo(p, n) by {
      LoOfChildren(p, n);
    }
  }

  /** Climbing from a left child keeps the start of the rank range. */
  lemma ClimbFromLeft(x: nat, n: nat)
    requires 0 < x < n && IsLeftChild(x)
    ensures Parent(x) < x && Lo(Parent(x), n) == Lo(x, n)
  {
    var p := Parent(x);
    ParentChild(x);
    LoOfChildren(p, n);
  }

  /** The parent of a right child x comes right before the subtree of x. */
  lemma ParentBeforeRight(x: nat, n: nat)
    requires 0 < x < n && IsRightChild(x)
    ensures Parent(x) < n && Rank(Parent(x), n) + 1 == Lo(x, n)
  {
    var p := Parent(x);
    ParentChild(x);
    assert Lo(x, n) == Lo(p, n) + Size(Left(p), n) + 1 by {
      LoOfChildren(p, n);
    }
  }

  // ---------------------------------------------------------------- stepping

  /** Descend to the left while there is a left child: the first node of the subtree of x. */
  method DescendLeft(x: nat, n: nat) returns (y: nat)
    requires x < n
    ensures y < n && Rank(y, n) == Lo(x, n)
  {
    y := x;
    while Left(y) < n
      invariant y < n && Lo(y, n) == Lo(x, n)
      decreases n - y
    {
      LeftStep(y, n);
      y := Left(y);
    }
    NoLeftChild(y, n);
  }

  /** Descend to the right while there is a right child: the last node of the subtree of x. */
  method DescendRight(x: nat, n: nat) returns (y: nat)
    requires x < n
    ensures y < n && Rank(y, n) + 1 == Lo(x, n) + Size(x, n)
  {
    y := x;
    while Right(y) < n
      invariant y < n && Lo(y, n) + Size(y, n) == Lo(x, n) + Size(x, n)
      decreases n - y
    {
      RightStep(y, n);
      y := Right(y);
    }
    NoRightChild(y, n);
  }

  /** begin(): descend to the left from the root; for an empty array this is end. */
  method Begin(n: nat) returns (it: Iter)
    ensures it == AtRank(0, n)
  {
    if n == 0 {
      it := Iter(0, 0);
    } else {
      var i := DescendLeft(0, n);
      RootRange(n);
      IndexOfRankOfIndex(i, n);
      it := Iter(i, n);
    }
  }

  /**
   * The climb of operator++ from a node x without a right child: up past every
   * right-child link, then one more step to the parent; out of the root it gives
   * the end index n. The result is the node right after the subtree of x.
   */
  method ClimbPastRightLinks(x: nat, n: nat) returns (y: nat)
    requires x < n
    ensures y <= n && Rank(y, n) == Lo(x, n) + Size(x, n)
  {
    var index: nat := x;
    ghost var target := Lo(x, n) + Size(x, n);
    while IsRightChild(index)
      invariant index < n && target == Lo(index, n) + Size(index, n)
      decreases index
    {
      if index == 0 {
        RootRange(n);
        return n;
      }
      ClimbFromRight(index, n);
      index := Parent(index);
    }
    ParentAfterLeft(index, n);
    y := Parent(index);
  }

  /**
   * The climb of operator-- from a node x without a left child: up past every
   * left-child link, then one more step to the parent. The result is the node
   * right before the subtree of x; when the subtree starts at rank 0 the climb
   * ends at the root, whose parent index is again 0.
   */
  method ClimbPastLeftLinks(x: nat, n: nat) returns (y: nat)
    requires x < n
    ensures y < n
    ensures Lo(x, n) > 0 ==> Rank(y, n) + 1 == Lo(x, n)
    ensures Lo(x, n) == 0 ==> y == 0
  {
    var index: nat := x;
    ghost var rank := Lo(x, n);
    while IsLeftChild(index)
      invariant index < n && rank == Lo(index, n)
      decreases index
    {
      ClimbFromLeft(index, n);
      index := Parent(index);
    }
    if index == 0 {
      RootRange(n);
      y := Parent(index);
    } else {
      ParentBeforeRight(index, n);
      y := Parent(index);
    }
  }

  /**
   * operator++: into the right subtree and down to its left end, or else up
   * past every right-child link; climbing out of the root gives end.
   */
  method Increment(it: Iter) returns (r: Iter)
    requires it.index < it.n
    ensures r == Advance(it, 1)
  {
    var n := it.n;
    var index := SuccessorIndex(it.index, n);
    IterAtRank(index, n, Position(it) + 1);
    r := Iter(index, n);
  }

  /** The index operator++ reaches from node x: the node of the next rank, or n after the last. */
  method SuccessorIndex(x: nat, n: nat) returns (y: nat)
    requires x < n
    ensures y <= n && Rank(y, n) == Rank(x, n) + 1
  {
    var right := Right(x);
    if right < n {
      RightSubtreeStart(x, n);
      y := DescendLeft(right, n);
    } else {
      NoRightChild(x, n);
      y := ClimbPastRightLinks(x, n);
    }
  }

  /**
   * operator--: from end, down the right spine from the root; otherwise into
   * the left subtree and down to its right end, or else up past every
   * left-child link. On begin() the climb stops at the root, whose parent
   * index is again 0, so the result is the root.
   */
  method Decrement(it: Iter) returns (r: Iter)
    requires Valid(it)
    ensures Position(it) > 0 ==> r == Advance(it, -1)
    ensures Position(it) == 0 ==> r == Iter(0, it.n)
  {
    var n := it.n;
    var index := it.index;
    ghost var p := Position(it);
    if index == n {
      if n == 0 {
        return Iter(0, 0);
      }
      RootRange(n);
      index := DescendRight(0, n);
    } else {
      index := PredecessorIndex(index, n);
    }
    if p > 0 {
      IterAtRank(index, n, p - 1);
    }
    r := Iter(index, n);
  }

  /** The index operator-- reaches from node x: the node of the previous rank, or the root from rank 0. */
  method PredecessorIndex(x: nat, n: nat) returns (y: nat)
    requires x < n
    ensures y < n
    ensures Rank(x, n) > 0 ==> Rank(y, n) + 1 == Rank(x, n)
    ensures Rank(x, n) == 0 ==> y == 0
  {
    var left := Left(x);
    if left < n {
      LeftSubtreeEnd(x, n);
      y := DescendRight(left, n);
    } else {
      NoLeftChild(x, n);
      y := ClimbPastLeftLinks(x, n);
    }
  }

  /** The iterator made of a node and the size is the one at that node's rank. */
  lemma IterAtRank(index: nat, n: nat, r: nat)
    requires index <= n && Rank(index, n) == r
    ensures r <= n && Iter(index, n) == AtRank(r, n)
  {
    IndexOfRankOfIndex(index, n);
  }

}
