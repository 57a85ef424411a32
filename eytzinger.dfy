/**
 * The implicit complete binary search tree of the level-order flat set.
 *
 * Node i of an n-element array has children 2i+1 and 2i+2 (when they are
 * below n) and parent (i-1)/2. Ascending order is the in-order walk of this
 * tree. This module defines the walk (InOrder), the rank of a tree index
 * (Rank, the meaning of rank_from_eytzinger), its inverse (IndexOfRank, the
 * meaning of eytzinger_from_rank), and the layout that places an ascending
 * sequence into level order (Layout), and proves that they fit together.
 */
module Eytzinger {

  // ---------------------------------------------------------------- index arithmetic

  /** x / 2, by repeated subtraction (HalfIsDivision relates it to the division operator). */
  function Half(x: nat): (h: nat)
    ensures 2 * h <= x <= 2 * h + 1
  {
    if x < 2 then 0 else 1 + Half(x - 2)
  }

  /** getparent: (i - 1) / 2 on int; for the root, C++ division truncating -1 / 2 toward zero gives 0. */
  function Parent(i: nat): nat { if i == 0 then 0 else Half(i - 1) }
  /** getleft */
  function Left(i: nat): nat { 2 * i + 1 }
  /** getright */
  function Right(i: nat): nat { 2 * i + 2 }
  /** isleftchild: i is odd */
  predicate IsLeftChild(i: nat) { i > 0 && 2 * Parent(i) + 1 == i }
  /** isrightchild: i is even; note that the root 0 counts as a right child */
  predicate IsRightChild(i: nat) { !IsLeftChild(i) }

  lemma HalfIsDivision(x: nat)
    ensures Half(x) == x / 2
  {
  }

  /** The index formulas of getparent, isleftchild and isrightchild: parent (i - 1) / 2, left child exactly when odd. */
  lemma IndexFormulas(i: nat)
    ensures i > 0 ==> Parent(i) == (i - 1) / 2
    ensures IsLeftChild(i) <==> i % 2 == 1
    ensures IsRightChild(i) <==> i % 2 == 0
  {
    if i > 0 {
      HalfIsDivision(i - 1);
    }
  }

  lemma {:induction false} HalfOfDouble(i: nat)
    ensures Half(2 * i) == i && Half(2 * i + 1) == i
  {
    if i > 0 {
      HalfOfDouble(i - 1);
    }
  }

  lemma ChildParent(i: nat)
    ensures Parent(Left(i)) == i && Parent(Right(i)) == i
    ensures IsLeftChild(Left(i)) && IsRightChild(Right(i))
  {
    HalfOfDouble(i);
  }

  lemma ParentChild(i: nat)
    requires i > 0
    ensures Parent(i) < i
    ensures IsLeftChild(i) ==> Left(Parent(i)) == i
    ensures IsRightChild(i) ==> Right(Parent(i)) == i
  {
    HalfIsDivision(i - 1);
  }

  // ---------------------------------------------------------------- subtrees

  /** Number of nodes in the subtree rooted at i of the n-node tree. */
  function Size(i: nat, n: nat): nat
    decreases n - i
  {
    if i >= n then 0 else 1 + Size(Left(i), n) + Size(Right(i), n)
  }

  /**
   * Rank of the smallest element of the subtree rooted at i: a left child
   * starts where its parent starts; a right child starts just after its parent.
   */
  function Lo(i: nat, n: nat): nat
    decreases i
  {
    if i == 0 then 0
    else if IsLeftChild(i) then Lo(Parent(i), n)
    else Lo(Parent(i), n) + Size(i - 1, n) + 1
  }

  /**
   * rank_from_eytzinger: the position of tree index i in ascending order;
   * the end index n has rank n.
   */
  function Rank(i: nat, n: nat): nat
  {
    if i < n then Lo(i, n) + Size(Left(i), n) else n
  }

  lemma LoOfChildren(i: nat, n: nat)
    ensures Lo(Left(i), n) == Lo(i, n)
    ensures Lo(Right(i), n) == Lo(i, n) + Size(Left(i), n) + 1
  {
    ChildParent(i);
  }

  /** Unfolding of Size for a node that exists. */
  lemma SizeNode(i: nat, n: nat)
    requires i < n
    ensures Size(i, n) == 1 + Size(Left(i), n) + Size(Right(i), n)
    ensures Rank(i, n) == Lo(i, n) + Size(Left(i), n)
  {
  }

  /** The node at position k of the in-order walk of the subtree rooted at i. */
  function Walk(i: nat, k: nat, n: nat): nat
    decreases n - i
  {
    if i >= n then n
    else if k < Size(Left(i), n) then Walk(Left(i), k, n)
    else if k == Size(Left(i), n) then i
    else Walk(Right(i), k - Size(Left(i), n) - 1, n)
  }

  /** Every node an in-order walk of subtree i reaches is a node of that subtree. */
  lemma {:induction false} WalkRange(i: nat, k: nat, n: nat)
    requires k < Size(i, n)
    ensures i <= Walk(i, k, n) < n
    decreases n - i
  {
    var sl := Size(Left(i), n);
    if k < sl {
      WalkRange(Left(i), k, n);
    } else if k > sl {
      WalkRange(Right(i), k - sl - 1, n);
    }
  }

  /** The subtree rooted at i lies inside the rank range of the whole tree. */
  lemma {:induction false} LoBound(i: nat, n: nat)
    requires i < n
    ensures Lo(i, n) + Size(i, n) <= Size(0, n)
    decreases i
  {
    if i > 0 {
      var p := Parent(i);
      ParentChild(i);
      SizeNode(p, n);
      LoOfChildren(p, n);
      LoBound(p, n);
    }
  }

  /** Position k of the walk of a non-root node i is position j of the walk of its parent. */
  lemma ChildOffset(i: nat, n: nat, k: nat) returns (p: nat, j: nat)
    requires 0 < i < n && k < Size(i, n)
    ensures p == Parent(i) && p < i && j < Size(p, n)
    ensures Lo(i, n) + k == Lo(p, n) + j
    ensures Walk(p, j, n) == Walk(i, k, n)
  {
    p := Parent(i);
    ParentChild(i);
    SizeNode(p, n);
    LoOfChildren(p, n);
    if IsLeftChild(i) {
      assert i == Left(p);
      j := k;
    } else {
      assert i == Right(p);
      j := Size(Left(p), n) + 1 + k;
    }
  }

  /**
   * The subtree rooted at i occupies the contiguous rank window
   * [Lo(i), Lo(i) + Size(i)) of the walk of the whole tree.
   */
  lemma {:induction false} LoWindow(i: nat, n: nat, k: nat)
    requires i < n && k < Size(i, n)
    ensures Lo(i, n) + k < Size(0, n) && Walk(0, Lo(i, n) + k, n) == Walk(i, k, n)
    decreases i
  {
    LoBound(i, n);
    if i > 0 {
      var p, j := ChildOffset(i, n, k);
      LoWindow(p, n, j);
    }
  }

  /** The k-th node of the walk of subtree i has rank Lo(i) + k. */
  lemma {:induction false} RankOfWalk(i: nat, n: nat, k: nat)
    requires k < Size(i, n)
    ensures Rank(Walk(i, k, n), n) == Lo(i, n) + k
    decreases n - i
  {
    var l, r := Left(i), Right(i);
    var sl := Size(l, n);
    LoOfChildren(i, n);
    if k < sl {
      var w := Walk(l, k, n);
      assert Walk(i, k, n) == w;
      RankOfWalk(l, n, k);
    } else if k > sl {
      var w := Walk(r, k - sl - 1, n);
      assert Walk(i, k, n) == w;
      RankOfWalk(r, n, k - sl - 1);
    }
  }

  // ---------------------------------------------------------------- subtree membership

  /** Node j lies in the subtree rooted at a (a is j or one of its ancestors). */
  predicate InSubtree(j: nat, a: nat)
    decreases j
  {
    j == a || (j > a && InSubtree(Parent(j), a))
  }

  lemma {:induction false} InSubtreeChild(j: nat, i: nat)
    ensures InSubtree(j, Left(i)) ==> InSubtree(j, i)
    ensures InSubtree(j, Right(i)) ==> InSubtree(j, i)
    decreases j
  {
    ChildParent(i);
    if j > Left(i) {
      InSubtreeChild(Parent(j), i);
    }
  }

  /** A proper descendant of i descends from one of its children ... */
  lemma {:induction false} InSubtreeSplit(j: nat, i: nat)
    requires InSubtree(j, i) && j != i
    ensures InSubtree(j, Left(i)) || InSubtree(j, Right(i))
    decreases j
  {
    var p := Parent(j);
    ParentChild(j);
    if p != i {
      InSubtreeSplit(p, i);
    }
  }

  /** ... and the ancestors of a node are totally ordered by descent ... */
  lemma {:induction false} InSubtreeComparable(j: nat, a: nat, b: nat)
    requires InSubtree(j, a) && InSubtree(j, b)
    ensures InSubtree(a, b) || InSubtree(b, a)
    decreases j
  {
    if j != a && j != b {
      InSubtreeComparable(Parent(j), a, b);
    }
  }

  /** Neither child of a node lies in the other's subtree ... */
  lemma SiblingsUnrelated(i: nat)
    ensures !InSubtree(Right(i), Left(i)) && !InSubtree(Left(i), Right(i))
  {
    ChildParent(i);
    assert !InSubtree(i, Left(i));
  }

  /** ... so a node descends from only one of them. */
  lemma InSubtreeDisjoint(j: nat, i: nat)
    ensures !(InSubtree(j, Left(i)) && InSubtree(j, Right(i)))
  {
    SiblingsUnrelated(i);
    if InSubtree(j, Left(i)) && InSubtree(j, Right(i)) {
      InSubtreeComparable(j, Left(i), Right(i));
    }
  }

  lemma {:induction false} InSubtreeRoot(j: nat)
    ensures InSubtree(j, 0)
    decreases j
  {
    if j > 0 {
      ParentChild(j);
      InSubtreeRoot(Parent(j));
    }
  }

  /** Adding node n grows exactly the subtrees that contain n, by one. */
  lemma {:induction false} SizeStep(i: nat, n: nat)
    ensures Size(i, n + 1) == Size(i, n) + (if InSubtree(n, i) then 1 else 0)
    decreases n + 1 - i
  {
    if i == n {
      assert Size(Left(i), n + 1) == 0 && Size(Right(i), n + 1) == 0;
    } else if i < n {
      SizeStep(Left(i), n);
      SizeStep(Right(i), n);
      InSubtreeChild(n, i);
      InSubtreeDisjoint(n, i);
      if InSubtree(n, i) {
        InSubtreeSplit(n, i);
      }
    }
  }

  /** The whole tree holds all n nodes. */
  lemma {:induction false} SizeRoot(n: nat)
    ensures Size(0, n) == n
  {
    if n > 0 {
      SizeRoot(n - 1);
      SizeStep(0, n - 1);
      InSubtreeRoot(n - 1);
    }
  }

  // ---------------------------------------------------------------- adding the last leaf

  /** Every node the walk of subtree i reaches descends from i. */
  lemma {:induction false} WalkInSubtree(i: nat, k: nat, n: nat)
    requires k < Size(i, n)
    ensures InSubtree(Walk(i, k, n), i)
    decreases n - i
  {
    var sl := Size(Left(i), n);
    if k < sl {
      WalkInSubtree(Left(i), k, n);
      InSubtreeChild(Walk(i, k, n), i);
    } else if k > sl {
      WalkInSubtree(Right(i), k - sl - 1, n);
      InSubtreeChild(Walk(i, k, n), i);
    }
  }

  /** A subtree without node n has the same walk with or without node n. */
  lemma {:induction false} WalkAppendOut(i: nat, n: nat, k: nat)
    requires !InSubtree(n, i) && k < Size(i, n)
    ensures Size(i, n + 1) == Size(i, n)
    ensures Walk(i, k, n + 1) == Walk(i, k, n)
    decreases n - i
  {
    var l, r := Left(i), Right(i);
    SizeStep(i, n);
    SizeStep(l, n);
    SizeStep(r, n);
    InSubtreeChild(n, i);
    var sl := Size(l, n);
    if k < sl {
      WalkAppendOut(l, n, k);
    } else if k > sl {
      WalkAppendOut(r, n, k - sl - 1);
    }
  }

  /**
   * A subtree that contains node n, where n sits at position q of its walk
   * once n is added: that walk is the old walk with n inserted at q.
   */
  lemma {:induction false} WalkAppendIn(i: nat, n: nat, k: nat, q: nat)
    requires InSubtree(n, i) && k < Size(i, n + 1)
    requires q < Size(i, n + 1) && Walk(i, q, n + 1) == n
    ensures k < q ==> Walk(i, k, n + 1) == Walk(i, k, n)
    ensures k > q ==> Walk(i, k, n + 1) == Walk(i, k - 1, n)
    decreases n - i, 1
  {
    if i < n {
      InSubtreeSplit(n, i);
      if InSubtree(n, Left(i)) {
        WalkAppendLeft(i, n, k, q);
      } else {
        WalkAppendRight(i, n, k, q);
      }
    } else {
      assert Size(Left(n), n + 1) == 0 && Size(Right(n), n + 1) == 0;
    }
  }

  /** WalkAppendIn when node n lies in the left subtree of i. */
  lemma {:induction false} WalkAppendLeft(i: nat, n: nat, k: nat, q: nat)
    requires i < n && InSubtree(n, Left(i)) && k < Size(i, n + 1)
    requires q < Size(i, n + 1) && Walk(i, q, n + 1) == n
    ensures k < q ==> Walk(i, k, n + 1) == Walk(i, k, n)
    ensures k > q ==> Walk(i, k, n + 1) == Walk(i, k - 1, n)
    decreases n - i, 0
  {
    var m, l, r := n + 1, Left(i), Right(i);
    InSubtreeDisjoint(n, i);
    SizeStep(l, n);
    SizeStep(r, n);
    var slm := Size(l, m);
    PositionInLeft(i, n, q);
    if k < slm {
      WalkAppendIn(l, n, k, q);
    } else if k > slm {
      WalkAppendOut(r, n, k - slm - 1);
    }
    CombineLeft(i, n, k, q);
  }

  /** Where node n sits in the walk of i when it lies in the left subtree. */
  lemma PositionInLeft(i: nat, n: nat, q: nat)
    requires i < n && InSubtree(n, Left(i)) && !InSubtree(n, Right(i))
    requires q < Size(i, n + 1) && Walk(i, q, n + 1) == n
    ensures q < Size(Left(i), n + 1) && Walk(Left(i), q, n + 1) == n
  {
    var m, l, r := n + 1, Left(i), Right(i);
    var slm := Size(l, m);
    if q > slm {
      WalkInSubtree(r, q - slm - 1, m);
    }
  }

  /** Where node n sits in the walk of i when it lies in the right subtree. */
  lemma PositionInRight(i: nat, n: nat, q: nat)
    requires i < n && InSubtree(n, Right(i)) && !InSubtree(n, Left(i))
    requires q < Size(i, n + 1) && Walk(i, q, n + 1) == n
    ensures q > Size(Left(i), n + 1)
    ensures Walk(Right(i), q - Size(Left(i), n + 1) - 1, n + 1) == n
  {
    WalkLeftPart(i, q, n + 1);
    ChildParent(i);
  }

  /** A walk position before the right subtree of i reaches the left subtree or i itself. */
  lemma WalkLeftPart(i: nat, q: nat, m: nat)
    requires i < m && q < Size(i, m)
    ensures q < Size(Left(i), m) ==> InSubtree(Walk(i, q, m), Left(i))
    ensures q == Size(Left(i), m) ==> Walk(i, q, m) == i
  {
    if q < Size(Left(i), m) {
      WalkInSubtree(Left(i), q, m);
    }
  }

  /** The step of WalkAppendLeft, from the facts about the two subtrees. */
  lemma CombineLeft(i: nat, n: nat, k: nat, q: nat)
    requires i < n && k < Size(i, n + 1)
    requires Size(Left(i), n + 1) == Size(Left(i), n) + 1 && Size(Right(i), n + 1) == Size(Right(i), n)
    requires q < Size(Left(i), n + 1)
    requires k < Size(Left(i), n + 1) && k < q ==> Walk(Left(i), k, n + 1) == Walk(Left(i), k, n)
    requires k < Size(Left(i), n + 1) && k > q ==> Walk(Left(i), k, n + 1) == Walk(Left(i), k - 1, n)
    requires k > Size(Left(i), n + 1) ==>
      var j := k - Size(Left(i), n + 1) - 1; Walk(Right(i), j, n + 1) == Walk(Right(i), j, n)
    ensures k < q ==> Walk(i, k, n + 1) == Walk(i, k, n)
    ensures k > q ==> Walk(i, k, n + 1) == Walk(i, k - 1, n)
  {
  }

  /** WalkAppendIn when node n lies in the right subtree of i. */
  lemma {:induction false} WalkAppendRight(i: nat, n: nat, k: nat, q: nat)
    requires i < n && InSubtree(n, Right(i)) && !InSubtree(n, Left(i)) && k < Size(i, n + 1)
    requires q < Size(i, n + 1) && Walk(i, q, n + 1) == n
    ensures k < q ==> Walk(i, k, n + 1) == Walk(i, k, n)
    ensures k > q ==> Walk(i, k, n + 1) == Walk(i, k - 1, n)
    decreases n - i, 0
  {
    var m, l, r := n + 1, Left(i), Right(i);
    SizeStep(l, n);
    SizeStep(r, n);
    var sl := Size(l, m);
    PositionInRight(i, n, q);
    if k < sl {
      WalkAppendOut(l, n, k);
    } else if k > sl {
      WalkAppendIn(r, n, k - sl - 1, q - sl - 1);
    }
    CombineRight(i, n, k, q);
  }

  /** The step of WalkAppendRight, from the facts about the two subtrees. */
  lemma CombineRight(i: nat, n: nat, k: nat, q: nat)
    requires i < n && k < Size(i, n + 1)
    requires Size(Left(i), n + 1) == Size(Left(i), n) && Size(Right(i), n + 1) == Size(Right(i), n) + 1
    requires q > Size(Left(i), n + 1)
    requires k < Size(Left(i), n + 1) ==> Walk(Left(i), k, n + 1) == Walk(Left(i), k, n)
    requires k > Size(Left(i), n + 1) ==>
      var j, qr := k - Size(Left(i), n + 1) - 1, q - Size(Left(i), n + 1) - 1;
      (j < qr ==> Walk(Right(i), j, n + 1) == Walk(Right(i), j, n)) &&
      (j > qr ==> Walk(Right(i), j, n + 1) == Walk(Right(i), j - 1, n))
    ensures k < q ==> Walk(i, k, n + 1) == Walk(i, k, n)
    ensures k > q ==> Walk(i, k, n + 1) == Walk(i, k - 1, n)
  {
  }

  // ---------------------------------------------------------------- rank bijection

  /**
   * eytzinger_from_rank: the tree index holding rank r; rank n (end) maps to
   * index n.
   */
  function IndexOfRank(r: nat, n: nat): (i: nat)
    requires r <= n
    ensures i <= n && (i < n <==> r < n)
  {
    SizeRoot(n);
    if r < n then
      WalkRange(0, r, n);
      Walk(0, r, n)
    else n
  }

  /** The node IndexOfRank finds has the rank asked for. */
  lemma RankOfIndexOfRank(r: nat, n: nat)
    requires r <= n
    ensures Rank(IndexOfRank(r, n), n) == r
  {
    SizeRoot(n);
    if r < n {
      RankOfWalk(0, n, r);
    }
  }

  /** Every node has a rank below n, and IndexOfRank recovers the node from it. */
  lemma IndexOfRankOfIndex(i: nat, n: nat)
    requires i <= n
    ensures Rank(i, n) <= n
    ensures (Rank(i, n) < n) == (i < n)
    ensures IndexOfRank(Rank(i, n), n) == i
  {
    SizeRoot(n);
    if i < n {
      SizeNode(i, n);
      LoWindow(i, n, Size(Left(i), n));
    }
  }

  /** Two positions with the same rank are the same position. */
  lemma RankInjective(i: nat, j: nat, n: nat)
    requires i <= n && j <= n && Rank(i, n) == Rank(j, n)
    ensures i == j
  {
    IndexOfRankOfIndex(i, n);
    IndexOfRankOfIndex(j, n);
  }

  // ---------------------------------------------------------------- ascending view of keys

  /**
   * The ascending view of a level-order array: position k holds the key of
   * rank k, which is the order in which the in-order walk (and the set's
   * iterators) visit the keys.
   */
  function InOrder(c: seq<int>): (s: seq<int>)
    ensures |s| == |c|
  {
    seq(|c|, k requires 0 <= k < |c| => c[IndexOfRank(k, |c|)])
  }

  /** The key at tree index i sits at position Rank(i) of the ascending view. */
  lemma InOrderRank(c: seq<int>, i: nat)
    requires i < |c|
    ensures Rank(i, |c|) < |c| && InOrder(c)[Rank(i, |c|)] == c[i]
  {
    IndexOfRankOfIndex(i, |c|);
  }

  /** A key is in the array exactly when it is in the ascending view. */
  lemma InOrderMembers(c: seq<int>, x: int)
    ensures x in InOrder(c) <==> x in c
  {
    var s, n := InOrder(c), |c|;
    if x in c {
      var i :| 0 <= i < n && c[i] == x;
      InOrderRank(c, i);
    }
    if x in s {
      var k :| 0 <= k < n && s[k] == x;
      assert c[IndexOfRank(k, n)] == x;
    }
  }

  /** Level order from ascending order: tree index i receives the element of rank Rank(i). */
  function Layout(s: seq<int>): (c: seq<int>)
    ensures |c| == |s|
  {
    var n := |s|;
    assert forall i :: 0 <= i < n ==> Rank(i, n) < n by {
      forall i | 0 <= i < n ensures Rank(i, n) < n { IndexOfRankOfIndex(i, n); }
    }
    seq(n, i requires 0 <= i < n => s[Rank(i, n)])
  }

  /** The ascending view of Layout(s) is s. */
  lemma InOrderOfLayout(s: seq<int>)
    ensures InOrder(Layout(s)) == s
  {
    var n := |s|;
    forall k | 0 <= k < n ensures InOrder(Layout(s))[k] == s[k] {
      RankOfIndexOfRank(k, n);
    }
  }

  /** Layout is also a left inverse of InOrder: a level-order array is determined by its ascending view. */
  lemma LayoutOfInOrder(c: seq<int>)
    ensures Layout(InOrder(c)) == c
  {
    var n := |c|;
    forall i | 0 <= i < n ensures Layout(InOrder(c))[i] == c[i] {
      IndexOfRankOfIndex(i, n);
    }
  }

  /** Two level-order arrays with the same ascending view are equal. */
  lemma InOrderInjective(c: seq<int>, d: seq<int>)
    requires InOrder(c) == InOrder(d)
    ensures c == d
  {
    LayoutOfInOrder(c);
    LayoutOfInOrder(d);
  }

  /**
   * In the tree with one more node, rank q = Rank(n, n + 1) belongs to the new
   * node n, ranks below q keep their nodes, and ranks above q are the old ranks
   * shifted up by one.
   */
  lemma IndexOfRankAppend(n: nat, k: nat)
    requires k <= n
    ensures Rank(n, n + 1) <= n
    ensures k < Rank(n, n + 1) ==> IndexOfRank(k, n + 1) == IndexOfRank(k, n)
    ensures k == Rank(n, n + 1) ==> IndexOfRank(k, n + 1) == n
    ensures k > Rank(n, n + 1) ==> IndexOfRank(k, n + 1) == IndexOfRank(k - 1, n)
  {
    SizeRoot(n);
    SizeRoot(n + 1);
    InSubtreeRoot(n);
    IndexOfRankOfIndex(n, n + 1);
    WalkAppendIn(0, n, k, Rank(n, n + 1));
  }

  /**
   * Appending key x at the end of the array (the next leaf of the tree) inserts
   * x into the ascending view at rank Rank(|c|, |c| + 1); nothing else moves.
   */
  lemma InOrderAppend(c: seq<int>, x: int)
    ensures Rank(|c|, |c| + 1) <= |c|
    ensures InOrder(c + [x]) == InOrder(c)[..Rank(|c|, |c| + 1)] + [x] + InOrder(c)[Rank(|c|, |c| + 1)..]
  {
    var n := |c|;
    var d := c + [x];
    IndexOfRankAppend(n, 0);
    var q := Rank(n, n + 1);
    var s, t := InOrder(c), InOrder(d);
    var u := s[..q] + [x] + s[q..];
    forall k | 0 <= k < n + 1 ensures t[k] == u[k] {
      IndexOfRankAppend(n, k);
    }
  }

  /** The ascending view is a permutation of the array. */
  lemma {:induction false} InOrderPermutes(c: seq<int>)
    ensures multiset(InOrder(c)) == multiset(c)
    decreases |c|
  {
    if c != [] {
      var n := |c| - 1;
      var b, x := c[..n], c[n];
      assert c == b + [x];
      InOrderPermutes(b);
      InOrderAppend(b, x);
      var q := Rank(n, n + 1);
      SplicePermutes(InOrder(b), q, x);
    }
  }

  /** Inserting x at position q adds x to the multiset of a sequence. */
  lemma SplicePermutes(s: seq<int>, q: nat, x: int)
    requires q <= |s|
    ensures multiset(s[..q] + [x] + s[q..]) == multiset(s) + multiset{x}
  {
    assert s == s[..q] + s[q..];
  }

  /** Layout is a permutation of its input. */
  lemma LayoutPermutes(s: seq<int>)
    ensures multiset(Layout(s)) == multiset(s)
  {
    InOrderOfLayout(s);
    InOrderPermutes(Layout(s));
  }

  /** For one or no element the level order is the ascending order. */
  lemma LayoutSmall(s: seq<int>)
    requires |s| <= 1
    ensures Layout(s) == s
  {
    if |s| == 1 {
      assert Rank(0, 1) == Lo(0, 1) + Size(1, 1);
    }
  }

  // ---------------------------------------------------------------- one level of leaves

  /**
   * When node n is appended, an old node keeps its rank if it comes before
   * the new node in ascending order, and moves up by one otherwise.
   */
  lemma RankAppendShift(j: nat, n: nat)
    requires j < n
    ensures Rank(n, n + 1) <= n
    ensures Rank(j, n) < Rank(n, n + 1) ==> Rank(j, n + 1) == Rank(j, n)
    ensures Rank(j, n) >= Rank(n, n + 1) ==> Rank(j, n + 1) == Rank(j, n) + 1
  {
    var r := Rank(j, n);
    IndexOfRankOfIndex(j, n);
    IndexOfRankAppend(n, 0);
    if r < Rank(n, n + 1) {
      IndexOfRankAppend(n, r);
      RankOfIndexOfRank(r, n + 1);
    } else {
      IndexOfRankAppend(n, r + 1);
      RankOfIndexOfRank(r + 1, n + 1);
    }
  }

  /** 2 to the power l: the number of node slots on level l. */
  function Pow2(l: nat): (p: nat)
    ensures p >= 1
  {
    if l == 0 then 1 else 2 * Pow2(l - 1)
  }

  /** i is the first node of its level: the root, or the left child of such a node. */
  predicate Leftmost(i: nat)
    decreases i
  {
    i == 0 || (IsLeftChild(i) && i > 0 && Leftmost(Parent(i)))
  }

  /** The first node of a level has no node before its subtree. */
  lemma {:induction false} LoOfLeftmost(i: nat, n: nat)
    requires Leftmost(i)
    ensures Lo(i, n) == 0
    decreases i
  {
    if i > 0 {
      ParentChild(i);
      LoOfLeftmost(Parent(i), n);
    }
  }

  /**
   * Two neighbours on one level: exactly one node of the tree (their nearest
   * common ancestor) lies between the subtree of i - 1 and the subtree of i.
   */
  lemma {:induction false} LoOfNeighbour(i: nat, n: nat)
    requires i < n && !Leftmost(i)
    ensures i > 0 && Lo(i, n) == Lo(i - 1, n) + Size(i - 1, n) + 1
    decreases i
  {
    var p := Parent(i);
    ParentChild(i);
    if IsLeftChild(i) {
      LoOfNeighbour(p, n);
      LoOfLeftNeighbour(i, n, p, p - 1);
    } else {
      LoOfRightNeighbour(i, n, p);
    }
  }

  /** LoOfNeighbour for a left child i of p, given the lemma for p and its left neighbour q. */
  lemma LoOfLeftNeighbour(i: nat, n: nat, p: nat, q: nat)
    requires i < n && 0 < p && q == p - 1 && i == Left(p)
    requires Lo(p, n) == Lo(q, n) + Size(q, n) + 1
    ensures Lo(i, n) == Lo(i - 1, n) + Size(i - 1, n) + 1
  {
    var j := i - 1;
    assert j == Right(q);
    var lp, lq := Lo(p, n), Lo(q, n);
    var sq, sl, sr := Size(q, n), Size(Left(q), n), Size(Right(q), n);
    assert Lo(i, n) == lp by { LoOfChildren(p, n); }
    assert Lo(j, n) == lq + sl + 1 by { LoOfChildren(q, n); }
    assert sq == 1 + sl + sr by { SizeNode(q, n); }
    assert Size(j, n) == sr;
  }

  /** LoOfNeighbour for a right child i of p: its neighbour is its sibling. */
  lemma LoOfRightNeighbour(i: nat, n: nat, p: nat)
    requires i == Right(p)
    ensures Lo(i, n) == Lo(i - 1, n) + Size(i - 1, n) + 1
  {
    var l := Left(p);
    assert l == i - 1;
    LoOfChildren(p, n);
  }

  /** Appending the first node of a level gives it rank 0. */
  lemma LeftmostRank(i: nat)
    requires Leftmost(i)
    ensures Rank(i, i + 1) == 0
  {
    LoOfLeftmost(i, i + 1);
  }

  /** Appending the next node of a level puts it two ranks after the node appended before it. */
  lemma NewLeafRank(i: nat)
    requires !Leftmost(i)
    ensures i > 0 && Rank(i, i + 1) == Rank(i - 1, i) + 2
  {
    LoOfNeighbour(i, i + 1);
    assert i != 1 by {
      ChildParent(0);
    }
    assert Size(i - 1, i + 1) == 1;
    RankAppendShift(i - 1, i);
  }

  /** Node 2^l - 1 + j is the first of its level exactly when j == 0. */
  lemma {:induction false} LevelLeftmost(l: nat, j: nat)
    requires j < Pow2(l)
    ensures Leftmost(Pow2(l) - 1 + j) <==> j == 0
  {
    if l > 0 {
      var i, h := Pow2(l) - 1 + j, Half(j);
      var p := Pow2(l - 1) - 1 + h;
      if j == 2 * h {
        assert i == Left(p);
        ChildParent(p);
        LevelLeftmost(l - 1, h);
      } else {
        assert i == Right(p);
        ChildParent(p);
      }
    }
  }

  /**
   * Appending the nodes of level l one by one, left to right, the j-th of them
   * lands at rank 2j: the leaves alternate with the nodes above them.
   */
  lemma {:induction false} LeafRank(l: nat, j: nat)
    requires j < Pow2(l)
    ensures Rank(Pow2(l) - 1 + j, Pow2(l) + j) == 2 * j
  {
    LevelLeftmost(l, j);
    if j == 0 {
      LeftmostRank(Pow2(l) - 1);
    } else {
      NewLeafRank(Pow2(l) - 1 + j);
      LeafRank(l, j - 1);
    }
  }
}
