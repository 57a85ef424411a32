/**
 * stdext::flat_set over int keys with std::less, in its level-order variant:
 * the unique keys live in one vector c_ laid out as an implicit complete
 * binary search tree. The ascending view InOrder(c) is the sequence the
 * iterators visit; the class invariant is that it is strictly increasing.
 */
module LevelOrderSet {
  import opened Eytzinger
  import opened Shuffle
  import opened LevelOrder
  import opened TreeIter

  // ---------------------------------------------------------------- search bounds

  /** Whether key x comes before the bound for t: lower_bound asks x < t, upper_bound asks x <= t. */
  predicate Precedes(x: int, t: int, upper: bool)
  {
    if upper then x <= t else x < t
  }

  /** Every key of v before position p precedes the bound. */
  predicate PrefixPrecedes(v: seq<int>, t: int, upper: bool, p: nat)
  {
    forall k | 0 <= k < p && k < |v| :: Precedes(v[k], t, upper)
  }

  /** No key of v from position p on precedes the bound. */
  predicate SuffixFollows(v: seq<int>, t: int, upper: bool, p: nat)
  {
    forall k | p <= k < |v| :: !Precedes(v[k], t, upper)
  }

  /**
   * p is the bound for t in ascending v: the first key not less than t
   * (lower_bound) or the first key greater than t (upper_bound); |v| if none.
   */
  predicate IsBound(v: seq<int>, t: int, upper: bool, p: nat)
  {
    p <= |v| && PrefixPrecedes(v, t, upper, p) && SuffixFollows(v, t, upper, p)
  }

  /** Reference definition of the bound: the number of keys that precede it. */
  function CountPreceding(v: seq<int>, t: int, upper: bool): (k: nat)
    ensures k <= |v|
  {
    if v == [] then 0
    else (if Precedes(v[0], t, upper) then 1 else 0) + CountPreceding(v[1..], t, upper)
  }

  /** On a sorted sequence the bound exists: it is the number of preceding keys. */
  lemma {:induction false} BoundExists(v: seq<int>, t: int, upper: bool)
    requires Sorted(v)
    ensures IsBound(v, t, upper, CountPreceding(v, t, upper))
  {
    if v != [] {
      var w := v[1..];
      assert Sorted(w);
      BoundExists(w, t, upper);
      var c := CountPreceding(w, t, upper);
      if Precedes(v[0], t, upper) {
        forall k | 0 <= k < c + 1 && k < |v| ensures Precedes(v[k], t, upper) {
          if k > 0 {
            assert v[k] == w[k - 1];
          }
        }
        forall k | c + 1 <= k < |v| ensures !Precedes(v[k], t, upper) {
          assert v[k] == w[k - 1];
        }
      } else {
        if w != [] {
          assert v[0] <= w[0];
        }
        forall k | 0 <= k < |v| ensures !Precedes(v[k], t, upper) {
          if k > 0 {
            assert v[k] == w[k - 1];
          }
        }
      }
    }
  }

  /** The bound is unique. */
  lemma BoundUnique(v: seq<int>, t: int, upper: bool, p: nat, p': nat)
    requires IsBound(v, t, upper, p) && IsBound(v, t, upper, p')
    ensures p == p'
  {
    if p < |v| {
      assert !Precedes(v[p], t, upper);
    }
    if p' < |v| {
      assert !Precedes(v[p'], t, upper);
    }
  }

  /** In ascending v, t is a key exactly when the lower bound for t holds t. */
  lemma LowerBoundHolds(v: seq<int>, t: int, p: nat)
    requires StrictlyIncreasing(v) && IsBound(v, t, false, p)
    ensures t in v <==> p < |v| && v[p] == t
  {
    if t in v {
      var k :| 0 <= k < |v| && v[k] == t;
      assert p <= k;
      assert t <= v[p];
    }
  }

  /**
   * The state of the descent at node x: keys of ranks below the subtree of x
   * precede the bound, keys of ranks past it do not.
   */
  ghost predicate Bracketed(c: seq<int>, t: int, upper: bool, x: nat)
  {
    PrefixPrecedes(InOrder(c), t, upper, Lo(x, |c|))
    && SuffixFollows(InOrder(c), t, upper, Lo(x, |c|) + Size(x, |c|))
  }

  /** The descent starts at the root, whose subtree spans every rank. */
  lemma BracketRoot(c: seq<int>, t: int, upper: bool)
    ensures Bracketed(c, t, upper, 0)
  {
    RootRange(|c|);
  }

  /** A key at x that precedes the bound makes every rank up to Rank(x) precede it. */
  lemma PrecedingUpTo(c: seq<int>, t: int, upper: bool, x: nat, r: nat)
    requires StrictlyIncreasing(InOrder(c)) && x < |c| && Precedes(c[x], t, upper) && r == Rank(x, |c|)
    requires PrefixPrecedes(InOrder(c), t, upper, Lo(x, |c|))
    ensures PrefixPrecedes(InOrder(c), t, upper, r + 1)
  {
    InOrderRank(c, x);
    PrefixExtends(InOrder(c), t, upper, Lo(x, |c|), r);
  }

  /** In an increasing sequence, a prefix that precedes the bound extends to any later key that does. */
  lemma PrefixExtends(v: seq<int>, t: int, upper: bool, lo: nat, r: nat)
    requires StrictlyIncreasing(v) && lo <= r < |v| && Precedes(v[r], t, upper)
    requires PrefixPrecedes(v, t, upper, lo)
    ensures PrefixPrecedes(v, t, upper, r + 1)
  {
    forall k | 0 <= k < r + 1 && k < |v| ensures Precedes(v[k], t, upper) {
      if lo <= k < r {
        assert v[k] < v[r];
      }
    }
  }

  /** A key at x that does not precede the bound makes no rank from Rank(x) on precede it. */
  lemma FollowingFrom(c: seq<int>, t: int, upper: bool, x: nat, r: nat)
    requires StrictlyIncreasing(InOrder(c)) && x < |c| && !Precedes(c[x], t, upper) && r == Rank(x, |c|)
    ensures SuffixFollows(InOrder(c), t, upper, r)
  {
    InOrderRank(c, x);
    SuffixFrom(InOrder(c), t, upper, r);
  }

  /** In an increasing sequence, no key from a key that does not precede the bound on precedes it. */
  lemma SuffixFrom(v: seq<int>, t: int, upper: bool, r: nat)
    requires StrictlyIncreasing(v) && r < |v| && !Precedes(v[r], t, upper)
    ensures SuffixFollows(v, t, upper, r)
  {
    forall k | r <= k < |v| ensures !Precedes(v[k], t, upper) {
      if k > r {
        assert v[r] < v[k];
      }
    }
  }

  /** Stepping to the right child when the key at x precedes the bound. */
  lemma BracketRight(c: seq<int>, t: int, upper: bool, x: nat)
    requires StrictlyIncreasing(InOrder(c)) && Right(x) < |c| && Precedes(c[x], t, upper)
    requires Bracketed(c, t, upper, x)
    ensures Bracketed(c, t, upper, Right(x))
  {
    var n := |c|;
    RightSubtreeStart(x, n);
    RightStep(x, n);
    PrecedingUpTo(c, t, upper, x, Rank(x, n));
  }

  /** Stepping to the left child when the key at x does not precede the bound. */
  lemma BracketLeft(c: seq<int>, t: int, upper: bool, x: nat)
    requires StrictlyIncreasing(InOrder(c)) && x < |c| && Left(x) < |c| && !Precedes(c[x], t, upper)
    requires Bracketed(c, t, upper, x)
    ensures Bracketed(c, t, upper, Left(x))
  {
    var n := |c|;
    LeftSubtreeEnd(x, n);
    LeftStep(x, n);
    FollowingFrom(c, t, upper, x, Rank(x, n));
  }

  /** Falling off a node without a right child whose key precedes the bound: the bound is the next rank. */
  lemma BoundAfter(c: seq<int>, t: int, upper: bool, x: nat)
    requires StrictlyIncreasing(InOrder(c)) && x < |c| <= Right(x) && Precedes(c[x], t, upper)
    requires Bracketed(c, t, upper, x)
    ensures IsBound(InOrder(c), t, upper, Rank(x, |c|) + 1)
  {
    var n := |c|;
    NoRightChild(x, n);
    InOrderRank(c, x);
    PrecedingUpTo(c, t, upper, x, Rank(x, n));
  }

  /** Falling off a node without a left child whose key does not precede the bound: the bound is its rank. */
  lemma BoundAt(c: seq<int>, t: int, upper: bool, x: nat)
    requires StrictlyIncreasing(InOrder(c)) && x < |c| <= Left(x) && !Precedes(c[x], t, upper)
    requires Bracketed(c, t, upper, x)
    ensures IsBound(InOrder(c), t, upper, Rank(x, |c|))
  {
    var n := |c|;
    NoLeftChild(x, n);
    InOrderRank(c, x);
    FollowingFrom(c, t, upper, x, Rank(x, n));
  }

  // ---------------------------------------------------------------- splicing the ascending view

  /** The ascending view with t placed at position p. */
  function InsertAt(v: seq<int>, p: nat, t: int): (r: seq<int>)
    requires p <= |v|
    ensures |r| == |v| + 1 && r[p] == t
    ensures r[..p] == v[..p] && r[p + 1..] == v[p..]
  {
    v[..p] + [t] + v[p..]
  }

  /** The ascending view without the key at position p. */
  function RemoveAt(v: seq<int>, p: nat): (r: seq<int>)
    requires p < |v|
    ensures |r| == |v| - 1
    ensures r[..p] == v[..p] && r[p..] == v[p + 1..]
  {
    v[..p] + v[p + 1..]
  }

  /** Removing undoes inserting, and inserting the removed key undoes removing. */
  lemma RemoveInsert(v: seq<int>, p: nat, t: int)
    requires p <= |v|
    ensures RemoveAt(InsertAt(v, p, t), p) == v
    ensures p < |v| ==> InsertAt(RemoveAt(v, p), p, v[p]) == v
  {
    var w := InsertAt(v, p, t);
    assert RemoveAt(w, p) == w[..p] + w[p + 1..];
    assert v == v[..p] + v[p..];
    if p < |v| {
      var u := RemoveAt(v, p);
      assert InsertAt(u, p, v[p]) == u[..p] + [v[p]] + u[p..];
      assert v == v[..p] + [v[p]] + v[p + 1..];
    }
  }

  /** Placing t at its lower bound keeps an ascending view strictly increasing and adds exactly t. */
  lemma InsertKeepsIncreasing(v: seq<int>, p: nat, t: int)
    requires StrictlyIncreasing(v) && IsBound(v, t, false, p) && (p == |v| || t < v[p])
    ensures StrictlyIncreasing(InsertAt(v, p, t))
    ensures forall x :: x in InsertAt(v, p, t) <==> x in v || x == t
  {
    var w := InsertAt(v, p, t);
    forall i, j | 0 <= i < j < |w| ensures w[i] < w[j] {
      if j < p {
        assert w[i] == v[i] && w[j] == v[j];
      } else if j == p {
        assert w[i] == v[i];
      } else if i < p {
        assert w[i] == v[i] && w[j] == v[j - 1];
      } else if i == p {
        assert w[j] == v[j - 1];
        assert v[p] <= v[j - 1];
      } else {
        assert w[i] == v[i - 1] && w[j] == v[j - 1];
      }
    }
    assert w == v[..p] + [t] + v[p..];
    assert v == v[..p] + v[p..];
  }

  /** Removing a key keeps an ascending view strictly increasing and drops exactly that key. */
  lemma RemoveKeepsIncreasing(v: seq<int>, p: nat)
    requires StrictlyIncreasing(v) && p < |v|
    ensures StrictlyIncreasing(RemoveAt(v, p))
    ensures forall x :: x in RemoveAt(v, p) <==> x in v && x != v[p]
  {
    var w := RemoveAt(v, p);
    forall i, j | 0 <= i < j < |w| ensures w[i] < w[j] {
      if j < p {
        assert w[i] == v[i] && w[j] == v[j];
      } else if i < p {
        assert w[i] == v[i] && w[j] == v[j + 1];
      } else {
        assert w[i] == v[i + 1] && w[j] == v[j + 1];
      }
    }
    assert w == v[..p] + v[p + 1..];
    assert v == v[..p] + [v[p]] + v[p + 1..];
    forall x | x in v && x != v[p] ensures x in w {
      var k :| 0 <= k < |v| && v[k] == x;
      if k < p {
        assert w[k] == x;
      } else {
        assert w[k - 1] == x;
      }
    }
  }

  /**
   * std::rotate over the set's iterators from ascending position f to l with
   * middle m: the keys of those ranks rotate in ascending order and every
   * other tree node keeps its key.
   */
  function RotateByRank(c: seq<int>, f: nat, m: nat, l: nat): (r: seq<int>)
    requires f <= m <= l <= |c|
    ensures |r| == |c|
    ensures InOrder(r) == Rotated(InOrder(c), f, m, l)
  {
    InOrderOfLayout(Rotated(InOrder(c), f, m, l));
    Layout(Rotated(InOrder(c), f, m, l))
  }

  /** Nodes whose rank is outside [f, l) keep their key under RotateByRank. */
  lemma RotateByRankFrame(c: seq<int>, f: nat, m: nat, l: nat, i: nat)
    requires f <= m <= l <= |c| && i < |c| && !(f <= Rank(i, |c|) < l)
    ensures RotateByRank(c, f, m, l)[i] == c[i]
  {
    var v, r := InOrder(c), Rank(i, |c|);
    InOrderRank(c, i);
    var w := Rotated(v, f, m, l);
    assert w[r] == v[r] by {
      RotatedOutside(v, f, m, l, r);
    }
    assert Layout(w)[i] == w[r];
  }

  /** Positions outside [f, l) keep their key under a rotation. */
  lemma RotatedOutside(s: seq<int>, f: nat, m: nat, l: nat, j: nat)
    requires f <= m <= l <= |s| && j < |s| && !(f <= j < l)
    ensures Rotated(s, f, m, l)[j] == s[j]
  {
    if j < f {
      assert Rotated(s, f, m, l)[j] == s[..f][j];
    } else {
      assert Rotated(s, f, m, l)[j] == s[l..][j - l];
    }
  }

  /** private_impl_emplace, new key at or above its place: rotate it down from rank q to rank p. */
  lemma RotateNewKeyDown(v: seq<int>, t: int, p: nat, q: nat)
    requires p <= q <= |v|
    ensures Rotated(InsertAt(v, q, t), p, q, q + 1) == InsertAt(v, p, t)
  {
    var a, b, d := v[..p], v[p..q], v[q..];
    ThreeBlocks(v, p, q);
    InsertBetween(v, t, a, b, d);
    RotatedBlocks(a, b, [t], d);
  }

  /** private_impl_emplace, new key below its place: rotate it up from rank q to rank p. */
  lemma RotateNewKeyUp(v: seq<int>, t: int, p: nat, q: nat)
    requires q < p <= |v|
    ensures Rotated(InsertAt(v, q, t), q, q + 1, p + 1) == InsertAt(v, p, t)
  {
    var a, b, d := v[..q], v[q..p], v[p..];
    ThreeBlocks(v, q, p);
    InsertBetween(v, t, a, b, d);
    RotatedBlocks(a, [t], b, d);
  }

  /** erase(position), victim at or above the last leaf's rank q: rotate it down to rank q. */
  lemma RotateVictimDown(v: seq<int>, p: nat, q: nat)
    requires q <= p < |v|
    ensures Rotated(v, q, p, p + 1) == InsertAt(RemoveAt(v, p), q, v[p])
  {
    var a, b, d := v[..q], v[q..p], v[p + 1..];
    BlocksAroundKey(v, q, p);
    MoveKeyDown(v, v[p], a, b, d);
    RotatedBlocks(a, b, [v[p]], d);
  }

  /** erase(position), victim below the last leaf's rank q: rotate it up to rank q. */
  lemma RotateVictimUp(v: seq<int>, p: nat, q: nat)
    requires p < q < |v|
    ensures Rotated(v, p, p + 1, q + 1) == InsertAt(RemoveAt(v, p), q, v[p])
  {
    var a, b, d := v[..p], v[p + 1..q + 1], v[q + 1..];
    KeyBeforeBlocks(v, p, q);
    MoveKeyUp(v, v[p], a, b, d);
    RotatedBlocks(a, [v[p]], b, d);
  }

  /** v cut at i and around the key at j. */
  lemma BlocksAroundKey(v: seq<int>, i: nat, j: nat)
    requires i <= j < |v|
    ensures v == v[..i] + v[i..j] + [v[j]] + v[j + 1..]
  {
  }

  /** v cut around the key at i and after j. */
  lemma KeyBeforeBlocks(v: seq<int>, i: nat, j: nat)
    requires i < j < |v|
    ensures v == v[..i] + [v[i]] + v[i + 1..j + 1] + v[j + 1..]
  {
  }

  /** Inserting between blocks a, b and d. */
  lemma InsertBetween(v: seq<int>, t: int, a: seq<int>, b: seq<int>, d: seq<int>)
    requires v == a + b + d
    ensures InsertAt(v, |a|, t) == a + [t] + b + d
    ensures InsertAt(v, |a| + |b|, t) == a + b + [t] + d
  {
    assert v[..|a|] == a && v[|a|..] == b + d;
    assert v[..|a| + |b|] == a + b && v[|a| + |b|..] == d;
  }

  /** Taking key x out from behind block b and putting it back in front of b. */
  lemma MoveKeyDown(v: seq<int>, x: int, a: seq<int>, b: seq<int>, d: seq<int>)
    requires v == a + b + [x] + d
    ensures InsertAt(RemoveAt(v, |a| + |b|), |a|, x) == a + [x] + b + d
  {
    var u := RemoveAt(v, |a| + |b|);
    assert u == a + (b + d) by {
      assert v[..|a| + |b|] == a + b && v[|a| + |b| + 1..] == d;
    }
    assert u[..|a|] == a && u[|a|..] == b + d;
  }

  /** Taking key x out from in front of block b and putting it back behind b. */
  lemma MoveKeyUp(v: seq<int>, x: int, a: seq<int>, b: seq<int>, d: seq<int>)
    requires v == a + [x] + b + d
    ensures InsertAt(RemoveAt(v, |a|), |a| + |b|, x) == a + b + [x] + d
  {
    var u := RemoveAt(v, |a|);
    assert u == (a + b) + d by {
      assert v[..|a|] == a && v[|a| + 1..] == b + d;
    }
    assert u[..|a| + |b|] == a + b && u[|a| + |b|..] == d;
  }

  /** push_back: the new last node takes rank q = Rank(n, n + 1) of the ascending view. */
  lemma InOrderPush(c: seq<int>, t: int, q: nat)
    requires q == Rank(|c|, |c| + 1)
    ensures q <= |c| && InOrder(c + [t]) == InsertAt(InOrder(c), q, t)
  {
    InOrderAppend(c, t);
  }

  /** pop_back: dropping the last node removes rank Rank(n - 1, n) from the ascending view. */
  lemma InOrderPop(c: seq<int>, u: seq<int>, q: nat, x: int)
    requires |c| > 0 && q == Rank(|c| - 1, |c|) && q <= |u| && InOrder(c) == InsertAt(u, q, x)
    ensures InOrder(c[..|c| - 1]) == u
  {
    var d := c[..|c| - 1];
    InOrderRank(c, |c| - 1);
    assert c == d + [x];
    InOrderPush(d, x, q);
    RemoveInsert(InOrder(d), q, x);
    RemoveInsert(u, q, x);
  }

  /** Dropping k keys from position p of a view that already lost i keys there. */
  lemma RemoveMore(v: seq<int>, p: nat, i: nat)
    requires p + i < |v|
    ensures RemoveAt(v[..p] + v[p + i..], p) == v[..p] + v[p + i + 1..]
  {
    var w := v[..p] + v[p + i..];
    assert w[..p] == v[..p];
    assert w[p + 1..] == v[p + i + 1..];
  }

  /**
   * private_impl_emplace after push_back: with p the lower bound of an absent
   * key t and q the rank of the new last node, the two-way rotation yields the
   * ascending view with t at p.
   */
  lemma EmplaceStep(c0: seq<int>, t: int, p: nat, q: nat, c1: seq<int>)
    requires StrictlyIncreasing(InOrder(c0)) && IsBound(InOrder(c0), t, false, p) && t !in c0
    requires q == Rank(|c0|, |c0| + 1) && p <= |c0| && q <= |c0|
    requires p <= q ==> c1 == RotateByRank(c0 + [t], p, q, q + 1)
    requires q < p ==> c1 == RotateByRank(c0 + [t], q, q + 1, p + 1)
    ensures InOrder(c1) == InsertAt(InOrder(c0), p, t)
    ensures StrictlyIncreasing(InOrder(c1))
    ensures forall x :: x in c1 <==> x in c0 || x == t
  {
    var v := InOrder(c0);
    assert p == |c0| || t < v[p] by {
      LowerBoundHolds(v, t, p);
      InOrderMembers(c0, t);
    }
    InOrderPush(c0, t, q);
    if p <= q {
      assert InOrder(c1) == InsertAt(v, p, t) by {
        RotateNewKeyDown(v, t, p, q);
      }
    } else {
      assert InOrder(c1) == InsertAt(v, p, t) by {
        RotateNewKeyUp(v, t, p, q);
      }
    }
    InsertKeepsIncreasing(v, p, t);
    forall x ensures x in c1 <==> x in c0 || x == t {
      InOrderMembers(c1, x);
      InOrderMembers(c0, x);
    }
  }

  /**
   * erase(position) up to pop_back: with p the victim's rank and q the rank of
   * the last node, the two-way rotation moves the victim into the last node,
   * and dropping that node leaves the ascending view without the victim.
   */
  lemma EraseStep(c0: seq<int>, p: nat, q: nat, c1: seq<int>, c2: seq<int>)
    requires StrictlyIncreasing(InOrder(c0)) && p < |c0| && q == Rank(|c0| - 1, |c0|) && q < |c0|
    requires q <= p ==> c1 == RotateByRank(c0, q, p, p + 1)
    requires p < q ==> c1 == RotateByRank(c0, p, p + 1, q + 1)
    requires c2 == c1[..|c0| - 1]
    ensures InOrder(c2) == RemoveAt(InOrder(c0), p)
    ensures StrictlyIncreasing(InOrder(c2))
  {
    var v := InOrder(c0);
    IndexOfRankOfIndex(|c0| - 1, |c0|);
    if q <= p {
      assert InOrder(c1) == InsertAt(RemoveAt(v, p), q, v[p]) by {
        RotateVictimDown(v, p, q);
      }
    } else {
      assert InOrder(c1) == InsertAt(RemoveAt(v, p), q, v[p]) by {
        RotateVictimUp(v, p, q);
      }
    }
    InOrderPop(c1, RemoveAt(v, p), q, v[p]);
    RemoveKeepsIncreasing(v, p);
  }

  /**
   * The rotation step of erase(position) on the level-order vector c: from
   * the rank of position and the rank of the last node, whichever is smaller,
   * rotate the victim along the ascending order into the last node.
   */
  method RotateVictimToLast(c: seq<int>, pos: Iter) returns (c1: seq<int>, p: nat, q: nat)
    requires pos.n == |c| && pos.index < |c|
    ensures p == Position(pos) && p < |c| && q == Rank(|c| - 1, |c|) && q < |c|
    ensures q <= p ==> c1 == RotateByRank(c, q, p, p + 1)
    ensures p < q ==> c1 == RotateByRank(c, p, p + 1, q + 1)
  {
    var n := |c|;
    var b := TreeIter.Begin(n);
    var count := Distance(pos, b);
    var first := Iter(n - 1, n);
    var nfirst := Advance(b, count);
    q, p := Position(first), Position(nfirst);
    if Distance(first, nfirst) <= 0 {
      c1 := RotateByRank(c, q, p, p + 1);
    } else {
      c1 := RotateByRank(c, p, p + 1, q + 1);
    }
  }

  // ---------------------------------------------------------------- the set

  class FlatSet {
    /** c_: the keys in level order. */
    var c: seq<int>

    /** The class invariant: the in-order walk visits strictly increasing keys. */
    ghost predicate Valid()
      reads this
    {
      StrictlyIncreasing(InOrder(c))
    }

    /** flat_set(): the empty set. */
    constructor ()
      ensures Valid() && c == []
    {
      c := [];
    }

    /** flat_set(KeyContainer) and flat_set(first, last): sort, drop duplicates, lay out. */
    constructor FromKeys(keys: seq<int>)
      ensures Valid()
      ensures InOrder(c) == Survivors(SortSeq(keys))
      ensures forall x :: x in c <==> x in keys
    {
      var r := SortAndUniqueAndLevelorder(keys);
      c := r;
    }

    /**
     * flat_set(sorted_unique, KeyContainer): only lays out. The caller promises
     * strictly increasing keys; the ascending view is the input whatever it is.
     */
    constructor FromSortedUnique(keys: seq<int>)
      ensures InOrder(c) == keys
      ensures Valid() <==> StrictlyIncreasing(keys)
    {
      var a := new int[|keys|](i requires 0 <= i < |keys| => keys[i]);
      assert a[..a.Length] == keys;
      MakeLevelorderFromSorted(a, a.Length);
      c := a[..];
      InOrderOfLayout(keys);
    }

    /** size() */
    function Size(): (n: nat)
      reads this
      ensures n == |InOrder(c)|
    {
      |c|
    }

    /** empty() */
    predicate IsEmpty()
      reads this
      ensures IsEmpty() <==> InOrder(c) == []
    {
      |c| == 0
    }

    /** begin(): the first key in ascending order, or end for an empty set. */
    method Begin() returns (it: Iter)
      ensures it == AtRank(0, |c|)
    {
      it := TreeIter.Begin(|c|);
    }

    /** end() */
    function EndIter(): (it: Iter)
      reads this
      ensures TreeIter.Valid(it) && Position(it) == |c| && it.index == |c|
    {
      TreeIter.End(|c|)
    }

    /** lower_bound(t): descend from the root; falling off to the right ends with std::next. */
    method LowerBound(t: int) returns (it: Iter)
      requires Valid()
      ensures TreeIter.Valid(it) && it.n == |c|
      ensures IsBound(InOrder(c), t, false, Position(it))
    {
      var n := |c|;
      if n == 0 {
        return TreeIter.End(0);
      }
      var x: nat := 0;
      BracketRoot(c, t, false);
      while true
        invariant x < n && Bracketed(c, t, false, x)
        decreases n - x
      {
        if c[x] < t {
          if Right(x) < n {
            BracketRight(c, t, false, x);
            x := Right(x);
          } else {
            BoundAfter(c, t, false, x);
            it := Increment(Iter(x, n));
            return;
          }
        } else {
          if Left(x) < n {
            BracketLeft(c, t, false, x);
            x := Left(x);
          } else {
            BoundAt(c, t, false, x);
            return Iter(x, n);
          }
        }
      }
    }

    /** upper_bound(t): the same descent with the comparison turned round. */
    method UpperBound(t: int) returns (it: Iter)
      requires Valid()
      ensures TreeIter.Valid(it) && it.n == |c|
      ensures IsBound(InOrder(c), t, true, Position(it))
    {
      var n := |c|;
      if n == 0 {
        return TreeIter.End(0);
      }
      var x: nat := 0;
      BracketRoot(c, t, true);
      while true
        invariant x < n && Bracketed(c, t, true, x)
        decreases n - x
      {
        if t < c[x] {
          if Left(x) < n {
            BracketLeft(c, t, true, x);
            x := Left(x);
          } else {
            BoundAt(c, t, true, x);
            return Iter(x, n);
          }
        } else {
          if Right(x) < n {
            BracketRight(c, t, true, x);
            x := Right(x);
          } else {
            BoundAfter(c, t, true, x);
            it := Increment(Iter(x, n));
            return;
          }
        }
      }
    }

    /** equal_range(t) */
    method EqualRange(t: int) returns (lo: Iter, hi: Iter)
      requires Valid()
      ensures TreeIter.Valid(lo) && TreeIter.Valid(hi) && lo.n == |c| && hi.n == |c|
      ensures IsBound(InOrder(c), t, false, Position(lo)) && IsBound(InOrder(c), t, true, Position(hi))
    {
      lo := LowerBound(t);
      hi := UpperBound(t);
    }

    /** find(t): the lower bound if it holds t, else end. */
    method Find(t: int) returns (it: Iter)
      requires Valid()
      ensures TreeIter.Valid(it) && it.n == |c|
      ensures it.index < |c| <==> t in c
      ensures it.index < |c| ==> c[it.index] == t
    {
      var lb := LowerBound(t);
      var n := |c|;
      ghost var p := Position(lb);
      LowerBoundHolds(InOrder(c), t, p);
      InOrderMembers(c, t);
      if lb.index < n {
        InOrderRank(c, lb.index);
      }
      if lb.index == n || t < c[lb.index] {
        return TreeIter.End(n);
      }
      return lb;
    }

    /** contains(t) */
    method Contains(t: int) returns (b: bool)
      requires Valid()
      ensures b <==> t in c
    {
      var it := Find(t);
      b := it.index != |c|;
    }

    /** count(t): 1 for a key of the set, else 0. */
    method Count(t: int) returns (k: nat)
      requires Valid()
      ensures k <= 1 && (k == 1 <==> t in c)
    {
      var b := Contains(t);
      k := if b then 1 else 0;
    }

    /**
     * insert(t) through private_impl_emplace: a new key is appended as the last
     * node and rotated along the ascending order to its lower bound.
     */
    method Insert(t: int) returns (it: Iter, inserted: bool)
      requires Valid()
      modifies this
      ensures Valid()
      ensures TreeIter.Valid(it) && it.n == |c| && it.index < |c| && c[it.index] == t
      ensures inserted <==> t !in old(c)
      ensures !inserted ==> c == old(c)
      ensures inserted ==> IsBound(old(InOrder(c)), t, false, Position(it))
      ensures inserted ==> InOrder(c) == InsertAt(old(InOrder(c)), Position(it), t)
      ensures forall x :: x in c <==> x in old(c) || x == t
    {
      var lb := LowerBound(t);
      ghost var p := Position(lb);
      var absent := lb.index == |c| || t < c[lb.index];
      assert absent <==> t !in c by {
        LowerBoundHolds(InOrder(c), t, p);
        InOrderMembers(c, t);
        if lb.index < |c| {
          InOrderRank(c, lb.index);
        }
      }
      if absent {
        it := Emplace(t, lb);
        inserted := true;
      } else {
        assert c[lb.index] == t by {
          InOrderRank(c, lb.index);
        }
        it, inserted := lb, false;
      }
    }

    /**
     * The branch of private_impl_emplace that adds t at its lower bound lb:
     * push_back, then rotate between the lower bound's rank and the new last
     * node's rank, whichever comes first.
     */
    method Emplace(t: int, lb: Iter) returns (it: Iter)
      requires Valid() && t !in c && TreeIter.Valid(lb) && lb.n == |c|
      requires IsBound(InOrder(c), t, false, Position(lb))
      modifies this
      ensures Valid()
      ensures TreeIter.Valid(it) && it.n == |c| && it.index < |c| && c[it.index] == t
      ensures Position(it) == Position(lb)
      ensures InOrder(c) == InsertAt(old(InOrder(c)), Position(it), t)
      ensures forall x :: x in c <==> x in old(c) || x == t
    {
      var c0 := c;
      var n := |c0|;
      var b := TreeIter.Begin(n);
      var count := Distance(lb, b);
      var c1 := c0 + [t];
      var b1 := TreeIter.Begin(n + 1);
      var first := Advance(b1, count);
      var nfirst := Iter(n, n + 1);
      var p, q := Position(first), Position(nfirst);
      var c2;
      if Distance(first, nfirst) <= 0 {
        c2 := RotateByRank(c1, p, q, q + 1);
      } else {
        c2 := RotateByRank(c1, q, q + 1, p + 1);
      }
      EmplaceStep(c0, t, p, q, c2);
      assert c2[first.index] == t by {
        RankOfIndexOfRank(p, n + 1);
        InOrderRank(c2, first.index);
      }
      c := c2;
      it := first;
    }

    /** insert(first, last) and insert(initializer_list): one insert per key, in order. */
    method InsertRange(keys: seq<int>)
      requires Valid()
      modifies this
      ensures Valid()
      ensures forall x :: x in c <==> x in old(c) || x in keys
    {
      var i := 0;
      while i < |keys|
        invariant 0 <= i <= |keys| && Valid()
        invariant forall x :: x in c <==> x in old(c) || x in keys[..i]
      {
        assert keys[..i + 1] == keys[..i] + [keys[i]];
        var _, _ := Insert(keys[i]);
        i := i + 1;
      }
      assert keys[..i] == keys;
    }

    /** operator=(initializer_list): clear, then insert every key. */
    method Assign(keys: seq<int>)
      modifies this
      ensures Valid()
      ensures forall x :: x in c <==> x in keys
    {
      Clear();
      InsertRange(keys);
    }

    /**
     * erase(position): rotate the victim along the ascending order into the
     * last node, pop it, and return the iterator at the victim's rank.
     */
    method Erase(pos: Iter) returns (next: Iter)
      requires Valid() && pos.n == |c| && pos.index < |c|
      modifies this
      ensures Valid()
      ensures InOrder(c) == RemoveAt(old(InOrder(c)), Position(pos))
      ensures next == AtRank(Position(pos), |c|)
    {
      var c0 := c;
      var n := |c0|;
      var c1, p, q := RotateVictimToLast(c0, pos);
      var c2 := c1[..n - 1];
      EraseStep(c0, p, q, c1, c2);
      c := c2;
      var b2 := TreeIter.Begin(n - 1);
      assert b2.n == n - 1 && Position(b2) == 0;
      next := Advance(b2, p);
      assert next == AtRank(p, n - 1);
    }

    /** erase(t): erase the key if the set holds it; the number of keys erased. */
    method EraseKey(t: int) returns (k: nat)
      requires Valid()
      modifies this
      ensures Valid()
      ensures k == (if t in old(c) then 1 else 0)
      ensures k == 0 ==> c == old(c)
      ensures |c| == old(|c|) - k
      ensures forall x :: x in c <==> x in old(c) && x != t
    {
      ghost var c0 := c;
      ghost var v := InOrder(c);
      var it := Find(t);
      if it.index != |c| {
        InOrderRank(c, it.index);
        var _ := Erase(it);
        RemoveKeepsIncreasing(v, Rank(it.index, |c0|));
        forall x ensures x in c <==> x in c0 && x != t {
          InOrderMembers(c, x);
          InOrderMembers(c0, x);
        }
        return 1;
      }
      return 0;
    }

    /** erase(first, last): erase at first as many times as the distance between them. */
    method EraseRange(first: Iter, last: Iter) returns (r: Iter)
      requires Valid() && TreeIter.Valid(first) && TreeIter.Valid(last)
      requires first.n == |c| && last.n == |c| && Position(first) <= Position(last)
      modifies this
      ensures Valid()
      ensures InOrder(c) == old(InOrder(c))[..Position(first)] + old(InOrder(c))[Position(last)..]
      ensures r == AtRank(Position(first), |c|)
    {
      ghost var v := InOrder(c);
      ghost var p := Position(first);
      var count := Distance(last, first);
      var cur := first;
      assert cur == AtRank(p, |c|) by {
        IndexOfRankOfIndex(first.index, first.n);
      }
      assert v == v[..p] + v[p + 0..];
      ghost var pl := Position(last);
      assert p + count == pl <= |v|;
      var i := 0;
      while i < count
        invariant 0 <= i <= count && Valid() && |c| == |v| - i
        invariant InOrder(c) == v[..p] + v[p + i..]
        invariant cur == AtRank(p, |c|)
      {
        cur := EraseRangeStep(cur, v, p, i);
        i := i + 1;
      }
      assert InOrder(c) == v[..p] + v[pl..];
      r := Reposition(cur);
    }

    /** begin() + (it - begin()): the iterator at the same rank as it. */
    method Reposition(it: Iter) returns (r: Iter)
      requires TreeIter.Valid(it) && it.n == |c|
      ensures r == AtRank(Position(it), |c|)
    {
      var b := Begin();
      assert b.n == |c| && Position(b) == 0 && Distance(it, b) == Position(it);
      r := Advance(b, Distance(it, b));
    }

    /** One turn of erase(first, last): erase the key at rank p, the (i+1)-th removed from the range. */
    method EraseRangeStep(cur: Iter, ghost v: seq<int>, ghost p: nat, i: nat) returns (next: Iter)
      requires Valid() && p + i < |v| && |c| == |v| - i
      requires InOrder(c) == v[..p] + v[p + i..] && cur == AtRank(p, |c|)
      modifies this
      ensures Valid() && |c| == |v| - (i + 1)
      ensures InOrder(c) == v[..p] + v[p + (i + 1)..] && next == AtRank(p, |c|)
    {
      assert Position(cur) == p;
      next := Erase(cur);
      RemoveMore(v, p, i);
    }

    /** clear() */
    method Clear()
      modifies this
      ensures Valid() && c == []
    {
      c := [];
    }

    /** swap(m): exchange the two key vectors. */
    method Swap(other: FlatSet)
      modifies this, other
      ensures c == old(other.c) && other.c == old(c)
    {
      c, other.c := other.c, c;
    }

    /** extract(): hand out the level-order vector and leave the set empty. */
    method Extract() returns (ctr: seq<int>)
      modifies this
      ensures ctr == old(c) && c == []
    {
      ctr := c;
      Clear();
    }

    /** replace(ctr): adopt the vector as given; the caller promises it is in level order. */
    method Replace(ctr: seq<int>)
      modifies this
      ensures c == ctr
    {
      c := ctr;
    }
  }
}
