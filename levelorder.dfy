/**
 * Building the level order in place (flatset_detail in the header):
 * std::rotate, invert_faro_shuffle, make_levelorder_from_sorted,
 * unique_helper, and the sort / de-duplicate / lay out chain that the set's
 * constructors run.
 */
module LevelOrder {
  import opened Eytzinger
  import opened Shuffle

  // ---------------------------------------------------------------- order

  predicate Sorted(s: seq<int>)
  {
    forall i, j :: 0 <= i < j < |s| ==> s[i] <= s[j]
  }

  /** Strictly ascending: sorted with no two equivalent keys. */
  predicate StrictlyIncreasing(s: seq<int>)
  {
    forall i, j :: 0 <= i < j < |s| ==> s[i] < s[j]
  }

  // ---------------------------------------------------------------- std::rotate

  /** std::rotate on the range [first, last) of a, with middle as the new first element. */
  method Rotate(a: array<int>, first: nat, middle: nat, last: nat)
    requires first <= middle <= last <= a.Length
    modifies a
    ensures a[..] == Rotated(old(a[..]), first, middle, last)
  {
    var s := a[..];
    var d := last - middle;
    forall k | first <= k < last {
      a[k] := if k < first + d then s[middle + (k - first)] else s[first + (k - first - d)];
    }
    assert forall k | 0 <= k < a.Length :: a[k] == Rotated(s, first, middle, last)[k];
  }

  // ---------------------------------------------------------------- invert_faro_shuffle

  /**
   * invert_faro_shuffle(first, last): [a0 b0 a1 b1 ... ] becomes
   * [a0 a1 ... b0 b1 ...], by un-shuffling the two halves recursively and
   * rotating the odd elements of the first half behind the even elements of
   * the second. invert_faro_shuffle's commented-out assert asks for an odd
   * length; the model proves the result for every length.
   */
  method InvertFaroShuffle(a: array<int>, first: nat, last: nat)
    requires first <= last <= a.Length
    modifies a
    ensures a[..] == UnshuffleRange(old(a[..]), first, last)
    decreases last - first
  {
    var n := last - first;
    if n >= 3 {
      var half := Half(n + 1);
      var quarter := Half(half);
      var evensEnd, oddsStart, rotateEnd := first + (quarter + quarter - 1), first + (quarter + quarter), first + (half + quarter);
      var rotateStart := first + quarter;
      ghost var s := a[..];
      InvertFaroShuffle(a, first, evensEnd);
      ghost var s1 := a[..];
      InvertFaroShuffle(a, oddsStart, last);
      ghost var s2 := a[..];
      Rotate(a, rotateStart, oddsStart, rotateEnd);
      FaroStep(s, first, last, half, quarter, evensEnd, oddsStart, rotateStart, rotateEnd);
    } else {
      ghost var s := a[..];
      assert UnshuffleRange(s, first, last) == s by {
        UnshuffleSmall(s[first..last]);
        ThreeBlocks(s, first, last);
      }
    }
  }

  // ---------------------------------------------------------------- make_levelorder_from_sorted

  function Min(x: int, y: int): int { if x <= y then x else y }

  /** Number of nodes on levels 0 .. l of the n-node tree. */
  function LevelsSize(l: nat, n: nat): (e: nat)
    ensures e <= n
  {
    Min(Pow2(l + 1) - 1, n)
  }

  /**
   * Appending the nodes of level l to the complete tree of the levels above it
   * interleaves them, left to right, with the ascending order of that tree.
   */
  lemma {:induction false} LevelInOrder(c: seq<int>, l: nat, e0: nat, j: nat, e: nat)
    requires e0 == Pow2(l) - 1 && e == e0 + j && e <= |c| && j <= e0 + 1
    ensures InOrder(c[..e]) == Interleave(c[e0..e], InOrder(c[..e0]))
  {
    var y := InOrder(c[..e0]);
    if j == 0 {
      assert c[e0..e] == [];
    } else {
      var d, x := c[..e - 1], c[e - 1];
      var leaves := c[e0..e - 1];
      var q := 2 * (j - 1);
      assert |d| == e - 1 && |leaves| == j - 1;
      var w := Interleave(leaves, y);
      assert InOrder(d) == w by {
        LevelInOrder(c, l, e0, j - 1, e - 1);
      }
      assert Rank(|d|, |d| + 1) == q by {
        LeafRank(l, j - 1);
      }
      assert c[..e] == d + [x] by {
        TakeSnoc(c, e);
      }
      assert InOrder(d + [x]) == InOrder(d)[..q] + [x] + InOrder(d)[q..] by {
        InOrderAppend(d, x);
      }
      assert Interleave(leaves + [x], y) == w[..q] + [x] + w[q..] by {
        InterleaveSnoc(leaves, y, x, q);
      }
      assert leaves + [x] == c[e0..e] by {
        SliceSnoc(c, e0, e);
      }
    }
  }

  /**
   * One pass of the loop of make_levelorder_from_sorted, on level l >= 1 with
   * e0 = 2^l - 1 nodes above it and k = e - e0 nodes on it: when the range
   * [0, e) holds the ascending order of those e nodes, un-shuffling the
   * first 2k - 1 elements and rotating the k leaves behind the other nodes
   * leaves the ascending order of the e0 upper nodes followed by the leaves
   * in level order.
   */
  lemma LevelStep(t: seq<int>, rest: seq<int>, a: seq<int>, l: nat, e0: nat, e: nat, k: nat, m: nat)
    requires e0 == Pow2(l) - 1 && 1 <= k <= e0 + 1 && e == e0 + k && e <= |t| && m == 2 * k - 1
    requires a == InOrder(t[..e]) + t[e..] + rest
    ensures m <= e <= |a|
    ensures Rotated(UnshuffleRange(a, 0, m), 0, k, e) == InOrder(t[..e0]) + t[e0..] + rest
  {
    var x, y, r := t[e0..e], InOrder(t[..e0]), t[e..] + rest;
    LevelInOrder(t, l, e0, k, e);
    Assoc(InOrder(t[..e]), t[e..], rest);
    LevelPass(x, y, r, a, k, e, m);
    SliceJoin(t, e0, e, rest);
    Assoc(y, t[e0..], rest);
  }

  /**
   * make_levelorder_from_sorted on the range [0, n) of a: the loop finds the
   * height of the tree, then works from the deepest level up, each pass
   * moving the leaves of one level out of the ascending order of the levels
   * above them. The result is the level order whose ascending view is the
   * input (so a sorted input gives a search tree).
   */
  method MakeLevelorderFromSorted(a: array<int>, n: nat)
    requires n <= a.Length
    modifies a
    ensures a[..n] == Layout(old(a[..n]))
    ensures a[n..] == old(a[n..])
  {
    ghost var t := Layout(a[..n]);
    ghost var rest := a[n..];
    LevelorderStart(a[..], n, t, rest);
    var height := 1;
    while Pow2(height) <= n
      invariant height >= 1 && (height == 1 || Pow2(height - 1) <= n)
      decreases n + 1 - Pow2(height)
    {
      height := height + 1;
    }
    var level := height - 1;
    while level != 0
      invariant level <= height - 1
      invariant level >= 1 ==> Pow2(level) <= n
      invariant a[..] == InOrder(t[..LevelsSize(level, n)]) + t[LevelsSize(level, n)..] + rest
      decreases level
    {
      MakeLevelorderPass(a, n, level, t, rest);
      level := level - 1;
    }
    LevelorderEnd(t, rest, LevelsSize(0, n));
    AppendParts(t, rest, n);
  }

  /**
   * One pass of the loop of make_levelorder_from_sorted, on level l: the
   * leaves of level l leave the ascending order of the levels 0 .. l.
   */
  method MakeLevelorderPass(a: array<int>, n: nat, level: nat, ghost t: seq<int>, ghost rest: seq<int>)
    requires 1 <= level && Pow2(level) <= n <= a.Length && |t| == n
    requires a[..] == InOrder(t[..LevelsSize(level, n)]) + t[LevelsSize(level, n)..] + rest
    modifies a
    ensures a[..] == InOrder(t[..LevelsSize(level - 1, n)]) + t[LevelsSize(level - 1, n)..] + rest
  {
    var pow2level := Pow2(level);
    var effectiveSize := Min(2 * pow2level - 1, n);
    var leafCount := Min(pow2level, n + 1 - pow2level);
    ghost var upper := pow2level - 1;
    var faroEnd := 2 * leafCount - 1;
    ghost var s := a[..];
    assert effectiveSize == LevelsSize(level, n);
    assert LevelsSize(level - 1, n) == upper;
    LevelStep(t, rest, s, level, upper, effectiveSize, leafCount, faroEnd);
    InvertFaroShuffle(a, 0, faroEnd);
    Rotate(a, 0, leafCount, effectiveSize);
  }

  /** Before the first pass the whole level order is still in ascending order. */
  lemma LevelorderStart(a: seq<int>, n: nat, t: seq<int>, rest: seq<int>)
    requires n <= |a| && t == Layout(a[..n]) && rest == a[n..]
    ensures a == InOrder(t[..n]) + t[n..] + rest
  {
    InOrderOfLayout(a[..n]);
    assert t[..n] == t && t[n..] == [];
    assert a == a[..n] + [] + a[n..];
  }

  /** After the last pass at most the root is left in ascending order, which is its level order too. */
  lemma LevelorderEnd(t: seq<int>, rest: seq<int>, e: nat)
    requires e == Min(1, |t|)
    ensures InOrder(t[..e]) + t[e..] + rest == t + rest
  {
    LayoutSmall(t[..e]);
    InOrderOfLayout(t[..e]);
    assert t[..e] + t[e..] == t;
  }

  // ---------------------------------------------------------------- unique_helper

  /**
   * unique_helper keeps position k exactly when no later equivalent key
   * follows it: k is the last position, or s[k] < s[k + 1]. Of each run of
   * equivalent keys it keeps the last one.
   */
  predicate Kept(s: seq<int>, k: nat)
    requires k < |s|
  {
    k + 1 == |s| || s[k] < s[k + 1]
  }

  /** The kept elements among positions 0 .. k - 1, in order. */
  function KeptPrefix(s: seq<int>, k: nat): (r: seq<int>)
    requires k <= |s|
    ensures |r| <= k
  {
    if k == 0 then [] else KeptPrefix(s, k - 1) + (if Kept(s, k - 1) then [s[k - 1]] else [])
  }

  /** What unique_helper leaves before the returned position. */
  function Survivors(s: seq<int>): (r: seq<int>)
    ensures |r| <= |s|
  {
    KeptPrefix(s, |s|)
  }

  /** On a sorted s, every key kept before position k is below s[k]. */
  lemma {:induction false} KeptAbove(s: seq<int>, k: nat, x: int)
    requires Sorted(s) && k < |s| && x in KeptPrefix(s, k)
    ensures x < s[k]
    decreases k
  {
    var p := KeptPrefix(s, k - 1);
    if x in p {
      KeptAbove(s, k - 1, x);
    } else {
      assert Kept(s, k - 1) && x == s[k - 1];
    }
  }

  /** On a sorted input the survivors are strictly ascending. */
  lemma SurvivorsIncreasing(s: seq<int>)
    requires Sorted(s)
    ensures StrictlyIncreasing(Survivors(s))
  {
    SurvivorsAscending(s, |s|);
  }

  /** The survivors among the first k positions, strictly ascending. */
  lemma {:induction false} SurvivorsAscending(s: seq<int>, k: nat)
    requires Sorted(s) && k <= |s|
    ensures StrictlyIncreasing(KeptPrefix(s, k))
    decreases k
  {
    if k > 0 {
      SurvivorsAscending(s, k - 1);
      var p := KeptPrefix(s, k - 1);
      if Kept(s, k - 1) {
        forall i | 0 <= i < |p| ensures p[i] < s[k - 1] {
          assert p[i] in p;
          KeptAbove(s, k - 1, p[i]);
        }
      }
    }
  }

  /** On a sorted input nothing is lost: every key of s survives (as its last copy). */
  lemma SurvivorsElements(s: seq<int>, x: int)
    requires Sorted(s)
    ensures x in Survivors(s) <==> x in s
  {
    if x in s {
      var i :| 0 <= i < |s| && s[i] == x;
      var j := LastOfRun(s, i);
      KeptPrefixHas(s, j, |s|);
    }
    if x in Survivors(s) {
      KeptPrefixFrom(s, |s|, x);
    }
  }

  /** The position of the last key of the run containing position i. */
  lemma {:induction false} LastOfRun(s: seq<int>, i: nat) returns (j: nat)
    requires Sorted(s) && i < |s|
    ensures i <= j < |s| && s[j] == s[i] && Kept(s, j)
    decreases |s| - i
  {
    if Kept(s, i) {
      j := i;
    } else {
      j := LastOfRun(s, i + 1);
    }
  }

  /** A kept position below k contributes its key to KeptPrefix(s, k). */
  lemma {:induction false} KeptPrefixHas(s: seq<int>, j: nat, k: nat)
    requires j < k <= |s| && Kept(s, j)
    ensures s[j] in KeptPrefix(s, k)
    decreases k
  {
    if j < k - 1 {
      KeptPrefixHas(s, j, k - 1);
    }
  }

  /** Every key of KeptPrefix(s, k) is a key of s. */
  lemma {:induction false} KeptPrefixFrom(s: seq<int>, k: nat, x: int)
    requires k <= |s| && x in KeptPrefix(s, k)
    ensures x in s
    decreases k
  {
    if x in KeptPrefix(s, k - 1) {
      KeptPrefixFrom(s, k - 1, x);
    }
  }

  /**
   * unique_helper(first, last) on the range [0, n) of a: moves the kept
   * elements, in order, to the front and returns the end of them. Positions
   * from the returned one on are left as they were.
   */
  method UniqueHelper(a: array<int>, n: nat) returns (m: nat)
    requires n <= a.Length
    modifies a
    ensures m <= n
    ensures a[..m] == Survivors(old(a[..n]))
    ensures a[m..] == old(a[m..])
  {
    ghost var s := a[..n];
    ghost var s0 := a[..];
    var first := 0;
    var dfirst := 0;
    while first != n
      invariant dfirst <= first <= n
      invariant a[..dfirst] == KeptPrefix(s, first)
      invariant forall i | dfirst <= i < a.Length :: a[i] == s0[i]
    {
      var next := first + 1;
      if next != n && !(a[first] < a[next]) {
        // a[next] is equivalent to a[first]: a[first] is not kept
      } else {
        ghost var kept := a[..dfirst];
        if first != dfirst {
          a[dfirst] := a[first];
        }
        assert a[..dfirst + 1] == kept + [s[first]];
        dfirst := dfirst + 1;
      }
      first := next;
    }
    m := dfirst;
    assert a[m..] == s0[m..];
  }

  // ---------------------------------------------------------------- sort + unique + level order

  /** x inserted into a sorted sequence at its place. */
  function InsertSorted(x: int, s: seq<int>): (r: seq<int>)
    requires Sorted(s)
    ensures Sorted(r) && multiset(r) == multiset(s) + multiset{x}
  {
    if s == [] || x <= s[0] then
      InsertFront(x, s);
      [x] + s
    else
      var tail := InsertSorted(x, s[1..]);
      InsertBehind(x, s, tail);
      [s[0]] + tail
  }

  lemma InsertFront(x: int, s: seq<int>)
    requires Sorted(s) && (s == [] || x <= s[0])
    ensures Sorted([x] + s) && multiset([x] + s) == multiset(s) + multiset{x}
  {
  }

  lemma InsertBehind(x: int, s: seq<int>, tail: seq<int>)
    requires Sorted(s) && s != [] && s[0] < x
    requires Sorted(tail) && multiset(tail) == multiset(s[1..]) + multiset{x}
    ensures Sorted([s[0]] + tail) && multiset([s[0]] + tail) == multiset(s) + multiset{x}
  {
    forall i | 0 <= i < |tail| ensures s[0] <= tail[i] {
      assert tail[i] in multiset(tail);
    }
    assert s == [s[0]] + s[1..];
  }

  /** The meaning of std::sort: an ascending permutation of s. */
  function SortSeq(s: seq<int>): (r: seq<int>)
    ensures Sorted(r) && multiset(r) == multiset(s)
  {
    if s == [] then []
    else
      assert s == [s[0]] + s[1..];
      InsertSorted(s[0], SortSeq(s[1..]))
  }

  /**
   * sort_and_unique_and_levelorder_impl, run by the constructors that take
   * arbitrary keys: sort, move the survivors of unique_helper to the front,
   * erase the rest, then lay out in level order.
   */
  method SortAndUniqueAndLevelorder(keys: seq<int>) returns (c: seq<int>)
    ensures InOrder(c) == Survivors(SortSeq(keys))
    ensures StrictlyIncreasing(InOrder(c))
    ensures forall x :: x in c <==> x in keys
  {
    var sorted := SortSeq(keys);
    var a := new int[|sorted|](i requires 0 <= i < |sorted| => sorted[i]);
    assert a[..a.Length] == sorted;
    var m := UniqueHelper(a, a.Length);
    ghost var survivors := a[..m];
    assert survivors == Survivors(sorted);
    MakeLevelorderFromSorted(a, m);
    c := a[..m];
    assert c == Layout(survivors);
    InOrderOfLayout(survivors);
    SurvivorsIncreasing(sorted);
    forall x ensures x in c <==> x in keys {
      InOrderMembers(c, x);
      SurvivorsElements(sorted, x);
      assert x in sorted <==> x in multiset(sorted);
      assert x in keys <==> x in multiset(keys);
    }
  }
}
