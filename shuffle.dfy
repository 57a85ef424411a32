/**
 * Sequence operations behind the in-place construction of the level order:
 * replacing a range (Splice), std::rotate on a range (Rotated), the inverse
 * Faro shuffle (Unshuffle: even positions first, then odd positions), and the
 * interleaving of one level of leaves with the keys above them (Interleave).
 */
module Shuffle {

  // ---------------------------------------------------------------- ranges

  /** s with its range [f, l) replaced by t. */
  function Splice(s: seq<int>, f: nat, l: nat, t: seq<int>): (r: seq<int>)
    requires f <= l <= |s| && |t| == l - f
    ensures |r| == |s|
  {
    s[..f] + t + s[l..]
  }

  /** The pieces of a splice: outside [f, l) the old contents, inside t. */
  lemma SpliceParts(s: seq<int>, f: nat, l: nat, t: seq<int>)
    requires f <= l <= |s| && |t| == l - f
    ensures Splice(s, f, l, t)[..f] == s[..f]
    ensures Splice(s, f, l, t)[f..l] == t
    ensures Splice(s, f, l, t)[l..] == s[l..]
  {
    var r := Splice(s, f, l, t);
    assert r == s[..f] + t + s[l..];
  }

  /**
   * std::rotate(first, middle, last): the block [middle, last) moves in front
   * of the block [first, middle); nothing outside [first, last) changes.
   */
  function Rotated(s: seq<int>, f: nat, m: nat, l: nat): (r: seq<int>)
    requires f <= m <= l <= |s|
    ensures |r| == |s|
  {
    Splice(s, f, l, s[m..l] + s[f..m])
  }

  /** Rotation of a sequence built from four blocks swaps the middle two. */
  lemma RotatedBlocks(p: seq<int>, x: seq<int>, y: seq<int>, t: seq<int>)
    ensures Rotated(p + x + y + t, |p|, |p| + |x|, |p| + |x| + |y|) == p + y + x + t
  {
    var s := p + x + y + t;
    var f, m, l := |p|, |p| + |x|, |p| + |x| + |y|;
    assert s[..f] == p;
    assert s[f..m] == x;
    assert s[m..l] == y;
    assert s[l..] == t;
  }

  /** Rotating by the other block length undoes a rotation. */
  lemma RotatedInverse(s: seq<int>, f: nat, m: nat, l: nat)
    requires f <= m <= l <= |s|
    ensures Rotated(Rotated(s, f, m, l), f, f + (l - m), l) == s
  {
    var p, x, y, t := s[..f], s[f..m], s[m..l], s[l..];
    assert Rotated(s, f, m, l) == p + y + x + t by {
      assert s == p + x + y + t;
      RotatedBlocks(p, x, y, t);
    }
    RotatedBlocks(p, y, x, t);
    assert p + x + y + t == s;
  }

  /** A rotation permutes the sequence. */
  lemma RotatedPermutes(s: seq<int>, f: nat, m: nat, l: nat)
    requires f <= m <= l <= |s|
    ensures multiset(Rotated(s, f, m, l)) == multiset(s)
  {
    var p, x, y, t := s[..f], s[f..m], s[m..l], s[l..];
    assert s == p + x + y + t;
    RotatedBlocks(p, x, y, t);
  }

  // ---------------------------------------------------------------- inverse Faro shuffle

  /** The elements at even positions 0, 2, 4, ... */
  function Evens(s: seq<int>): (e: seq<int>)
    ensures |e| == (|s| + 1) / 2
  {
    seq((|s| + 1) / 2, k requires 0 <= k < (|s| + 1) / 2 => s[2 * k])
  }

  /** The elements at odd positions 1, 3, 5, ... */
  function Odds(s: seq<int>): (o: seq<int>)
    ensures |o| == |s| / 2
  {
    seq(|s| / 2, k requires 0 <= k < |s| / 2 => s[2 * k + 1])
  }

  /** invert_faro_shuffle: [a0 b0 a1 b1 ...] becomes [a0 a1 ... b0 b1 ...]. */
  function Unshuffle(s: seq<int>): (r: seq<int>)
    ensures |r| == |s|
  {
    Evens(s) + Odds(s)
  }

  /** Dropping the first element swaps the even and the odd positions. */
  lemma EvensOddsStep(s: seq<int>)
    requires s != []
    ensures Evens(s) == [s[0]] + Odds(s[1..]) && Odds(s) == Evens(s[1..])
  {
  }

  /** Evens and Odds share out the elements of s between them. */
  lemma {:induction false} EvensOddsPermute(s: seq<int>)
    ensures multiset(Evens(s)) + multiset(Odds(s)) == multiset(s)
    decreases |s|
  {
    if s != [] {
      EvensOddsPermute(s[1..]);
      EvensOddsStep(s);
      assert s == [s[0]] + s[1..];
    }
  }

  /** The inverse Faro shuffle is a permutation. */
  lemma UnshufflePermutes(s: seq<int>)
    ensures multiset(Unshuffle(s)) == multiset(s)
  {
    EvensOddsPermute(s);
  }

  /** Ranges of at most two elements are left as they are. */
  lemma UnshuffleSmall(s: seq<int>)
    requires |s| <= 2
    ensures Unshuffle(s) == s
  {
    if |s| == 2 {
      assert Evens(s) == [s[0]];
    }
  }

  /** Evens of A + [x] + B with |A| odd: x sits at an odd position. */
  lemma EvensBlocks(a: seq<int>, x: int, b: seq<int>)
    requires |a| % 2 == 1
    ensures Evens(a + [x] + b) == Evens(a) + Evens(b)
  {
    var w := a + [x] + b;
    var q := |Evens(a)|;
    forall j | 0 <= j < |Evens(w)| ensures Evens(w)[j] == (Evens(a) + Evens(b))[j] {
      if j < q {
        assert w[2 * j] == a[2 * j];
      } else {
        assert w[2 * j] == b[2 * (j - q)];
      }
    }
  }

  /** Odds of A + [x] + B with |A| odd. */
  lemma OddsBlocks(a: seq<int>, x: int, b: seq<int>)
    requires |a| % 2 == 1
    ensures Odds(a + [x] + b) == Odds(a) + [x] + Odds(b)
  {
    var w := a + [x] + b;
    var q := |Evens(a)|;
    forall i | 0 <= i < |Odds(w)| ensures Odds(w)[i] == (Odds(a) + [x] + Odds(b))[i] {
      if i < q - 1 {
        assert w[2 * i + 1] == a[2 * i + 1];
      } else if i == q - 1 {
        assert w[2 * i + 1] == x;
      } else {
        assert w[2 * i + 1] == b[2 * (i - q) + 1];
      }
    }
  }

  /** The inverse Faro shuffle of the range [f, l) of s. */
  function UnshuffleRange(s: seq<int>, f: nat, l: nat): (r: seq<int>)
    requires f <= l <= |s|
    ensures |r| == |s|
  {
    Splice(s, f, l, Unshuffle(s[f..l]))
  }

  /**
   * One step of invert_faro_shuffle on a range w = A + [x] + B with |A| odd:
   * after un-shuffling A and B in place, rotating [Odds(A) x] behind Evens(B)
   * leaves the un-shuffle of the whole range.
   */
  lemma FaroBlocks(a: seq<int>, x: int, b: seq<int>)
    requires |a| % 2 == 1
    ensures Evens(a) + Evens(b) + Odds(a) + [x] + Odds(b) == Unshuffle(a + [x] + b)
  {
    EvensBlocks(a, x, b);
    OddsBlocks(a, x, b);
  }

  /** Un-shuffling the middle block of p + u + t. */
  lemma UnshuffleRangeBlocks(p: seq<int>, u: seq<int>, t: seq<int>)
    ensures UnshuffleRange(p + u + t, |p|, |p| + |u|) == p + Unshuffle(u) + t
  {
    var s := p + u + t;
    assert s[..|p|] == p;
    assert s[|p|..|p| + |u|] == u;
    assert s[|p| + |u|..] == t;
  }

  /**
   * The recursion of invert_faro_shuffle on [f, l) with n = l - f >= 3,
   * half = (n + 1) / 2 and quarter = half / 2: un-shuffle [f, f + 2q - 1),
   * un-shuffle [f + 2q, l), then rotate [f + q, f + 2q, f + half + q).
   */
  lemma FaroStep(s: seq<int>, f: nat, l: nat, half: nat, q: nat, evensEnd: nat, oddsStart: nat, rotateStart: nat, rotateEnd: nat)
    requires f + 3 <= l <= |s| && 2 * half <= l - f + 1 <= 2 * half + 1 && 2 * q <= half <= 2 * q + 1
    requires evensEnd == f + (q + q - 1) && oddsStart == f + (q + q)
    requires rotateStart == f + q && rotateEnd == f + (half + q)
    ensures Rotated(UnshuffleRange(UnshuffleRange(s, f, evensEnd), oddsStart, l), rotateStart, oddsStart, rotateEnd)
         == UnshuffleRange(s, f, l)
  {
    var p, w, t := s[..f], s[f..l], s[l..];
    var a, x, b := w[..2 * q - 1], w[2 * q - 1], w[2 * q..];
    assert |a| == 2 * q - 1 && |a| % 2 == 1;
    assert |Evens(a)| == q;
    assert |Evens(b)| == half - q by {
      assert |b| == (l - f) - 2 * q;
    }
    assert s == p + w + t by {
      ThreeBlocks(s, f, l);
    }
    assert w == a + [x] + b by {
      KeyBlocks(w, 2 * q - 1);
    }
    BlocksRegroup(p, a, [x], b, t);
    var s1 := UnshuffleRange(s, f, evensEnd);
    FaroFirst(s, f, evensEnd, p, a, x, b, t);
    var s2 := UnshuffleRange(s1, oddsStart, l);
    FaroSecond(s1, oddsStart, l, p, a, x, b, t);
    FaroThird(s2, rotateStart, oddsStart, rotateEnd, p, a, x, b, t);
    UnshuffleRangeBlocks(p, w, t);
  }

  /** First recursive call of FaroStep: the block A before x is un-shuffled. */
  lemma FaroFirst(s: seq<int>, f: nat, e: nat, p: seq<int>, a: seq<int>, x: int, b: seq<int>, t: seq<int>)
    requires s == p + a + ([x] + b + t) && |p| == f && e == f + |a|
    ensures e <= |s|
    ensures UnshuffleRange(s, f, e) == (p + Unshuffle(a) + [x]) + b + t
  {
    UnshuffleRangeBlocks(p, a, [x] + b + t);
    FaroRegroup(p, a, x, b, t);
  }

  /** Second recursive call of FaroStep: the block B after x is un-shuffled. */
  lemma FaroSecond(s: seq<int>, m: nat, l: nat, p: seq<int>, a: seq<int>, x: int, b: seq<int>, t: seq<int>)
    requires s == (p + Unshuffle(a) + [x]) + b + t && m == |p| + |a| + 1 && l == m + |b|
    ensures m <= l <= |s|
    ensures UnshuffleRange(s, m, l) == (p + Evens(a)) + (Odds(a) + [x]) + Evens(b) + (Odds(b) + t)
  {
    UnshuffleRangeBlocks(p + Unshuffle(a) + [x], b, t);
    FaroRegroup(p, a, x, b, t);
  }

  /** The closing rotation of FaroStep. */
  lemma FaroThird(s: seq<int>, f: nat, m: nat, l: nat, p: seq<int>, a: seq<int>, x: int, b: seq<int>, t: seq<int>)
    requires s == (p + Evens(a)) + (Odds(a) + [x]) + Evens(b) + (Odds(b) + t)
    requires |a| % 2 == 1 && f == |p| + |Evens(a)| && m == f + |Odds(a)| + 1 && l == m + |Evens(b)|
    ensures f <= m <= l <= |s|
    ensures Rotated(s, f, m, l) == p + Unshuffle(a + [x] + b) + t
  {
    assert Rotated(s, f, m, l)
        == (p + Evens(a)) + Evens(b) + (Odds(a) + [x]) + (Odds(b) + t) by {
      RotatedBlocks(p + Evens(a), Odds(a) + [x], Evens(b), Odds(b) + t);
    }
    FaroBlocks(a, x, b);
    FaroRegroupResult(p, a, x, b, t);
  }

  /** v cut at i and j. */
  lemma ThreeBlocks(v: seq<int>, i: nat, j: nat)
    requires i <= j <= |v|
    ensures v == v[..i] + v[i..j] + v[j..]
  {
  }

  /** v cut around the key at k. */
  lemma KeyBlocks(v: seq<int>, k: nat)
    requires k < |v|
    ensures v == v[..k] + [v[k]] + v[k + 1..]
  {
  }

  lemma BlocksRegroup(p: seq<int>, a: seq<int>, m: seq<int>, b: seq<int>, t: seq<int>)
    ensures p + (a + m + b) + t == p + a + (m + b + t)
  {
  }

  lemma FaroRegroup(p: seq<int>, a: seq<int>, x: int, b: seq<int>, t: seq<int>)
    ensures p + Unshuffle(a) + ([x] + b + t) == (p + Unshuffle(a) + [x]) + b + t
    ensures (p + Unshuffle(a) + [x]) + Unshuffle(b) + t
         == (p + Evens(a)) + (Odds(a) + [x]) + Evens(b) + (Odds(b) + t)
  {
  }

  lemma FaroRegroupResult(p: seq<int>, a: seq<int>, x: int, b: seq<int>, t: seq<int>)
    ensures (p + Evens(a)) + Evens(b) + (Odds(a) + [x]) + (Odds(b) + t)
         == p + (Evens(a) + Evens(b) + Odds(a) + [x] + Odds(b)) + t
  {
  }

  // ---------------------------------------------------------------- one level of leaves

  /**
   * x0 y0 x1 y1 ... x(k-1) y(k-1) followed by the rest of y (k = |x|, and x may
   * be one longer than y): the ascending order of a tree whose last level
   * holds the leaves x, below the nodes whose ascending order is y.
   */
  function Interleave(x: seq<int>, y: seq<int>): (r: seq<int>)
    requires |x| <= |y| + 1
    ensures |r| == |x| + |y|
  {
    if x == [] then y
    else if y == [] then x
    else [x[0], y[0]] + Interleave(x[1..], y[1..])
  }

  /** Appending one more leaf a inserts it at position 2|x|. */
  lemma {:induction false} InterleaveSnoc(x: seq<int>, y: seq<int>, a: int, p: nat)
    requires |x| <= |y| && p == 2 * |x|
    ensures p <= |Interleave(x, y)|
    ensures Interleave(x + [a], y) == Interleave(x, y)[..p] + [a] + Interleave(x, y)[p..]
  {
    if x == [] {
      if y != [] {
        assert [a][1..] == [];
      }
    } else {
      var h, v := [x[0], y[0]], Interleave(x[1..], y[1..]);
      var k := p - 2;
      assert Interleave(x + [a], y) == h + Interleave(x[1..] + [a], y[1..]) by {
        assert (x + [a])[1..] == x[1..] + [a];
      }
      assert Interleave(x[1..] + [a], y[1..]) == v[..k] + [a] + v[k..] by {
        InterleaveSnoc(x[1..], y[1..], a, k);
      }
      assert Interleave(x, y) == h + v;
      ConsSplit(h, v, a, k, p);
    }
  }

  /** Inserting a at position k of v, behind a two-element head h. */
  lemma ConsSplit(h: seq<int>, v: seq<int>, a: int, k: nat, p: nat)
    requires |h| == 2 && k <= |v| && p == k + 2
    ensures h + (v[..k] + [a] + v[k..]) == (h + v)[..p] + [a] + (h + v)[p..]
  {
    assert (h + v)[..p] == h + v[..k];
    assert (h + v)[p..] == v[k..];
  }

  /** Leaf i sits at position 2i. */
  lemma {:induction false} InterleaveLeafAt(x: seq<int>, y: seq<int>, i: nat)
    requires |x| <= |y| + 1 && i < |x|
    ensures Interleave(x, y)[2 * i] == x[i]
  {
    if y != [] && i > 0 {
      var w, v := Interleave(x, y), Interleave(x[1..], y[1..]);
      assert w == [x[0], y[0]] + v;
      InterleaveLeafAt(x[1..], y[1..], i - 1);
      assert w[2 * i] == v[2 * (i - 1)];
    }
  }

  /** The key y[i] sits between leaves i and i + 1, at position 2i + 1. */
  lemma {:induction false} InterleaveKeyAt(x: seq<int>, y: seq<int>, i: nat)
    requires |x| <= |y| + 1 && i + 1 < |x|
    ensures Interleave(x, y)[2 * i + 1] == y[i]
  {
    if i > 0 {
      var w, v := Interleave(x, y), Interleave(x[1..], y[1..]);
      assert w == [x[0], y[0]] + v;
      InterleaveKeyAt(x[1..], y[1..], i - 1);
      assert w[2 * i + 1] == v[2 * (i - 1) + 1];
    }
  }

  /** After the last leaf come the remaining keys of y, in order. */
  lemma {:induction false} InterleaveRestAt(x: seq<int>, y: seq<int>, i: nat)
    requires 1 <= |x| <= |y| + 1 && |x| - 1 + i < |y|
    ensures Interleave(x, y)[2 * |x| - 1 + i] == y[|x| - 1 + i]
  {
    var w, v := Interleave(x, y), Interleave(x[1..], y[1..]);
    assert w == [x[0], y[0]] + v;
    if |x| > 1 {
      InterleaveRestAt(x[1..], y[1..], i);
      assert w[2 * |x| - 1 + i] == v[2 * (|x| - 1) - 1 + i];
    }
  }

  /**
   * Un-shuffling the first 2|x| - 1 elements of Interleave(x, y) separates
   * the leaves x from the first |x| - 1 elements of y.
   */
  lemma InterleaveUnshuffle(x: seq<int>, y: seq<int>, w: seq<int>, m: nat, k: nat)
    requires 1 <= |x| <= |y| + 1 && w == Interleave(x, y) && m == 2 * |x| - 1 && k == |x| - 1
    ensures m <= |w|
    ensures Evens(w[..m]) == x && Odds(w[..m]) == y[..k] && w[m..] == y[k..]
  {
    InterleaveEvens(x, y, w, m);
    InterleaveOdds(x, y, w, m, k);
    InterleaveRest(x, y, w, m, k);
  }

  /** The even positions of the first 2|x| - 1 elements of Interleave(x, y) are x. */
  lemma InterleaveEvens(x: seq<int>, y: seq<int>, w: seq<int>, m: nat)
    requires 1 <= |x| <= |y| + 1 && w == Interleave(x, y) && m == 2 * |x| - 1
    ensures m <= |w| && Evens(w[..m]) == x
  {
    assert |Evens(w[..m])| == |x|;
    forall i | 0 <= i < |x| ensures Evens(w[..m])[i] == x[i] {
      InterleaveLeafAt(x, y, i);
    }
  }

  /** The odd positions of the first 2|x| - 1 elements of Interleave(x, y) are the first |x| - 1 of y. */
  lemma InterleaveOdds(x: seq<int>, y: seq<int>, w: seq<int>, m: nat, k: nat)
    requires 1 <= |x| <= |y| + 1 && w == Interleave(x, y) && m == 2 * |x| - 1 && k == |x| - 1
    ensures m <= |w| && Odds(w[..m]) == y[..k]
  {
    assert |Odds(w[..m])| == k;
    forall i | 0 <= i < k ensures Odds(w[..m])[i] == y[i] {
      InterleaveKeyAt(x, y, i);
    }
  }

  /** After the first 2|x| - 1 elements, Interleave(x, y) continues with the rest of y. */
  lemma InterleaveRest(x: seq<int>, y: seq<int>, w: seq<int>, m: nat, k: nat)
    requires 1 <= |x| <= |y| + 1 && w == Interleave(x, y) && m == 2 * |x| - 1 && k == |x| - 1
    ensures m <= |w| && w[m..] == y[k..]
  {
    forall i | 0 <= i < |w| - m ensures w[m..][i] == y[k + i] {
      InterleaveRestAt(x, y, i);
    }
  }

  /**
   * Un-shuffling the first 2|x| - 1 elements of an interleaving of x and y
   * separates x from y again.
   */
  lemma InterleaveUnshuffleRange(x: seq<int>, y: seq<int>, r: seq<int>, m: nat)
    requires 1 <= |x| <= |y| + 1 && m == 2 * |x| - 1
    ensures m <= |Interleave(x, y)|
    ensures UnshuffleRange(Interleave(x, y) + r, 0, m) == x + y + r
  {
    var w := Interleave(x, y);
    var k := |x| - 1;
    InterleaveUnshuffle(x, y, w, m, k);
    UnshufflePrefix(w, r, m);
    SplitRegroup(x, y, k, r);
  }

  /** Un-shuffling a prefix of w + r leaves the rest of w, and r, in place. */
  lemma UnshufflePrefix(w: seq<int>, r: seq<int>, m: nat)
    requires m <= |w|
    ensures UnshuffleRange(w + r, 0, m) == Unshuffle(w[..m]) + (w[m..] + r)
  {
    assert w + r == [] + w[..m] + (w[m..] + r) by {
      assert w == w[..m] + w[m..];
    }
    UnshuffleRangeBlocks([], w[..m], w[m..] + r);
  }

  /**
   * One pass of make_levelorder_from_sorted on sequences: when the front of
   * a interleaves the k leaves x with the ascending order y of the nodes
   * above them, un-shuffling the first 2k - 1 elements and rotating the
   * leaves behind y puts y first and the leaves after it.
   */
  lemma LevelPass(x: seq<int>, y: seq<int>, r: seq<int>, a: seq<int>, k: nat, e: nat, m: nat)
    requires 1 <= |x| <= |y| + 1 && k == |x| && e == |x| + |y| && m == 2 * k - 1
    requires a == Interleave(x, y) + r
    ensures m <= e <= |a|
    ensures Rotated(UnshuffleRange(a, 0, m), 0, k, e) == y + (x + r)
  {
    InterleaveUnshuffleRange(x, y, r, m);
    RotatedFront(x, y, r);
  }

  /** Rotation at the front of a sequence of three blocks swaps the first two. */
  lemma RotatedFront(x: seq<int>, y: seq<int>, r: seq<int>)
    ensures Rotated(x + y + r, 0, |x|, |x| + |y|) == y + (x + r)
  {
    RotatedBlocks([], x, y, r);
    assert [] + x + y + r == x + y + r;
    assert [] + y + x + r == y + (x + r);
  }

  // ---------------------------------------------------------------- regrouping

  lemma Assoc(a: seq<int>, b: seq<int>, c: seq<int>)
    ensures a + b + c == a + (b + c)
  {
  }

  lemma SplitRegroup(x: seq<int>, y: seq<int>, k: nat, r: seq<int>)
    requires k <= |y|
    ensures (x + y[..k]) + (y[k..] + r) == x + y + r
  {
    assert y[..k] + y[k..] == y;
  }

  lemma TakeSnoc(c: seq<int>, e: nat)
    requires 0 < e <= |c|
    ensures c[..e] == c[..e - 1] + [c[e - 1]]
  {
  }

  lemma SliceSnoc(c: seq<int>, f: nat, e: nat)
    requires f < e <= |c|
    ensures c[f..e - 1] + [c[e - 1]] == c[f..e]
  {
  }

  lemma SliceJoin(c: seq<int>, f: nat, e: nat, rest: seq<int>)
    requires f <= e <= |c|
    ensures c[f..e] + (c[e..] + rest) == c[f..] + rest
  {
    assert c[f..] == c[f..e] + c[e..];
  }

  lemma AppendParts(t: seq<int>, rest: seq<int>, n: nat)
    requires n == |t|
    ensures (t + rest)[..n] == t && (t + rest)[n..] == rest
  {
  }
}
