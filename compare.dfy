/**
 * The comparison operators of flat_set: operator== is std::equal and
 * operator< is std::lexicographical_compare over the two ascending
 * iteration sequences; !=, >, <= and >= are derived from those two.
 */
module SetCompare {
  import opened Eytzinger
  import opened LevelOrder
  import opened LevelOrderSet

  /** std::equal over two ranges: same length and equal keys position by position. */
  function Equal(x: seq<int>, y: seq<int>): bool
  {
    if x == [] || y == [] then x == [] && y == []
    else x[0] == y[0] && Equal(x[1..], y[1..])
  }

  /**
   * std::lexicographical_compare: at the first difference the smaller key
   * decides; if one range is a prefix of the other, the shorter is less.
   */
  function Less(x: seq<int>, y: seq<int>): bool
  {
    if y == [] then false
    else if x == [] then true
    else if x[0] < y[0] then true
    else if y[0] < x[0] then false
    else Less(x[1..], y[1..])
  }

  /** operator!= */
  function NotEqual(x: seq<int>, y: seq<int>): bool { !Equal(x, y) }

  /** operator>: y < x. */
  function Greater(x: seq<int>, y: seq<int>): bool { Less(y, x) }

  /** operator<=: !(y < x). */
  function LessEq(x: seq<int>, y: seq<int>): bool { !Less(y, x) }

  /** operator>=: !(x < y). */
  function GreaterEq(x: seq<int>, y: seq<int>): bool { !Less(x, y) }

  /** operator== on two sets compares their ascending views. */
  function SetsEqual(a: FlatSet, b: FlatSet): bool
    reads a, b
  {
    Equal(InOrder(a.c), InOrder(b.c))
  }

  /** operator< on two sets compares their ascending views. */
  function SetLess(a: FlatSet, b: FlatSet): bool
    reads a, b
  {
    Less(InOrder(a.c), InOrder(b.c))
  }

  // ---------------------------------------------------------------- equality

  /** std::equal holds exactly for identical sequences. */
  lemma {:induction false} EqualIsIdentity(x: seq<int>, y: seq<int>)
    ensures Equal(x, y) <==> x == y
  {
    if x != [] && y != [] {
      EqualIsIdentity(x[1..], y[1..]);
      assert x == [x[0]] + x[1..];
      assert y == [y[0]] + y[1..];
    }
  }

  /** In a strictly increasing sequence, the tail holds every key but the first. */
  lemma TailMembers(x: seq<int>, k: int)
    requires StrictlyIncreasing(x) && x != []
    ensures k in x[1..] <==> k in x && k != x[0]
  {
    assert x == [x[0]] + x[1..];
    if k in x[1..] {
      var j :| 0 <= j < |x| - 1 && x[1..][j] == k;
      assert x[j + 1] == k;
    }
  }

  /** Two strictly increasing sequences with the same keys are the same sequence. */
  lemma {:induction false} SameKeysSame(x: seq<int>, y: seq<int>)
    requires StrictlyIncreasing(x) && StrictlyIncreasing(y)
    requires forall k :: k in x <==> k in y
    ensures x == y
    decreases |x|
  {
    if x != [] {
      assert x[0] in x;
    }
    if y != [] {
      assert y[0] in y;
    }
    if x != [] && y != [] {
      var i :| 0 <= i < |x| && x[i] == y[0];
      var j :| 0 <= j < |y| && y[j] == x[0];
      assert x[0] <= x[i];
      assert y[0] <= y[j];
      forall k ensures k in x[1..] <==> k in y[1..] {
        TailMembers(x, k);
        TailMembers(y, k);
      }
      assert StrictlyIncreasing(x[1..]) && StrictlyIncreasing(y[1..]);
      SameKeysSame(x[1..], y[1..]);
      assert x == [x[0]] + x[1..];
      assert y == [y[0]] + y[1..];
    }
  }

  /** Two valid sets compare equal exactly when they hold the same keys. */
  lemma SetsEqualIffSameKeys(a: FlatSet, b: FlatSet)
    requires a.Valid() && b.Valid()
    ensures SetsEqual(a, b) <==> forall k :: k in a.c <==> k in b.c
  {
    var x, y := InOrder(a.c), InOrder(b.c);
    EqualIsIdentity(x, y);
    forall k ensures k in x <==> k in a.c {
      InOrderMembers(a.c, k);
    }
    forall k ensures k in y <==> k in b.c {
      InOrderMembers(b.c, k);
    }
    if forall k :: k in a.c <==> k in b.c {
      SameKeysSame(x, y);
    }
  }

  // ---------------------------------------------------------------- ordering

  /** operator< is irreflexive. */
  lemma {:induction false} LessIrreflexive(x: seq<int>)
    ensures !Less(x, x)
  {
    if x != [] {
      LessIrreflexive(x[1..]);
    }
  }

  /** operator< is transitive. */
  lemma {:induction false} LessTransitive(x: seq<int>, y: seq<int>, z: seq<int>)
    requires Less(x, y) && Less(y, z)
    ensures Less(x, z)
  {
    if x != [] && y != [] && z != [] && x[0] == y[0] && y[0] == z[0] {
      LessTransitive(x[1..], y[1..], z[1..]);
    }
  }

  /** Exactly one of x < y, x == y and y < x holds. */
  lemma {:induction false} LessTrichotomy(x: seq<int>, y: seq<int>)
    ensures Less(x, y) || x == y || Less(y, x)
    ensures !(Less(x, y) && Less(y, x))
    ensures x == y ==> !Less(x, y)
  {
    if x != [] && y != [] && x[0] == y[0] {
      LessTrichotomy(x[1..], y[1..]);
      assert x == [x[0]] + x[1..];
      assert y == [y[0]] + y[1..];
    }
    if x == y {
      LessIrreflexive(x);
    }
  }

  /** operator<= is operator< or equality, and > and >= mirror them. */
  lemma DerivedOperators(x: seq<int>, y: seq<int>)
    ensures LessEq(x, y) <==> Less(x, y) || Equal(x, y)
    ensures GreaterEq(x, y) <==> Greater(x, y) || Equal(x, y)
    ensures NotEqual(x, y) <==> x != y
  {
    LessTrichotomy(x, y);
    EqualIsIdentity(x, y);
  }

  /** A proper prefix compares less than the longer sequence. */
  lemma {:induction false} PrefixLess(x: seq<int>, y: seq<int>)
    requires |x| < |y| && x == y[..|x|]
    ensures Less(x, y)
  {
    if x != [] {
      assert x[1..] == y[1..][..|x| - 1];
      PrefixLess(x[1..], y[1..]);
    }
  }

  /** At the first difference, the smaller key decides. */
  lemma {:induction false} FirstDifferenceDecides(x: seq<int>, y: seq<int>, i: nat)
    requires i < |x| && i < |y| && x[..i] == y[..i] && x[i] < y[i]
    ensures Less(x, y)
  {
    if i > 0 {
      assert x[0] == x[..i][0] && y[0] == y[..i][0];
      assert x[1..][..i - 1] == y[1..][..i - 1] by {
        assert x[1..][..i - 1] == x[..i][1..];
        assert y[1..][..i - 1] == y[..i][1..];
      }
      FirstDifferenceDecides(x[1..], y[1..], i - 1);
    }
  }
}
