/**
 * The slot map: a table of generation-tagged handles in front of a densely
 * packed value array.  A key (index, generation) names a slot; an occupied
 * slot holds the physical position of its value, and the reverse map
 * records, for every physical position, the slot that owns it.  A free slot
 * instead links to the next free slot, so the free slots form a chain from
 * nextAvailable to lastAvailable.  Erasing moves the last value into the hole
 * (swap and pop), bumps the slot's generation and appends the slot to the
 * tail of the free chain; inserting reuses the head of the chain.
 */
module SlotMaps {

  datatype Option<T> = None | Some(value: T)

  /** A handle: the slot it names and the generation it was issued with. */
  datatype Key = Key(index: nat, generation: nat)

  /**
   * One entry of the slot array.  While the slot is occupied, index is the
   * physical position of its value; while it is free, index is the next free
   * slot of the chain.
   */
  datatype Slot = Slot(index: nat, generation: nat)

  /** The state the slot map keeps (slots_, values_, reverse_map_ and the two ends of the free chain). */
  datatype Store = Store(slots: seq<Slot>, values: seq<int>, reverseMap: seq<nat>,
                         nextAvailable: nat, lastAvailable: nat)

  /** A default-constructed or cleared slot map. */
  const Empty := Store([], [], [], 0, 0)

  /** What every operation needs in order to index the arrays. */
  predicate Shaped(m: Store)
  {
    && |m.reverseMap| == |m.values|
    && (forall p | 0 <= p < |m.reverseMap| :: m.reverseMap[p] < |m.slots|)
    && (m.nextAvailable < |m.slots| ==> m.lastAvailable < |m.slots|)
  }

  /** Slot s is occupied: it points at a position whose reverse-map entry points back at s. */
  predicate Occupied(m: Store, s: nat)
  {
    s < |m.slots| && m.slots[s].index < |m.reverseMap| && m.reverseMap[m.slots[s].index] == s
  }

  /**
   * find: the physical position of the value named by k, or |values| (end)
   * when k names no slot, carries another generation or names a free slot.
   */
  function Located(m: Store, k: Key): nat
    requires Shaped(m)
  {
    if k.index < |m.slots| && m.slots[k.index].generation == k.generation && Occupied(m, k.index)
    then m.slots[k.index].index
    else |m.values|
  }

  /** The value a key names, if any. */
  function Lookup(m: Store, k: Key): Option<int>
    requires Shaped(m)
  {
    var p := Located(m, k);
    if p < |m.values| then Some(m.values[p]) else None
  }

  /** The key that owns the value at physical position p. */
  function KeyAt(m: Store, p: nat): Key
    requires Shaped(m) && p < |m.values|
  {
    Key(m.reverseMap[p], m.slots[m.reverseMap[p]].generation)
  }

  // ---------------------------------------------------------------- invariant

  /**
   * The free slots, oldest first, are a duplicate-free chain through the
   * index fields of the slot array, from nextAvailable to lastAvailable; both
   * ends equal |slots| when the chain is empty.
   */
  ghost predicate FreeList(m: Store, free: seq<nat>)
  {
    && (forall i | 0 <= i < |free| :: free[i] < |m.slots|)
    && (forall i, j | 0 <= i < j < |free| :: free[i] != free[j])
    && (forall i | 0 <= i < |free| - 1 :: m.slots[free[i]].index == free[i + 1])
    && m.nextAvailable == (if free == [] then |m.slots| else free[0])
    && m.lastAvailable == (if free == [] then |m.slots| else free[|free| - 1])
  }

  /**
   * The slot map invariant: one reverse-map entry per value, each naming a
   * slot that points back at that position and is not free; every slot not
   * on the free chain is occupied; values and free slots account for all slots.
   */
  ghost predicate WellFormed(m: Store, free: seq<nat>)
  {
    && Shaped(m)
    && |m.values| + |free| == |m.slots|
    && (forall p | 0 <= p < |m.reverseMap| :: m.slots[m.reverseMap[p]].index == p && m.reverseMap[p] !in free)
    && (forall s | 0 <= s < |m.slots| && s !in free :: Occupied(m, s))
    && FreeList(m, free)
  }

  /** A handle is valid: its slot exists, carries its generation and is not free. */
  ghost predicate Live(m: Store, free: seq<nat>, k: Key)
  {
    k.index < |m.slots| && m.slots[k.index].generation == k.generation && k.index !in free
  }

  /** The free chain after its head has been taken. */
  function Tail(free: seq<nat>): seq<nat>
  {
    if free == [] then [] else free[1..]
  }

  lemma EmptyWellFormed()
    ensures WellFormed(Empty, [])
  {
  }

  /** Under the invariant, a slot is occupied exactly when it is not on the free chain. */
  lemma OccupiedIffNotFree(m: Store, free: seq<nat>, s: nat)
    requires WellFormed(m, free) && s < |m.slots|
    ensures Occupied(m, s) <==> s !in free
  {
    if Occupied(m, s) {
      assert m.reverseMap[m.slots[s].index] !in free;
    }
  }

  /**
   * find succeeds exactly for valid handles, and then it lands on the value
   * whose owning key is the handle itself.
   */
  lemma LocatedIffLive(m: Store, free: seq<nat>, k: Key)
    requires WellFormed(m, free)
    ensures Located(m, k) <= |m.values|
    ensures Located(m, k) < |m.values| <==> Live(m, free, k)
    ensures Located(m, k) < |m.values| ==> KeyAt(m, Located(m, k)) == k
  {
    if k.index < |m.slots| {
      OccupiedIffNotFree(m, free, k.index);
    }
  }

  /** Every stored value is found through the key that owns it. */
  lemma KeyAtLocated(m: Store, free: seq<nat>, p: nat)
    requires WellFormed(m, free) && p < |m.values|
    ensures Live(m, free, KeyAt(m, p))
    ensures Located(m, KeyAt(m, p)) == p
  {
    assert m.slots[m.reverseMap[p]].index == p && m.reverseMap[p] !in free;
  }

  // ---------------------------------------------------------------- insert

  /**
   * insert/emplace: append the value; take the head of the free chain (the
   * generation was bumped when the slot was freed) or, when the chain is
   * empty, mint a new slot at generation 0.
   */
  function Emplaced(m: Store, v: int): (Store, Key)
    requires Shaped(m)
  {
    var pos := |m.values|;
    if m.nextAvailable >= |m.slots| then
      var s := |m.slots|;
      (Store(m.slots + [Slot(pos, 0)], m.values + [v], m.reverseMap + [s], s + 1, s + 1), Key(s, 0))
    else
      var s := m.nextAvailable;
      var g := m.slots[s].generation;
      var single := s == m.lastAvailable;
      var next := if single then |m.slots| else m.slots[s].index;
      var last := if single then |m.slots| else m.lastAvailable;
      (Store(m.slots[s := Slot(pos, g)], m.values + [v], m.reverseMap + [s], next, last), Key(s, g))
  }

  /** Inserting with an empty free chain keeps the invariant. */
  lemma EmplacedNewSlotWellFormed(m: Store, free: seq<nat>, v: int, m1: Store, k: Key)
    requires WellFormed(m, free) && free == [] && (m1, k) == Emplaced(m, v)
    ensures WellFormed(m1, free)
  {
    var s := |m.slots|;
    forall t | 0 <= t < |m1.slots| && t !in free
      ensures Occupied(m1, t)
    {
      if t < s {
        assert Occupied(m, t);
        assert m1.slots[t] == m.slots[t];
        assert m1.reverseMap[m.slots[t].index] == m.reverseMap[m.slots[t].index];
      }
    }
  }

  /** Inserting into a reused slot keeps the invariant, with the chain's head removed. */
  lemma EmplacedReuseWellFormed(m: Store, free: seq<nat>, v: int, m1: Store, k: Key)
    requires WellFormed(m, free) && free != [] && (m1, k) == Emplaced(m, v)
    ensures WellFormed(m1, free[1..])
  {
    var s := free[0];
    var free1 := free[1..];
    assert s !in free1 by {
      forall j | 0 <= j < |free1| ensures free1[j] != s {
        assert free[j + 1] != free[0];
      }
    }
    assert (s == m.lastAvailable) <==> |free| == 1 by {
      if |free| > 1 {
        assert free[0] != free[|free| - 1];
      }
    }
    forall p | 0 <= p < |m1.reverseMap|
      ensures m1.slots[m1.reverseMap[p]].index == p && m1.reverseMap[p] !in free1
    {
      if p < |m.values| {
        assert m.reverseMap[p] !in free;
      }
    }
    forall t | 0 <= t < |m1.slots| && t !in free1
      ensures Occupied(m1, t)
    {
      if t != s {
        assert t !in free;
        assert Occupied(m, t);
      }
    }
    forall i | 0 <= i < |free1| - 1
      ensures m1.slots[free1[i]].index == free1[i + 1]
    {
      assert free1[i] == free[i + 1] && free[i + 1] != free[0];
    }
  }

  /**
   * insert appends the value, returns a key that was not valid before and
   * now finds the new value at the end, and leaves every other key finding
   * what it found before.  The key reuses the oldest free slot with its
   * current generation, or is a new slot at generation 0.
   */
  lemma EmplacedSpec(m: Store, free: seq<nat>, v: int, m1: Store, k: Key)
    requires WellFormed(m, free) && (m1, k) == Emplaced(m, v)
    ensures WellFormed(m1, Tail(free))
    ensures m1.values == m.values + [v] && |m1.slots| == |m.slots| + (if free == [] then 1 else 0)
    ensures k == if free == [] then Key(|m.slots|, 0) else Key(free[0], m.slots[free[0]].generation)
    ensures !Live(m, free, k) && Live(m1, Tail(free), k)
    ensures Located(m1, k) == |m.values| && Lookup(m1, k) == Some(v) && Lookup(m, k) == None
    ensures forall k' | k' != k :: Lookup(m1, k') == Lookup(m, k')
    ensures forall s | 0 <= s < |m.slots| :: m1.slots[s].generation == m.slots[s].generation
    ensures forall e: Key | e.index < |m.slots| && e.generation < m.slots[e.index].generation :: e != k && Lookup(m1, e) == None
  {
    if free == [] {
      EmplacedNewSlotWellFormed(m, free, v, m1, k);
    } else {
      EmplacedReuseWellFormed(m, free, v, m1, k);
    }
    EmplacedGenerations(m, v, {});
    forall e: Key | e.index < |m.slots| && e.generation < m.slots[e.index].generation
      ensures e != k && Lookup(m1, e) == None
    {
      StaleKeyNotFound(m1, e);
    }
    LocatedIffLive(m, free, k);
    KeyAtLocated(m1, Tail(free), |m.values|);
    forall k' | k' != k
      ensures Lookup(m1, k') == Lookup(m, k')
    {
      EmplacedOther(m, free, v, m1, k, k');
    }
  }

  /** A key other than the new one finds the same value before and after insert. */
  lemma EmplacedOther(m: Store, free: seq<nat>, v: int, m1: Store, k: Key, k': Key)
    requires WellFormed(m, free) && (m1, k) == Emplaced(m, v) && k' != k
    requires WellFormed(m1, Tail(free))
    ensures Lookup(m1, k') == Lookup(m, k')
  {
    LocatedIffLive(m, free, k');
    LocatedIffLive(m1, Tail(free), k');
    if Live(m, free, k') {
      assert k'.index != k.index;
      assert m1.slots[k'.index] == m.slots[k'.index];
    } else if k'.index != k.index && k'.index < |m.slots| {
      assert m1.slots[k'.index] == m.slots[k'.index];
      assert k'.index in free ==> k'.index in Tail(free);
    }
  }

  // ---------------------------------------------------------------- erase

  /**
   * erase at physical position p: the last value moves into the hole and its
   * slot is repointed; the erased slot gets the next generation and is linked
   * after the current tail of the free chain (or starts the chain).
   */
  function ErasedAt(m: Store, p: nat): Store
    requires Shaped(m) && p < |m.values|
  {
    var back := |m.values| - 1;
    var s := m.reverseMap[p];
    var moved := m.reverseMap[back];
    var slots1 := m.slots[moved := Slot(p, m.slots[moved].generation)];
    var slots2 := slots1[s := Slot(slots1[s].index, slots1[s].generation + 1)];
    var values1 := m.values[p := m.values[back]][..back];
    var reverse1 := m.reverseMap[p := moved][..back];
    if m.nextAvailable < |m.slots| then
      var tail := m.lastAvailable;
      Store(slots2[tail := Slot(s, slots2[tail].generation)], values1, reverse1, m.nextAvailable, s)
    else
      Store(slots2, values1, reverse1, s, s)
  }

  /** The reverse-map entry of a value is not any other value's entry. */
  lemma ReverseInjective(m: Store, free: seq<nat>, p: nat, q: nat)
    requires WellFormed(m, free) && p < |m.values| && q < |m.values| && p != q
    ensures m.reverseMap[p] != m.reverseMap[q]
  {
    assert m.slots[m.reverseMap[p]].index == p;
    assert m.slots[m.reverseMap[q]].index == q;
  }

  /** Erasing keeps the invariant, with the erased slot appended to the free chain. */
  lemma ErasedWellFormed(m: Store, free: seq<nat>, p: nat, m1: Store)
    requires WellFormed(m, free) && p < |m.values| && m1 == ErasedAt(m, p)
    ensures WellFormed(m1, free + [m.reverseMap[p]])
    ensures |m1.slots| == |m.slots|
    ensures forall t | 0 <= t < |m.slots| && t != m.reverseMap[p] :: m1.slots[t].generation == m.slots[t].generation
    ensures m1.slots[m.reverseMap[p]].generation == m.slots[m.reverseMap[p]].generation + 1
  {
    var free1 := free + [m.reverseMap[p]];
    ErasedReverse(m, free, p, m1);
    ErasedCover(m, free, p, m1);
    ErasedChain(m, free, p, m1);
    assert m.reverseMap[p] !in free;
    assert m.reverseMap[|m.values| - 1] !in free;
  }

  /** After erase, every reverse-map entry names a non-free slot that points back at it. */
  lemma ErasedReverse(m: Store, free: seq<nat>, p: nat, m1: Store)
    requires WellFormed(m, free) && p < |m.values| && m1 == ErasedAt(m, p)
    ensures |m1.reverseMap| == |m1.values| && |m1.slots| == |m.slots|
    ensures forall q | 0 <= q < |m1.reverseMap| ::
      m1.reverseMap[q] < |m1.slots| && m1.slots[m1.reverseMap[q]].index == q && m1.reverseMap[q] !in free + [m.reverseMap[p]]
  {
    var back := |m.values| - 1;
    var s := m.reverseMap[p];
    var moved := m.reverseMap[back];
    var free1 := free + [s];
    assert moved !in free;
    assert p != back ==> moved != s by {
      if p != back { ReverseInjective(m, free, p, back); }
    }
    forall q | 0 <= q < |m1.reverseMap|
      ensures m1.reverseMap[q] < |m1.slots| && m1.slots[m1.reverseMap[q]].index == q && m1.reverseMap[q] !in free1
    {
      if q != p {
        ReverseInjective(m, free, q, p);
        ReverseInjective(m, free, q, back);
        assert m.reverseMap[q] !in free;
      }
    }
  }

  /** After erase, every slot off the free chain (now ending in the erased slot) is occupied. */
  lemma ErasedCover(m: Store, free: seq<nat>, p: nat, m1: Store)
    requires WellFormed(m, free) && p < |m.values| && m1 == ErasedAt(m, p)
    ensures forall t | 0 <= t < |m1.slots| && t !in free + [m.reverseMap[p]] :: Occupied(m1, t)
  {
    var back := |m.values| - 1;
    var s := m.reverseMap[p];
    var moved := m.reverseMap[back];
    var free1 := free + [s];
    assert p != back ==> moved != s by {
      if p != back { ReverseInjective(m, free, p, back); }
    }
    forall t | 0 <= t < |m1.slots| && t !in free1
      ensures Occupied(m1, t)
    {
      assert t !in free && t != s;
      assert Occupied(m, t);
      if t != moved {
        assert m.slots[t].index != back;
        assert m.slots[t].index != p;
      }
    }
  }

  /** After erase, the free chain is the old one with the erased slot linked after its tail. */
  lemma ErasedChain(m: Store, free: seq<nat>, p: nat, m1: Store)
    requires WellFormed(m, free) && p < |m.values| && m1 == ErasedAt(m, p)
    ensures FreeList(m1, free + [m.reverseMap[p]])
  {
    var back := |m.values| - 1;
    var s := m.reverseMap[p];
    var free1 := free + [s];
    assert s !in free;
    assert m.reverseMap[back] !in free;
    forall i | 0 <= i < |free1| - 1
      ensures m1.slots[free1[i]].index == free1[i + 1]
    {
      if i < |free| - 1 {
        assert free[i] != free[|free| - 1];
      }
    }
    forall i, j | 0 <= i < j < |free1|
      ensures free1[i] != free1[j]
    {
      if j == |free| {
        assert free1[i] == free[i];
      }
    }
  }

  /** Facts about the values left after swap-and-pop at position p. */
  lemma ErasedValues(a: seq<int>, p: nat, b: seq<int>)
    requires p < |a| && b == a[p := a[|a| - 1]][..|a| - 1]
    ensures |b| == |a| - 1 && b[..p] == a[..p]
    ensures p < |b| ==> b[p] == a[|a| - 1] && b[p + 1..] == a[p + 1..|a| - 1]
    ensures multiset(b) == multiset(a) - multiset{a[p]}
  {
    var back := |a| - 1;
    if p == back {
      assert b == a[..back];
      assert multiset(b) == multiset(a) - multiset{a[p]} by {
        assert a == b + [a[p]];
      }
    } else {
      assert b == a[..p] + [a[back]] + a[p + 1..back];
      SwapPopMultiset(a, p, b);
    }
  }

  /** Moving the last element into position p and dropping it removes one copy of a[p]. */
  lemma SwapPopMultiset(a: seq<int>, p: nat, b: seq<int>)
    requires p < |a| - 1 && b == a[..p] + [a[|a| - 1]] + a[p + 1..|a| - 1]
    ensures multiset(b) == multiset(a) - multiset{a[p]}
  {
    var back := |a| - 1;
    assert a == a[..p] + [a[p]] + a[p + 1..back] + [a[back]];
    assert multiset(a) == multiset(b) + multiset{a[p]};
  }

  /**
   * erase at position p removes exactly the value there (the last value
   * takes its place), expires exactly the key that owned it, and leaves
   * every other key finding the value it found before.
   */
  lemma ErasedSpec(m: Store, free: seq<nat>, p: nat, m1: Store)
    requires WellFormed(m, free) && p < |m.values| && m1 == ErasedAt(m, p)
    ensures WellFormed(m1, free + [m.reverseMap[p]])
    ensures |m1.values| == |m.values| - 1 && m1.values[..p] == m.values[..p]
    ensures p < |m1.values| ==> m1.values[p] == m.values[|m.values| - 1] && m1.values[p + 1..] == m.values[p + 1..|m.values| - 1]
    ensures multiset(m1.values) == multiset(m.values) - multiset{m.values[p]}
    ensures !Live(m1, free + [m.reverseMap[p]], KeyAt(m, p)) && Lookup(m1, KeyAt(m, p)) == None
    ensures forall k | k != KeyAt(m, p) :: Lookup(m1, k) == Lookup(m, k)
    ensures forall q | 0 <= q < p :: KeyAt(m1, q) == KeyAt(m, q)
    ensures |m1.slots| == |m.slots| && m1.slots[m.reverseMap[p]].generation == m.slots[m.reverseMap[p]].generation + 1
  {
    ErasedWellFormed(m, free, p, m1);
    ErasedValues(m.values, p, m1.values);
    var free1 := free + [m.reverseMap[p]];
    LocatedIffLive(m1, free1, KeyAt(m, p));
    forall k | k != KeyAt(m, p)
      ensures Lookup(m1, k) == Lookup(m, k)
    {
      ErasedOther(m, free, p, m1, k);
    }
    forall q | 0 <= q < p
      ensures KeyAt(m1, q) == KeyAt(m, q)
    {
      ReverseInjective(m, free, q, p);
    }
  }

  /** A key other than the erased one finds the same value before and after erase. */
  lemma ErasedOther(m: Store, free: seq<nat>, p: nat, m1: Store, k: Key)
    requires WellFormed(m, free) && p < |m.values| && m1 == ErasedAt(m, p) && k != KeyAt(m, p)
    requires WellFormed(m1, free + [m.reverseMap[p]])
    requires forall t | 0 <= t < |m.slots| && t != m.reverseMap[p] :: m1.slots[t].generation == m.slots[t].generation
    requires |m1.values| == |m.values| - 1 && m1.values[..p] == m.values[..p]
    requires p < |m1.values| ==> m1.values[p] == m.values[|m.values| - 1] && m1.values[p + 1..] == m.values[p + 1..|m.values| - 1]
    ensures Lookup(m1, k) == Lookup(m, k)
  {
    var free1 := free + [m.reverseMap[p]];
    var back := |m.values| - 1;
    LocatedIffLive(m, free, k);
    LocatedIffLive(m1, free1, k);
    if Live(m, free, k) {
      var q := Located(m, k);
      assert q != p;
      if q == back {
        assert m.reverseMap[back] == k.index;
        assert Located(m1, k) == p;
      } else {
        assert m.reverseMap[q] == k.index;
        if q < p {
          assert m1.values[q] == m1.values[..p][q];
        } else {
          assert m1.values[q] == m1.values[p + 1..][q - p - 1];
        }
        assert Located(m1, k) == q;
      }
    } else if k.index < |m.slots| && k.index != m.reverseMap[p] {
      assert !Live(m1, free1, k);
    }
  }

  // ---------------------------------------------------------------- reserve_slots

  /**
   * One step of reserve_slots: append a new slot at generation 0 and link it
   * after the tail of the free chain (or start the chain with it).
   */
  function WithFreeSlot(m: Store): Store
    requires Shaped(m)
  {
    var s := |m.slots|;
    if m.nextAvailable < |m.slots| then
      var tail := m.lastAvailable;
      Store(m.slots[tail := Slot(s, m.slots[tail].generation)] + [Slot(s + 1, 0)], m.values, m.reverseMap, m.nextAvailable, s)
    else
      Store(m.slots + [Slot(s + 1, 0)], m.values, m.reverseMap, s, s)
  }

  /** A reserved slot joins the tail of the free chain; no value and no key is affected. */
  lemma WithFreeSlotSpec(m: Store, free: seq<nat>, m1: Store)
    requires WellFormed(m, free) && m1 == WithFreeSlot(m)
    ensures WellFormed(m1, free + [|m.slots|])
    ensures |m1.slots| == |m.slots| + 1 && m1.values == m.values && m1.reverseMap == m.reverseMap
    ensures forall k :: Lookup(m1, k) == Lookup(m, k)
  {
    var s := |m.slots|;
    var free1 := free + [s];
    assert s !in free;
    forall t | 0 <= t < |m1.slots| && t !in free1
      ensures Occupied(m1, t)
    {
      assert Occupied(m, t);
    }
    forall i | 0 <= i < |free1| - 1
      ensures m1.slots[free1[i]].index == free1[i + 1]
    {
      if i < |free| - 1 {
        assert free[i] != free[|free| - 1];
      }
    }
    forall i, j | 0 <= i < j < |free1|
      ensures free1[i] != free1[j]
    {
      if j == |free| {
        assert free1[i] == free[i];
      }
    }
    assert WellFormed(m1, free1);
    forall k
      ensures Lookup(m1, k) == Lookup(m, k)
    {
      LocatedIffLive(m, free, k);
      LocatedIffLive(m1, free1, k);
      if k.index < s {
        assert m1.slots[k.index].generation == m.slots[k.index].generation;
        assert Live(m, free, k) ==> m1.slots[k.index] == m.slots[k.index];
      }
    }
  }

  // ---------------------------------------------------------------- partition

  /**
   * Exchange the values at positions i and j, together with their
   * reverse-map entries, and repoint the two owning slots.
   */
  function Swapped(m: Store, i: nat, j: nat): Store
    requires Shaped(m) && i < |m.values| && j < |m.values|
  {
    var a := m.reverseMap[i];
    var b := m.reverseMap[j];
    var slots1 := m.slots[a := Slot(j, m.slots[a].generation)];
    var slots2 := slots1[b := Slot(i, slots1[b].generation)];
    Store(slots2, m.values[i := m.values[j]][j := m.values[i]], m.reverseMap[i := b][j := a],
          m.nextAvailable, m.lastAvailable)
  }

  /** Exchanging two values keeps the invariant and the free chain, and every key still finds its value. */
  lemma SwappedSpec(m: Store, free: seq<nat>, i: nat, j: nat, m1: Store)
    requires WellFormed(m, free) && i < |m.values| && j < |m.values| && m1 == Swapped(m, i, j)
    ensures WellFormed(m1, free)
    ensures m1.values == m.values[i := m.values[j]][j := m.values[i]]
    ensures multiset(m1.values) == multiset(m.values) && |m1.slots| == |m.slots|
    ensures forall k :: Lookup(m1, k) == Lookup(m, k)
  {
    SwappedWellFormed(m, free, i, j, m1);
    forall k
      ensures Lookup(m1, k) == Lookup(m, k)
    {
      SwappedLookup(m, free, i, j, m1, k);
    }
  }

  lemma SwappedWellFormed(m: Store, free: seq<nat>, i: nat, j: nat, m1: Store)
    requires WellFormed(m, free) && i < |m.values| && j < |m.values| && m1 == Swapped(m, i, j)
    ensures WellFormed(m1, free)
    ensures forall t | 0 <= t < |m.slots| :: m1.slots[t].generation == m.slots[t].generation
  {
    var a := m.reverseMap[i];
    var b := m.reverseMap[j];
    assert a !in free && b !in free;
    assert i != j ==> a != b by {
      if i != j { ReverseInjective(m, free, i, j); }
    }
    forall q | 0 <= q < |m1.reverseMap|
      ensures m1.reverseMap[q] < |m1.slots| && m1.slots[m1.reverseMap[q]].index == q && m1.reverseMap[q] !in free
    {
      if q != i && q != j {
        ReverseInjective(m, free, q, i);
        ReverseInjective(m, free, q, j);
        assert m.reverseMap[q] !in free;
      }
    }
    forall t | 0 <= t < |m1.slots| && t !in free
      ensures Occupied(m1, t)
    {
      assert Occupied(m, t);
    }
  }

  lemma SwappedLookup(m: Store, free: seq<nat>, i: nat, j: nat, m1: Store, k: Key)
    requires WellFormed(m, free) && i < |m.values| && j < |m.values| && m1 == Swapped(m, i, j)
    requires WellFormed(m1, free)
    requires forall t | 0 <= t < |m.slots| :: m1.slots[t].generation == m.slots[t].generation
    ensures Lookup(m1, k) == Lookup(m, k)
  {
    LocatedIffLive(m, free, k);
    LocatedIffLive(m1, free, k);
    if Live(m, free, k) {
      var q := Located(m, k);
      assert m.reverseMap[q] == k.index;
      if q != i && q != j {
        ReverseInjective(m, free, q, i);
        ReverseInjective(m, free, q, j);
      }
    } else if k.index < |m.slots| {
      assert m1.slots[k.index].generation == m.slots[k.index].generation;
    }
  }

  // ---------------------------------------------------------------- sums

  /** The sum of a sequence of values. */
  function Sum(s: seq<int>): int
  {
    if s == [] then 0 else s[0] + Sum(s[1..])
  }

  lemma {:induction false} SumAppend(a: seq<int>, b: seq<int>)
    ensures Sum(a + b) == Sum(a) + Sum(b)
  {
    if a == [] {
      assert a + b == b;
    } else {
      assert (a + b)[0] == a[0];
      assert (a + b)[1..] == a[1..] + b;
      SumAppend(a[1..], b);
    }
  }

  /** The sum depends only on which values occur how often, not on their order. */
  lemma {:induction false} SumPermutation(a: seq<int>, b: seq<int>)
    requires multiset(a) == multiset(b)
    ensures Sum(a) == Sum(b)
    decreases |a|
  {
    if a == [] {
      assert |b| == |multiset(b)| == 0;
    } else {
      assert a == [a[0]] + a[1..];
      assert a[0] in multiset(b);
      var j :| 0 <= j < |b| && b[j] == a[0];
      var rest := b[..j] + b[j + 1..];
      assert b == b[..j] + [b[j]] + b[j + 1..];
      assert multiset(b) == multiset(rest) + multiset{a[0]};
      assert multiset(a) == multiset(a[1..]) + multiset{a[0]};
      MultisetCancel(multiset(rest), multiset(a[1..]), a[0]);
      SumPermutation(a[1..], rest);
      SumAppend(b[..j], b[j + 1..]);
      SumAppend(b[..j] + [b[j]], b[j + 1..]);
      SumAppend(b[..j], [b[j]]);
    }
  }

  /** One insert of the insert-all loop: the earlier keys keep their values and the new key finds its own. */
  lemma InsertAllKeys(m1: Store, m2: Store, keys1: seq<Key>, k: Key, vs: seq<int>)
    requires |keys1| + 1 == |vs| && Shaped(m1) && Shaped(m2)
    requires forall j | 0 <= j < |keys1| :: Lookup(m1, keys1[j]) == Some(vs[j])
    requires Lookup(m1, k) == None && Lookup(m2, k) == Some(vs[|keys1|])
    requires forall k' | k' != k :: Lookup(m2, k') == Lookup(m1, k')
    ensures forall j | 0 <= j < |vs| :: Lookup(m2, (keys1 + [k])[j]) == Some(vs[j])
  {
    forall j | 0 <= j < |vs| ensures Lookup(m2, (keys1 + [k])[j]) == Some(vs[j]) {
      if j < |keys1| {
        assert (keys1 + [k])[j] == keys1[j];
      }
    }
  }

  /** The erase branch of the erase-while-iterating loop keeps its three invariants. */
  lemma EraseInLoopErased(before: seq<int>, after: seq<int>, it: nat, t: int, v0: seq<int>, visited: seq<int>)
    requires it < |before| && before[it] > t && |after| == |before| - 1 && after[..it] == before[..it]
    requires multiset(after) == multiset(before) - multiset{before[it]}
    requires multiset(visited) + multiset(before[it..]) == multiset(v0)
    requires forall q | 0 <= q < it :: before[q] <= t
    requires forall x | x <= t :: multiset(before)[x] == multiset(v0)[x]
    ensures multiset(visited + [before[it]]) + multiset(after[it..]) == multiset(v0)
    ensures forall q | 0 <= q < it :: after[q] <= t
    ensures forall x | x <= t :: multiset(after)[x] == multiset(v0)[x]
  {
    assert before[it..] == [before[it]] + before[it + 1..];
    SuffixAfterRemoval(before, after, it);
    forall q | 0 <= q < it ensures after[q] <= t {
      assert after[q] == before[..it][q];
    }
  }

  /** The keep branch of the erase-while-iterating loop keeps its three invariants. */
  lemma EraseInLoopKept(vs: seq<int>, it: nat, t: int, v0: seq<int>, visited: seq<int>)
    requires it < |vs| && vs[it] <= t
    requires multiset(visited) + multiset(vs[it..]) == multiset(v0)
    requires forall q | 0 <= q < it :: vs[q] <= t
    ensures multiset(visited + [vs[it]]) + multiset(vs[it + 1..]) == multiset(v0)
    ensures forall q | 0 <= q < it + 1 :: vs[q] <= t
  {
    assert vs[it..] == [vs[it]] + vs[it + 1..];
  }

  /** Splitting off a prefix that two sequences share, the suffixes keep the multiset relation. */
  lemma SuffixAfterRemoval(a: seq<int>, b: seq<int>, p: nat)
    requires p < |a| && |b| == |a| - 1 && b[..p] == a[..p]
    requires multiset(b) == multiset(a) - multiset{a[p]}
    ensures multiset(b[p..]) == multiset(a[p + 1..])
  {
    assert a == a[..p] + [a[p]] + a[p + 1..];
    assert b == b[..p] + b[p..];
    assert multiset(a) == multiset(a[..p]) + multiset(a[p + 1..]) + multiset{a[p]};
    assert multiset(b) == multiset(a[..p]) + multiset(b[p..]);
    assert multiset(b) + multiset{a[p]} == multiset(a);
    forall x ensures multiset(b[p..])[x] == multiset(a[p + 1..])[x] {
      assert multiset(b)[x] + multiset{a[p]}[x] == multiset(a)[x];
    }
  }

  /** Keeping a prefix and the values beyond a range, in any order, removes exactly the range. */
  lemma RangeRemoved(a: seq<int>, b: seq<int>, first: nat, last: nat)
    requires first <= last <= |a| && first <= |b| && b[..first] == a[..first]
    requires multiset(b[first..]) == multiset(a[last..])
    ensures multiset(b) == multiset(a) - multiset(a[first..last])
  {
    assert b == b[..first] + b[first..];
    assert a == a[..first] + a[first..last] + a[last..];
  }

  /** Adding the same element to two multisets leaves them equal only if they were equal. */
  lemma MultisetCancel(x: multiset<int>, y: multiset<int>, e: int)
    requires x + multiset{e} == y + multiset{e}
    ensures x == y
  {
    forall z ensures x[z] == y[z] {
      assert (x + multiset{e})[z] == (y + multiset{e})[z];
    }
  }

  // ---------------------------------------------------------------- scenarios

  /**
   * In a map whose slots are all in use, erasing a key and inserting again
   * reuses the erased key's slot with the generation one higher, and the old
   * key stays expired.
   */
  lemma GenerationsDontSkip(m: Store, k1: Key, m1: Store, v: int, m2: Store, k2: Key)
    requires WellFormed(m, []) && Live(m, [], k1)
    requires m1 == ErasedAt(m, Located(m, k1)) && (m2, k2) == Emplaced(m1, v)
    ensures k2 == Key(k1.index, k1.generation + 1)
    ensures Lookup(m2, k1) == None && Lookup(m2, k2) == Some(v)
  {
    LocatedIffLive(m, [], k1);
    var p := Located(m, k1);
    ErasedSpec(m, [], p, m1);
    assert [] + [k1.index] == [k1.index];
    EmplacedSpec(m1, [k1.index], v, m2, k2);
  }

  /**
   * In a full map, erase two keys; then insert, erase, insert again: the two
   * inserts take the two freed slots in the order they were freed, so they
   * use different indices, and the size is two below the slot count in between.
   */
  lemma IndexesAreUsedEvenly(m: Store, k1: Key, k2: Key, v1: int, v2: int,
                             ma: Store, mb: Store, mc: Store, a: Key, md: Store, me: Store, b: Key)
    requires WellFormed(m, []) && Live(m, [], k1) && Live(m, [], k2) && k1 != k2
    requires ma == ErasedAt(m, Located(m, k1))
    requires Shaped(ma) && Located(ma, k2) < |ma.values| && mb == ErasedAt(ma, Located(ma, k2))
    requires Shaped(mb) && (mc, a) == Emplaced(mb, v1)
    requires Shaped(mc) && Located(mc, a) < |mc.values| && md == ErasedAt(mc, Located(mc, a))
    requires Shaped(md) && (me, b) == Emplaced(md, v2)
    ensures |mb.values| + 2 == |mb.slots|
    ensures a.index == k1.index && b.index == k2.index && a.index != b.index
  {
    var s1, s2 := k1.index, k2.index;
    assert s1 != s2;
    assert WellFormed(mb, [s1, s2]) by {
      TwoErased(m, k1, k2, ma, mb);
    }
    FifoReuse(mb, s1, s2, v1, v2, mc, a, md, me, b);
  }

  /** With free chain [s1, s2], insert, erase that key, insert: the inserts take s1 and then s2. */
  lemma FifoReuse(mb: Store, s1: nat, s2: nat, v1: int, v2: int, mc: Store, a: Key, md: Store, me: Store, b: Key)
    requires WellFormed(mb, [s1, s2]) && (mc, a) == Emplaced(mb, v1)
    requires Shaped(mc) && Located(mc, a) < |mc.values| && md == ErasedAt(mc, Located(mc, a))
    requires Shaped(md) && (me, b) == Emplaced(md, v2)
    ensures a.index == s1 && b.index == s2
  {
    FifoFirst(mb, s1, s2, v1, mc, a);
    FifoErase(mc, s2, a, md);
    EmplacedSpec(md, [s2, s1], v2, me, b);
  }

  /** Inserting into a map whose free chain is [s1, s2] takes s1 and leaves [s2]. */
  lemma FifoFirst(mb: Store, s1: nat, s2: nat, v1: int, mc: Store, a: Key)
    requires WellFormed(mb, [s1, s2]) && (mc, a) == Emplaced(mb, v1)
    ensures WellFormed(mc, [s2]) && a.index == s1 && Live(mc, [s2], a)
  {
    EmplacedSpec(mb, [s1, s2], v1, mc, a);
    assert Tail([s1, s2]) == [s2];
  }

  /** Erasing live key a from a map whose free chain is [s2] leaves the chain [s2, a.index]. */
  lemma FifoErase(mc: Store, s2: nat, a: Key, md: Store)
    requires WellFormed(mc, [s2]) && Live(mc, [s2], a)
    requires Shaped(mc) && md == ErasedAt(mc, Located(mc, a))
    ensures WellFormed(md, [s2, a.index])
  {
    LocatedIffLive(mc, [s2], a);
    var free := [s2] + [mc.reverseMap[Located(mc, a)]];
    assert free == [s2, a.index];
    ErasedWellFormed(mc, [s2], Located(mc, a), md);
  }

  /** Erasing two distinct valid keys of a full map leaves their slots on the free chain, in that order. */
  lemma TwoErased(m: Store, k1: Key, k2: Key, ma: Store, mb: Store)
    requires WellFormed(m, []) && Live(m, [], k1) && Live(m, [], k2) && k1 != k2
    requires ma == ErasedAt(m, Located(m, k1))
    requires Shaped(ma) && Located(ma, k2) < |ma.values| && mb == ErasedAt(ma, Located(ma, k2))
    ensures WellFormed(mb, [k1.index, k2.index])
  {
    assert WellFormed(ma, [k1.index]) && Lookup(ma, k2) == Lookup(m, k2) by {
      LocatedIffLive(m, [], k1);
      ErasedSpec(m, [], Located(m, k1), ma);
      assert [] + [k1.index] == [k1.index];
    }
    assert ma.reverseMap[Located(ma, k2)] == k2.index by {
      LocatedIffLive(m, [], k2);
      LocatedIffLive(ma, [k1.index], k2);
    }
    assert [k1.index] + [k2.index] == [k1.index, k2.index];
    ErasedWellFormed(ma, [k1.index], Located(ma, k2), mb);
  }

  // ---------------------------------------------------------------- generations

  /** No slot disappears and no slot's generation goes down from m to m1. */
  predicate NoGenerationLowered(m: Store, m1: Store)
  {
    |m.slots| <= |m1.slots| && forall s | 0 <= s < |m.slots| :: m.slots[s].generation <= m1.slots[s].generation
  }

  /** Every key of ex names an existing slot whose generation has since moved past it. */
  ghost predicate Expired(m: Store, ex: set<Key>)
  {
    forall e | e in ex :: e.index < |m.slots| && e.generation < m.slots[e.index].generation
  }

  /** A key whose generation is below its slot's is never found. */
  lemma StaleKeyNotFound(m: Store, k: Key)
    requires Shaped(m) && k.index < |m.slots| && k.generation < m.slots[k.index].generation
    ensures Located(m, k) == |m.values| && Lookup(m, k) == None
  {
  }

  /** No expired key is found. */
  lemma ExpiredNotFound(m: Store, ex: set<Key>)
    requires Shaped(m) && Expired(m, ex)
    ensures forall e | e in ex :: Lookup(m, e) == None
  {
    forall e | e in ex
      ensures Lookup(m, e) == None
    {
      StaleKeyNotFound(m, e);
    }
  }

  /** Once expired, a key stays expired through every step that lowers no generation. */
  lemma ExpiredKept(m: Store, m1: Store, ex: set<Key>)
    requires Expired(m, ex) && NoGenerationLowered(m, m1)
    ensures Expired(m1, ex)
  {
    forall e | e in ex
      ensures e.index < |m1.slots| && e.generation < m1.slots[e.index].generation
    {
      assert m.slots[e.index].generation <= m1.slots[e.index].generation;
    }
  }

  /**
   * insert keeps every slot's generation and issues the current generation
   * of the slot it fills, so the new key is none of the expired ones.
   */
  lemma EmplacedGenerations(m: Store, v: int, ex: set<Key>)
    requires Shaped(m) && Expired(m, ex)
    ensures var (m1, k) := Emplaced(m, v);
      && NoGenerationLowered(m, m1)
      && (forall s | 0 <= s < |m.slots| :: m1.slots[s].generation == m.slots[s].generation)
      && k.index < |m1.slots| && k.generation == m1.slots[k.index].generation
      && k !in ex && Expired(m1, ex)
  {
    var (m1, k) := Emplaced(m, v);
    assert forall s | 0 <= s < |m.slots| :: m1.slots[s].generation == m.slots[s].generation;
    ExpiredKept(m, m1, ex);
  }

  /**
   * erase at position p lowers no generation and moves the erased slot to
   * the next one, so the erased key joins the expired keys.
   */
  lemma ErasedAtGenerations(m: Store, p: nat, ex: set<Key>)
    requires Shaped(m) && p < |m.values| && Expired(m, ex)
    ensures NoGenerationLowered(m, ErasedAt(m, p))
    ensures ErasedAt(m, p).slots[KeyAt(m, p).index].generation == KeyAt(m, p).generation + 1
    ensures Expired(ErasedAt(m, p), ex + {KeyAt(m, p)})
  {
    var m1 := ErasedAt(m, p);
    var s := m.reverseMap[p];
    forall t | 0 <= t < |m.slots|
      ensures m.slots[t].generation <= m1.slots[t].generation
    {
    }
    ExpiredKept(m, m1, ex);
  }

  /** reserve_slots' step lowers no generation. */
  lemma WithFreeSlotGenerations(m: Store)
    requires Shaped(m)
    ensures NoGenerationLowered(m, WithFreeSlot(m))
  {
  }

  /** Exchanging two values lowers no generation. */
  lemma SwappedGenerations(m: Store, i: nat, j: nat)
    requires Shaped(m) && i < |m.values| && j < |m.values|
    ensures NoGenerationLowered(m, Swapped(m, i, j))
  {
  }

  // ---------------------------------------------------------------- the container

  /**
   * sg14::slot_map<int>: the slot array, the dense value array, the reverse
   * map and the two ends of the free chain, updated in place.
   */
  class SlotMap {
    var slots: seq<Slot>
    var values: seq<int>
    var reverseMap: seq<nat>
    var nextAvailable: nat
    var lastAvailable: nat
    /** The free slots, oldest first, as threaded through the index fields. */
    ghost var free: seq<nat>
    /** Every key the map has handed out and erased since it was created or cleared. */
    ghost var expired: set<Key>

    function Rep(): Store
      reads this
    {
      Store(slots, values, reverseMap, nextAvailable, lastAvailable)
    }

    ghost predicate Valid()
      reads this
    {
      WellFormed(Rep(), free) && Expired(Rep(), expired)
    }

    constructor ()
      ensures Valid() && Rep() == Empty && free == [] && expired == {}
    {
      slots, values, reverseMap := [], [], [];
      nextAvailable, lastAvailable := 0, 0;
      free := [];
      expired := {};
    }

    /** size(): one reverse-map entry per stored value. */
    function Size(): (n: nat)
      reads this
      requires Valid()
      ensures n == |reverseMap|
    {
      |values|
    }

    /** empty(): no handle is valid. */
    function IsEmpty(): (b: bool)
      reads this
      requires Valid()
      ensures b <==> forall k :: !Live(Rep(), free, k)
    {
      if |values| == 0 then
        assert forall k :: !Live(Rep(), free, k) by {
          forall k ensures !Live(Rep(), free, k) {
            LocatedIffLive(Rep(), free, k);
          }
        }
        true
      else
        assert Live(Rep(), free, KeyAt(Rep(), 0)) by {
          KeyAtLocated(Rep(), free, 0);
        }
        false
    }

    /** slot_count(): the stored values plus the free slots. */
    function SlotCount(): (n: nat)
      reads this
      requires Valid()
      ensures n == Size() + |free|
    {
      |slots|
    }

    /**
     * find: the position of the value the key names, or end (Size()) for an
     * expired, free or never-issued key.
     */
    function Find(k: Key): (p: nat)
      reads this
      requires Valid()
      ensures p <= |values|
      ensures p < |values| <==> Live(Rep(), free, k)
      ensures p < |values| ==> KeyAt(Rep(), p) == k
    {
      LocatedIffLive(Rep(), free, k);
      Located(Rep(), k)
    }

    /** at: the value the key names; None stands for std::out_of_range. */
    function At(k: Key): (r: Option<int>)
      reads this
      requires Valid()
      ensures r.Some? <==> Live(Rep(), free, k)
      ensures r.Some? ==> exists p | 0 <= p < |values| :: KeyAt(Rep(), p) == k && values[p] == r.value
    {
      var p := Find(k);
      if p < |values| then Some(values[p]) else None
    }

    /**
     * insert/emplace: append the value and hand out a key for it, reusing the
     * oldest free slot (whose generation was bumped when it was freed) or
     * minting a new slot at generation 0.  The new key is none of the
     * expired ones, and every expired key stays unfound.
     */
    method Insert(v: int) returns (k: Key)
      requires Valid()
      modifies this
      ensures Valid()
      ensures (Rep(), k) == Emplaced(old(Rep()), v) && free == Tail(old(free))
      ensures expired == old(expired) && k !in old(expired)
      ensures forall e | e in expired :: Lookup(Rep(), e) == None
      ensures values == old(values) + [v]
      ensures k == if old(free) == [] then Key(old(|slots|), 0) else Key(old(free[0]), old(slots[free[0]].generation))
      ensures !Live(old(Rep()), old(free), k) && Lookup(old(Rep()), k) == None
      ensures Find(k) == old(|values|) && Lookup(Rep(), k) == Some(v)
      ensures forall k' | k' != k :: Lookup(Rep(), k') == Lookup(old(Rep()), k')
    {
      ghost var m0 := Rep();
      var pos := |values|;
      if nextAvailable >= |slots| {
        var s := |slots|;
        slots := slots + [Slot(pos, 0)];
        nextAvailable, lastAvailable := s + 1, s + 1;
        k := Key(s, 0);
      } else {
        var s := nextAvailable;
        var g := slots[s].generation;
        if s == lastAvailable {
          nextAvailable, lastAvailable := |slots|, |slots|;
        } else {
          nextAvailable := slots[s].index;
        }
        slots := slots[s := Slot(pos, g)];
        k := Key(s, g);
      }
      values := values + [v];
      reverseMap := reverseMap + [k.index];
      free := Tail(free);
      EmplacedSpec(m0, old(free), v, Rep(), k);
      EmplacedGenerations(m0, v, expired);
      ExpiredNotFound(Rep(), expired);
    }

    /**
     * erase(iterator): move the last value into position p, repoint its slot,
     * expire the erased slot (next generation) and append it to the free
     * chain.  The returned position is where iteration continues.
     */
    method ErasePosition(p: nat) returns (next: nat)
      requires Valid() && p < |values|
      modifies this
      ensures Valid()
      ensures Rep() == ErasedAt(old(Rep()), p) && free == old(free) + [old(reverseMap[p])]
      ensures expired == old(expired) + {KeyAt(old(Rep()), p)}
      ensures forall e | e in expired :: Lookup(Rep(), e) == None
      ensures next == p && |values| == old(|values|) - 1 && values[..p] == old(values[..p])
      ensures p < |values| ==> values[p] == old(values[|values| - 1]) && values[p + 1..] == old(values[p + 1..|values| - 1])
      ensures multiset(values) == multiset(old(values)) - multiset{old(values[p])}
      ensures Lookup(Rep(), KeyAt(old(Rep()), p)) == None
      ensures forall k | k != KeyAt(old(Rep()), p) :: Lookup(Rep(), k) == Lookup(old(Rep()), k)
      ensures forall q | 0 <= q < p :: KeyAt(Rep(), q) == KeyAt(old(Rep()), q)
    {
      ghost var m0 := Rep();
      ghost var s := reverseMap[p];
      MoveLastInto(p);
      free := free + [s];
      expired := expired + {KeyAt(m0, p)};
      next := p;
      ErasedSpec(m0, old(free), p, Rep());
      ErasedAtGenerations(m0, p, old(expired));
      ExpiredNotFound(Rep(), expired);
    }

    /** The field updates of erase at position p, and nothing else: the store becomes ErasedAt. */
    method MoveLastInto(p: nat)
      requires Shaped(Rep()) && p < |values|
      modifies this
      ensures Rep() == ErasedAt(old(Rep()), p) && free == old(free) && expired == old(expired)
    {
      var back := |values| - 1;
      var s := reverseMap[p];
      var moved := reverseMap[back];
      var chained := nextAvailable < |slots|;
      var slots1 := slots[moved := Slot(p, slots[moved].generation)];
      var slots2 := slots1[s := Slot(slots1[s].index, slots1[s].generation + 1)];
      values := values[p := values[back]][..back];
      reverseMap := reverseMap[p := moved][..back];
      if chained {
        slots := slots2[lastAvailable := Slot(s, slots2[lastAvailable].generation)];
        lastAvailable := s;
      } else {
        slots := slots2;
        nextAvailable, lastAvailable := s, s;
      }
    }

    /** erase(key): 1 and the value removed for a valid key; 0 and no change otherwise. */
    method EraseKey(k: Key) returns (count: nat)
      requires Valid()
      modifies this
      ensures Valid()
      ensures count == (if Live(old(Rep()), old(free), k) then 1 else 0)
      ensures count == 1 <==> Lookup(old(Rep()), k).Some?
      ensures count == 0 ==> Rep() == old(Rep()) && free == old(free)
      ensures |values| == old(|values|) - count
      ensures Lookup(Rep(), k) == None && !Live(Rep(), free, k)
      ensures forall k' | k' != k :: Lookup(Rep(), k') == Lookup(old(Rep()), k')
      ensures expired == old(expired) + (if count == 1 then {k} else {})
      ensures forall e | e in expired :: Lookup(Rep(), e) == None
    {
      ExpiredNotFound(Rep(), expired);
      var p := Find(k);
      if p == |values| {
        count := 0;
        LocatedIffLive(Rep(), free, k);
      } else {
        var _ := ErasePosition(p);
        count := 1;
        LocatedIffLive(Rep(), free, k);
      }
    }

    /**
     * erase(first, last): erase the positions from last - 1 down to first, so
     * that each erase only moves values from beyond the range into it.
     * Exactly the values in the range go, the prefix stays in place, and
     * exactly the keys of the erased values expire.
     */
    method EraseRange(first: nat, last: nat) returns (r: nat)
      requires Valid() && first <= last <= |values|
      modifies this
      ensures Valid() && r == first
      ensures |values| == old(|values|) - (last - first) && values[..first] == old(values[..first])
      ensures multiset(values) == multiset(old(values)) - multiset(old(values[first..last]))
      ensures forall k :: Lookup(Rep(), k) == if first <= Located(old(Rep()), k) < last then None else Lookup(old(Rep()), k)
      ensures expired == old(expired) + KeysFrom(old(Rep()), first, last)
      ensures forall e | e in expired :: Lookup(Rep(), e) == None
    {
      ghost var m0, f0 := Rep(), free;
      ghost var v0 := values;
      var i := last;
      while i > first
        invariant first <= i <= last && Valid()
        invariant |values| == |v0| - (last - i) && values[..i] == v0[..i]
        invariant multiset(values[i..]) == multiset(v0[last..])
        invariant forall q | 0 <= q < i :: KeyAt(Rep(), q) == KeyAt(m0, q)
        invariant forall k :: Lookup(Rep(), k) == if i <= Located(m0, k) < last then None else Lookup(m0, k)
        invariant expired == old(expired) + KeysFrom(m0, i, last)
        decreases i
      {
        i := i - 1;
        EraseRangeStep(i, m0, f0, last, old(expired));
      }
      RangeRemoved(v0, values, first, last);
      ExpiredNotFound(Rep(), expired);
      r := first;
    }

    /** One step of erase(first, last): erase position i, the last one not yet erased. */
    method EraseRangeStep(i: nat, ghost m0: Store, ghost f0: seq<nat>, ghost last: nat, ghost x0: set<Key>)
      requires Valid() && WellFormed(m0, f0) && i < last <= |m0.values|
      requires |values| == |m0.values| - (last - (i + 1)) && values[..i + 1] == m0.values[..i + 1]
      requires multiset(values[i + 1..]) == multiset(m0.values[last..])
      requires forall q | 0 <= q < i + 1 :: KeyAt(Rep(), q) == KeyAt(m0, q)
      requires forall k :: Lookup(Rep(), k) == if i + 1 <= Located(m0, k) < last then None else Lookup(m0, k)
      requires expired == x0 + KeysFrom(m0, i + 1, last)
      modifies this
      ensures Valid() && |values| == |m0.values| - (last - i) && values[..i] == m0.values[..i]
      ensures multiset(values[i..]) == multiset(m0.values[last..])
      ensures forall q | 0 <= q < i :: KeyAt(Rep(), q) == KeyAt(m0, q)
      ensures forall k :: Lookup(Rep(), k) == if i <= Located(m0, k) < last then None else Lookup(m0, k)
      ensures expired == x0 + KeysFrom(m0, i, last)
    {
      ghost var m1 := Rep();
      ghost var before := values;
      ghost var v0 := m0.values;
      var _ := ErasePosition(i);
      assert values[..i] == v0[..i] by {
        assert before[..i] == before[..i + 1][..i];
        assert v0[..i] == v0[..i + 1][..i];
      }
      assert multiset(values[i..]) == multiset(before[i + 1..]) by {
        SuffixAfterRemoval(before, values, i);
      }
      EraseRangeKeys(m0, f0, m1, Rep(), i, last);
      KeysFromStep(m0, i, last);
    }

    /**
     * Insert every value of vs in turn (the filling loops of the stress
     * tests): each returned key finds its own value, and keys issued before
     * keep finding theirs.
     */
    method InsertAll(vs: seq<int>) returns (keys: seq<Key>)
      requires Valid()
      modifies this
      ensures Valid() && values == old(values) + vs && |keys| == |vs|
      ensures forall i | 0 <= i < |vs| :: Lookup(Rep(), keys[i]) == Some(vs[i])
      ensures forall k | Lookup(old(Rep()), k).Some? :: Lookup(Rep(), k) == Lookup(old(Rep()), k)
      ensures expired == old(expired) && forall e | e in expired :: Lookup(Rep(), e) == None
    {
      keys := [];
      var i := 0;
      while i < |vs|
        invariant Valid() && i <= |vs| && |keys| == i && values == old(values) + vs[..i] && expired == old(expired)
        invariant forall j | 0 <= j < i :: Lookup(Rep(), keys[j]) == Some(vs[j])
        invariant forall k | Lookup(old(Rep()), k).Some? :: Lookup(Rep(), k) == Lookup(old(Rep()), k)
      {
        keys := InsertAllStep(vs, i, keys, old(Rep()));
        i := i + 1;
      }
      assert vs[..i] == vs;
      ExpiredNotFound(Rep(), expired);
    }

    /** One turn of the insert-all loop: insert vs[i] and record its key. */
    method InsertAllStep(vs: seq<int>, i: nat, keys: seq<Key>, ghost m0: Store) returns (keys': seq<Key>)
      requires Valid() && Shaped(m0) && i < |vs| && |keys| == i && values == m0.values + vs[..i]
      requires forall j | 0 <= j < i :: Lookup(Rep(), keys[j]) == Some(vs[j])
      requires forall k | Lookup(m0, k).Some? :: Lookup(Rep(), k) == Lookup(m0, k)
      modifies this
      ensures Valid() && |keys'| == i + 1 && values == m0.values + vs[..i + 1] && expired == old(expired)
      ensures forall j | 0 <= j < i + 1 :: Lookup(Rep(), keys'[j]) == Some(vs[j])
      ensures forall k | Lookup(m0, k).Some? :: Lookup(Rep(), k) == Lookup(m0, k)
    {
      ghost var m1 := Rep();
      var k := Insert(vs[i]);
      keys' := keys + [k];
      InsertAllKeys(m1, Rep(), keys, k, vs[..i + 1]);
      assert vs[..i + 1] == vs[..i] + [vs[i]];
    }

    /**
     * Erase every key of keys in turn (the draining loops of the stress
     * tests): each erase reports one removal, and every erased key stops
     * finding anything while the others keep their values.
     */
    method EraseAll(keys: seq<Key>) returns (counts: seq<nat>)
      requires Valid()
      requires forall i | 0 <= i < |keys| :: Lookup(Rep(), keys[i]).Some?
      requires forall i, j | 0 <= i < j < |keys| :: keys[i] != keys[j]
      modifies this
      ensures Valid() && |values| == old(|values|) - |keys| && |counts| == |keys|
      ensures forall i | 0 <= i < |keys| :: counts[i] == 1 && Lookup(Rep(), keys[i]) == None
      ensures forall k | k !in keys :: Lookup(Rep(), k) == Lookup(old(Rep()), k)
      ensures expired == old(expired) + (set j | 0 <= j < |keys| :: keys[j])
    {
      counts := [];
      var i := 0;
      while i < |keys|
        invariant Valid() && i <= |keys| && |counts| == i && |values| == old(|values|) - i
        invariant forall j | 0 <= j < i :: counts[j] == 1 && Lookup(Rep(), keys[j]) == None
        invariant forall j | i <= j < |keys| :: Lookup(Rep(), keys[j]) == Lookup(old(Rep()), keys[j])
        invariant forall k | k !in keys :: Lookup(Rep(), k) == Lookup(old(Rep()), k)
        invariant expired == old(expired) + (set j | 0 <= j < i :: keys[j])
      {
        counts := EraseAllStep(keys, i, counts, old(Rep()), old(expired));
        i := i + 1;
      }
    }

    /** One turn of the erase-all loop: erase keys[i] and record its count. */
    method EraseAllStep(keys: seq<Key>, i: nat, counts: seq<nat>, ghost m0: Store, ghost x0: set<Key>) returns (counts': seq<nat>)
      requires Valid() && Shaped(m0) && i < |keys| && |counts| == i && |values| == |m0.values| - i
      requires forall j | 0 <= j < |keys| :: Lookup(m0, keys[j]).Some?
      requires forall a, b | 0 <= a < b < |keys| :: keys[a] != keys[b]
      requires forall j | 0 <= j < i :: counts[j] == 1 && Lookup(Rep(), keys[j]) == None
      requires forall j | i <= j < |keys| :: Lookup(Rep(), keys[j]) == Lookup(m0, keys[j])
      requires forall k | k !in keys :: Lookup(Rep(), k) == Lookup(m0, k)
      requires expired == x0 + (set j | 0 <= j < i :: keys[j])
      modifies this
      ensures Valid() && |counts'| == i + 1 && |values| == |m0.values| - (i + 1)
      ensures forall j | 0 <= j < i + 1 :: counts'[j] == 1 && Lookup(Rep(), keys[j]) == None
      ensures forall j | i + 1 <= j < |keys| :: Lookup(Rep(), keys[j]) == Lookup(m0, keys[j])
      ensures forall k | k !in keys :: Lookup(Rep(), k) == Lookup(m0, k)
      ensures expired == x0 + (set j | 0 <= j < i + 1 :: keys[j])
    {
      var c := EraseKey(keys[i]);
      counts' := counts + [c];
      assert (set j | 0 <= j < i + 1 :: keys[j]) == (set j | 0 <= j < i :: keys[j]) + {keys[i]};
      forall k | k !in keys ensures Lookup(Rep(), k) == Lookup(m0, k) {
        assert k != keys[i];
      }
    }

    /**
     * The erase-while-iterating loop: walk the positions, adding each value
     * to total and erasing it when it exceeds t, going on from the position
     * erase returns.  Every value is visited exactly once, so total is the
     * sum of all values; exactly the values above t are gone.
     */
    method EraseInLoop(t: int) returns (total: int)
      requires Valid()
      modifies this
      ensures Valid() && total == Sum(old(values))
      ensures forall q | 0 <= q < |values| :: values[q] <= t
      ensures forall x | x <= t :: multiset(values)[x] == multiset(old(values))[x]
    {
      ghost var v0 := values;
      ghost var visited: seq<int> := [];
      var it: nat := 0;
      total := 0;
      while it < |values|
        invariant Valid() && it <= |values| && total == Sum(visited)
        invariant multiset(visited) + multiset(values[it..]) == multiset(v0)
        invariant forall q | 0 <= q < it :: values[q] <= t
        invariant forall x | x <= t :: multiset(values)[x] == multiset(v0)[x]
        decreases |values| - it
      {
        var x := values[it];
        SumAppend(visited, [x]);
        it := EraseInLoopStep(it, t, v0, visited);
        total, visited := total + x, visited + [x];
      }
      assert values[it..] == [];
      SumPermutation(visited, v0);
    }

    /** One turn of the erase-while-iterating loop: erase the value at it if it exceeds t, else step past it. */
    method EraseInLoopStep(it: nat, t: int, ghost v0: seq<int>, ghost visited: seq<int>) returns (next: nat)
      requires Valid() && it < |values|
      requires multiset(visited) + multiset(values[it..]) == multiset(v0)
      requires forall q | 0 <= q < it :: values[q] <= t
      requires forall x | x <= t :: multiset(values)[x] == multiset(v0)[x]
      modifies this
      ensures Valid() && next <= |values| && |values| - next < old(|values|) - it
      ensures multiset(visited + [old(values[it])]) + multiset(values[next..]) == multiset(v0)
      ensures forall q | 0 <= q < next :: values[q] <= t
      ensures forall x | x <= t :: multiset(values)[x] == multiset(v0)[x]
    {
      var x := values[it];
      ghost var before := values;
      if x > t {
        next := ErasePosition(it);
        EraseInLoopErased(before, values, it, t, v0, visited);
      } else {
        next := it + 1;
        EraseInLoopKept(before, it, t, v0, visited);
      }
    }

    /**
     * partition(pred): reorder the values so that those satisfying pred come
     * first, repointing slots and reverse map for every value moved; every
     * key keeps finding its value.  The result is the pivot position.
     */
    method Partition(pred: int -> bool) returns (pivot: nat)
      requires Valid()
      modifies this
      ensures Valid() && free == old(free) && expired == old(expired) && |slots| == old(|slots|)
      ensures pivot <= |values| && multiset(values) == multiset(old(values))
      ensures forall q | 0 <= q < pivot :: pred(values[q])
      ensures forall q | pivot <= q < |values| :: !pred(values[q])
      ensures forall k :: Lookup(Rep(), k) == Lookup(old(Rep()), k)
    {
      var lo, hi := 0, |values|;
      while lo < hi
        invariant Valid() && free == old(free) && expired == old(expired) && |slots| == old(|slots|)
        invariant 0 <= lo <= hi <= |values| && multiset(values) == multiset(old(values))
        invariant forall q | 0 <= q < lo :: pred(values[q])
        invariant forall q | hi <= q < |values| :: !pred(values[q])
        invariant forall k :: Lookup(Rep(), k) == Lookup(old(Rep()), k)
        decreases hi - lo
      {
        if pred(values[lo]) {
          lo := lo + 1;
        } else {
          hi := hi - 1;
          SwapPositions(lo, hi);
        }
      }
      pivot := lo;
    }

    /** Exchange the values at positions i and j and keep their keys pointing at them. */
    method SwapPositions(i: nat, j: nat)
      requires Valid() && i < |values| && j < |values|
      modifies this
      ensures Valid() && Rep() == Swapped(old(Rep()), i, j) && free == old(free) && expired == old(expired)
      ensures values == old(values)[i := old(values[j])][j := old(values[i])]
      ensures multiset(values) == multiset(old(values)) && |slots| == old(|slots|)
      ensures forall k :: Lookup(Rep(), k) == Lookup(old(Rep()), k)
    {
      ghost var m0 := Rep();
      var a := reverseMap[i];
      var b := reverseMap[j];
      slots := slots[a := Slot(j, slots[a].generation)];
      slots := slots[b := Slot(i, slots[b].generation)];
      values := values[i := values[j]][j := values[i]];
      reverseMap := reverseMap[i := b][j := a];
      SwappedSpec(m0, free, i, j, Rep());
      SwappedGenerations(m0, i, j);
      ExpiredKept(m0, Rep(), expired);
    }

    /** reserve_slots(n): grow the slot array to n free slots' worth without touching values or keys. */
    method ReserveSlots(n: nat)
      requires Valid()
      modifies this
      ensures Valid() && values == old(values) && reverseMap == old(reverseMap) && expired == old(expired)
      ensures |slots| == if n <= old(|slots|) then old(|slots|) else n
      ensures forall k :: Lookup(Rep(), k) == Lookup(old(Rep()), k)
    {
      while |slots| < n
        invariant Valid() && values == old(values) && reverseMap == old(reverseMap) && expired == old(expired)
        invariant old(|slots|) <= |slots| && (|slots| <= n || |slots| == old(|slots|))
        invariant forall k :: Lookup(Rep(), k) == Lookup(old(Rep()), k)
        decreases n - |slots|
      {
        AppendFreeSlot();
      }
    }

    /** One step of reserve_slots: a new slot at generation 0 at the tail of the free chain. */
    method AppendFreeSlot()
      requires Valid()
      modifies this
      ensures Valid() && Rep() == WithFreeSlot(old(Rep())) && free == old(free) + [old(|slots|)]
      ensures expired == old(expired)
      ensures |slots| == old(|slots|) + 1 && values == old(values) && reverseMap == old(reverseMap)
      ensures forall k :: Lookup(Rep(), k) == Lookup(old(Rep()), k)
    {
      ghost var m0 := Rep();
      var s := |slots|;
      if nextAvailable < |slots| {
        slots := slots[lastAvailable := Slot(s, slots[lastAvailable].generation)] + [Slot(s + 1, 0)];
        lastAvailable := s;
      } else {
        slots := slots + [Slot(s + 1, 0)];
        nextAvailable, lastAvailable := s, s;
      }
      free := free + [s];
      WithFreeSlotSpec(m0, old(free), Rep());
      WithFreeSlotGenerations(m0);
      ExpiredKept(m0, Rep(), expired);
    }

    /** clear(): drop every value and every slot; no key finds anything afterwards. */
    method Clear()
      modifies this
      ensures Valid() && Rep() == Empty && free == [] && expired == {}
      ensures forall k :: Lookup(Rep(), k) == None
    {
      slots, values, reverseMap := [], [], [];
      nextAvailable, lastAvailable := 0, 0;
      free := [];
      expired := {};
    }

    /** swap: exchange the whole state with another slot map. */
    method Swap(other: SlotMap)
      requires Valid() && other.Valid()
      modifies this, other
      ensures Valid() && other.Valid()
      ensures Rep() == old(other.Rep()) && free == old(other.free) && expired == old(other.expired)
      ensures other.Rep() == old(Rep()) && other.free == old(free) && other.expired == old(expired)
    {
      ghost var mine, theirs := Rep(), other.Rep();
      ghost var f, g := free, other.free;
      ghost var x, y := expired, other.expired;
      assert WellFormed(mine, f) && WellFormed(theirs, g);
      assert Expired(mine, x) && Expired(theirs, y);
      var s, v, r, n, l := slots, values, reverseMap, nextAvailable, lastAvailable;
      slots, values, reverseMap, nextAvailable, lastAvailable :=
        other.slots, other.values, other.reverseMap, other.nextAvailable, other.lastAvailable;
      free := other.free;
      other.slots, other.values, other.reverseMap, other.nextAvailable, other.lastAvailable := s, v, r, n, l;
      expired := other.expired;
      other.free := f;
      other.expired := x;
      assert Rep() == theirs && free == g && other.Rep() == mine && other.free == f;
      assert expired == y && other.expired == x;
    }
  }

  /** The keys owning the positions [i, last). */
  function KeysFrom(m: Store, i: nat, last: nat): (ks: set<Key>)
    requires Shaped(m) && last <= |m.values|
    ensures forall q | i <= q < last :: KeyAt(m, q) in ks
    ensures forall k | k in ks :: exists q | i <= q < last :: k == KeyAt(m, q)
  {
    set q | i <= q < last :: KeyAt(m, q)
  }

  /** Taking one more position on the left adds its owner. */
  lemma KeysFromStep(m: Store, i: nat, last: nat)
    requires Shaped(m) && i < last <= |m.values|
    ensures KeysFrom(m, i, last) == KeysFrom(m, i + 1, last) + {KeyAt(m, i)}
  {
  }

  /** One backward step of erase(first, last) keeps the loop's account of which keys are expired. */
  lemma EraseRangeKeys(m0: Store, free0: seq<nat>, m1: Store, m2: Store, i: nat, last: nat)
    requires WellFormed(m0, free0) && Shaped(m1) && Shaped(m2)
    requires i < last <= |m0.values| && i < |m1.values| && KeyAt(m1, i) == KeyAt(m0, i)
    requires forall k :: Lookup(m1, k) == if i + 1 <= Located(m0, k) < last then None else Lookup(m0, k)
    requires Lookup(m2, KeyAt(m1, i)) == None
    requires forall k | k != KeyAt(m1, i) :: Lookup(m2, k) == Lookup(m1, k)
    ensures forall k :: Lookup(m2, k) == if i <= Located(m0, k) < last then None else Lookup(m0, k)
  {
    forall k
      ensures Lookup(m2, k) == if i <= Located(m0, k) < last then None else Lookup(m0, k)
    {
      KeyAtLocated(m0, free0, i);
      LocatedIffLive(m0, free0, k);
    }
  }
}
