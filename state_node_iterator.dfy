/**
 * StateNodeIterator: an iterator over the children of a node that skips
 * the null ones.  The iterated map is seen through its keys and the
 * liveness of each child (`live[i]` is the bool conversion of the child
 * under `keys[i]`); a map iterator is a position in 0..|keys|, |keys|
 * being end().
 */
module StateNodeIterators {
  import opened StateValues
  import opened StateTree

  /** The first live position at or after `from`, or the end position if there is none. */
  function NextLive(live: seq<bool>, from: nat): (j: nat)
    requires from <= |live|
    ensures from <= j <= |live|
    ensures j < |live| ==> live[j]
    ensures forall k | from <= k < j :: !live[k]
    decreases |live| - from
  {
    if from == |live| || live[from] then from else NextLive(live, from + 1)
  }

  /** A position that only skips dead children and stops at a live one (or the end) is NextLive. */
  lemma {:induction false} NextLiveUnique(live: seq<bool>, from: nat, j: nat)
    requires from <= j <= |live|
    requires j < |live| ==> live[j]
    requires forall k | from <= k < j :: !live[k]
    ensures j == NextLive(live, from)
    decreases j - from
  {
    if from < j {
      NextLiveUnique(live, from + 1, j);
    }
  }

  class StateNodeIterator {
    var keys: seq<Quark>
    var live: seq<bool>
    /** The underlying map iterator `_it`; `_end` is |keys|. */
    var pos: nat

    ghost predicate Valid()
      reads this
    {
      |keys| == |live| && pos <= |keys|
    }

    /** The end position `_end`. */
    function End(): (e: nat)
      reads this
      ensures e == |keys|
    {
      |keys|
    }

    /** The iterator invariant: at the end or at a live child. */
    ghost predicate AtValid()
      reads this
    {
      Valid() && (pos < |keys| ==> live[pos])
    }

    /** Built from a map iterator and the map's end, then moved past a null child. */
    constructor(keys: seq<Quark>, live: seq<bool>, it: nat)
      requires |keys| == |live| && it <= |keys|
      ensures this.keys == keys && this.live == live
      ensures pos == NextLive(live, it)
      ensures AtValid()
    {
      this.keys := keys;
      this.live := live;
      pos := it;
      new;
      FindNextValidNode();
    }

    /** The copy constructor also moves past a null child. */
    constructor Copy(other: StateNodeIterator)
      requires other.Valid()
      ensures keys == other.keys && live == other.live
      ensures pos == NextLive(other.live, other.pos)
      ensures AtValid()
    {
      keys := other.keys;
      live := other.live;
      pos := other.pos;
      new;
      FindNextValidNode();
    }

    /** operator=: take the other iterator's positions, then move past a null child. */
    method Assign(rhs: StateNodeIterator)
      requires rhs.Valid()
      modifies this
      ensures keys == old(rhs.keys) && live == old(rhs.live)
      ensures pos == NextLive(live, old(rhs.pos))
      ensures AtValid()
    {
      keys := rhs.keys;
      live := rhs.live;
      pos := rhs.pos;
      FindNextValidNode();
    }

    /** findNextValidNode: step forward once if the current child is null. */
    method FindNextValidNode()
      requires Valid()
      modifies this
      ensures keys == old(keys) && live == old(live)
      ensures pos == NextLive(live, old(pos))
      ensures AtValid()
    {
      if pos != |keys| {
        if !live[pos] {
          Increment();
          NextLiveUnique(live, old(pos), pos);
        }
      }
    }

    /** operator++: advance at least once, then past every null child; clamp to the end. */
    method Increment()
      requires Valid() && pos < |keys|
      modifies this
      ensures keys == old(keys) && live == old(live)
      ensures pos == NextLive(live, old(pos) + 1)
      ensures AtValid()
    {
      pos := pos + 1;
      while pos != |keys|
        invariant old(pos) + 1 <= pos <= |keys| == |live|
        invariant keys == old(keys) && live == old(live)
        invariant forall k | old(pos) + 1 <= k < pos :: !live[k]
        decreases |keys| - pos
      {
        if live[pos] {
          NextLiveUnique(live, old(pos) + 1, pos);
          return;
        }
        pos := pos + 1;
      }
      NextLiveUnique(live, old(pos) + 1, pos);
      pos := |keys|;
    }

    /**
     * operator== and operator!=: only the current positions are compared, so
     * two iterators over the same node are equal exactly when both are at
     * the end or both are at the child of the same quark.
     */
    predicate Equals(rhs: StateNodeIterator)
      reads this, rhs
      ensures Valid() && rhs.Valid() && keys == rhs.keys && DistinctKeys(keys) ==>
                (Equals(rhs) <==> (pos == End() && rhs.pos == rhs.End())
                                  || (pos < End() && rhs.pos < rhs.End() && keys[pos] == rhs.keys[rhs.pos]))
    {
      pos == rhs.pos
    }

    /** operator*: the quark of the current child. */
    function Deref(): (q: Quark)
      reads this
      requires Valid() && pos < |keys|
      ensures q in keys && q == keys[pos]
    {
      keys[pos]
    }
  }

  /**
   * A range-for over a node: from begin() (position 0) until it equals
   * end(), collect the dereferenced quarks.  The result is exactly the
   * quarks of the non-null children, in map order.
   */
  method LiveChildKeys(keys: seq<Quark>, live: seq<bool>) returns (r: seq<Quark>)
    requires |keys| == |live|
    ensures r == LiveKeys(keys, live, |keys|)
  {
    var it := new StateNodeIterator(keys, live, 0);
    var end := new StateNodeIterator(keys, live, |keys|);
    LiveKeysSkip(keys, live, 0, it.pos);
    r := [];
    while !it.Equals(end)
      invariant it.AtValid() && it.keys == keys && it.live == live
      invariant end.pos == |keys|
      invariant r == LiveKeys(keys, live, it.pos)
      decreases |keys| - it.pos
    {
      var q := it.Deref();
      r := r + [q];
      ghost var p := it.pos;
      it.Increment();
      LiveKeysSkip(keys, live, p + 1, it.pos);
    }
  }
}
