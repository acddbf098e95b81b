/**
  FixedsizeForgetfulHashSet: a set holding at most `capacity` distinct
  elements. Once full, admitting a new element forgets the oldest one, by the
  FIFO replacement policy the class documentation states. That re-adding a
  present element does not refresh its place is assumed of the backing map,
  whose own code is not part of this model.

  The set delegates everything to a bounded, insertion-ordered map whose every
  value is one shared presence marker; since the values carry no information,
  the map is represented here by its keys, oldest first, in `elements`.
 */
module Collection {
  import opened ForgetfulKeys

  datatype Option<T> = None | Some(value: T)

  class FixedsizeForgetfulHashSet<E(==)> {
    /** The fixed maximum size given at construction. */
    const capacity: nat
    /** The backing map's keys in insertion order, oldest first. */
    var elements: seq<E>

    /** Object invariant: a positive bound that is never exceeded, and no duplicates. */
    ghost predicate Valid()
      reads this
    {
      0 < capacity && |elements| <= capacity && Distinct(elements)
    }

    /** A new, empty set that will hold at most `size` elements. */
    constructor (size: int)
      requires 0 < size
      ensures Valid()
      ensures capacity == size && elements == []
    {
      capacity := size;
      elements := [];
    }

    /** Whether the next add of a new element would first forget the oldest one. */
    predicate IsFull()
      reads this
      requires Valid()
      ensures IsFull() <==> Size() == capacity
    {
      |elements| == capacity
    }

    /** The elements as iteration yields them: oldest first, each once. */
    function Iterator(): (view: seq<E>)
      reads this
      requires Valid()
      ensures |view| == Size() && Distinct(view)
    {
      elements
    }

    /** The number of elements, never more than the capacity. */
    function Size(): (n: nat)
      reads this
      requires Valid()
      ensures n <= capacity
    {
      |elements|
    }

    /** Whether iteration yields nothing; an empty set is never full. */
    predicate IsEmpty()
      reads this
      requires Valid()
      ensures IsEmpty() <==> Iterator() == []
      ensures IsEmpty() ==> !IsFull()
    {
      |elements| == 0
    }

    /** Membership agrees with what iteration yields. */
    predicate Contains(o: E)
      reads this
      requires Valid()
      ensures Contains(o) <==> o in Iterator()
      ensures Contains(o) ==> !IsEmpty()
    {
      o in elements
    }

    /**
      Adds `o` unless present; reports whether it was new. A new element joins
      at the newest end, after the oldest element is forgotten if the set was
      full; a present element keeps its place and nothing else changes.
     */
    method Add(o: E) returns (added: bool)
      requires Valid()
      modifies this
      ensures Valid() && Contains(o)
      ensures added <==> o !in old(elements)
      ensures elements == Put(old(elements), capacity, o)
      ensures !added ==> elements == old(elements)
      ensures added && |old(elements)| < capacity ==> elements == old(elements) + [o]
      ensures added && |old(elements)| == capacity ==> elements == old(elements)[1..] + [o]
    {
      added := !Contains(o);
      PutKeepsInvariant(elements, capacity, o);
      if added && |elements| == capacity {
        PutEvictsOldest(elements, capacity, o);
      }
      elements := Put(elements, capacity, o);
    }

    /** Removes `o` if present and reports whether it was; the others keep their order. */
    method Remove(o: E) returns (removed: bool)
      requires Valid()
      modifies this
      ensures Valid() && !Contains(o)
      ensures removed <==> o in old(elements)
      ensures elements == Without(old(elements), o)
      ensures removed ==> |elements| == |old(elements)| - 1
      ensures forall i :: 0 <= i < |old(elements)| && old(elements)[i] == o ==>
                elements == old(elements)[..i] + old(elements)[i + 1..]
    {
      removed := Contains(o);
      ghost var before := elements;
      WithoutMembers(before, o);
      WithoutDistinct(before, o);
      elements := Without(elements, o);
      forall i | 0 <= i < |before| && before[i] == o
        ensures elements == before[..i] + before[i + 1..]
      {
        WithoutSplice(before, i);
      }
      if removed {
        ghost var i :| 0 <= i < |before| && before[i] == o;
        WithoutSplice(before, i);
      }
    }

    /**
      Forgets and returns the oldest element, the one the next overflowing add
      would drop; an empty set gives None and stays as it is.
     */
    method RemoveLRUEntry() returns (value: Option<E>)
      requires Valid()
      modifies this
      ensures Valid()
      ensures old(elements) == [] ==> value == None && elements == []
      ensures old(elements) != [] ==> value == Some(old(elements)[0]) && elements == old(elements)[1..]
    {
      if IsEmpty() {
        return None;
      }
      var first := Iterator()[0];
      // removal through the iterator drops that key from the backing map
      WithoutOldest(elements);
      elements := Without(elements, first);
      value := Some(first);
    }

    /** Removes every element; the capacity stays. */
    method Clear()
      requires Valid()
      modifies this
      ensures Valid() && IsEmpty()
      ensures elements == []
    {
      elements := [];
    }

    /** A new set with the same capacity and the same elements in the same order. */
    method Clone() returns (copy: FixedsizeForgetfulHashSet<E>)
      requires Valid()
      ensures fresh(copy) && copy.Valid()
      ensures copy.capacity == capacity && copy.elements == elements
    {
      copy := new FixedsizeForgetfulHashSet(capacity);
      copy.elements := elements;
    }
  }

  /**
    After cloning, an add to the original does not reach the clone and a
    removal from the clone does not reach the original.
   */
  method CloneIsIndependent<E(==)>(s: FixedsizeForgetfulHashSet<E>, x: E, y: E)
    returns (copy: FixedsizeForgetfulHashSet<E>)
    requires s.Valid()
    modifies s
    ensures fresh(copy) && copy.Valid() && s.Valid()
    ensures copy.capacity == s.capacity
    ensures s.elements == Put(old(s.elements), s.capacity, x)
    ensures copy.elements == Without(old(s.elements), y)
  {
    copy := s.Clone();
    var _ := s.Add(x);
    var _ := copy.Remove(y);
  }

  /**
    The example of the class documentation, for any five distinct names:
    capacity 4, adding Abby, Abby, Bob, Bob, Chris, Dan and then Eric.
   */
  method WorkedExample<E(==)>(abby: E, bob: E, chris: E, dan: E, eric: E)
    returns (firstAbby: bool, afterFirstAbby: seq<E>, secondAbby: bool, afterSecondAbby: seq<E>,
             afterDan: seq<E>, fullAfterDan: bool, afterEric: seq<E>)
    requires abby != bob && abby != chris && abby != dan && abby != eric
    requires bob != chris && bob != dan && bob != eric
    requires chris != dan && chris != eric && dan != eric
    ensures firstAbby && afterFirstAbby == [abby]
    ensures !secondAbby && afterSecondAbby == [abby]
    ensures afterDan == [abby, bob, chris, dan] && fullAfterDan
    ensures afterEric == [bob, chris, dan, eric]
  {
    var s := new FixedsizeForgetfulHashSet<E>(4);
    firstAbby := s.Add(abby);
    afterFirstAbby := s.Iterator();
    secondAbby := s.Add(abby);
    afterSecondAbby := s.Iterator();
    assert s.elements == [abby];
    var _ := s.Add(bob);
    var _ := s.Add(bob);
    assert s.elements == [abby, bob];
    var _ := s.Add(chris);
    assert s.elements == [abby, bob, chris];
    var _ := s.Add(dan);
    assert s.elements == [abby, bob, chris, dan];
    afterDan := s.Iterator();
    fullAfterDan := s.IsFull();
    var _ := s.Add(eric);
    afterEric := s.Iterator();
  }

  /** The same example with the documentation's own strings. */
  method WorkedExampleNames()
    returns (firstAbby: bool, afterFirstAbby: seq<string>, secondAbby: bool, afterSecondAbby: seq<string>,
             afterDan: seq<string>, fullAfterDan: bool, afterEric: seq<string>)
    ensures firstAbby && afterFirstAbby == ["Abby"]
    ensures !secondAbby && afterSecondAbby == ["Abby"]
    ensures afterDan == ["Abby", "Bob", "Chris", "Dan"] && fullAfterDan
    ensures afterEric == ["Bob", "Chris", "Dan", "Eric"]
  {
    firstAbby, afterFirstAbby, secondAbby, afterSecondAbby, afterDan, fullAfterDan, afterEric :=
      WorkedExample("Abby", "Bob", "Chris", "Dan", "Eric");
  }
}
