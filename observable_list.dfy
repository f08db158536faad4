/**
  A list wrapper that reports its changes and, in garbage-collecting mode,
  postpones value-based removals requested while an enumerator is live.
  The three C# events are modelled as one appended log of `Event`s.
 */
module ObservableLists {

  /** One notification: OnItemAdded(item), OnItemRemoved(item) or OnListChanged(). */
  datatype Event<T> = ItemAdded(item: T) | ItemRemoved(item: T) | ListChanged

  // ---------------------------------------------------------------------
  // Sequence operations of System.Collections.Generic.List
  // ---------------------------------------------------------------------

  /** `List.IndexOf`: the position of the first occurrence of `x`, or -1. */
  function FirstIndex<T(==)>(s: seq<T>, x: T): (r: int)
    ensures -1 <= r < |s|
    ensures r == -1 <==> x !in s
    ensures 0 <= r ==> s[r] == x && forall j :: 0 <= j < r ==> s[j] != x
  {
    if s == [] then -1
    else if s[0] == x then 0
    else
      var r := FirstIndex(s[1..], x);
      if r == -1 then -1 else r + 1
  }

  /** `List.RemoveAt`: drops position `i` and shifts the rest down. */
  function Delete<T>(s: seq<T>, i: int): (r: seq<T>)
    requires 0 <= i < |s|
    ensures |r| == |s| - 1
    ensures forall j :: 0 <= j < i ==> r[j] == s[j]
    ensures forall j :: i <= j < |r| ==> r[j] == s[j + 1]
  {
    s[..i] + s[i + 1..]
  }

  /** Deleting a position takes exactly one occurrence of the value stored there out of the list. */
  lemma DeleteMultiset<T>(s: seq<T>, i: int)
    requires 0 <= i < |s|
    ensures multiset(Delete(s, i)) == multiset(s) - multiset{s[i]}
  {
    assert s == s[..i] + [s[i]] + s[i + 1..];
  }

  /** `List.Remove`: drops the first occurrence of `x`; a list without `x` is returned as it is. */
  function RemoveFirst<T(==)>(s: seq<T>, x: T): (r: seq<T>)
    ensures x !in s ==> r == s
    ensures x in s ==> |r| == |s| - 1
  {
    var i := FirstIndex(s, x);
    if i < 0 then s else Delete(s, i)
  }

  /** Removing by value keeps what stands before the first `x` and shifts what follows it down by one. */
  lemma RemoveFirstAt<T>(s: seq<T>, x: T)
    requires x in s
    ensures forall j :: 0 <= j < FirstIndex(s, x) ==> RemoveFirst(s, x)[j] == s[j]
    ensures forall j :: FirstIndex(s, x) <= j < |s| - 1 ==> RemoveFirst(s, x)[j] == s[j + 1]
  {
  }

  /** Removing by value takes one occurrence of `x` out of the list, if there is one. */
  lemma RemoveFirstMultiset<T>(s: seq<T>, x: T)
    ensures multiset(RemoveFirst(s, x)) == multiset(s) - multiset{x}
  {
    if x in s {
      DeleteMultiset(s, FirstIndex(s, x));
    }
  }

  /** One `ItemRemoved` per element of `s`, in order (what Clear reports before emptying the list). */
  function RemovedEvents<T>(s: seq<T>): seq<Event<T>>
  {
    if s == [] then [] else RemovedEvents(s[..|s| - 1]) + [ItemRemoved(s[|s| - 1])]
  }

  lemma {:induction false} RemovedEventsAt<T>(s: seq<T>)
    ensures |RemovedEvents(s)| == |s|
    ensures forall i :: 0 <= i < |s| ==> RemovedEvents(s)[i] == ItemRemoved(s[i])
  {
    if s != [] {
      RemovedEventsAt(s[..|s| - 1]);
    }
  }

  /** The list left after removing each element of `pending`, in queue order, by first occurrence. */
  function FlushedList<T(==)>(s: seq<T>, pending: seq<T>): seq<T>
  {
    if pending == [] then s
    else FlushedList(RemoveFirst(s, pending[0]), pending[1..])
  }

  /** The notifications that flushing `pending` from `s` reports: a pair per item actually removed. */
  function FlushEvents<T(==)>(s: seq<T>, pending: seq<T>, actOnChange: bool): seq<Event<T>>
  {
    if pending == [] then []
    else
      (if actOnChange && pending[0] in s then [ItemRemoved(pending[0]), ListChanged] else []) +
        FlushEvents(RemoveFirst(s, pending[0]), pending[1..], actOnChange)
  }

  /** Flushing takes away one occurrence per pending request, as far as occurrences remain. */
  lemma {:induction false} FlushedListMultiset<T>(s: seq<T>, pending: seq<T>)
    ensures multiset(FlushedList(s, pending)) == multiset(s) - multiset(pending)
  {
    if pending != [] {
      var x, rest := pending[0], pending[1..];
      var r := RemoveFirst(s, x);
      FlushedListMultiset(r, rest);
      RemoveFirstMultiset(s, x);
      assert pending == [x] + rest;
      DifferenceOfSum(multiset(s), multiset{x}, multiset(rest));
    }
  }

  /**
    A flush reports nothing when notifications are off, and otherwise one
    ItemRemoved/ListChanged pair per element it actually removed.
   */
  lemma {:induction false} FlushEventsCount<T>(s: seq<T>, pending: seq<T>, actOnChange: bool)
    ensures |FlushEvents(s, pending, actOnChange)| == if actOnChange then 2 * (|s| - |FlushedList(s, pending)|) else 0
  {
    if pending != [] {
      FlushEventsCount(RemoveFirst(s, pending[0]), pending[1..], actOnChange);
    }
  }

  lemma DifferenceOfSum<T>(a: multiset<T>, b: multiset<T>, c: multiset<T>)
    ensures (a - b) - c == a - (b + c)
  {
  }

  /** The values named by the ItemRemoved notifications of a log, in log order. */
  function RemovedValues<T>(log: seq<Event<T>>): seq<T>
  {
    if log == [] then []
    else (if log[0].ItemRemoved? then [log[0].item] else []) + RemovedValues(log[1..])
  }

  /** Every even slot of `log` is an ItemRemoved and every odd slot a ListChanged. */
  ghost predicate InPairs<T>(log: seq<Event<T>>)
  {
    forall k :: 0 <= k < |log| ==> if k % 2 == 0 then log[k].ItemRemoved? else log[k] == ListChanged
  }

  /**
    A flush log alternates: every even slot is an ItemRemoved and every odd
    slot the ListChanged that follows it.
   */
  lemma {:induction false} FlushEventsPairs<T>(s: seq<T>, pending: seq<T>, actOnChange: bool)
    ensures InPairs(FlushEvents(s, pending, actOnChange))
  {
    if pending != [] {
      var x, rest := pending[0], pending[1..];
      var tail := FlushEvents(RemoveFirst(s, x), rest, actOnChange);
      FlushEventsPairs(RemoveFirst(s, x), rest, actOnChange);
      if actOnChange && x in s {
        var log := [ItemRemoved(x), ListChanged] + tail;
        assert FlushEvents(s, pending, actOnChange) == log;
        forall k | 0 <= k < |log|
          ensures if k % 2 == 0 then log[k].ItemRemoved? else log[k] == ListChanged
        {
          if k >= 2 {
            assert log[k] == tail[k - 2];
          }
        }
      } else {
        assert FlushEvents(s, pending, actOnChange) == tail;
      }
    }
  }

  lemma RemovedValuesOfPair<T>(x: T, tail: seq<Event<T>>)
    ensures RemovedValues([ItemRemoved(x), ListChanged] + tail) == [x] + RemovedValues(tail)
  {
  }

  /**
    The ItemRemoved notifications of a flush name exactly the values the
    flush took out of the list: together with what is left they make up
    the list before the flush.
   */
  lemma {:induction false} FlushEventsNameRemoved<T>(s: seq<T>, pending: seq<T>)
    ensures multiset(RemovedValues(FlushEvents(s, pending, true))) + multiset(FlushedList(s, pending)) == multiset(s)
  {
    if pending != [] {
      var x, rest := pending[0], pending[1..];
      FlushEventsNameRemoved(RemoveFirst(s, x), rest);
      FlushStepNamesRemoved(s, x, rest);
      assert pending == [x] + rest;
    }
  }

  /** One step of `FlushEventsNameRemoved`: the first request, given the claim for the rest. */
  lemma FlushStepNamesRemoved<T>(s: seq<T>, x: T, rest: seq<T>)
    requires var r := RemoveFirst(s, x);
      multiset(RemovedValues(FlushEvents(r, rest, true))) + multiset(FlushedList(r, rest)) == multiset(r)
    ensures multiset(RemovedValues(FlushEvents(s, [x] + rest, true))) + multiset(FlushedList(s, [x] + rest)) == multiset(s)
  {
    var r := RemoveFirst(s, x);
    var tail := FlushEvents(r, rest, true);
    var pending := [x] + rest;
    assert pending[0] == x && pending[1..] == rest;
    assert FlushedList(s, pending) == FlushedList(r, rest);
    RemoveFirstMultiset(s, x);
    if x in s {
      assert FlushEvents(s, pending, true) == [ItemRemoved(x), ListChanged] + tail;
      RemovedValuesOfPair(x, tail);
      assert multiset([x] + RemovedValues(tail)) == multiset{x} + multiset(RemovedValues(tail));
      assert multiset(s) == multiset(r) + multiset{x};
    } else {
      assert FlushEvents(s, pending, true) == tail;
    }
  }

  // ---------------------------------------------------------------------
  // The observable list
  // ---------------------------------------------------------------------

  class ObservableList<T(==)> {
    var internalList: seq<T>
    /** Values whose removal was requested while enumerating, in request order. */
    var garbageCollector: seq<T>
    /** Every notification raised so far, oldest first. */
    var events: seq<Event<T>>
    var actOnChange: bool
    var useGarbageCollecting: bool
    var isEnumerating: bool

    constructor ()
      ensures internalList == [] && garbageCollector == [] && events == []
      ensures actOnChange && !useGarbageCollecting && !isEnumerating
    {
      internalList := [];
      garbageCollector := [];
      events := [];
      actOnChange := true;
      useGarbageCollecting := false;
      isEnumerating := false;
    }

    /** The notifications `e`, if notifications are on; otherwise none. */
    function Notified(e: seq<Event<T>>): seq<Event<T>>
      reads this
    {
      if actOnChange then e else []
    }

    function Count(): (r: nat)
      reads this
      ensures r == |internalList|
    {
      |internalList|
    }

    /** The indexer's getter. */
    function Get(index: int): (r: T)
      reads this
      requires 0 <= index < Count()
      ensures r in internalList && r == internalList[index]
    {
      internalList[index]
    }

    /** The indexer's setter: replaces one slot and reports only a list change. */
    method Set(index: int, value: T)
      requires 0 <= index < Count()
      modifies this`internalList, this`events
      ensures internalList == old(internalList)[index := value]
      ensures events == old(events) + Notified([ListChanged])
    {
      internalList := internalList[index := value];
      if actOnChange {
        events := events + [ListChanged];
      }
    }

    method Add(item: T)
      modifies this`internalList, this`events
      ensures internalList == old(internalList) + [item]
      ensures events == old(events) + Notified([ItemAdded(item), ListChanged])
    {
      internalList := internalList + [item];
      if actOnChange {
        events := events + [ItemAdded(item), ListChanged];
      }
    }

    /**
      While a garbage-collecting list is being enumerated the request is
      queued and false is returned; otherwise the first occurrence is removed
      at once and the result says whether there was one.
     */
    method Remove(item: T) returns (removed: bool)
      modifies this`internalList, this`garbageCollector, this`events
      ensures useGarbageCollecting && isEnumerating ==>
        && !removed
        && garbageCollector == old(garbageCollector) + [item]
        && internalList == old(internalList)
        && events == old(events)
      ensures !(useGarbageCollecting && isEnumerating) ==>
        && removed == (item in old(internalList))
        && internalList == RemoveFirst(old(internalList), item)
        && garbageCollector == old(garbageCollector)
        && events == old(events) + (if removed then Notified([ItemRemoved(item), ListChanged]) else [])
    {
      if useGarbageCollecting && isEnumerating {
        garbageCollector := garbageCollector + [item];
        return false;
      }
      removed := item in internalList;
      internalList := RemoveFirst(internalList, item);
      if removed && actOnChange {
        events := events + [ItemRemoved(item), ListChanged];
      }
    }

    /** Reports every element as removed, in order, then empties the list and reports one list change. */
    method Clear()
      modifies this`internalList, this`events
      ensures internalList == []
      ensures events == old(events) + Notified(RemovedEvents(old(internalList)) + [ListChanged])
    {
      if actOnChange {
        var i := 0;
        while i < |internalList|
          invariant 0 <= i <= |internalList|
          invariant internalList == old(internalList)
          invariant events == old(events) + RemovedEvents(internalList[..i])
        {
          assert internalList[..i + 1][..i] == internalList[..i];
          events := events + [ItemRemoved(internalList[i])];
          i := i + 1;
        }
        assert internalList[..i] == internalList;
      }
      internalList := [];
      if actOnChange {
        events := events + [ListChanged];
      }
    }

    function Contains(item: T): (r: bool)
      reads this
      ensures r <==> exists i :: 0 <= i < Count() && internalList[i] == item
    {
      item in internalList
    }

    /** The position of the first occurrence of `item`, or -1 when it is absent. */
    function IndexOf(item: T): (r: int)
      reads this
      ensures -1 <= r < Count()
      ensures r == -1 <==> !Contains(item)
      ensures 0 <= r ==> internalList[r] == item && forall j :: 0 <= j < r ==> internalList[j] != item
    {
      FirstIndex(internalList, item)
    }

    method Insert(index: int, item: T)
      requires 0 <= index <= Count()
      modifies this`internalList, this`events
      ensures internalList == old(internalList)[..index] + [item] + old(internalList)[index..]
      ensures events == old(events) + Notified([ItemAdded(item), ListChanged])
    {
      internalList := internalList[..index] + [item] + internalList[index..];
      if actOnChange {
        events := events + [ItemAdded(item), ListChanged];
      }
    }

    /** Removes position `index` when it is in range, and does nothing otherwise. Never deferred. */
    method RemoveAt(index: int)
      modifies this`internalList, this`events
      ensures !(0 <= index < old(Count())) ==> internalList == old(internalList) && events == old(events)
      ensures 0 <= index < old(Count()) ==>
        && internalList == Delete(old(internalList), index)
        && events == old(events) + Notified([ItemRemoved(old(internalList)[index]), ListChanged])
    {
      if 0 <= index < |internalList| {
        var item := internalList[index];
        internalList := Delete(internalList, index);
        if actOnChange {
          events := events + [ItemRemoved(item), ListChanged];
        }
      }
    }

    /**
      The garbage-collection phase of disposing an enumerator: removes each
      of `pending`, in order, by first occurrence, never queueing it again.
     */
    method ForceRemove(pending: seq<T>)
      modifies this`internalList, this`events
      ensures internalList == FlushedList(old(internalList), pending)
      ensures events == old(events) + FlushEvents(old(internalList), pending, actOnChange)
    {
      var i := 0;
      assert pending[i..] == pending;
      while i < |pending|
        invariant 0 <= i <= |pending|
        invariant FlushedList(internalList, pending[i..]) == FlushedList(old(internalList), pending)
        invariant events + FlushEvents(internalList, pending[i..], actOnChange) ==
                  old(events) + FlushEvents(old(internalList), pending, actOnChange)
      {
        var item := pending[i];
        assert pending[i..][1..] == pending[i + 1..];
        var removed := item in internalList;
        internalList := RemoveFirst(internalList, item);
        if removed && actOnChange {
          events := events + [ItemRemoved(item), ListChanged];
        }
        i := i + 1;
      }
      assert pending[i..] == [];
    }

    /** Hands out an enumerator; creating it marks the list as being enumerated. */
    method GetEnumerator() returns (e: ObservableEnumerator<T>)
      modifies this`isEnumerating
      ensures fresh(e) && e.parent == this
      ensures isEnumerating
    {
      e := new ObservableEnumerator(this);
    }
  }

  class ObservableEnumerator<T(==)> {
    const parent: ObservableList<T>

    constructor (parent: ObservableList<T>)
      modifies parent`isEnumerating
      ensures this.parent == parent && parent.isEnumerating
    {
      this.parent := parent;
      new;
      parent.isEnumerating := true;
    }

    /**
      Ends the enumeration. In garbage-collecting mode with requests queued,
      each queued value is then removed by first occurrence, in queue order,
      without being queued again, and the queue is emptied.
     */
    method Dispose()
      modifies parent`isEnumerating, parent`internalList, parent`events, parent`garbageCollector
      ensures !parent.isEnumerating
      ensures old(parent.useGarbageCollecting) && |old(parent.garbageCollector)| > 0 ==>
        && parent.internalList == FlushedList(old(parent.internalList), old(parent.garbageCollector))
        && parent.events == old(parent.events) +
             FlushEvents(old(parent.internalList), old(parent.garbageCollector), parent.actOnChange)
        && parent.garbageCollector == []
      ensures !(old(parent.useGarbageCollecting) && |old(parent.garbageCollector)| > 0) ==>
        && parent.internalList == old(parent.internalList)
        && parent.events == old(parent.events)
        && parent.garbageCollector == old(parent.garbageCollector)
    {
      parent.isEnumerating := false;
      if parent.useGarbageCollecting && |parent.garbageCollector| > 0 {
        parent.ForceRemove(parent.garbageCollector);
        parent.garbageCollector := [];
      }
    }
  }

  // ---------------------------------------------------------------------
  // Scenarios
  // ---------------------------------------------------------------------

  /**
    With garbage collecting on, removals of `x` and then `y` requested while
    enumerating [x, y, z] leave the list untouched until the enumerator is
    disposed; disposing removes `x`, then `y`, and reports them in that order.
   */
  method DeferredRemovalScenario<T(==)>(x: T, y: T, z: T)
    returns (deferredX: bool, deferredY: bool, during: seq<T>, after: seq<T>, flushed: seq<Event<T>>)
    ensures !deferredX && !deferredY
    ensures during == [x, y, z]
    ensures after == [z]
    ensures flushed == [ItemRemoved(x), ListChanged, ItemRemoved(y), ListChanged]
  {
    var list := new ObservableList<T>();
    list.Add(x);
    list.Add(y);
    list.Add(z);
    assert list.internalList == [x, y, z];
    list.useGarbageCollecting := true;
    var e := list.GetEnumerator();
    deferredX := list.Remove(x);
    deferredY := list.Remove(y);
    assert list.garbageCollector == [x, y];
    during := list.internalList;
    var mark := |list.events|;
    assert list.actOnChange;
    FlushTwo(x, y, z);
    e.Dispose();
    after := list.internalList;
    flushed := list.events[mark..];
  }

  lemma FlushTwo<T>(x: T, y: T, z: T)
    ensures FlushedList([x, y, z], [x, y]) == [z]
    ensures FlushEvents([x, y, z], [x, y], true) == [ItemRemoved(x), ListChanged, ItemRemoved(y), ListChanged]
  {
    assert [x, y][1..] == [y];
    assert [y][1..] == [];
    assert FirstIndex([x, y, z], x) == 0;
    assert RemoveFirst([x, y, z], x) == [y, z];
    assert FirstIndex([y, z], y) == 0;
    assert RemoveFirst([y, z], y) == [z];
    assert FlushedList([z], []) == [z];
    assert FlushedList([y, z], [y]) == [z];
    assert FlushEvents([z], [], true) == [];
    assert FlushEvents([y, z], [y], true) == [ItemRemoved(y), ListChanged];
  }

  /**
    The enumeration flag is one boolean: disposing an inner enumerator ends
    deferral although an outer enumerator is still live, so a removal
    requested then happens at once.
   */
  method NestedEnumerationScenario<T(==)>(x: T) returns (removed: bool, remaining: seq<T>)
    ensures removed && remaining == []
  {
    var list := new ObservableList<T>();
    list.Add(x);
    list.useGarbageCollecting := true;
    var outer := list.GetEnumerator();
    var inner := list.GetEnumerator();
    inner.Dispose();
    removed := list.Remove(x);
    remaining := list.internalList;
  }
}
