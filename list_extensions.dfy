/**
  Extension helpers over lists whose slots may hold null (`None`).
 */
module ListExtensions {
  import opened Wrappers

  /**
    `list.RemoveAll(item => item == null)`: the list that remains once every
    null slot is dropped.
   */
  function Cleaner<U>(list: seq<Option<U>>): (r: seq<Option<U>>)
    ensures |r| <= |list|
    ensures forall i :: 0 <= i < |r| ==> r[i].Some?
    ensures forall x :: x in r ==> x in list
    ensures (forall i :: 0 <= i < |list| ==> list[i].Some?) ==> r == list
  {
    if list == [] then []
    else if list[0].None? then Cleaner(list[1..])
    else [list[0]] + Cleaner(list[1..])
  }

  /** Cleaning keeps every non-null element as often as it occurred, and nothing else. */
  lemma {:induction false} CleanerKeepsNonNulls<U>(list: seq<Option<U>>)
    ensures multiset(Cleaner(list)) == multiset(list)[None := 0]
  {
    if list != [] {
      CleanerKeepsNonNulls(list[1..]);
      assert list == [list[0]] + list[1..];
    }
  }

  /**
    Cleaning a concatenation cleans each part and concatenates: the
    non-null elements keep their relative order.
   */
  lemma {:induction false} CleanerKeepsOrder<U>(a: seq<Option<U>>, b: seq<Option<U>>)
    ensures Cleaner(a + b) == Cleaner(a) + Cleaner(b)
  {
    if a != [] {
      CleanerKeepsOrder(a[1..], b);
      assert (a + b)[1..] == a[1..] + b;
    } else {
      assert a + b == b;
    }
  }

  /** Every null slot of `list` holding `fallbackValue` instead, the other slots as they were. */
  function NullsReplaced<U>(list: seq<Option<U>>, fallbackValue: Option<U>): (r: seq<Option<U>>)
    ensures |r| == |list|
    ensures forall i :: 0 <= i < |list| ==> r[i] == if list[i].None? then fallbackValue else list[i]
  {
    if list == [] then []
    else [if list[0].None? then fallbackValue else list[0]] + NullsReplaced(list[1..], fallbackValue)
  }

  /** Replacing nulls with a non-null value leaves nothing for Cleaner to drop. */
  lemma ReplacedListIsClean<U>(list: seq<Option<U>>, v: U)
    ensures Cleaner(NullsReplaced(list, Some(v))) == NullsReplaced(list, Some(v))
  {
  }

  /** The in-place index loop of `ReplaceNullsWith`. */
  method ReplaceNullsWith<U>(list: array<Option<U>>, fallbackValue: Option<U>)
    modifies list
    ensures list[..] == NullsReplaced(old(list[..]), fallbackValue)
  {
    var i := 0;
    while i < list.Length
      invariant 0 <= i <= list.Length
      invariant forall j :: 0 <= j < i ==> list[j] == if old(list[j]).None? then fallbackValue else old(list[j])
      invariant forall j :: i <= j < list.Length ==> list[j] == old(list[j])
    {
      if list[i].None? {
        list[i] := fallbackValue;
      }
      i := i + 1;
    }
  }
}

/** The static array helpers. */
module ArrayUtils {
  import opened Wrappers
  import ListExtensions

  /** `ListCleaner(list)`: the same null-removal as the `Cleaner` extension. */
  function ListCleaner<U>(list: seq<Option<U>>): (r: seq<Option<U>>)
    ensures forall i :: 0 <= i < |r| ==> r[i].Some?
    ensures multiset(r) == multiset(list)[None := 0]
  {
    ListExtensions.CleanerKeepsNonNulls(list);
    ListExtensions.Cleaner(list)
  }
}
