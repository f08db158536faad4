/**
  The items a dynamic storage holds, the two enums that steer it, and the
  reference definitions of what its key map and id map should contain.
  Both storage classes (DynamicStorageBase and DynamicStorage) are proved
  against the functions of this module.
 */
module StorageSpec {
  import opened Wrappers

  /** A storage item: a nullable string key and an integer id. */
  datatype Item = Item(key: Option<string>, id: int)

  /** Which dictionary (or dictionaries) an operation targets. */
  datatype StorageType = NoStorage | All | KeyBased | IdBased

  /** What to do when the key or id is already present. */
  datatype AddMode = Replace | Skip

  /** `!string.IsNullOrEmpty(item.Key)`: the item can be indexed by key. */
  predicate HasKey(item: Item) {
    item.key.Some? && item.key.value != ""
  }

  function KeyOf(item: Item): string
    requires HasKey(item)
  {
    item.key.value
  }

  predicate TargetsKeys(scope: StorageType) {
    scope == All || scope == KeyBased
  }

  predicate TargetsIds(scope: StorageType) {
    scope == All || scope == IdBased
  }

  /** Every entry of a key map is filed under its own, non-empty key. */
  ghost predicate WellKeyed(m: map<string, Item>) {
    forall k :: k in m ==> HasKey(m[k]) && KeyOf(m[k]) == k
  }

  /** Every entry of an id map is filed under its own id. */
  ghost predicate WellIded(m: map<int, Item>) {
    forall id :: id in m ==> m[id].id == id
  }

  // ---------------------------------------------------------------------
  // Rebuilding from the item list
  // ---------------------------------------------------------------------

  /** The key map obtained by visiting `items` in order and writing each keyed item under its key. */
  function KeyIndex(items: seq<Item>): map<string, Item>
  {
    if items == [] then map[]
    else
      var m := KeyIndex(items[..|items| - 1]);
      var last := items[|items| - 1];
      if HasKey(last) then m[KeyOf(last) := last] else m
  }

  /** The id map obtained by visiting `items` in order and writing each item under its id. */
  function IdIndex(items: seq<Item>): map<int, Item>
  {
    if items == [] then map[]
    else
      var m := IdIndex(items[..|items| - 1]);
      var last := items[|items| - 1];
      m[last.id := last]
  }

  /** The non-empty keys carried by the items of the list. */
  ghost function KeySet(items: seq<Item>): set<string> {
    set i | 0 <= i < |items| && HasKey(items[i]) :: KeyOf(items[i])
  }

  /** The ids carried by the items of the list. */
  ghost function IdSet(items: seq<Item>): set<int> {
    set i | 0 <= i < |items| :: items[i].id
  }

  /** Position `i` holds the last item of `items` whose key is `k`. */
  ghost predicate IsLastWithKey(items: seq<Item>, i: int, k: string) {
    && 0 <= i < |items|
    && HasKey(items[i]) && KeyOf(items[i]) == k
    && forall j :: i < j < |items| ==> !(HasKey(items[j]) && KeyOf(items[j]) == k)
  }

  /** Position `i` holds the last item of `items` whose id is `id`. */
  ghost predicate IsLastWithId(items: seq<Item>, i: int, id: int) {
    && 0 <= i < |items|
    && items[i].id == id
    && forall j :: i < j < |items| ==> items[j].id != id
  }

  /**
    The key map rebuilt from a list holds exactly the non-empty keys of the
    list, and each key is mapped to the last item carrying it.
   */
  lemma {:induction false} KeyIndexIsLastWriterWins(items: seq<Item>)
    ensures KeyIndex(items).Keys == KeySet(items)
    ensures forall k, i :: IsLastWithKey(items, i, k) ==> k in KeyIndex(items) && KeyIndex(items)[k] == items[i]
    ensures "" !in KeyIndex(items)
  {
    if items != [] {
      var n := |items| - 1;
      var front := items[..n];
      KeyIndexIsLastWriterWins(front);
      assert forall i :: 0 <= i < n ==> front[i] == items[i];
      var last := items[n];
      if HasKey(last) {
        assert KeySet(items) == KeySet(front) + {KeyOf(last)} by {
          forall k | k in KeySet(items) ensures k in KeySet(front) + {KeyOf(last)} {
            var i :| 0 <= i < |items| && HasKey(items[i]) && KeyOf(items[i]) == k;
            if i < n { assert front[i] == items[i]; }
          }
          forall k | k in KeySet(front) ensures k in KeySet(items) {
            var i :| 0 <= i < |front| && HasKey(front[i]) && KeyOf(front[i]) == k;
            assert items[i] == front[i];
          }
        }
      } else {
        assert KeySet(items) == KeySet(front) by {
          forall k | k in KeySet(items) ensures k in KeySet(front) {
            var i :| 0 <= i < |items| && HasKey(items[i]) && KeyOf(items[i]) == k;
            assert i < n;
            assert front[i] == items[i];
          }
          forall k | k in KeySet(front) ensures k in KeySet(items) {
            var i :| 0 <= i < |front| && HasKey(front[i]) && KeyOf(front[i]) == k;
            assert items[i] == front[i];
          }
        }
      }
      forall k, i | IsLastWithKey(items, i, k)
        ensures k in KeyIndex(items) && KeyIndex(items)[k] == items[i]
      {
        if i < n {
          assert IsLastWithKey(front, i, k);
          assert !(HasKey(last) && KeyOf(last) == k);
        }
      }
    }
  }

  /**
    The id map rebuilt from a list holds exactly the ids of the list, and
    each id is mapped to the last item carrying it.
   */
  lemma {:induction false} IdIndexIsLastWriterWins(items: seq<Item>)
    ensures IdIndex(items).Keys == IdSet(items)
    ensures forall id, i :: IsLastWithId(items, i, id) ==> id in IdIndex(items) && IdIndex(items)[id] == items[i]
  {
    if items != [] {
      var n := |items| - 1;
      var front := items[..n];
      IdIndexIsLastWriterWins(front);
      var last := items[n];
      assert IdSet(items) == IdSet(front) + {last.id} by {
        forall id | id in IdSet(items) ensures id in IdSet(front) + {last.id} {
          var i :| 0 <= i < |items| && items[i].id == id;
          if i < n { assert front[i] == items[i]; }
        }
        forall id | id in IdSet(front) ensures id in IdSet(items) {
          var i :| 0 <= i < |front| && front[i].id == id;
          assert items[i] == front[i];
        }
      }
      forall id, i | IsLastWithId(items, i, id)
        ensures id in IdIndex(items) && IdIndex(items)[id] == items[i]
      {
        if i < n {
          assert IsLastWithId(front, i, id);
        }
      }
    }
  }

  /** A rebuilt key map files every item under its own key; a rebuilt id map files it under its own id. */
  lemma {:induction false} IndexesAreWellFormed(items: seq<Item>)
    ensures WellKeyed(KeyIndex(items))
    ensures WellIded(IdIndex(items))
  {
    if items != [] {
      IndexesAreWellFormed(items[..|items| - 1]);
    }
  }

  // ---------------------------------------------------------------------
  // Incremental insertion
  // ---------------------------------------------------------------------

  /**
    `TryAddKeyItem`: an item without a key is ignored; otherwise it is
    written under its key when the mode is Replace or the key is absent.
   */
  function TryAddKey(m: map<string, Item>, mode: AddMode, item: Item): (r: map<string, Item>)
    ensures !HasKey(item) ==> r == m
    ensures HasKey(item) ==> r.Keys == m.Keys + {KeyOf(item)}
    ensures HasKey(item) && (mode == Replace || KeyOf(item) !in m) ==> r[KeyOf(item)] == item
    ensures mode == Skip && HasKey(item) && KeyOf(item) in m ==> r == m
    ensures forall k :: k in m && !(HasKey(item) && k == KeyOf(item)) ==> k in r && r[k] == m[k]
    ensures "" in r ==> "" in m
    ensures WellKeyed(m) ==> WellKeyed(r)
  {
    if !HasKey(item) then m
    else if mode == Replace || KeyOf(item) !in m then m[KeyOf(item) := item]
    else m
  }

  /**
    `TryAddIdItem`: the item is written under its id when the mode is
    Replace or the id is absent.
   */
  function TryAddId(m: map<int, Item>, mode: AddMode, item: Item): (r: map<int, Item>)
    ensures r.Keys == m.Keys + {item.id}
    ensures mode == Replace || item.id !in m ==> r[item.id] == item
    ensures mode == Skip && item.id in m ==> r == m
    ensures forall id :: id in m && id != item.id ==> id in r && r[id] == m[id]
    ensures WellIded(m) ==> WellIded(r)
  {
    if mode == Replace || item.id !in m then m[item.id := item] else m
  }

  /**
    Appending an item to the list and rebuilding gives the same maps as
    adding that item, under Replace, to the maps rebuilt from the list
    before the append: Replace insertion is an incremental rebuild.
   */
  lemma ReplaceAddIsIncrementalRebuild(items: seq<Item>, item: Item)
    ensures KeyIndex(items + [item]) == TryAddKey(KeyIndex(items), Replace, item)
    ensures IdIndex(items + [item]) == TryAddId(IdIndex(items), Replace, item)
  {
  }

  /**
    Under Skip, adding an item whose key the rebuilt map already holds
    leaves that entry on the last earlier item with that key.
   */
  lemma {:induction false} SkipAddKeepsEarlierWriter(items: seq<Item>, item: Item, i: int)
    requires HasKey(item) && IsLastWithKey(items, i, KeyOf(item))
    ensures TryAddKey(KeyIndex(items), Skip, item)[KeyOf(item)] == items[i]
  {
    KeyIndexIsLastWriterWins(items);
  }

  /** The id twin of `SkipAddKeepsEarlierWriter`. */
  lemma {:induction false} SkipAddKeepsEarlierIdWriter(items: seq<Item>, item: Item, i: int)
    requires IsLastWithId(items, i, item.id)
    ensures TryAddId(IdIndex(items), Skip, item)[item.id] == items[i]
  {
    IdIndexIsLastWriterWins(items);
  }

  /** The scenario of a sword, a keyless item and a second sword. */
  lemma {:induction false} SwordScenario()
    ensures var items := [Item(Some("sword"), 1), Item(Some(""), 2), Item(Some("sword"), 3)];
      && KeyIndex(items)["sword"].id == 3
      && IdIndex(items)[2].key == Some("")
      && "shield" !in KeyIndex(items)
      && KeyIndex(items).Keys == {"sword"}
      && IdIndex(items).Keys == {1, 2, 3}
  {
    var items := [Item(Some("sword"), 1), Item(Some(""), 2), Item(Some("sword"), 3)];
    assert items[..2] == [Item(Some("sword"), 1), Item(Some(""), 2)];
    assert items[..2][..1] == [Item(Some("sword"), 1)];
    assert KeyIndex(items[..2][..1]) == map["sword" := items[0]];
    assert KeyIndex(items) == map["sword" := items[2]];
    assert IdIndex(items[..2][..1]) == map[1 := items[0]];
    assert IdIndex(items[..2]) == map[1 := items[0], 2 := items[1]];
    assert IdIndex(items) == map[1 := items[0], 2 := items[1], 3 := items[2]];
    assert "shield"[1] != "sword"[1];
  }
}
