/**
  The engine-hosted registry: an authoritative item list and two derived
  dictionaries, key -> item and id -> item.
 */
module DynamicStorageBase {
  import opened Wrappers
  import opened StorageSpec

  class DynamicStorageBase {
    var itemsList: seq<Item>
    var keyItems: map<string, Item>
    var idItems: map<int, Item>

    /** The registry starts with the serialised item list and empty dictionaries. */
    constructor (items: seq<Item>)
      ensures itemsList == items && keyItems == map[] && idItems == map[]
    {
      itemsList := items;
      keyItems := map[];
      idItems := map[];
    }

    /** Clears the key dictionary and refills it from the list; the id dictionary is left alone. */
    method PopulateKeyDictionary()
      modifies this`keyItems
      ensures keyItems == KeyIndex(itemsList)
      ensures idItems == old(idItems) && itemsList == old(itemsList)
    {
      keyItems := map[];
      var i := 0;
      while i < |itemsList|
        invariant 0 <= i <= |itemsList|
        invariant keyItems == KeyIndex(itemsList[..i])
      {
        var item := itemsList[i];
        assert itemsList[..i + 1][..i] == itemsList[..i];
        if HasKey(item) {
          keyItems := keyItems[KeyOf(item) := item];
        }
        i := i + 1;
      }
      assert itemsList[..i] == itemsList;
    }

    /** Clears the id dictionary and refills it from the list; the key dictionary is left alone. */
    method PopulateIdDictionary()
      modifies this`idItems
      ensures idItems == IdIndex(itemsList)
      ensures keyItems == old(keyItems) && itemsList == old(itemsList)
    {
      idItems := map[];
      var i := 0;
      while i < |itemsList|
        invariant 0 <= i <= |itemsList|
        invariant idItems == IdIndex(itemsList[..i])
      {
        var item := itemsList[i];
        assert itemsList[..i + 1][..i] == itemsList[..i];
        idItems := idItems[item.id := item];
        i := i + 1;
      }
      assert itemsList[..i] == itemsList;
    }

    /**
      Clears both dictionaries and refills them in one pass over the list.
      The result does not depend on the dictionaries' previous contents, so
      calling it twice in a row leaves the same maps as calling it once.
     */
    method PopulateDictionaries()
      modifies this`keyItems, this`idItems
      ensures keyItems == KeyIndex(itemsList) && idItems == IdIndex(itemsList)
      ensures itemsList == old(itemsList)
    {
      keyItems := map[];
      idItems := map[];
      var i := 0;
      while i < |itemsList|
        invariant 0 <= i <= |itemsList|
        invariant keyItems == KeyIndex(itemsList[..i])
        invariant idItems == IdIndex(itemsList[..i])
      {
        var item := itemsList[i];
        assert itemsList[..i + 1][..i] == itemsList[..i];
        if HasKey(item) {
          keyItems := keyItems[KeyOf(item) := item];
        }
        idItems := idItems[item.id := item];
        i := i + 1;
      }
      assert itemsList[..i] == itemsList;
    }

    /** Empties the dictionaries the scope names; NoStorage empties none. */
    method ClearDictionary(scope: StorageType)
      modifies this`keyItems, this`idItems
      ensures keyItems == if TargetsKeys(scope) then map[] else old(keyItems)
      ensures idItems == if TargetsIds(scope) then map[] else old(idItems)
      ensures itemsList == old(itemsList)
    {
      match scope
      case NoStorage =>
      case All =>
        keyItems := map[];
        idItems := map[];
      case KeyBased =>
        keyItems := map[];
      case IdBased =>
        idItems := map[];
    }

    /** Inserts one item into the dictionaries the scope names, under the given collision policy. */
    method AddItem(mode: AddMode, scope: StorageType, item: Item)
      modifies this`keyItems, this`idItems
      ensures keyItems == if TargetsKeys(scope) then TryAddKey(old(keyItems), mode, item) else old(keyItems)
      ensures idItems == if TargetsIds(scope) then TryAddId(old(idItems), mode, item) else old(idItems)
      ensures itemsList == old(itemsList)
    {
      match scope
      case All =>
        TryAddKeyItem(mode, item);
        TryAddIdItem(mode, item);
      case KeyBased =>
        TryAddKeyItem(mode, item);
      case IdBased =>
        TryAddIdItem(mode, item);
      case NoStorage =>
    }

    method TryAddKeyItem(mode: AddMode, item: Item)
      modifies this`keyItems
      ensures keyItems == TryAddKey(old(keyItems), mode, item)
    {
      if !HasKey(item) {
        return;
      }
      if mode == Replace || KeyOf(item) !in keyItems {
        keyItems := keyItems[KeyOf(item) := item];
      }
    }

    method TryAddIdItem(mode: AddMode, item: Item)
      modifies this`idItems
      ensures idItems == TryAddId(old(idItems), mode, item)
    {
      if mode == Replace || item.id !in idItems {
        idItems := idItems[item.id := item];
      }
    }

    /** `KeyItems.ContainsKey(key)`. */
    function KeyExists(key: string): (r: bool)
      reads this
      ensures r <==> key in keyItems
    {
      key in keyItems
    }

    /** `IdItems.ContainsKey(id)`. */
    function IdExists(id: int): (r: bool)
      reads this
      ensures r <==> id in idItems
    {
      id in idItems
    }

    /** The item filed under `key`, or null exactly when `KeyExists(key)` is false. */
    function GetByKey(key: string): (r: Option<Item>)
      reads this
      ensures r.None? <==> !KeyExists(key)
      ensures r.Some? ==> r.value == keyItems[key]
    {
      if key in keyItems then Some(keyItems[key]) else None
    }

    /** The item filed under `id`, or null exactly when `IdExists(id)` is false. */
    function GetByID(id: int): (r: Option<Item>)
      reads this
      ensures r.None? <==> !IdExists(id)
      ensures r.Some? ==> r.value == idItems[id]
    {
      if id in idItems then Some(idItems[id]) else None
    }
  }

  /**
    After a rebuild, looking up a key (an id) returns the last item of the
    list carrying it, and a key (an id) no item carries is not found.
   */
  lemma LookupsAfterPopulate(s: DynamicStorageBase, k: string, id: int)
    requires s.keyItems == KeyIndex(s.itemsList) && s.idItems == IdIndex(s.itemsList)
    ensures s.KeyExists(k) <==> k in KeySet(s.itemsList)
    ensures s.IdExists(id) <==> id in IdSet(s.itemsList)
    ensures forall i :: IsLastWithKey(s.itemsList, i, k) ==> s.GetByKey(k) == Some(s.itemsList[i])
    ensures forall i :: IsLastWithId(s.itemsList, i, id) ==> s.GetByID(id) == Some(s.itemsList[i])
  {
    KeyIndexIsLastWriterWins(s.itemsList);
    IdIndexIsLastWriterWins(s.itemsList);
  }
}
