# Limbo libraries: dynamic storages and the observable list, in Dafny

This project models three pieces of the Limbo Unity utility library.

- **The dynamic storage registry.** `DynamicStorageBase<T>` (engine-hosted) and `DynamicStorage<T>` (a plain serialisable class) each hold an authoritative item list. Each item has a nullable string `Key` and an integer `ID`. The registry keeps two derived dictionaries, key → item and id → item. It can rebuild them from the list, clear them by scope (`EStorageType`: None, All, KeyBased, IdBased), insert one item under a collision policy (`EAddMode`: Replace or Skip) and answer membership and lookup queries.
- **`ObservableList<T>`.** A list wrapper that raises item-added, item-removed and list-changed notifications when `ActOnChange` is set. With `UseGarbageCollecting` set, value-based removals requested while an enumerator is live are queued. They are carried out, in request order, when the enumerator is disposed.
- **List helpers.** `ArrayUtils.ListCleaner` and the `Cleaner` extension remove every null. `ReplaceNullsWith` overwrites every null slot with a fallback value.

Files:

- `wrappers.dfy`: `Option`, which stands for a nullable value (`None` is `null`).
- `storage_spec.dfy` (module `StorageSpec`): the item datatype, the two enums, and the reference functions `KeyIndex`/`IdIndex`. These give the maps that a rebuild from a list must produce. The module also holds the single-item insertion functions `TryAddKey`/`TryAddId` and the lemmas about them.
- `dynamic_storage_base.dfy`, `dynamic_storage.dfy`: one class each, with the list and the two dictionaries as `seq`/`map` fields. Every method's `ensures` ties the new fields to the `StorageSpec` functions of the old fields.
- `observable_list.dfy` (module `ObservableLists`): the list, its enumerator, and the sequence operations of `System.Collections.Generic.List` that it relies on (`IndexOf`, `Remove`, `RemoveAt`). The three C# events are one appended log, `events: seq<Event<T>>`.
- `list_extensions.dfy` (modules `ListExtensions`, `ArrayUtils`): the null helpers.

Modelling notes:

- `EStorageType.None` is called `NoStorage` here, because `None` is already the null of `Option`. It matches no case in `AddItem` of either class. In `ClearDictionary` it matches an empty case in `DynamicStorageBase` (DynamicStorageBase.cs:53-54) and no case in `DynamicStorage` (DynamicStorage.cs:39-51). Either way it changes nothing.
- An item's key is `Option<string>`, and "has a key" is `!string.IsNullOrEmpty(Key)`. `PopulateKeyDictionary` tests `Key != null && Key != ""`, which is the same predicate.
- "Last writer wins" is stated by position: an entry equals the item at the last list position that carries its key (or id). The statement does not depend on item equality.
- The pending-removal queue is a `List<T>` in the code, so it is a `seq` here and keeps duplicates. It is not a set.
- `Dispose` runs its garbage-collection loop through `ObservableList.ForceRemove`. That method removes each queued value by first occurrence and never re-queues it.
- `IsEnumerating` is one boolean, as in the code. `NestedEnumerationScenario` shows the consequence: once an inner enumerator is disposed, a removal is no longer deferred, although an outer enumerator is still live.

## Model

| member | source | states |
|---|---|---|
| StorageSpec.KeyIndexIsLastWriterWins | Assets/Limbo/DynamicStorages/DynamicStorageBase.cs:35-47 | The rebuilt key map's domain is exactly the set of non-null, non-empty keys in the list. Each key maps to the item at the last position carrying it. The empty key never appears. |
| StorageSpec.IdIndexIsLastWriterWins | Assets/Limbo/DynamicStorages/DynamicStorageBase.cs:35-47 | The rebuilt id map's domain is exactly the set of ids in the list. Each id maps to the item at the last position carrying it. |
| StorageSpec.IndexesAreWellFormed | Assets/Limbo/DynamicStorages/DynamicStorageBase.cs:40-46 | A rebuilt key map files every item under its own non-empty key. A rebuilt id map files every item under its own id. |
| StorageSpec.TryAddKey | Assets/Limbo/DynamicStorages/DynamicStorageBase.cs:92-98 | A null or empty key leaves the map unchanged. Otherwise the key joins the domain. Under Replace, or when the key is absent, the entry becomes the item. Under Skip with the key present, the map is unchanged. All other entries are kept. An empty key is never introduced, and well-keyedness is preserved. |
| StorageSpec.TryAddId | Assets/Limbo/DynamicStorages/DynamicStorageBase.cs:100-104 | The id joins the domain. Under Replace, or when the id is absent, the entry becomes the item. Under Skip with the id present, the map is unchanged. All other entries are kept, and well-idedness is preserved. |
| StorageSpec.ReplaceAddIsIncrementalRebuild | Assets/Limbo/DynamicStorages/DynamicStorageBase.cs:75-104 | Adding an item under Replace to maps rebuilt from a list gives the maps rebuilt from that list with the item appended. |
| StorageSpec.SkipAddKeepsEarlierWriter | Assets/Limbo/DynamicStorages/DynamicStorageBase.cs:92-98 | Under Skip, adding an item whose key the rebuilt map holds leaves the entry on the last earlier list item with that key. |
| StorageSpec.SkipAddKeepsEarlierIdWriter | Assets/Limbo/DynamicStorages/DynamicStorageBase.cs:100-104 | Under Skip, adding an item whose id the rebuilt map holds leaves the entry on the last earlier list item with that id. |
| StorageSpec.SwordScenario | Assets/Limbo/DynamicStorages/DynamicStorageBase.cs:35-47 | For the list [sword/1, ""/2, sword/3], a rebuild maps "sword" to id 3 and id 2 to the item whose key is "". "shield" is absent, the key domain is {"sword"} and the id domain is {1, 2, 3}. |
| DynamicStorageBase.DynamicStorageBase.constructor | Assets/Limbo/DynamicStorages/DynamicStorageBase.cs:9-11 | The registry starts with the given item list and two empty dictionaries. |
| DynamicStorageBase.DynamicStorageBase.PopulateKeyDictionary | Assets/Limbo/DynamicStorages/DynamicStorageBase.cs:16-25 | The key map becomes the key rebuild of the list. The id map and the list are unchanged. |
| DynamicStorageBase.DynamicStorageBase.PopulateIdDictionary | Assets/Limbo/DynamicStorages/DynamicStorageBase.cs:27-33 | The id map becomes the id rebuild of the list. The key map and the list are unchanged. |
| DynamicStorageBase.DynamicStorageBase.PopulateDictionaries | Assets/Limbo/DynamicStorages/DynamicStorageBase.cs:35-47 | Both maps become the rebuilds of the list, equal to what the two single rebuilds give. The result does not depend on the old maps. The list is unchanged. |
| DynamicStorageBase.DynamicStorageBase.ClearDictionary | Assets/Limbo/DynamicStorages/DynamicStorageBase.cs:49-67 | All empties both maps. KeyBased empties only the key map, and IdBased only the id map. None changes nothing. The list is never touched. |
| DynamicStorageBase.DynamicStorageBase.AddItem | Assets/Limbo/DynamicStorages/DynamicStorageBase.cs:75-90 | Only the maps named by the scope receive `TryAddKey`/`TryAddId`. The other map and the list are unchanged, and None changes nothing. |
| DynamicStorageBase.DynamicStorageBase.TryAddKeyItem | Assets/Limbo/DynamicStorages/DynamicStorageBase.cs:92-98 | The key map becomes `TryAddKey` of the old key map. |
| DynamicStorageBase.DynamicStorageBase.TryAddIdItem | Assets/Limbo/DynamicStorages/DynamicStorageBase.cs:100-104 | The id map becomes `TryAddId` of the old id map. |
| DynamicStorageBase.DynamicStorageBase.KeyExists | Assets/Limbo/DynamicStorages/DynamicStorageBase.cs:109 | True exactly when the key is in the key map. The list is not consulted. |
| DynamicStorageBase.DynamicStorageBase.IdExists | Assets/Limbo/DynamicStorages/DynamicStorageBase.cs:110 | True exactly when the id is in the id map. The list is not consulted. |
| DynamicStorageBase.DynamicStorageBase.GetByKey | Assets/Limbo/DynamicStorages/DynamicStorageBase.cs:111 | Null exactly when `KeyExists` is false. Otherwise it returns the key map's entry. |
| DynamicStorageBase.DynamicStorageBase.GetByID | Assets/Limbo/DynamicStorages/DynamicStorageBase.cs:112 | Null exactly when `IdExists` is false. Otherwise it returns the id map's entry. |
| DynamicStorage.DynamicStorage.constructor | Assets/Limbo/DynamicStorages/DynamicStorage.cs:11-13 | The registry starts with the given item list and two empty dictionaries. |
| DynamicStorage.DynamicStorage.PopulateDictionaries | Assets/Limbo/DynamicStorages/DynamicStorage.cs:23-35 | One pass over the list rebuilds both maps, and the last occurrence of each id and each non-empty key wins. The old maps have no influence, so a second call changes nothing. The list is unchanged. |
| DynamicStorage.DynamicStorage.ClearDictionary | Assets/Limbo/DynamicStorages/DynamicStorage.cs:37-52 | All clears both maps. KeyBased and IdBased clear only their own map. None hits no case and changes nothing. The list is unchanged. |
| DynamicStorage.DynamicStorage.AddItem | Assets/Limbo/DynamicStorages/DynamicStorage.cs:54-69 | Only the selected maps change, each under the Replace/Skip policy. The list is unchanged. |
| DynamicStorage.DynamicStorage.TryAddKeyItem | Assets/Limbo/DynamicStorages/DynamicStorage.cs:71-77 | The key map becomes `TryAddKey` of the old key map. An empty or null key is never inserted. |
| DynamicStorage.DynamicStorage.TryAddIdItem | Assets/Limbo/DynamicStorages/DynamicStorage.cs:79-83 | The id map becomes `TryAddId` of the old id map. |
| DynamicStorage.DynamicStorage.KeyExists | Assets/Limbo/DynamicStorages/DynamicStorage.cs:88 | True exactly when the key is in the key map. |
| DynamicStorage.DynamicStorage.IdExists | Assets/Limbo/DynamicStorages/DynamicStorage.cs:89 | True exactly when the id is in the id map. |
| DynamicStorage.DynamicStorage.GetByKey | Assets/Limbo/DynamicStorages/DynamicStorage.cs:90 | Null exactly when the key is absent. Otherwise it returns the key map's entry. |
| DynamicStorage.DynamicStorage.GetByID | Assets/Limbo/DynamicStorages/DynamicStorage.cs:91 | Null exactly when the id is absent. Otherwise it returns the id map's entry. |
| DynamicStorageBase.LookupsAfterPopulate | Assets/Limbo/DynamicStorages/DynamicStorageBase.cs:109-112 | After a rebuild, `KeyExists`/`IdExists` hold exactly for the keys and ids the list carries. `GetByKey`/`GetByID` return the item at the last list position carrying them. |
| DynamicStorage.LookupsAfterPopulate | Assets/Limbo/DynamicStorages/DynamicStorage.cs:23-35 | After a rebuild, `KeyExists`/`IdExists` hold exactly for the keys and ids the list carries. `GetByKey`/`GetByID` return the item at the last list position carrying them. |
| ObservableLists.FirstIndex | Assets/Limbo/Utils/Collections/Generic/ArrayUtils.cs:81 | Returns -1 exactly when the value is absent. Otherwise it returns the position of its first occurrence. |
| ObservableLists.Delete | Assets/Limbo/Utils/Collections/Generic/ArrayUtils.cs:98 | Removing a position keeps the elements before it and shifts the later ones down by one. |
| ObservableLists.DeleteMultiset | Assets/Limbo/Utils/Collections/Generic/ArrayUtils.cs:98 | Removing a position takes exactly one occurrence of the value stored there out of the list. |
| ObservableLists.RemoveFirst | Assets/Limbo/Utils/Collections/Generic/ArrayUtils.cs:57 | A list without the value is returned unchanged. Otherwise the result is one element shorter. |
| ObservableLists.RemoveFirstAt | Assets/Limbo/Utils/Collections/Generic/ArrayUtils.cs:57 | The elements before the first occurrence are kept, and the later elements shift down by one. |
| ObservableLists.RemoveFirstMultiset | Assets/Limbo/Utils/Collections/Generic/ArrayUtils.cs:57 | Removing by value takes exactly one occurrence out of the list, if one exists. |
| ObservableLists.RemovedEventsAt | Assets/Limbo/Utils/Collections/Generic/ArrayUtils.cs:68-72 | Clear's removal notifications are one per element, in list order. |
| ObservableLists.FlushedListMultiset | Assets/Limbo/Utils/Collections/Generic/ArrayUtils.cs:139-152 | Flushing the queue takes one occurrence out of the list per queued request, as far as occurrences remain. |
| ObservableLists.FlushEventsCount | Assets/Limbo/Utils/Collections/Generic/ArrayUtils.cs:144-149 | With notifications off the flush reports nothing. With them on, it logs two entries per element actually removed. |
| ObservableLists.FlushEventsPairs | Assets/Limbo/Utils/Collections/Generic/ArrayUtils.cs:145-149 | The flush log alternates: every even slot is an ItemRemoved and every odd slot the ListChanged that follows it. |
| ObservableLists.FlushEventsNameRemoved | Assets/Limbo/Utils/Collections/Generic/ArrayUtils.cs:141-149 | The values of the flush's ItemRemoved entries, together with what is left in the list, make up exactly the list before the flush: each removed element is reported once and nothing else is. |
| ObservableLists.ObservableList.constructor | Assets/Limbo/Utils/Collections/Generic/ArrayUtils.cs:15-24 | The list starts empty, with an empty queue and no events. `ActOnChange` is on, `UseGarbageCollecting` is off and `IsEnumerating` is false. |
| ObservableLists.ObservableList.Count | Assets/Limbo/Utils/Collections/Generic/ArrayUtils.cs:36 | Returns the number of elements. |
| ObservableLists.ObservableList.Get | Assets/Limbo/Utils/Collections/Generic/ArrayUtils.cs:28 | Returns the element at an in-range index. |
| ObservableLists.ObservableList.Set | Assets/Limbo/Utils/Collections/Generic/ArrayUtils.cs:29-33 | Only slot `index` changes and the count is kept. Only ListChanged is logged, and only when `ActOnChange` is set. |
| ObservableLists.ObservableList.Add | Assets/Limbo/Utils/Collections/Generic/ArrayUtils.cs:39-47 | Appends the item and keeps the earlier elements. With `ActOnChange`, the log grows by ItemAdded(item) then ListChanged; otherwise it is unchanged. |
| ObservableLists.ObservableList.Remove | Assets/Limbo/Utils/Collections/Generic/ArrayUtils.cs:49-64 | While enumerating in garbage-collecting mode, it queues the item, returns false, and leaves the list and the log unchanged. Otherwise it removes the first occurrence and returns whether there was one. ItemRemoved then ListChanged are logged only for an actual removal with `ActOnChange` set. |
| ObservableLists.ObservableList.Clear | Assets/Limbo/Utils/Collections/Generic/ArrayUtils.cs:66-77 | Empties the list. With `ActOnChange`, it logs one ItemRemoved per original element in original order, then exactly one ListChanged. |
| ObservableLists.ObservableList.Contains | Assets/Limbo/Utils/Collections/Generic/ArrayUtils.cs:79 | True exactly when some position holds the item. |
| ObservableLists.ObservableList.IndexOf | Assets/Limbo/Utils/Collections/Generic/ArrayUtils.cs:81 | Returns -1 exactly when `Contains` is false. Otherwise it returns the first position holding the item. |
| ObservableLists.ObservableList.Insert | Assets/Limbo/Utils/Collections/Generic/ArrayUtils.cs:83-91 | The item is placed at `index` and the later elements shift up. With `ActOnChange`, ItemAdded(item) then ListChanged are logged. |
| ObservableLists.ObservableList.RemoveAt | Assets/Limbo/Utils/Collections/Generic/ArrayUtils.cs:93-105 | An index outside [0, Count) changes nothing. Otherwise exactly that element is removed and the rest shift down. With `ActOnChange`, ItemRemoved(old element) then ListChanged are logged. It is never deferred. |
| ObservableLists.ObservableList.ForceRemove | Assets/Limbo/Utils/Collections/Generic/ArrayUtils.cs:139-152 | Removes each queued value in queue order by first occurrence, without re-queueing. The log grows by the flush notifications. |
| ObservableLists.ObservableList.GetEnumerator | Assets/Limbo/Utils/Collections/Generic/ArrayUtils.cs:107-110 | Returns a fresh enumerator over this list and sets `IsEnumerating`. |
| ObservableLists.ObservableEnumerator.constructor | Assets/Limbo/Utils/Collections/Generic/ArrayUtils.cs:119-124 | Creating an enumerator sets the parent's `IsEnumerating`. |
| ObservableLists.ObservableEnumerator.Dispose | Assets/Limbo/Utils/Collections/Generic/ArrayUtils.cs:133-153 | Clears `IsEnumerating`. In garbage-collecting mode with a non-empty queue, it flushes the queue in order and empties it. Otherwise the list, the log and the queue are unchanged. |
| ObservableLists.DeferredRemovalScenario | Assets/Limbo/Utils/Collections/Generic/ArrayUtils.cs:49-64 | Removing x and then y while enumerating [x, y, z] in garbage-collecting mode returns false twice and leaves the list intact. Disposing leaves [z] and logs ItemRemoved(x), ListChanged, ItemRemoved(y), ListChanged. |
| ObservableLists.NestedEnumerationScenario | Assets/Limbo/Utils/Collections/Generic/ArrayUtils.cs:123-136 | With two live enumerators, disposing the inner one clears the single flag. A later `Remove` then acts at once. |
| ListExtensions.Cleaner | Assets/Limbo/Utils/Collections/Generic/ArrayUtils.cs:202-205 | No null remains and every kept element comes from the list. A list without nulls is returned unchanged. |
| ListExtensions.CleanerKeepsNonNulls | Assets/Limbo/Utils/Collections/Generic/ArrayUtils.cs:202-205 | Every non-null element is kept as often as it occurred, and nothing else is kept. |
| ListExtensions.CleanerKeepsOrder | Assets/Limbo/Utils/Collections/Generic/ArrayUtils.cs:202-205 | Cleaning distributes over concatenation, so the non-null elements keep their relative order. |
| ListExtensions.NullsReplaced | Assets/Limbo/Utils/Collections/Generic/ArrayUtils.cs:212-219 | The length is kept. Every null slot holds the fallback and every other slot is unchanged. |
| ListExtensions.ReplacedListIsClean | Assets/Limbo/Utils/Collections/Generic/ArrayUtils.cs:212-219 | After nulls are replaced with a non-null value, `Cleaner` finds nothing to drop. |
| ListExtensions.ReplaceNullsWith | Assets/Limbo/Utils/Collections/Generic/ArrayUtils.cs:212-219 | The in-place index loop leaves the array equal to `NullsReplaced` of its old contents. |
| ArrayUtils.ListCleaner | Assets/Limbo/Utils/Collections/Generic/ArrayUtils.cs:194-197 | No null remains, and the multiset of elements is the old one with all nulls dropped. |

## Left out

- Unity hosting: `MonoBehaviour` inheritance, `[SerializeField]`/`[Serializable]` inspector serialisation, and the `Awake` hook of `TestItemsStorage` are not modelled. The registry's item list is a constructor argument and a public field.
- Unnamed enum values: `EStorageType` and `EAddMode` are closed datatypes here, but a C# enum variable can hold an integer that names no member. Such an `EStorageType` reaches `default: break;` in `DynamicStorageBase.ClearDictionary` (DynamicStorageBase.cs:65) and no case elsewhere, so it changes nothing, as `NoStorage` does. Such an `EAddMode` is not `Replace`, so it takes the Skip branch (DynamicStorageBase.cs:96,102; DynamicStorage.cs:75,81). The model does not represent these values.
- The `virtual` modifiers of `DynamicStorageBase`: overriding in subclasses is not modelled.
- Item identity: C# items are references, and here they are values. Two distinct items with equal key and id are indistinguishable. Fields of `StorageItemBase` subclasses are not modelled.
- Null arguments and null items: `KeyExists(null)` and the other null-key lookups throw in .NET. A Dafny `string` cannot be null, so these cases do not arise. A null item in the list is likewise excluded by the item datatype.
- Event subscription: the three C# events are one log of the notifications raised. Whether anyone is subscribed, and what the handlers do (including re-entering the list), is not modelled.
- ObservableLists.ObservableList.Get, Set and Insert: the out-of-range `ArgumentOutOfRangeException` of `List<T>` is a precondition here, not an error path.
- The enumerator's `MoveNext`, `Current` and `Reset`: these pass straight through to the .NET list enumerator. Its exception when the list changes during enumeration is not modelled either.
- `CopyTo` passes straight through to .NET's `List<T>.CopyTo` and is not modelled. `IsReadOnly` always returns false and is not modelled either.
- `ListExtensions.ComponentCleaner`: it relies on Unity's overloaded "destroyed object equals null".
- The second `GetEnumerator`/`ObservableEnumerator` block after the class (ArrayUtils.cs:158-190) is not modelled. It stands outside the class and its `Dispose` does not flush. Only the version at lines 107-153 is modelled.
- ListExtensions.Cleaner and ArrayUtils.ListCleaner: `List.RemoveAll` changes the caller's list in place. Here the functions return the list's new contents instead, so aliasing of that list is not captured.
- ArrayUtils.ListCleaner: its own contract states no nulls and the kept multiset. Order preservation follows from its definition as `Cleaner`, which `CleanerKeepsOrder` proves.
- MonoBehaviourUtils.cs, LoopUtils.cs, the dialog nodes and options, and the status-effect descriptions are not part of this model. They are engine glue or data holders without logic.
