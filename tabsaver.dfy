/** The storage-touching operations of `Saver`, `Deleter` and `Loader` in
    js/tabsaver.js, as methods of an object holding the contents of
    `chrome.storage.sync`. Each method is proved against the function in
    `Storage` that gives the store after it. */
module TabSaver {
  import opened Wrappers
  import opened ArrayExt
  import opened Saver
  import opened Storage

  /** What `save` shows the user: the error banner with the reason, nothing
      at all when no URL was left, or the success banner. */
  datatype SaveOutcome = Rejected(error: InputError) | NothingSaved | Saved(identifier: string)

  /** The synchronized storage area and the operations the extension runs
      on it. */
  class SyncStorage {
    var items: Store

    constructor (init: Store)
      ensures items == init
    {
      items := init;
    }

    /** `Saver.storeUrls`: build `{ [id]: urls }` and `set` it. For
        `ProtoKey` the object built has no own property, so the `set`
        writes nothing. */
    method StoreUrls(id: string, urls: seq<string>)
      modifies this
      ensures items == AfterStoreUrls(old(items), id, urls)
      ensures id != ProtoKey ==> id in items && items[id] == urls
      ensures id == ProtoKey ==> items == old(items)
      ensures items - {id} == old(items) - {id}
    {
      var obj: Store := map[];
      if id != ProtoKey {
        obj := obj[id := urls];
      }
      items := items + obj;
    }

    /** `Saver.storeIdentifier`: read the registry, `upush` the identifier
        onto it, write it back. */
    method StoreIdentifier(id: string)
      modifies this
      ensures items == AfterStoreIdentifier(old(items), id)
      ensures RegistryKey in items && id in items[RegistryKey]
      ensures (RegistryKey in old(items) ==> NoDuplicates(old(items)[RegistryKey]))
              ==> NoDuplicates(items[RegistryKey])
    {
      var ids: JsArray<string>;
      if RegistryKey !in items {
        ids := new JsArray([id]);
      } else {
        ids := new JsArray(items[RegistryKey]);
        ids.Upush(id, Equals(id));
        assert (exists i :: 0 <= i < |items[RegistryKey]| && Equals(id)(items[RegistryKey][i]))
               <==> id in items[RegistryKey];
      }
      items := items[RegistryKey := ids.elems];
      StoreIdentifierAdds(old(items), id);
      if RegistryKey in old(items) ==> NoDuplicates(old(items)[RegistryKey]) {
        StoreIdentifierNoDuplicates(old(items), id);
      }
    }

    /** `Saver.save`: validate the identifier, keep the URLs of the
        non-incognito tabs, give up silently when none is left, and
        otherwise store the URLs and then register the identifier. */
    method Save(field: string, tabs: seq<Tab>) returns (outcome: SaveOutcome)
      modifies this
      ensures items == AfterSave(old(items), field, tabs)
      ensures outcome == match Input(field)
        case Failure(e) => Rejected(e)
        case Success(id) => if Urls(tabs) == [] then NothingSaved else Saved(id)
      ensures outcome.Saved? && outcome.identifier != RegistryKey && outcome.identifier != ProtoKey ==>
        Load(items, outcome.identifier) == Some(WindowRequest(Urls(tabs), true))
      ensures outcome == Saved(ProtoKey) ==>
        RegistryKey in items && ProtoKey in items[RegistryKey] &&
        items - {RegistryKey} == old(items) - {RegistryKey}
      ensures old(Consistent(items)) && Input(field) != Success(RegistryKey) && Input(field) != Success(ProtoKey)
        ==> Consistent(items)
    {
      ghost var before := items;
      if Consistent(before) && Input(field) != Success(RegistryKey) && Input(field) != Success(ProtoKey) {
        SavePreservesConsistent(before, field, tabs);
      }
      var identifier := Input(field);
      if identifier.Failure? {
        return Rejected(identifier.error);
      }
      var urls := Urls(tabs);
      if |urls| == 0 {
        return NothingSaved;
      }
      StoreUrls(identifier.value, urls);
      StoreIdentifier(identifier.value);
      SaveSteps(before, field, tabs, identifier.value);
      outcome := Saved(identifier.value);
      if identifier.value != RegistryKey && identifier.value != ProtoKey {
        SaveThenLoad(before, field, tabs, identifier.value);
      }
    }

    /** The `get` of the registry that `Deleter.removeIdentifier` issues:
        the registry, or nothing when there is none. */
    method FetchRegistry() returns (fetched: Option<seq<string>>)
      ensures fetched.Some? <==> RegistryKey in items
      ensures fetched.Some? ==> fetched.value == items[RegistryKey]
    {
      if RegistryKey in items {
        fetched := Some(items[RegistryKey]);
      } else {
        fetched := None;
      }
    }

    /** The callback of that `get`: when a registry was fetched, write back
        what `filter` keeps of it. It runs after every storage call queued
        behind the `get`. */
    method WriteBackRegistry(fetched: Option<seq<string>>, id: string)
      modifies this
      ensures fetched.None? ==> items == old(items)
      ensures fetched.Some? ==>
        items == old(items)[RegistryKey := Filtered(fetched.value, Differs(id))]
      ensures fetched.Some? ==> RegistryKey in items && id !in items[RegistryKey]
    {
      if fetched.None? {
        return;
      }
      var ids := new JsArray(fetched.value);
      var kept := ids.Filter(Differs(id));
      items := items[RegistryKey := kept];
    }

    /** `Deleter.removeIdentifier`: fetch the registry, then write back what
        `filter` keeps of it. */
    method RemoveIdentifier(id: string)
      modifies this
      ensures items == AfterRemoveIdentifier(old(items), id)
      ensures RegistryKey in old(items) ==> RegistryKey in items && id !in items[RegistryKey]
    {
      var fetched := FetchRegistry();
      WriteBackRegistry(fetched, id);
    }

    /** `Deleter.delete`: `removeIdentifier` issues its `get`, `remove(id)`
        is issued next and runs before the `get`'s callback, which then
        writes back the filtered registry it fetched. */
    method Delete(id: string)
      modifies this
      ensures items == AfterDelete(old(items), id)
      ensures id != RegistryKey ==> id !in items && Load(items, id) == None
      ensures RegistryKey in items <==> RegistryKey in old(items)
      ensures RegistryKey in items ==> id !in items[RegistryKey]
      ensures id == RegistryKey && RegistryKey in old(items) ==>
        Load(items, id) == Some(WindowRequest(Filtered(old(items)[RegistryKey], Differs(id)), true))
      ensures old(Consistent(items)) ==> Consistent(items)
    {
      ghost var before := items;
      var fetched := FetchRegistry();
      items := items - {id};
      WriteBackRegistry(fetched, id);
      DeleteForgets(before, id);
      if id == RegistryKey && RegistryKey in before {
        DeleteRegistryKey(before);
      }
      if Consistent(before) {
        DeletePreservesConsistent(before, id);
      }
    }
  }
}
