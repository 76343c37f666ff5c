/** The state js/tabsaver.js keeps in `chrome.storage.sync`, and what each of
    its storage callbacks does to it, as functions from the store before to
    the store after. Each callback is one atomic step here.

    Every value the extension writes is an array of strings: the URL list of
    a saved tab set under its identifier, and the list of identifiers under
    the registry key. User identifiers and the registry key share one map,
    as they share one storage area in the source. */
module Storage {
  import opened Wrappers
  import opened ArrayExt
  import opened Saver

  type Store = map<string, seq<string>>

  /** The key the list of saved identifiers is kept under. */
  const RegistryKey: string := "tabsaver.identifiers"

  /** The one identifier `obj[id] = urls` cannot make a key of: in
      JavaScript, assigning `obj["__proto__"]` calls the `__proto__` setter
      of `Object.prototype` (Annex B of ECMAScript), which replaces `obj`'s
      prototype and adds no own property, so `chrome.storage.sync.set(obj)`
      is given an empty object. */
  const ProtoKey: string := "__proto__"

  /** The predicate `storeIdentifier` hands to `upush` (js/tabsaver.js:117-119). */
  function Equals(id: string): string -> bool {
    e => e == id
  }

  /** The predicate `removeIdentifier` hands to `filter` (js/tabsaver.js:153). */
  function Differs(id: string): string -> bool {
    e => e != id
  }

  /** The store after `Saver.storeUrls(id, urls)`: the URL list under `id`,
      except under `ProtoKey`, where nothing is written. */
  function AfterStoreUrls(st: Store, id: string, urls: seq<string>): (r: Store)
    ensures id != ProtoKey ==> id in r && r[id] == urls
    ensures id == ProtoKey ==> r == st
    ensures r - {id} == st - {id}
  {
    if id == ProtoKey then st else st[id := urls]
  }

  /** The store after `Saver.storeIdentifier(id)`: the registry starts as
      `[id]` when absent, and otherwise gets `id` at its end when `id` is not
      already in it. */
  function AfterStoreIdentifier(st: Store, id: string): (r: Store)
    ensures RegistryKey in r && id in r[RegistryKey]
    ensures r - {RegistryKey} == st - {RegistryKey}
  {
    var ids := if RegistryKey !in st then [id]
               else if id in st[RegistryKey] then st[RegistryKey]
               else st[RegistryKey] + [id];
    st[RegistryKey := ids]
  }

  /** The store after `Deleter.removeIdentifier(id)`. */
  function AfterRemoveIdentifier(st: Store, id: string): (r: Store)
    ensures RegistryKey in st <==> RegistryKey in r
    ensures RegistryKey in r ==> id !in r[RegistryKey]
    ensures r - {RegistryKey} == st - {RegistryKey}
  {
    if RegistryKey !in st then st
    else st[RegistryKey := Filtered(st[RegistryKey], Differs(id))]
  }

  /** The store after `Deleter.delete(id)`. Three storage calls run in the
      order they are queued: `removeIdentifier`'s `get` of the registry, the
      `remove` of `id`, and last the `set` of the filtered registry, which
      is issued from the `get`'s callback. The registry written back is the
      one fetched before the `remove`, so when `id` is the registry key
      itself the key ends up holding that filtered list. */
  function AfterDelete(st: Store, id: string): (r: Store)
    ensures id != RegistryKey ==> id !in r
    ensures RegistryKey in r <==> RegistryKey in st
    ensures RegistryKey in r ==> id !in r[RegistryKey]
    ensures r - {RegistryKey, id} == st - {RegistryKey, id}
  {
    var fetched := if RegistryKey in st then Some(st[RegistryKey]) else None;
    var removed := st - {id};
    if fetched.None? then removed
    else removed[RegistryKey := Filtered(fetched.value, Differs(id))]
  }

  /** The store after `Saver.save` with the identifier field holding `field`
      and the window holding `tabs`. */
  function AfterSave(st: Store, field: string, tabs: seq<Tab>): (r: Store)
    ensures Input(field).Failure? || Urls(tabs) == [] ==> r == st
    ensures Input(field).Success? && Urls(tabs) != [] ==>
      && RegistryKey in r && Input(field).value in r[RegistryKey]
      && r - {RegistryKey, Input(field).value} == st - {RegistryKey, Input(field).value}
  {
    match Input(field)
    case Failure(_) => st
    case Success(id) =>
      var urls := Urls(tabs);
      if |urls| == 0 then st
      else
        StoreStepsFrame(st, id, urls);
        AfterStoreIdentifier(AfterStoreUrls(st, id, urls), id)
  }

  /** Storing the URLs and then registering the identifier touches only the
      identifier's key and the registry's. */
  lemma StoreStepsFrame(st: Store, id: string, urls: seq<string>)
    ensures AfterStoreIdentifier(AfterStoreUrls(st, id, urls), id) - {RegistryKey, id}
         == st - {RegistryKey, id}
  {
    var mid := AfterStoreUrls(st, id, urls);
    var r := AfterStoreIdentifier(mid, id);
    assert mid - {RegistryKey, id} == (mid - {id}) - {RegistryKey};
    assert st - {RegistryKey, id} == (st - {id}) - {RegistryKey};
    assert r - {RegistryKey, id} == (r - {RegistryKey}) - {id};
    assert mid - {RegistryKey, id} == (mid - {RegistryKey}) - {id};
  }

  /** The window `chrome.windows.create` is asked for. */
  datatype WindowRequest = WindowRequest(urls: seq<string>, focused: bool)

  /** `Loader.load(id)`: a focused window on the stored URL list, or nothing
      when the key is absent. */
  function Load(st: Store, id: string): (r: Option<WindowRequest>)
    ensures r == None <==> id !in st
    ensures r.Some? ==> r.value.urls == st[id] && r.value.focused
  {
    if id in st then Some(WindowRequest(st[id], true)) else None
  }

  /** The registry has no duplicates, and every registered identifier has a
      non-empty stored collection. */
  ghost predicate Consistent(st: Store) {
    RegistryKey in st ==>
      && NoDuplicates(st[RegistryKey])
      && forall i :: 0 <= i < |st[RegistryKey]| ==>
           st[RegistryKey][i] in st && st[st[RegistryKey][i]] != []
  }

  // ---------------------------------------------------------------------
  // storeIdentifier

  /** After `storeIdentifier(id)` the registry exists and holds `id`; the old
      registry is a prefix of the new one, which holds nothing else but `id`
      and grows by at most one entry. */
  lemma StoreIdentifierAdds(st: Store, id: string)
    ensures var st' := AfterStoreIdentifier(st, id);
      && RegistryKey in st'
      && id in st'[RegistryKey]
      && (RegistryKey !in st ==> st'[RegistryKey] == [id])
      && (RegistryKey in st ==>
            && st[RegistryKey] <= st'[RegistryKey]
            && |st'[RegistryKey]| <= |st[RegistryKey]| + 1
            && (id in st[RegistryKey] <==> st'[RegistryKey] == st[RegistryKey]))
      && forall x :: x in st'[RegistryKey] ==> x == id || (RegistryKey in st && x in st[RegistryKey])
  {
  }

  /** A duplicate-free registry stays duplicate-free. */
  lemma StoreIdentifierNoDuplicates(st: Store, id: string)
    requires RegistryKey in st ==> NoDuplicates(st[RegistryKey])
    ensures NoDuplicates(AfterStoreIdentifier(st, id)[RegistryKey])
  {
    if RegistryKey in st && id !in st[RegistryKey] {
      var ids := st[RegistryKey];
      var ids' := ids + [id];
      forall i, j | 0 <= i < j < |ids'| ensures ids'[i] != ids'[j] {
        if j == |ids| {
          assert ids'[i] == ids[i];
        }
      }
    }
  }

  /** Calling `storeIdentifier` twice has the effect of calling it once. */
  lemma StoreIdentifierIdempotent(st: Store, id: string)
    ensures AfterStoreIdentifier(AfterStoreIdentifier(st, id), id) == AfterStoreIdentifier(st, id)
  {
    StoreIdentifierAdds(st, id);
  }

  // ---------------------------------------------------------------------
  // removeIdentifier and delete

  /** Without a registry, `removeIdentifier` does nothing. */
  lemma RemoveIdentifierAbsent(st: Store, id: string)
    requires RegistryKey !in st
    ensures AfterRemoveIdentifier(st, id) == st
  {
  }

  /** `removeIdentifier(id)` drops every occurrence of `id` from the registry
      and keeps every other entry; it touches no other key. */
  lemma RemoveIdentifierRemoves(st: Store, id: string)
    requires RegistryKey in st
    ensures var st' := AfterRemoveIdentifier(st, id);
      && RegistryKey in st'
      && id !in st'[RegistryKey]
      && |st'[RegistryKey]| <= |st[RegistryKey]|
      && (forall x :: x != id ==> (x in st'[RegistryKey] <==> x in st[RegistryKey]))
      && st' - {RegistryKey} == st - {RegistryKey}
  {
    var ids := st[RegistryKey];
    var ids' := Filtered(ids, Differs(id));
    forall x | x != id && x in ids ensures x in ids' {
      var i :| 0 <= i < |ids| && ids[i] == x;
      assert Differs(id)(ids[i]);
    }
  }

  /** The entries `removeIdentifier` keeps stay in their relative order: an
      entry before another in the old registry is before it in the new one. */
  lemma RemoveIdentifierKeepsOrder(st: Store, id: string, i: nat, j: nat)
    requires RegistryKey in st
    requires i < j < |st[RegistryKey]|
    requires st[RegistryKey][i] != id && st[RegistryKey][j] != id
    ensures var ids := st[RegistryKey];
      var ids' := AfterRemoveIdentifier(st, id)[RegistryKey];
      var i', j' := |Filtered(ids[..i], Differs(id))|, |Filtered(ids[..j], Differs(id))|;
      && i' < j' < |ids'|
      && ids'[i'] == ids[i]
      && ids'[j'] == ids[j]
  {
    FilteredKeepsOrder(st[RegistryKey], Differs(id), i, j);
  }

  /** Removing an identifier that is not registered leaves the store as it
      was. */
  lemma RemoveIdentifierNotRegistered(st: Store, id: string)
    requires RegistryKey in st ==> id !in st[RegistryKey]
    ensures AfterRemoveIdentifier(st, id) == st
  {
    if RegistryKey in st {
      var ids := st[RegistryKey];
      FilteredAll(ids, Differs(id));
      assert st[RegistryKey := ids] == st;
    }
  }

  /** `removeIdentifier` keeps a duplicate-free registry duplicate-free. */
  lemma RemoveIdentifierNoDuplicates(st: Store, id: string)
    requires RegistryKey in st && NoDuplicates(st[RegistryKey])
    ensures NoDuplicates(AfterRemoveIdentifier(st, id)[RegistryKey])
  {
    FilteredNoDuplicates(st[RegistryKey], Differs(id));
  }

  /** After `delete(id)` of any identifier but the registry key, the key
      `id` is gone and `load(id)` does nothing; whatever the identifier, it
      is no longer registered, and no key other than `id` and the
      registry's changes. */
  lemma DeleteForgets(st: Store, id: string)
    ensures var st' := AfterDelete(st, id);
      && (id != RegistryKey ==> id !in st' && Load(st', id) == None)
      && (RegistryKey in st' ==> id !in st'[RegistryKey])
      && st' - {RegistryKey} == st - {RegistryKey, id}
  {
  }

  /** For any identifier but the registry key, the order of the registry
      write and the `remove` does not matter: `delete` is
      `removeIdentifier` followed by the removal of the key. */
  lemma DeleteOrdinary(st: Store, id: string)
    requires id != RegistryKey
    ensures AfterDelete(st, id) == AfterRemoveIdentifier(st, id) - {id}
  {
  }

  /** `delete` of the registry key itself: the `remove` runs before the
      registry is written back, so the key stays, holding the old registry
      without the key's own name, and `load` of it opens a window on that
      list. */
  lemma DeleteRegistryKey(st: Store)
    requires RegistryKey in st
    ensures var st' := AfterDelete(st, RegistryKey);
      var kept := Filtered(st[RegistryKey], Differs(RegistryKey));
      && RegistryKey in st'
      && st'[RegistryKey] == kept
      && Load(st', RegistryKey) == Some(WindowRequest(kept, true))
      && st' - {RegistryKey} == st - {RegistryKey}
  {
    var st' := AfterDelete(st, RegistryKey);
    assert st' == (st - {RegistryKey})[RegistryKey := Filtered(st[RegistryKey], Differs(RegistryKey))];
  }

  // ---------------------------------------------------------------------
  // save and load

  /** A refused identifier leaves the store unchanged. */
  lemma SaveRejected(st: Store, field: string, tabs: seq<Tab>)
    requires Input(field).Failure?
    ensures AfterSave(st, field, tabs) == st
  {
  }

  /** With no URL to keep (every tab incognito, or none open) nothing is
      written, the registry included. */
  lemma SaveNothing(st: Store, field: string, tabs: seq<Tab>)
    requires forall i :: 0 <= i < |tabs| ==> tabs[i].incognito
    ensures AfterSave(st, field, tabs) == st
  {
    UrlsEmpty(tabs);
  }

  /** A successful save stores the URLs of the non-incognito tabs under the
      identifier and registers it; no key other than the identifier and the
      registry changes. */
  lemma SaveStores(st: Store, field: string, tabs: seq<Tab>, id: string)
    requires Input(field) == Success(id) && id != RegistryKey && id != ProtoKey
    requires Urls(tabs) != []
    ensures var st' := AfterSave(st, field, tabs);
      && id in st' && st'[id] == Urls(tabs)
      && RegistryKey in st' && id in st'[RegistryKey]
      && st' - {id, RegistryKey} == st - {id, RegistryKey}
  {
    StoreIdentifierAdds(AfterStoreUrls(st, id, Urls(tabs)), id);
  }

  /** Save, then load: the window is asked for exactly the URLs of the
      non-incognito tabs at the time of the save, in tab order. */
  lemma SaveThenLoad(st: Store, field: string, tabs: seq<Tab>, id: string)
    requires Input(field) == Success(id) && id != RegistryKey && id != ProtoKey
    requires Urls(tabs) != []
    ensures Load(AfterSave(st, field, tabs), id) == Some(WindowRequest(Urls(tabs), true))
  {
    SaveStores(st, field, tabs, id);
  }

  /** Save, then delete: the identifier is neither stored nor registered,
      `load` does nothing, and every other user key is as before the save. */
  lemma SaveThenDelete(st: Store, field: string, tabs: seq<Tab>, id: string)
    requires Input(field) == Success(id) && id != RegistryKey
    requires Urls(tabs) != []
    ensures var st' := AfterDelete(AfterSave(st, field, tabs), id);
      && id !in st'
      && Load(st', id) == None
      && RegistryKey in st' && id !in st'[RegistryKey]
      && st' - {RegistryKey} == st - {RegistryKey, id}
  {
    var saved := AfterSave(st, field, tabs);
    var st' := AfterDelete(saved, id);
    assert st' - {RegistryKey} == st' - {RegistryKey, id};
  }

  /** Saving twice under one identifier registers it once, and the second
      save's URLs replace the first's. */
  lemma SaveTwice(st: Store, field1: string, tabs1: seq<Tab>, field2: string, tabs2: seq<Tab>, id: string)
    requires RegistryKey in st ==> NoDuplicates(st[RegistryKey])
    requires Input(field1) == Success(id) && Input(field2) == Success(id)
    requires id != RegistryKey && id != ProtoKey
    requires Urls(tabs1) != [] && Urls(tabs2) != []
    ensures var st' := AfterSave(AfterSave(st, field1, tabs1), field2, tabs2);
      && st'[id] == Urls(tabs2)
      && multiset(st'[RegistryKey])[id] == 1
  {
    var st1 := AfterSave(st, field1, tabs1);
    var st2 := AfterSave(st1, field2, tabs2);
    SavePreservesNoDuplicates(st, field1, tabs1);
    SavePreservesNoDuplicates(st1, field2, tabs2);
    SaveStores(st1, field2, tabs2, id);
    OccursOnce(st2[RegistryKey], id);
  }

  /** An element of a duplicate-free sequence occurs in it once. */
  lemma {:induction false} OccursOnce(s: seq<string>, x: string)
    requires NoDuplicates(s) && x in s
    ensures multiset(s)[x] == 1
  {
    assert s == [s[0]] + s[1..];
    if s[0] == x {
      assert x !in s[1..];
    } else {
      assert NoDuplicates(s[1..]);
      OccursOnce(s[1..], x);
    }
  }

  /** A save under any identifier but the registry key keeps the registry
      duplicate-free. */
  lemma SavePreservesNoDuplicates(st: Store, field: string, tabs: seq<Tab>)
    requires RegistryKey in st ==> NoDuplicates(st[RegistryKey])
    requires Input(field) != Success(RegistryKey)
    ensures var st' := AfterSave(st, field, tabs);
      RegistryKey in st' ==> NoDuplicates(st'[RegistryKey])
  {
    if Input(field).Success? && Urls(tabs) != [] {
      StoreIdentifierNoDuplicates(AfterStoreUrls(st, Input(field).value, Urls(tabs)), Input(field).value);
    }
  }

  /** A save under any identifier but the registry key and `ProtoKey` keeps
      the store consistent. */
  lemma SavePreservesConsistent(st: Store, field: string, tabs: seq<Tab>)
    requires Consistent(st)
    requires Input(field) != Success(RegistryKey) && Input(field) != Success(ProtoKey)
    ensures Consistent(AfterSave(st, field, tabs))
  {
    if Input(field).Success? && Urls(tabs) != [] {
      var id := Input(field).value;
      var urls := Urls(tabs);
      var st1 := AfterStoreUrls(st, id, urls);
      var st' := AfterStoreIdentifier(st1, id);
      SavePreservesNoDuplicates(st, field, tabs);
      StoreIdentifierAdds(st1, id);
      var ids' := st'[RegistryKey];
      forall i | 0 <= i < |ids'| ensures ids'[i] in st' && st'[ids'[i]] != [] {
        var x := ids'[i];
        if x != id && x != RegistryKey {
          assert x in st[RegistryKey];
          var j :| 0 <= j < |st[RegistryKey]| && st[RegistryKey][j] == x;
          assert st'[x] == st[x];
        } else if x == RegistryKey {
          assert id in ids';
        }
      }
    }
  }

  /** `delete` keeps the store consistent, whatever the identifier. */
  lemma DeletePreservesConsistent(st: Store, id: string)
    requires Consistent(st)
    ensures Consistent(AfterDelete(st, id))
  {
    if RegistryKey in st {
      var st' := AfterDelete(st, id);
      var ids := st[RegistryKey];
      var ids' := st'[RegistryKey];
      assert ids' == Filtered(ids, Differs(id));
      FilteredNoDuplicates(ids, Differs(id));
      forall i | 0 <= i < |ids'| ensures ids'[i] in st' && st'[ids'[i]] != [] {
        var x := ids'[i];
        assert x != id && x in ids;
        var j :| 0 <= j < |ids| && ids[j] == x;
        if x == RegistryKey {
          assert st'[x] == ids';
        } else {
          assert st'[x] == st[x];
        }
      }
    }
  }

  /** The scenario of three tabs, the middle one incognito, saved as "work":
      the collection holds the first and the last URL, "work" is registered,
      and loading opens a focused window on those two URLs in that order. */
  lemma SaveExample(st: Store)
    ensures var tabs := [Tab("https://a.example", false), Tab("https://b.example", true),
                         Tab("https://c.example", false)];
      var st' := AfterSave(st, "work", tabs);
      && "work" in st' && st'["work"] == ["https://a.example", "https://c.example"]
      && "work" in st'[RegistryKey]
      && Load(st', "work") == Some(WindowRequest(["https://a.example", "https://c.example"], true))
  {
    var tabs := [Tab("https://a.example", false), Tab("https://b.example", true),
                 Tab("https://c.example", false)];
    InputAccepts("work");
    UrlsExample();
    SaveThenLoad(st, "work", tabs, "work");
    SaveStores(st, "work", tabs, "work");
  }

  /** The registry key is itself an identifier `input` accepts. */
  lemma RegistryKeyAccepted()
    ensures Input(RegistryKey) == Success(RegistryKey)
  {
    InputAccepts(RegistryKey);
  }

  /** Saving under the registry key writes the URL list over the registry,
      and registering then appends the key to that list unless one of the
      URLs already equals it: the saved URLs become registered identifiers.
      The source does not guard against this. */
  lemma SaveUnderRegistryKey(st: Store, tabs: seq<Tab>)
    requires Urls(tabs) != []
    ensures Input(RegistryKey) == Success(RegistryKey)
    ensures AfterSave(st, RegistryKey, tabs)[RegistryKey]
         == if RegistryKey in Urls(tabs) then Urls(tabs) else Urls(tabs) + [RegistryKey]
  {
    RegistryKeyAccepted();
    SaveSteps(st, RegistryKey, tabs, RegistryKey);
  }

  /** `input` accepts `ProtoKey` as an identifier. */
  lemma ProtoKeyAccepted()
    ensures Input(ProtoKey) == Success(ProtoKey)
  {
    InputAccepts(ProtoKey);
  }

  /** A save that has an identifier and URLs to keep is the two store
      steps, in order. */
  lemma SaveSteps(st: Store, field: string, tabs: seq<Tab>, id: string)
    requires Input(field) == Success(id) && Urls(tabs) != []
    ensures AfterSave(st, field, tabs) == AfterStoreIdentifier(AfterStoreUrls(st, id, Urls(tabs)), id)
  {
  }

  /** A save under `ProtoKey` that has URLs to keep only registers it. */
  lemma ProtoSaveRegisters(st: Store, tabs: seq<Tab>)
    requires Urls(tabs) != []
    ensures AfterSave(st, ProtoKey, tabs) == AfterStoreIdentifier(st, ProtoKey)
  {
    ProtoKeyAccepted();
    SaveSteps(st, ProtoKey, tabs, ProtoKey);
  }

  /** A registered identifier with no stored list breaks consistency. */
  lemma NotStoredInconsistent(st: Store, id: string)
    requires RegistryKey in st && id in st[RegistryKey] && id !in st
    ensures !Consistent(st)
  {
    var i :| 0 <= i < |st[RegistryKey]| && st[RegistryKey][i] == id;
  }

  /** Saving under `ProtoKey` registers it but stores no URL list: no key
      but the registry's changes, `load` of it finds what it found before,
      and a store that had no such key is no longer consistent. */
  lemma SaveUnderProtoKey(st: Store, tabs: seq<Tab>)
    requires Urls(tabs) != []
    ensures Input(ProtoKey) == Success(ProtoKey)
    ensures var st' := AfterSave(st, ProtoKey, tabs);
      && RegistryKey in st' && ProtoKey in st'[RegistryKey]
      && st' - {RegistryKey} == st - {RegistryKey}
      && Load(st', ProtoKey) == Load(st, ProtoKey)
      && (ProtoKey !in st ==> !Consistent(st'))
  {
    ProtoKeyAccepted();
    ProtoSaveRegisters(st, tabs);
    var st' := AfterStoreIdentifier(st, ProtoKey);
    if ProtoKey !in st {
      NotStoredInconsistent(st', ProtoKey);
    }
  }
}
