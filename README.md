# TabSaver bookkeeping, in Dafny

TabSaver is a Chrome extension. It saves the URLs of the open tabs under a
name the user types, lists the saved names, reopens a saved set in a new
window and deletes saved sets. This project models the bookkeeping behind
these actions in js/tabsaver.js and proves properties of that model:

- the three helpers the file adds to `Array.prototype`: `exists`, `upush`
  and `filter` (module `ArrayExt`);
- `Saver.input`, which reads the identifier field, trims it and checks it
  (module `Saver`);
- `Saver.urls`, which keeps the URLs of the tabs that are not incognito
  (module `Saver`);
- what `storeUrls`, `storeIdentifier`, `save`, `removeIdentifier`, `delete`
  and `load` do to the synchronized storage area (module `Storage`).

`chrome.storage.sync` is one map from string keys to string arrays. It holds
each saved URL list under its identifier, and the list of identifiers (the
registry) under the key `"tabsaver.identifiers"`. User identifiers and the
registry key share that map, as they do in the extension. So the model saves
under the name `"tabsaver.identifiers"` exactly as the code does, with no guard.
`Storage.SaveUnderRegistryKey` shows the result: the URL list overwrites the
registry, and the key is then appended to it, unless one of the URLs is the
key itself.

One more identifier behaves differently: `"__proto__"` (`Storage.ProtoKey`).
`storeUrls` builds its object with `obj[id] = urls`. In JavaScript, assigning
`obj["__proto__"]` calls the `__proto__` setter of `Object.prototype`
(Annex B of ECMAScript). The setter replaces the object's prototype and adds
no key, so the `set` writes nothing. `storeIdentifier` still registers the
name. `Storage.SaveUnderProtoKey` shows the result: the name is registered,
nothing is stored under it, and `load` finds no more than before.

Each storage callback is modelled as one atomic step. `Storage` gives each
step as a function from the store before to the store after. Module
`TabSaver` has a class `SyncStorage` whose `items` field is the store. Its
methods follow the code step by step: `storeIdentifier` runs `upush` on the
fetched array and writes it back; `removeIdentifier` runs `filter`.
The model assumes that storage calls run in the order they are issued (see
"## Left out"), so in `delete` the `remove` of the key runs between
`removeIdentifier`'s read of the registry and its write-back. Each method is
proved equal to its `Storage` function. The lemmas in `Storage` state what
the extension promises:

- for an identifier other than the registry key and `"__proto__"`, a save
  followed by a load gives back the URLs of the non-incognito tabs, in order;
- after a delete the identifier is no longer registered and, unless it is
  the registry key, no longer stored (`delete` of the registry key leaves
  the key in place; `Storage.DeleteRegistryKey` shows why);
- for a save under an identifier other than the registry key, a registry
  free of duplicates stays free of them;
- for a save under an identifier other than those two, a consistent store
  stays consistent: every registered identifier keeps a non-empty saved list;
- no other key changes.

`Saver.input` is a function of the field's text, with an error result in
place of the red banner. JavaScript's `\s` is the ECMAScript set of
whitespace and line terminators (`Saver.IsSpace`). JavaScript's `length`
counts UTF-16 code units, so a character outside the Basic Multilingual Plane
counts as two (`Saver.Utf16Length`). The trim `replace(/^\s+|\s+$/g, '')` is
`Saver.Strip`, stated for any character predicate and used with `IsSpace`.

The code checks the length before it checks for emptiness, and the model
does the same. The two conditions cannot both hold, so the order only
affects which check is written first.

## Model

| member | source | states |
|---|---|---|
| `ArrayExt.JsArray.Exists` | js/tabsaver.js:10-15 | returns true exactly when some element of the array satisfies the predicate |
| `ArrayExt.JsArray.Upush` | js/tabsaver.js:19-23 | appends the element at the end when no element satisfies the predicate, and otherwise leaves the array unchanged; the old contents stay a prefix either way |
| `ArrayExt.JsArray.Filter` | js/tabsaver.js:26-33 | returns `Filtered` of the contents: the elements that satisfy the predicate, in order; the receiver is not modified |
| `ArrayExt.Filtered` | js/tabsaver.js:26-33 | the result is no longer than the input, holds only elements of the input that satisfy the predicate, and holds every element of the input that does |
| `ArrayExt.FilteredAppend` | js/tabsaver.js:26-33 | filtering a concatenation gives the concatenation of the filtered parts, so the kept elements keep their order |
| `ArrayExt.FilteredPosition` | js/tabsaver.js:26-33 | a kept element appears in the result at the position given by the number of kept elements before it |
| `ArrayExt.FilteredKeepsOrder` | js/tabsaver.js:26-33 | of two kept elements, the earlier one in the input comes earlier in the result |
| `ArrayExt.FilteredAll` | js/tabsaver.js:26-33 | when every element satisfies the predicate, the result is the input |
| `ArrayExt.FilteredNoDuplicates` | js/tabsaver.js:26-33 | filtering a duplicate-free sequence gives a duplicate-free sequence |
| `Saver.IsSpace` | js/tabsaver.js:81 | the characters `\s` matches: ECMAScript's whitespace and line terminators; each is a single UTF-16 code unit |
| `Saver.LeadingRun` | js/tabsaver.js:81 | the leading run that `^\s+` matches: every character in it satisfies the predicate, and the character after it does not |
| `Saver.TrailingRun` | js/tabsaver.js:81 | the trailing run that `\s+$` matches: every character in it satisfies the predicate, and the character before it does not |
| `Saver.Strip` | js/tabsaver.js:81 | the trimmed text is empty exactly when the whole text is whitespace; otherwise it starts and ends with a non-space |
| `Saver.StripRemoves` | js/tabsaver.js:81 | what the trim removes before and after the kept part is whitespace |
| `Saver.LeadingRunOf` | js/tabsaver.js:81 | whitespace followed by a non-space: the leading run is exactly that whitespace |
| `Saver.TrailingRunOf` | js/tabsaver.js:81 | a non-space followed by whitespace: the trailing run is exactly that whitespace |
| `Saver.StripPadded` | js/tabsaver.js:81 | trimming whitespace + text + whitespace, where the text has non-space ends, gives back the text |
| `Saver.StripIdempotent` | js/tabsaver.js:81 | trimming twice is the same as trimming once |
| `Saver.Trim` | js/tabsaver.js:81 | the trimmed field is empty exactly when the field is all whitespace; otherwise it starts and ends with a non-space |
| `Saver.TrimKeeps` | js/tabsaver.js:81 | text with non-space ends is its own trim |
| `Saver.TrimExample` | js/tabsaver.js:81 | `"  work\t"` trims to `"work"` |
| `Saver.Utf16Length` | js/tabsaver.js:83 | JavaScript's `length` lies between the number of characters and twice that |
| `Saver.Utf16LengthChar` | js/tabsaver.js:83 | a character counts as two code units when it is astral and as one otherwise |
| `Saver.Utf16LengthAppend` | js/tabsaver.js:83 | the length of a concatenation is the sum of the lengths |
| `Saver.Utf16LengthBmp` | js/tabsaver.js:83 | for text in the Basic Multilingual Plane, `length` is the number of characters |
| `Saver.Input` | js/tabsaver.js:79-93 | the "too long" error exactly when the trimmed text is over 63 code units; the "empty" error exactly when the field is all whitespace; otherwise the trimmed text, which has length 1..63 and non-space ends |
| `Saver.Message` | js/tabsaver.js:84-86 | the banner texts: "Identifier must have length < 64." for a name that is too long, "Identifier field is empty." for an empty field |
| `Saver.InputRejectsBlank` | js/tabsaver.js:85-86 | an empty field and a field of blanks are refused as empty |
| `Saver.InputTrimsExample` | js/tabsaver.js:79-90 | the field `"  work\t"` yields the identifier `"work"` |
| `Saver.InputAccepts` | js/tabsaver.js:79-90 | a name with non-space ends and at most 63 UTF-16 code units long is accepted as it is |
| `Saver.MapUrl` | js/tabsaver.js:98 | the `map` step gives one URL per tab |
| `Saver.MapUrlAppend` | js/tabsaver.js:98 | the `map` step distributes over concatenation |
| `Saver.MapUrlAt` | js/tabsaver.js:98 | the URL at position `i` is the URL of the tab at position `i` |
| `Saver.Urls` | js/tabsaver.js:96-99 | there are no more URLs than tabs, and every non-incognito tab's URL is among them |
| `Saver.UrlsCons` | js/tabsaver.js:96-99 | an incognito tab adds nothing; any other tab adds its URL before the URLs of the later tabs |
| `Saver.UrlsAppend` | js/tabsaver.js:96-99 | the URLs of two runs of tabs are the URLs of the first run followed by those of the second |
| `Saver.UrlsMembership` | js/tabsaver.js:96-99 | a URL is in the result exactly when some non-incognito tab has it |
| `Saver.UrlsEmpty` | js/tabsaver.js:96-99 | the result is empty exactly when every tab is incognito |
| `Saver.UrlsExample` | js/tabsaver.js:96-99 | of three tabs with the middle one incognito, the first and last URLs are kept, in that order |
| `Storage.AfterStoreUrls` | js/tabsaver.js:103-107 | the URL list is stored under `id`, except that nothing changes for `"__proto__"`; no other key changes |
| `Storage.AfterStoreIdentifier` | js/tabsaver.js:111-123 | the registry exists afterwards and holds `id`; no other key changes |
| `Storage.AfterRemoveIdentifier` | js/tabsaver.js:149-156 | the registry exists afterwards exactly when it did before, and then does not hold `id`; no other key changes |
| `Storage.AfterDelete` | js/tabsaver.js:149-165 | `id` is not registered afterwards and, unless it is the registry key, is no key; the registry exists afterwards exactly when it did before; only `id` and the registry key change |
| `Storage.AfterSave` | js/tabsaver.js:127-138 | a refused identifier or an empty URL list leaves the store unchanged; otherwise the identifier is registered and only it and the registry key change |
| `Storage.Load` | js/tabsaver.js:239-247 | no window exactly when the key is absent; otherwise a focused window on the stored list |
| `Storage.StoreIdentifierAdds` | js/tabsaver.js:111-123 | the registry becomes `[id]` when absent; otherwise `id` is appended only when missing, with the old registry kept as a prefix; afterwards the registry holds `id` |
| `Storage.StoreIdentifierNoDuplicates` | js/tabsaver.js:111-123 | a duplicate-free registry stays duplicate-free |
| `Storage.StoreIdentifierIdempotent` | js/tabsaver.js:111-123 | registering twice has the effect of registering once |
| `Storage.RemoveIdentifierAbsent` | js/tabsaver.js:149-156 | with no registry, the store is unchanged |
| `Storage.RemoveIdentifierRemoves` | js/tabsaver.js:149-156 | every occurrence of `id` leaves the registry, every other entry stays, and no other key changes |
| `Storage.RemoveIdentifierKeepsOrder` | js/tabsaver.js:149-156 | the remaining entries keep their relative order |
| `Storage.RemoveIdentifierNotRegistered` | js/tabsaver.js:149-156 | removing an identifier that is not registered changes nothing |
| `Storage.RemoveIdentifierNoDuplicates` | js/tabsaver.js:149-156 | a duplicate-free registry stays duplicate-free |
| `Storage.DeleteForgets` | js/tabsaver.js:159-165 | after `delete(id)`, `id` is not registered; unless `id` is the registry key, it is not a key either and `load(id)` does nothing; only `id` and the registry key change |
| `Storage.DeleteOrdinary` | js/tabsaver.js:149-165 | for an identifier other than the registry key, the order of the registry write and the `remove` does not matter: `delete` is `removeIdentifier` followed by removing the key |
| `Storage.DeleteRegistryKey` | js/tabsaver.js:149-165 | `delete` of the registry key leaves the key holding the old registry without its own name, and `load` of it opens a window on that list; no other key changes |
| `Storage.DeletePreservesConsistent` | js/tabsaver.js:159-165 | `delete` keeps the registry duplicate-free, with every registered identifier holding a non-empty saved list |
| `Storage.SaveRejected` | js/tabsaver.js:127-138 | an identifier that `input` refuses leaves the store unchanged |
| `Storage.SaveNothing` | js/tabsaver.js:127-138 | when every tab is incognito, or there are no tabs, the store is unchanged |
| `Storage.SaveStores` | js/tabsaver.js:127-138 | for an identifier other than the registry key and `"__proto__"`, a successful save stores the non-incognito URLs under the identifier and registers it; no other key changes |
| `Storage.SaveThenLoad` | js/tabsaver.js:239-247 | for an identifier other than the registry key and `"__proto__"`, `load` after a save opens a focused window on exactly the saved URLs |
| `Storage.SaveThenDelete` | js/tabsaver.js:159-165 | for an identifier other than the registry key, save then delete leaves the identifier neither stored nor registered, `load` does nothing, and every other user key is as before the save |
| `Storage.SaveTwice` | js/tabsaver.js:111-123 | for an identifier other than the registry key and `"__proto__"`, saving twice from a duplicate-free registry leaves it listed once, and the second URL list replaces the first |
| `Storage.SavePreservesNoDuplicates` | js/tabsaver.js:111-123 | a save under any identifier except the registry key keeps the registry duplicate-free |
| `Storage.SavePreservesConsistent` | js/tabsaver.js:127-138 | a save under any identifier except the registry key and `"__proto__"` keeps every registered identifier stored with a non-empty list |
| `Storage.SaveExample` | js/tabsaver.js:127-138 | saving three tabs (the middle one incognito) as `"work"` stores and registers the first and last URLs, and loading opens them |
| `Storage.RegistryKeyAccepted` | js/tabsaver.js:79-93 | `input` accepts the registry key itself as an identifier |
| `Storage.SaveUnderRegistryKey` | js/tabsaver.js:103-123 | saving under the registry key turns the registry into the URL list followed by the key, or into the URL list alone when one of the URLs equals the key |
| `Storage.ProtoKeyAccepted` | js/tabsaver.js:79-93 | `input` accepts `"__proto__"` as an identifier |
| `Storage.ProtoSaveRegisters` | js/tabsaver.js:103-123 | a save under `"__proto__"` that has URLs only registers the name |
| `Storage.NotStoredInconsistent` | js/tabsaver.js:111-123 | a registered identifier with no stored list makes the store inconsistent |
| `Storage.SaveUnderProtoKey` | js/tabsaver.js:103-123 | saving under `"__proto__"` registers it, changes no other key, leaves what `load` finds unchanged, and breaks consistency when the key was absent |
| `TabSaver.SyncStorage.StoreUrls` | js/tabsaver.js:103-107 | writes the URL list under `id` and changes no other key; for `"__proto__"` it writes nothing |
| `TabSaver.SyncStorage.StoreIdentifier` | js/tabsaver.js:111-123 | `upush` on the fetched registry gives the store `AfterStoreIdentifier`; the registry then holds `id` and stays duplicate-free |
| `TabSaver.SyncStorage.Save` | js/tabsaver.js:127-138 | the store becomes `AfterSave`; the outcome is the input error, nothing saved, or saved; a saved identifier other than the registry key and `"__proto__"` then loads to its URLs; `"__proto__"` is only registered; consistency is kept except under those two identifiers |
| `TabSaver.SyncStorage.FetchRegistry` | js/tabsaver.js:150-152 | the `get` gives the registry exactly when there is one |
| `TabSaver.SyncStorage.WriteBackRegistry` | js/tabsaver.js:151-154 | with a fetched registry, the new store is the current one with the registry replaced by what `filter` keeps of the fetched list; without one, nothing changes |
| `TabSaver.SyncStorage.RemoveIdentifier` | js/tabsaver.js:149-156 | fetching and then writing back gives the store `AfterRemoveIdentifier`; `id` is then not registered |
| `TabSaver.SyncStorage.Delete` | js/tabsaver.js:159-165 | the `get`, the `remove` and then the write-back give the store `AfterDelete`; `id` is then not registered and, unless it is the registry key, neither a key nor loadable; `delete` of the registry key leaves it loadable with the filtered list; consistency is kept |

## Left out

- DOM work is not modelled, because it is view wiring with no state of its own. This covers `Document.onClick` and `Document.clear` (js/tabsaver.js:45-55), `UI.element` and `UI.show` (181-224), `TabSaver.init` and `window.onload` (263-277).
- `Saver.result` (69-75) is left out. Its banner and timer become the error value of `Saver.Input` and the outcome of `Save`; `Saver.Message` gives the banner texts.
- `UI.onChanged` (205-211) is left out: it only filters on the namespace and the registry key before re-rendering.
- Clearing the identifier field after a successful `input` (line 88) is left out: it is a write to the page, not to the store.
- Chrome APIs are parameters or results:
  - the tabs that `chrome.tabs.getAllInWindow` reports (the current window's tabs) are the `tabs` argument, reduced to URL and incognito flag;
  - `chrome.windows.create` is the `WindowRequest` that `Load` returns;
  - `chrome.storage.sync` is the `items` map.
- Storage errors, quotas and sync between devices are not modelled.
- Strings are sequences of Unicode scalar values. A DOMString may hold a lone surrogate, which `length` counts as one code unit; the model cannot represent it.
- Storage.Load: when the key is absent but names a property of `Object.prototype` (such as `"constructor"` or `"__proto__"`), the extension reads that property instead of `undefined`. It passes it to `chrome.windows.create`, which refuses it. The model returns `None`; either way no window opens.
- The order of storage calls is an assumption about `chrome.storage.sync`, not something js/tabsaver.js establishes: the model runs the calls in the order they are issued and each callback after the calls issued before it. `Storage.AfterDelete` and `Storage.DeleteRegistryKey` rely on it when `id` is the registry key: the `get`, then `remove(id)`, then the `set` from the callback at lines 150-154. Under another order, `delete` of the registry key could remove the key instead.
- Concurrency is not modelled. Each storage callback is one atomic step, so the lost update is not captured: two overlapping `storeIdentifier` or `removeIdentifier` calls both read the registry before either writes it.
- Storage.SavePreservesConsistent: holds only for identifiers other than the registry key and `"__proto__"`. A save under either breaks the invariant in the extension itself, as `Storage.SaveUnderRegistryKey` and `Storage.SaveUnderProtoKey` show.
