# Saved-contracts store

A model of the one piece of logic in the SafeVault dashboard: the list of saved
contract references `{name, address, network}` that the browser keeps under the
localStorage key `"saved_contracts"`. The repository writes this store twice:

- `useSavedContracts` (src/lib/useSavedContracts.ts) is the factored hook. It
  starts with an empty list and reads the slot once on mount. `saveContracts`
  replaces the list and rewrites the whole slot. `addContract` appends one record
  and `removeContract` drops every record whose address matches exactly. The
  component `SavedContractsTable` (src/components/SavedContractsTable.tsx) puts
  a form in front of the hook and a Remove button on each row.
- `Dashboard` (src/pages/index.tsx) keeps its own copy of the same list. It has
  a load effect on mount and a save effect that rewrites the slot whenever the
  list changes. Its `handleSubmit` and `handleRemove` build the new lists in the
  same way. It shows a placeholder instead of the table when the list is empty.

The Dafny project has these files:

- `wrappers.dfy` holds `Option`.
- `contracts.dfy` (module `Contracts`) holds the value layer both copies share:
  - the record and the key constant;
  - the slot value `Stored`, which is either the empty string or a serialized list;
  - the load test `Loaded`;
  - the new-list functions `Appended` and `WithoutAddress`, with the lemmas about them;
  - the submit gate `Accepts`.
- `storage.dfy` (module `Storage`) holds `LocalStorage`, a class over a
  string-keyed map. It is passed to each store instead of being a global.
- `use_saved_contracts.dfy` (module `UseSavedContracts`) holds the class
  `ContractStore`, which is the hook.
- `saved_contracts_table.dfy` (module `Components`) holds the class
  `SavedContractsTable`.
- `dashboard.dfy` (module `Pages`) holds the class `Dashboard`.

Each method of `SavedContractsTable` is one completed UI event, including the
effects it triggers. So is each method of `Dashboard` other than `LoadEffect`
and `SaveEffect`, which are its two effects on their own. The `ContractStore`
and `LocalStorage` methods are the operations those events call. `Reopen` and
`VaultRouterScenario` are sequences of events. Every method that writes storage
states the new storage map in full, as `old(items)[StorageKey := Serialize(list)]`.
So every write goes to the single key `"saved_contracts"`, and no other slot
changes.

The model follows the code on these points:

- `network` is a plain string (src/lib/useSavedContracts.ts:6), not a closed
  enumeration. The three choices are only the options of the select control.
- The load test is JavaScript truthiness. An absent slot and a slot holding the
  empty string both leave the list as it is.
- The two copies differ on mount. `Dashboard` writes the slot right after
  loading, so the slot mirrors the list from mount onwards. The hook writes
  nothing on mount, so the slot mirrors the list only after the first add or
  remove, or after loading a stored list.
- Only `Dashboard` has the empty-list placeholder. The component always renders
  the table.

## Model

| member | source | states |
|---|---|---|
| Contracts.Loaded | src/lib/useSavedContracts.ts:15-18 | nothing is loaded exactly when the slot is absent or holds the empty string; otherwise the loaded list is the one the slot holds |
| Contracts.LoadAfterSave | src/lib/useSavedContracts.ts:15-23 | a list written to the slot loads back unchanged, the empty list included, since a serialized list is never the empty string |
| Contracts.Appended | src/lib/useSavedContracts.ts:26-28 | the new list is one longer, the added record is last, and the earlier records are unchanged and in order |
| Contracts.AddAllInOrder | src/pages/index.tsx:35 | adding r1, …, rn one after another yields the old list followed by r1, …, rn in that order |
| Contracts.WithoutAddress | src/lib/useSavedContracts.ts:30-32 | the filtered list is no longer than the original, and no remaining record has the removed address |
| Contracts.WithoutAddressCounts | src/lib/useSavedContracts.ts:31 | each record with another address keeps its exact number of occurrences; records with the address have none left |
| Contracts.WithoutAddressMembers | src/lib/useSavedContracts.ts:31 | a record remains if and only if it was present and its address differs (exact comparison) |
| Contracts.WithoutAddressKeepsOrder | src/lib/useSavedContracts.ts:31 | the remaining records are a subsequence of the original, so their relative order is kept |
| Contracts.WithoutAddressLength | src/lib/useSavedContracts.ts:31 | the new length is the old length minus the number of records with that address |
| Contracts.WithoutAbsentAddress | src/lib/useSavedContracts.ts:30-32 | removing an address that no record has returns the same list |
| Contracts.WithoutAddressIdempotent | src/lib/useSavedContracts.ts:30-32 | removing the same address twice gives the same list as removing it once |
| Contracts.WithoutAddressConcat | src/lib/useSavedContracts.ts:31 | removal distributes over concatenation, so it decides record by record |
| Contracts.WithoutAddressAfterAppend | src/lib/useSavedContracts.ts:26-32 | adding a record and then removing its address gives the same list as removing that address without the add |
| Contracts.WithoutAddressCommutes | src/lib/useSavedContracts.ts:30-32 | removing two addresses gives the same list in either order |
| Contracts.RemoveRowShrinks | src/components/SavedContractsTable.tsx:79-80 | removing by a row's own address drops that row's record and makes the list strictly shorter |
| Contracts.Accepts | src/pages/index.tsx:34 | submit proceeds exactly when the name and the address are both non-empty strings, with nothing trimmed; the reset form never passes |
| Storage.LocalStorage.GetItem | src/lib/useSavedContracts.ts:15 | `localStorage.getItem`: the slot's value when the key is present, nothing otherwise |
| Storage.LocalStorage.SetItem | src/lib/useSavedContracts.ts:23 | `localStorage.setItem`: that one key gets the new value and every other slot stays as it was |
| Contracts.WhitespaceAccepted | src/pages/index.tsx:34 | the gate checks the raw strings, so a whitespace-only name and address pass; an empty name or an empty address fails |
| UseSavedContracts.ContractStore.constructor | src/lib/useSavedContracts.ts:12 | the list starts empty before anything is loaded |
| UseSavedContracts.ContractStore.Load | src/lib/useSavedContracts.ts:14-19 | the list becomes the stored list when the slot holds one and is otherwise unchanged; after loading a stored list, the slot mirrors the list |
| UseSavedContracts.ContractStore.SaveContracts | src/lib/useSavedContracts.ts:21-24 | the list becomes the new list, and only the "saved_contracts" slot is overwritten, with that same list |
| UseSavedContracts.ContractStore.AddContract | src/lib/useSavedContracts.ts:26-28 | the list becomes old + [record], the slot is rewritten with the new list, and the slot mirrors the list |
| UseSavedContracts.ContractStore.RemoveContract | src/lib/useSavedContracts.ts:30-32 | the list becomes the filtered list, the slot is rewritten and mirrors it; with the address absent and the slot already mirroring, neither the list nor the storage changes |
| UseSavedContracts.Reopen | src/lib/useSavedContracts.ts:14-24 | a new store loaded from the storage that a mirrored store left behind holds the same list |
| UseSavedContracts.VaultRouterScenario | src/lib/useSavedContracts.ts:26-32 | from empty storage, add Vault/0xABC, add Router/0xDEF, remove 0xABC: only Router remains, in memory and in the slot |
| Components.SavedContractsTable.constructor | src/components/SavedContractsTable.tsx:5-10 | the component opens a fresh store with an empty list, and the form starts as name "", address "", network "ethereum" |
| Components.SavedContractsTable.Mount | src/components/SavedContractsTable.tsx:5 | the store loads the slot, under the same rule as ContractStore.Load; the form is untouched |
| Components.SavedContractsTable.EditName | src/components/SavedContractsTable.tsx:29 | only the form's name changes |
| Components.SavedContractsTable.EditAddress | src/components/SavedContractsTable.tsx:36 | only the form's address changes |
| Components.SavedContractsTable.EditNetwork | src/components/SavedContractsTable.tsx:41 | only the form's network changes |
| Components.SavedContractsTable.HandleSubmit | src/components/SavedContractsTable.tsx:12-17 | an empty name or address leaves the list, the form and the storage unchanged; otherwise the current form is appended once at the end, the slot is rewritten, and the form resets to "", "", "ethereum"; a mirrored slot stays mirrored |
| Components.SavedContractsTable.ClickRemove | src/components/SavedContractsTable.tsx:79-80 | the row's Remove button removes by that row's own address; that record is gone, the list is shorter, only the "saved_contracts" slot is rewritten, and it mirrors the list |
| Pages.Dashboard.constructor | src/pages/index.tsx:12-17 | before any effect, the list is empty and the form is "", "", "ethereum" |
| Pages.Dashboard.LoadEffect | src/pages/index.tsx:20-25 | the list becomes the stored list when the slot holds one and is otherwise unchanged, so an absent or empty slot leaves it empty |
| Pages.Dashboard.SaveEffect | src/pages/index.tsx:28-30 | only the "saved_contracts" slot is overwritten, with the current list, so it mirrors the list |
| Pages.Dashboard.Mount | src/pages/index.tsx:19-30 | after mount the list is the loaded list (or still empty), the slot holds that same list, and the form is untouched |
| Pages.Dashboard.EditName | src/pages/index.tsx:53 | only the form's name changes |
| Pages.Dashboard.EditAddress | src/pages/index.tsx:60 | only the form's address changes |
| Pages.Dashboard.EditNetwork | src/pages/index.tsx:65 | only the form's network changes |
| Pages.Dashboard.HandleSubmit | src/pages/index.tsx:32-37 | an empty name or address changes neither the list, the form nor the storage; otherwise the form is appended at the end, the form resets to "", "", "ethereum", and the save effect rewrites the slot; a mirrored slot stays mirrored |
| Pages.Dashboard.HandleRemove | src/pages/index.tsx:39-41 | the list keeps exactly the records whose address differs, the slot is rewritten and mirrors it; an absent address on a mirrored page changes nothing |
| Pages.Dashboard.ClickRemove | src/pages/index.tsx:110-111 | the row's Remove button removes by that row's own address; that record is gone, the list is shorter, the form is untouched, only the "saved_contracts" slot is rewritten, and it mirrors the list |
| Pages.Dashboard.SavedContractsView | src/pages/index.tsx:83-84 | the placeholder is shown exactly when the list is empty; otherwise the table lists the records in order |

## Left out

- JSON serialisation is taken to be an exact round trip: `Serialize` stores
  the list itself. A slot value other than the empty string or a JSON array of
  records is not modelled. Text that is not JSON makes `JSON.parse` throw on
  mount. Most other JSON values, such as `null` or `{}`, load without error and
  then fail at render, when `length` or `map` is used on them. Some do not fail
  there. On the page, the JSON string `""` and `{"length":0}` show the
  placeholder. The string is then spread into the list at the next submit. The
  object fails only at that submit. An array of non-records, such as `[1]`,
  loads and renders without error.
- Storage.LocalStorage.SetItem: writes always succeed. The real
  `localStorage.setItem` can throw, when the quota is full or storage is
  blocked, and `getItem` can throw when storage is blocked. After a failed
  write the source's list has changed but the slot has not. The component's
  form is also not reset. So the `Mirrored()` guarantee after every write
  depends on writes never failing.
- The Copy button (`navigator.clipboard.writeText`) is host I/O whose result is
  never observed, so it is not modelled.
- React rendering, markup and styling are not modelled. The one exception is the
  empty-list branch of `Dashboard`.
- React batching and stale closures are not modelled. For example, two
  `addContract` calls in one event would both read the same old list. Each
  method here runs one event to completion.
- Pages.Dashboard.Mount: the save effect first writes the initial `[]`, and only
  after the loaded list commits does it write that list. The model keeps the end
  state of mount, not this short-lived write.
- Last-writer-wins overwrites between browser tabs that share the key are not
  modelled. They need concurrency, which a sequential model does not have.
