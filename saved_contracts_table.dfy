/**
 The reusable component `SavedContractsTable`
 (src/components/SavedContractsTable.tsx): a form in its own state in front
 of a `useSavedContracts` store it opens itself, and one Remove button per row.
 */
module Components {

  import opened Contracts
  import opened Storage
  import opened UseSavedContracts

  class SavedContractsTable {
    /** The `form` state. */
    var form: SavedContract
    /** The store returned by `useSavedContracts()`. */
    const store: ContractStore

    /** The first render: a fresh store with an empty list, and an empty form on "ethereum". */
    constructor (storage: LocalStorage)
      ensures fresh(store) && store.storage == storage
      ensures store.contracts == []
      ensures form == EmptyForm
    {
      store := new ContractStore(storage);
      form := EmptyForm;
    }

    /** The store's mount effect: load the slot once. */
    method Mount()
      modifies store
      ensures store.contracts == match Loaded(store.storage.GetItem(StorageKey))
                                 case Some(records) => records
                                 case None => old(store.contracts)
      ensures form == old(form)
    {
      store.Load();
    }

    /** Typing in the name input replaces the name and nothing else. */
    method EditName(value: string)
      modifies this
      ensures form == old(form).(name := value)
    {
      form := form.(name := value);
    }

    /** Typing in the address input replaces the address and nothing else. */
    method EditAddress(value: string)
      modifies this
      ensures form == old(form).(address := value)
    {
      form := form.(address := value);
    }

    /** Choosing a network replaces the network and nothing else. */
    method EditNetwork(value: string)
      modifies this
      ensures form == old(form).(network := value)
    {
      form := form.(network := value);
    }

    /**
     `handleSubmit`: with an empty name or address, nothing happens at all;
     otherwise the current form is added to the store exactly once, at the
     end, the slot is rewritten, and the form is reset.
     */
    method HandleSubmit()
      modifies this, store, store.storage
      ensures Accepts(old(form)) ==> store.contracts == Appended(old(store.contracts), old(form))
      ensures Accepts(old(form)) ==> form == EmptyForm
      ensures Accepts(old(form)) ==>
                store.storage.items == old(store.storage.items)[StorageKey := Serialize(store.contracts)]
      ensures !Accepts(old(form)) ==>
                form == old(form) && store.contracts == old(store.contracts)
                && store.storage.items == old(store.storage.items)
      ensures old(store.Mirrored()) ==> store.Mirrored()
    {
      if !Accepts(form) {
        return;
      }
      store.AddContract(form);
      form := EmptyForm;
    }

    /** The Remove button on row `row` removes by that row's own address. */
    method ClickRemove(row: nat)
      requires row < |store.contracts|
      modifies store, store.storage
      ensures store.contracts == WithoutAddress(old(store.contracts), old(store.contracts)[row].address)
      ensures old(store.contracts)[row] !in store.contracts
      ensures |store.contracts| < |old(store.contracts)|
      ensures store.storage.items == old(store.storage.items)[StorageKey := Serialize(store.contracts)]
      ensures store.Mirrored()
      ensures form == old(form)
    {
      RemoveRowShrinks(store.contracts, row);
      store.RemoveContract(store.contracts[row].address);
    }
  }
}
