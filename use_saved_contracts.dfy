/**
 The factored store, `useSavedContracts` (src/lib/useSavedContracts.ts): the
 list held in component state, loaded once from the "saved_contracts" slot,
 and rewritten to that slot in full by every add and every remove.
 */
module UseSavedContracts {

  import opened Wrappers
  import opened Contracts
  import opened Storage

  class ContractStore {
    /** The `contracts` state. */
    var contracts: seq<SavedContract>
    /** The localStorage the hook reads and writes. */
    const storage: LocalStorage

    /** The persisted slot holds exactly the in-memory list. */
    ghost predicate Mirrored()
      reads this, storage
    {
      storage.GetItem(StorageKey) == Some(Serialize(contracts))
    }

    /** `useState<SavedContract[]>([])`: the list starts empty, and nothing is read yet. */
    constructor (storage: LocalStorage)
      ensures this.storage == storage
      ensures contracts == []
    {
      this.storage := storage;
      contracts := [];
    }

    /**
     The mount effect: read the slot once; if it holds a non-empty string,
     the list becomes what it holds, otherwise the list is left as it is.
     Nothing is written.
     */
    method Load()
      modifies this
      ensures contracts == match Loaded(storage.GetItem(StorageKey))
                           case Some(records) => records
                           case None => old(contracts)
      ensures Loaded(storage.GetItem(StorageKey)).Some? ==> Mirrored()
    {
      var stored := storage.GetItem(StorageKey);
      var parsed := Loaded(stored);
      if parsed.Some? {
        contracts := parsed.value;
      }
    }

    /** `saveContracts`: replace the state, then overwrite the one slot with the same list. */
    method SaveContracts(newContracts: seq<SavedContract>)
      modifies this, storage
      ensures contracts == newContracts
      ensures storage.items == old(storage.items)[StorageKey := Serialize(newContracts)]
      ensures Mirrored()
    {
      contracts := newContracts;
      storage.SetItem(StorageKey, Serialize(newContracts));
    }

    /** `addContract`: append the record at the end and persist. */
    method AddContract(contract: SavedContract)
      modifies this, storage
      ensures contracts == Appended(old(contracts), contract)
      ensures storage.items == old(storage.items)[StorageKey := Serialize(contracts)]
      ensures Mirrored()
    {
      SaveContracts(Appended(contracts, contract));
    }

    /**
     `removeContract`: keep the records whose address differs and persist.
     With no record of that address and the slot already mirroring the
     list, neither the list nor the storage changes.
     */
    method RemoveContract(address: string)
      modifies this, storage
      ensures contracts == WithoutAddress(old(contracts), address)
      ensures storage.items == old(storage.items)[StorageKey := Serialize(contracts)]
      ensures Mirrored()
      ensures old(Mirrored()) && (forall c | c in old(contracts) :: c.address != address)
              ==> contracts == old(contracts) && storage.items == old(storage.items)
    {
      if forall c | c in contracts :: c.address != address {
        WithoutAbsentAddress(contracts, address);
      }
      SaveContracts(WithoutAddress(contracts, address));
    }
  }

  /**
   A second store opened on the storage a mirrored store left behind loads
   the same list: what was saved round-trips through the slot.
   */
  method Reopen(store: ContractStore) returns (reopened: ContractStore)
    requires store.Mirrored()
    ensures reopened.storage == store.storage
    ensures reopened.contracts == store.contracts
  {
    reopened := new ContractStore(store.storage);
    reopened.Load();
  }

  /**
   From an empty storage: add Vault at 0xABC on ethereum, add Router at
   0xDEF on polygon, remove 0xABC; only Router remains, in memory and in
   the slot.
   */
  method VaultRouterScenario() returns (final: seq<SavedContract>, slot: Option<Stored>)
    ensures final == [SavedContract("Router", "0xDEF", "polygon")]
    ensures slot == Some(Json(final))
  {
    var storage := new LocalStorage(map[]);
    var store := new ContractStore(storage);
    store.Load();
    assert store.contracts == [];
    var vault := SavedContract("Vault", "0xABC", "ethereum");
    var router := SavedContract("Router", "0xDEF", "polygon");
    store.AddContract(vault);
    store.AddContract(router);
    store.RemoveContract("0xABC");
    assert store.contracts == WithoutAddress([vault, router], "0xABC");
    final := store.contracts;
    slot := storage.GetItem(StorageKey);
  }
}
