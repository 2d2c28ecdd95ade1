/**
 The page `Dashboard` (src/pages/index.tsx), which keeps its own inline copy
 of the store: the list and the form in component state, a load effect on
 mount, and a save effect that rewrites the slot whenever the list changes.
 `LoadEffect` and `SaveEffect` are the two effects on their own; every other
 method is one completed event, the effects it triggers included.
 */
module Pages {

  import opened Wrappers
  import opened Contracts
  import opened Storage

  /** What the page shows under "Saved Contracts": a placeholder, or a table with one row per record. */
  datatype View = Placeholder | Table(rows: seq<SavedContract>)

  class Dashboard {
    /** The `contracts` state. */
    var contracts: seq<SavedContract>
    /** The `form` state. */
    var form: SavedContract
    /** The localStorage the page reads and writes. */
    const storage: LocalStorage

    /** The persisted slot holds exactly the in-memory list. */
    ghost predicate Mirrored()
      reads this, storage
    {
      storage.GetItem(StorageKey) == Some(Serialize(contracts))
    }

    /** The first render, before any effect: an empty list and an empty form on "ethereum". */
    constructor (storage: LocalStorage)
      ensures this.storage == storage
      ensures contracts == [] && form == EmptyForm
    {
      this.storage := storage;
      contracts := [];
      form := EmptyForm;
    }

    /** The load effect: a non-empty stored string replaces the list; otherwise the list stays. */
    method LoadEffect()
      modifies this
      ensures contracts == match Loaded(storage.GetItem(StorageKey))
                           case Some(records) => records
                           case None => old(contracts)
      ensures form == old(form)
    {
      var stored := storage.GetItem(StorageKey);
      var parsed := Loaded(stored);
      if parsed.Some? {
        contracts := parsed.value;
      }
    }

    /** The save effect: overwrite the one slot with the current list. */
    method SaveEffect()
      modifies storage
      ensures storage.items == old(storage.items)[StorageKey := Serialize(contracts)]
      ensures Mirrored()
    {
      storage.SetItem(StorageKey, Serialize(contracts));
    }

    /**
     Mounting: the load effect reads the slot, then the save effect writes
     the resulting list back, so afterwards the slot mirrors the list even
     when it was absent or empty before.
     */
    method Mount()
      modifies this, storage
      ensures contracts == match Loaded(old(storage.GetItem(StorageKey)))
                           case Some(records) => records
                           case None => old(contracts)
      ensures form == old(form)
      ensures storage.items == old(storage.items)[StorageKey := Serialize(contracts)]
      ensures Mirrored()
    {
      LoadEffect();
      SaveEffect();
    }

    /** Typing in the name input replaces the name and nothing else. */
    method EditName(value: string)
      modifies this
      ensures form == old(form).(name := value) && contracts == old(contracts)
    {
      form := form.(name := value);
    }

    /** Typing in the address input replaces the address and nothing else. */
    method EditAddress(value: string)
      modifies this
      ensures form == old(form).(address := value) && contracts == old(contracts)
    {
      form := form.(address := value);
    }

    /** Choosing a network replaces the network and nothing else. */
    method EditNetwork(value: string)
      modifies this
      ensures form == old(form).(network := value) && contracts == old(contracts)
    {
      form := form.(network := value);
    }

    /**
     `handleSubmit`: with an empty name or address neither the list, the
     form nor the slot changes; otherwise the form is appended, the form is
     reset, and the save effect persists the new list.
     */
    method HandleSubmit()
      modifies this, storage
      ensures Accepts(old(form)) ==> contracts == Appended(old(contracts), old(form))
      ensures Accepts(old(form)) ==> form == EmptyForm
      ensures Accepts(old(form)) ==>
                storage.items == old(storage.items)[StorageKey := Serialize(contracts)]
      ensures !Accepts(old(form)) ==>
                form == old(form) && contracts == old(contracts) && storage.items == old(storage.items)
      ensures old(Mirrored()) ==> Mirrored()
    {
      if !Accepts(form) {
        return;
      }
      contracts := Appended(contracts, form);
      form := EmptyForm;
      SaveEffect();
    }

    /**
     `handleRemove`: keep the records whose address differs; the filter
     always yields a new list, so the save effect always runs. Removing an
     absent address from a mirrored page changes nothing.
     */
    method HandleRemove(address: string)
      modifies this, storage
      ensures contracts == WithoutAddress(old(contracts), address)
      ensures form == old(form)
      ensures storage.items == old(storage.items)[StorageKey := Serialize(contracts)]
      ensures Mirrored()
      ensures old(Mirrored()) && (forall c | c in old(contracts) :: c.address != address)
              ==> contracts == old(contracts) && storage.items == old(storage.items)
    {
      if forall c | c in contracts :: c.address != address {
        WithoutAbsentAddress(contracts, address);
      }
      contracts := WithoutAddress(contracts, address);
      SaveEffect();
    }

    /** The Remove button on row `row` removes by that row's own address. */
    method ClickRemove(row: nat)
      requires row < |contracts|
      modifies this, storage
      ensures contracts == WithoutAddress(old(contracts), old(contracts)[row].address)
      ensures old(contracts)[row] !in contracts
      ensures |contracts| < |old(contracts)|
      ensures form == old(form)
      ensures storage.items == old(storage.items)[StorageKey := Serialize(contracts)]
      ensures Mirrored()
    {
      RemoveRowShrinks(contracts, row);
      HandleRemove(contracts[row].address);
    }

    /** The "Saved Contracts" box: the placeholder exactly when the list is empty. */
    function SavedContractsView(): (v: View)
      reads this
      ensures v == Placeholder <==> contracts == []
      ensures v.Table? ==> v.rows == contracts
    {
      if |contracts| == 0 then Placeholder else Table(contracts)
    }
  }
}
