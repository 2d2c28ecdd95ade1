/**
 The value layer shared by both copies of the saved-contracts store
 (src/lib/useSavedContracts.ts and src/pages/index.tsx): the record, the
 persisted slot, the pure list operations both copies build their new lists
 with, the form gate, and the facts about them.
 */
module Contracts {

  import opened Wrappers

  /** One saved contract reference. `network` is free text, as in the code. */
  datatype SavedContract = SavedContract(name: string, address: string, network: string)

  /** The single localStorage key every read and every write uses. */
  const StorageKey: string := "saved_contracts"

  /** The form value a fresh form holds and a successful submit restores. */
  const EmptyForm: SavedContract := SavedContract("", "", "ethereum")

  /**
   What the storage slot can hold. Serialisation is taken to be exact, so a
   written list is held as the list itself; `EmptyText` is the empty string,
   which the load test treats as "nothing stored".
   */
  datatype Stored = EmptyText | Json(records: seq<SavedContract>)

  /** What writing a list to the slot stores (`JSON.stringify`, taken as exact). */
  function Serialize(records: seq<SavedContract>): Stored
  {
    Json(records)
  }

  /**
   The load test `if (stored)`: an absent slot and the empty string give
   nothing to load; any other slot value is parsed into the list it holds.
   */
  function Loaded(slot: Option<Stored>): (r: Option<seq<SavedContract>>)
    ensures r.None? <==> slot == None || slot == Some(EmptyText)
    ensures r.Some? ==> slot == Some(Serialize(r.value))
  {
    match slot
    case None => None
    case Some(EmptyText) => None
    case Some(Json(records)) => Some(records)
  }

  /** Whatever list is written comes back unchanged on the next load, the empty list included. */
  lemma LoadAfterSave(records: seq<SavedContract>)
    ensures Loaded(Some(Serialize(records))) == Some(records)
  {
  }

  /** `[...contracts, contract]`: one more record, the new one last, the old ones in place. */
  function Appended(contracts: seq<SavedContract>, c: SavedContract): (r: seq<SavedContract>)
    ensures |r| == |contracts| + 1
    ensures r[|contracts|] == c
    ensures r[..|contracts|] == contracts
  {
    contracts + [c]
  }

  /** `contracts.filter(c => c.address !== address)`, exact string comparison. */
  function WithoutAddress(contracts: seq<SavedContract>, address: string): (r: seq<SavedContract>)
    ensures |r| <= |contracts|
    ensures forall i :: 0 <= i < |r| ==> r[i].address != address
  {
    if contracts == [] then []
    else if contracts[0].address == address then WithoutAddress(contracts[1..], address)
    else [contracts[0]] + WithoutAddress(contracts[1..], address)
  }

  /** The number of records whose address is exactly `address`. */
  function CountAddress(contracts: seq<SavedContract>, address: string): nat
  {
    if contracts == [] then 0
    else (if contracts[0].address == address then 1 else 0) + CountAddress(contracts[1..], address)
  }

  /** `sub` can be obtained from `s` by deleting elements, keeping the rest in order. */
  ghost predicate SubsequenceOf(sub: seq<SavedContract>, s: seq<SavedContract>)
    decreases |s|
  {
    if sub == [] then true
    else if s == [] then false
    else if sub[0] == s[0] then SubsequenceOf(sub[1..], s[1..])
    else SubsequenceOf(sub, s[1..])
  }

  /**
   Remove keeps all and only the records whose address differs, each as many
   times as it occurred.
   */
  lemma {:induction false} WithoutAddressCounts(contracts: seq<SavedContract>, address: string, x: SavedContract)
    ensures multiset(WithoutAddress(contracts, address))[x]
         == if x.address == address then 0 else multiset(contracts)[x]
  {
    if contracts != [] {
      WithoutAddressCounts(contracts[1..], address, x);
      assert contracts == [contracts[0]] + contracts[1..];
    }
  }

  /** The membership form of the above: a record survives iff it was there and its address differs. */
  lemma {:induction false} WithoutAddressMembers(contracts: seq<SavedContract>, address: string, x: SavedContract)
    ensures x in WithoutAddress(contracts, address) <==> x in contracts && x.address != address
  {
    WithoutAddressCounts(contracts, address, x);
    assert x in WithoutAddress(contracts, address) <==> multiset(WithoutAddress(contracts, address))[x] > 0;
    assert x in contracts <==> multiset(contracts)[x] > 0;
  }

  /** The surviving records keep their original relative order. */
  lemma {:induction false} WithoutAddressKeepsOrder(contracts: seq<SavedContract>, address: string)
    ensures SubsequenceOf(WithoutAddress(contracts, address), contracts)
  {
    if contracts != [] {
      WithoutAddressKeepsOrder(contracts[1..], address);
      var rest := WithoutAddress(contracts[1..], address);
      if contracts[0].address != address {
        var r := [contracts[0]] + rest;
        assert r[1..] == rest;
      } else if rest != [] {
        assert rest[0].address != address;
      }
    }
  }

  /** The new length is the old one minus the number of records with that address. */
  lemma {:induction false} WithoutAddressLength(contracts: seq<SavedContract>, address: string)
    ensures |WithoutAddress(contracts, address)| == |contracts| - CountAddress(contracts, address)
  {
    if contracts != [] {
      WithoutAddressLength(contracts[1..], address);
    }
  }

  /** Removing an address no record has changes nothing. */
  lemma {:induction false} WithoutAbsentAddress(contracts: seq<SavedContract>, address: string)
    requires forall i :: 0 <= i < |contracts| ==> contracts[i].address != address
    ensures WithoutAddress(contracts, address) == contracts
  {
    if contracts != [] {
      WithoutAbsentAddress(contracts[1..], address);
      assert contracts == [contracts[0]] + contracts[1..];
    }
  }

  /** Removing the same address twice is the same as removing it once. */
  lemma {:induction false} WithoutAddressIdempotent(contracts: seq<SavedContract>, address: string)
    ensures WithoutAddress(WithoutAddress(contracts, address), address) == WithoutAddress(contracts, address)
  {
    WithoutAbsentAddress(WithoutAddress(contracts, address), address);
  }

  /** Removal works record by record: it distributes over concatenation. */
  lemma {:induction false} WithoutAddressConcat(s: seq<SavedContract>, t: seq<SavedContract>, address: string)
    ensures WithoutAddress(s + t, address) == WithoutAddress(s, address) + WithoutAddress(t, address)
  {
    if s == [] {
      assert s + t == t;
    } else {
      var st := s + t;
      assert st[0] == s[0] && st[1..] == s[1..] + t;
      WithoutAddressConcat(s[1..], t, address);
      var head := if s[0].address == address then [] else [s[0]];
      assert WithoutAddress(st, address) == head + WithoutAddress(s[1..] + t, address);
      assert WithoutAddress(s, address) == head + WithoutAddress(s[1..], address);
    }
  }

  /** Adding a record then removing its address drops the new record with all the others of that address. */
  lemma WithoutAddressAfterAppend(contracts: seq<SavedContract>, c: SavedContract)
    ensures WithoutAddress(Appended(contracts, c), c.address) == WithoutAddress(contracts, c.address)
  {
    WithoutAddressConcat(contracts, [c], c.address);
    assert WithoutAddress([c], c.address) == [];
  }

  /** Removing two addresses gives the same list in either order. */
  lemma {:induction false} WithoutAddressCommutes(contracts: seq<SavedContract>, a: string, b: string)
    ensures WithoutAddress(WithoutAddress(contracts, a), b) == WithoutAddress(WithoutAddress(contracts, b), a)
  {
    if contracts != [] {
      WithoutAddressCommutes(contracts[1..], a, b);
      var c := contracts[0];
      if c.address != a && c.address != b {
        assert ([c] + WithoutAddress(contracts[1..], a))[1..] == WithoutAddress(contracts[1..], a);
        assert ([c] + WithoutAddress(contracts[1..], b))[1..] == WithoutAddress(contracts[1..], b);
      }
    }
  }

  /** The Remove button of the row showing `contracts[row]` removes that row (and any twin of its address). */
  lemma RemoveRowShrinks(contracts: seq<SavedContract>, row: nat)
    requires row < |contracts|
    ensures contracts[row] !in WithoutAddress(contracts, contracts[row].address)
    ensures |WithoutAddress(contracts, contracts[row].address)| < |contracts|
  {
    var address := contracts[row].address;
    WithoutAddressMembers(contracts, address, contracts[row]);
    WithoutAddressLength(contracts, address);
    CountAtLeastOne(contracts, address, row);
  }

  lemma {:induction false} CountAtLeastOne(contracts: seq<SavedContract>, address: string, i: nat)
    requires i < |contracts| && contracts[i].address == address
    ensures CountAddress(contracts, address) >= 1
  {
    if i > 0 {
      CountAtLeastOne(contracts[1..], address, i - 1);
    }
  }

  /** Adding `added` one record at a time, in order, as repeated submits do. */
  function AddAll(contracts: seq<SavedContract>, added: seq<SavedContract>): seq<SavedContract>
    decreases |added|
  {
    if added == [] then contracts else AddAll(Appended(contracts, added[0]), added[1..])
  }

  /** Successive adds leave the records in exactly the order they were added. */
  lemma {:induction false} AddAllInOrder(contracts: seq<SavedContract>, added: seq<SavedContract>)
    ensures AddAll(contracts, added) == contracts + added
    decreases |added|
  {
    if added != [] {
      AddAllInOrder(Appended(contracts, added[0]), added[1..]);
      assert (contracts + [added[0]]) + added[1..] == contracts + added;
    }
  }

  /**
   The submit gate: both text fields must be non-empty strings; nothing is
   trimmed. The reset form never passes, so a second submit right after a
   successful one does nothing.
   */
  predicate Accepts(form: SavedContract): (ok: bool)
    ensures ok <==> |form.name| > 0 && |form.address| > 0
    ensures ok ==> form != EmptyForm
  {
    form.name != "" && form.address != ""
  }

  /** Whitespace counts as content: a blank-looking name and address pass the gate. */
  lemma WhitespaceAccepted(network: string)
    ensures Accepts(SavedContract(" ", " ", network))
    ensures !Accepts(SavedContract("", " ", network)) && !Accepts(SavedContract(" ", "", network))
  {
  }
}
