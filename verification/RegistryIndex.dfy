/** The allocator of one-byte registry indices. */
module RegistryIndex {
  import opened Words
  import opened Keys
  import opened WriteOrder

  class IndexStorage {
    var index: map<Address, uint8>
    var counter: Option<uint8>

    /** The addresses in the order they were first applied. */
    ghost var order: seq<Address>

    ghost predicate Valid()
      reads this
    {
      && Distinct(order)
      && (forall a :: a in index <==> a in order)
      && (forall k :: 0 <= k < |order| ==> order[k] in index && index[order[k]] == k % 256)
      && counter == if order == [] then None else Some((|order| - 1) % 256)
    }

    constructor ()
      ensures Valid() && order == []
    {
      index, counter, order := map[], None, [];
    }

    method FindRegistryIndex(address: Address) returns (r: Option<uint8>)
      ensures r == if address in index then Some(index[address]) else None
    {
      r := if address in index then Some(index[address]) else None;
    }

    /** One more than the counter, in eight bits. */
    method GetNextRegistryIndex() returns (next: uint8)
      requires Valid()
      ensures next == |order| % 256
    {
      match counter
      case None => next := 0;
      case Some(last) =>
        next := (last + 1) % 256;
        NextModulo(|order| - 1);
    }

    /** A known address keeps its index; a new one gets the next, and nothing else changes. */
    method ApplyAddressToIndex(address: Address) returns (r: uint8)
      requires Valid()
      modifies this
      ensures Valid()
      ensures order == if address in old(order) then old(order) else old(order) + [address]
      ensures address in index && r == index[address]
      ensures forall a :: a in old(index) ==> a in index && index[a] == old(index)[a]
    {
      var found := FindRegistryIndex(address);
      if found.Some? {
        return found.value;
      }
      r := GetNextRegistryIndex();
      index, counter, order := index[address := r], Some(r), order + [address];
    }
  }

  lemma {:induction false} NextModulo(n: nat)
    ensures (n % 256 + 1) % 256 == (n + 1) % 256
  {
  }

  /**
   Addresses have indices of their own exactly as long as there are at most 256 of them:
   the 257th address gets index 0 again.
   */
  lemma {:induction false} IndicesDistinctExactly(s: IndexStorage)
    requires s.Valid()
    ensures (forall j, k :: 0 <= j < k < |s.order| ==> s.index[s.order[j]] != s.index[s.order[k]]) <==> |s.order| <= 256
  {
    if |s.order| > 256 {
      assert s.index[s.order[0]] == s.index[s.order[256]];
    }
  }
}
