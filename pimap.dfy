/**
 * `b3PIMap<N>`: a fixed-capacity table of (pointer, index) pairs, filled by
 * appending and searched by a linear scan from the front. Pointers are
 * element identities, written as naturals.
 */
module PointerIndexMap {
  import opened HalfEdgeMesh

  datatype PointerIndex = PointerIndex(pointer: nat, index: nat)

  class PIMap {
    /** The entry buffer; its length is the capacity `N`. */
    const pis: array<PointerIndex>
    var count: nat

    ghost predicate Valid()
      reads this
    {
      count <= pis.Length
    }

    /** An empty map of capacity `capacity`. */
    constructor (capacity: nat)
      ensures Valid() && count == 0 && pis.Length == capacity && fresh(pis)
    {
      pis := new PointerIndex[capacity](_ => PointerIndex(0, 0));
      count := 0;
    }

    /** Appends `pi` after the entries already held; the map must have room. */
    method Add(pi: PointerIndex)
      requires Valid() && count < pis.Length
      modifies this, pis
      ensures Valid()
      ensures count == old(count) + 1
      ensures pis[..] == old(pis[..])[old(count) := pi]
    {
      pis[count] := pi;
      count := count + 1;
    }

    /** The position of the first entry whose pointer is `p`, or null when no
      * entry has it. */
    method Find(p: nat) returns (r: Link)
      requires Valid()
      ensures r.Ptr? ==> r.index < count && pis[r.index].pointer == p
      ensures r.Ptr? ==> forall k :: 0 <= k < r.index ==> pis[k].pointer != p
      ensures r.Null? <==> forall k :: 0 <= k < count ==> pis[k].pointer != p
    {
      var i := 0;
      while i < count
        invariant i <= count
        invariant forall k :: 0 <= k < i ==> pis[k].pointer != p
      {
        if pis[i].pointer == p {
          return Ptr(i);
        }
        i := i + 1;
      }
      r := Null;
    }
  }
}
