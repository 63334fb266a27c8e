/** `src/core/helpers.ts`: an index from keys to sets of values, and the
    insertion-ordered JavaScript `Set` it and the builder are made of. */
module Helpers {
  import opened Wrappers
  import opened Graphs

  /** `set.add(x)` on a `Set` kept as its insertion-ordered members: a new member
      goes last, a present one changes nothing. */
  function SetAdd<T(==,!new)>(s: seq<T>, x: T): (r: seq<T>)
    ensures forall y :: y in r <==> y in s || y == x
    ensures Distinct(s) ==> Distinct(r)
    ensures x in s ==> r == s
    ensures x !in s ==> r == s + [x]
  {
    if x in s then s else s + [x]
  }

  /** A value of type `Index`: each key's set of values. */
  type Index = map<string, seq<string>>

  /** What `addToIndex` leaves behind: the key's set holds the value, and nothing
      else of the index changed, neither another key nor a member already there. */
  function IndexAdd(index: Index, key: string, value: string): (r: Index)
    ensures r.Keys == index.Keys + {key} && value in r[key]
    ensures forall k :: k in index && k != key ==> r[k] == index[k]
    ensures key in index ==> forall v :: v in index[key] ==> v in r[key]
    ensures forall v :: v in r[key] ==> v == value || (key in index && v in index[key])
    ensures key !in index ==> r[key] == [value]
  {
    index[key := SetAdd(if key in index then index[key] else [], value)]
  }

  /** Adding a value that is already there is a no-op, so adding twice is adding once. */
  lemma IndexAddIdempotent(index: Index, key: string, value: string)
    ensures key in index && value in index[key] ==> IndexAdd(index, key, value) == index
    ensures IndexAdd(IndexAdd(index, key, value), key, value) == IndexAdd(index, key, value)
  {
    if key in index && value in index[key] {
      assert IndexAdd(index, key, value)[key] == index[key];
    }
  }

  /** The record `addToIndex` updates in place. */
  class IndexRecord {
    var entries: Index

    constructor()
      ensures entries == map[]
    {
      entries := map[];
    }

    /** `addToIndex(index, key, value)`. */
    method AddToIndex(key: string, value: string)
      modifies this
      ensures entries == IndexAdd(old(entries), key, value)
    {
      if key !in entries {
        entries := entries[key := []];
      }
      entries := entries[key := SetAdd(entries[key], value)];
    }
  }
}
