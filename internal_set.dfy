/** `src/core/InternalSet.ts`: a set of text keys kept as an object whose
    properties are all `true`. */
module InternalSets {
  import opened Wrappers

  /** The JavaScript truthiness of a looked-up property: missing (`undefined`) is falsy. */
  predicate Truthy(v: Option<bool>) {
    v.Some? && v.value
  }

  class InternalSet {
    var state: map<string, bool>

    /** Every stored property is `true`. */
    ghost predicate Valid()
      reads this
    {
      forall k :: k in state ==> state[k]
    }

    /** `new InternalSet(oldState)`: a fresh state holding exactly the keys of
        the old set, each `true`; no old set gives an empty one. */
    constructor(oldState: Option<InternalSet>)
      ensures Valid()
      ensures state.Keys == if oldState.Some? then old(oldState.value.state.Keys) else {}
      ensures oldState.Some? ==> this != oldState.value
    {
      if oldState.Some? {
        state := map k | k in oldState.value.state.Keys :: true;
      } else {
        state := map[];
      }
    }

    /** `add(k)`: `k` is set to `true`, other keys unchanged; returns the set itself. */
    method Add(k: string) returns (r: InternalSet)
      requires Valid()
      modifies this
      ensures Valid() && r == this
      ensures state == old(state)[k := true]
      ensures Truthy(Has(k))
      ensures forall j :: j != k ==> Has(j) == old(Has(j))
    {
      state := state[k := true];
      r := this;
    }

    /** `has(k)`: `true` for an added key, `undefined` (here `None`) otherwise. */
    function Has(k: string): (r: Option<bool>)
      reads this
      requires Valid()
      ensures Truthy(r) <==> k in state
      ensures r.None? <==> k !in state
    {
      if k in state then Some(state[k]) else None
    }
  }

  /** A copy owns its own state: adding to the copy leaves the original as it was. */
  method CopyIsIndependent(s: InternalSet, k: string) returns (copy: InternalSet)
    requires s.Valid()
    ensures copy != s && fresh(copy)
    ensures copy.Valid() && copy.state.Keys == s.state.Keys + {k}
  {
    copy := new InternalSet(Some(s));
    var same := copy.Add(k);
  }
}
