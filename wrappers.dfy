/** Option and Outcome values, and the errors that abort a run of the scripts. */
module Wrappers {

  datatype Option<+T> = None | Some(value: T)

  /** Why a run aborts. Each constructor stands for an exception the scripts raise. */
  datatype Error =
    | DegenerateInput(distinct: nat)   // `assert len(seqdict) > 3` fails
    | MissingLeaf(name: string)        // KeyError on the leaf dictionary of the reference tree
    | MissingRepresentative(name: string)  // KeyError on the leaf dictionary of the inferred tree
    | NoParent(name: string)           // the leaf to replace is the root of the inferred tree
    | NoMrca(names: seq<string>)       // `mrca` finds none of the names in the reference tree

  datatype Result<+R> = Success(value: R) | Failure(error: Error)

  datatype Outcome = Pass | Fail(error: Error)
}

/** Python dictionaries: a map together with the order in which its keys were first inserted. */
module Dicts {

  datatype Dict<K(!new), V> = Dict(keys: seq<K>, values: map<K, V>) {

    /** The keys are listed once each, and exactly the keys of the map are listed. */
    ghost predicate Valid() {
      && (forall i, j :: 0 <= i < j < |keys| ==> keys[i] != keys[j])
      && (forall k :: k in values <==> k in keys)
    }

    /** `d[k] = v`: an existing key keeps its position, a new key goes to the end. */
    function Put(k: K, v: V): (d: Dict<K, V>)
      requires Valid()
      ensures d.Valid()
      ensures d.values == values[k := v]
      ensures k in values ==> d.keys == keys
      ensures k !in values ==> d.keys == keys + [k]
    {
      if k in values then Dict(keys, values[k := v]) else Dict(keys + [k], values[k := v])
    }
  }

  function Empty<K(!new), V>(): (d: Dict<K, V>)
    ensures d.Valid() && d.keys == [] && d.values == map[]
  {
    Dict([], map[])
  }
}
