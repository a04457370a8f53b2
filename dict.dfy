/**
 * A JavaScript plain object used as a string-keyed dictionary: the property
 * values plus the key order `Object.keys` reports. Keys appear in insertion
 * order, and assigning to a key that is already present keeps its place.
 * (Array-index-like keys, which JavaScript lists first, are not modelled.)
 */
module Dict {
  import opened Wrappers

  datatype Dict<V> = Dict(keys: seq<string>, vals: map<string, V>) {

    /** The keys are distinct and are exactly the keys of the value map. */
    ghost predicate Valid() {
      && (forall i, j :: 0 <= i < j < |keys| ==> keys[i] != keys[j])
      && (forall k :: k in vals <==> k in keys)
    }

    /** `typeof obj[k] === 'object'`: the property is present. */
    predicate Has(k: string) {
      k in vals
    }

    function Get(k: string): Option<V> {
      if k in vals then Some(vals[k]) else None
    }

    /** `obj[k] = v` */
    function Put(k: string, v: V): (d: Dict<V>)
      ensures Valid() ==> d.Valid()
      ensures d.Get(k) == Some(v)
      ensures forall o :: o != k ==> d.Get(o) == Get(o)
      ensures Valid() && k in keys ==> d.keys == keys
      ensures Valid() && k !in keys ==> d.keys == keys + [k]
    {
      Dict(if k in vals then keys else keys + [k], vals[k := v])
    }
  }

  function Empty<V>(): (d: Dict<V>)
    ensures d.Valid() && d.keys == [] && d.vals == map[]
  {
    Dict([], map[])
  }

  /** Assigns the pairs one after the other, as a loop of `obj[k] = v` does. */
  function PutAll<V>(d: Dict<V>, pairs: seq<(string, V)>): Dict<V>
    decreases |pairs|
  {
    if pairs == [] then d else PutAll(d.Put(pairs[0].0, pairs[0].1), pairs[1..])
  }
  /**
   * `Object.assign(d, e)` restricted to the keys `keys` of `e`, in order:
   * each present entry of `e` is put into `d`.
   */
  function Assign<V>(d: Dict<V>, e: Dict<V>, keys: seq<string>): Dict<V>
    decreases |keys|
  {
    if keys == [] then d
    else
      var r := Assign(d, e, keys[..|keys| - 1]);
      var k := keys[|keys| - 1];
      if k in e.vals then r.Put(k, e.vals[k]) else r
  }

  /** After the assignment a key of `e` that was assigned has e's value, and any other key keeps its value in `d`. */
  lemma {:induction false} AssignGet<V>(d: Dict<V>, e: Dict<V>, keys: seq<string>, k: string)
    ensures d.Valid() ==> Assign(d, e, keys).Valid()
    ensures Assign(d, e, keys).Get(k) == if k in keys && k in e.vals then Some(e.vals[k]) else d.Get(k)
    decreases |keys|
  {
    if keys != [] {
      var front := keys[..|keys| - 1];
      AssignGet(d, e, front, k);
      assert keys == front + [keys[|keys| - 1]];
      assert k in keys <==> k in front || k == keys[|keys| - 1];
    }
  }
}
