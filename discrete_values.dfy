/** Assignments of discrete variables: GTSAM's `DiscreteValues`, a map from
    a variable's key to the index it takes in that variable's domain. */
module DiscreteValues {

  /** A variable identifier (`gtsam::Key`). */
  type Key = nat

  /** A partial or complete assignment: key to domain index. */
  type Values = map<Key, nat>

  /** What `values[j]` reads through the map's `operator[]`: a key that is
      absent reads as 0 (the map default-constructs the entry). */
  function Get(values: Values, j: Key): (r: nat)
  {
    if j in values then values[j] else 0
  }

  /** `values` after `values[j] = Get(source, j)` has run for every `j` of
      `keys`, in order. */
  function Overwrite(values: Values, keys: seq<Key>, source: Values): (r: Values)
    decreases |keys|
  {
    if keys == [] then values
    else
      var last := keys[|keys| - 1];
      Overwrite(values, keys[..|keys| - 1], source)[last := Get(source, last)]
  }

  /** Overwriting assigns every listed key, and only those, and leaves every
      other entry as it was. */
  lemma {:induction false} OverwriteSpec(values: Values, keys: seq<Key>, source: Values)
    ensures Overwrite(values, keys, source).Keys == values.Keys + set j | j in keys
    ensures forall j :: j in keys ==> Overwrite(values, keys, source)[j] == Get(source, j)
    ensures forall k :: k in values && k !in keys ==> Overwrite(values, keys, source)[k] == values[k]
    decreases |keys|
  {
    if keys != [] {
      var init := keys[..|keys| - 1];
      OverwriteSpec(values, init, source);
      assert keys == init + [keys[|keys| - 1]];
      assert (set j | j in keys) == (set j | j in init) + {keys[|keys| - 1]};
    }
  }

  /** A caller-owned `DiscreteValues` object, passed by pointer to the
      operations that fill in solutions in place. */
  class Assignment {
    var entries: Values

    constructor (initial: Values)
      ensures entries == initial
    {
      entries := initial;
    }
  }
}
