/**
 * `object_key`: a numeric key per object, handed out from a counter on
 * first sight and remembered by identity. An object is its identity, a `nat`.
 */
module ObjectKey {

  /** Issued keys are below the counter and no two objects share one. */
  predicate Consistent(keys: map<nat, nat>, counter: nat) {
    (forall t :: t in keys ==> keys[t] < counter) &&
    (forall a, b :: a in keys && b in keys && a != b ==> keys[a] != keys[b])
  }

  /** The key for `thing`, the table after the lookup, and the counter after it. */
  function Keyed(keys: map<nat, nat>, counter: nat, thing: nat): (out: (nat, map<nat, nat>, nat))
    ensures thing in keys ==> out == (keys[thing], keys, counter)
    ensures thing !in keys ==> out.0 == counter && out.2 == counter + 1
    ensures out.1.Keys == keys.Keys + {thing} && thing in out.1 && out.1[thing] == out.0
    ensures forall t :: t in keys ==> t in out.1 && out.1[t] == keys[t]
  {
    if thing in keys then (keys[thing], keys, counter)
    else (counter, keys[thing := counter], counter + 1)
  }

  /** Looking an object up keeps every issued key below the counter and keys distinct. */
  lemma KeyedKeepsConsistent(keys: map<nat, nat>, counter: nat, thing: nat)
    requires Consistent(keys, counter)
    ensures var (_, keys', counter') := Keyed(keys, counter, thing);
            Consistent(keys', counter')
  {
  }

  /** Two objects looked up one after the other get the same key exactly when they are the same object. */
  lemma KeyedTwice(keys: map<nat, nat>, counter: nat, a: nat, b: nat)
    requires Consistent(keys, counter)
    ensures var (ka, keys1, counter1) := Keyed(keys, counter, a);
            var (kb, _, _) := Keyed(keys1, counter1, b);
            ka == kb <==> a == b
  {
    var (ka, keys1, counter1) := Keyed(keys, counter, a);
    KeyedKeepsConsistent(keys, counter, a);
  }

  /** The module-level table and counter. */
  class KeyTable {
    var keys: map<nat, nat>
    var counter: nat

    constructor ()
      ensures keys == map[] && counter == 0
      ensures Consistent(keys, counter)
    {
      keys := map[];
      counter := 0;
    }

    /** `object_key(thing)`. */
    method Key(thing: nat) returns (key: nat)
      modifies this
      ensures (key, keys, counter) == Keyed(old(keys), old(counter), thing)
    {
      if thing in keys {
        return keys[thing];
      }
      key := counter;
      counter := counter + 1;
      keys := keys[thing := key];
    }
  }
}
