/**
 * The walker's `Bag` side channel (src/parsing/typescript/parser.ts): a
 * string-keyed store through which one node's translation hands an info or
 * condition to a later sibling's translation. Modelled as an immutable map;
 * each operation returns the updated bag.
 */
module Bags {
  import opened Wrappers

  datatype Bag<V> = Bag(entries: map<string, V>)

  /** `put`: stores `value` under `key`, replacing any earlier value. */
  function Put<V>(b: Bag<V>, key: string, value: V): (r: Bag<V>)
    ensures r.entries.Keys == b.entries.Keys + {key}
    ensures r.entries[key] == value
    ensures forall k :: k in b.entries && k != key ==> r.entries[k] == b.entries[k]
  {
    Bag(b.entries[key := value])
  }

  /** `peek`: the value under `key`, if any, leaving the bag as it is. */
  function Peek<V>(b: Bag<V>, key: string): (r: Option<V>)
    ensures r.Some? <==> key in b.entries
    ensures r.Some? ==> r.value == b.entries[key]
  {
    if key in b.entries then Some(b.entries[key]) else None
  }

  /** `take`: the value under `key`, if any, and the bag without that key. */
  function Take<V>(b: Bag<V>, key: string): (r: (Option<V>, Bag<V>))
    ensures r.0 == Peek(b, key)
    ensures r.1.entries.Keys == b.entries.Keys - {key}
    ensures forall k :: k in r.1.entries ==> r.1.entries[k] == b.entries[k]
  {
    (Peek(b, key), Bag(b.entries - {key}))
  }

  /** A taken value is gone: neither a peek nor a second take finds it. */
  lemma TakeRemoves<V>(b: Bag<V>, key: string)
    ensures Peek(Take(b, key).1, key).None?
    ensures Take(Take(b, key).1, key).0.None?
  {
  }

  /** Taking what was just put returns it, and leaves the bag as it was without the key. */
  lemma TakeAfterPut<V>(b: Bag<V>, key: string, value: V)
    ensures Take(Put(b, key, value), key).0 == Some(value)
    ensures Take(Put(b, key, value), key).1 == Bag(b.entries - {key})
  {
  }

  /** A second put of the same key overwrites the first. */
  lemma PutOverwrites<V>(b: Bag<V>, key: string, first: V, second: V)
    ensures Put(Put(b, key, first), key, second) == Put(b, key, second)
    ensures Peek(Put(Put(b, key, first), key, second), key) == Some(second)
  {
  }

  /** Operations on one key are invisible through every other key. */
  lemma OtherKeysUnaffected<V>(b: Bag<V>, key: string, other: string, value: V)
    requires key != other
    ensures Peek(Put(b, key, value), other) == Peek(b, other)
    ensures Peek(Take(b, key).1, other) == Peek(b, other)
  {
  }
}
