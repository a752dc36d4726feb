/** Shared datatypes: an optional value, and the two kinds of failure the path
    encoder reports; and orders in which a map or set is iterated. */
module Basics {
  datatype Option<+T> = None | Some(value: T)

  /** The service errors the modelled code returns. */
  datatype Error = Internal | InvalidArgument

  datatype Result<+T> = Ok(value: T) | Err(error: Error)

  /** `order` lists the elements of `s`, each once: an order in which a loop may visit them. */
  ghost predicate Enumerates<T>(order: seq<T>, s: set<T>) {
    && (forall k | k in order :: k in s)
    && (forall k | k in s :: k in order)
    && NoRepeats(order)
  }

  predicate NoRepeats<T(==)>(order: seq<T>) {
    forall i, j | 0 <= i < j < |order| :: order[i] != order[j]
  }

  lemma NoRepeatsInit<T>(order: seq<T>)
    requires NoRepeats(order) && order != []
    ensures NoRepeats(order[..|order| - 1]) && order[|order| - 1] !in order[..|order| - 1]
    ensures order == order[..|order| - 1] + [order[|order| - 1]]
    ensures forall k | k in order[..|order| - 1] :: k in order
  {
  }

  lemma EnumeratesOneMore<T>(order: seq<T>, s: set<T>, k: T)
    requires Enumerates(order, s) && k !in s
    ensures Enumerates(order + [k], s + {k})
  {
  }

  lemma SameMap<K, V>(a: map<K, V>, b: map<K, V>)
    requires forall k :: k in a <==> k in b
    requires forall k | k in a :: a[k] == b[k]
    ensures a == b
  {
  }

  lemma AddNothing<K, V>(a: map<K, V>, b: map<K, V>)
    requires b == map[]
    ensures a + b == a
  {
  }
}
