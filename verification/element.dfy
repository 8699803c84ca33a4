/** Elements stored in the tree and the three-way comparison that orders them.
    An element is a member of the family: a display name and an ordering key.
    Two elements compare equal exactly when their keys are equal, whatever
    their names. */
module Elements {

  /** The usual optional value, used where the source returns a null reference. */
  datatype Option<T> = None | Some(value: T)

  /** A member: its name and its ordering key (the source's weight). */
  datatype Elem = Elem(name: string, key: int)

  /** Three-way comparison on keys alone: negative, zero or positive as `a`
      orders before, together with, or after `b`. */
  function Compare(a: Elem, b: Elem): (c: int)
    ensures -1 <= c <= 1
    ensures c < 0 <==> a.key < b.key
    ensures c == 0 <==> a.key == b.key
    ensures c > 0 <==> b.key < a.key
  {
    if a.key > b.key then 1
    else if a.key < b.key then -1
    else 0
  }

  /** Swapping the operands negates the comparison, so the order is antisymmetric;
      names never take part. */
  lemma CompareAntisymmetric(a: Elem, b: Elem, a': Elem)
    requires a'.key == a.key
    ensures Compare(a, b) == -Compare(b, a)
    ensures Compare(a', b) == Compare(a, b)
  {
  }

  function Min(a: int, b: int): int { if a <= b then a else b }

  function Max(a: int, b: int): int { if a >= b then a else b }
}
