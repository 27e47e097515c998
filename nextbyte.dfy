/**
 * What can follow the current state of a matcher: one forced byte, only the
 * end of input, some bytes, or nothing at all. Ordered by how much they
 * allow, the values form a lattice with `Dead` at the bottom, `SomeBytes`
 * at the top and the forced values, pairwise incomparable, in between;
 * `&` is its meet and `|` its join.
 */
module NextBytes {
  import opened Words

  datatype NextByte =
    | ForcedByte(b: UInt8)  // any other byte, or the end of input, leads to a dead state
    | ForcedEOI             // every byte leads to a dead state, the end of input is possible
    | SomeBytes             // some bytes may be possible
    | Dead                  // the state is dead

  /** `a` allows no more than `b`. */
  predicate Le(a: NextByte, b: NextByte)
  {
    a == b || a.Dead? || b.SomeBytes?
  }

  /** `Le` is a partial order. */
  lemma LeOrder(a: NextByte, b: NextByte, c: NextByte)
    ensures Le(a, a)
    ensures Le(a, b) && Le(b, a) ==> a == b
    ensures Le(a, b) && Le(b, c) ==> Le(a, c)
  {
  }

  /** `&`: the greatest value below both operands. */
  function And(x: NextByte, y: NextByte): (r: NextByte)
    ensures Le(r, x) && Le(r, y)
    ensures forall c :: Le(c, x) && Le(c, y) ==> Le(c, r)
  {
    if x == y then x
    else if x.SomeBytes? then y
    else if y.SomeBytes? then x
    else Dead
  }

  /** `|`: the least value above both operands. */
  function Or(x: NextByte, y: NextByte): (r: NextByte)
    ensures Le(x, r) && Le(y, r)
    ensures forall c :: Le(x, c) && Le(y, c) ==> Le(r, c)
  {
    if x == y then x
    else if x.Dead? then y
    else if y.Dead? then x
    else SomeBytes
  }

  /** Both operations are commutative and idempotent. */
  lemma CommutativeIdempotent(x: NextByte, y: NextByte)
    ensures And(x, y) == And(y, x) && Or(x, y) == Or(y, x)
    ensures And(x, x) == x && Or(x, x) == x
  {
  }

  /** Both operations are associative. */
  lemma Associative(x: NextByte, y: NextByte, z: NextByte)
    ensures And(And(x, y), z) == And(x, And(y, z))
    ensures Or(Or(x, y), z) == Or(x, Or(y, z))
  {
  }

  /** Each operation undoes the other: the absorption laws. */
  lemma Absorption(x: NextByte, y: NextByte)
    ensures And(x, Or(x, y)) == x
    ensures Or(x, And(x, y)) == x
  {
  }

  /**
   * `SomeBytes` is the identity of `&` and absorbs under `|`; `Dead` is the
   * identity of `|` and absorbs under `&`.
   */
  lemma Bounds(x: NextByte)
    ensures And(SomeBytes, x) == x && And(Dead, x) == Dead
    ensures Or(Dead, x) == x && Or(SomeBytes, x) == SomeBytes
  {
  }

  /**
   * Distinct values meet to `Dead` unless one is `SomeBytes`, and join to
   * `SomeBytes` unless one is `Dead`.
   */
  lemma Distinct(x: NextByte, y: NextByte)
    requires x != y
    ensures !x.SomeBytes? && !y.SomeBytes? ==> And(x, y) == Dead
    ensures !x.Dead? && !y.Dead? ==> Or(x, y) == SomeBytes
  {
  }
}
