/** Definitions shared by the other modules. */
module Common {

  datatype Option<T> = None | Some(value: T)

  const TWO32 := 0x1_0000_0000
  const U64 := 0x1_0000_0000_0000_0000

  function Min(a: nat, b: nat): (m: nat)
    ensures m <= a && m <= b && (m == a || m == b)
  {
    if a < b then a else b
  }

  function Max(a: int, b: int): (m: int)
    ensures m >= a && m >= b && (m == a || m == b)
  {
    if a < b then b else a
  }

  /** An unsigned 64-bit word. */
  function Wrap(x: int): (w: nat)
    ensures w < U64
  {
    x % U64
  }

  lemma WrapTwice(x: int, y: int)
    ensures Wrap(x + Wrap(y)) == Wrap(x + y)
  {
  }
}
