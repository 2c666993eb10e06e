/** The C `int` that results and counters are kept in. */
module CInt {

  const INT_LIMIT: int := 0x8000_0000

  /** The value an `int` holds after an assignment from a wider integer. */
  function ToInt32(x: int): (r: int)
    ensures -INT_LIMIT <= r < INT_LIMIT
    ensures r == x <==> -INT_LIMIT <= x < INT_LIMIT
  {
    (x + INT_LIMIT) % (2 * INT_LIMIT) - INT_LIMIT
  }
}
