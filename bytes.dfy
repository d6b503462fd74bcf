/** Unsigned 8-bit channel values (numpy uint8, OpenCV CV_8U) and the
    per-element arithmetic that numpy and OpenCV apply to them. */
module Bytes {

  newtype uint8 = x: int | 0 <= x < 256

  /** The low 8 bits of an integer, as an unsafe numpy cast to uint8 keeps them. */
  function Wrap(n: int): (r: uint8)
    ensures (r as int - n) % 256 == 0
    ensures 0 <= n < 256 ==> r as int == n
  {
    (n % 256) as uint8
  }

  /** Bitwise AND of two naturals, bit by bit from the least significant one. */
  function BitAnd(x: nat, y: nat): (r: nat)
    ensures r <= x && r <= y
    ensures x == y ==> r == x
    ensures x == 0 || y == 0 ==> r == 0
  {
    if x == 0 || y == 0 then 0 else 2 * BitAnd(x / 2, y / 2) + (x % 2) * (y % 2)
  }

  /** Bitwise AND of two values (cv2.bitwise_and, per element). */
  function And(x: uint8, y: uint8): uint8
  {
    BitAnd(x as nat, y as nat) as uint8
  }

  /** Bitwise complement of an 8-bit value (cv2.bitwise_not, per element). */
  function Not(x: uint8): uint8
  {
    255 - x
  }

  /** Addition that clips at 255 (cv2.add on CV_8U). */
  function AddSat(x: uint8, y: uint8): (r: uint8)
    ensures x <= r && y <= r && r as int <= x as int + y as int
    ensures x == 0 ==> r == y
    ensures y == 0 ==> r == x
  {
    if x as int + y as int > 255 then 255 else (x as int + y as int) as uint8
  }

  /** Multiplication of a uint8 value by a Python integer; numpy keeps the
      uint8 type and so the product wraps modulo 256. */
  function MulWrap(x: uint8, k: int): uint8
  {
    Wrap(x as int * k)
  }
}
