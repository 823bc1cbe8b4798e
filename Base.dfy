/** Values shared by every component of the watermarking core: optional values,
    integer sizes and points, and Python's `int()` applied to a float. */
module Base {

  datatype Option<+T> = None | Some(value: T) {
    function GetOr(default: T): T {
      match this
      case Some(v) => v
      case None => default
    }
  }

  /** A width/height pair in pixels, as Pillow's `Image.size` and Qt's `rect()`. */
  datatype Size = Size(width: int, height: int)

  /** An integer pixel coordinate; x grows to the right, y downwards. */
  datatype Point = Point(x: int, y: int)

  /** A normalised position, each coordinate nominally in [0, 1]. */
  datatype Anchor = Anchor(fx: real, fy: real)

  /** Python's `int(f)` on a float: truncation toward zero. */
  function Trunc(r: real): (t: int)
    ensures r >= 0.0 ==> t as real <= r < t as real + 1.0
    ensures r < 0.0 ==> t as real - 1.0 < r <= t as real
  {
    if r >= 0.0 then r.Floor else -((-r).Floor)
  }

  /** Python's `abs` on an integer. */
  function Abs(n: int): (a: nat)
    ensures a == n || a == -n
  {
    if n < 0 then -n else n
  }

  function Max(a: int, b: int): (m: int)
    ensures m >= a && m >= b && (m == a || m == b)
  {
    if a >= b then a else b
  }
}
