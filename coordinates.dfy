/**
 * The grid geometry used by the game (src/model/Game.ts): the row-major flat index of a
 * square, its inverse, and the 3 × 3 block that `getAroundCells` visits.
 */
module Coordinates {
  import opened Cells

  /** Whether `c` names a square of a `width × height` grid. */
  predicate InBounds(width: int, height: int, c: Coordinate) {
    0 <= c.0 < width && 0 <= c.1 < height
  }

  /** `coordinate2Number`: the row-major flat index `x + y * width`. */
  function Coordinate2Number(width: int, c: Coordinate): (n: int)
    ensures 0 <= c.0 < width && 0 <= c.1 ==> 0 <= n && n / width == c.1 && n % width == c.0
  {
    IndexDecodes(width, c);
    c.0 + c.1 * width
  }

  /**
   * The remainder of JavaScript's `%`, which takes the sign of the dividend: it lies strictly
   * between `-d` and `d`, is never of the opposite sign to `n`, and `n` minus it is a multiple
   * of `d`.
   */
  function JsRemainder(n: int, d: int): (r: int)
    requires d > 0
    ensures -d < r < d && (n >= 0 ==> r >= 0) && (n <= 0 ==> r <= 0)
    ensures (n - r) % d == 0
  {
    if n >= 0 then
      assert n - n % d == (n / d) * d;
      DivModOfIndex(d, 0, n / d);
      n % d
    else
      assert n + (-n) % d == -((-n) / d) * d;
      DivModOfIndex(d, 0, -((-n) / d));
      -((-n) % d)
  }

  /**
   * `number2Coordinate`: `[number % width, Math.floor(number / width)]`.
   * Dafny's `/` with a positive divisor rounds down, as `Math.floor` does.
   */
  function Number2Coordinate(width: int, n: int): (c: Coordinate)
    requires width > 0
    ensures -width < c.0 < width
    ensures n >= 0 ==> 0 <= c.0 && 0 <= c.1 && c.0 + c.1 * width == n
  {
    (JsRemainder(n, width), n / width)
  }

  /** `q` lies in the 3 × 3 block centred on `p`, `p` itself included. */
  predicate Near(p: Coordinate, q: Coordinate) {
    -1 <= q.0 - p.0 <= 1 && -1 <= q.1 - p.1 <= 1
  }

  /** The last flat index of the grid, `length - 1`, names its last square. */
  function LastSquare(width: int, height: int): Coordinate {
    (width - 1, height - 1)
  }

  lemma MulAtLeast(k: int, w: int)
    requires w > 0 && k >= 1
    ensures k * w >= w
  {
  }

  /** Division by a positive `w` undoes `x + y * w` when `0 <= x < w`. */
  lemma {:induction false} DivModOfIndex(w: int, x: int, y: int)
    requires w > 0 && 0 <= x < w
    ensures (x + y * w) / w == y && (x + y * w) % w == x
  {
    var n := x + y * w;
    var q, r := n / w, n % w;
    assert n == q * w + r && 0 <= r < w;
    assert (q - y) * w == x - r;
    if q - y >= 1 {
      MulAtLeast(q - y, w);
      assert false;
    } else if y - q >= 1 {
      MulAtLeast(y - q, w);
      assert false;
    }
  }

  /** An index built from a column in `[0, width)` and a row `>= 0` decodes back to them. */
  lemma IndexDecodes(width: int, c: Coordinate)
    ensures 0 <= c.0 < width && 0 <= c.1 ==>
      0 <= c.0 + c.1 * width && (c.0 + c.1 * width) / width == c.1 && (c.0 + c.1 * width) % width == c.0
  {
    if 0 <= c.0 < width && 0 <= c.1 {
      DivModOfIndex(width, c.0, c.1);
    }
  }

  /** Coordinate to index and back is the identity on `0 <= x < width`, `y >= 0`. */
  lemma IndexRoundTrip(width: int, c: Coordinate)
    requires width > 0 && 0 <= c.0 < width && c.1 >= 0
    ensures Number2Coordinate(width, Coordinate2Number(width, c)) == c
  {
    DivModOfIndex(width, c.0, c.1);
  }

  /** Index to coordinate and back is the identity on non-negative indices. */
  lemma NumberRoundTrip(width: int, n: int)
    requires width > 0 && n >= 0
    ensures 0 <= Number2Coordinate(width, n).0 < width && Number2Coordinate(width, n).1 >= 0
    ensures Coordinate2Number(width, Number2Coordinate(width, n)) == n
  {
    assert n == (n / width) * width + n % width;
  }

  /** The indices `[0, width * height)` name exactly the squares of the grid. */
  lemma {:induction false} IndexRange(width: int, height: int, n: int)
    requires width > 0 && n >= 0
    ensures InBounds(width, height, Number2Coordinate(width, n)) <==> n < width * height
  {
    NumberRoundTrip(width, n);
    var c := Number2Coordinate(width, n);
    if c.1 < height {
      assert (height - c.1) * width >= width by { MulAtLeast(height - c.1, width); }
      assert n < width * height;
    } else {
      assert (c.1 - height) * width >= 0;
      assert n >= width * height;
    }
  }

  /** The in-grid squares are sent into `[0, width * height)`. */
  lemma CoordinateRange(width: int, height: int, c: Coordinate)
    requires width > 0 && InBounds(width, height, c)
    ensures 0 <= Coordinate2Number(width, c) < width * height
  {
    IndexRoundTrip(width, c);
    IndexRange(width, height, Coordinate2Number(width, c));
  }

  /** Two in-grid squares share a flat index only if they are the same square. */
  lemma IndexInjective(width: int, c: Coordinate, d: Coordinate)
    requires width > 0 && 0 <= c.0 < width && c.1 >= 0 && 0 <= d.0 < width && d.1 >= 0
    requires Coordinate2Number(width, c) == Coordinate2Number(width, d)
    ensures c == d
  {
    IndexRoundTrip(width, c);
    IndexRoundTrip(width, d);
  }

  /** The last square's flat index is `length - 1`, one past the range mines are drawn from. */
  lemma LastSquareIndex(width: int, height: int)
    requires width > 0 && height > 0
    ensures InBounds(width, height, LastSquare(width, height))
    ensures Coordinate2Number(width, LastSquare(width, height)) == width * height - 1
  {
  }
}
