/** Two-dimensional buffers (cv::Mat) seen as row-major grids, and the index
    arithmetic shared by the spectral bookkeeping. */
module Grids {

  /** A position `(row, col)` in a two-dimensional buffer (a `pair<int, int>` of the ranking). */
  datatype Pos = Pos(row: int, col: int)

  /** `g` is a rectangular grid of `rows` rows, each `cols` long. */
  predicate IsGrid<T>(g: seq<seq<T>>, rows: nat, cols: nat) {
    |g| == rows && forall r :: 0 <= r < rows ==> |g[r]| == cols
  }

  /** The number of columns of a grid (0 for a grid without rows). */
  function Cols<T>(g: seq<seq<T>>): nat {
    if |g| == 0 then 0 else |g[0]|
  }

  /** `g` has at least `height` rows, each with at least `width` entries. */
  predicate Covers<T>(g: seq<seq<T>>, height: nat, width: nat) {
    height <= |g| && forall r :: 0 <= r < height ==> width <= |g[r]|
  }

  /** `p` lies in the `height` x `width` region anchored at the top-left corner. */
  predicate InRegion(p: Pos, height: int, width: int) {
    0 <= p.row < height && 0 <= p.col < width
  }

  /** The entry of `g` at `p`. */
  function At<T>(g: seq<seq<T>>, p: Pos): T
    requires 0 <= p.row < |g| && 0 <= p.col < |g[p.row]|
  {
    g[p.row][p.col]
  }

  /** The sub-grid of `h` rows and `w` columns whose top-left corner is
      `(top, left)`: the view `Mat(g, Rect(left, top, w, h))`. */
  function Block<T>(g: seq<seq<T>>, top: nat, left: nat, h: nat, w: nat): (b: seq<seq<T>>)
    requires top + h <= |g|
    requires forall r :: top <= r < top + h ==> left + w <= |g[r]|
    ensures IsGrid(b, h, w)
    ensures forall r, c :: 0 <= r < h && 0 <= c < w ==> b[r][c] == g[top + r][left + c]
  {
    seq(h, r requires 0 <= r < h => g[top + r][left .. left + w])
  }

  /** Row `r` of a block is a slice of row `top + r` of the grid. */
  lemma BlockRow<T>(g: seq<seq<T>>, top: nat, left: nat, h: nat, w: nat, r: nat)
    requires top + h <= |g|
    requires forall r :: top <= r < top + h ==> left + w <= |g[r]|
    requires r < h
    ensures Block(g, top, left, h, w)[r] == g[top + r][left .. left + w]
  {
  }

  /** `vconcat`: the rows of `a` followed by the rows of `b`. */
  function VConcat<T>(a: seq<seq<T>>, b: seq<seq<T>>): seq<seq<T>> {
    a + b
  }

  /** `hconcat`: each row of `a` extended by the row of `b` beside it. */
  function HConcat<T>(a: seq<seq<T>>, b: seq<seq<T>>): (g: seq<seq<T>>)
    requires |a| == |b|
    ensures |g| == |a|
    ensures forall r :: 0 <= r < |a| ==> g[r] == a[r] + b[r]
  {
    seq(|a|, r requires 0 <= r < |a| => a[r] + b[r])
  }

  /** Reducing a value of `[0, n)` modulo `n` leaves it alone. */
  lemma ModBelow(x: int, n: int)
    requires 0 <= x < n
    ensures x % n == x
  {
  }

  /** Reducing a value of `[n, 2n)` modulo `n` subtracts `n` once. */
  lemma ModWrap(x: int, n: int)
    requires 0 < n <= x < 2 * n
    ensures x % n == x - n
  {
    ModBelow(x - n, n);
    assert (x - n) % n == x % n;
  }
}
