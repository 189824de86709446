/** Zero padding of the mean-removed image to the transform size:
    `copyMakeBorder(img, padded, 0, m - rows, 0, n - cols, BORDER_CONSTANT, 0)`. */
module Padding {
  import opened Grids

  /** `count` copies of `zero`. */
  function Fill<T>(count: nat, zero: T): (s: seq<T>)
    ensures |s| == count && forall k :: 0 <= k < count ==> s[k] == zero
  {
    if count == 0 then [] else Fill(count - 1, zero) + [zero]
  }

  /** One row extended on the right with `zero` up to length `n`. */
  function PadRow<T>(row: seq<T>, n: nat, zero: T): (s: seq<T>)
    requires |row| <= n
    ensures |s| == n
    ensures forall c :: 0 <= c < n ==> s[c] == if c < |row| then row[c] else zero
  {
    row + Fill(n - |row|, zero)
  }

  /** Pads a `rows` x `cols` grid to `m` x `n`: a border of `zero` only on the
      bottom (`m - rows` rows) and on the right (`n - cols` columns). */
  function Pad<T>(g: seq<seq<T>>, rows: nat, cols: nat, m: nat, n: nat, zero: T): (p: seq<seq<T>>)
    requires IsGrid(g, rows, cols) && rows <= m && cols <= n
    ensures IsGrid(p, m, n)
    ensures forall r, c :: 0 <= r < m && 0 <= c < n && !(r < rows && c < cols) ==> p[r][c] == zero
  {
    var p := seq(m, r requires 0 <= r < m => if r < rows then PadRow(g[r], n, zero) else Fill(n, zero));
    assert forall r :: 0 <= r < m ==> p[r] == if r < rows then PadRow(g[r], n, zero) else Fill(n, zero);
    p
  }

  /** The top-left `rows` x `cols` block of the padded grid is the original
      image: cropping undoes padding. */
  lemma CropPad<T>(g: seq<seq<T>>, rows: nat, cols: nat, m: nat, n: nat, zero: T)
    requires IsGrid(g, rows, cols) && rows <= m && cols <= n
    ensures Block(Pad(g, rows, cols, m, n, zero), 0, 0, rows, cols) == g
  {
    var p := Pad(g, rows, cols, m, n, zero);
    var b := Block(p, 0, 0, rows, cols);
    forall r | 0 <= r < rows
      ensures b[r] == g[r]
    {
      assert p[r] == PadRow(g[r], n, zero);
      assert forall c :: 0 <= c < cols ==> b[r][c] == g[r][c];
    }
  }
}
