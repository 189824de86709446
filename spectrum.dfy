/** What one call of `ofApp::update` writes, and what the accumulation buffer
    holds after a number of calls, as functions of the coefficient grid and the
    ranking. */
module Spectrum {
  import opened Grids

  /** A `Vec2f` entry of a `CV_32FC2` matrix: real and imaginary part. The
      float components are modelled as reals. */
  datatype Complex = Complex(re: real, im: real)

  /** `Mat::zeros`' entry. */
  const Zero := Complex(0.0, 0.0)

  /** `Vec2f conjugate(value[0], -value[1])`. */
  function Conj(z: Complex): Complex {
    Complex(z.re, -z.im)
  }

  /** Conjugating twice gives the value back. */
  lemma ConjInvolutive(z: Complex)
    ensures Conj(Conj(z)) == z
  {
  }

  /** The conjugate partner of `(i, j)`, mirrored about the image size
      `height` x `width` (not the padded transform size): a zero coordinate
      stays zero, any other coordinate `x` of an `n`-long side becomes
      `n - x`. */
  function ConjPos(p: Pos, height: int, width: int): (q: Pos)
    requires InRegion(p, height, width)
    ensures InRegion(q, height, width)
  {
    Pos(if p.row == 0 then 0 else height - p.row, if p.col == 0 then 0 else width - p.col)
  }

  /** The partner is the source's index `((height - i) % height, (width - j) % width)`.
      Both operands of `%` are positive there, so C++'s truncating `%` and
      Dafny's agree. */
  lemma ConjPosIsModulo(p: Pos, height: int, width: int)
    requires InRegion(p, height, width)
    ensures ConjPos(p, height, width) == Pos((height - p.row) % height, (width - p.col) % width)
  {
    if p.row == 0 { ModWrap(height, height); } else { ModBelow(height - p.row, height); }
    if p.col == 0 { ModWrap(width, width); } else { ModBelow(width - p.col, width); }
  }

  /** The conjugate partner of the conjugate partner is the position itself. */
  lemma ConjPosInvolutive(p: Pos, height: int, width: int)
    requires InRegion(p, height, width)
    ensures ConjPos(ConjPos(p, height, width), height, width) == p
  {
  }

  /** The entry at `p` after `buf[i][j] = value` and then
      `buf[conjugate index] = conjugate` over a previous entry `prev`: the
      conjugate, written second, wins where the two indices coincide. */
  function Written(q: Pos, v: Complex, height: int, width: int, p: Pos, prev: Complex): Complex
    requires InRegion(q, height, width)
  {
    if p == ConjPos(q, height, width) then Conj(v) else if p == q then v else prev
  }

  /** The state `setup` fixes for the steps: the coefficient grid `fftMat`,
      the ranking `sortedIndices` and the image size. */
  datatype Decomposition = Decomposition(fftMat: seq<seq<Complex>>, sortedIndices: seq<Pos>, height: nat, width: nat)
  {
    /** The coefficient grid covers the image region and every ranked
        position lies in that region. */
    ghost predicate Valid() {
      Covers(fftMat, height, width)
      && forall k :: 0 <= k < |sortedIndices| ==> InRegion(sortedIndices[k], height, width)
    }

    /** `steps` updates can all have done their work: the last one read
        ranking position `2 * (steps - 1)`. */
    ghost predicate CanStep(steps: nat) {
      2 * steps <= |sortedIndices| + 1
    }

    /** The ranked position that update number `t` (from 0) applies: only the
        even positions of the ranking are ever applied. */
    function Applied(t: nat): Pos
      requires 2 * t < |sortedIndices|
    {
      sortedIndices[2 * t]
    }

    /** Update number `t` writes to `p`. */
    ghost predicate Touches(t: nat, p: Pos)
      requires Valid() && 2 * t < |sortedIndices|
    {
      p == Applied(t) || p == ConjPos(Applied(t), height, width)
    }

    /** Entry `p` of `frameMat` after `steps` updates, starting from zeros. */
    function Accumulated(steps: nat, p: Pos): Complex
      requires Valid() && CanStep(steps)
    {
      if steps == 0 then Zero
      else
        var q := Applied(steps - 1);
        Written(q, At(fftMat, q), height, width, p, Accumulated(steps - 1, p))
    }

    /** Entry `p` of `waveMat` after `steps` updates: zero except for what the
        last update wrote. */
    function Current(steps: nat, p: Pos): Complex
      requires Valid() && CanStep(steps)
    {
      if steps == 0 then Zero
      else
        var q := Applied(steps - 1);
        Written(q, At(fftMat, q), height, width, p, Zero)
    }

    /** The coefficient grid pairs every coefficient of the region with the
        conjugate at its conjugate partner (Hermitian symmetry about the image
        size). */
    ghost predicate Hermitian()
      requires Valid()
    {
      forall q {:trigger ConjPos(q, height, width)} :: InRegion(q, height, width) ==> At(fftMat, ConjPos(q, height, width)) == Conj(At(fftMat, q))
    }
  }

  /** Updates that do not touch `p` leave its accumulated entry alone. */
  lemma {:induction false} AccumulatedStable(d: Decomposition, s1: nat, s2: nat, p: Pos)
    requires d.Valid() && s1 <= s2 && d.CanStep(s2)
    requires forall t :: s1 <= t < s2 ==> !d.Touches(t, p)
    ensures d.Accumulated(s2, p) == d.Accumulated(s1, p)
  {
    if s1 < s2 {
      assert !d.Touches(s2 - 1, p);
      AccumulatedStable(d, s1, s2 - 1, p);
    }
  }

  /** An entry that no update so far has touched is still zero: the
      accumulation buffer is non-zero only at applied positions and their
      conjugate partners. */
  lemma AccumulatedUntouched(d: Decomposition, steps: nat, p: Pos)
    requires d.Valid() && d.CanStep(steps)
    requires forall t :: 0 <= t < steps ==> !d.Touches(t, p)
    ensures d.Accumulated(steps, p) == Zero
  {
    AccumulatedStable(d, 0, steps, p);
  }

  /** After update `t`, the applied position holds its coefficient (unless it
      is its own partner) and the partner holds the conjugate; later updates
      that do not touch them keep these values. */
  lemma AccumulatedLastWrite(d: Decomposition, t: nat, steps: nat)
    requires d.Valid() && t < steps && d.CanStep(steps)
    requires var q := d.Applied(t);
             forall u :: t < u < steps ==> !d.Touches(u, q) && !d.Touches(u, ConjPos(q, d.height, d.width))
    ensures var q := d.Applied(t);
            var v := At(d.fftMat, q);
            var cq := ConjPos(q, d.height, d.width);
            d.Accumulated(steps, cq) == Conj(v)
            && (q != cq ==> d.Accumulated(steps, q) == v)
  {
    var q := d.Applied(t);
    AccumulatedStable(d, t + 1, steps, q);
    AccumulatedStable(d, t + 1, steps, ConjPos(q, d.height, d.width));
  }

  /** A self-partnered coefficient of a Hermitian grid is its own conjugate
      (its imaginary part is zero), so the two writes of an update agree there. */
  lemma HermitianFixedPoint(d: Decomposition, q: Pos)
    requires d.Valid() && d.Hermitian() && InRegion(q, d.height, d.width)
    requires ConjPos(q, d.height, d.width) == q
    ensures Conj(At(d.fftMat, q)) == At(d.fftMat, q)
  {
  }

  /** One update keeps the accumulation buffer Hermitian at `p`. */
  lemma HermitianStep(d: Decomposition, steps: nat, p: Pos)
    requires d.Valid() && d.CanStep(steps) && steps > 0 && d.Hermitian() && InRegion(p, d.height, d.width)
    requires d.Accumulated(steps - 1, ConjPos(p, d.height, d.width)) == Conj(d.Accumulated(steps - 1, p))
    ensures d.Accumulated(steps, ConjPos(p, d.height, d.width)) == Conj(d.Accumulated(steps, p))
  {
    var h, w := d.height, d.width;
    var cp := ConjPos(p, h, w);
    var q := d.Applied(steps - 1);
    var v := At(d.fftMat, q);
    var cq := ConjPos(q, h, w);
    ConjPosInvolutive(p, h, w);
    ConjPosInvolutive(q, h, w);
    if q == cq {
      HermitianFixedPoint(d, q);
    }
  }

  /** When the coefficient grid is Hermitian, every number of updates leaves
      the accumulation buffer Hermitian on the image region: the entry at the
      conjugate partner is the conjugate of the entry. */
  lemma {:induction false} AccumulatedHermitian(d: Decomposition, steps: nat, p: Pos)
    requires d.Valid() && d.CanStep(steps) && d.Hermitian() && InRegion(p, d.height, d.width)
    ensures d.Accumulated(steps, ConjPos(p, d.height, d.width)) == Conj(d.Accumulated(steps, p))
  {
    if steps > 0 {
      AccumulatedHermitian(d, steps - 1, p);
      HermitianStep(d, steps, p);
    }
  }

  /** `waveMat` agrees with `frameMat` where the last update wrote, and is
      zero everywhere else. */
  lemma CurrentIsLastWrite(d: Decomposition, steps: nat, p: Pos)
    requires d.Valid() && d.CanStep(steps) && steps > 0
    ensures d.Current(steps, p) == if d.Touches(steps - 1, p) then d.Accumulated(steps, p) else Zero
  {
  }

  /** A `rows` x `cols` grid of zeros (`Mat::zeros`). */
  function Zeros(rows: nat, cols: nat): (g: seq<seq<Complex>>)
    ensures IsGrid(g, rows, cols)
    ensures forall r, c :: 0 <= r < rows && 0 <= c < cols ==> g[r][c] == Zero
  {
    seq(rows, r requires 0 <= r < rows => seq(cols, c requires 0 <= c < cols => Zero))
  }

  /** A whole buffer after `buf(i, j) = value; buf(conjugate index) = conjugate`. */
  function PutPair(g: seq<seq<Complex>>, q: Pos, v: Complex, height: nat, width: nat): (out: seq<seq<Complex>>)
    requires InRegion(q, height, width)
    ensures |out| == |g| && forall r :: 0 <= r < |g| ==> |out[r]| == |g[r]|
  {
    seq(|g|, r requires 0 <= r < |g| =>
      seq(|g[r]|, c requires 0 <= c < |g[r]| => Written(q, v, height, width, Pos(r, c), g[r][c])))
  }

  /** The two writes of an update: the conjugate partner holds the conjugate,
      the position itself holds the value unless it is its own partner, and
      every other entry is unchanged. The partner lies in the image region. */
  lemma PutPairAt(g: seq<seq<Complex>>, q: Pos, v: Complex, height: nat, width: nat)
    requires InRegion(q, height, width) && Covers(g, height, width)
    ensures var out, cq := PutPair(g, q, v, height, width), ConjPos(q, height, width);
            InRegion(cq, height, width)
            && out[cq.row][cq.col] == Conj(v)
            && (q != cq ==> out[q.row][q.col] == v)
            && forall r, c :: 0 <= r < |g| && 0 <= c < |g[r]| && Pos(r, c) != q && Pos(r, c) != cq ==>
                 out[r][c] == g[r][c]
  {
  }

  /** `frameMat` after `steps` updates, as a `rows` x `cols` grid. */
  function AccumulatedGrid(d: Decomposition, steps: nat, rows: nat, cols: nat): (g: seq<seq<Complex>>)
    requires d.Valid() && d.CanStep(steps)
    ensures IsGrid(g, rows, cols)
  {
    seq(rows, r requires 0 <= r < rows => seq(cols, c requires 0 <= c < cols => d.Accumulated(steps, Pos(r, c))))
  }

  /** `waveMat` after `steps` updates, as a `rows` x `cols` grid. */
  function CurrentGrid(d: Decomposition, steps: nat, rows: nat, cols: nat): (g: seq<seq<Complex>>)
    requires d.Valid() && d.CanStep(steps)
    ensures IsGrid(g, rows, cols)
  {
    seq(rows, r requires 0 <= r < rows => seq(cols, c requires 0 <= c < cols => d.Current(steps, Pos(r, c))))
  }

  /** Before any update both buffers are zero. */
  lemma GridsStartZero(d: Decomposition, rows: nat, cols: nat)
    requires d.Valid()
    ensures AccumulatedGrid(d, 0, rows, cols) == Zeros(rows, cols)
    ensures CurrentGrid(d, 0, rows, cols) == Zeros(rows, cols)
  {
    assert forall r :: 0 <= r < rows ==> AccumulatedGrid(d, 0, rows, cols)[r] == Zeros(rows, cols)[r];
    assert forall r :: 0 <= r < rows ==> CurrentGrid(d, 0, rows, cols)[r] == Zeros(rows, cols)[r];
  }

  /** Update number `steps` writes its pair over the accumulation buffer, and
      over a zero buffer for the current component. */
  lemma GridsNext(d: Decomposition, steps: nat, rows: nat, cols: nat)
    requires d.Valid() && d.CanStep(steps + 1)
    ensures var q := d.Applied(steps);
            AccumulatedGrid(d, steps + 1, rows, cols)
              == PutPair(AccumulatedGrid(d, steps, rows, cols), q, At(d.fftMat, q), d.height, d.width)
            && CurrentGrid(d, steps + 1, rows, cols)
              == PutPair(Zeros(rows, cols), q, At(d.fftMat, q), d.height, d.width)
  {
    var q := d.Applied(steps);
    var v := At(d.fftMat, q);
    var after, before := AccumulatedGrid(d, steps + 1, rows, cols), AccumulatedGrid(d, steps, rows, cols);
    var put := PutPair(before, q, v, d.height, d.width);
    forall r | 0 <= r < rows
      ensures after[r] == put[r]
    {
      assert forall c :: 0 <= c < cols ==> after[r][c] == put[r][c];
    }
    var wave, zput := CurrentGrid(d, steps + 1, rows, cols), PutPair(Zeros(rows, cols), q, v, d.height, d.width);
    forall r | 0 <= r < rows
      ensures wave[r] == zput[r]
    {
      assert forall c :: 0 <= c < cols ==> wave[r][c] == zput[r][c];
    }
  }
}
