/** The quadrant swap `ofApp::fftshift`: the zero-frequency entry moves from
    the top-left corner to the centre of the grid. */
module Shift {
  import opened Grids

  /** Reference definition: the grid whose entry `(r, c)` is the entry of `g`
      `dr` rows and `dc` columns further on, both indices wrapping round. */
  function CyclicShift<T>(g: seq<seq<T>>, dr: nat, dc: nat): (out: seq<seq<T>>)
    requires IsGrid(g, |g|, Cols(g))
    ensures IsGrid(out, |g|, Cols(g))
  {
    seq(|g|, r requires 0 <= r < |g| =>
      seq(Cols(g), c requires 0 <= c < Cols(g) => g[(r + dr) % |g|][(c + dc) % Cols(g)]))
  }

  /** `fftshift(in, out)`: split `in` into four blocks at `ceil(rows/2)` and
      `ceil(cols/2)`, exchange the diagonal blocks through `tmp`, and glue the
      pieces back together with `vconcat` and `hconcat`. The result is a fresh
      grid; `in` is only read (the source works on `in.clone()`). */
  function FftShift<T>(g: seq<seq<T>>): (out: seq<seq<T>>)
    requires IsGrid(g, |g|, Cols(g))
    ensures IsGrid(out, |g|, Cols(g))
  {
    var rows, cols := |g|, Cols(g);
    var mx1, my1 := cols / 2, rows / 2;
    var mx2, my2 := (cols + 1) / 2, (rows + 1) / 2;  // int(ceil(n / 2.0))
    var q0 := Block(g, 0, 0, my2, mx2);
    var q1 := Block(g, 0, mx2, my2, mx1);
    var q2 := Block(g, my2, 0, my1, mx2);
    var q3 := Block(g, my2, mx2, my1, mx1);
    // the two exchanges through tmp: q0 <-> q3, then q1 <-> q2
    var s0, s3 := q3, q0;
    var s1, s2 := q2, q1;
    // vconcat(q1, q3, out); vconcat(q0, q2, tmp); hconcat(tmp, out, out)
    HConcat(VConcat(s0, s2), VConcat(s1, s3))
  }

  /** The two columns of blocks `FftShift` glues side by side. */
  lemma FftShiftLayout<T>(g: seq<seq<T>>)
    requires IsGrid(g, |g|, Cols(g))
    ensures var rows, cols := |g|, Cols(g);
            var mx1, my1, mx2, my2 := cols / 2, rows / 2, (cols + 1) / 2, (rows + 1) / 2;
            FftShift(g) == HConcat(VConcat(Block(g, my2, mx2, my1, mx1), Block(g, 0, mx2, my2, mx1)),
                                   VConcat(Block(g, my2, 0, my1, mx2), Block(g, 0, 0, my2, mx2)))
  {
  }

  /** Row `r` of the lower half of the input stacked on its upper half, taken
      between columns `left` and `left + w`: input row `(r + ceil(rows/2)) % rows`. */
  lemma StackedRow<T>(g: seq<seq<T>>, left: nat, w: nat, r: nat)
    requires IsGrid(g, |g|, Cols(g)) && r < |g| && left + w <= Cols(g)
    ensures var my1, my2 := |g| / 2, (|g| + 1) / 2;
            VConcat(Block(g, my2, left, my1, w), Block(g, 0, left, my2, w))[r]
              == g[(r + my2) % |g|][left .. left + w]
  {
    var rows, my1, my2 := |g|, |g| / 2, (|g| + 1) / 2;
    if r < my1 {
      ModBelow(r + my2, rows);
      BlockRow(g, my2, left, my1, w, r);
    } else {
      ModWrap(r + my2, rows);
      BlockRow(g, 0, left, my2, w, r - my1);
    }
  }

  /** One row of the quadrant swap: row `(r + ceil(rows/2)) % rows` of the
      input, rotated left by `ceil(cols/2)`. */
  lemma FftShiftRow<T>(g: seq<seq<T>>, r: nat)
    requires IsGrid(g, |g|, Cols(g)) && r < |g|
    ensures var sr, mx2 := (r + (|g| + 1) / 2) % |g|, (Cols(g) + 1) / 2;
            FftShift(g)[r] == g[sr][mx2..] + g[sr][..mx2]
  {
    var cols := Cols(g);
    var mx1, mx2 := cols / 2, (cols + 1) / 2;
    FftShiftLayout(g);
    StackedRow(g, mx2, mx1, r);
    StackedRow(g, 0, mx2, r);
  }

  /** One entry of the quadrant swap: `out[r][c] == in[(r + ceil(rows/2)) % rows][(c + ceil(cols/2)) % cols]`. */
  lemma FftShiftAt<T>(g: seq<seq<T>>, r: nat, c: nat)
    requires IsGrid(g, |g|, Cols(g)) && r < |g| && c < Cols(g)
    ensures FftShift(g)[r][c] == g[(r + (|g| + 1) / 2) % |g|][(c + (Cols(g) + 1) / 2) % Cols(g)]
  {
    var cols := Cols(g);
    var mx1, mx2 := cols / 2, (cols + 1) / 2;
    var sr := (r + (|g| + 1) / 2) % |g|;
    FftShiftRow(g, r);
    if c < mx1 {
      ModBelow(c + mx2, cols);
    } else {
      ModWrap(c + mx2, cols);
    }
  }

  /** The quadrant swap is the cyclic shift by the larger halves, for even and
      odd sizes alike. */
  lemma FftShiftIsCyclicShift<T>(g: seq<seq<T>>)
    requires IsGrid(g, |g|, Cols(g))
    ensures FftShift(g) == CyclicShift(g, (|g| + 1) / 2, (Cols(g) + 1) / 2)
  {
    var out, ref := FftShift(g), CyclicShift(g, (|g| + 1) / 2, (Cols(g) + 1) / 2);
    forall r | 0 <= r < |g|
      ensures out[r] == ref[r]
    {
      forall c | 0 <= c < Cols(g)
        ensures out[r][c] == ref[r][c]
      {
        FftShiftAt(g, r, c);
      }
    }
  }

  /** Moving on by `a` and then by `b`, where `a + b == n`, goes once round
      the cycle. */
  lemma GoRound(x: nat, a: nat, b: nat, n: nat)
    requires x < n && a + b == n
    ensures ((x + a) % n + b) % n == x
  {
    if x + a < n {
      ModBelow(x + a, n);
      ModWrap(x + a + b, n);
    } else {
      ModWrap(x + a, n);
      ModBelow(x + a - n + b, n);
    }
  }

  /** Shifting by `(dr, dc)` and then by the rest of the way round gives the
      grid back. */
  lemma CyclicShiftRound<T>(g: seq<seq<T>>, dr: nat, dc: nat, er: nat, ec: nat)
    requires IsGrid(g, |g|, Cols(g)) && dr + er == |g| && dc + ec == Cols(g)
    ensures var once := CyclicShift(g, dr, dc);
            Cols(once) == Cols(g) && CyclicShift(once, er, ec) == g
  {
    var rows, cols := |g|, Cols(g);
    var once := CyclicShift(g, dr, dc);
    assert Cols(once) == cols;
    var back := CyclicShift(once, er, ec);
    forall r | 0 <= r < rows
      ensures back[r] == g[r]
    {
      forall c | 0 <= c < cols
        ensures back[r][c] == g[r][c]
      {
        var r1, c1 := (r + er) % rows, (c + ec) % cols;
        assert back[r][c] == once[r1][c1];
        assert once[r1][c1] == g[(r1 + dr) % rows][(c1 + dc) % cols];
        GoRound(r, er, dr, rows);
        GoRound(c, ec, dc, cols);
      }
    }
  }

  /** Every entry keeps its place in the cyclic order: shifting the result on
      by the smaller halves gives the input back, for every size. So the quadrant
      swap is a permutation of the entries, and shifting by the smaller halves
      undoes it. */
  lemma FftShiftInverse<T>(g: seq<seq<T>>)
    requires IsGrid(g, |g|, Cols(g))
    ensures CyclicShift(FftShift(g), |g| / 2, Cols(g) / 2) == g
  {
    FftShiftIsCyclicShift(g);
    CyclicShiftRound(g, (|g| + 1) / 2, (Cols(g) + 1) / 2, |g| / 2, Cols(g) / 2);
  }

  /** Moving on twice by `a`, where `2 * a` is `n` rounded up to even, moves
      on by one when `n` is odd and not at all when `n` is even. */
  lemma TwiceMod(x: nat, a: nat, n: nat)
    requires x < n && 2 * a == n + n % 2
    ensures ((x + a) % n + a) % n == (x + n % 2) % n
  {
    if x + a < n {
      ModBelow(x + a, n);
      ModWrap(x + a + a, n);
      if n % 2 == 1 { ModBelow(x + 1, n); } else { ModBelow(x, n); }
    } else {
      ModWrap(x + a, n);
      if x + a - n + a < n {
        ModBelow(x + a - n + a, n);
      } else {
        ModWrap(x + a - n + a, n);
      }
      if n % 2 == 1 {
        if x + 1 < n { ModBelow(x + 1, n); } else { ModWrap(x + 1, n); }
      } else {
        ModBelow(x, n);
      }
    }
  }

  /** Shifting twice by the larger halves is shifting by one along every odd
      side and by nothing along every even side. */
  lemma CyclicShiftTwice<T>(g: seq<seq<T>>, dr: nat, dc: nat)
    requires IsGrid(g, |g|, Cols(g))
    requires 2 * dr == |g| + |g| % 2 && 2 * dc == Cols(g) + Cols(g) % 2
    ensures var once := CyclicShift(g, dr, dc);
            Cols(once) == Cols(g) && CyclicShift(once, dr, dc) == CyclicShift(g, |g| % 2, Cols(g) % 2)
  {
    var rows, cols := |g|, Cols(g);
    var once := CyclicShift(g, dr, dc);
    assert Cols(once) == cols;
    var twice, ref := CyclicShift(once, dr, dc), CyclicShift(g, rows % 2, cols % 2);
    forall r | 0 <= r < rows
      ensures twice[r] == ref[r]
    {
      forall c | 0 <= c < cols
        ensures twice[r][c] == ref[r][c]
      {
        var r1, c1 := (r + dr) % rows, (c + dc) % cols;
        assert twice[r][c] == once[r1][c1];
        assert once[r1][c1] == g[(r1 + dr) % rows][(c1 + dc) % cols];
        TwiceMod(r, dr, rows);
        TwiceMod(c, dc, cols);
      }
    }
  }

  /** Swapping twice is the cyclic shift by one along every odd side and by
      nothing along every even side. */
  lemma FftShiftTwice<T>(g: seq<seq<T>>)
    requires IsGrid(g, |g|, Cols(g))
    ensures FftShift(FftShift(g)) == CyclicShift(g, |g| % 2, Cols(g) % 2)
  {
    var once := FftShift(g);
    FftShiftIsCyclicShift(g);
    assert Cols(once) == Cols(g);
    FftShiftIsCyclicShift(once);
    CyclicShiftTwice(g, (|g| + 1) / 2, (Cols(g) + 1) / 2);
  }

  /** The quadrant swap undoes itself when every odd side has length 1, in
      particular when both sides are even. */
  lemma FftShiftSelfInverse<T>(g: seq<seq<T>>)
    requires IsGrid(g, |g|, Cols(g))
    requires (|g| % 2 == 0 || |g| == 1) && (Cols(g) % 2 == 0 || Cols(g) == 1)
    ensures FftShift(FftShift(g)) == g
  {
    var rows, cols := |g|, Cols(g);
    FftShiftTwice(g);
    var ref := CyclicShift(g, rows % 2, cols % 2);
    forall r | 0 <= r < rows
      ensures ref[r] == g[r]
    {
      forall c | 0 <= c < cols
        ensures ref[r][c] == g[r][c]
      {
        if rows == 1 { ModWrap(r + 1, rows); } else { ModBelow(r, rows); }
        if cols == 1 { ModWrap(c + 1, cols); } else { ModBelow(c, cols); }
      }
    }
  }

  /** Along an odd side longer than 1 swapping twice does move entries: the
      grid of positions does not come back. */
  lemma FftShiftTwiceMoves(rows: nat, cols: nat)
    requires rows > 0 && cols > 0
    requires (rows % 2 == 1 && rows > 1) || (cols % 2 == 1 && cols > 1)
    ensures var g := seq(rows, r => seq(cols, c => Pos(r, c)));
            FftShift(FftShift(g)) != g
  {
    var g: seq<seq<Pos>> := seq(rows, r => seq(cols, c => Pos(r, c)));
    assert IsGrid(g, rows, cols) && Cols(g) == cols;
    FftShiftTwice(g);
    var twice: seq<seq<Pos>> := FftShift(FftShift(g));
    assert twice[0][0] == g[(rows % 2) % rows][(cols % 2) % cols];
    if rows % 2 == 1 && rows > 1 {
      ModBelow(1, rows);
      assert twice[0][0].row == 1;
    } else {
      ModBelow(1, cols);
      assert twice[0][0].col == 1;
    }
    assert twice[0][0] != g[0][0];
  }

  /** The zero-frequency entry `in[0][0]` lands at `(rows/2, cols/2)`. */
  lemma FftShiftCentre<T>(g: seq<seq<T>>)
    requires IsGrid(g, |g|, Cols(g)) && |g| > 0 && Cols(g) > 0
    ensures FftShift(g)[|g| / 2][Cols(g) / 2] == g[0][0]
  {
    FftShiftIsCyclicShift(g);
    assert |g| / 2 + (|g| + 1) / 2 == |g|;
    assert Cols(g) / 2 + (Cols(g) + 1) / 2 == Cols(g);
  }
}
