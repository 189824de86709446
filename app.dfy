/** The state `ofApp` keeps for the progressive reconstruction, and the step
    `ofApp::update` takes on it. */
module Reconstruction {
  import opened Grids
  import opened Ranking
  import opened Spectrum

  class App {
    /** Image size (`height`, `width`), fixed by `setup`. */
    const height: nat
    const width: nat
    /** The coefficient grid of the padded image; read-only after `setup`. */
    const fftMat: seq<seq<Complex>>
    /** The ranking built by `setup`. */
    const sortedIndices: seq<Pos>
    /** Accumulation buffer, the size of `fftMat`, updated in place. */
    const frameMat: array2<Complex>
    /** Current-component buffer; every update zeroes it before its two writes. */
    var waveMat: array2<Complex>
    /** Position in `sortedIndices` of the next coefficient to add. */
    var currentIndex: nat
    /** The number of updates that have done their work so far. */
    ghost var applied: nat

    /** The read-only part of the state as a value. */
    function Coefficients(): Decomposition {
      Decomposition(fftMat, sortedIndices, height, width)
    }

    /** The contents of a buffer as a grid value. */
    static ghost function Snapshot(a: array2<Complex>): (g: seq<seq<Complex>>)
      reads a
      ensures IsGrid(g, a.Length0, a.Length1)
      ensures forall r, c :: 0 <= r < a.Length0 && 0 <= c < a.Length1 ==> g[r][c] == a[r, c]
    {
      seq(a.Length0, r requires 0 <= r < a.Length0 reads a =>
        seq(a.Length1, c requires 0 <= c < a.Length1 reads a => a[r, c]))
    }

    /** The two writes `update` makes on a buffer: `buf(i, j) = value` and
        `buf((height - i) % height, (width - j) % width) = conjugate`. */
    static method WritePair(a: array2<Complex>, q: Pos, value: Complex, height: nat, width: nat)
      requires InRegion(q, height, width) && height <= a.Length0 && width <= a.Length1
      modifies a
      ensures Snapshot(a) == PutPair(old(Snapshot(a)), q, value, height, width)
    {
      ghost var before := Snapshot(a);
      var i, j := q.row, q.col;
      var ci, cj := (height - i) % height, (width - j) % width;
      ConjPosIsModulo(q, height, width);
      ghost var cq := Pos(ci, cj);
      assert cq == ConjPos(q, height, width);
      a[i, j] := value;
      a[ci, cj] := Complex(value.re, -value.im);
      forall r, c | 0 <= r < a.Length0 && 0 <= c < a.Length1 && Pos(r, c) != q && Pos(r, c) != cq
        ensures a[r, c] == before[r][c]
      {
        assert a[r, c] == old(a[r, c]);
      }
      SnapshotOfPair(a, before, q, value, height, width);
    }

    /** `Mat::zeros(m, n, CV_32FC2)`: a buffer of the given size holding zero
        everywhere. The model allocates a new one. */
    static method ZeroBuffer(m: nat, n: nat) returns (a: array2<Complex>)
      ensures fresh(a) && a.Length0 == m && a.Length1 == n
      ensures Snapshot(a) == Zeros(m, n)
    {
      a := new Complex[m, n]((r, c) => Zero);
      SnapshotOfZeros(a);
    }

    /** A buffer whose every entry is zero is the zero grid. */
    static lemma SnapshotOfZeros(a: array2<Complex>)
      requires forall r, c :: 0 <= r < a.Length0 && 0 <= c < a.Length1 ==> a[r, c] == Zero
      ensures Snapshot(a) == Zeros(a.Length0, a.Length1)
    {
      assert forall r :: 0 <= r < a.Length0 ==> Snapshot(a)[r] == Zeros(a.Length0, a.Length1)[r];
    }

    /** A buffer that holds the pair written at `q` and its partner, and agrees
        with `before` everywhere else, is `PutPair(before, ...)`. */
    static lemma SnapshotOfPair(a: array2<Complex>, before: seq<seq<Complex>>, q: Pos, v: Complex, height: nat, width: nat)
      requires InRegion(q, height, width) && height <= a.Length0 && width <= a.Length1
      requires IsGrid(before, a.Length0, a.Length1)
      requires var cq := ConjPos(q, height, width);
               a[cq.row, cq.col] == Conj(v) && (q != cq ==> a[q.row, q.col] == v)
               && forall r, c :: 0 <= r < a.Length0 && 0 <= c < a.Length1 && Pos(r, c) != q && Pos(r, c) != cq ==>
                    a[r, c] == before[r][c]
      ensures Snapshot(a) == PutPair(before, q, v, height, width)
    {
      var after, put := Snapshot(a), PutPair(before, q, v, height, width);
      forall r | 0 <= r < a.Length0
        ensures after[r] == put[r]
      {
        assert forall c :: 0 <= c < a.Length1 ==> after[r][c] == put[r][c];
      }
    }

    /** The buffers have the size of the coefficient grid, which holds the
        image region; the ranking stays in that region; the cursor is even
        (twice the number of updates applied) and at most one past the
        ranking; `frameMat` holds what the updates so far accumulated and
        `waveMat` what the last one wrote. */
    ghost predicate Valid()
      reads this, frameMat, waveMat
    {
      frameMat != waveMat
      && IsGrid(fftMat, frameMat.Length0, frameMat.Length1)
      && waveMat.Length0 == frameMat.Length0 && waveMat.Length1 == frameMat.Length1
      && height <= frameMat.Length0 && width <= frameMat.Length1
      && Coefficients().Valid()
      && currentIndex == 2 * applied && Coefficients().CanStep(applied)
      && Snapshot(frameMat) == AccumulatedGrid(Coefficients(), applied, frameMat.Length0, frameMat.Length1)
      && Snapshot(waveMat) == CurrentGrid(Coefficients(), applied, frameMat.Length0, frameMat.Length1)
    }

    /** Zero buffers of the coefficient grid's size, a ranking inside the
        region and a cursor at 0 make a valid start. */
    lemma StartValid()
      requires frameMat != waveMat
      requires IsGrid(fftMat, frameMat.Length0, frameMat.Length1)
      requires waveMat.Length0 == frameMat.Length0 && waveMat.Length1 == frameMat.Length1
      requires height <= frameMat.Length0 && width <= frameMat.Length1
      requires forall k :: 0 <= k < |sortedIndices| ==> InRegion(sortedIndices[k], height, width)
      requires currentIndex == 0 && applied == 0
      requires Snapshot(frameMat) == Zeros(frameMat.Length0, frameMat.Length1)
      requires Snapshot(waveMat) == Zeros(frameMat.Length0, frameMat.Length1)
      ensures Valid()
    {
      GridsStartZero(Coefficients(), frameMat.Length0, frameMat.Length1);
    }

    /** The end of `setup`: build the ranking from the magnitudes of the
        coefficients, zero both buffers at the size of the coefficient grid,
        start the cursor at 0. */
    constructor (fft: seq<seq<Complex>>, magnitudes: seq<seq<real>>, m: nat, n: nat, height: nat, width: nat)
      requires IsGrid(fft, m, n) && IsGrid(magnitudes, m, n) && height <= m && width <= n
      ensures Valid() && fresh(frameMat) && fresh(waveMat)
      ensures this.height == height && this.width == width && fftMat == fft
      ensures sortedIndices == RankingOf(magnitudes, height, width)
      ensures currentIndex == 0
      ensures Snapshot(frameMat) == Zeros(m, n) && Snapshot(waveMat) == Zeros(m, n)
    {
      this.height := height;
      this.width := width;
      fftMat := fft;
      var ranking := BuildRanking(magnitudes, height, width);
      sortedIndices := ranking;
      var frame := ZeroBuffer(m, n);
      var wave := ZeroBuffer(m, n);
      frameMat := frame;
      waveMat := wave;
      currentIndex := 0;
      applied := 0;
      new;
      StartValid();
    }

    /** Writing the pair of update number `applied - 1` over what the earlier
        updates accumulated, and over zeros for the current component, makes a
        valid state with `applied` updates done. */
    lemma StepValid()
      requires frameMat != waveMat
      requires IsGrid(fftMat, frameMat.Length0, frameMat.Length1)
      requires waveMat.Length0 == frameMat.Length0 && waveMat.Length1 == frameMat.Length1
      requires height <= frameMat.Length0 && width <= frameMat.Length1
      requires Coefficients().Valid()
      requires applied >= 1 && currentIndex == 2 * applied && Coefficients().CanStep(applied)
      requires var d, q := Coefficients(), Coefficients().Applied(applied - 1);
               Snapshot(frameMat) == PutPair(AccumulatedGrid(d, applied - 1, frameMat.Length0, frameMat.Length1),
                                             q, At(fftMat, q), height, width)
               && Snapshot(waveMat) == PutPair(Zeros(frameMat.Length0, frameMat.Length1), q, At(fftMat, q), height, width)
      ensures Valid()
    {
      GridsNext(Coefficients(), applied - 1, frameMat.Length0, frameMat.Length1);
    }

    /** `ofApp::update`: once the cursor has passed the ranking, nothing
        changes. Otherwise the coefficient at `sortedIndices[currentIndex]` and
        its conjugate at the conjugate index are written into `frameMat`,
        `waveMat` is replaced by a zero buffer holding just those two entries,
        and the cursor moves on by 2. */
    method Update()
      requires Valid()
      modifies this, frameMat
      ensures Valid()
      ensures old(currentIndex) >= |sortedIndices| ==>
                currentIndex == old(currentIndex) && waveMat == old(waveMat) && unchanged(frameMat)
      ensures old(currentIndex) < |sortedIndices| ==>
                var q := sortedIndices[old(currentIndex)];
                currentIndex == old(currentIndex) + 2 && fresh(waveMat)
                && Snapshot(frameMat) == PutPair(old(Snapshot(frameMat)), q, At(fftMat, q), height, width)
                && Snapshot(waveMat) == PutPair(Zeros(frameMat.Length0, frameMat.Length1), q, At(fftMat, q), height, width)
    {
      if currentIndex >= |sortedIndices| {
        return;
      }
      var q := sortedIndices[currentIndex];
      assert q == Coefficients().Applied(applied);
      var value := fftMat[q.row][q.col];
      WritePair(frameMat, q, value, height, width);
      waveMat := ZeroBuffer(frameMat.Length0, frameMat.Length1);
      WritePair(waveMat, q, value, height, width);
      currentIndex := currentIndex + 2;
      applied := applied + 1;
      StepValid();
    }
  }
}
