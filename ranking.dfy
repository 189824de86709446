/** The ranking built in `ofApp::setup`: every position of the image-sized
    region, ordered by descending `(magnitude, row, column)`. */
module Ranking {
  import opened Grids

  /** One element of `magnitudes`, a `tuple<float, int, int>` of
      `(magnitude, i, j)`. The float magnitude is modelled as a real. */
  datatype Entry = Entry(mag: real, row: int, col: int)

  /** `std::greater` on the tuples: lexicographic, magnitude first, then row,
      then column. */
  predicate Greater(a: Entry, b: Entry) {
    a.mag > b.mag || (a.mag == b.mag && (a.row > b.row || (a.row == b.row && a.col > b.col)))
  }

  /** `Greater` is a strict total order on the tuples: irreflexive,
      transitive, and it relates any two different tuples one way or the
      other. */
  lemma GreaterIsStrictTotal(a: Entry, b: Entry, c: Entry)
    ensures !Greater(a, a)
    ensures Greater(a, b) && Greater(b, c) ==> Greater(a, c)
    ensures a != b <==> Greater(a, b) || Greater(b, a)
  {
  }

  /** The order `std::sort` with `std::greater` leaves: no entry is greater
      than one before it. */
  predicate NonIncreasing(s: seq<Entry>) {
    forall k, l :: 0 <= k < l < |s| ==> !Greater(s[l], s[k])
  }

  /** No entry occurs twice. */
  ghost predicate Distinct<T>(s: seq<T>) {
    forall k, l :: 0 <= k < l < |s| ==> s[k] != s[l]
  }

  /** The entries the inner loop pushes for row `i`: `(mag[i][j], i, j)` for
      `j = 0 .. width - 1`. */
  function RowEntries(mag: seq<seq<real>>, i: nat, width: nat): (s: seq<Entry>)
    requires i < |mag| && width <= |mag[i]|
    ensures |s| == width
    ensures forall k :: 0 <= k < width ==> s[k] == Entry(mag[i][k], i, k)
  {
    if width == 0 then [] else RowEntries(mag, i, width - 1) + [Entry(mag[i][width - 1], i, width - 1)]
  }

  /** `magnitudes` once the nested loops over `i < height`, `j < width` are
      done, in row-major order. */
  function Enumerate(mag: seq<seq<real>>, height: nat, width: nat): seq<Entry>
    requires Covers(mag, height, width)
  {
    if height == 0 then []
    else Enumerate(mag, height - 1, width) + RowEntries(mag, height - 1, width)
  }

  /** One tuple per position of the region. */
  lemma {:induction false} EnumerateLength(mag: seq<seq<real>>, height: nat, width: nat)
    requires Covers(mag, height, width)
    ensures |Enumerate(mag, height, width)| == height * width
  {
    if height > 0 {
      EnumerateLength(mag, height - 1, width);
      assert (height - 1) * width + width == height * width;
    }
  }

  /** The tuples of row `i` are those of the positions of that row within the
      region, each with its magnitude. */
  lemma RowMembers(mag: seq<seq<real>>, i: nat, width: nat)
    requires i < |mag| && width <= |mag[i]|
    ensures forall e :: e in RowEntries(mag, i, width) <==> e.row == i && 0 <= e.col < width && e.mag == mag[i][e.col]
  {
    var row := RowEntries(mag, i, width);
    forall e | e in row
      ensures e.row == i && 0 <= e.col < width && e.mag == mag[i][e.col]
    {
      var k :| 0 <= k < |row| && row[k] == e;
    }
    forall e: Entry | e.row == i && 0 <= e.col < width && e.mag == mag[i][e.col]
      ensures e in row
    {
      assert row[e.col] == e;
    }
  }

  /** The collected tuples are exactly those of the positions of the region,
      each with its magnitude. */
  lemma {:induction false} EnumerateMembers(mag: seq<seq<real>>, height: nat, width: nat)
    requires Covers(mag, height, width)
    ensures forall e :: e in Enumerate(mag, height, width) <==>
              InRegion(Pos(e.row, e.col), height, width) && e.mag == mag[e.row][e.col]
  {
    if height > 0 {
      EnumerateMembers(mag, height - 1, width);
      RowMembers(mag, height - 1, width);
      assert Enumerate(mag, height, width) == Enumerate(mag, height - 1, width) + RowEntries(mag, height - 1, width);
    }
  }

  /** No tuple is collected twice. */
  lemma {:induction false} EnumerateDistinct(mag: seq<seq<real>>, height: nat, width: nat)
    requires Covers(mag, height, width)
    ensures Distinct(Enumerate(mag, height, width))
  {
    if height > 0 {
      var prefix, row := Enumerate(mag, height - 1, width), RowEntries(mag, height - 1, width);
      EnumerateDistinct(mag, height - 1, width);
      EnumerateMembers(mag, height - 1, width);
      var s := prefix + row;
      assert Enumerate(mag, height, width) == s;
      forall k, l | 0 <= k < l < |s|
        ensures s[k] != s[l]
      {
        if l < |prefix| {
          assert s[k] == prefix[k] && s[l] == prefix[l];
        } else if k >= |prefix| {
          assert s[k] == row[k - |prefix|] && s[l] == row[l - |prefix|];
        } else {
          assert s[k] == prefix[k] && prefix[k] in prefix;
          assert s[l] == row[l - |prefix|];
        }
      }
    }
  }

  /** Putting `x` in front of a non-increasing sequence whose first entry it
      is not below keeps it non-increasing. */
  lemma InsertFront(x: Entry, s: seq<Entry>)
    requires NonIncreasing(s) && (s == [] || !Greater(s[0], x))
    ensures NonIncreasing([x] + s)
  {
    var t := [x] + s;
    forall k, l | 0 <= k < l < |t|
      ensures !Greater(t[l], t[k])
    {
      if k == 0 {
        assert t[l] == s[l - 1];
        if l > 1 { assert !Greater(s[l - 1], s[0]); }
      } else {
        assert t[k] == s[k - 1] && t[l] == s[l - 1];
      }
    }
  }

  /** Keeping a head `s[0]` that is greater than `x` in front of the rest with
      `x` inserted keeps the result non-increasing. */
  lemma InsertBehind(x: Entry, s: seq<Entry>, rest: seq<Entry>)
    requires NonIncreasing(s) && s != [] && Greater(s[0], x)
    requires NonIncreasing(rest) && multiset(rest) == multiset(s[1..]) + multiset{x}
    ensures NonIncreasing([s[0]] + rest)
  {
    forall l | 0 <= l < |rest|
      ensures !Greater(rest[l], s[0])
    {
      var y := rest[l];
      assert y in multiset(rest);
      if y != x {
        assert y in multiset(s[1..]);
        var m :| 0 <= m < |s| - 1 && s[1..][m] == y;
        assert s[m + 1] == y;
      }
    }
    var t := [s[0]] + rest;
    forall k, l | 0 <= k < l < |t|
      ensures !Greater(t[l], t[k])
    {
      assert t[l] == rest[l - 1];
      if k > 0 { assert t[k] == rest[k - 1]; }
    }
  }

  /** Inserts `x` into a non-increasing sequence in front of the first entry
      that is not greater than it. */
  function Insert(x: Entry, s: seq<Entry>): (r: seq<Entry>)
    requires NonIncreasing(s)
    ensures multiset(r) == multiset(s) + multiset{x}
    ensures NonIncreasing(r)
  {
    if s == [] || !Greater(s[0], x) then
      assert NonIncreasing([x] + s) by { InsertFront(x, s); }
      [x] + s
    else
      var rest := Insert(x, s[1..]);
      assert s == [s[0]] + s[1..];
      assert NonIncreasing([s[0]] + rest) by { InsertBehind(x, s, rest); }
      [s[0]] + rest
  }

  /** `sort(begin, end, greater<tuple<float, int, int>>())`: the entries of
      `s` rearranged into non-increasing order. */
  function SortDesc(s: seq<Entry>): (r: seq<Entry>)
    ensures multiset(r) == multiset(s)
    ensures NonIncreasing(r)
  {
    if s == [] then []
    else
      assert s == [s[0]] + s[1..];
      Insert(s[0], SortDesc(s[1..]))
  }

  /** The `(i, j)` pairs of the sorted tuples, in order (the loop filling
      `sortedIndices`). */
  function Positions(s: seq<Entry>): seq<Pos> {
    seq(|s|, k requires 0 <= k < |s| => Pos(s[k].row, s[k].col))
  }

  /** `sortedIndices` as `setup` leaves it. */
  function RankingOf(mag: seq<seq<real>>, height: nat, width: nat): seq<Pos>
    requires Covers(mag, height, width)
  {
    Positions(SortDesc(Enumerate(mag, height, width)))
  }

  /** The sort key of a position. */
  function Key(mag: seq<seq<real>>, p: Pos): Entry
    requires 0 <= p.row < |mag| && 0 <= p.col < |mag[p.row]|
  {
    Entry(mag[p.row][p.col], p.row, p.col)
  }

  /** An element of a sequence without repetitions occurs in it once. */
  lemma {:induction false} DistinctCount<T>(s: seq<T>, x: T)
    requires Distinct(s)
    ensures multiset(s)[x] <= 1
  {
    if s != [] {
      assert s == [s[0]] + s[1..];
      assert Distinct(s[1..]);
      DistinctCount(s[1..], x);
      if s[0] == x {
        assert x !in s[1..];
      }
    }
  }

  /** An element at two indices occurs at least twice. */
  lemma RepeatedCount<T>(s: seq<T>, k: nat, l: nat)
    requires k < l < |s| && s[k] == s[l]
    ensures multiset(s)[s[k]] >= 2
  {
    assert s == s[..l] + s[l..];
    assert s[..l][k] == s[k];
    assert s[l..][0] == s[k];
  }

  /** Rearranging a sequence without repetitions keeps it without repetitions. */
  lemma PermutationDistinct<T>(a: seq<T>, b: seq<T>)
    requires Distinct(a) && multiset(a) == multiset(b)
    ensures Distinct(b)
  {
    forall k, l | 0 <= k < l < |b|
      ensures b[k] != b[l]
    {
      if b[k] == b[l] {
        RepeatedCount(b, k, l);
        DistinctCount(a, b[k]);
      }
    }
  }

  /** Two non-increasing sequences with the same elements start with the same
      entry. */
  lemma SameHead(a: seq<Entry>, b: seq<Entry>)
    requires NonIncreasing(a) && NonIncreasing(b) && multiset(a) == multiset(b) && a != [] && b != []
    ensures a[0] == b[0]
  {
    assert a[0] in multiset(b) && b[0] in multiset(a);
    var k :| 0 <= k < |b| && b[k] == a[0];
    var l :| 0 <= l < |a| && a[l] == b[0];
    assert !Greater(a[0], b[0]) by { if k > 0 { assert !Greater(b[k], b[0]); } }
    assert !Greater(b[0], a[0]) by { if l > 0 { assert !Greater(a[l], a[0]); } }
  }

  /** Removing the same first entry from sequences with the same elements
      leaves sequences with the same elements. */
  lemma SameTail<T>(a: seq<T>, b: seq<T>)
    requires a != [] && b != [] && a[0] == b[0] && multiset(a) == multiset(b)
    ensures multiset(a[1..]) == multiset(b[1..])
  {
    assert a == [a[0]] + a[1..] && b == [b[0]] + b[1..];
    assert multiset(a) == multiset{a[0]} + multiset(a[1..]);
    assert multiset(b) == multiset{b[0]} + multiset(b[1..]);
    forall y
      ensures multiset(a[1..])[y] == multiset(b[1..])[y]
    {
      assert multiset(a)[y] == multiset{a[0]}[y] + multiset(a[1..])[y];
      assert multiset(b)[y] == multiset{b[0]}[y] + multiset(b[1..])[y];
    }
  }

  /** Uniqueness: two non-increasing sequences with the same elements are
      equal. So the ranking does not depend on which sorting algorithm is used;
      any correct `std::sort` produces `SortDesc`'s order. */
  lemma {:induction false} SortedUnique(a: seq<Entry>, b: seq<Entry>)
    requires NonIncreasing(a) && NonIncreasing(b) && multiset(a) == multiset(b)
    ensures a == b
  {
    assert |b| == |multiset(b)| == |multiset(a)| == |a|;
    if a != [] {
      SameHead(a, b);
      SameTail(a, b);
      assert NonIncreasing(a[1..]) && NonIncreasing(b[1..]);
      SortedUnique(a[1..], b[1..]);
      assert a == [a[0]] + a[1..] && b == [b[0]] + b[1..];
    }
  }

  /** A rearrangement of the collected tuples has one tuple per position of
      the region. */
  lemma RearrangedLength(mag: seq<seq<real>>, height: nat, width: nat, sorted: seq<Entry>)
    requires Covers(mag, height, width)
    requires multiset(sorted) == multiset(Enumerate(mag, height, width))
    ensures |sorted| == height * width
  {
    assert |multiset(sorted)| == |multiset(Enumerate(mag, height, width))|;
    EnumerateLength(mag, height, width);
  }

  /** Each tuple of a rearrangement of the collected tuples is the key of a
      position of the region. */
  lemma RearrangedKeys(mag: seq<seq<real>>, height: nat, width: nat, sorted: seq<Entry>)
    requires Covers(mag, height, width)
    requires multiset(sorted) == multiset(Enumerate(mag, height, width))
    ensures forall k :: 0 <= k < |sorted| ==>
              InRegion(Pos(sorted[k].row, sorted[k].col), height, width)
              && sorted[k] == Key(mag, Pos(sorted[k].row, sorted[k].col))
  {
    EnumerateMembers(mag, height, width);
    forall k | 0 <= k < |sorted|
      ensures InRegion(Pos(sorted[k].row, sorted[k].col), height, width)
              && sorted[k] == Key(mag, Pos(sorted[k].row, sorted[k].col))
    {
      assert sorted[k] in multiset(Enumerate(mag, height, width));
    }
  }

  /** The key of every position of the region is in a rearrangement of the
      collected tuples. */
  lemma RearrangedComplete(mag: seq<seq<real>>, height: nat, width: nat, sorted: seq<Entry>)
    requires Covers(mag, height, width)
    requires multiset(sorted) == multiset(Enumerate(mag, height, width))
    ensures forall i, j :: 0 <= i < height && 0 <= j < width ==> Entry(mag[i][j], i, j) in sorted
  {
    EnumerateMembers(mag, height, width);
    forall i, j | 0 <= i < height && 0 <= j < width
      ensures Entry(mag[i][j], i, j) in sorted
    {
      var e := Entry(mag[i][j], i, j);
      assert InRegion(Pos(e.row, e.col), height, width) && e.mag == mag[e.row][e.col];
      assert e in Enumerate(mag, height, width);
      assert e in multiset(Enumerate(mag, height, width));
      assert e in multiset(sorted);
    }
  }

  /** The positions of a rearrangement of the collected tuples: one per
      position of the region, each in the region, every position among them. */
  lemma PositionsCover(mag: seq<seq<real>>, height: nat, width: nat, sorted: seq<Entry>)
    requires Covers(mag, height, width)
    requires multiset(sorted) == multiset(Enumerate(mag, height, width))
    ensures var ranks := Positions(sorted);
      |ranks| == height * width
      && (forall k :: 0 <= k < |ranks| ==> InRegion(ranks[k], height, width))
      && (forall i, j :: 0 <= i < height && 0 <= j < width ==> Pos(i, j) in ranks)
  {
    var ranks := Positions(sorted);
    RearrangedLength(mag, height, width, sorted);
    RearrangedKeys(mag, height, width, sorted);
    RearrangedComplete(mag, height, width, sorted);
    forall i, j | 0 <= i < height && 0 <= j < width
      ensures Pos(i, j) in ranks
    {
      var k :| 0 <= k < |sorted| && sorted[k] == Entry(mag[i][j], i, j);
      assert ranks[k] == Pos(i, j);
    }
  }

  /** The positions of a non-increasing rearrangement of the collected tuples
      are without repetitions and in strictly descending key order. */
  lemma PositionsOrdered(mag: seq<seq<real>>, height: nat, width: nat, sorted: seq<Entry>)
    requires Covers(mag, height, width)
    requires multiset(sorted) == multiset(Enumerate(mag, height, width)) && NonIncreasing(sorted)
    ensures var ranks := Positions(sorted);
      (forall k :: 0 <= k < |ranks| ==> InRegion(ranks[k], height, width))
      && Distinct(ranks)
      && (forall k, l :: 0 <= k < l < |ranks| ==> Greater(Key(mag, ranks[k]), Key(mag, ranks[l])))
  {
    var ranks := Positions(sorted);
    EnumerateDistinct(mag, height, width);
    PermutationDistinct(Enumerate(mag, height, width), sorted);
    RearrangedKeys(mag, height, width, sorted);
    forall k, l | 0 <= k < l < |ranks|
      ensures ranks[k] != ranks[l] && Greater(Key(mag, ranks[k]), Key(mag, ranks[l]))
    {
      assert ranks[k] == Pos(sorted[k].row, sorted[k].col) && ranks[l] == Pos(sorted[l].row, sorted[l].col);
      assert sorted[k] != sorted[l] && !Greater(sorted[l], sorted[k]);
    }
  }

  /** The ranking lists every position of the `height` x `width` region
      exactly once, and in strictly descending `(magnitude, row, column)`
      order: larger magnitudes first, equal magnitudes by descending row, then
      descending column. */
  lemma RankingIsSortedPermutation(mag: seq<seq<real>>, height: nat, width: nat)
    requires Covers(mag, height, width)
    ensures var ranks := RankingOf(mag, height, width);
      |ranks| == height * width
      && (forall k :: 0 <= k < |ranks| ==> InRegion(ranks[k], height, width))
      && (forall i, j :: 0 <= i < height && 0 <= j < width ==> Pos(i, j) in ranks)
      && Distinct(ranks)
      && (forall k, l :: 0 <= k < l < |ranks| ==> Greater(Key(mag, ranks[k]), Key(mag, ranks[l])))
  {
    var sorted := SortDesc(Enumerate(mag, height, width));
    PositionsCover(mag, height, width, sorted);
    PositionsOrdered(mag, height, width, sorted);
  }

  /** Every ranked position lies in the region. */
  lemma RankingInRegion(mag: seq<seq<real>>, height: nat, width: nat)
    requires Covers(mag, height, width)
    ensures forall k :: 0 <= k < |RankingOf(mag, height, width)| ==> InRegion(RankingOf(mag, height, width)[k], height, width)
  {
    PositionsCover(mag, height, width, SortDesc(Enumerate(mag, height, width)));
  }

  /** The nested loops of `setup` that push `(mag[i][j], i, j)` for every
      `i < height` and `j < width` onto `magnitudes`. */
  method Collect(mag: seq<seq<real>>, height: nat, width: nat) returns (magnitudes: seq<Entry>)
    requires Covers(mag, height, width)
    ensures magnitudes == Enumerate(mag, height, width)
  {
    magnitudes := [];
    var i := 0;
    while i < height
      invariant 0 <= i <= height
      invariant magnitudes == Enumerate(mag, i, width)
    {
      var j := 0;
      while j < width
        invariant 0 <= j <= width
        invariant magnitudes == Enumerate(mag, i, width) + RowEntries(mag, i, j)
      {
        magnitudes := magnitudes + [Entry(mag[i][j], i, j)];
        j := j + 1;
      }
      assert Enumerate(mag, i + 1, width) == Enumerate(mag, i, width) + RowEntries(mag, i, width);
      i := i + 1;
    }
  }

  /** The part of `setup` that builds `sortedIndices`: collect the tuples,
      sort them with `std::greater`, keep the `(i, j)` pairs in order. */
  method BuildRanking(mag: seq<seq<real>>, height: nat, width: nat) returns (sortedIndices: seq<Pos>)
    requires Covers(mag, height, width)
    ensures sortedIndices == RankingOf(mag, height, width)
    ensures forall k :: 0 <= k < |sortedIndices| ==> InRegion(sortedIndices[k], height, width)
  {
    var magnitudes := Collect(mag, height, width);
    var sorted := SortDesc(magnitudes);
    sortedIndices := [];
    var k := 0;
    while k < |sorted|
      invariant 0 <= k <= |sorted|
      invariant sortedIndices == Positions(sorted[..k])
    {
      assert Positions(sorted[..k + 1]) == Positions(sorted[..k]) + [Pos(sorted[k].row, sorted[k].col)];
      sortedIndices := sortedIndices + [Pos(sorted[k].row, sorted[k].col)];
      k := k + 1;
    }
    assert sorted[..k] == sorted;
    RankingInRegion(mag, height, width);
  }
}
