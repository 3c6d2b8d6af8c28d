/** internal/palette/genetic/fitness.go: colour statistics computed on squared
    distances give what the distances themselves would. Numbers are reals. */
module PairStats {
  import opened Palette

  /** math.MaxFloat64, from which minima start. */
  const MAX_FLOAT: real := 9007199254740991.0 * TwoTo(971)

  function TwoTo(n: nat): (r: real)
    ensures r > 0.0
  {
    if n == 0 then 1.0 else 2.0 * TwoTo(n - 1)
  }

  function DeltaESq(c: Lab, d: Lab): (r: real)
    ensures r >= 0.0
  {
    var dl, da, db := c.l - d.l, c.a - d.a, c.b - d.b;
    SquareNonNegative(dl);
    SquareNonNegative(da);
    SquareNonNegative(db);
    dl * dl + da * da + db * db
  }

  lemma SquareNonNegative(x: real)
    ensures x * x >= 0.0
  {
  }

  /** It is the same both ways, and 0 exactly between equal colours. */
  lemma DistanceSound(c: Lab, d: Lab)
    ensures DeltaESq(c, d) == DeltaESq(d, c)
    ensures DeltaESq(c, d) == 0.0 <==> c == d
  {
    SquareTurns(c.l - d.l, d.l - c.l);
    SquareTurns(c.a - d.a, d.a - c.a);
    SquareTurns(c.b - d.b, d.b - c.b);
  }

  lemma SquareTurns(x: real, y: real)
    requires y == -x
    ensures x * x == y * y && x * x >= 0.0
    ensures x * x == 0.0 <==> x == 0.0
  {
    assert x * x - y * y == (x - y) * (x + y);
    TimesZero(x - y, x + y);
    SquareNonNegative(x);
    SquareZero(if x >= 0.0 then x else y);
  }

  lemma SquareZero(x: real)
    requires x >= 0.0
    ensures x * x == 0.0 <==> x == 0.0
  {
    SquaresOrder(0.0, x);
    TimesZero(x, 0.0);
  }

  lemma TimesZero(x: real, y: real)
    requires y == 0.0
    ensures x * y == 0.0
  {
  }

  ghost predicate IsRoot(sqrt: real -> real) {
    forall x :: x >= 0.0 ==> sqrt(x) >= 0.0 && sqrt(x) * sqrt(x) == x
  }

  /** CIE76 distance. */
  function DeltaE(c: Lab, d: Lab, sqrt: real -> real): real {
    sqrt(DeltaESq(c, d))
  }

  lemma SquaresOrder(a: real, b: real)
    requires a >= 0.0 && b >= 0.0
    ensures a < b <==> a * a < b * b
    ensures a == b <==> a * a == b * b
  {
    if a < b {
      ProductsGrow(a, b);
    } else if b < a {
      ProductsGrow(b, a);
    }
  }

  lemma ProductsGrow(a: real, b: real)
    requires 0.0 <= a < b
    ensures a * a < b * b
  {
    assert b * b - a * a == (b - a) * (b + a);
    PositiveProduct(b - a, b + a);
  }

  lemma PositiveProduct(x: real, y: real)
    requires x > 0.0 && y > 0.0
    ensures x * y > 0.0
  {
  }

  lemma RootOrder(sqrt: real -> real, x: real, y: real)
    requires IsRoot(sqrt) && x >= 0.0 && y >= 0.0
    ensures sqrt(x) < sqrt(y) <==> x < y
    ensures sqrt(x) == sqrt(y) <==> x == y
  {
    SquaresOrder(sqrt(x), sqrt(y));
  }

  // ---- the largest distance ----

  predicate Pair(colors: seq<Lab>, i: int, j: int) {
    0 <= i < j < |colors|
  }

  /** The pairs looked at before (row, col). */
  predicate Before(i: int, j: int, row: int, col: int) {
    i < row || (i == row && j < col)
  }

  function PairSq(colors: seq<Lab>, i: int, j: int): real
    requires Pair(colors, i, j)
  {
    DeltaESq(colors[i], colors[j])
  }

  ghost predicate MaxBefore(colors: seq<Lab>, row: int, col: int, max: real) {
    && max >= 0.0
    && (forall i, j :: Pair(colors, i, j) && Before(i, j, row, col) ==> PairSq(colors, i, j) <= max)
    && (max == 0.0 || exists i, j :: Pair(colors, i, j) && PairSq(colors, i, j) == max)
  }

  /** The largest of the distances: none is larger, and one is it. */
  method MaxDeltaE(colors: seq<Lab>, sqrt: real -> real) returns (r: real)
    requires IsRoot(sqrt)
    ensures |colors| < 2 ==> r == 0.0
    ensures forall i, j :: Pair(colors, i, j) ==> DeltaE(colors[i], colors[j], sqrt) <= r
    ensures |colors| >= 2 ==> exists i, j :: Pair(colors, i, j) && DeltaE(colors[i], colors[j], sqrt) == r
  {
    if |colors| < 2 {
      return 0.0;
    }
    var maxSq := 0.0;
    for i := 0 to |colors|
      invariant MaxBefore(colors, i, 0, maxSq)
    {
      for j := i + 1 to |colors|
        invariant MaxBefore(colors, i, j, maxSq)
      {
        var sq := DeltaESq(colors[i], colors[j]);
        assert sq == PairSq(colors, i, j);
        if sq > maxSq {
          maxSq := sq;
        }
      }
    }
    r := sqrt(maxSq);
    forall i, j | Pair(colors, i, j) ensures DeltaE(colors[i], colors[j], sqrt) <= r {
      assert Before(i, j, |colors|, 0);
      RootOrder(sqrt, maxSq, PairSq(colors, i, j));
    }
    if maxSq == 0.0 {
      assert Pair(colors, 0, 1) && PairSq(colors, 0, 1) == 0.0;
    }
  }

  // ---- the smallest distance and the penalty ----

  /** The penalty of one pair, by its distance. */
  function Penalty(dist: real): real {
    if dist < 5.0 then 10.0 else if dist < 10.0 then 5.0 else if dist < 15.0 then 2.0 else 0.0
  }

  function RowPenalty(colors: seq<Lab>, i: nat, col: nat, sqrt: real -> real): real
    requires col <= |colors|
    decreases col
  {
    if col <= i + 1 then 0.0
    else RowPenalty(colors, i, col - 1, sqrt) + Penalty(DeltaE(colors[i], colors[col-1], sqrt))
  }

  /** The sum over all pairs whose first colour is among the first rows. */
  function TotalPenalty(colors: seq<Lab>, rows: nat, sqrt: real -> real): real
    requires rows <= |colors|
  {
    if rows == 0 then 0.0
    else TotalPenalty(colors, rows - 1, sqrt) + RowPenalty(colors, rows - 1, |colors|, sqrt)
  }

  function SquaredPenalty(sq: real): real {
    if sq < 25.0 then 10.0 else if sq < 100.0 then 5.0 else if sq < 225.0 then 2.0 else 0.0
  }

  /** The squared thresholds sort the pairs as the plain ones would. */
  lemma ThresholdsAgree(sq: real, sqrt: real -> real)
    requires IsRoot(sqrt) && sq >= 0.0
    ensures SquaredPenalty(sq) == Penalty(sqrt(sq))
  {
    SquaresOrder(sqrt(sq), 5.0);
    SquaresOrder(sqrt(sq), 10.0);
    SquaresOrder(sqrt(sq), 15.0);
  }

  ghost predicate MinBefore(colors: seq<Lab>, row: int, col: int, min: real) {
    && 0.0 <= min <= MAX_FLOAT
    && (forall i, j :: Pair(colors, i, j) && Before(i, j, row, col) ==> min <= PairSq(colors, i, j))
    && (min == MAX_FLOAT || exists i, j :: Pair(colors, i, j) && PairSq(colors, i, j) == min)
  }

  /** No squared distance is beyond what a float can hold. */
  ghost predicate Finite(colors: seq<Lab>) {
    forall i, j :: Pair(colors, i, j) ==> PairSq(colors, i, j) <= MAX_FLOAT
  }

  lemma MinNext(colors: seq<Lab>, i: nat, j: nat, min: real)
    requires Pair(colors, i, j) && MinBefore(colors, i, j, min)
    ensures var sq := PairSq(colors, i, j); MinBefore(colors, i, j + 1, if sq < min then sq else min)
  {
  }

  /** The smallest distance, and the penalties summed over all pairs, both in terms
      of plain distances. */
  method AccentPairStats(colors: seq<Lab>, sqrt: real -> real) returns (minDist: real, penalty: real)
    requires IsRoot(sqrt) && Finite(colors)
    ensures |colors| < 2 ==> minDist == 0.0 && penalty == 0.0
    ensures |colors| >= 2 ==>
              && (forall i, j :: Pair(colors, i, j) ==> minDist <= DeltaE(colors[i], colors[j], sqrt))
              && (exists i, j :: Pair(colors, i, j) && DeltaE(colors[i], colors[j], sqrt) == minDist)
    ensures penalty == TotalPenalty(colors, |colors|, sqrt)
  {
    if |colors| < 2 {
      NoPairs(colors, sqrt);
      return 0.0, 0.0;
    }
    var minSq := MAX_FLOAT;
    penalty := 0.0;
    for i := 0 to |colors|
      invariant MinBefore(colors, i, 0, minSq)
      invariant penalty == TotalPenalty(colors, i, sqrt)
    {
      ghost var before := penalty;
      for j := i + 1 to |colors|
        invariant MinBefore(colors, i, j, minSq)
        invariant penalty == before + RowPenalty(colors, i, j, sqrt)
      {
        var sq := DeltaESq(colors[i], colors[j]);
        MinNext(colors, i, j, minSq);
        if sq < minSq {
          minSq := sq;
        }
        ThresholdsAgree(sq, sqrt);
        if sq < 25.0 {
          penalty := penalty + 10.0;
        } else if sq < 100.0 {
          penalty := penalty + 5.0;
        } else if sq < 225.0 {
          penalty := penalty + 2.0;
        }
      }
      assert MinBefore(colors, i + 1, 0, minSq);
    }
    minDist := sqrt(minSq);
    MinIsMin(colors, minSq, sqrt);
  }

  lemma MinIsMin(colors: seq<Lab>, minSq: real, sqrt: real -> real)
    requires IsRoot(sqrt) && Finite(colors) && |colors| >= 2 && MinBefore(colors, |colors|, 0, minSq)
    ensures forall i, j :: Pair(colors, i, j) ==> sqrt(minSq) <= DeltaE(colors[i], colors[j], sqrt)
    ensures exists i, j :: Pair(colors, i, j) && DeltaE(colors[i], colors[j], sqrt) == sqrt(minSq)
  {
    forall i, j | Pair(colors, i, j) ensures sqrt(minSq) <= DeltaE(colors[i], colors[j], sqrt) {
      assert Before(i, j, |colors|, 0);
      RootOrder(sqrt, PairSq(colors, i, j), minSq);
    }
    if minSq == MAX_FLOAT {
      assert Pair(colors, 0, 1) && Before(0, 1, |colors|, 0);
      assert PairSq(colors, 0, 1) == minSq;
    }
  }

  lemma NoPairs(colors: seq<Lab>, sqrt: real -> real)
    requires |colors| < 2
    ensures TotalPenalty(colors, |colors|, sqrt) == 0.0
  {
    if |colors| == 1 {
      assert RowPenalty(colors, 0, 1, sqrt) == 0.0 && TotalPenalty(colors, 0, sqrt) == 0.0;
    }
  }

  /** What one more colour costs is its penalty with each colour that is there, so the
      total is a sum over pairs, each once. */
  lemma OneMoreColour(colors: seq<Lab>, c: Lab, sqrt: real -> real)
    ensures TotalPenalty(colors + [c], |colors| + 1, sqrt)
              == TotalPenalty(colors, |colors|, sqrt)
                 + Sum(seq(|colors|, i requires 0 <= i < |colors| => Penalty(DeltaE(colors[i], c, sqrt))))
  {
    var costs := seq(|colors|, i requires 0 <= i < |colors| => Penalty(DeltaE(colors[i], c, sqrt)));
    RowsMore(colors, c, sqrt, costs, |colors|);
    assert costs[..|colors|] == costs;
    assert RowPenalty(colors + [c], |colors|, |colors| + 1, sqrt) == 0.0;
  }

  lemma {:induction false} RowsMore(colors: seq<Lab>, c: Lab, sqrt: real -> real, costs: seq<real>, rows: nat)
    requires rows <= |colors| == |costs|
    requires forall i :: 0 <= i < |colors| ==> costs[i] == Penalty(DeltaE(colors[i], c, sqrt))
    ensures TotalPenalty(colors + [c], rows, sqrt) == TotalPenalty(colors, rows, sqrt) + Sum(costs[..rows])
  {
    if rows > 0 {
      RowsMore(colors, c, sqrt, costs, rows - 1);
      RowMore(colors, c, rows - 1, |colors|, sqrt);
      assert costs[..rows][..rows-1] == costs[..rows-1];
    }
  }

  lemma {:induction false} RowMore(colors: seq<Lab>, c: Lab, i: nat, col: nat, sqrt: real -> real)
    requires i < |colors| && col <= |colors|
    ensures RowPenalty(colors + [c], i, col, sqrt) == RowPenalty(colors, i, col, sqrt)
    ensures RowPenalty(colors + [c], i, |colors| + 1, sqrt)
              == RowPenalty(colors + [c], i, |colors|, sqrt) + Penalty(DeltaE(colors[i], c, sqrt))
    decreases col
  {
    if col > i + 1 {
      RowMore(colors, c, i, col - 1, sqrt);
    }
  }

  /** A closer pair costs no less. */
  lemma PenaltyFalls(d: real, e: real)
    requires d <= e
    ensures Penalty(d) >= Penalty(e) >= 0.0
  {
  }

  // ---- no penalty means no near-duplicates ----

  lemma {:induction false} RowFree(colors: seq<Lab>, i: nat, col: nat, sqrt: real -> real)
    requires col <= |colors|
    ensures RowPenalty(colors, i, col, sqrt) >= 0.0
    ensures RowPenalty(colors, i, col, sqrt) == 0.0 <==>
              forall j :: i < j < col ==> DeltaE(colors[i], colors[j], sqrt) >= 15.0
    decreases col
  {
    if col > i + 1 {
      RowFree(colors, i, col - 1, sqrt);
    }
  }

  /** The penalty is 0 exactly if all colours are at least 15 apart. */
  lemma {:induction false} PenaltyFree(colors: seq<Lab>, rows: nat, sqrt: real -> real)
    requires rows <= |colors|
    ensures TotalPenalty(colors, rows, sqrt) >= 0.0
    ensures TotalPenalty(colors, rows, sqrt) == 0.0 <==>
              forall i, j :: 0 <= i < rows && i < j < |colors| ==> DeltaE(colors[i], colors[j], sqrt) >= 15.0
  {
    if rows > 0 {
      PenaltyFree(colors, rows - 1, sqrt);
      RowFree(colors, rows - 1, |colors|, sqrt);
    }
  }

  // ---- similarity to the image ----

  /** d is the distance of c to the nearest of the colours. */
  ghost predicate IsNearest(c: Lab, colors: seq<Lab>, sqrt: real -> real, d: real) {
    && (forall k :: 0 <= k < |colors| ==> d <= DeltaE(c, colors[k], sqrt))
    && exists k :: 0 <= k < |colors| && DeltaE(c, colors[k], sqrt) == d
  }

  method Nearest(c: Lab, colors: seq<Lab>, sqrt: real -> real) returns (d: real)
    requires IsRoot(sqrt) && colors != [] && forall k :: 0 <= k < |colors| ==> DeltaESq(c, colors[k]) <= MAX_FLOAT
    ensures IsNearest(c, colors, sqrt, d)
  {
    var minSq := MAX_FLOAT;
    for k := 0 to |colors|
      invariant 0.0 <= minSq <= MAX_FLOAT
      invariant forall m :: 0 <= m < k ==> minSq <= DeltaESq(c, colors[m])
      invariant minSq == MAX_FLOAT || exists m :: 0 <= m < |colors| && DeltaESq(c, colors[m]) == minSq
    {
      var sq := DeltaESq(c, colors[k]);
      if sq < minSq {
        minSq := sq;
      }
    }
    d := sqrt(minSq);
    forall k | 0 <= k < |colors| ensures d <= DeltaE(c, colors[k], sqrt) {
      RootOrder(sqrt, DeltaESq(c, colors[k]), minSq);
    }
    assert minSq == MAX_FLOAT ==> DeltaESq(c, colors[0]) == minSq;
  }

  function Sum(s: seq<real>): real {
    if s == [] then 0.0 else Sum(s[..|s|-1]) + s[|s|-1]
  }

  /** It is the sum. */
  lemma {:induction false} SumAppend(s: seq<real>, t: seq<real>)
    ensures Sum(s + t) == Sum(s) + Sum(t)
    ensures |t| == 1 ==> Sum(t) == t[0]
    decreases |t|
  {
    if t == [] {
      assert s + t == s;
    } else {
      var n := |t| - 1;
      assert (s + t)[..|s+t|-1] == s + t[..n];
      SumAppend(s, t[..n]);
      assert n == 0 ==> t[..n] == [];
    }
  }

  /** Minus the mean, over the palette, of the distance to the nearest image colour. */
  method ImageSimilarity(palette: seq<Lab>, image: seq<Lab>, sqrt: real -> real)
      returns (r: real, ghost dists: seq<real>)
    requires IsRoot(sqrt) && palette != []
    requires forall i, k :: 0 <= i < |palette| && 0 <= k < |image| ==> DeltaESq(palette[i], image[k]) <= MAX_FLOAT
    ensures image == [] ==> r == 0.0
    ensures image != [] ==>
              && |dists| == |palette|
              && (forall i :: 0 <= i < |palette| ==> IsNearest(palette[i], image, sqrt, dists[i]))
              && r == -(Sum(dists) / |palette| as real)
  {
    dists := [];
    if image == [] {
      return 0.0, dists;
    }
    var total := 0.0;
    for i := 0 to |palette|
      invariant |dists| == i && total == Sum(dists)
      invariant forall m :: 0 <= m < i ==> IsNearest(palette[m], image, sqrt, dists[m])
    {
      var d := Nearest(palette[i], image, sqrt);
      assert (dists + [d])[..i] == dists;
      dists := dists + [d];
      total := total + d;
    }
    r := -(total / |palette| as real);
  }
}
