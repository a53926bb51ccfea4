/** What the three particle systems share: positions in canvas pixel space,
    the toroidal wrap to the canvas box, and the O(n^2) pass that links
    every unordered pair of particles closer than a threshold.

    Distances are taken as given: the scripts compute them with
    `Math.sqrt`, which the model does not evaluate. A table `d` with
    `d[i][j]` the distance between particles `i` and `j` stands for those
    calls, and `IsDistance` ties an entry to the two positions. */
module Field {

  datatype Point = Point(x: real, y: real)

  function SqDist(p: Point, q: Point): real {
    (p.x - q.x) * (p.x - q.x) + (p.y - q.y) * (p.y - q.y)
  }

  /** `d` is the Euclidean distance between `p` and `q`. */
  predicate IsDistance(d: real, p: Point, q: Point) {
    d >= 0.0 && d * d == SqDist(p, q)
  }

  /** Comparing a distance with a threshold is the same as comparing the
      squared distance with the squared threshold, so the link rule can be
      read without square roots. */
  lemma BelowIffSquaredBelow(d: real, p: Point, q: Point, threshold: real)
    requires IsDistance(d, p, q) && threshold > 0.0
    ensures d < threshold <==> SqDist(p, q) < threshold * threshold
  {
    if d < threshold {
      SquareStrict(d, threshold);
    } else {
      SquareMono(threshold, d);
    }
  }

  lemma SquareStrict(a: real, b: real)
    requires 0.0 <= a < b
    ensures a * a < b * b
  {
    var aa, ba, bb := a * a, b * a, b * b;
    assert aa <= ba;
    assert ba < bb;
  }

  lemma SquareMono(a: real, b: real)
    requires 0.0 <= a <= b
    ensures a * a <= b * b
  {
    var aa, ba, bb := a * a, b * a, b * b;
    assert aa <= ba;
    assert ba <= bb;
  }

  /** One coordinate after the boundary check
      `if (v < 0) v = bound; if (v > bound) v = 0;` — two consecutive tests,
      so a coordinate exactly at `bound` stays there. */
  function Wrap(v: real, bound: nat): (r: real)
    ensures 0.0 <= r <= bound as real
    ensures 0.0 <= v <= bound as real ==> r == v
    ensures v < 0.0 ==> r == bound as real
    ensures v > bound as real ==> r == 0.0
  {
    var a := if v < 0.0 then bound as real else v;
    if a > bound as real then 0.0 else a
  }

  /** The wrap lands in the closed interval [0, bound]: the far edge itself
      is a fixed point, and wrapping twice changes nothing. */
  lemma WrapKeepsFarEdge(v: real, bound: nat)
    ensures Wrap(bound as real, bound) == bound as real
    ensures Wrap(Wrap(v, bound), bound) == Wrap(v, bound)
    ensures v < 0.0 ==> Wrap(v, bound) == bound as real
  {
  }

  /** `d` is an `n` by `n` table of non-negative distances. */
  predicate IsTable(d: seq<seq<real>>, n: nat) {
    && |d| == n
    && (forall i :: 0 <= i < n ==> |d[i]| == n)
    && (forall i, j :: 0 <= i < n && 0 <= j < n ==> d[i][j] >= 0.0)
  }

  /** `d` holds the pairwise distances of the particles at `ps`. */
  predicate IsTableOf(d: seq<seq<real>>, ps: seq<Point>) {
    && IsTable(d, |ps|)
    && forall i, j :: 0 <= i < |ps| && 0 <= j < |ps| ==> IsDistance(d[i][j], ps[i], ps[j])
  }

  /** The positions of a list of particles of any kind, read with `pos`. */
  function Positions<T>(ps: seq<T>, pos: T -> Point): (qs: seq<Point>)
    ensures |qs| == |ps| && forall i :: 0 <= i < |ps| ==> qs[i] == pos(ps[i])
  {
    seq(|ps|, i requires 0 <= i < |ps| => pos(ps[i]))
  }

  /** A line drawn between particles `i` and `j` with opacity `alpha`. */
  datatype Link = Link(i: nat, j: nat, alpha: real)

  /** The linear fall-off `(threshold - d) / threshold * k`. */
  function Alpha(d: real, threshold: real, k: real): real
    requires threshold > 0.0
  {
    (threshold - d) / threshold * k
  }

  lemma AlphaRange(d: real, threshold: real, k: real)
    requires 0.0 <= d < threshold && k > 0.0
    ensures 0.0 < Alpha(d, threshold, k) <= k
  {
    var f := (threshold - d) / threshold;
    assert 0.0 < f <= 1.0;
    assert f * k <= 1.0 * k;
  }

  /** The links of row `i` for partners `i + 1 .. j - 1`, in the order the
      inner loop `for (j = i + 1; j < n; j++)` visits them. */
  function RowLinks(d: seq<seq<real>>, n: nat, i: nat, j: nat, threshold: real, k: real): seq<Link>
    requires IsTable(d, n) && i < n && j <= n && threshold > 0.0
    decreases j
  {
    if j <= i + 1 then []
    else RowLinks(d, n, i, j - 1, threshold, k)
         + (if d[i][j - 1] < threshold then [Link(i, j - 1, Alpha(d[i][j - 1], threshold, k))] else [])
  }

  /** The links of rows `0 .. i - 1`, in the order of the outer loop. */
  function RowsBelow(d: seq<seq<real>>, n: nat, i: nat, threshold: real, k: real): seq<Link>
    requires IsTable(d, n) && i <= n && threshold > 0.0
  {
    if i == 0 then []
    else RowsBelow(d, n, i - 1, threshold, k) + RowLinks(d, n, i - 1, n, threshold, k)
  }

  /** All links one frame draws. */
  function Connections(d: seq<seq<real>>, n: nat, threshold: real, k: real): seq<Link>
    requires IsTable(d, n) && threshold > 0.0
  {
    RowsBelow(d, n, n, threshold, k)
  }

  /** `a` comes strictly before `b` in the loops' visiting order. */
  predicate Before(a: Link, b: Link) {
    a.i < b.i || (a.i == b.i && a.j < b.j)
  }

  predicate Ordered(links: seq<Link>) {
    forall a, b :: 0 <= a < b < |links| ==> Before(links[a], links[b])
  }

  /** The pair `{i, j}` received a line. */
  predicate Drawn(links: seq<Link>, i: nat, j: nat) {
    exists m :: 0 <= m < |links| && links[m].i == i && links[m].j == j
  }

  /** Every link is between `i < j` closer than the threshold, with the
      fall-off opacity. */
  predicate Sound(links: seq<Link>, d: seq<seq<real>>, n: nat, threshold: real, k: real)
    requires IsTable(d, n) && threshold > 0.0
  {
    forall m :: 0 <= m < |links| ==>
      && links[m].i < links[m].j < n
      && d[links[m].i][links[m].j] < threshold
      && links[m].alpha == Alpha(d[links[m].i][links[m].j], threshold, k)
  }

  /** Every link lies in row `i`, with a partner below `j`. */
  predicate InRow(links: seq<Link>, i: nat, j: nat) {
    forall m :: 0 <= m < |links| ==> links[m].i == i && links[m].j < j
  }

  /** Every link lies in a row below `i`. */
  predicate RowsBefore(links: seq<Link>, i: nat) {
    forall m :: 0 <= m < |links| ==> links[m].i < i
  }

  /** Row `i` up to partner `j` is sound. */
  lemma {:induction false} RowLinksSound(d: seq<seq<real>>, n: nat, i: nat, j: nat, threshold: real, k: real)
    requires IsTable(d, n) && i < n && j <= n && threshold > 0.0
    ensures Sound(RowLinks(d, n, i, j, threshold, k), d, n, threshold, k)
    decreases j
  {
    if j > i + 1 {
      RowLinksSound(d, n, i, j - 1, threshold, k);
      var prev := RowLinks(d, n, i, j - 1, threshold, k);
      var last := if d[i][j - 1] < threshold then [Link(i, j - 1, Alpha(d[i][j - 1], threshold, k))] else [];
      assert Sound(last, d, n, threshold, k);
      SoundAppend(prev, last, d, n, threshold, k);
    }
  }

  /** Row `i` up to partner `j` stays in its row and is in loop order. */
  lemma {:induction false} RowLinksShape(d: seq<seq<real>>, n: nat, i: nat, j: nat, threshold: real, k: real)
    requires IsTable(d, n) && i < n && j <= n && threshold > 0.0
    ensures var r := RowLinks(d, n, i, j, threshold, k);
      InRow(r, i, j) && Ordered(r)
    decreases j
  {
    if j > i + 1 {
      RowLinksShape(d, n, i, j - 1, threshold, k);
      var prev := RowLinks(d, n, i, j - 1, threshold, k);
      var last := if d[i][j - 1] < threshold then [Link(i, j - 1, Alpha(d[i][j - 1], threshold, k))] else [];
      RowStep(prev, last, i, j);
    }
  }

  lemma RowStep(prev: seq<Link>, last: seq<Link>, i: nat, j: nat)
    requires 0 < j && InRow(prev, i, j - 1) && Ordered(prev)
    requires last == [] || (|last| == 1 && last[0].i == i && last[0].j == j - 1)
    ensures InRow(prev + last, i, j) && Ordered(prev + last)
  {
    var r := prev + last;
    forall m | 0 <= m < |r|
      ensures r[m].i == i && r[m].j < j
    {
      if m < |prev| {
        assert r[m] == prev[m];
      }
    }
    assert Ordered(last);
    OrderedAppend(prev, last);
  }

  /** Rows below `i - 1`, then row `i - 1`: all rows below `i`, in order. */
  lemma RowsStep(prev: seq<Link>, row: seq<Link>, i: nat, n: nat)
    requires 0 < i
    requires RowsBefore(prev, i - 1) && Ordered(prev)
    requires InRow(row, i - 1, n) && Ordered(row)
    ensures RowsBefore(prev + row, i) && Ordered(prev + row)
  {
    var r := prev + row;
    forall m | 0 <= m < |r|
      ensures r[m].i < i
    {
      if m < |prev| {
        assert r[m] == prev[m];
      } else {
        assert r[m] == row[m - |prev|];
      }
    }
    forall x, y | 0 <= x < |prev| && 0 <= y < |row|
      ensures Before(prev[x], row[y])
    {
    }
    OrderedAppend(prev, row);
  }

  lemma SoundAppend(a: seq<Link>, b: seq<Link>, d: seq<seq<real>>, n: nat, threshold: real, k: real)
    requires IsTable(d, n) && threshold > 0.0
    ensures Sound(a, d, n, threshold, k) && Sound(b, d, n, threshold, k) ==> Sound(a + b, d, n, threshold, k)
  {
    if Sound(a, d, n, threshold, k) && Sound(b, d, n, threshold, k) {
      var r := a + b;
      forall m | 0 <= m < |r|
        ensures r[m].i < r[m].j < n && d[r[m].i][r[m].j] < threshold
        ensures r[m].alpha == Alpha(d[r[m].i][r[m].j], threshold, k)
      {
        if m < |a| {
          assert r[m] == a[m];
        } else {
          assert r[m] == b[m - |a|];
        }
      }
    }
  }

  /** Two ordered runs, the first wholly before the second, make an
      ordered run. */
  lemma OrderedAppend(a: seq<Link>, b: seq<Link>)
    requires Ordered(a) && Ordered(b)
    requires forall x, y :: 0 <= x < |a| && 0 <= y < |b| ==> Before(a[x], b[y])
    ensures Ordered(a + b)
  {
    var r := a + b;
    forall x, y | 0 <= x < y < |r|
      ensures Before(r[x], r[y])
    {
      if y < |a| {
        assert r[x] == a[x] && r[y] == a[y];
      } else if x >= |a| {
        assert r[x] == b[x - |a|] && r[y] == b[y - |a|];
      } else {
        assert r[x] == a[x] && r[y] == b[y - |a|];
      }
    }
  }

  lemma {:induction false} RowLinksComplete(d: seq<seq<real>>, n: nat, i: nat, j: nat, threshold: real, k: real)
    requires IsTable(d, n) && i < n && j <= n && threshold > 0.0
    ensures var r := RowLinks(d, n, i, j, threshold, k);
      forall jj :: i < jj < j && d[i][jj] < threshold ==> Drawn(r, i, jj)
    decreases j
  {
    if j > i + 1 {
      RowLinksComplete(d, n, i, j - 1, threshold, k);
      var prev := RowLinks(d, n, i, j - 1, threshold, k);
      var last := if d[i][j - 1] < threshold then [Link(i, j - 1, Alpha(d[i][j - 1], threshold, k))] else [];
      forall jj | i < jj < j && d[i][jj] < threshold
        ensures Drawn(prev + last, i, jj)
      {
        if jj == j - 1 {
          assert last[0].i == i && last[0].j == jj;
        }
        DrawnAppend(prev, last, i, jj);
      }
    }
  }

  lemma {:induction false} RowsBelowSound(d: seq<seq<real>>, n: nat, i: nat, threshold: real, k: real)
    requires IsTable(d, n) && i <= n && threshold > 0.0
    ensures Sound(RowsBelow(d, n, i, threshold, k), d, n, threshold, k)
  {
    if i > 0 {
      RowsBelowSound(d, n, i - 1, threshold, k);
      RowLinksSound(d, n, i - 1, n, threshold, k);
      SoundAppend(RowsBelow(d, n, i - 1, threshold, k), RowLinks(d, n, i - 1, n, threshold, k), d, n, threshold, k);
    }
  }

  lemma {:induction false} RowsBelowOrdered(d: seq<seq<real>>, n: nat, i: nat, threshold: real, k: real)
    requires IsTable(d, n) && i <= n && threshold > 0.0
    ensures var r := RowsBelow(d, n, i, threshold, k);
      RowsBefore(r, i) && Ordered(r)
  {
    if i > 0 {
      RowsBelowOrdered(d, n, i - 1, threshold, k);
      RowLinksShape(d, n, i - 1, n, threshold, k);
      RowsStep(RowsBelow(d, n, i - 1, threshold, k), RowLinks(d, n, i - 1, n, threshold, k), i, n);
    }
  }

  lemma {:induction false} RowsBelowComplete(d: seq<seq<real>>, n: nat, i: nat, threshold: real, k: real)
    requires IsTable(d, n) && i <= n && threshold > 0.0
    ensures var r := RowsBelow(d, n, i, threshold, k);
      forall ii, jj :: 0 <= ii < i && ii < jj < n && d[ii][jj] < threshold ==> Drawn(r, ii, jj)
  {
    if i > 0 {
      RowsBelowComplete(d, n, i - 1, threshold, k);
      RowLinksComplete(d, n, i - 1, n, threshold, k);
      var prev := RowsBelow(d, n, i - 1, threshold, k);
      var row := RowLinks(d, n, i - 1, n, threshold, k);
      var r := prev + row;
      forall ii, jj | 0 <= ii < i && ii < jj < n && d[ii][jj] < threshold
        ensures Drawn(r, ii, jj)
      {
        DrawnAppend(prev, row, ii, jj);
      }
    }
  }

  /** A pair drawn by either part of a concatenation is drawn by the
      whole. */
  lemma DrawnAppend(a: seq<Link>, b: seq<Link>, i: nat, j: nat)
    ensures Drawn(a, i, j) || Drawn(b, i, j) ==> Drawn(a + b, i, j)
  {
    if Drawn(a, i, j) {
      var m :| 0 <= m < |a| && a[m].i == i && a[m].j == j;
      assert (a + b)[m] == a[m];
    } else if Drawn(b, i, j) {
      var m :| 0 <= m < |b| && b[m].i == i && b[m].j == j;
      assert (a + b)[|a| + m] == b[m];
    }
  }

  /** The pair rule: a line is drawn for `{i, j}` exactly when `i < j` and
      their distance is below the threshold, each such pair exactly once
      (the links are strictly ordered, so no pair repeats), with opacity in
      (0, k]. */
  lemma ConnectionsCorrect(d: seq<seq<real>>, n: nat, threshold: real, k: real)
    requires IsTable(d, n) && threshold > 0.0 && k > 0.0
    ensures var r := Connections(d, n, threshold, k);
      && Sound(r, d, n, threshold, k)
      && Ordered(r)
      && (forall i: nat, j: nat :: Drawn(r, i, j) <==> i < j < n && d[i][j] < threshold)
      && (forall m :: 0 <= m < |r| ==> 0.0 < r[m].alpha <= k)
  {
    RowsBelowSound(d, n, n, threshold, k);
    RowsBelowOrdered(d, n, n, threshold, k);
    RowsBelowComplete(d, n, n, threshold, k);
    var r := Connections(d, n, threshold, k);
    forall m | 0 <= m < |r|
      ensures 0.0 < r[m].alpha <= k
    {
      AlphaRange(d[r[m].i][r[m].j], threshold, k);
    }
  }

  /** When every pair is close, all n(n-1)/2 unordered pairs are linked. */
  lemma {:induction false} AllCloseLinksEveryPair(d: seq<seq<real>>, n: nat, threshold: real, k: real)
    requires IsTable(d, n) && threshold > 0.0
    requires forall i, j :: 0 <= i < j < n ==> d[i][j] < threshold
    ensures |Connections(d, n, threshold, k)| * 2 == n * (n - 1)
  {
    forall i | 0 <= i <= n
      ensures |RowsBelow(d, n, i, threshold, k)| * 2 == i * (2 * n - i - 1)
    {
      RowsBelowCount(d, n, i, threshold, k);
    }
  }

  lemma {:induction false} RowLinksCount(d: seq<seq<real>>, n: nat, i: nat, j: nat, threshold: real, k: real)
    requires IsTable(d, n) && i < n && j <= n && threshold > 0.0
    requires forall a, b :: 0 <= a < b < n ==> d[a][b] < threshold
    ensures |RowLinks(d, n, i, j, threshold, k)| == if j <= i + 1 then 0 else j - i - 1
    decreases j
  {
    if j > i + 1 {
      RowLinksCount(d, n, i, j - 1, threshold, k);
    }
  }

  lemma {:induction false} RowsBelowCount(d: seq<seq<real>>, n: nat, i: nat, threshold: real, k: real)
    requires IsTable(d, n) && i <= n && threshold > 0.0
    requires forall a, b :: 0 <= a < b < n ==> d[a][b] < threshold
    ensures |RowsBelow(d, n, i, threshold, k)| * 2 == i * (2 * n - i - 1)
  {
    if i > 0 {
      RowsBelowCount(d, n, i - 1, threshold, k);
      RowLinksCount(d, n, i - 1, n, threshold, k);
      PairCountStep(n, i, |RowsBelow(d, n, i - 1, threshold, k)|, |RowLinks(d, n, i - 1, n, threshold, k)|);
    }
  }

  /** Adding row `i - 1`, with its `n - i` pairs, to the pairs of the rows
      below it. */
  lemma PairCountStep(n: int, i: int, below: int, row: int)
    requires below * 2 == (i - 1) * (2 * n - i) && row == n - i
    ensures (below + row) * 2 == i * (2 * n - i - 1)
  {
  }

  lemma AppendAssoc<T>(a: seq<T>, b: seq<T>, c: seq<T>)
    ensures (a + b) + c == a + (b + c)
  {
  }

  /** The nested loops of every `drawConnections` pass. */
  method DrawConnections(d: seq<seq<real>>, n: nat, threshold: real, k: real) returns (links: seq<Link>)
    requires IsTable(d, n) && threshold > 0.0
    ensures links == Connections(d, n, threshold, k)
  {
    links := [];
    var i := 0;
    while i < n
      invariant 0 <= i <= n
      invariant links == RowsBelow(d, n, i, threshold, k)
    {
      var j := i + 1;
      while j < n
        invariant i + 1 <= j <= n
        invariant links == RowsBelow(d, n, i, threshold, k) + RowLinks(d, n, i, j, threshold, k)
      {
        ghost var before := RowsBelow(d, n, i, threshold, k);
        ghost var row := RowLinks(d, n, i, j, threshold, k);
        if d[i][j] < threshold {
          links := links + [Link(i, j, Alpha(d[i][j], threshold, k))];
          AppendAssoc(before, row, [Link(i, j, Alpha(d[i][j], threshold, k))]);
        }
        assert RowLinks(d, n, i, j + 1, threshold, k)
          == row + (if d[i][j] < threshold then [Link(i, j, Alpha(d[i][j], threshold, k))] else []);
        j := j + 1;
      }
      i := i + 1;
    }
  }
}
