/** The pairwise near-duplicate report of scripts/gpx_utils.py
    (`find_duplicates`): every index pair `i < j` whose distance is within
    the threshold, in nested-loop order. */
module GpxUtils {

  /** A waypoint as `parse_gpx` produces it. A missing or empty text element
      is the empty string. */
  datatype Waypoint = Waypoint(
    lat: real,
    lon: real,
    name: string,
    description: string,
    comment: string,
    time: string,
    symbol: string,
    sourceFile: string)

  /** The distance between two waypoints in metres; its formula is not
      modelled and it need not be symmetric. */
  type Distance = (Waypoint, Waypoint) -> real

  /** One reported pair. `distanceM` is the distance before rounding. */
  datatype DuplicatePair = DuplicatePair(
    point1Idx: nat,
    point1Name: string,
    point1Source: string,
    point1Lat: real,
    point1Lon: real,
    point2Idx: nat,
    point2Name: string,
    point2Source: string,
    point2Lat: real,
    point2Lon: real,
    distanceM: real)

  /** The name a pair record shows for a waypoint: its name, else its description. */
  function PairName(w: Waypoint): (r: string)
    ensures r == "" <==> w.name == "" && w.description == ""
  {
    if w.name != "" then w.name else w.description
  }

  /** The record appended for the pair `(i, j)` at distance `d`. */
  function PairOf(ws: seq<Waypoint>, i: nat, j: nat, d: real): DuplicatePair
    requires i < |ws| && j < |ws|
  {
    DuplicatePair(i, PairName(ws[i]), ws[i].sourceFile, ws[i].lat, ws[i].lon,
                  j, PairName(ws[j]), ws[j].sourceFile, ws[j].lat, ws[j].lon, d)
  }

  /** The pairs `(i, k)` with `i < k < j`, in increasing `k`: the inner loop
      run up to `j`. */
  function Row(ws: seq<Waypoint>, dist: Distance, threshold: real, i: nat, j: nat): seq<DuplicatePair>
    requires i < |ws| && j <= |ws|
    decreases j
  {
    if j <= i + 1 then []
    else
      var d := dist(ws[i], ws[j - 1]);
      Row(ws, dist, threshold, i, j - 1) + (if d <= threshold then [PairOf(ws, i, j - 1, d)] else [])
  }

  /** The pairs whose first index is below `i`: the outer loop run up to `i`. */
  function PairsBefore(ws: seq<Waypoint>, dist: Distance, threshold: real, i: nat): seq<DuplicatePair>
    requires i <= |ws|
    decreases i
  {
    if i == 0 then []
    else PairsBefore(ws, dist, threshold, i - 1) + Row(ws, dist, threshold, i - 1, |ws|)
  }

  /** The whole report. */
  function DuplicatePairs(ws: seq<Waypoint>, dist: Distance, threshold: real): seq<DuplicatePair>
  {
    PairsBefore(ws, dist, threshold, |ws|)
  }

  /** `p` is a pair of positions of `ws` within the threshold, and its fields
      are copied from those two waypoints. */
  ghost predicate Describes(ws: seq<Waypoint>, dist: Distance, threshold: real, p: DuplicatePair)
  {
    && p.point1Idx < p.point2Idx < |ws|
    && p.distanceM == dist(ws[p.point1Idx], ws[p.point2Idx])
    && p.distanceM <= threshold
    && p.point1Name == (if ws[p.point1Idx].name != "" then ws[p.point1Idx].name else ws[p.point1Idx].description)
    && p.point2Name == (if ws[p.point2Idx].name != "" then ws[p.point2Idx].name else ws[p.point2Idx].description)
    && p.point1Source == ws[p.point1Idx].sourceFile && p.point2Source == ws[p.point2Idx].sourceFile
    && p.point1Lat == ws[p.point1Idx].lat && p.point1Lon == ws[p.point1Idx].lon
    && p.point2Lat == ws[p.point2Idx].lat && p.point2Lon == ws[p.point2Idx].lon
  }

  /** Lexicographic order on `(point1Idx, point2Idx)`. */
  predicate Before(p: DuplicatePair, q: DuplicatePair)
  {
    p.point1Idx < q.point1Idx || (p.point1Idx == q.point1Idx && p.point2Idx < q.point2Idx)
  }

  ghost predicate StrictlySorted(ps: seq<DuplicatePair>)
  {
    forall a, b :: 0 <= a < b < |ps| ==> Before(ps[a], ps[b])
  }

  /** `find_duplicates`: an outer loop over `i` and an inner loop over `j` from `i + 1` to the end. */
  method FindDuplicates(waypoints: seq<Waypoint>, dist: Distance, distanceThreshold: real)
    returns (duplicates: seq<DuplicatePair>)
    ensures duplicates == DuplicatePairs(waypoints, dist, distanceThreshold)
  {
    duplicates := [];
    var n := |waypoints|;
    for i := 0 to n
      invariant duplicates == PairsBefore(waypoints, dist, distanceThreshold, i)
    {
      for j := i + 1 to n
        invariant duplicates == PairsBefore(waypoints, dist, distanceThreshold, i)
                                + Row(waypoints, dist, distanceThreshold, i, j)
      {
        var d := dist(waypoints[i], waypoints[j]);
        if d <= distanceThreshold {
          duplicates := duplicates + [PairOf(waypoints, i, j, d)];
        }
      }
    }
  }

  /** Facts about one row: first index `i`, second index in `(i, j)`,
      strictly increasing, fields copied, never more than `j - i - 1` pairs. */
  lemma {:induction false} RowFacts(ws: seq<Waypoint>, dist: Distance, threshold: real, i: nat, j: nat)
    requires i < |ws| && j <= |ws|
    ensures var row := Row(ws, dist, threshold, i, j);
            && StrictlySorted(row)
            && (forall k :: 0 <= k < |row| ==> row[k].point1Idx == i && row[k].point2Idx < j)
            && (forall k :: 0 <= k < |row| ==> Describes(ws, dist, threshold, row[k]))
            && (j > i ==> |row| <= j - i - 1)
    decreases j
  {
    if j > i + 1 {
      RowFacts(ws, dist, threshold, i, j - 1);
    }
  }

  /** Every in-threshold `(i, k)` with `i < k < j` is in the row. */
  lemma {:induction false} RowComplete(ws: seq<Waypoint>, dist: Distance, threshold: real, i: nat, j: nat, k: nat)
    requires i < k < j <= |ws|
    requires dist(ws[i], ws[k]) <= threshold
    ensures exists m :: 0 <= m < |Row(ws, dist, threshold, i, j)|
                        && Row(ws, dist, threshold, i, j)[m].point1Idx == i
                        && Row(ws, dist, threshold, i, j)[m].point2Idx == k
    decreases j
  {
    var row := Row(ws, dist, threshold, i, j - 1);
    if k == j - 1 {
      assert Row(ws, dist, threshold, i, j)[|row|].point2Idx == k;
    } else {
      RowComplete(ws, dist, threshold, i, j - 1, k);
      var m :| 0 <= m < |row| && row[m].point1Idx == i && row[m].point2Idx == k;
      assert Row(ws, dist, threshold, i, j)[m] == row[m];
    }
  }

  lemma SortedConcat(a: seq<DuplicatePair>, b: seq<DuplicatePair>)
    requires StrictlySorted(a) && StrictlySorted(b)
    requires forall x, y :: 0 <= x < |a| && 0 <= y < |b| ==> Before(a[x], b[y])
    ensures StrictlySorted(a + b)
  {
    forall x, y | 0 <= x < y < |a + b|
      ensures Before((a + b)[x], (a + b)[y])
    {
      if y < |a| {
      } else if x >= |a| {
        assert (a + b)[x] == b[x - |a|] && (a + b)[y] == b[y - |a|];
      } else {
        assert (a + b)[y] == b[y - |a|];
      }
    }
  }

  /** The pairs before row `i`: first index below `i`, sorted, well formed. */
  lemma {:induction false} PairsBeforeFacts(ws: seq<Waypoint>, dist: Distance, threshold: real, i: nat)
    requires i <= |ws|
    ensures var ps := PairsBefore(ws, dist, threshold, i);
            && StrictlySorted(ps)
            && (forall k :: 0 <= k < |ps| ==> ps[k].point1Idx < i)
            && (forall k :: 0 <= k < |ps| ==> Describes(ws, dist, threshold, ps[k]))
    decreases i
  {
    if i > 0 {
      var pre := PairsBefore(ws, dist, threshold, i - 1);
      var row := Row(ws, dist, threshold, i - 1, |ws|);
      PairsBeforeFacts(ws, dist, threshold, i - 1);
      RowFacts(ws, dist, threshold, i - 1, |ws|);
      SortedConcat(pre, row);
      var ps := pre + row;
      forall k | 0 <= k < |ps|
        ensures ps[k].point1Idx < i && Describes(ws, dist, threshold, ps[k])
      {
        if k >= |pre| {
          assert ps[k] == row[k - |pre|];
        }
      }
    }
  }

  /** Rows `0 .. i - 1` hold at most `i * (2n - i - 1) / 2` pairs. */
  lemma {:induction false} PairsBeforeCount(ws: seq<Waypoint>, dist: Distance, threshold: real, i: nat)
    requires i <= |ws|
    ensures 2 * |PairsBefore(ws, dist, threshold, i)| <= i * (2 * |ws| - i - 1)
    decreases i
  {
    if i > 0 {
      var n := |ws|;
      PairsBeforeCount(ws, dist, threshold, i - 1);
      RowFacts(ws, dist, threshold, i - 1, n);
      TriangleStep(n, i);
    }
  }

  lemma TriangleStep(n: int, i: int)
    ensures (i - 1) * (2 * n - i) + 2 * (n - i) == i * (2 * n - i - 1)
  {
  }

  /** Every reported pair has `point1_idx < point2_idx < n`, its fields copied
      from the two waypoints, and a distance within the threshold. */
  lemma ReportedPairsWellFormed(ws: seq<Waypoint>, dist: Distance, threshold: real)
    ensures forall k :: 0 <= k < |DuplicatePairs(ws, dist, threshold)| ==>
              Describes(ws, dist, threshold, DuplicatePairs(ws, dist, threshold)[k])
  {
    PairsBeforeFacts(ws, dist, threshold, |ws|);
  }

  /** Pairs come in strictly increasing `(i, j)` order, so none is repeated. */
  lemma ReportedPairsSorted(ws: seq<Waypoint>, dist: Distance, threshold: real)
    ensures StrictlySorted(DuplicatePairs(ws, dist, threshold))
    ensures forall a, b :: 0 <= a < b < |DuplicatePairs(ws, dist, threshold)| ==>
              DuplicatePairs(ws, dist, threshold)[a] != DuplicatePairs(ws, dist, threshold)[b]
  {
    PairsBeforeFacts(ws, dist, threshold, |ws|);
  }

  /** At most `n * (n - 1) / 2` pairs; none for fewer than two waypoints. */
  lemma ReportedPairsCount(ws: seq<Waypoint>, dist: Distance, threshold: real)
    ensures 2 * |DuplicatePairs(ws, dist, threshold)| <= |ws| * (|ws| - 1)
    ensures |ws| <= 1 ==> DuplicatePairs(ws, dist, threshold) == []
  {
    PairsBeforeCount(ws, dist, threshold, |ws|);
  }

  /** The pair `(i, j)` with `i < j` is reported exactly when
      `dist(ws[i], ws[j])` is within the threshold. */
  lemma PairReportedIff(ws: seq<Waypoint>, dist: Distance, threshold: real, i: nat, j: nat)
    requires i < j < |ws|
    ensures (exists k :: 0 <= k < |DuplicatePairs(ws, dist, threshold)|
                         && DuplicatePairs(ws, dist, threshold)[k].point1Idx == i
                         && DuplicatePairs(ws, dist, threshold)[k].point2Idx == j)
            <==> dist(ws[i], ws[j]) <= threshold
  {
    var all := DuplicatePairs(ws, dist, threshold);
    ReportedPairsWellFormed(ws, dist, threshold);
    if dist(ws[i], ws[j]) <= threshold {
      ReportedAfterRow(ws, dist, threshold, i, j, |ws|);
    }
  }

  /** An in-threshold pair of row `i` is in every prefix of rows past `i`. */
  lemma {:induction false} ReportedAfterRow(ws: seq<Waypoint>, dist: Distance, threshold: real, i: nat, j: nat, upTo: nat)
    requires i < j < |ws| && i < upTo <= |ws|
    requires dist(ws[i], ws[j]) <= threshold
    ensures exists k :: 0 <= k < |PairsBefore(ws, dist, threshold, upTo)|
                        && PairsBefore(ws, dist, threshold, upTo)[k].point1Idx == i
                        && PairsBefore(ws, dist, threshold, upTo)[k].point2Idx == j
    decreases upTo
  {
    var pre := PairsBefore(ws, dist, threshold, upTo - 1);
    var row := Row(ws, dist, threshold, upTo - 1, |ws|);
    var all := PairsBefore(ws, dist, threshold, upTo);
    assert all == pre + row;
    if upTo - 1 == i {
      RowComplete(ws, dist, threshold, i, |ws|, j);
      var m :| 0 <= m < |row| && row[m].point1Idx == i && row[m].point2Idx == j;
      assert all[|pre| + m] == row[m];
    } else {
      ReportedAfterRow(ws, dist, threshold, i, j, upTo - 1);
      var m :| 0 <= m < |pre| && pre[m].point1Idx == i && pre[m].point2Idx == j;
      assert all[m] == pre[m];
    }
  }
}
