/** Greedy radius deduplication (`remove_duplicates` in
    scripts/deduplicate_gpx.py): a waypoint is kept only when it lies farther
    than the radius from every waypoint kept before it. */
module Deduplicate {
  import opened GpxRecords

  /** `DUPLICATE_RADIUS_M`, the radius `main` deduplicates with. */
  const DuplicateRadius: real := 10.0

  /** `wpt` is within `radius` of some already kept waypoint: the inner
      loop's `is_duplicate`, with the distance taken as `dist(wpt, existing)`. */
  predicate NearSome(wpt: Waypoint, kept: seq<Waypoint>, dist: Distance, radius: real)
  {
    exists k :: 0 <= k < |kept| && dist(wpt, kept[k]) <= radius
  }

  /** The waypoints the greedy pass keeps, in input order. */
  function Dedup(ws: seq<Waypoint>, dist: Distance, radius: real): (r: seq<Waypoint>)
    ensures |r| <= |ws|
    ensures forall x :: x in r ==> x in ws
    decreases |ws|
  {
    if ws == [] then []
    else
      var kept := Dedup(ws[..|ws| - 1], dist, radius);
      if NearSome(ws[|ws| - 1], kept, dist, radius) then kept else kept + [ws[|ws| - 1]]
  }

  /** The input positions of the waypoints `Dedup` keeps. */
  ghost function KeptIndices(ws: seq<Waypoint>, dist: Distance, radius: real): (idx: seq<nat>)
    ensures |idx| == |Dedup(ws, dist, radius)|
    decreases |ws|
  {
    if ws == [] then []
    else
      var idx := KeptIndices(ws[..|ws| - 1], dist, radius);
      if NearSome(ws[|ws| - 1], Dedup(ws[..|ws| - 1], dist, radius), dist, radius) then idx
      else idx + [|ws| - 1]
  }

  /** `r` is the subsequence of `ws` at the strictly increasing positions `idx`. */
  ghost predicate SelectedAt(r: seq<Waypoint>, idx: seq<nat>, ws: seq<Waypoint>)
  {
    && |idx| == |r|
    && (forall k :: 0 <= k < |idx| ==> idx[k] < |ws| && r[k] == ws[idx[k]])
    && (forall a, b :: 0 <= a < b < |idx| ==> idx[a] < idx[b])
  }

  /** Every waypoint of `s` is farther than `radius` from every waypoint before it. */
  ghost predicate Separated(s: seq<Waypoint>, dist: Distance, radius: real)
  {
    forall a, b :: 0 <= a < b < |s| ==> dist(s[b], s[a]) > radius
  }

  /** `remove_duplicates`: the nested loop with the `is_duplicate` flag and `break`. */
  method RemoveDuplicates(waypoints: seq<Waypoint>, dist: Distance, radiusM: real)
    returns (unique: seq<Waypoint>)
    ensures waypoints == [] ==> unique == []
    ensures unique == Dedup(waypoints, dist, radiusM)
  {
    if |waypoints| == 0 {
      return [];
    }
    unique := [];
    var i := 0;
    while i < |waypoints|
      invariant 0 <= i <= |waypoints|
      invariant unique == Dedup(waypoints[..i], dist, radiusM)
    {
      var wpt := waypoints[i];
      var isDuplicate := false;
      var j := 0;
      while j < |unique|
        invariant 0 <= j <= |unique|
        invariant !isDuplicate
        invariant forall k :: 0 <= k < j ==> dist(wpt, unique[k]) > radiusM
      {
        var d := dist(wpt, unique[j]);
        if d <= radiusM {
          isDuplicate := true;
          break;
        }
        j := j + 1;
      }
      assert isDuplicate == NearSome(wpt, unique, dist, radiusM);
      if !isDuplicate {
        unique := unique + [wpt];
      }
      assert waypoints[..i + 1][..i] == waypoints[..i];
      i := i + 1;
    }
    assert waypoints[..i] == waypoints;
  }

  /** The output is an order-preserving subsequence of the input, so never longer. */
  lemma {:induction false} DedupIsSubsequence(ws: seq<Waypoint>, dist: Distance, radius: real)
    ensures SelectedAt(Dedup(ws, dist, radius), KeptIndices(ws, dist, radius), ws)
    ensures |Dedup(ws, dist, radius)| <= |ws|
    decreases |ws|
  {
    if ws != [] {
      var pre := ws[..|ws| - 1];
      DedupIsSubsequence(pre, dist, radius);
      var idx := KeptIndices(pre, dist, radius);
      assert forall k :: 0 <= k < |idx| ==> ws[idx[k]] == pre[idx[k]];
    }
  }

  /** A non-empty input keeps its first waypoint, as the first output element. */
  lemma {:induction false} DedupKeepsFirst(ws: seq<Waypoint>, dist: Distance, radius: real)
    requires |ws| > 0
    ensures |Dedup(ws, dist, radius)| > 0 && Dedup(ws, dist, radius)[0] == ws[0]
    ensures KeptIndices(ws, dist, radius)[0] == 0
    decreases |ws|
  {
    var pre := ws[..|ws| - 1];
    if |ws| > 1 {
      DedupKeepsFirst(pre, dist, radius);
      DedupIsSubsequence(pre, dist, radius);
    }
  }

  /** Kept waypoints are pairwise farther apart than the radius, measured from
      the later one to the earlier one. */
  lemma {:induction false} DedupSeparated(ws: seq<Waypoint>, dist: Distance, radius: real)
    ensures Separated(Dedup(ws, dist, radius), dist, radius)
    decreases |ws|
  {
    if ws != [] {
      DedupSeparated(ws[..|ws| - 1], dist, radius);
    }
  }

  /** Every dropped waypoint lies within the radius of a kept waypoint that
      comes earlier in the input. */
  lemma {:induction false} DroppedHasEarlierNeighbour(ws: seq<Waypoint>, dist: Distance, radius: real, i: nat)
    requires i < |ws| && i !in KeptIndices(ws, dist, radius)
    ensures exists k :: 0 <= k < |Dedup(ws, dist, radius)| && KeptIndices(ws, dist, radius)[k] < i
                        && dist(ws[i], Dedup(ws, dist, radius)[k]) <= radius
    decreases |ws|
  {
    var pre := ws[..|ws| - 1];
    var kept, idx := Dedup(pre, dist, radius), KeptIndices(pre, dist, radius);
    var r := Dedup(ws, dist, radius);
    DedupIsSubsequence(pre, dist, radius);
    if i == |ws| - 1 {
      assert NearSome(ws[i], kept, dist, radius);
      var k :| 0 <= k < |kept| && dist(ws[i], kept[k]) <= radius;
      assert r[k] == kept[k] && KeptIndices(ws, dist, radius)[k] == idx[k];
    } else {
      assert i !in idx;
      DroppedHasEarlierNeighbour(pre, dist, radius, i);
      var k :| 0 <= k < |kept| && idx[k] < i && dist(pre[i], kept[k]) <= radius;
      assert r[k] == kept[k] && KeptIndices(ws, dist, radius)[k] == idx[k];
    }
  }

  /** The greedy rule stated on positions: waypoint `i` is kept exactly when
      it is farther than the radius from every waypoint kept before it. */
  lemma KeptIff(ws: seq<Waypoint>, dist: Distance, radius: real, i: nat)
    requires i < |ws|
    ensures var r, idx := Dedup(ws, dist, radius), KeptIndices(ws, dist, radius);
            i in idx <==> forall k :: 0 <= k < |r| && idx[k] < i ==> dist(ws[i], r[k]) > radius
  {
    var r, idx := Dedup(ws, dist, radius), KeptIndices(ws, dist, radius);
    DedupIsSubsequence(ws, dist, radius);
    if i in idx {
      DedupSeparated(ws, dist, radius);
      var b :| 0 <= b < |idx| && idx[b] == i;
      forall k | 0 <= k < |r| && idx[k] < i
        ensures dist(ws[i], r[k]) > radius
      {
        assert k < b;
      }
    } else {
      DroppedHasEarlierNeighbour(ws, dist, radius, i);
    }
  }

  /** A separated sequence passes through unchanged. */
  lemma {:induction false} SeparatedIsFixpoint(s: seq<Waypoint>, dist: Distance, radius: real)
    requires Separated(s, dist, radius)
    ensures Dedup(s, dist, radius) == s
    decreases |s|
  {
    if s != [] {
      var pre := s[..|s| - 1];
      assert Separated(pre, dist, radius);
      SeparatedIsFixpoint(pre, dist, radius);
      assert !NearSome(s[|s| - 1], pre, dist, radius);
      assert pre + [s[|s| - 1]] == s;
    }
  }

  /** Running the deduplication on its own output changes nothing. */
  lemma {:induction false} DedupIdempotent(ws: seq<Waypoint>, dist: Distance, radius: real)
    ensures Dedup(Dedup(ws, dist, radius), dist, radius) == Dedup(ws, dist, radius)
  {
    DedupSeparated(ws, dist, radius);
    SeparatedIsFixpoint(Dedup(ws, dist, radius), dist, radius);
  }

  /** A cluster whose every point lies within the radius of the first one
      collapses to that first point. */
  lemma {:induction false} ClusterCollapses(ws: seq<Waypoint>, dist: Distance, radius: real)
    requires |ws| > 0
    requires forall i :: 0 < i < |ws| ==> dist(ws[i], ws[0]) <= radius
    ensures Dedup(ws, dist, radius) == [ws[0]]
    decreases |ws|
  {
    if |ws| > 1 {
      var pre := ws[..|ws| - 1];
      ClusterCollapses(pre, dist, radius);
      assert dist(ws[|ws| - 1], Dedup(pre, dist, radius)[0]) <= radius;
    } else {
      assert ws[..0] == [];
    }
  }
}
