/** The west/east region build of `main` in scripts/deduplicate_gpx.py:
    sources of a fixed region are concatenated as they are, the own points
    are split by longitude, and each region is then deduplicated. */
module Regions {
  import opened GpxRecords
  import opened Deduplicate

  /** `LON_BOUNDARY`: points west of it belong to the west region. */
  const LonBoundary: real := 127.5

  /** The own points strictly west of `LonBoundary`, in input order (`my_west`). */
  function WestOf(ps: seq<Waypoint>): (r: seq<Waypoint>)
    ensures |r| <= |ps|
    ensures forall k :: 0 <= k < |r| ==> r[k].lon < LonBoundary
  {
    if ps == [] then []
    else (if ps[0].lon < LonBoundary then [ps[0]] else []) + WestOf(ps[1..])
  }

  /** The own points at or east of `LonBoundary`, in input order (`my_east`). */
  function EastOf(ps: seq<Waypoint>): (r: seq<Waypoint>)
    ensures |r| <= |ps|
    ensures forall k :: 0 <= k < |r| ==> r[k].lon >= LonBoundary
  {
    if ps == [] then []
    else (if ps[0].lon >= LonBoundary then [ps[0]] else []) + EastOf(ps[1..])
  }

  /** The points one source file contributes: nothing when the file does not
      exist (`None`). A file that fails part-way is `Some` of the waypoints
      read before the failure, and `Some([])` when its XML does not parse. */
  function Loaded(file: Option<seq<Waypoint>>): seq<Waypoint>
  {
    if file.Some? then file.value else []
  }

  /** The points of the existing files, file after file. */
  function Gather(files: seq<Option<seq<Waypoint>>>): seq<Waypoint>
    decreases |files|
  {
    if files == [] then []
    else Gather(files[..|files| - 1]) + Loaded(files[|files| - 1])
  }

  /** The collection part of `main`: the west files, then the east files,
      then the own points split by longitude, each region grown by `extend`. */
  method CollectRegions(westFiles: seq<Option<seq<Waypoint>>>, eastFiles: seq<Option<seq<Waypoint>>>,
                        myOwnFile: Option<seq<Waypoint>>)
    returns (westPoints: seq<Waypoint>, eastPoints: seq<Waypoint>)
    ensures westPoints == Gather(westFiles) + WestOf(Loaded(myOwnFile))
    ensures eastPoints == Gather(eastFiles) + EastOf(Loaded(myOwnFile))
  {
    westPoints, eastPoints := [], [];
    for k := 0 to |westFiles|
      invariant westPoints == Gather(westFiles[..k])
    {
      if westFiles[k].Some? {
        westPoints := westPoints + westFiles[k].value;
      }
      assert westFiles[..k + 1][..k] == westFiles[..k];
    }
    assert westFiles[..|westFiles|] == westFiles;
    for k := 0 to |eastFiles|
      invariant eastPoints == Gather(eastFiles[..k])
    {
      if eastFiles[k].Some? {
        eastPoints := eastPoints + eastFiles[k].value;
      }
      assert eastFiles[..k + 1][..k] == eastFiles[..k];
    }
    assert eastFiles[..|eastFiles|] == eastFiles;
    if myOwnFile.Some? {
      var myPoints := myOwnFile.value;
      var myWest := WestOf(myPoints);
      var myEast := EastOf(myPoints);
      westPoints := westPoints + myWest;
      eastPoints := eastPoints + myEast;
    }
  }

  /** `main` without its I/O: collect both regions, then deduplicate each with
      the 10 m radius. */
  method ProcessRegions(westFiles: seq<Option<seq<Waypoint>>>, eastFiles: seq<Option<seq<Waypoint>>>,
                        myOwnFile: Option<seq<Waypoint>>, dist: Distance)
    returns (westPoints: seq<Waypoint>, eastPoints: seq<Waypoint>,
             westUnique: seq<Waypoint>, eastUnique: seq<Waypoint>)
    ensures westPoints == Gather(westFiles) + WestOf(Loaded(myOwnFile))
    ensures eastPoints == Gather(eastFiles) + EastOf(Loaded(myOwnFile))
    ensures westUnique == Dedup(westPoints, dist, DuplicateRadius)
    ensures eastUnique == Dedup(eastPoints, dist, DuplicateRadius)
    ensures |westUnique| <= |westPoints| && |eastUnique| <= |eastPoints|
    ensures Separated(westUnique, dist, DuplicateRadius) && Separated(eastUnique, dist, DuplicateRadius)
  {
    westPoints, eastPoints := CollectRegions(westFiles, eastFiles, myOwnFile);
    westUnique := RemoveDuplicates(westPoints, dist, DuplicateRadius);
    eastUnique := RemoveDuplicates(eastPoints, dist, DuplicateRadius);
    DedupIsSubsequence(westPoints, dist, DuplicateRadius);
    DedupIsSubsequence(eastPoints, dist, DuplicateRadius);
    DedupSeparated(westPoints, dist, DuplicateRadius);
    DedupSeparated(eastPoints, dist, DuplicateRadius);
  }

  /** Every own point lands in exactly one region: the two lists together
      hold each point as often as the input does, so their lengths add up. */
  lemma {:induction false} SplitIsPartition(ps: seq<Waypoint>)
    ensures multiset(WestOf(ps)) + multiset(EastOf(ps)) == multiset(ps)
    ensures |WestOf(ps)| + |EastOf(ps)| == |ps|
  {
    if ps != [] {
      SplitIsPartition(ps[1..]);
      assert ps == [ps[0]] + ps[1..];
    }
  }

  /** The west list holds exactly the points west of the boundary, the east
      list exactly the others; a point on the boundary goes east. */
  lemma {:induction false} SplitMembership(ps: seq<Waypoint>, p: Waypoint)
    ensures p in WestOf(ps) <==> p in ps && p.lon < LonBoundary
    ensures p in EastOf(ps) <==> p in ps && p.lon >= LonBoundary
  {
    if ps != [] {
      SplitMembership(ps[1..], p);
      assert ps == [ps[0]] + ps[1..];
    }
  }

  /** Both lists keep input order: splitting commutes with concatenation. */
  lemma {:induction false} SplitKeepsOrder(a: seq<Waypoint>, b: seq<Waypoint>)
    ensures WestOf(a + b) == WestOf(a) + WestOf(b)
    ensures EastOf(a + b) == EastOf(a) + EastOf(b)
  {
    if a != [] {
      SplitKeepsOrder(a[1..], b);
      assert (a + b)[1..] == a[1..] + b;
    } else {
      assert a + b == b;
    }
  }

  /** Gathering commutes with concatenation of the file list. */
  lemma {:induction false} GatherAppend(a: seq<Option<seq<Waypoint>>>, b: seq<Option<seq<Waypoint>>>)
    ensures Gather(a + b) == Gather(a) + Gather(b)
    decreases |b|
  {
    if b == [] {
      assert a + b == a;
    } else {
      var b' := b[..|b| - 1];
      GatherAppend(a, b');
      assert (a + b)[..|a + b| - 1] == a + b';
    }
  }

  /** A point is gathered exactly when some existing file holds it. */
  lemma {:induction false} GatherMembership(files: seq<Option<seq<Waypoint>>>, p: Waypoint)
    ensures p in Gather(files) <==> exists f :: 0 <= f < |files| && p in Loaded(files[f])
    decreases |files|
  {
    if files != [] {
      var pre := files[..|files| - 1];
      GatherMembership(pre, p);
      if p in Gather(pre) {
        var f :| 0 <= f < |pre| && p in Loaded(pre[f]);
        assert files[f] == pre[f];
      }
      if exists f :: 0 <= f < |files| && p in Loaded(files[f]) {
        var f :| 0 <= f < |files| && p in Loaded(files[f]);
        if f < |pre| {
          assert files[f] == pre[f];
        }
      }
    }
  }
}
