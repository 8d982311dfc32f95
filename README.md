# Fishing-point waypoint deduplication, modelled in Dafny

This project models the in-memory logic of two scripts that clean up GPX
fishing-point files:

- `scripts/deduplicate_gpx.py`:
  - the greedy radius deduplication `remove_duplicates`. A waypoint is kept only if it lies farther than the radius from every waypoint kept before it. A distance equal to the radius counts as a duplicate.
  - the west/east region build in `main`. Files of a fixed region are concatenated. The own points are split at longitude 127.5; a point exactly on 127.5 goes east. Each region is then deduplicated with a 10 m radius.
  - the per-waypoint text step of `write_gpx`. The shown name is `name`, else `desc`, else `"Point"`. XML is escaped by replacing `&`, then `<`, then `>`.
- `scripts/gpx_utils.py`: the pairwise report `find_duplicates`. It lists every index pair `i < j` whose distance is within the threshold, in nested-loop order.

The distance is a parameter of every operation, a total function
`(Waypoint, Waypoint) -> real`. It is applied with the argument order of the
source: `dist(candidate, kept)` in the deduplication and
`dist(waypoints[i], waypoints[j])` in the report. Nothing assumes it is
symmetric or zero on equal points, so every result holds for any distance
function, haversine included.

Files:

- `records.dfy`: module `GpxRecords`, holding the waypoint record of the deduplication script, the distance type and `Option`.
- `deduplicate.dfy`: module `Deduplicate`. `Dedup` is the specification of the greedy pass. `RemoveDuplicates` is the nested loop, proved equal to `Dedup`. Lemmas give subsequence, first-kept, coverage, separation and idempotence.
- `regions.dfy`: module `Regions`. It holds the longitude split, the concatenation of source files, and the imperative collection and deduplication of both regions.
- `gpx_writer.dfy`: module `GpxWriter`. It holds the name fallback and escaping. The three chained replacements are proved equal to a single pass, free of `<` and `>`, and inverted by XML entity decoding.
- `gpx_utils.dfy`: module `GpxUtils`. It holds the report's own waypoint and pair records, the nested-loop method, and the lemmas on bounds, iff-membership, order, count and copied fields.

A missing file is `None`. A file that fails part-way is `Some` of the
waypoints read before the failure, because `parse_waypoints` appends inside
its `try` and returns the list after the `except`; it is `Some([])` when the
XML itself does not parse. For `name`, `desc` and `cmt`, an element with no
text becomes the empty string. `write_gpx` reads these three through `or`,
which treats `None` and `""` alike.

## Model

| member | source | states |
|---|---|---|
| Deduplicate.Dedup | scripts/deduplicate_gpx.py:93-104 | the specification of the greedy pass: the last input point is appended iff it is farther than the radius from every point kept from the earlier ones; the result is never longer than the input and holds only input points |
| Deduplicate.NearSome | scripts/deduplicate_gpx.py:95-100 | the inner loop's `is_duplicate`: some kept waypoint lies within the radius (`<=`) of the candidate, measured as `dist(candidate, kept)` (definition; its properties are KeptIff and DroppedHasEarlierNeighbour) |
| Deduplicate.RemoveDuplicates | scripts/deduplicate_gpx.py:88-104 | the nested loop with the `is_duplicate` flag and `break` returns exactly the greedy result `Dedup`; empty input gives empty output |
| Deduplicate.DedupIsSubsequence | scripts/deduplicate_gpx.py:93-104 | the output is the input at strictly increasing positions (an order-preserving subsequence), so it is never longer than the input |
| Deduplicate.DedupKeepsFirst | scripts/deduplicate_gpx.py:93-102 | a non-empty input always keeps its first waypoint, as the first output element (position 0) |
| Deduplicate.DedupSeparated | scripts/deduplicate_gpx.py:96-102 | for every kept waypoint and every waypoint kept before it, `dist(later, earlier) > radius` |
| Deduplicate.DroppedHasEarlierNeighbour | scripts/deduplicate_gpx.py:96-100 | every dropped waypoint is within the radius (`<=`) of some kept waypoint that appears earlier in the input |
| Deduplicate.KeptIff | scripts/deduplicate_gpx.py:94-102 | waypoint `i` is kept if and only if it is farther than the radius from every waypoint kept at an earlier position |
| Deduplicate.SeparatedIsFixpoint | scripts/deduplicate_gpx.py:93-104 | a sequence whose elements are already separated passes through unchanged |
| Deduplicate.DedupIdempotent | scripts/deduplicate_gpx.py:88-104 | deduplicating the output again returns it unchanged |
| Deduplicate.ClusterCollapses | scripts/deduplicate_gpx.py:93-102 | if every later point is within the radius of the first, the output is exactly the first point |
| Regions.WestOf | scripts/deduplicate_gpx.py:180 | the own points with `lon < 127.5`, in input order; never longer than the input, and every element lies west of the boundary |
| Regions.EastOf | scripts/deduplicate_gpx.py:181 | the own points with `lon >= 127.5`, in input order; never longer than the input, and every element lies at or east of the boundary |
| Regions.Loaded | scripts/deduplicate_gpx.py:164-167 | a missing file (`None`) contributes no points; an existing file contributes its parsed list (definition; no contract of its own) |
| Regions.Gather | scripts/deduplicate_gpx.py:164-175 | the points of the existing files, file after file, as `extend` grows the list (definition; its properties are GatherAppend and GatherMembership) |
| Regions.CollectRegions | scripts/deduplicate_gpx.py:160-183 | the west list is the existing west files in order followed by the own points west of 127.5; the east list is the east files followed by the own points at or east of 127.5 |
| Regions.ProcessRegions | scripts/deduplicate_gpx.py:160-192 | each region is collected as above and then deduplicated with the 10 m radius; each result is no longer than its input and separated |
| Regions.SplitIsPartition | scripts/deduplicate_gpx.py:180-181 | the west and east lists together hold every own point exactly as often as the input does, so their lengths add up to the input length |
| Regions.SplitMembership | scripts/deduplicate_gpx.py:180-181 | a point is in the west list iff it is an input point with `lon < 127.5`, and in the east list iff it is an input point with `lon >= 127.5` (a point on the boundary goes east) |
| Regions.SplitKeepsOrder | scripts/deduplicate_gpx.py:180-181 | splitting commutes with concatenation, so both lists keep the input order |
| Regions.GatherAppend | scripts/deduplicate_gpx.py:164-175 | concatenating the points of a file list commutes with concatenating file lists |
| Regions.GatherMembership | scripts/deduplicate_gpx.py:164-175 | a point is gathered iff some existing file holds it; a missing file contributes nothing |
| GpxWriter.DisplayName | scripts/deduplicate_gpx.py:124 | the shown name is never empty; it is `name` when that is non-empty, else `desc` when that is non-empty, else `"Point"` |
| GpxWriter.ReplaceChar | scripts/deduplicate_gpx.py:126-128 | `str.replace` with a one-character pattern: when the replacement text does not contain the pattern, no occurrence of it remains |
| GpxWriter.Escape | scripts/deduplicate_gpx.py:126-128 | the three chained replacements, `&` first, then `<`, then `>` (definition; its properties are EscapeIsSinglePass, EscapeNoAngles, EscapeUnchanged, EscapeLength and EscapeRoundTrip) |
| GpxWriter.ElementOf | scripts/deduplicate_gpx.py:123-136 | name, desc and cmt are the single-pass escape of the display name and of the two fields; the written name is non-empty; name, desc and cmt contain no `<` or `>` and decode back to the source text; desc and cmt lines are written iff the source field is non-empty; coordinates and symbol are copied |
| GpxWriter.ReplaceCharAbsent | scripts/deduplicate_gpx.py:126-128 | `replace` of a character the text does not contain leaves the text unchanged |
| GpxWriter.EscapeIsSinglePass | scripts/deduplicate_gpx.py:126-128 | because `&` is replaced first, the chained replacements equal one left-to-right pass that maps each character once, so the inserted `&lt;` and `&gt;` are never re-escaped |
| GpxWriter.EscapeNoAngles | scripts/deduplicate_gpx.py:126-128 | escaped text contains no `<` and no `>` |
| GpxWriter.EscapeUnchanged | scripts/deduplicate_gpx.py:126-128 | text with no `&`, `<` or `>` is left unchanged |
| GpxWriter.EscapeLength | scripts/deduplicate_gpx.py:127-135 | escaping never shortens, and text escapes to empty iff it is empty (which decides the `if desc:` and `if cmt:` lines) |
| GpxWriter.EscapeRoundTrip | scripts/deduplicate_gpx.py:126-128 | decoding the three entities from escaped text gives back the original text |
| GpxUtils.PairName | scripts/gpx_utils.py:91-96 | a pair shows the waypoint's name, else its description; the result is empty only when both are empty |
| GpxUtils.PairOf | scripts/gpx_utils.py:89-101 | the record appended for `(i, j)`: both indices, names, sources, lat and lon of the two waypoints, and the distance (definition; ReportedPairsWellFormed states these fields of every reported pair) |
| GpxUtils.Row | scripts/gpx_utils.py:83-101 | the inner loop run up to `j`: the in-threshold pairs `(i, k)` with `i < k < j`, in increasing `k` (definition; its properties are RowFacts and RowComplete) |
| GpxUtils.PairsBefore | scripts/gpx_utils.py:82-101 | the outer loop run up to `i`: the rows of `0 .. i - 1`, one after the other (definition; its properties are PairsBeforeFacts and PairsBeforeCount) |
| GpxUtils.DuplicatePairs | scripts/gpx_utils.py:79-103 | the whole report of `find_duplicates` (definition; its properties are ReportedPairsWellFormed, PairReportedIff, ReportedPairsSorted and ReportedPairsCount) |
| GpxUtils.FindDuplicates | scripts/gpx_utils.py:74-103 | the outer loop over `i` and the inner loop over `j > i` return exactly `DuplicatePairs`, the rows of in-threshold pairs for `i = 0 .. n - 1` |
| GpxUtils.ReportedPairsWellFormed | scripts/gpx_utils.py:80-99 | every pair has `point1_idx < point2_idx < n` and a distance within the threshold; each name is `name` if non-empty, else `description`; lat, lon and source are copied from `waypoints[i]` and `waypoints[j]` |
| GpxUtils.PairReportedIff | scripts/gpx_utils.py:82-88 | for `i < j < n`, the pair `(i, j)` is reported iff `dist(waypoints[i], waypoints[j]) <= distance_threshold` |
| GpxUtils.ReportedPairsSorted | scripts/gpx_utils.py:82-102 | pairs come in strictly increasing lexicographic `(i, j)` order, so no pair is reported twice |
| GpxUtils.ReportedPairsCount | scripts/gpx_utils.py:80-83 | at most `n * (n - 1) / 2` pairs are reported; inputs of length 0 or 1 yield none |
| GpxUtils.RowFacts | scripts/gpx_utils.py:83-101 | one inner loop up to `j`: every pair has first index `i` and second index below `j`, the pairs are sorted and well formed, and there are at most `j - i - 1` of them |
| GpxUtils.RowComplete | scripts/gpx_utils.py:83-88 | one inner loop up to `j` reports every in-threshold `(i, k)` with `i < k < j` |

## Left out

- `haversine` and `haversine_distance` are replaced by an arbitrary distance function. Both are floating-point trigonometry, and they use different formulas (`asin` and `atan2`).
- GpxWriter.ElementOf: a symbol that `parse_waypoints` reads as `None` is not modelled. An empty `<sym/>` element gives `None`, and the source writes it as the text `None`. In the model `sym` is always a string and is copied unchanged.
- GpxUtils.FindDuplicates: `distance_m` holds the distance before `round(dist, 2)`, because float rounding is not modelled.
- Longitudes and latitudes are exact reals, not 64-bit floats. The `:.9f` coordinate formatting of `write_gpx` is not modelled. One consequence: `float` accepts `"nan"`, and a NaN longitude passes neither `< 127.5` nor `>= 127.5`, so the source drops such an own point from both regions. SplitIsPartition and SplitMembership therefore hold for finite coordinates only; a real has no NaN.
- `parse_waypoints` and `parse_gpx` are not modelled. They are thin wrappers over an XML library: the namespace fallback, the `'Fish'` default symbol, and the element truthiness test in `parse_gpx`. The model starts from parsed records.
- `write_gpx`: the file writing, the XML header and the UTC timestamp are out, because they are I/O and the clock. The symbol is written unescaped; the model copies it unchanged.
- `main`: `Path.exists` becomes the `None`/`Some` of each source file. `mkdir`, printing and the summary counts are out; `ProcessRegions` returns both the before and after lists the counts come from.
- `export_to_csv`, `export_to_json`, `get_statistics`, `process_all_gpx` and the command-line parsing of `gpx_utils.py` are out. They are tabular and JSON export, statistics, directory globbing, printing and argparse.
- Category classification and short-name generation do not appear in either modelled script and are not part of this model.
