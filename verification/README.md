# SkyLine footprints and the greedy mosaic, in Dafny

This project models the footprint bookkeeping of `lib/skyline.py` from the
`stsci_sphere` package and proves properties of it.

A `SkyLine` is a footprint on the sky. It holds a duplicate-free list of
`SkyLineMember`s (one per image) and a composite spherical polygon. The model covers
these parts of the module:

- the `members` setter, which removes duplicates and keeps the first occurrence of each
  member (`Members`);
- the constructor's polygon rule, `_rough_id`, `add_image`, and `find_intersection` with
  `_find_members` (`SkyLines`);
- the two overlap scans, `find_max_overlap` and `max_overlap_pair` (`Overlaps`);
- the greedy `mosaic` (`MosaicSpec`, `Mosaics`). It seeds the mosaic with the pair of
  largest overlap. It then keeps uniting the remaining footprint that overlaps the mosaic
  most. When nothing overlaps any more, it excludes whatever remains.

Modelling choices:

- **Geometry is abstract.** `Geometry.Ops` bundles `union`, `intersection`, `area`,
  `hasPoints` (`len(points) > 0`), `intersects` (`intersects_poly`) and the empty polygon
  as uninterpreted total functions.
  - `union` and `intersection` return `None` where the spherical geometry library raises
    `ValueError` or `AssertionError`.
  - `area` is a non-negative real.
- **Identity is modelled by an id.** Neither `SkyLine` nor `SkyLineMember` defines
  `__eq__`. So `v not in self._members`, `in` and `list.remove` compare objects by
  identity. Each `SkyLine` and each `Member` carries an `id` standing for that identity,
  and datatype equality then is identity. Deduplication therefore compares members
  by identity, never by file name or extensions.
  - A new object's identity is passed in: `add_image` and `find_intersection` take the
    id of the footprint they create.
  - `mosaic` numbers the footprints it creates from `FreshId(skylines)` upwards. No
    input footprint has such an id.
- **Errors are values.** The module-level `SKYLINE_DEBUG` flag becomes a `tolerant`
  parameter. A propagating exception is the `Err` case of `Wrappers.Result`.
- **The loops are methods.** The loops of the `members` setter, `find_max_overlap`,
  `max_overlap_pair` and `mosaic` are methods with loop invariants. Each is proved equal
  to a specification:
  - `Dedup`, a function;
  - `IsMaxOverlap` and `IsMaxPair`, the tie-breaking maximum (the first strictly largest
    positive area);
  - `GrowSpec` and `SeedSpec`, which describe the `mosaic` loop one step at a time;
    `GrowSpec` picks each step's footprint through `MaxOverlapOf`.
- **The bookkeeping is proved about the specification.** `GrowSpecState` and
  `SeedSpecState` prove that `mosaic` partitions its input between included and excluded
  footprints. They also prove that the final mosaic holds the deduplicated members of
  every included footprint and the union chain of their polygons.
- **Ghost outputs.** `mosaic` returns rough ids (file names), which need not be distinct.
  The methods therefore also return, as ghost results, the footprints included (`inc`)
  and excluded (`exc`). They state `included == RoughIds(inc)` and
  `excluded == RoughIds(exc)`.

## Model

| member | source | states |
|---|---|---|
| Members.Dedup | lib/skyline.py:239-249 | the deduplicated list holds exactly the elements of the input, has no duplicates and is no longer than the input |
| Members.SetMembers | lib/skyline.py:239-249 | the setter's append loop stores exactly `Dedup(values)` |
| Members.DedupFirstOccurrenceOrder | lib/skyline.py:243-249 | the stored members keep the order of their first occurrences in the input |
| Members.DedupExample | lib/skyline.py:239-249 | for distinct `A, B, C`, `[A, B, A, C]` is stored as `[A, B, C]` |
| Members.DedupOfNoDups | lib/skyline.py:239-249 | a list without duplicates is stored unchanged |
| Members.NoDupsOccursOnce | lib/skyline.py:248-249 | in a stored member list every member occurs exactly once |
| Members.DedupExtends | lib/skyline.py:343 | deduplicating `a + b` keeps the deduplicated `a` as a prefix |
| Members.DedupAbsorbsPrefix | lib/skyline.py:343 | deduplicating an already deduplicated prefix again and then appending gives the same list as deduplicating once, so repeated `add_image` calls accumulate members as one deduplication of all member lists |
| Members.IndexOf | lib/skyline.py:497-498 | the position of the first occurrence, which `list.remove` drops and which orders the setter's output: it holds the element and nothing before it is equal |
| SkyLines.InitPolygon | lib/skyline.py:188-195 | no member gives the empty polygon, one member gives that member's polygon, more than one raises |
| SkyLines.New | lib/skyline.py:182-195 | `SkyLine(None)` has no members and the empty polygon; `SkyLine(fname)` has the one member and its polygon |
| SkyLines.RoughId | lib/skyline.py:272-277 | the first member's file name, and `None` exactly when there are no members |
| SkyLines.Intersecting | lib/skyline.py:316-317 | the comprehension keeps exactly the given members whose polygon intersects the footprint |
| SkyLines.IntersectingSnoc | lib/skyline.py:316-317 | one more given member is appended to the result exactly when it intersects |
| SkyLines.IntersectingAppend | lib/skyline.py:316-317 | the comprehension keeps the input order: filtering a concatenation concatenates the filtered parts |
| SkyLines.IntersectingCount | lib/skyline.py:316-317 | an intersecting member is kept as often as it is given, any other member never |
| SkyLines.FindMembers | lib/skyline.py:315-320 | a footprint without points finds no member; otherwise exactly the intersecting ones |
| SkyLines.DedupIntersecting | lib/skyline.py:365-367 | filtering and then deduplicating equals deduplicating and then filtering |
| SkyLines.AddImage | lib/skyline.py:341-344 | the new footprint has the union as polygon and the deduplicated concatenation of both member lists; it fails exactly when the union raises |
| SkyLines.AddImageMembers | lib/skyline.py:341-344 | `self`'s members come first, in order, then the members of `other` that are new; no duplicates, nothing else |
| SkyLines.AddImageEmpty | lib/skyline.py:341-344 | adding the empty footprint keeps the member list unchanged |
| SkyLines.FindIntersection | lib/skyline.py:365-368 | the new footprint has the intersection as polygon and the deduplicated `_find_members` of both member lists; it fails exactly when the intersection raises |
| SkyLines.FindIntersectionMembers | lib/skyline.py:365-368 | an intersection without points has no members; otherwise the members are the deduplicated concatenation, in order, filtered to those intersecting the result |
| Overlaps.EffectiveArea | lib/skyline.py:394-404 | the area a candidate counts with: the area of the intersection, or 0 when the intersection raises and the failure is tolerated |
| Overlaps.IsMaxOverlap | lib/skyline.py:406-408 | defines the answer of a scan: its area bounds every candidate's, `None` goes with 0, and a named footprint is the first candidate with that area, which is positive and larger than every earlier candidate's |
| Overlaps.FindMaxOverlap | lib/skyline.py:390-410 | strict mode fails exactly when some intersection raises; otherwise the answer is the first candidate with strictly largest positive area, whose area bounds every candidate's, or `(None, 0)` exactly when no candidate has positive area; tolerant mode counts a failed intersection as 0 |
| Overlaps.MaxOverlapUnique | lib/skyline.py:406-408 | the strict `>` tie-break determines the answer of a scan uniquely |
| Overlaps.MaxOverlapExists | lib/skyline.py:390-410 | every candidate list has an answer |
| Overlaps.MaxOverlapOf | lib/skyline.py:390-410 | the answer of a scan; when it names a footprint, that footprint is a candidate |
| Overlaps.RowOfScan | lib/skyline.py:434-435 | scanning `skylines[i+1:]` from `skylines[i]` gives row `i`'s largest pair area and the first partner reaching it |
| Overlaps.RowFailures | lib/skyline.py:435 | a failure while scanning `skylines[i+1:]` is a failing pair `(i, j)` with `j > i` |
| Overlaps.ScanStep | lib/skyline.py:433-439 | one row of the pair scan keeps the best pair of the rows seen so far, replacing it only on a strictly larger area |
| Overlaps.ScanDone | lib/skyline.py:430-441 | after all rows, the kept pair is the global best pair, or none exactly when no pair overlaps |
| Overlaps.IsMaxPair | lib/skyline.py:437-439 | defines the starting pair `(i, j)`, `i < j`: positive area no smaller than any pair's, strictly larger than every pair with a smaller first index and than every earlier partner of `i` |
| Overlaps.MaxPairUnique | lib/skyline.py:433-439 | the tie-break (smallest `i`, then first partner) determines the starting pair uniquely |
| Overlaps.MaxOverlapPair | lib/skyline.py:430-441 | strict mode fails exactly when some pair's intersection raises; otherwise `None` exactly when every pair has area 0, else the pair `(skylines[i], skylines[j])`, `i < j`, of largest area, with the smallest `i` and then the earliest `j` winning ties |
| MosaicSpec.RoughIds | lib/skyline.py:496 | one rough id per footprint, in order |
| MosaicSpec.RoughIdsAppend | lib/skyline.py:507 | the rough ids of a concatenation are the concatenated rough ids |
| MosaicSpec.RoughIdsPair | lib/skyline.py:496 | `out_order` begins with the rough ids of the pair |
| MosaicSpec.AllMembersAppend | lib/skyline.py:343 | the members of one more footprint follow those of the earlier ones |
| MosaicSpec.UnionChainAppend | lib/skyline.py:342 | one more footprint unites its polygon into the chain |
| MosaicSpec.FreshId | lib/skyline.py:341 | a new footprint's identity differs from every input's |
| MosaicSpec.Remove | lib/skyline.py:497-498 | `list.remove` drops exactly the first occurrence: one element shorter, the multiset minus that element |
| MosaicSpec.RemoveKeepsLater | lib/skyline.py:497-498 | after removing `s1`, the later element `s2` is still there to remove |
| MosaicSpec.IncludeMosaic | lib/skyline.py:511-521 | uniting `next` into the mosaic extends its members and its union chain by those of `next` |
| MosaicSpec.IncludeStep | lib/skyline.py:511-524 | an added footprint keeps the partition and the mosaic's members and polygon |
| MosaicSpec.SkipStep | lib/skyline.py:512-524 | a footprint skipped on a tolerated union failure keeps the partition with the mosaic unchanged |
| MosaicSpec.SeedRemove | lib/skyline.py:495-498 | removing the seeds takes exactly those two out of the pool |
| MosaicSpec.SeedPair | lib/skyline.py:495-496 | the seeded mosaic's members and polygon are those of the pair, and `out_order` holds the pair's rough ids |
| MosaicSpec.SeedState | lib/skyline.py:495-498 | right after seeding, the pair is included, nothing is excluded, every other footprint remains, and the mosaic holds the pair's members and union |
| MosaicSpec.ExtendAdd | lib/skyline.py:521-524 | an added footprint moves from the rest of the outcome to the part already built |
| MosaicSpec.ExtendSkip | lib/skyline.py:516-524 | a skipped footprint moves from the rest of the outcome to the excluded part already built |
| MosaicSpec.ExtendStop | lib/skyline.py:503-508 | when nothing overlaps, all remaining footprints are excluded, in order |
| MosaicSpec.GrowSpec | lib/skyline.py:500-524 | defines the growing loop step by step: in strict mode a failing intersection is an error; the footprint of largest overlap is united, or skipped (tolerant) or an error (strict) when the union raises; when nothing overlaps the rest is excluded; tolerant mode never fails |
| MosaicSpec.GrowSpecScan | lib/skyline.py:500-524 | given the answer of the scan, one iteration either excludes the rest, skips the footprint (tolerant) or fails (strict) on a failed union, or unites it |
| MosaicSpec.GrowSpecState | lib/skyline.py:500-524 | over the whole growing phase, the included, excluded and remaining footprints still partition the input, and the mosaic holds the deduplicated members and the union chain of all included footprints |
| MosaicSpec.SeedSpec | lib/skyline.py:494-498 | defines `mosaic` from the starting pair: unite the pair, remove both from the pool and grow; the outcome starts with the pair, and in tolerant mode only a failing seed union is an error |
| MosaicSpec.SeedSpecState | lib/skyline.py:494-526 | a successful mosaic starts with the pair, partitions the input into included and excluded footprints, and holds their members and united polygons |
| MosaicSpec.PartitionOfDistinct | lib/skyline.py:500-524 | for distinct inputs, every input ends up in exactly one of the two lists, and nothing else does |
| Mosaics.GrowStep | lib/skyline.py:501-524 | one loop iteration: a strict failure, an exclusion of the rest when nothing overlaps, a tolerated skip with the mosaic unchanged, or an addition of a remaining footprint; each is the first step of `GrowSpec` |
| Mosaics.Grow | lib/skyline.py:500-524 | the loop computes exactly `GrowSpec`; tolerant mode never fails; `out_order` grows by the rough ids of the added footprints and `excluded` holds those of the excluded ones; at most `len(remaining)` iterations |
| Mosaics.SeedAndGrow | lib/skyline.py:494-524 | seeding and growing compute exactly `SeedSpec`; a failed seed union fails even in tolerant mode; at most `len(skylines) - 2` iterations |
| Mosaics.Mosaic | lib/skyline.py:476-526 | `(None, [], [])` exactly when no pair overlaps; otherwise the outcome is `SeedSpec` of the best pair: `out_order` starts with the pair, included and excluded partition the input (each input in exactly one for distinct inputs), the mosaic holds the members and union of the included footprints, and the loop runs at most `len(skylines) - 2` times; it fails exactly on a strict intersection failure or a failing `SeedSpec` for the best pair |

## Left out

- FITS and WCS input: `SkyLineMember.__init__` (lib/skyline.py:104-138) and `to_wcs`. These are file I/O and foreign library calls. A `Member` is an opaque record with a file name, extension numbers and a fixed polygon.
- The spherical geometry itself, `SphericalPolygon`. It is floating-point numerics in a module that is not part of this model. Properties that depend on concrete polygons are out of reach. For example, that the union with the empty footprint keeps the area is not stated; only its members half is (`AddImageEmpty`).
- `area()` raising is not modelled. Only a failing `intersection` counts as an intersection failure in `find_max_overlap`.
- `__getattr__` delegation. The model names the geometry operations it uses explicitly.
- `__copy__`, `deepcopy` and the copying polygon setter. Dafny datatypes are values, so aliasing cannot arise.
- `__repr__`, `_draw_members`, `_find_frosty`, and every `print` and `verbose` message.
- The `isinstance` assertion in the `members` setter. The types rule out non-members.
- The union of the starting pair in `mosaic` is outside the `try`, so its failure always propagates. The model keeps this behaviour: `SeedSpec` is `Err` there whatever `tolerant` is.
- Mosaics.Mosaic: states included and excluded as ghost lists of footprints. The rough-id lists it returns are their images under `RoughIds`. Rough ids (file names or `None`) may repeat, so "in exactly one list" is stated for footprints, not for ids.
