/** `SkyLine.mosaic`: greedy assembly of overlapping footprints. */
module Mosaics {
  import opened Wrappers
  import opened Geometry
  import opened Members
  import opened SkyLines
  import opened Overlaps
  import opened MosaicSpec

  /** What one iteration of the growing loop decides. */
  datatype Step =
    | Failed                                 // an error propagates
    | Stop                                   // nothing overlaps: exclude the rest
    | Added(next: SkyLine, grown: SkyLine)   // `next` united into the mosaic, giving `grown`
    | Skipped(next: SkyLine)                 // the union with `next` failed and is tolerated

  /** One iteration of the growing loop: find the remaining footprint that overlaps
      the mosaic the most and try to unite it; `id` is the identity of the last
      footprint created. Each outcome is the first step of `GrowSpec`. */
  method GrowStep(g: Ops, tolerant: bool, mosaic: SkyLine, remaining: seq<SkyLine>, id: nat)
    returns (s: Step)
    requires remaining != []
    ensures s.Failed? ==> !tolerant && GrowSpec(g, tolerant, mosaic, remaining, id) == Err
    ensures s.Stop? ==>
      && (forall k :: 0 <= k < |remaining| ==> EffectiveArea(g, mosaic, remaining[k]) == 0.0)
      && GrowSpec(g, tolerant, mosaic, remaining, id) == Ok(Grown(mosaic, [], remaining))
    ensures s.Added? ==>
      && s.next in remaining
      && AddImage(g, mosaic, s.next, id + 1) == Some(s.grown)
      && GrowSpec(g, tolerant, mosaic, remaining, id) ==
           Extend([s.next], [], GrowSpec(g, tolerant, s.grown, Remove(remaining, s.next), id + 1))
    ensures s.Skipped? ==>
      && tolerant && s.next in remaining
      && AddImage(g, mosaic, s.next, id + 1).None?
      && GrowSpec(g, tolerant, mosaic, remaining, id) ==
           Extend([], [s.next], GrowSpec(g, tolerant, mosaic, Remove(remaining, s.next), id + 1))
  {
    var res := FindMaxOverlap(g, mosaic, remaining, tolerant);
    if res.Err? {
      return Failed;
    }
    GrowSpecScan(g, tolerant, mosaic, remaining, id, res.value);
    if res.value.best.None? {
      return Stop;
    }
    var next := res.value.best.value;
    var grown := AddImage(g, mosaic, next, id + 1);
    if grown.Some? {
      return Added(next, grown.value);
    } else if tolerant {
      return Skipped(next);
    } else {
      return Failed;
    }
  }

  /** The growing phase of `mosaic`: while footprints remain, add the one that
      overlaps `mosaic` the most; when none overlaps, exclude all that remain and
      stop. With `tolerant` a failing union excludes that footprint and keeps the
      mosaic; otherwise the failure propagates. Every iteration takes at least one
      footprint out of `remaining`. `included0` are the rough ids recorded before
      the loop; `freshId0` is the identity of the last footprint created. The ghost
      results are the footprints added and excluded, in order, and the number of
      iterations; the outcome is the one `GrowSpec` describes. */
  method Grow(g: Ops, tolerant: bool, mosaic0: SkyLine, remaining0: seq<SkyLine>,
              included0: seq<Option<string>>, freshId0: nat)
    returns (r: Result<MosaicResult>, ghost added: seq<SkyLine>, ghost exc: seq<SkyLine>,
             ghost steps: nat)
    ensures tolerant ==> r.Ok?
    ensures r.Err? ==> GrowSpec(g, tolerant, mosaic0, remaining0, freshId0) == Err
    ensures r.Ok? ==>
      && r.value.mosaic.Some?
      && GrowSpec(g, tolerant, mosaic0, remaining0, freshId0) == Ok(Grown(r.value.mosaic.value, added, exc))
      && r.value.included == included0 + RoughIds(added)
      && r.value.excluded == RoughIds(exc)
      && steps <= |remaining0|
  {
    var mosaic, remaining, included, excluded, freshId := mosaic0, remaining0, included0, [], freshId0;
    added, exc, steps := [], [], 0;
    ghost var spec := GrowSpec(g, tolerant, mosaic0, remaining0, freshId0);
    if spec.Ok? {
      assert [] + spec.value.added == spec.value.added && [] + spec.value.excluded == spec.value.excluded;
    }
    while |remaining| > 0
      invariant spec == Extend(added, exc, GrowSpec(g, tolerant, mosaic, remaining, freshId))
      invariant included == included0 + RoughIds(added) && excluded == RoughIds(exc)
      invariant steps + |remaining| <= |remaining0|
      decreases |remaining|
    {
      var s := GrowStep(g, tolerant, mosaic, remaining, freshId);
      match s {
        case Failed =>
          return Err, added, exc, steps;
        case Stop =>
          ExtendStop(spec, added, exc, mosaic, remaining);
          RoughIdsAppend(exc, remaining);
          excluded := excluded + RoughIds(remaining);
          exc := exc + remaining;
          remaining := [];
        case Skipped(next) =>
          ExtendSkip(spec, added, exc, GrowSpec(g, tolerant, mosaic, remaining, freshId),
                     next, GrowSpec(g, tolerant, mosaic, Remove(remaining, next), freshId + 1));
          RoughIdsAppend(exc, [next]);
          excluded := excluded + [RoughId(next)];
          exc := exc + [next];
          remaining := Remove(remaining, next);
        case Added(next, grown) =>
          ExtendAdd(spec, added, exc, GrowSpec(g, tolerant, mosaic, remaining, freshId),
                    next, GrowSpec(g, tolerant, grown, Remove(remaining, next), freshId + 1));
          RoughIdsSnoc(included0, added, next);
          mosaic := grown;
          included := included + [RoughId(next)];
          added := added + [next];
          remaining := Remove(remaining, next);
      }
      steps := steps + 1;
      freshId := freshId + 1;
    }
    ExtendDone(spec, added, exc, mosaic);
    r := Ok(MosaicResult(Some(mosaic), included, excluded));
  }

  /** The part of `mosaic` after the starting pair `(s1, s2)` (at positions `i < j`)
      is known: unite the pair (a failure here always propagates), record both rough
      ids, take both out of the pool and grow. The outcome is the one `SeedSpec`
      describes. */
  method SeedAndGrow(g: Ops, skylines: seq<SkyLine>, tolerant: bool, s1: SkyLine, s2: SkyLine,
                     ghost i: int, ghost j: int)
    returns (r: Result<MosaicResult>, ghost inc: seq<SkyLine>, ghost exc: seq<SkyLine>, ghost steps: nat)
    requires 0 <= i < j < |skylines| && s1 == skylines[i] && s2 == skylines[j]
    ensures tolerant && r.Err? ==> g.union(s1.polygon, s2.polygon).None?
    ensures r.Err? ==> SeedSpec(g, skylines, tolerant, i, j) == Err
    ensures r.Ok? ==>
      && r.value.mosaic.Some?
      && SeedSpec(g, skylines, tolerant, i, j) == Ok(Grown(r.value.mosaic.value, inc, exc))
      && r.value.included == RoughIds(inc)
      && r.value.excluded == RoughIds(exc)
      && steps <= |skylines| - 2
  {
    inc, exc, steps := [], [], 0;
    var freshId := FreshId(skylines);
    var seed := AddImage(g, s1, s2, freshId);
    if seed.None? {
      return Err, inc, exc, steps;
    }
    RemoveKeepsLater(skylines, i, j);
    var remaining := Remove(skylines, s1);
    remaining := Remove(remaining, s2);
    ghost var added;
    r, added, exc, steps := Grow(g, tolerant, seed.value, remaining, [RoughId(s1), RoughId(s2)], freshId);
    inc := [s1, s2] + added;
    if r.Ok? {
      RoughIdsPair(s1, s2, added);
      assert [] + exc == exc;
      assert SeedSpec(g, skylines, tolerant, i, j) ==
        Extend([s1, s2], [], GrowSpec(g, tolerant, seed.value, remaining, freshId));
    }
  }

  /** `mosaic`: seed with the pair of largest overlap, then grow. No overlapping
      pair gives `(None, [], [])`. The ghost results are the footprints included
      (`inc`) and excluded (`exc`) and the number of iterations of the growing loop
      (`steps`). */
  method Mosaic(g: Ops, skylines: seq<SkyLine>, tolerant: bool)
    returns (r: Result<MosaicResult>, ghost inc: seq<SkyLine>, ghost exc: seq<SkyLine>, ghost steps: nat)
    ensures r.Err? <==>
      || (!tolerant && exists i, j :: 0 <= i < j < |skylines| && PairFails(g, skylines, i, j))
      || (exists i, j :: IsMaxPair(g, skylines, i, j) && SeedSpec(g, skylines, tolerant, i, j).Err?)
    ensures tolerant && r.Err? ==>
      exists i, j :: IsMaxPair(g, skylines, i, j) && g.union(skylines[i].polygon, skylines[j].polygon).None?
    ensures r.Ok? ==> r.value.included == RoughIds(inc) && r.value.excluded == RoughIds(exc)
    ensures r.Ok? ==> (r.value.mosaic.None? <==>
      forall i, j :: 0 <= i < j < |skylines| ==> PairArea(g, skylines, i, j) == 0.0)
    ensures r.Ok? && r.value.mosaic.None? ==> inc == [] && exc == []
    ensures r.Ok? && r.value.mosaic.Some? ==>
      exists i, j :: IsMaxPair(g, skylines, i, j) &&
        SeedSpec(g, skylines, tolerant, i, j) == Ok(Grown(r.value.mosaic.value, inc, exc))
    ensures r.Ok? && r.value.mosaic.Some? ==>
      && |inc| >= 2
      && (exists i, j :: IsMaxPair(g, skylines, i, j) && inc[..2] == [skylines[i], skylines[j]])
      && multiset(inc) + multiset(exc) == multiset(skylines)
      && r.value.mosaic.value.members == Dedup(AllMembers(inc))
      && UnionChain(g, inc) == Some(r.value.mosaic.value.polygon)
      && steps <= |skylines| - 2
    ensures r.Ok? && r.value.mosaic.Some? && NoDups(skylines) ==>
      && (forall x :: x in skylines <==> x in inc || x in exc)
      && (forall x :: x in skylines ==> !(x in inc && x in exc))
  {
    var pair := MaxOverlapPair(g, skylines, tolerant);
    if pair.Err? {
      return Err, [], [], 0;
    }
    if pair.value.None? {
      return Ok(MosaicResult(None, [], [])), [], [], 0;
    }
    var s1, s2 := pair.value.value.0, pair.value.value.1;
    ghost var i, j :| IsMaxPair(g, skylines, i, j) && (s1, s2) == (skylines[i], skylines[j]);
    forall i', j' | IsMaxPair(g, skylines, i', j') ensures i' == i && j' == j {
      MaxPairUnique(g, skylines, i', j', i, j);
    }
    r, inc, exc, steps := SeedAndGrow(g, skylines, tolerant, s1, s2, i, j);
    if r.Ok? {
      SeedSpecState(g, skylines, tolerant, i, j);
      if NoDups(skylines) {
        PartitionOfDistinct(skylines, inc, exc);
      }
    }
  }
}
