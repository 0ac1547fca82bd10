/** Finding the footprints that overlap the most: `find_max_overlap` and
    `max_overlap_pair`. */
module Overlaps {
  import opened Wrappers
  import opened Geometry
  import opened SkyLines

  /** The intersection of `self` with `c` raises. */
  predicate Fails(g: Ops, self: SkyLine, c: SkyLine) {
    g.intersection(self.polygon, c.polygon).None?
  }

  /** The overlap area that `find_max_overlap` uses for candidate `c`: the area of
      the intersection, or 0 where the intersection raises and is tolerated. */
  function EffectiveArea(g: Ops, self: SkyLine, c: SkyLine): (a: Area)
    ensures Fails(g, self, c) ==> a == 0.0
    ensures !Fails(g, self, c) ==> a == g.area(g.intersection(self.polygon, c.polygon).value)
  {
    match g.intersection(self.polygon, c.polygon)
    case Some(p) => g.area(p)
    case None => 0.0
  }

  /** What `find_max_overlap` returns: the chosen footprint (or `None`) and its area. */
  datatype Overlap = Overlap(best: Option<SkyLine>, area: Area)

  /** `o` is the answer of a scan of `cands` for the strictly largest positive
      overlap with `self`: `area` bounds every candidate's area; `None` goes with 0;
      otherwise `best` is the first candidate reaching `area`, and `area > 0`. */
  ghost predicate IsMaxOverlap(g: Ops, self: SkyLine, cands: seq<SkyLine>, o: Overlap)
    ensures IsMaxOverlap(g, self, cands, o) && o.best.Some? ==> o.best.value in cands && o.area > 0.0
  {
    && (forall k :: 0 <= k < |cands| ==> EffectiveArea(g, self, cands[k]) <= o.area)
    && (o.best.None? ==> o.area == 0.0)
    && (o.best.Some? ==>
          exists k :: 0 <= k < |cands| && cands[k] == o.best.value
            && EffectiveArea(g, self, cands[k]) == o.area && o.area > 0.0
            && forall i :: 0 <= i < k ==> EffectiveArea(g, self, cands[i]) < o.area)
  }

  /** The tie-break makes the answer of a scan unique. */
  lemma MaxOverlapUnique(g: Ops, self: SkyLine, cands: seq<SkyLine>, o1: Overlap, o2: Overlap)
    requires IsMaxOverlap(g, self, cands, o1) && IsMaxOverlap(g, self, cands, o2)
    ensures o1 == o2
  {
    if o1.best.Some? && o2.best.Some? {
      var k1 :| 0 <= k1 < |cands| && cands[k1] == o1.best.value
        && EffectiveArea(g, self, cands[k1]) == o1.area && o1.area > 0.0
        && forall i :: 0 <= i < k1 ==> EffectiveArea(g, self, cands[i]) < o1.area;
      var k2 :| 0 <= k2 < |cands| && cands[k2] == o2.best.value
        && EffectiveArea(g, self, cands[k2]) == o2.area && o2.area > 0.0
        && forall i :: 0 <= i < k2 ==> EffectiveArea(g, self, cands[i]) < o2.area;
      assert k1 == k2;
    }
  }

  /** Every list of candidates has an answer. */
  lemma {:induction false} MaxOverlapExists(g: Ops, self: SkyLine, cands: seq<SkyLine>)
    ensures exists o :: IsMaxOverlap(g, self, cands, o)
  {
    if cands == [] {
      assert IsMaxOverlap(g, self, cands, Overlap(None, 0.0));
    } else {
      var n := |cands| - 1;
      var pre := cands[..n];
      MaxOverlapExists(g, self, pre);
      var o' :| IsMaxOverlap(g, self, pre, o');
      assert forall k :: 0 <= k < n ==> cands[k] == pre[k];
      var a := EffectiveArea(g, self, cands[n]);
      if a > o'.area {
        assert IsMaxOverlap(g, self, cands, Overlap(Some(cands[n]), a));
      } else {
        if o'.best.Some? {
          var k :| 0 <= k < |pre| && pre[k] == o'.best.value
            && EffectiveArea(g, self, pre[k]) == o'.area && o'.area > 0.0
            && forall i :: 0 <= i < k ==> EffectiveArea(g, self, pre[i]) < o'.area;
          assert cands[k] == pre[k];
        }
        assert IsMaxOverlap(g, self, cands, o');
      }
    }
  }

  /** The answer of a scan of `cands` for the largest overlap with `self`. */
  ghost function MaxOverlapOf(g: Ops, self: SkyLine, cands: seq<SkyLine>): (o: Overlap)
    ensures IsMaxOverlap(g, self, cands, o)
    ensures o.best.Some? ==> o.best.value in cands
  {
    MaxOverlapExists(g, self, cands);
    var o :| IsMaxOverlap(g, self, cands, o);
    o
  }

  /** `find_max_overlap`: scans `skylines` in order and keeps the candidate whose
      overlap with `self` is strictly larger than every earlier one. With `tolerant`
      (`SKYLINE_DEBUG`) a failing intersection counts as area 0; without it the
      failure propagates. */
  method FindMaxOverlap(g: Ops, self: SkyLine, skylines: seq<SkyLine>, tolerant: bool)
    returns (r: Result<Overlap>)
    ensures r.Err? <==> !tolerant && exists k :: 0 <= k < |skylines| && Fails(g, self, skylines[k])
    ensures r.Ok? ==> IsMaxOverlap(g, self, skylines, r.value)
    ensures r.Ok? ==> (r.value.best.None? <==>
                         forall k :: 0 <= k < |skylines| ==> EffectiveArea(g, self, skylines[k]) == 0.0)
  {
    var best: Option<SkyLine> := None;
    var maxArea: Area := 0.0;
    ghost var bk := 0;
    for i := 0 to |skylines|
      invariant !tolerant ==> forall k :: 0 <= k < i ==> !Fails(g, self, skylines[k])
      invariant forall k :: 0 <= k < i ==> EffectiveArea(g, self, skylines[k]) <= maxArea
      invariant best.None? ==> maxArea == 0.0
      invariant best.Some? ==>
        && bk < i && skylines[bk] == best.value
        && EffectiveArea(g, self, skylines[bk]) == maxArea && maxArea > 0.0
        && forall k :: 0 <= k < bk ==> EffectiveArea(g, self, skylines[k]) < maxArea
    {
      var area: Area;
      match g.intersection(self.polygon, skylines[i].polygon) {
        case Some(p) =>
          area := g.area(p);
        case None =>
          if tolerant {
            area := 0.0;
          } else {
            return Err;
          }
      }
      if area > maxArea {
        maxArea := area;
        best := Some(skylines[i]);
        bk := i;
      }
    }
    r := Ok(Overlap(best, maxArea));
  }

  /** Overlap area of the `i`-th and `j`-th footprints, as `find_max_overlap` on
      the `i`-th computes it. */
  ghost function PairArea(g: Ops, s: seq<SkyLine>, i: int, j: int): Area
    requires 0 <= i < |s| && 0 <= j < |s|
  {
    EffectiveArea(g, s[i], s[j])
  }

  /** The intersection of the `i`-th and `j`-th footprints raises. */
  ghost predicate PairFails(g: Ops, s: seq<SkyLine>, i: int, j: int)
    requires 0 <= i < |s| && 0 <= j < |s|
  {
    Fails(g, s[i], s[j])
  }

  /** `(i, j)` with `i < j` is the pair `max_overlap_pair` picks: its positive area
      is the largest of all pairs, no pair with a smaller first index reaches it,
      and no earlier partner of `i` does. */
  ghost predicate IsMaxPair(g: Ops, s: seq<SkyLine>, i: int, j: int)
    ensures IsMaxPair(g, s, i, j) ==> 0 <= i < j < |s| && PairArea(g, s, i, j) > 0.0
  {
    && 0 <= i < j < |s|
    && PairArea(g, s, i, j) > 0.0
    && (forall i', j' :: 0 <= i' < j' < |s| ==> PairArea(g, s, i', j') <= PairArea(g, s, i, j))
    && (forall i', j' :: 0 <= i' < i && i' < j' < |s| ==> PairArea(g, s, i', j') < PairArea(g, s, i, j))
    && (forall j' :: i < j' < j ==> PairArea(g, s, i, j') < PairArea(g, s, i, j))
  }

  /** The tie-break makes the starting pair unique. */
  lemma MaxPairUnique(g: Ops, s: seq<SkyLine>, i1: int, j1: int, i2: int, j2: int)
    requires IsMaxPair(g, s, i1, j1) && IsMaxPair(g, s, i2, j2)
    ensures i1 == i2 && j1 == j2
  {
    assert PairArea(g, s, i1, j1) == PairArea(g, s, i2, j2);
  }

  /** `o` is the best partner of the `i`-th footprint among those after it, in
      positions of `s`. */
  ghost predicate RowMax(g: Ops, s: seq<SkyLine>, i: int, o: Overlap)
    requires 0 <= i < |s|
  {
    && (forall j' :: i < j' < |s| ==> PairArea(g, s, i, j') <= o.area)
    && (o.best.None? ==> o.area == 0.0)
    && (o.best.Some? ==>
          exists j :: i < j < |s| && s[j] == o.best.value
            && PairArea(g, s, i, j) == o.area && o.area > 0.0
            && forall j' :: i < j' < j ==> PairArea(g, s, i, j') < o.area)
  }

  /** A scan of the footprints after the `i`-th finds its best partner. */
  lemma RowOfScan(g: Ops, s: seq<SkyLine>, i: int, o: Overlap)
    requires 0 <= i < |s|
    requires IsMaxOverlap(g, s[i], s[i + 1..], o)
    ensures RowMax(g, s, i, o)
  {
    var rest := s[i + 1..];
    forall j' | i < j' < |s| ensures PairArea(g, s, i, j') <= o.area {
      assert rest[j' - i - 1] == s[j'];
    }
    if o.best.Some? {
      var k :| 0 <= k < |rest| && rest[k] == o.best.value
        && EffectiveArea(g, s[i], rest[k]) == o.area && o.area > 0.0
        && forall k' :: 0 <= k' < k ==> EffectiveArea(g, s[i], rest[k']) < o.area;
      forall j' | i < j' < i + 1 + k ensures PairArea(g, s, i, j') < o.area {
        assert rest[j' - i - 1] == s[j'];
      }
      assert s[i + 1 + k] == rest[k];
    }
  }

  /** A scan of the footprints after the `i`-th meets a failing intersection
      exactly when some pair `(i, j)` fails. */
  lemma RowFailures(g: Ops, s: seq<SkyLine>, i: int, rest: seq<SkyLine>)
    requires 0 <= i < |s| && rest == s[i + 1..]
    ensures (exists k :: 0 <= k < |rest| && Fails(g, s[i], rest[k]))
        <==> (exists j :: i < j < |s| && PairFails(g, s, i, j))
  {
    if exists k :: 0 <= k < |rest| && Fails(g, s[i], rest[k]) {
      var k :| 0 <= k < |rest| && Fails(g, s[i], rest[k]);
      assert PairFails(g, s, i, i + 1 + k);
    }
    if exists j :: i < j < |s| && PairFails(g, s, i, j) {
      var j :| i < j < |s| && PairFails(g, s, i, j);
      assert rest[j - i - 1] == s[j];
    }
  }

  /** The state of the `max_overlap_pair` scan once rows `0..i` are done: `maxArea`
      bounds every pair seen, `maxPair` is the first pair reaching it (at
      positions `bi`, `bj`), and in strict mode no pair seen has failed. */
  ghost predicate ScanState(g: Ops, s: seq<SkyLine>, tolerant: bool, i: int,
                            maxPair: Option<(SkyLine, SkyLine)>, maxArea: Area, bi: int, bj: int)
  {
    && 0 <= i <= |s|
    && (!tolerant ==>
          forall i', j' :: 0 <= i' < i && i' < j' < |s| ==> !PairFails(g, s, i', j'))
    && (forall i', j' :: 0 <= i' < i && i' < j' < |s| ==> PairArea(g, s, i', j') <= maxArea)
    && (maxPair.None? ==> maxArea == 0.0)
    && (maxPair.Some? ==>
          && 0 <= bi < i && bi < bj < |s|
          && maxPair.value == (s[bi], s[bj])
          && PairArea(g, s, bi, bj) == maxArea && maxArea > 0.0
          && (forall i', j' :: 0 <= i' < bi && i' < j' < |s| ==> PairArea(g, s, i', j') < maxArea)
          && (forall j' :: bi < j' < bj ==> PairArea(g, s, bi, j') < maxArea))
  }

  /** One row of the scan keeps `ScanState`: the row's best replaces the running
      best only when strictly larger; `j` is the position of the new partner. */
  lemma ScanStep(g: Ops, s: seq<SkyLine>, tolerant: bool, i: int,
                 maxPair: Option<(SkyLine, SkyLine)>, maxArea: Area, bi: int, bj: int, o: Overlap)
    returns (j: int)
    requires 0 <= i < |s|
    requires ScanState(g, s, tolerant, i, maxPair, maxArea, bi, bj)
    requires RowMax(g, s, i, o)
    requires !tolerant ==> forall j' :: i < j' < |s| ==> !PairFails(g, s, i, j')
    ensures o.area > maxArea ==>
      o.best.Some? && ScanState(g, s, tolerant, i + 1, Some((s[i], o.best.value)), o.area, i, j)
    ensures o.area <= maxArea ==>
      ScanState(g, s, tolerant, i + 1, maxPair, maxArea, bi, bj)
  {
    j := i;
    if o.area > maxArea {
      j :| i < j < |s| && s[j] == o.best.value
        && PairArea(g, s, i, j) == o.area && o.area > 0.0
        && forall j' :: i < j' < j ==> PairArea(g, s, i, j') < o.area;
    }
  }

  /** The finished scan: `maxPair` is `None` exactly when no pair overlaps, and
      otherwise the pair that `IsMaxPair` picks. */
  lemma ScanDone(g: Ops, s: seq<SkyLine>, tolerant: bool, i: int,
                 maxPair: Option<(SkyLine, SkyLine)>, maxArea: Area, bi: int, bj: int)
    requires i == |s| - 1 || (i == 0 && |s| <= 1)
    requires ScanState(g, s, tolerant, i, maxPair, maxArea, bi, bj)
    ensures !tolerant ==> forall i', j' :: 0 <= i' < j' < |s| ==> !PairFails(g, s, i', j')
    ensures maxPair.None? <==> forall i', j' :: 0 <= i' < j' < |s| ==> PairArea(g, s, i', j') == 0.0
    ensures maxPair.Some? ==> IsMaxPair(g, s, bi, bj) && maxPair.value == (s[bi], s[bj])
  {
  }

  /** `max_overlap_pair`: for each footprint, the best partner among those after it;
      the pair with the strictly largest positive area wins, `None` if no pair
      overlaps. A failing intersection propagates unless `tolerant`. */
  method MaxOverlapPair(g: Ops, skylines: seq<SkyLine>, tolerant: bool)
    returns (r: Result<Option<(SkyLine, SkyLine)>>)
    ensures r.Err? <==>
      !tolerant && exists i, j :: 0 <= i < j < |skylines| && PairFails(g, skylines, i, j)
    ensures r.Ok? ==> (r.value.None? <==>
      forall i, j :: 0 <= i < j < |skylines| ==> PairArea(g, skylines, i, j) == 0.0)
    ensures r.Ok? && r.value.Some? ==>
      exists i, j :: IsMaxPair(g, skylines, i, j) && r.value.value == (skylines[i], skylines[j])
  {
    var maxPair: Option<(SkyLine, SkyLine)> := None;
    var maxArea: Area := 0.0;
    ghost var bi, bj := 0, 0;
    var i := 0;
    while i < |skylines| - 1
      invariant i == 0 || i <= |skylines| - 1
      invariant ScanState(g, skylines, tolerant, i, maxPair, maxArea, bi, bj)
    {
      var curr, rest := skylines[i], skylines[i + 1..];
      var res := FindMaxOverlap(g, curr, rest, tolerant);
      RowFailures(g, skylines, i, rest);
      if res.Err? {
        return Err;
      }
      var o := res.value;
      RowOfScan(g, skylines, i, o);
      ghost var j := ScanStep(g, skylines, tolerant, i, maxPair, maxArea, bi, bj, o);
      if o.area > maxArea {
        maxArea := o.area;
        maxPair := Some((curr, o.best.value));
        bi, bj := i, j;
      }
      i := i + 1;
    }
    ScanDone(g, skylines, tolerant, i, maxPair, maxArea, bi, bj);
    r := Ok(maxPair);
  }
}
