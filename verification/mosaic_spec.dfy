/** What `SkyLine.mosaic` computes: the bookkeeping of its loop, the step-by-step
    specification of its growing phase and the lemmas about both. */
module MosaicSpec {
  import opened Wrappers
  import opened Geometry
  import opened Members
  import opened SkyLines
  import opened Overlaps

  /** What `mosaic` returns: the union footprint (`None` when no pair overlaps), the
      rough ids of the footprints added, in order, and those of the ones left out. */
  datatype MosaicResult = MosaicResult(
    mosaic: Option<SkyLine>,
    included: seq<Option<string>>,
    excluded: seq<Option<string>>)

  /** The rough ids of a list of footprints. */
  function RoughIds(s: seq<SkyLine>): (r: seq<Option<string>>)
    ensures |r| == |s| && forall k :: 0 <= k < |s| ==> r[k] == RoughId(s[k])
  {
    seq(|s|, k requires 0 <= k < |s| => RoughId(s[k]))
  }

  lemma RoughIdsAppend(a: seq<SkyLine>, b: seq<SkyLine>)
    ensures RoughIds(a + b) == RoughIds(a) + RoughIds(b)
  {
  }

  /** Recording one more rough id. */
  lemma RoughIdsSnoc(pre: seq<Option<string>>, a: seq<SkyLine>, x: SkyLine)
    ensures pre + RoughIds(a + [x]) == pre + RoughIds(a) + [RoughId(x)]
  {
    RoughIdsAppend(a, [x]);
  }

  /** The rough ids of the starting pair come first. */
  lemma RoughIdsPair(a: SkyLine, b: SkyLine, rest: seq<SkyLine>)
    ensures [RoughId(a), RoughId(b)] + RoughIds(rest) == RoughIds([a, b] + rest)
  {
    RoughIdsAppend([a, b], rest);
  }

  /** All member lists of `s`, concatenated in order. */
  ghost function AllMembers(s: seq<SkyLine>): seq<Member> {
    if s == [] then [] else AllMembers(s[..|s| - 1]) + s[|s| - 1].members
  }

  lemma AllMembersAppend(a: seq<SkyLine>, x: SkyLine)
    ensures AllMembers(a + [x]) == AllMembers(a) + x.members
  {
    assert (a + [x])[..|a|] == a;
  }

  /** The polygon obtained by folding `union` over the polygons of `s`, from the
      first to the last; `None` if a union raises on the way. */
  ghost function UnionChain(g: Ops, s: seq<SkyLine>): Option<Polygon>
    requires |s| >= 1
  {
    if |s| == 1 then Some(s[0].polygon)
    else
      match UnionChain(g, s[..|s| - 1])
      case None => None
      case Some(p) => g.union(p, s[|s| - 1].polygon)
  }

  /** Extending the chain by one footprint unions its polygon into the result. */
  lemma UnionChainAppend(g: Ops, s: seq<SkyLine>, x: SkyLine)
    requires |s| >= 1
    ensures UnionChain(g, s + [x]) ==
      match UnionChain(g, s)
      case None => None
      case Some(p) => g.union(p, x.polygon)
  {
    assert (s + [x])[..|s|] == s;
  }

  /** An id no footprint of `s` has: the identity of a newly created footprint. */
  function FreshId(s: seq<SkyLine>): (n: nat)
    ensures forall k :: 0 <= k < |s| ==> s[k].id < n
  {
    if s == [] then 0
    else
      var n' := FreshId(s[1..]);
      assert forall k :: 1 <= k < |s| ==> s[k] == s[1..][k - 1];
      if s[0].id < n' then n' else s[0].id + 1
  }

  /** `list.remove`: drops the first element equal to `x`, and only that one. */
  function Remove(s: seq<SkyLine>, x: SkyLine): (r: seq<SkyLine>)
    requires x in s
    ensures |r| == |s| - 1
    ensures multiset(r) == multiset(s) - multiset{x}
    ensures r == s[..IndexOf(s, x)] + s[IndexOf(s, x) + 1..]
  {
    var k := IndexOf(s, x);
    assert s == s[..k] + [s[k]] + s[k + 1..];
    s[..k] + s[k + 1..]
  }

  /** Removing the element at `i` leaves any element at a later position `j`. */
  lemma RemoveKeepsLater(s: seq<SkyLine>, i: int, j: int)
    requires 0 <= i < j < |s|
    ensures s[j] in Remove(s, s[i])
  {
    IndexOfAtMost(s, s[i], i);
    assert Remove(s, s[i])[j - 1] == s[j];
  }

  /** The bookkeeping of the growing phase: the footprints included so far (`inc`),
      excluded so far (`exc`) and still to place (`remaining`) together make up
      `total`; `mosaic` holds the members of `inc` and the union of their polygons. */
  ghost predicate GrowState(g: Ops, total: multiset<SkyLine>, inc: seq<SkyLine>, exc: seq<SkyLine>,
                            remaining: seq<SkyLine>, mosaic: SkyLine)
  {
    && multiset(inc) + multiset(exc) + multiset(remaining) == total
    && |inc| >= 1
    && mosaic.members == Dedup(AllMembers(inc))
    && UnionChain(g, inc) == Some(mosaic.polygon)
  }

  /** Moving `x` from the pool `r` to the end of `a` keeps their combined contents. */
  lemma MoveOne(total: multiset<SkyLine>, a: seq<SkyLine>, b: seq<SkyLine>, r: seq<SkyLine>, x: SkyLine)
    requires x in r
    requires multiset(a) + multiset(b) + multiset(r) == total
    ensures multiset(a + [x]) + multiset(b) + multiset(Remove(r, x)) == total
  {
    assert multiset(a + [x]) == multiset(a) + multiset{x};
  }

  /** Adding `next` to the mosaic extends its members and its union chain by those
      of `next`. */
  lemma IncludeMosaic(g: Ops, inc: seq<SkyLine>, mosaic: SkyLine, next: SkyLine, id: nat)
    requires |inc| >= 1
    requires mosaic.members == Dedup(AllMembers(inc))
    requires UnionChain(g, inc) == Some(mosaic.polygon)
    requires AddImage(g, mosaic, next, id).Some?
    ensures AddImage(g, mosaic, next, id).value.members == Dedup(AllMembers(inc + [next]))
    ensures UnionChain(g, inc + [next]) == Some(AddImage(g, mosaic, next, id).value.polygon)
  {
    AllMembersAppend(inc, next);
    DedupAbsorbsPrefix(AllMembers(inc), next.members);
    UnionChainAppend(g, inc, next);
  }

  /** Adding `next` to the mosaic keeps the bookkeeping. */
  lemma IncludeStep(g: Ops, total: multiset<SkyLine>, inc: seq<SkyLine>, exc: seq<SkyLine>,
                    remaining: seq<SkyLine>, mosaic: SkyLine, next: SkyLine, id: nat)
    requires GrowState(g, total, inc, exc, remaining, mosaic)
    requires next in remaining && AddImage(g, mosaic, next, id).Some?
    ensures GrowState(g, total, inc + [next], exc, Remove(remaining, next), AddImage(g, mosaic, next, id).value)
  {
    IncludeMosaic(g, inc, mosaic, next, id);
    MoveOne(total, inc, exc, remaining, next);
  }

  /** Excluding `next` (its union failed) keeps the bookkeeping and the mosaic. */
  lemma SkipStep(g: Ops, total: multiset<SkyLine>, inc: seq<SkyLine>, exc: seq<SkyLine>,
                 remaining: seq<SkyLine>, mosaic: SkyLine, next: SkyLine)
    requires GrowState(g, total, inc, exc, remaining, mosaic)
    requires next in remaining
    ensures GrowState(g, total, inc, exc + [next], Remove(remaining, next), mosaic)
  {
    MoveOne(total, exc, inc, remaining, next);
  }

  /** Removing the two seeds of a pair at positions `i < j` takes exactly those two
      out of the pool. */
  lemma SeedRemove(s: seq<SkyLine>, i: int, j: int)
    requires 0 <= i < j < |s|
    ensures s[j] in Remove(s, s[i])
    ensures multiset([s[i], s[j]]) + multiset(Remove(Remove(s, s[i]), s[j])) == multiset(s)
  {
    RemoveKeepsLater(s, i, j);
    assert multiset([s[i], s[j]]) == multiset{s[i]} + multiset{s[j]};
  }

  /** The members, polygon and rough ids of a mosaic seeded with `a` and `b`. */
  lemma SeedPair(g: Ops, a: SkyLine, b: SkyLine)
    ensures AllMembers([a, b]) == a.members + b.members
    ensures UnionChain(g, [a, b]) == g.union(a.polygon, b.polygon)
    ensures RoughIds([a, b]) == [RoughId(a), RoughId(b)]
  {
    AllMembersAppend([], a);
    AllMembersAppend([a], b);
    assert [] + [a] == [a] && [a] + [b] == [a, b];
    assert [a, b][..1] == [a];
  }

  /** Right after seeding with the pair at positions `i < j`, the bookkeeping holds,
      with both seeds included and all others remaining. */
  lemma SeedState(g: Ops, s: seq<SkyLine>, i: int, j: int, id: nat, seed: SkyLine)
    requires 0 <= i < j < |s|
    requires AddImage(g, s[i], s[j], id) == Some(seed)
    ensures s[j] in Remove(s, s[i])
    ensures GrowState(g, multiset(s), [s[i], s[j]], [], Remove(Remove(s, s[i]), s[j]), seed)
  {
    var a, b := s[i], s[j];
    RemoveKeepsLater(s, i, j);
    var rest := Remove(Remove(s, a), b);
    var none: seq<SkyLine> := [];
    assert multiset([a, b]) + multiset(none) + multiset(rest) == multiset(s) by {
      SeedRemove(s, i, j);
    }
    assert seed.members == Dedup(AllMembers([a, b])) && UnionChain(g, [a, b]) == Some(seed.polygon) by {
      SeedPair(g, a, b);
    }
  }

  /** The outcome of the growing phase: the final mosaic, the footprints added to
      it in order, and those excluded in order. */
  datatype Grown = Grown(mosaic: SkyLine, added: seq<SkyLine>, excluded: seq<SkyLine>)

  /** Prefix `added` and `excluded` to the lists of an outcome. */
  function Extend(added: seq<SkyLine>, excluded: seq<SkyLine>, r: Result<Grown>): Result<Grown> {
    match r
    case Err => Err
    case Ok(o) => Ok(Grown(o.mosaic, added + o.added, excluded + o.excluded))
  }

  /** Moving an added footprint `x` from the rest of the outcome to the prefix. */
  lemma ExtendAdd(spec: Result<Grown>, a: seq<SkyLine>, e: seq<SkyLine>, r: Result<Grown>,
                  x: SkyLine, r': Result<Grown>)
    requires spec == Extend(a, e, r) && r == Extend([x], [], r')
    ensures spec == Extend(a + [x], e, r')
  {
    if r'.Ok? {
      assert a + ([x] + r'.value.added) == (a + [x]) + r'.value.added;
      assert e + ([] + r'.value.excluded) == e + r'.value.excluded;
    }
  }

  /** Moving an excluded footprint `x` from the rest of the outcome to the prefix. */
  lemma ExtendSkip(spec: Result<Grown>, a: seq<SkyLine>, e: seq<SkyLine>, r: Result<Grown>,
                   x: SkyLine, r': Result<Grown>)
    requires spec == Extend(a, e, r) && r == Extend([], [x], r')
    ensures spec == Extend(a, e + [x], r')
  {
    if r'.Ok? {
      assert a + ([] + r'.value.added) == a + r'.value.added;
      assert e + ([x] + r'.value.excluded) == (e + [x]) + r'.value.excluded;
    }
  }

  /** Excluding the rest: the footprints left go to the excluded prefix. */
  lemma ExtendStop(spec: Result<Grown>, a: seq<SkyLine>, e: seq<SkyLine>, m: SkyLine, rest: seq<SkyLine>)
    requires spec == Extend(a, e, Ok(Grown(m, [], rest)))
    ensures spec == Extend(a, e + rest, Ok(Grown(m, [], [])))
  {
    assert e + rest + [] == e + rest;
  }

  /** The outcome once nothing remains. */
  lemma ExtendDone(spec: Result<Grown>, a: seq<SkyLine>, e: seq<SkyLine>, m: SkyLine)
    requires spec == Extend(a, e, Ok(Grown(m, [], [])))
    ensures spec == Ok(Grown(m, a, e))
  {
    assert a + [] == a && e + [] == e;
  }

  /** What the growing phase of `mosaic` does, step by step, from the footprint
      `mosaic` with `remaining` still to place; `id` is the identity of the last
      footprint created. In strict mode a failing intersection with a remaining
      footprint is an error. Otherwise the remaining footprint of largest overlap
      (`IsMaxOverlap`) is united into the mosaic; if its union fails it is excluded
      (or, in strict mode, the error propagates); if nothing overlaps, all remaining
      footprints are excluded. */
  ghost function GrowSpec(g: Ops, tolerant: bool, mosaic: SkyLine, remaining: seq<SkyLine>, id: nat)
    : (r: Result<Grown>)
    ensures tolerant ==> r.Ok?
    decreases |remaining|
  {
    if remaining == [] then Ok(Grown(mosaic, [], []))
    else if !tolerant && exists k :: 0 <= k < |remaining| && Fails(g, mosaic, remaining[k]) then Err
    else
      var o := MaxOverlapOf(g, mosaic, remaining);
      if o.best.None? then Ok(Grown(mosaic, [], remaining))
      else
        var next := o.best.value;
        match AddImage(g, mosaic, next, id + 1)
        case None =>
          if tolerant then
            Extend([], [next], GrowSpec(g, tolerant, mosaic, Remove(remaining, next), id + 1))
          else Err
        case Some(m) => Extend([next], [], GrowSpec(g, tolerant, m, Remove(remaining, next), id + 1))
  }

  /** One step of `GrowSpec` once the scan of `remaining` has answered `o`. */
  lemma GrowSpecScan(g: Ops, tolerant: bool, mosaic: SkyLine, remaining: seq<SkyLine>, id: nat,
                     o: Overlap)
    requires remaining != []
    requires IsMaxOverlap(g, mosaic, remaining, o)
    requires !tolerant ==> forall k :: 0 <= k < |remaining| ==> !Fails(g, mosaic, remaining[k])
    ensures o.best.None? ==> GrowSpec(g, tolerant, mosaic, remaining, id) == Ok(Grown(mosaic, [], remaining))
    ensures o.best.Some? ==> o.best.value in remaining
    ensures o.best.Some? && AddImage(g, mosaic, o.best.value, id + 1).None? ==>
      GrowSpec(g, tolerant, mosaic, remaining, id) ==
        if tolerant then Extend([], [o.best.value],
                                GrowSpec(g, tolerant, mosaic, Remove(remaining, o.best.value), id + 1))
        else Err
    ensures o.best.Some? && AddImage(g, mosaic, o.best.value, id + 1).Some? ==>
      GrowSpec(g, tolerant, mosaic, remaining, id) ==
        Extend([o.best.value], [], GrowSpec(g, tolerant, AddImage(g, mosaic, o.best.value, id + 1).value,
                                            Remove(remaining, o.best.value), id + 1))
  {
    MaxOverlapUnique(g, mosaic, remaining, o, MaxOverlapOf(g, mosaic, remaining));
  }

  /** Regrouping a concatenation of three lists. */
  lemma ConcatShift(a: seq<SkyLine>, b: seq<SkyLine>, c: seq<SkyLine>)
    ensures a + (b + c) == (a + b) + c
    ensures b == [] ==> a + (b + c) == a + c && a + b == a
  {
  }

  /** The bookkeeping holds all the way through `GrowSpec`: from a state with
      footprints `inc` included and `exc` excluded, the outcome's additions and
      exclusions complete the partition of `total`, and its mosaic holds the members
      and the union of everything included. */
  lemma {:induction false} GrowSpecState(g: Ops, tolerant: bool, total: multiset<SkyLine>,
                                         inc: seq<SkyLine>, exc: seq<SkyLine>,
                                         remaining: seq<SkyLine>, mosaic: SkyLine, id: nat)
    requires GrowState(g, total, inc, exc, remaining, mosaic)
    requires GrowSpec(g, tolerant, mosaic, remaining, id).Ok?
    ensures var o := GrowSpec(g, tolerant, mosaic, remaining, id).value;
      GrowState(g, total, inc + o.added, exc + o.excluded, [], o.mosaic)
    decreases |remaining|
  {
    var o := GrowSpec(g, tolerant, mosaic, remaining, id).value;
    if remaining == [] {
      assert o == Grown(mosaic, [], []);
      ConcatShift(inc, [], []);
      ConcatShift(exc, [], []);
    } else {
      var ov := MaxOverlapOf(g, mosaic, remaining);
      if !tolerant && exists k :: 0 <= k < |remaining| && Fails(g, mosaic, remaining[k]) {
        assert false;
      }
      GrowSpecScan(g, tolerant, mosaic, remaining, id, ov);
      if ov.best.None? {
        assert o == Grown(mosaic, [], remaining);
        ConcatShift(inc, [], []);
      } else {
        var next := ov.best.value;
        var rest := Remove(remaining, next);
        match AddImage(g, mosaic, next, id + 1) {
          case None =>
            var o' := GrowSpec(g, tolerant, mosaic, rest, id + 1).value;
            assert o.added == [] + o'.added && o.excluded == [next] + o'.excluded;
            SkipStep(g, total, inc, exc, remaining, mosaic, next);
            GrowSpecState(g, tolerant, total, inc, exc + [next], rest, mosaic, id + 1);
            ConcatShift(inc, [], o'.added);
            ConcatShift(exc, [next], o'.excluded);
          case Some(m) =>
            var o' := GrowSpec(g, tolerant, m, rest, id + 1).value;
            assert GrowSpec(g, tolerant, mosaic, remaining, id) ==
              Extend([next], [], GrowSpec(g, tolerant, m, rest, id + 1));
            assert o.added == [next] + o'.added && o.excluded == [] + o'.excluded;
            IncludeStep(g, total, inc, exc, remaining, mosaic, next, id + 1);
            GrowSpecState(g, tolerant, total, inc + [next], exc, rest, m, id + 1);
            ConcatShift(inc, [next], o'.added);
            ConcatShift(exc, [], o'.excluded);
        }
      }
    }
  }

  /** What `mosaic` does once its starting pair is at positions `i < j`: unite the
      pair (a failure here is always an error, whatever `tolerant` says), take both
      out of the pool and grow, the pair first among the footprints added. */
  ghost function SeedSpec(g: Ops, s: seq<SkyLine>, tolerant: bool, i: int, j: int): (r: Result<Grown>)
    requires 0 <= i < j < |s|
    ensures tolerant && r.Err? ==> AddImage(g, s[i], s[j], FreshId(s)).None?
    ensures r.Ok? ==> |r.value.added| >= 2 && r.value.added[..2] == [s[i], s[j]]
  {
    RemoveKeepsLater(s, i, j);
    var id := FreshId(s);
    match AddImage(g, s[i], s[j], id)
    case None => Err
    case Some(seed) => Extend([s[i], s[j]], [], GrowSpec(g, tolerant, seed, Remove(Remove(s, s[i]), s[j]), id))
  }

  /** The outcome of `SeedSpec` starts with the pair, partitions the input between
      the footprints added and those excluded, and its mosaic holds the members and
      the union of the polygons of all footprints added. */
  lemma SeedSpecState(g: Ops, s: seq<SkyLine>, tolerant: bool, i: int, j: int)
    requires 0 <= i < j < |s|
    requires SeedSpec(g, s, tolerant, i, j).Ok?
    ensures var o := SeedSpec(g, s, tolerant, i, j).value;
      && |o.added| >= 2 && o.added[..2] == [s[i], s[j]]
      && multiset(o.added) + multiset(o.excluded) == multiset(s)
      && o.mosaic.members == Dedup(AllMembers(o.added))
      && UnionChain(g, o.added) == Some(o.mosaic.polygon)
  {
    var id := FreshId(s);
    var seed := AddImage(g, s[i], s[j], id).value;
    var rest := Remove(Remove(s, s[i]), s[j]);
    SeedState(g, s, i, j, id, seed);
    SeedPair(g, s[i], s[j]);
    GrowSpecState(g, tolerant, multiset(s), [s[i], s[j]], [], rest, seed, id);
    var o := SeedSpec(g, s, tolerant, i, j).value;
    var o' := GrowSpec(g, tolerant, seed, rest, id).value;
    assert o.added == [s[i], s[j]] + o'.added && o.excluded == [] + o'.excluded;
  }

  /** For distinct inputs, a partition into `inc` and `exc` puts every input in
      exactly one of them, and nothing else in either. */
  lemma PartitionOfDistinct(s: seq<SkyLine>, inc: seq<SkyLine>, exc: seq<SkyLine>)
    requires NoDups(s)
    requires multiset(inc) + multiset(exc) == multiset(s)
    ensures forall x :: x in s <==> x in inc || x in exc
    ensures forall x :: x in s ==> !(x in inc && x in exc)
  {
    forall x | x in s ensures !(x in inc && x in exc) {
      NoDupsOccursOnce(s, x);
    }
    forall x ensures x in s <==> x in inc || x in exc {
      assert x in multiset(s) <==> x in multiset(inc) || x in multiset(exc);
    }
  }
}
