/** `SkyLine`: a footprint on the sky made of members and a composite polygon. */
module SkyLines {
  import opened Wrappers
  import opened Geometry
  import opened Members

  /** A `SkyLine` object. `id` stands for the identity of the Python object
      (the class defines no equality, so lists compare footprints by identity);
      `members` is what the `members` setter stored and `polygon` the composite
      footprint. */
  datatype SkyLine = SkyLine(id: nat, members: seq<Member>, polygon: Polygon)

  /** The polygon `__init__` gives a footprint with these members; `None` where it
      raises because there is more than one member. */
  function InitPolygon(g: Ops, members: seq<Member>): (r: Option<Polygon>)
    ensures r.Some? <==> |members| <= 1
    ensures |members| == 0 ==> r == Some(g.empty)
    ensures |members| == 1 ==> r == Some(members[0].polygon)
  {
    if |members| == 0 then Some(g.empty)
    else if |members| == 1 then Some(members[0].polygon)
    else None
  }

  /** `SkyLine(fname)`: `member` is the `SkyLineMember` read from the image, or
      `None` for `SkyLine(None)`. The constructor never reaches its
      "multiple members" error. */
  function New(g: Ops, id: nat, member: Option<Member>): (s: SkyLine)
    ensures s.id == id && NoDups(s.members)
    ensures member.None? ==> s.members == [] && s.polygon == g.empty
    ensures member.Some? ==> s.members == [member.value] && s.polygon == member.value.polygon
  {
    var members := Dedup(if member.Some? then [member.value] else []);
    assert member.Some? ==> [member.value][..0] == [];
    var p := InitPolygon(g, members);
    SkyLine(id, members, p.value)
  }

  /** `_rough_id`: the file name of the first member, `None` without members. */
  function RoughId(s: SkyLine): (r: Option<string>)
    ensures r.Some? <==> s.members != []
    ensures r.Some? ==> r.value == s.members[0].fname
  {
    if |s.members| > 0 then Some(s.members[0].fname) else None
  }

  /** The list comprehension of `_find_members`: the given members, in order,
      whose polygon intersects `poly`. */
  function Intersecting(g: Ops, poly: Polygon, given: seq<Member>): (r: seq<Member>)
    ensures forall m :: m in r <==> m in given && g.intersects(poly, m.polygon)
    ensures |r| <= |given|
  {
    if given == [] then []
    else
      var m := given[|given| - 1];
      var r' := Intersecting(g, poly, given[..|given| - 1]);
      assert given == given[..|given| - 1] + [m];
      if g.intersects(poly, m.polygon) then r' + [m] else r'
  }

  /** Filtering one more member appends it when it intersects. */
  lemma IntersectingSnoc(g: Ops, poly: Polygon, s: seq<Member>, y: Member)
    ensures Intersecting(g, poly, s + [y]) ==
      if g.intersects(poly, y.polygon) then Intersecting(g, poly, s) + [y] else Intersecting(g, poly, s)
  {
    assert (s + [y])[..|s|] == s;
  }

  /** A non-empty list is its front followed by its last element. */
  lemma SplitLast(a: seq<Member>, b: seq<Member>)
    requires b != []
    ensures b == b[..|b| - 1] + [b[|b| - 1]]
    ensures a + b == (a + b[..|b| - 1]) + [b[|b| - 1]]
  {
    assert b == b[..|b| - 1] + [b[|b| - 1]];
  }

  /** The comprehension keeps the order of the given members: filtering a
      concatenation concatenates the filtered parts. */
  lemma {:induction false} IntersectingAppend(g: Ops, poly: Polygon, a: seq<Member>, b: seq<Member>)
    ensures Intersecting(g, poly, a + b) == Intersecting(g, poly, a) + Intersecting(g, poly, b)
    decreases |b|
  {
    if b == [] {
      assert a + b == a;
    } else {
      var b', y := b[..|b| - 1], b[|b| - 1];
      IntersectingAppend(g, poly, a, b');
      SplitLast(a, b);
      IntersectingSnoc(g, poly, b', y);
      IntersectingSnoc(g, poly, a + b', y);
      var ia, ib' := Intersecting(g, poly, a), Intersecting(g, poly, b');
      assert (ia + ib') + [y] == ia + (ib' + [y]);
    }
  }

  /** The comprehension keeps every intersecting member as often as it is given,
      and no other. */
  lemma {:induction false} IntersectingCount(g: Ops, poly: Polygon, given: seq<Member>, m: Member)
    ensures multiset(Intersecting(g, poly, given))[m] ==
      if g.intersects(poly, m.polygon) then multiset(given)[m] else 0
  {
    if given != [] {
      var s, y := given[..|given| - 1], given[|given| - 1];
      IntersectingCount(g, poly, s, m);
      SplitLast([], given);
      IntersectingSnoc(g, poly, s, y);
      assert multiset(given) == multiset(s) + multiset{y};
    }
  }

  /** `_find_members` on a footprint whose polygon is `poly`: nothing when the
      polygon has no points, otherwise the given members that intersect it. */
  function FindMembers(g: Ops, poly: Polygon, given: seq<Member>): (r: seq<Member>)
    ensures !g.hasPoints(poly) ==> r == []
    ensures forall m :: m in r <==> m in given && g.hasPoints(poly) && g.intersects(poly, m.polygon)
  {
    if g.hasPoints(poly) then Intersecting(g, poly, given) else []
  }

  /** Filtering and deduplicating commute: the deduplicated filter is the filter of
      the deduplicated list. */
  lemma {:induction false} DedupIntersecting(g: Ops, poly: Polygon, s: seq<Member>)
    ensures Dedup(Intersecting(g, poly, s)) == Intersecting(g, poly, Dedup(s))
  {
    if s != [] {
      var s', y := s[..|s| - 1], s[|s| - 1];
      DedupIntersecting(g, poly, s');
      var f' := Intersecting(g, poly, s');
      var d' := Dedup(s');
      assert Dedup(s) == if y in d' then d' else d' + [y];
      if g.intersects(poly, y.polygon) {
        assert (f' + [y])[..|f' + [y]| - 1] == f';
        if y !in d' {
          assert (d' + [y])[..|d' + [y]| - 1] == d';
        }
      } else if y !in d' {
        assert (d' + [y])[..|d' + [y]| - 1] == d';
      }
    }
  }

  /** `add_image`: a new footprint whose polygon is the union of both polygons and
      whose members are both member lists, concatenated and deduplicated; `None`
      where the union raises. */
  function AddImage(g: Ops, self: SkyLine, other: SkyLine, id: nat): (r: Option<SkyLine>)
    ensures r.None? <==> g.union(self.polygon, other.polygon).None?
    ensures r.Some? ==> r.value.id == id && Some(r.value.polygon) == g.union(self.polygon, other.polygon)
    ensures r.Some? ==> r.value.members == Dedup(self.members + other.members)
  {
    match g.union(self.polygon, other.polygon)
    case None => None
    case Some(p) => Some(SkyLine(id, Dedup(self.members + other.members), p))
  }

  /** The members of `add_image` are the members of `self`, in their order, followed
      by those of `other` not already present; nothing else. */
  lemma AddImageMembers(g: Ops, self: SkyLine, other: SkyLine, id: nat)
    requires NoDups(self.members)
    requires AddImage(g, self, other, id).Some?
    ensures var ms := AddImage(g, self, other, id).value.members;
      && self.members <= ms
      && NoDups(ms)
      && forall m :: m in ms <==> m in self.members || m in other.members
  {
    DedupExtends(self.members, other.members);
    DedupOfNoDups(self.members);
  }

  /** Adding an empty footprint keeps the member list as it is. */
  lemma AddImageEmpty(g: Ops, self: SkyLine, emptyId: nat, id: nat)
    requires NoDups(self.members)
    requires AddImage(g, self, New(g, emptyId, None), id).Some?
    ensures AddImage(g, self, New(g, emptyId, None), id).value.members == self.members
  {
    assert self.members + [] == self.members;
    DedupOfNoDups(self.members);
  }

  /** `find_intersection`: a new footprint whose polygon is the intersection of both
      polygons and whose members are those of `_find_members` on the concatenated
      member lists, deduplicated; `None` where the intersection raises. */
  function FindIntersection(g: Ops, self: SkyLine, other: SkyLine, id: nat): (r: Option<SkyLine>)
    ensures r.None? <==> g.intersection(self.polygon, other.polygon).None?
    ensures r.Some? ==> r.value.id == id && Some(r.value.polygon) == g.intersection(self.polygon, other.polygon)
    ensures r.Some? ==> r.value.members == Dedup(FindMembers(g, r.value.polygon, self.members + other.members))
  {
    match g.intersection(self.polygon, other.polygon)
    case None => None
    case Some(p) => Some(SkyLine(id, Dedup(FindMembers(g, p, self.members + other.members)), p))
  }

  /** An intersection without points has no members; otherwise the members are
      exactly the deduplicated concatenation, in order, filtered to those whose
      polygon intersects the result. */
  lemma FindIntersectionMembers(g: Ops, self: SkyLine, other: SkyLine, id: nat)
    requires FindIntersection(g, self, other, id).Some?
    ensures var r := FindIntersection(g, self, other, id).value;
      && NoDups(r.members)
      && (!g.hasPoints(r.polygon) ==> r.members == [])
      && (g.hasPoints(r.polygon) ==>
            r.members == Intersecting(g, r.polygon, Dedup(self.members + other.members)))
  {
    var r := FindIntersection(g, self, other, id).value;
    DedupIntersecting(g, r.polygon, self.members + other.members);
  }
}
