/** Members of a footprint and the duplicate-free member lists of `SkyLine`. */
module Members {
  import opened Geometry

  /** A `SkyLineMember`: the image file name, the extensions combined, and the
      footprint of their combined WCS. The class defines no equality of its own,
      so Python compares members by object identity; `id` stands for that identity
      (two values with the same `id` are the same object, so value equality on
      `Member` is identity). */
  datatype Member = Member(id: nat, fname: string, ext: seq<nat>, polygon: Polygon)

  /** No element occurs twice. */
  predicate NoDups<T(==, !new)>(s: seq<T>) {
    forall i, j :: 0 <= i < j < |s| ==> s[i] != s[j]
  }

  /** In a list without duplicates every element occurs exactly once. */
  lemma {:induction false} NoDupsOccursOnce<T(!new)>(s: seq<T>, x: T)
    requires NoDups(s) && x in s
    ensures multiset(s)[x] == 1
  {
    assert s == [s[0]] + s[1..];
    if s[0] == x {
      assert x !in s[1..] by {
        forall k | 0 <= k < |s[1..]| ensures s[1..][k] != x {
          assert s[1..][k] == s[k + 1];
        }
      }
    } else {
      NoDupsOccursOnce(s[1..], x);
    }
  }

  /** Position of the first occurrence of `x` in `s`. */
  function IndexOf<T(==, !new)>(s: seq<T>, x: T): (k: nat)
    requires x in s
    ensures k < |s| && s[k] == x && x !in s[..k]
  {
    if s[0] == x then 0
    else
      var k' := IndexOf(s[1..], x);
      assert s[..1 + k'] == [s[0]] + s[1..][..k'];
      1 + k'
  }

  /** The list kept by the `members` setter: the elements of `s` in order, each
      appended unless an equal one is already kept. */
  function Dedup<T(==, !new)>(s: seq<T>): (r: seq<T>)
    ensures forall x :: x in r <==> x in s
    ensures NoDups(r)
    ensures |r| <= |s|
  {
    if s == [] then []
    else
      var d := Dedup(s[..|s| - 1]);
      assert s == s[..|s| - 1] + [s[|s| - 1]];
      if s[|s| - 1] in d then d else d + [s[|s| - 1]]
  }

  /** Any position holding `x` with no `x` before it is the first occurrence. */
  lemma IndexOfUnique<T(!new)>(s: seq<T>, x: T, k: nat)
    requires k < |s| && s[k] == x && x !in s[..k]
    ensures IndexOf(s, x) == k
  {
    var k' := IndexOf(s, x);
    forall i | 0 <= i < k ensures s[i] != x {
      assert s[i] in s[..k];
    }
    forall i | 0 <= i < k' ensures s[i] != x {
      assert s[i] in s[..k'];
    }
  }

  /** The first occurrence is at or before any occurrence. */
  lemma {:induction false} IndexOfAtMost<T(!new)>(s: seq<T>, x: T, i: nat)
    requires i < |s| && s[i] == x
    ensures IndexOf(s, x) <= i
  {
    if s[0] != x {
      IndexOfAtMost(s[1..], x, i - 1);
    }
  }

  /** Appending never moves the first occurrence of an element already present. */
  lemma IndexOfAppend<T(!new)>(a: seq<T>, y: T, x: T)
    requires x in a
    ensures IndexOf(a + [y], x) == IndexOf(a, x)
  {
    var k := IndexOf(a, x);
    assert (a + [y])[..k] == a[..k];
    IndexOfUnique(a + [y], x, k);
  }

  /** The kept elements appear in the order of their first occurrences in the input,
      so `[A, B, A, C]` is kept as `[A, B, C]`. */
  lemma {:induction false} DedupFirstOccurrenceOrder<T(!new)>(s: seq<T>)
    ensures forall i, j :: 0 <= i < j < |Dedup(s)| ==>
              IndexOf(s, Dedup(s)[i]) < IndexOf(s, Dedup(s)[j])
  {
    if s != [] {
      var s', y := s[..|s| - 1], s[|s| - 1];
      assert s == s' + [y];
      DedupFirstOccurrenceOrder(s');
      var d := Dedup(s');
      forall x | x in d ensures IndexOf(s, x) == IndexOf(s', x) {
        IndexOfAppend(s', y, x);
      }
      if y !in d {
        assert s[..|s'|] == s';
        IndexOfUnique(s, y, |s'|);
        forall i | 0 <= i < |d| ensures IndexOf(s, d[i]) < IndexOf(s, y) {
          assert d[i] in d;
        }
      }
    }
  }

  /** Deduplicating a list that has no duplicates returns it unchanged. */
  lemma {:induction false} DedupOfNoDups<T(!new)>(s: seq<T>)
    requires NoDups(s)
    ensures Dedup(s) == s
  {
    if s != [] {
      var s' := s[..|s| - 1];
      DedupOfNoDups(s');
      assert s == s' + [s[|s| - 1]];
    }
  }

  /** What is kept from a prefix is kept, in the same places, from the whole list. */
  lemma {:induction false} DedupExtends<T(!new)>(a: seq<T>, b: seq<T>)
    ensures Dedup(a) <= Dedup(a + b)
  {
    if b == [] {
      assert a + b == a;
    } else {
      var b' := b[..|b| - 1];
      DedupExtends(a, b');
      assert (a + b)[..|a + b| - 1] == a + b';
    }
  }

  /** Deduplicating a prefix first changes nothing: the members of a footprint built
      by repeated `add_image` depend only on the concatenation of all member lists. */
  lemma {:induction false} DedupAbsorbsPrefix<T(!new)>(a: seq<T>, b: seq<T>)
    ensures Dedup(Dedup(a) + b) == Dedup(a + b)
  {
    if b == [] {
      assert Dedup(a) + b == Dedup(a);
      assert a + b == a;
      DedupOfNoDups(Dedup(a));
    } else {
      var b', y := b[..|b| - 1], b[|b| - 1];
      DedupAbsorbsPrefix(a, b');
      assert (Dedup(a) + b)[..|Dedup(a) + b| - 1] == Dedup(a) + b';
      assert (a + b)[..|a + b| - 1] == a + b';
    }
  }

  /** The `members` setter: builds the stored list by appending each value that is
      not yet in it. */
  method SetMembers(values: seq<Member>) returns (members: seq<Member>)
    ensures members == Dedup(values)
  {
    members := [];
    for i := 0 to |values|
      invariant members == Dedup(values[..i])
    {
      assert values[..i + 1][..i] == values[..i];
      if values[i] !in members {
        members := members + [values[i]];
      }
    }
    assert values[..|values|] == values;
  }

  /** Deduplication of `[A, B, A, C]` with distinct `A`, `B`, `C`. */
  lemma DedupExample<T(!new)>(a: T, b: T, c: T)
    requires a != b && a != c && b != c
    ensures Dedup([a, b, a, c]) == [a, b, c]
  {
    assert [a, b, a, c][..3] == [a, b, a];
    assert [a, b, a][..2] == [a, b];
    assert [a, b][..1] == [a];
    assert Dedup([a, b]) == [a, b];
    assert Dedup([a, b, a]) == [a, b];
  }
}
