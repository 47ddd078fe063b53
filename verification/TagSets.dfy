/** The hand-written sets of tags (api/internal/tag/tag.go): maps from tag ids to booleans. */
module TagSets {
  import opened Seqs

  type TagSet = map<int, bool>

  /** Set membership is reading true; a missing key reads false. */
  predicate Has(s: TagSet, tag: int) {
    tag in s && s[tag]
  }

  method Set(tagIds: seq<int>) returns (s: TagSet)
    ensures s == map t | t in tagIds :: true
  {
    s := map[];
    for i := 0 to |tagIds|
      invariant s == map t | t in tagIds[..i] :: true
    {
      assert tagIds[..i + 1] == tagIds[..i] + [tagIds[i]];
      s := s[tagIds[i] := true];
    }
    assert tagIds[..|tagIds|] == tagIds;
  }

  function IntersectionUpTo(sets: seq<TagSet>, done: set<int>): TagSet
    requires sets != []
  {
    map t | t in sets[0] && t in done && (forall i | 0 <= i < |sets| :: Has(sets[i], t)) :: true
  }

  method Intersection(sets: seq<TagSet>) returns (intersection: TagSet)
    ensures sets == [] ==> intersection == map[]
    ensures sets != [] ==> intersection == map t | t in sets[0] && (forall i | 0 <= i < |sets| :: Has(sets[i], t)) :: true
  {
    intersection := map[];
    if |sets| == 0 {
      return;
    }
    var items := sets[0].Keys;
    assert IntersectionUpTo(sets, {}) == map[];
    while items != {}
      invariant items <= sets[0].Keys
      invariant intersection == IntersectionUpTo(sets, sets[0].Keys - items)
      decreases items
    {
      var t := Pick(items);
      IntersectionNext(sets, sets[0].Keys - items, t);
      assert sets[0].Keys - (items - {t}) == (sets[0].Keys - items) + {t};
      items := items - {t};
      var inAll := true;
      for i := 0 to |sets|
        invariant inAll && forall j | 0 <= j < i :: Has(sets[j], t)
      {
        if !Has(sets[i], t) {
          inAll := false;
          break;
        }
      }
      if inAll {
        intersection := intersection[t := true];
      }
    }
    assert sets[0].Keys - items == sets[0].Keys;
  }

  lemma IntersectionNext(sets: seq<TagSet>, done: set<int>, t: int)
    requires sets != [] && t in sets[0]
    ensures IntersectionUpTo(sets, done + {t}) ==
            if forall i | 0 <= i < |sets| :: Has(sets[i], t) then IntersectionUpTo(sets, done)[t := true]
            else IntersectionUpTo(sets, done)
  {
    hide Has;
  }

  function Full(tags: set<int>): TagSet {
    map t | t in tags :: true
  }

  function UnionOf(sets: seq<TagSet>): TagSet {
    if sets == [] then map[] else UnionOf(sets[..|sets| - 1]) + Full(sets[|sets| - 1].Keys)
  }

  lemma {:induction false} UnionOfIs(sets: seq<TagSet>, t: int)
    ensures t in UnionOf(sets) <==> exists i | 0 <= i < |sets| :: t in sets[i]
    ensures t in UnionOf(sets) ==> UnionOf(sets)[t]
  {
    if sets != [] {
      var n := |sets| - 1;
      UnionOfIs(sets[..n], t);
      if t in UnionOf(sets[..n]) {
        var i :| 0 <= i < n && t in sets[..n][i];
        assert t in sets[i];
      }
      if exists i | 0 <= i < |sets| :: t in sets[i] {
        var i :| 0 <= i < |sets| && t in sets[i];
        assert i < n ==> t in sets[..n][i];
      }
    }
  }

  method Union(sets: seq<TagSet>) returns (union: TagSet)
    ensures union == UnionOf(sets)
    ensures forall t :: t in union <==> exists i | 0 <= i < |sets| :: t in sets[i]
    ensures forall t :: t in union ==> union[t]
  {
    union := map[];
    for i := 0 to |sets|
      invariant union == UnionOf(sets[..i])
    {
      assert sets[..i + 1][..i] == sets[..i];
      ghost var before := union;
      var items := sets[i].Keys;
      assert before + Full(sets[i].Keys - items) == before;
      while items != {}
        invariant items <= sets[i].Keys
        invariant union == before + Full(sets[i].Keys - items)
        decreases items
      {
        var t := Pick(items);
        assert sets[i].Keys - (items - {t}) == (sets[i].Keys - items) + {t};
        items := items - {t};
        union := union[t := true];
      }
      assert sets[i].Keys - items == sets[i].Keys;
    }
    assert sets[..|sets|] == sets;
    forall t
      ensures t in union <==> exists i | 0 <= i < |sets| :: t in sets[i]
      ensures t in union ==> union[t]
    {
      UnionOfIs(sets, t);
    }
  }

  function Common(a: TagSet, done: set<int>): set<int> {
    set t | t in done && Has(a, t)
  }

  /** Counts the tags of b that a has and compares with the size of a: that is, a is a subset of b -
      the other way round than the comment in the source has it. */
  method Contains(a: TagSet, b: TagSet) returns (r: bool)
    ensures r <==> forall t | t in a :: a[t] && t in b
  {
    var containedTags := 0;
    var items := b.Keys;
    while items != {}
      invariant items <= b.Keys
      invariant containedTags == |Common(a, b.Keys - items)|
      decreases items
    {
      var t := Pick(items);
      CommonNext(a, b.Keys - items, t);
      assert b.Keys - (items - {t}) == (b.Keys - items) + {t};
      items := items - {t};
      if Has(a, t) {
        containedTags := containedTags + 1;
      }
    }
    assert b.Keys - items == b.Keys;
    CountingIsSubset(a, b);
    return containedTags == |a|;
  }

  lemma CommonNext(a: TagSet, done: set<int>, t: int)
    requires t !in done
    ensures |Common(a, done + {t})| == |Common(a, done)| + if Has(a, t) then 1 else 0
  {
    hide Has;
    if Has(a, t) {
      assert Common(a, done + {t}) == Common(a, done) + {t};
    } else {
      assert Common(a, done + {t}) == Common(a, done);
    }
  }

  lemma CountingIsSubset(a: TagSet, b: TagSet)
    ensures |Common(a, b.Keys)| == |a| <==> forall t | t in a :: a[t] && t in b
  {
    assert |a| == |a.Keys|;
    SubsetOfSameSize(Common(a, b.Keys), a.Keys);
    if forall t | t in a :: a[t] && t in b {
      assert Common(a, b.Keys) == a.Keys;
    }
    if Common(a, b.Keys) == a.Keys {
      forall t | t in a
        ensures a[t] && t in b
      {
        assert t in Common(a, b.Keys);
      }
    }
  }
}
