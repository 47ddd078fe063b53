/** The two directions of the relation between edge stacks and endpoints are one relation. */
module EdgeDuality {
  import opened Seqs
  import opened Wrappers
  import opened EdgeRelations

  ghost predicate UniqueEndpoints(endpoints: seq<Endpoint>) {
    forall i, j | 0 <= i < j < |endpoints| :: endpoints[i].id != endpoints[j].id
  }

  ghost predicate UniqueEdgeGroups(edgeGroups: seq<EdgeGroup>) {
    forall i, j | 0 <= i < j < |edgeGroups| :: edgeGroups[i].id != edgeGroups[j].id
  }

  ghost predicate UniqueStacks(stacks: seq<EdgeStack>) {
    forall i, j | 0 <= i < j < |stacks| :: stacks[i].id != stacks[j].id
  }

  /** What the list of an edge group says of an endpoint: dynamic groups leave out everything that
      is not an edge endpoint. */
  predicate Listed(eg: EdgeGroup, e: Endpoint, g: EndpointGroup) {
    Related(eg, e, g) && (eg.isDynamic ==> e.IsEdge())
  }

  lemma {:induction false} MatchingIff(eg: EdgeGroup, endpoints: seq<Endpoint>, groups: seq<EndpointGroup>, e: Endpoint)
    requires UniqueEndpoints(endpoints)
    ensures e in endpoints ==>
              (e.id in Matching(eg, endpoints, groups) <==> e.IsEdge() && Related(eg, e, GroupOf(e, groups)))
    ensures (forall i | 0 <= i < |endpoints| :: endpoints[i].id != e.id) ==> e.id !in Matching(eg, endpoints, groups)
  {
    if endpoints != [] {
      hide Related, GroupOf;
      var front, last := endpoints[..|endpoints| - 1], endpoints[|endpoints| - 1];
      MatchingIff(eg, front, groups, e);
      assert endpoints == front + [last];
      if e in endpoints {
        var k :| 0 <= k < |endpoints| && endpoints[k] == e;
        if e == last {
          assert forall i | 0 <= i < |front| :: front[i].id != e.id by {
            assert forall i | 0 <= i < |front| :: front[i] == endpoints[i];
          }
        }
      }
      if forall i | 0 <= i < |endpoints| :: endpoints[i].id != e.id {
        assert forall i | 0 <= i < |front| :: front[i].id != e.id by {
          assert forall i | 0 <= i < |front| :: front[i] == endpoints[i];
        }
        assert last.id != e.id;
      }
    }
  }

  lemma GroupEndpointsIff(eg: EdgeGroup, endpoints: seq<Endpoint>, groups: seq<EndpointGroup>, e: Endpoint)
    requires UniqueEndpoints(endpoints) && e in endpoints
    ensures e.id in GroupEndpoints(eg, endpoints, groups) <==> Listed(eg, e, GroupOf(e, groups))
  {
    hide Matching, GroupOf;
    MatchingIff(eg, endpoints, groups, e);
  }

  /** All edge groups referred to exist. */
  ghost predicate AllFound(ids: seq<int>, edgeGroups: seq<EdgeGroup>) {
    forall i | 0 <= i < |ids| :: EdgeGroupOf(ids[i], edgeGroups).Some?
  }

  ghost predicate SomeListed(ids: seq<int>, edgeGroups: seq<EdgeGroup>, e: Endpoint, g: EndpointGroup)
    requires AllFound(ids, edgeGroups)
  {
    exists i | 0 <= i < |ids| :: Listed(EdgeGroupOf(ids[i], edgeGroups).value, e, g)
  }

  lemma SomeListedSnoc(ids: seq<int>, edgeGroups: seq<EdgeGroup>, e: Endpoint, g: EndpointGroup)
    requires ids != [] && AllFound(ids, edgeGroups)
    ensures AllFound(ids[..|ids| - 1], edgeGroups) && EdgeGroupOf(ids[|ids| - 1], edgeGroups).Some?
    ensures SomeListed(ids, edgeGroups, e, g) <==>
            SomeListed(ids[..|ids| - 1], edgeGroups, e, g) || Listed(EdgeGroupOf(ids[|ids| - 1], edgeGroups).value, e, g)
  {
    hide Listed, EdgeGroupOf;
    var front := ids[..|ids| - 1];
    if SomeListed(front, edgeGroups, e, g) {
      var i :| 0 <= i < |front| && Listed(EdgeGroupOf(front[i], edgeGroups).value, e, g);
      assert Listed(EdgeGroupOf(ids[i], edgeGroups).value, e, g);
    }
    if SomeListed(ids, edgeGroups, e, g) {
      var i :| 0 <= i < |ids| && Listed(EdgeGroupOf(ids[i], edgeGroups).value, e, g);
      if i < |front| {
        assert Listed(EdgeGroupOf(front[i], edgeGroups).value, e, g);
      }
    }
  }

  /** Stack to endpoints: the endpoints listed by one of the stack's groups. */
  lemma {:induction false} StackEndpointsIff(ids: seq<int>, endpoints: seq<Endpoint>, groups: seq<EndpointGroup>, edgeGroups: seq<EdgeGroup>, e: Endpoint)
    requires UniqueEndpoints(endpoints) && e in endpoints && AllFound(ids, edgeGroups)
    ensures var r := StackEndpoints(ids, endpoints, groups, edgeGroups);
            r.Some? && (e.id in r.value <==> SomeListed(ids, edgeGroups, e, GroupOf(e, groups)))
  {
    if ids != [] {
      hide Listed, GroupEndpoints, EdgeGroupOf, GroupOf, SomeListed, AllFound, UniqueEndpoints;
      var n := |ids| - 1;
      SomeListedSnoc(ids, edgeGroups, e, GroupOf(e, groups));
      StackEndpointsIff(ids[..n], endpoints, groups, edgeGroups, e);
      GroupEndpointsIff(EdgeGroupOf(ids[n], edgeGroups).value, endpoints, groups, e);
    }
  }

  lemma {:induction false} EdgeGroupOfIs(id: int, edgeGroups: seq<EdgeGroup>)
    ensures match EdgeGroupOf(id, edgeGroups)
            case Some(eg) => eg.id == id && exists i | 0 <= i < |edgeGroups| :: edgeGroups[i] == eg
            case None => forall i | 0 <= i < |edgeGroups| :: edgeGroups[i].id != id
  {
    if edgeGroups != [] {
      EdgeGroupOfIs(id, edgeGroups[1..]);
      if edgeGroups[0].id == id {
        assert edgeGroups[0] == edgeGroups[0];
      } else if EdgeGroupOf(id, edgeGroups[1..]).Some? {
        var i :| 0 <= i < |edgeGroups[1..]| && edgeGroups[1..][i] == EdgeGroupOf(id, edgeGroups[1..]).value;
        assert edgeGroups[i + 1] == EdgeGroupOf(id, edgeGroups).value;
      }
    }
  }

  lemma RelatedGroupsIff(e: Endpoint, g: EndpointGroup, edgeGroups: seq<EdgeGroup>, id: int)
    requires UniqueEdgeGroups(edgeGroups) && EdgeGroupOf(id, edgeGroups).Some?
    ensures id in RelatedGroups(e, g, edgeGroups) <==> Related(EdgeGroupOf(id, edgeGroups).value, e, g)
  {
    hide Related, EdgeGroupOf;
    EdgeGroupOfIs(id, edgeGroups);
    var k :| 0 <= k < |edgeGroups| && edgeGroups[k] == EdgeGroupOf(id, edgeGroups).value;
    if id in RelatedGroups(e, g, edgeGroups) {
      var i :| 0 <= i < |edgeGroups| && Related(edgeGroups[i], e, g) && edgeGroups[i].id == id;
      assert i == k;
    }
  }

  lemma {:induction false} ReachingStacksIff(stacks: seq<EdgeStack>, related: set<int>, s: EdgeStack)
    requires UniqueStacks(stacks)
    ensures s in stacks ==> (s.id in ReachingStacks(stacks, related) <==> Reaches(s, related))
    ensures (forall i | 0 <= i < |stacks| :: stacks[i].id != s.id) ==> s.id !in ReachingStacks(stacks, related)
  {
    if stacks != [] {
      hide Reaches;
      var front, last := stacks[..|stacks| - 1], stacks[|stacks| - 1];
      ReachingStacksIff(front, related, s);
      assert stacks == front + [last];
      assert forall i | 0 <= i < |front| :: front[i] == stacks[i];
      if s in stacks && s == last {
        assert forall i | 0 <= i < |front| :: front[i].id != s.id;
      }
      if forall i | 0 <= i < |stacks| :: stacks[i].id != s.id {
        assert forall i | 0 <= i < |front| :: front[i].id != s.id;
        assert last.id != s.id;
      }
    }
  }

  /** The stack reaches the endpoint through one of its groups of the given kind. */
  ghost predicate ReachesVia(s: EdgeStack, edgeGroups: seq<EdgeGroup>, e: Endpoint, g: EndpointGroup, isDynamic: bool)
    requires AllFound(s.edgeGroups, edgeGroups)
  {
    exists i | 0 <= i < |s.edgeGroups| ::
      var eg := EdgeGroupOf(s.edgeGroups[i], edgeGroups).value;
      eg.isDynamic == isDynamic && Related(eg, e, g)
  }

  /** Endpoint to stacks: the stacks one of whose groups is related to the endpoint. */
  lemma EndpointStacksIff(e: Endpoint, g: EndpointGroup, edgeGroups: seq<EdgeGroup>, stacks: seq<EdgeStack>, s: EdgeStack)
    requires UniqueEdgeGroups(edgeGroups) && UniqueStacks(stacks) && s in stacks && AllFound(s.edgeGroups, edgeGroups)
    ensures s.id in ReachingStacks(stacks, RelatedGroups(e, g, edgeGroups)) <==>
            ReachesVia(s, edgeGroups, e, g, true) || ReachesVia(s, edgeGroups, e, g, false)
  {
    hide Related, RelatedGroups, EdgeGroupOf, ReachingStacks;
    var related := RelatedGroups(e, g, edgeGroups);
    ReachingStacksIff(stacks, related, s);
    forall i | 0 <= i < |s.edgeGroups|
      ensures s.edgeGroups[i] in related <==> Related(EdgeGroupOf(s.edgeGroups[i], edgeGroups).value, e, g)
    {
      RelatedGroupsIff(e, g, edgeGroups, s.edgeGroups[i]);
    }
  }

  /** For edge endpoints the two directions agree, whatever kinds of groups the stack has. For any
      other endpoint they agree unless the stack reaches it by dynamic groups only: the second
      direction then lists the stack, the first does not list the endpoint. */
  lemma StackEndpointDuality(e: Endpoint, endpoints: seq<Endpoint>, groups: seq<EndpointGroup>, edgeGroups: seq<EdgeGroup>,
      stacks: seq<EdgeStack>, s: EdgeStack)
    requires UniqueEndpoints(endpoints) && UniqueEdgeGroups(edgeGroups) && UniqueStacks(stacks)
    requires e in endpoints && s in stacks && AllFound(s.edgeGroups, edgeGroups)
    ensures var g := GroupOf(e, groups);
            var listed := StackEndpoints(s.edgeGroups, endpoints, groups, edgeGroups);
            && listed.Some?
            && ((e.id in listed.value <==> s.id in ReachingStacks(stacks, RelatedGroups(e, g, edgeGroups))) <==>
                e.IsEdge()
                || !ReachesVia(s, edgeGroups, e, g, true)
                || ReachesVia(s, edgeGroups, e, g, false))
  {
    hide Related, GroupOf, StackEndpoints, ReachingStacks, RelatedGroups, EdgeGroupOf;
    var g := GroupOf(e, groups);
    StackEndpointsIff(s.edgeGroups, endpoints, groups, edgeGroups, e);
    EndpointStacksIff(e, g, edgeGroups, stacks, s);
    assert e.id in StackEndpoints(s.edgeGroups, endpoints, groups, edgeGroups).value <==>
           (e.IsEdge() && ReachesVia(s, edgeGroups, e, g, true)) || ReachesVia(s, edgeGroups, e, g, false);
  }

  // ---- The same, spelled out over ids and tags

  /** The edge group asks for this endpoint: by its id, by some tag, or by all tags. */
  ghost predicate AsksFor(eg: EdgeGroup, id: int, tags: set<int>) {
    if !eg.isDynamic then id in eg.endpoints
    else if eg.partialMatch then (set t | t in eg.tagIds) * tags != {}
    else (set t | t in eg.tagIds) <= tags
  }

  lemma AsksForIff(eg: EdgeGroup, e: Endpoint, g: EndpointGroup)
    ensures AsksFor(eg, e.id, AllTags(e, g)) <==> Related(eg, e, g)
  {
    hide Related, AllTags;
    RelatedIff(eg, e, g);
  }

  /** An endpoint is among those of an edge group iff the group asks for it - and it is an edge
      endpoint, if the group is dynamic. */
  lemma GroupHasEndpointIff(eg: EdgeGroup, endpoints: seq<Endpoint>, groups: seq<EndpointGroup>, e: Endpoint)
    requires UniqueEndpoints(endpoints) && e in endpoints
    ensures e.id in GroupEndpoints(eg, endpoints, groups) <==>
              AsksFor(eg, e.id, AllTags(e, GroupOf(e, groups))) && (eg.isDynamic ==> e.IsEdge())
  {
    hide Related, AllTags, GroupOf, AsksFor, GroupEndpoints;
    GroupEndpointsIff(eg, endpoints, groups, e);
    AsksForIff(eg, e, GroupOf(e, groups));
  }

  /** There is an edge group with this id. */
  ghost predicate HasGroup(edgeGroups: seq<EdgeGroup>, id: int) {
    exists eg :: eg in edgeGroups && eg.id == id
  }

  /** From the stack: the endpoints one of its groups asks for. */
  lemma StackHasEndpointIff(ids: seq<int>, endpoints: seq<Endpoint>, groups: seq<EndpointGroup>, edgeGroups: seq<EdgeGroup>, e: Endpoint)
    requires UniqueEndpoints(endpoints) && e in endpoints && UniqueEdgeGroups(edgeGroups)
    requires forall i | 0 <= i < |ids| :: HasGroup(edgeGroups, ids[i])
    ensures var r := StackEndpoints(ids, endpoints, groups, edgeGroups); var tags := AllTags(e, GroupOf(e, groups));
            && r.Some?
            && (e.id in r.value <==>
                exists eg :: eg in edgeGroups && eg.id in ids && AsksFor(eg, e.id, tags) && (eg.isDynamic ==> e.IsEdge()))
  {
    hide Related, AllTags, GroupOf, AsksFor, StackEndpoints, EdgeGroupOf;
    var g := GroupOf(e, groups);
    GroupsFound(ids, edgeGroups);
    StackEndpointsIff(ids, endpoints, groups, edgeGroups, e);
    if SomeListed(ids, edgeGroups, e, g) {
      var i :| 0 <= i < |ids| && Listed(EdgeGroupOf(ids[i], edgeGroups).value, e, g);
      var eg := EdgeGroupOf(ids[i], edgeGroups).value;
      EdgeGroupOfIs(ids[i], edgeGroups);
      AsksForIff(eg, e, g);
      assert eg in edgeGroups && eg.id in ids;
    }
    if exists eg :: eg in edgeGroups && eg.id in ids && AsksFor(eg, e.id, AllTags(e, g)) && (eg.isDynamic ==> e.IsEdge()) {
      var eg :| eg in edgeGroups && eg.id in ids && AsksFor(eg, e.id, AllTags(e, g)) && (eg.isDynamic ==> e.IsEdge());
      var i :| 0 <= i < |ids| && ids[i] == eg.id;
      OneGroup(edgeGroups, eg);
      AsksForIff(eg, e, g);
      assert Listed(EdgeGroupOf(ids[i], edgeGroups).value, e, g);
    }
  }

  /** From the endpoint: the stacks one of whose groups asks for it, of whatever kind it is. */
  lemma EndpointHasStackIff(e: Endpoint, g: EndpointGroup, edgeGroups: seq<EdgeGroup>, stacks: seq<EdgeStack>, s: EdgeStack)
    requires UniqueEdgeGroups(edgeGroups) && UniqueStacks(stacks) && s in stacks
    ensures s.id in ReachingStacks(stacks, RelatedGroups(e, g, edgeGroups)) <==>
            exists eg :: eg in edgeGroups && eg.id in s.edgeGroups && AsksFor(eg, e.id, AllTags(e, g))
  {
    hide Related, AllTags, AsksFor, ReachingStacks;
    var related := RelatedGroups(e, g, edgeGroups);
    ReachingStacksIff(stacks, related, s);
    if Reaches(s, related) {
      var i :| 0 <= i < |s.edgeGroups| && s.edgeGroups[i] in related;
      var k :| 0 <= k < |edgeGroups| && Related(edgeGroups[k], e, g) && edgeGroups[k].id == s.edgeGroups[i];
      AsksForIff(edgeGroups[k], e, g);
      assert edgeGroups[k] in edgeGroups && edgeGroups[k].id in s.edgeGroups;
    }
    if exists eg :: eg in edgeGroups && eg.id in s.edgeGroups && AsksFor(eg, e.id, AllTags(e, g)) {
      var eg :| eg in edgeGroups && eg.id in s.edgeGroups && AsksFor(eg, e.id, AllTags(e, g));
      var i :| 0 <= i < |s.edgeGroups| && s.edgeGroups[i] == eg.id;
      var k :| 0 <= k < |edgeGroups| && edgeGroups[k] == eg;
      AsksForIff(eg, e, g);
      assert Related(edgeGroups[k], e, g) && edgeGroups[k].id == s.edgeGroups[i];
      assert s.edgeGroups[i] in related;
    }
  }

  lemma OneGroup(edgeGroups: seq<EdgeGroup>, eg: EdgeGroup)
    requires UniqueEdgeGroups(edgeGroups) && eg in edgeGroups
    ensures EdgeGroupOf(eg.id, edgeGroups) == Some(eg)
  {
    hide EdgeGroupOf;
    EdgeGroupOfIs(eg.id, edgeGroups);
    var k :| 0 <= k < |edgeGroups| && edgeGroups[k] == eg;
    var found := EdgeGroupOf(eg.id, edgeGroups);
    assert edgeGroups[k].id == eg.id;
    var i :| 0 <= i < |edgeGroups| && edgeGroups[i] == found.value;
    assert i == k;
  }

  lemma GroupsFound(ids: seq<int>, edgeGroups: seq<EdgeGroup>)
    requires UniqueEdgeGroups(edgeGroups) && forall i | 0 <= i < |ids| :: HasGroup(edgeGroups, ids[i])
    ensures AllFound(ids, edgeGroups)
  {
    hide EdgeGroupOf, UniqueEdgeGroups;
    forall i | 0 <= i < |ids|
      ensures EdgeGroupOf(ids[i], edgeGroups).Some?
    {
      var eg :| eg in edgeGroups && eg.id == ids[i];
      OneGroup(edgeGroups, eg);
    }
  }

  /** A stack that refers to a group that does not exist is an error. */
  lemma {:induction false} MissingGroup(ids: seq<int>, endpoints: seq<Endpoint>, groups: seq<EndpointGroup>, edgeGroups: seq<EdgeGroup>, k: nat)
    requires k < |ids| && !HasGroup(edgeGroups, ids[k])
    ensures StackEndpoints(ids, endpoints, groups, edgeGroups).None?
  {
    var n := |ids| - 1;
    EdgeGroupOfIs(ids[k], edgeGroups);
    assert forall i | 0 <= i < |edgeGroups| :: edgeGroups[i] in edgeGroups;
    if k < n {
      MissingGroup(ids[..n], endpoints, groups, edgeGroups, k);
    }
  }

  // ---- Order and multiplicity

  /** The group of an endpoint is the first listed with its group id; without one its tags alone count. */
  lemma {:induction false} GroupOfIs(e: Endpoint, groups: seq<EndpointGroup>, k: nat)
    requires k <= |groups| && (forall j | 0 <= j < k :: groups[j].id != e.groupId) && (k < |groups| ==> groups[k].id == e.groupId)
    ensures GroupOf(e, groups) == if k < |groups| then groups[k] else EndpointGroup(0, None)
  {
    if k > 0 {
      GroupOfIs(e, groups[1..], k - 1);
    }
  }

  /** A dynamic group lists its endpoints once each, in their order. */
  lemma {:induction false} MatchingIsFilter(eg: EdgeGroup, endpoints: seq<Endpoint>, groups: seq<EndpointGroup>)
    requires eg.isDynamic
    ensures Matching(eg, endpoints, groups) ==
            Map((e: Endpoint) => e.id,
                Filter((e: Endpoint) => e.IsEdge() && Related(eg, e, GroupOf(e, groups)), endpoints))
  {
    var id, keep := (e: Endpoint) => e.id, (e: Endpoint) => e.IsEdge() && Related(eg, e, GroupOf(e, groups));
    if endpoints != [] {
      hide Related, GroupOf;
      var front, last := endpoints[..|endpoints| - 1], endpoints[|endpoints| - 1];
      MatchingIsFilter(eg, front, groups);
      if keep(last) {
        MapSnoc(id, Filter(keep, front), last);
      }
    }
  }

  /** The stacks of an endpoint are listed once each, in their order. */
  lemma {:induction false} ReachingIsFilter(stacks: seq<EdgeStack>, related: set<int>)
    ensures ReachingStacks(stacks, related) ==
            Map((s: EdgeStack) => s.id, Filter((s: EdgeStack) => exists id :: id in s.edgeGroups && id in related, stacks))
  {
    var id, keep := (s: EdgeStack) => s.id, (s: EdgeStack) => exists id :: id in s.edgeGroups && id in related;
    if stacks != [] {
      var front, last := stacks[..|stacks| - 1], stacks[|stacks| - 1];
      ReachingIsFilter(front, related);
      ReachesIff(last, related);
      if keep(last) {
        MapSnoc(id, Filter(keep, front), last);
      }
    }
  }

  lemma ReachesIff(s: EdgeStack, related: set<int>)
    ensures Reaches(s, related) <==> exists id :: id in s.edgeGroups && id in related
  {
    if exists id :: id in s.edgeGroups && id in related {
      var id :| id in s.edgeGroups && id in related;
      var i :| 0 <= i < |s.edgeGroups| && s.edgeGroups[i] == id;
      assert s.edgeGroups[i] in related;
    }
  }

  /** A stack lists the endpoints of its groups group by group. */
  lemma {:induction false} StackEndpointsInTurn(ids: seq<int>, endpoints: seq<Endpoint>, groups: seq<EndpointGroup>, edgeGroups: seq<EdgeGroup>)
    requires AllFound(ids, edgeGroups)
    ensures StackEndpoints(ids, endpoints, groups, edgeGroups) ==
            Some(Flatten(seq(|ids|, i requires 0 <= i < |ids| => GroupEndpoints(EdgeGroupOf(ids[i], edgeGroups).value, endpoints, groups))))
  {
    if ids != [] {
      hide GroupEndpoints, EdgeGroupOf;
      var n := |ids| - 1;
      StackEndpointsInTurn(ids[..n], endpoints, groups, edgeGroups);
      var parts := seq(|ids|, i requires 0 <= i < |ids| => GroupEndpoints(EdgeGroupOf(ids[i], edgeGroups).value, endpoints, groups));
      assert parts[..n] == seq(n, i requires 0 <= i < n => GroupEndpoints(EdgeGroupOf(ids[..n][i], edgeGroups).value, endpoints, groups));
    }
  }
}
