/** Which endpoints an edge stack reaches, and which edge stacks reach an endpoint
    (api/internal/edge). */
module EdgeRelations {
  import opened Wrappers
  import opened Seqs
  import opened TagSets

  datatype EndpointType =
    | Docker | AgentOnDocker | Azure | EdgeAgentOnDocker
    | KubernetesLocal | AgentOnKubernetes | EdgeAgentOnKubernetes

  datatype Endpoint = Endpoint(id: int, kind: EndpointType, groupId: int, tagIds: seq<int>)
  {
    predicate IsEdge() {
      kind == EdgeAgentOnDocker || kind == EdgeAgentOnKubernetes
    }
  }

  /** None is a nil slice of tags. */
  datatype EndpointGroup = EndpointGroup(id: int, tagIds: Option<seq<int>>)

  const ZERO_GROUP := EndpointGroup(0, None)

  datatype EdgeGroup = EdgeGroup(id: int, isDynamic: bool, tagIds: seq<int>, endpoints: seq<int>, partialMatch: bool)

  datatype EdgeStack = EdgeStack(id: int, edgeGroups: seq<int>)

  // ---- The relation

  predicate Tagged(e: Endpoint, g: EndpointGroup, tag: int) {
    tag in e.tagIds || (g.tagIds.Some? && tag in g.tagIds.value)
  }

  /** Static groups list their endpoints; dynamic ones ask for some or for all of their tags. */
  predicate Related(eg: EdgeGroup, e: Endpoint, g: EndpointGroup) {
    if !eg.isDynamic then e.id in eg.endpoints
    else if eg.partialMatch then exists t | t in eg.tagIds :: Tagged(e, g, t)
    else forall t | t in eg.tagIds :: Tagged(e, g, t)
  }

  /** The tags of an endpoint and of its group. */
  ghost function AllTags(e: Endpoint, g: EndpointGroup): set<int> {
    (set t | t in e.tagIds) + if g.tagIds.Some? then (set t | t in g.tagIds.value) else {}
  }

  lemma TaggedIsTag(e: Endpoint, g: EndpointGroup, t: int)
    ensures Tagged(e, g, t) <==> t in AllTags(e, g)
  {
  }

  /** A static group has the endpoints it lists; a dynamic one shares a tag with the endpoint, or has
      none that the endpoint lacks. */
  lemma RelatedIff(eg: EdgeGroup, e: Endpoint, g: EndpointGroup)
    ensures !eg.isDynamic ==> (Related(eg, e, g) <==> e.id in eg.endpoints)
    ensures eg.isDynamic && eg.partialMatch ==> (Related(eg, e, g) <==> (set t | t in eg.tagIds) * AllTags(e, g) != {})
    ensures eg.isDynamic && !eg.partialMatch ==> (Related(eg, e, g) <==> (set t | t in eg.tagIds) <= AllTags(e, g))
  {
    hide Tagged, AllTags;
    var asked, tags := (set t | t in eg.tagIds), AllTags(e, g);
    if eg.isDynamic && eg.partialMatch {
      if Related(eg, e, g) {
        var t :| t in eg.tagIds && Tagged(e, g, t);
        TaggedIsTag(e, g, t);
        assert t in asked * tags;
      }
      if asked * tags != {} {
        var t := Choose(asked * tags);
        TaggedIsTag(e, g, t);
      }
    } else if eg.isDynamic {
      if Related(eg, e, g) {
        forall t | t in asked
          ensures t in tags
        {
          TaggedIsTag(e, g, t);
        }
        assert asked <= tags;
      }
      if asked <= tags {
        forall t | t in eg.tagIds
          ensures Tagged(e, g, t)
        {
          assert t in asked;
          TaggedIsTag(e, g, t);
        }
        assert Related(eg, e, g);
      }
    }
  }

  method EdgeGroupRelatedToEndpoint(eg: EdgeGroup, e: Endpoint, g: EndpointGroup) returns (r: bool)
    ensures r == Related(eg, e, g)
    ensures r <==> if !eg.isDynamic then e.id in eg.endpoints
                   else if eg.partialMatch then (set t | t in eg.tagIds) * AllTags(e, g) != {}
                   else (set t | t in eg.tagIds) <= AllTags(e, g)
  {
    RelatedIff(eg, e, g);
    hide AllTags;
    if !eg.isDynamic {
      for i := 0 to |eg.endpoints|
        invariant e.id !in eg.endpoints[..i]
      {
        assert eg.endpoints[..i + 1] == eg.endpoints[..i] + [eg.endpoints[i]];
        if e.id == eg.endpoints[i] {
          return true;
        }
      }
      assert eg.endpoints[..|eg.endpoints|] == eg.endpoints;
      return false;
    }
    var endpointTags := TagsOf(e, g);
    var edgeGroupTags := Set(eg.tagIds);
    if eg.partialMatch {
      var intersection := Intersection([endpointTags, edgeGroupTags]);
      IntersectionOfTwo(endpointTags, edgeGroupTags, intersection);
      CommonTag(intersection.Keys, eg.tagIds, endpointTags);
      return |intersection| != 0;
    }
    r := Contains(edgeGroupTags, endpointTags);
  }

  method TagsOf(e: Endpoint, g: EndpointGroup) returns (tags: TagSet)
    ensures forall t :: (t in tags <==> Tagged(e, g, t)) && (t in tags ==> tags[t])
  {
    tags := Set(e.tagIds);
    if g.tagIds.Some? {
      var groupTags := Set(g.tagIds.value);
      UnionOfTwo(tags, groupTags);
      tags := Union([tags, groupTags]);
    }
  }

  lemma UnionOfTwo(a: TagSet, b: TagSet)
    ensures UnionOf([a, b]).Keys == a.Keys + b.Keys
    ensures forall t :: t in UnionOf([a, b]) ==> UnionOf([a, b])[t]
  {
    assert [a, b][..1] == [a];
    assert [a][..0] == [];
    assert UnionOf([a]) == UnionOf([]) + Full(a.Keys);
  }

  lemma IntersectionOfTwo(a: TagSet, b: TagSet, r: TagSet)
    requires (forall t | t in a :: a[t]) && (forall t | t in b :: b[t])
    requires r == map t | t in [a, b][0] && (forall i | 0 <= i < |[a, b]| :: Has([a, b][i], t)) :: true
    ensures forall t :: t in r.Keys <==> t in a && t in b
  {
    forall t
      ensures t in r.Keys <==> t in a && t in b
    {
      if t in r {
        assert Has([a, b][1], t);
      }
    }
  }

  lemma CommonTag(common: set<int>, tagIds: seq<int>, tags: TagSet)
    requires forall t :: t in common <==> t in tags && t in tagIds
    ensures |common| != 0 <==> exists t | t in tagIds :: t in tags
  {
    if |common| != 0 {
      var t := Choose(common);
    }
  }

  // ---- From edge groups to endpoints

  function GroupOf(e: Endpoint, groups: seq<EndpointGroup>): EndpointGroup {
    if groups == [] then ZERO_GROUP
    else if groups[0].id == e.groupId then groups[0]
    else GroupOf(e, groups[1..])
  }

  function Matching(eg: EdgeGroup, endpoints: seq<Endpoint>, groups: seq<EndpointGroup>): seq<int> {
    if endpoints == [] then []
    else
      var last := endpoints[|endpoints| - 1];
      Matching(eg, endpoints[..|endpoints| - 1], groups)
      + if last.IsEdge() && Related(eg, last, GroupOf(last, groups)) then [last.id] else []
  }

  function GroupEndpoints(eg: EdgeGroup, endpoints: seq<Endpoint>, groups: seq<EndpointGroup>): seq<int> {
    if !eg.isDynamic then eg.endpoints else Matching(eg, endpoints, groups)
  }

  method FindGroup(e: Endpoint, groups: seq<EndpointGroup>) returns (g: EndpointGroup)
    ensures g == GroupOf(e, groups)
  {
    g := ZERO_GROUP;
    for i := 0 to |groups|
      invariant g == ZERO_GROUP && GroupOf(e, groups) == GroupOf(e, groups[i..])
    {
      if e.groupId == groups[i].id {
        return groups[i];
      }
      assert groups[i..][1..] == groups[i + 1..];
    }
  }

  method EdgeGroupRelatedEndpoints(eg: EdgeGroup, endpoints: seq<Endpoint>, groups: seq<EndpointGroup>) returns (ids: seq<int>)
    ensures ids == GroupEndpoints(eg, endpoints, groups)
  {
    if !eg.isDynamic {
      return eg.endpoints;
    }
    ids := [];
    for i := 0 to |endpoints|
      invariant ids == Matching(eg, endpoints[..i], groups)
    {
      assert endpoints[..i + 1][..i] == endpoints[..i];
      var e := endpoints[i];
      if e.kind != EdgeAgentOnDocker && e.kind != EdgeAgentOnKubernetes {
        continue;
      }
      var g := FindGroup(e, groups);
      var related := EdgeGroupRelatedToEndpoint(eg, e, g);
      if related {
        ids := ids + [e.id];
      }
    }
    assert endpoints[..|endpoints|] == endpoints;
  }

  // ---- From edge stacks to endpoints

  function EdgeGroupOf(id: int, edgeGroups: seq<EdgeGroup>): Option<EdgeGroup> {
    if edgeGroups == [] then None
    else if edgeGroups[0].id == id then Some(edgeGroups[0])
    else EdgeGroupOf(id, edgeGroups[1..])
  }

  /** None is the error that an edge group was not found. */
  function StackEndpoints(edgeGroupIds: seq<int>, endpoints: seq<Endpoint>, groups: seq<EndpointGroup>, edgeGroups: seq<EdgeGroup>): Option<seq<int>> {
    if edgeGroupIds == [] then Some([])
    else
      var before := StackEndpoints(edgeGroupIds[..|edgeGroupIds| - 1], endpoints, groups, edgeGroups);
      var eg := EdgeGroupOf(edgeGroupIds[|edgeGroupIds| - 1], edgeGroups);
      if before.None? || eg.None? then None else Some(before.value + GroupEndpoints(eg.value, endpoints, groups))
  }

  method FindEdgeGroup(id: int, edgeGroups: seq<EdgeGroup>) returns (eg: Option<EdgeGroup>)
    ensures eg == EdgeGroupOf(id, edgeGroups)
  {
    for i := 0 to |edgeGroups|
      invariant EdgeGroupOf(id, edgeGroups) == EdgeGroupOf(id, edgeGroups[i..])
    {
      if edgeGroups[i].id == id {
        return Some(edgeGroups[i]);
      }
      assert edgeGroups[i..][1..] == edgeGroups[i + 1..];
    }
    return None;
  }

  method EdgeStackRelatedEndpoints(edgeGroupIds: seq<int>, endpoints: seq<Endpoint>, groups: seq<EndpointGroup>, edgeGroups: seq<EdgeGroup>)
    returns (r: Option<seq<int>>)
    ensures r == StackEndpoints(edgeGroupIds, endpoints, groups, edgeGroups)
  {
    var ids: seq<int> := [];
    for i := 0 to |edgeGroupIds|
      invariant StackEndpoints(edgeGroupIds[..i], endpoints, groups, edgeGroups) == Some(ids)
    {
      assert edgeGroupIds[..i + 1][..i] == edgeGroupIds[..i];
      var eg := FindEdgeGroup(edgeGroupIds[i], edgeGroups);
      if eg.None? {
        MissingGroupFails(edgeGroupIds, i + 1, endpoints, groups, edgeGroups);
        return None;
      }
      var related := EdgeGroupRelatedEndpoints(eg.value, endpoints, groups);
      ids := ids + related;
    }
    assert edgeGroupIds[..|edgeGroupIds|] == edgeGroupIds;
    return Some(ids);
  }

  lemma {:induction false} MissingGroupFails(edgeGroupIds: seq<int>, n: nat, endpoints: seq<Endpoint>, groups: seq<EndpointGroup>, edgeGroups: seq<EdgeGroup>)
    requires n <= |edgeGroupIds| && StackEndpoints(edgeGroupIds[..n], endpoints, groups, edgeGroups).None?
    ensures StackEndpoints(edgeGroupIds, endpoints, groups, edgeGroups).None?
  {
    if n < |edgeGroupIds| {
      var front := edgeGroupIds[..|edgeGroupIds| - 1];
      assert front[..n] == edgeGroupIds[..n];
      MissingGroupFails(front, n, endpoints, groups, edgeGroups);
    } else {
      assert edgeGroupIds[..n] == edgeGroupIds;
    }
  }

  // ---- From endpoints to edge stacks

  function RelatedGroups(e: Endpoint, g: EndpointGroup, edgeGroups: seq<EdgeGroup>): set<int> {
    set i | 0 <= i < |edgeGroups| && Related(edgeGroups[i], e, g) :: edgeGroups[i].id
  }

  predicate Reaches(s: EdgeStack, related: set<int>) {
    exists i | 0 <= i < |s.edgeGroups| :: s.edgeGroups[i] in related
  }

  function ReachingStacks(stacks: seq<EdgeStack>, related: set<int>): seq<int> {
    if stacks == [] then []
    else
      var last := stacks[|stacks| - 1];
      ReachingStacks(stacks[..|stacks| - 1], related) + if Reaches(last, related) then [last.id] else []
  }

  method EndpointRelatedEdgeStacks(e: Endpoint, g: EndpointGroup, edgeGroups: seq<EdgeGroup>, stacks: seq<EdgeStack>)
    returns (ids: seq<int>)
    ensures ids == ReachingStacks(stacks, RelatedGroups(e, g, edgeGroups))
  {
    var related: set<int> := {};
    for i := 0 to |edgeGroups|
      invariant related == RelatedGroups(e, g, edgeGroups[..i])
    {
      RelatedGroupsSnoc(e, g, edgeGroups, i);
      var r := EdgeGroupRelatedToEndpoint(edgeGroups[i], e, g);
      if r {
        related := related + {edgeGroups[i].id};
      }
    }
    assert edgeGroups[..|edgeGroups|] == edgeGroups;
    ids := [];
    for n := 0 to |stacks|
      invariant ids == ReachingStacks(stacks[..n], related)
    {
      assert stacks[..n + 1][..n] == stacks[..n];
      var s := stacks[n];
      for i := 0 to |s.edgeGroups|
        invariant ids == ReachingStacks(stacks[..n], related)
        invariant forall j | 0 <= j < i :: s.edgeGroups[j] !in related
      {
        if s.edgeGroups[i] in related {
          ids := ids + [s.id];
          break;
        }
      }
    }
    assert stacks[..|stacks|] == stacks;
  }

  lemma RelatedGroupsSnoc(e: Endpoint, g: EndpointGroup, edgeGroups: seq<EdgeGroup>, i: nat)
    requires i < |edgeGroups|
    ensures RelatedGroups(e, g, edgeGroups[..i + 1]) ==
            RelatedGroups(e, g, edgeGroups[..i]) + if Related(edgeGroups[i], e, g) then {edgeGroups[i].id} else {}
  {
    hide Related;
    var a, b := edgeGroups[..i + 1], edgeGroups[..i];
    forall id | id in RelatedGroups(e, g, a)
      ensures id in RelatedGroups(e, g, b) + if Related(edgeGroups[i], e, g) then {edgeGroups[i].id} else {}
    {
      var k :| 0 <= k < |a| && Related(a[k], e, g) && a[k].id == id;
      if k < i {
        assert b[k] == a[k];
      }
    }
    forall id | id in RelatedGroups(e, g, b)
      ensures id in RelatedGroups(e, g, a)
    {
      var k :| 0 <= k < |b| && Related(b[k], e, g) && b[k].id == id;
      assert a[k] == b[k];
    }
    assert a[i] == edgeGroups[i];
  }
}
