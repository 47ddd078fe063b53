/** The check made on every request: who may use an endpoint (api/http/security). */
module EndpointAccess {
  import opened Wrappers
  import opened Seqs

  /** Access policies: the role id by user or by team. */
  type Policies = map<int, int>

  datatype Group = Group(id: int, users: Policies, teams: Policies)

  datatype Endpoint = Endpoint(id: int, groupId: int, users: Policies, teams: Policies)

  datatype Membership = Membership(teamId: int)

  datatype Context = Context(isAdmin: bool, userId: int, memberships: seq<Membership>)

  predicate AuthorizedAccess(userId: int, memberships: seq<Membership>, users: Policies, teams: Policies) {
    userId in users || exists i | 0 <= i < |memberships| :: memberships[i].teamId in teams
  }

  predicate AuthorizedEndpointAccess(endpoint: Endpoint, group: Group, userId: int, memberships: seq<Membership>) {
    if !AuthorizedAccess(userId, memberships, group.users, group.teams)
    then AuthorizedAccess(userId, memberships, endpoint.users, endpoint.teams)
    else true
  }

  /** The first group with the given id. */
  function FindGroup(id: int, groups: seq<Group>): Option<Group> {
    if groups == [] then None
    else if groups[0].id == id then Some(groups[0])
    else FindGroup(id, groups[1..])
  }

  ghost predicate GroupsPresent(endpoints: seq<Endpoint>, groups: seq<Group>) {
    forall i | 0 <= i < |endpoints| :: FindGroup(endpoints[i].groupId, groups).Some?
  }

  function Kept(endpoints: seq<Endpoint>, groups: seq<Group>, userId: int, memberships: seq<Membership>): seq<Endpoint>
    requires GroupsPresent(endpoints, groups)
  {
    if endpoints == [] then []
    else
      var last := endpoints[|endpoints| - 1];
      Kept(endpoints[..|endpoints| - 1], groups, userId, memberships)
      + if AuthorizedEndpointAccess(last, FindGroup(last.groupId, groups).value, userId, memberships) then [last] else []
  }

  method GetAssociatedGroup(endpoint: Endpoint, groups: seq<Group>) returns (r: Option<Group>)
    ensures r == FindGroup(endpoint.groupId, groups)
  {
    for i := 0 to |groups|
      invariant FindGroup(endpoint.groupId, groups) == FindGroup(endpoint.groupId, groups[i..])
    {
      if groups[i].id == endpoint.groupId {
        return Some(groups[i]);
      }
      assert groups[i..][1..] == groups[i + 1..];
    }
    return None;
  }

  /** A missing group is a nil dereference in the original, for anyone but administrators. */
  method FilterEndpoints(endpoints: seq<Endpoint>, groups: seq<Group>, context: Context) returns (filtered: seq<Endpoint>)
    requires !context.isAdmin ==> GroupsPresent(endpoints, groups)
    ensures filtered ==
            if context.isAdmin then endpoints else Kept(endpoints, groups, context.userId, context.memberships)
  {
    filtered := endpoints;
    if !context.isAdmin {
      filtered := [];
      for i := 0 to |endpoints|
        invariant filtered == Kept(endpoints[..i], groups, context.userId, context.memberships)
      {
        assert endpoints[..i + 1][..i] == endpoints[..i];
        var group := GetAssociatedGroup(endpoints[i], groups);
        if AuthorizedEndpointAccess(endpoints[i], group.value, context.userId, context.memberships) {
          filtered := filtered + [endpoints[i]];
        }
      }
      assert endpoints[..|endpoints|] == endpoints;
    }
  }

  lemma {:induction false} FindGroupIs(id: int, groups: seq<Group>)
    ensures match FindGroup(id, groups)
            case Some(g) => g in groups && g.id == id
            case None => forall i | 0 <= i < |groups| :: groups[i].id != id
  {
    if groups != [] {
      FindGroupIs(id, groups[1..]);
    }
  }

  /** The filter keeps exactly the endpoints the user may use, in order. */
  lemma {:induction false} KeptIff(endpoints: seq<Endpoint>, groups: seq<Group>, userId: int, memberships: seq<Membership>, e: Endpoint)
    requires GroupsPresent(endpoints, groups)
    ensures e in Kept(endpoints, groups, userId, memberships) <==>
            e in endpoints && FindGroup(e.groupId, groups).Some?
            && AuthorizedEndpointAccess(e, FindGroup(e.groupId, groups).value, userId, memberships)
  {
    if endpoints != [] {
      hide AuthorizedEndpointAccess, FindGroup;
      KeptIff(endpoints[..|endpoints| - 1], groups, userId, memberships, e);
      assert endpoints == endpoints[..|endpoints| - 1] + [endpoints[|endpoints| - 1]];
    }
  }

  /** The user, or one of the user's teams, has an entry in the policies of the endpoint or of its group. */
  predicate MayUse(e: Endpoint, g: Group, userId: int, memberships: seq<Membership>) {
    || userId in e.users || userId in g.users
    || exists m | m in memberships :: m.teamId in e.teams || m.teamId in g.teams
  }

  lemma TeamEntry(memberships: seq<Membership>, teams: Policies)
    ensures (exists i | 0 <= i < |memberships| :: memberships[i].teamId in teams) <==> exists m | m in memberships :: m.teamId in teams
  {
    if exists m | m in memberships :: m.teamId in teams {
      var m :| m in memberships && m.teamId in teams;
      var i :| 0 <= i < |memberships| && memberships[i] == m;
      assert memberships[i].teamId in teams;
    }
  }

  lemma AuthorizedIff(e: Endpoint, g: Group, userId: int, memberships: seq<Membership>)
    ensures AuthorizedEndpointAccess(e, g, userId, memberships) <==> MayUse(e, g, userId, memberships)
  {
    TeamEntry(memberships, e.teams);
    TeamEntry(memberships, g.teams);
  }

  /** The group of an endpoint is the first listed with its id. */
  lemma {:induction false} FindGroupFirst(id: int, groups: seq<Group>, k: nat)
    requires k <= |groups| && (forall j | 0 <= j < k :: groups[j].id != id) && (k < |groups| ==> groups[k].id == id)
    ensures FindGroup(id, groups) == if k < |groups| then Some(groups[k]) else None
  {
    if k > 0 {
      FindGroupFirst(id, groups[1..], k - 1);
    }
  }

  /** The filter selects the endpoints the user may use: each as often as it is listed, in order. */
  lemma {:induction false} KeptIsFilter(endpoints: seq<Endpoint>, groups: seq<Group>, userId: int, memberships: seq<Membership>)
    requires GroupsPresent(endpoints, groups)
    ensures Kept(endpoints, groups, userId, memberships) ==
            Filter((e: Endpoint) => FindGroup(e.groupId, groups).Some? && MayUse(e, FindGroup(e.groupId, groups).value, userId, memberships),
                   endpoints)
  {
    if endpoints != [] {
      hide AuthorizedEndpointAccess, MayUse, FindGroup;
      var last := endpoints[|endpoints| - 1];
      KeptIsFilter(endpoints[..|endpoints| - 1], groups, userId, memberships);
      AuthorizedIff(last, FindGroup(last.groupId, groups).value, userId, memberships);
    }
  }
}
