/** The precomputed table of a user's authorizations per endpoint
    (api/internal/authorization/authorizations.go). */
module AuthorizationTable {
  import opened EndpointAccess

  type Authorizations = map<string, bool>

  datatype Role = Role(id: int, priority: int, authorizations: Authorizations)

  type Table = map<int, Authorizations>

  // ---- Roles

  function RoleOf(id: int, roles: seq<Role>): seq<Role> {
    if roles == [] then []
    else if roles[0].id == id then [roles[0]]
    else RoleOf(id, roles[1..])
  }

  /** The first role found for each id, in order. */
  function AssociatedRoles(ids: seq<int>, roles: seq<Role>): seq<Role> {
    if ids == [] then []
    else AssociatedRoles(ids[..|ids| - 1], roles) + RoleOf(ids[|ids| - 1], roles)
  }

  datatype Best = Best(priority: int, authorizations: Authorizations)

  function BestOf(roles: seq<Role>): Best {
    if roles == [] then Best(0, map[])
    else
      var before, last := BestOf(roles[..|roles| - 1]), roles[|roles| - 1];
      if last.priority > before.priority then Best(last.priority, last.authorizations) else before
  }

  function FromRoles(ids: seq<int>, roles: seq<Role>): Authorizations {
    BestOf(AssociatedRoles(ids, roles)).authorizations
  }

  method FindRole(id: int, roles: seq<Role>, found: seq<Role>) returns (r: seq<Role>)
    ensures r == found + RoleOf(id, roles)
  {
    for i := 0 to |roles|
      invariant RoleOf(id, roles) == RoleOf(id, roles[i..])
    {
      if roles[i].id == id {
        return found + [roles[i]];
      }
      assert roles[i..][1..] == roles[i + 1..];
    }
    return found;
  }

  method GetAuthorizationsFromRoles(ids: seq<int>, roles: seq<Role>) returns (authorizations: Authorizations)
    ensures authorizations == FromRoles(ids, roles)
  {
    var associatedRoles: seq<Role> := [];
    for i := 0 to |ids|
      invariant associatedRoles == AssociatedRoles(ids[..i], roles)
    {
      assert ids[..i + 1][..i] == ids[..i];
      associatedRoles := FindRole(ids[i], roles, associatedRoles);
    }
    assert ids[..|ids|] == ids;
    authorizations := map[];
    var highestPriority := 0;
    for i := 0 to |associatedRoles|
      invariant Best(highestPriority, authorizations) == BestOf(associatedRoles[..i])
    {
      assert associatedRoles[..i + 1][..i] == associatedRoles[..i];
      if associatedRoles[i].priority > highestPriority {
        highestPriority := associatedRoles[i].priority;
        authorizations := associatedRoles[i].authorizations;
      }
    }
    assert associatedRoles[..|associatedRoles|] == associatedRoles;
  }

  // ---- The four levels

  function Own(id: int, policies: Policies): seq<int> {
    if id in policies then [policies[id]] else []
  }

  function OfTeams(memberships: seq<Membership>, policies: Policies): seq<int> {
    if memberships == [] then []
    else OfTeams(memberships[..|memberships| - 1], policies) + Own(memberships[|memberships| - 1].teamId, policies)
  }

  function PoliciesOf(groupId: int, byGroup: map<int, Policies>): Policies {
    if groupId in byGroup then byGroup[groupId] else map[]
  }

  /** The role ids that apply, from the most to the least specific level. */
  function Levels(userId: int, e: Endpoint, groupUsers: map<int, Policies>, groupTeams: map<int, Policies>,
      memberships: seq<Membership>): seq<seq<int>>
  {
    [ Own(userId, e.users),
      Own(userId, PoliciesOf(e.groupId, groupUsers)),
      OfTeams(memberships, e.teams),
      OfTeams(memberships, PoliciesOf(e.groupId, groupTeams)) ]
  }

  /** The authorizations of the first level that has any. */
  function FirstLevel(levels: seq<seq<int>>, roles: seq<Role>): Authorizations {
    if levels == [] then map[]
    else
      var a := FromRoles(levels[0], roles);
      if a != map[] then a else FirstLevel(levels[1..], roles)
  }

  function ByGroup(groups: seq<Group>, users: bool): map<int, Policies> {
    if groups == [] then map[]
    else
      var last := groups[|groups| - 1];
      ByGroup(groups[..|groups| - 1], users)[last.id := if users then last.users else last.teams]
  }

  function Entry(userId: int, e: Endpoint, groups: seq<Group>, roles: seq<Role>, memberships: seq<Membership>): Authorizations {
    FirstLevel(Levels(userId, e, ByGroup(groups, true), ByGroup(groups, false), memberships), roles)
  }

  function TableOf(userId: int, endpoints: seq<Endpoint>, groups: seq<Group>, roles: seq<Role>, memberships: seq<Membership>): Table {
    if endpoints == [] then map[]
    else
      var before, last := TableOf(userId, endpoints[..|endpoints| - 1], groups, roles, memberships), endpoints[|endpoints| - 1];
      var entry := Entry(userId, last, groups, roles, memberships);
      if entry != map[] then before[last.id := entry] else before
  }

  method FromUserPolicy(userId: int, policies: Policies, roles: seq<Role>) returns (authorizations: Authorizations)
    ensures authorizations == FromRoles(Own(userId, policies), roles)
  {
    var policyRoles: seq<int> := [];
    if userId in policies {
      policyRoles := policyRoles + [policies[userId]];
    }
    authorizations := GetAuthorizationsFromRoles(policyRoles, roles);
  }

  method FromTeamPolicies(memberships: seq<Membership>, policies: Policies, roles: seq<Role>) returns (authorizations: Authorizations)
    ensures authorizations == FromRoles(OfTeams(memberships, policies), roles)
  {
    var policyRoles: seq<int> := [];
    for i := 0 to |memberships|
      invariant policyRoles == OfTeams(memberships[..i], policies)
    {
      assert memberships[..i + 1][..i] == memberships[..i];
      if memberships[i].teamId in policies {
        policyRoles := policyRoles + [policies[memberships[i].teamId]];
      }
    }
    assert memberships[..|memberships|] == memberships;
    authorizations := GetAuthorizationsFromRoles(policyRoles, roles);
  }

  method GetUserEndpointAuthorizations(userId: int, endpoints: seq<Endpoint>, groups: seq<Group>, roles: seq<Role>,
      memberships: seq<Membership>)
    returns (table: Table)
    ensures table == TableOf(userId, endpoints, groups, roles, memberships)
  {
    hide FromRoles, OfTeams, Own, PoliciesOf;
    table := map[];
    var groupUsers: map<int, Policies> := map[];
    var groupTeams: map<int, Policies> := map[];
    for i := 0 to |groups|
      invariant groupUsers == ByGroup(groups[..i], true) && groupTeams == ByGroup(groups[..i], false)
    {
      assert groups[..i + 1][..i] == groups[..i];
      groupUsers := groupUsers[groups[i].id := groups[i].users];
      groupTeams := groupTeams[groups[i].id := groups[i].teams];
    }
    assert groups[..|groups|] == groups;
    for i := 0 to |endpoints|
      invariant table == TableOf(userId, endpoints[..i], groups, roles, memberships)
    {
      var e := endpoints[i];
      assert endpoints[..i + 1][..i] == endpoints[..i];
      LevelsInTurn(userId, e, groupUsers, groupTeams, roles, memberships);
      var authorizations := FromUserPolicy(userId, e.users, roles);
      if |authorizations| > 0 {
        table := table[e.id := authorizations];
        continue;
      }
      authorizations := FromUserPolicy(userId, PoliciesOf(e.groupId, groupUsers), roles);
      if |authorizations| > 0 {
        table := table[e.id := authorizations];
        continue;
      }
      authorizations := FromTeamPolicies(memberships, e.teams, roles);
      if |authorizations| > 0 {
        table := table[e.id := authorizations];
        continue;
      }
      authorizations := FromTeamPolicies(memberships, PoliciesOf(e.groupId, groupTeams), roles);
      if |authorizations| > 0 {
        table := table[e.id := authorizations];
      }
    }
    assert endpoints[..|endpoints|] == endpoints;
  }

  lemma LevelsInTurn(userId: int, e: Endpoint, groupUsers: map<int, Policies>, groupTeams: map<int, Policies>,
      roles: seq<Role>, memberships: seq<Membership>)
    ensures var a := FromRoles(Own(userId, e.users), roles);
            var b := FromRoles(Own(userId, PoliciesOf(e.groupId, groupUsers)), roles);
            var c := FromRoles(OfTeams(memberships, e.teams), roles);
            var d := FromRoles(OfTeams(memberships, PoliciesOf(e.groupId, groupTeams)), roles);
            FirstLevel(Levels(userId, e, groupUsers, groupTeams, memberships), roles) ==
            if a != map[] then a else if b != map[] then b else if c != map[] then c else d
  {
    FirstOfFour(Own(userId, e.users), Own(userId, PoliciesOf(e.groupId, groupUsers)), OfTeams(memberships, e.teams),
                OfTeams(memberships, PoliciesOf(e.groupId, groupTeams)), roles);
  }

  lemma FirstOfFour(a: seq<int>, b: seq<int>, c: seq<int>, d: seq<int>, roles: seq<Role>)
    ensures FirstLevel([a, b, c, d], roles) ==
            if FromRoles(a, roles) != map[] then FromRoles(a, roles)
            else if FromRoles(b, roles) != map[] then FromRoles(b, roles)
            else if FromRoles(c, roles) != map[] then FromRoles(c, roles)
            else FromRoles(d, roles)
  {
    hide FromRoles;
    assert [a, b, c, d][1..] == [b, c, d] && [b, c, d][1..] == [c, d] && [c, d][1..] == [d] && [d][1..] == [];
    assert FirstLevel([b, c, d], roles) == if FromRoles(b, roles) != map[] then FromRoles(b, roles) else FirstLevel([c, d], roles);
    assert FirstLevel([c, d], roles) == if FromRoles(c, roles) != map[] then FromRoles(c, roles) else FirstLevel([d], roles);
  }
}
