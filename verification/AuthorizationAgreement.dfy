/** When the precomputed table and the check made on every request agree. */
module AuthorizationAgreement {
  import opened Seqs
  import opened EndpointAccess
  import opened AuthorizationTable

  // ---- Which role wins

  /** The winning role has the highest positive priority, and comes first among its equals. */
  lemma {:induction false} BestIsHighest(roles: seq<Role>)
    ensures BestOf(roles).priority >= 0
    ensures forall i | 0 <= i < |roles| :: roles[i].priority <= BestOf(roles).priority
    ensures if BestOf(roles).priority == 0 then BestOf(roles).authorizations == map[]
            else exists i | 0 <= i < |roles| ::
              && roles[i].priority == BestOf(roles).priority
              && roles[i].authorizations == BestOf(roles).authorizations
              && forall j | 0 <= j < i :: roles[j].priority < roles[i].priority
  {
    if roles != [] {
      var n := |roles| - 1;
      BestIsHighest(roles[..n]);
      if roles[n].priority > BestOf(roles[..n]).priority {
        assert roles[n].priority == BestOf(roles).priority;
      } else if BestOf(roles).priority > 0 {
        var i :| 0 <= i < n && roles[..n][i].priority == BestOf(roles).priority
                 && roles[..n][i].authorizations == BestOf(roles).authorizations
                 && forall j | 0 <= j < i :: roles[..n][j].priority < roles[..n][i].priority;
        assert roles[i].priority == BestOf(roles).priority;
        assert forall j | 0 <= j < i :: roles[j].priority < roles[i].priority by {
          assert forall j | 0 <= j < i :: roles[j] == roles[..n][j];
        }
      }
    }
  }

  /** The role exists, and being assigned it means something. */
  predicate Serves(id: int, roles: seq<Role>) {
    var r := RoleOf(id, roles);
    r != [] && r[0].priority > 0 && r[0].authorizations != map[]
  }

  lemma {:induction false} AllServe(ids: seq<int>, roles: seq<Role>)
    requires forall i | 0 <= i < |ids| :: Serves(ids[i], roles)
    ensures |AssociatedRoles(ids, roles)| == |ids|
    ensures forall i | 0 <= i < |ids| ::
              AssociatedRoles(ids, roles)[i].priority > 0 && AssociatedRoles(ids, roles)[i].authorizations != map[]
  {
    if ids != [] {
      var n := |ids| - 1;
      AllServe(ids[..n], roles);
      assert Serves(ids[n], roles);
      RoleOfIsOne(ids[n], roles);
    }
  }

  lemma {:induction false} RoleOfIsOne(id: int, roles: seq<Role>)
    ensures |RoleOf(id, roles)| <= 1
  {
    if roles != [] {
      RoleOfIsOne(id, roles[1..]);
    }
  }

  /** Roles that all serve give authorizations iff there are any; no roles give none. */
  lemma ServedLevel(ids: seq<int>, roles: seq<Role>)
    requires forall i | 0 <= i < |ids| :: Serves(ids[i], roles)
    ensures FromRoles(ids, roles) != map[] <==> ids != []
  {
    hide RoleOf, BestOf, AssociatedRoles, Serves;
    AllServe(ids, roles);
    var found := AssociatedRoles(ids, roles);
    BestIsHighest(found);
    if ids == [] {
      assert found == [];
    } else {
      assert found[0].priority > 0;
    }
  }

  lemma NoRoles(roles: seq<Role>)
    ensures FromRoles([], roles) == map[]
  {
  }

  lemma AssociatedOne(id: int, roles: seq<Role>)
    ensures AssociatedRoles([id], roles) == RoleOf(id, roles)
  {
    hide RoleOf;
    var ids := [id];
    assert ids[..|ids| - 1] == [];
    assert AssociatedRoles(ids[..|ids| - 1], roles) == [];
    assert AssociatedRoles(ids, roles) == [] + RoleOf(id, roles);
  }

  lemma BestOne(r: Role)
    ensures BestOf([r]) == if r.priority > 0 then Best(r.priority, r.authorizations) else Best(0, map[])
  {
    assert [r][..|[r]| - 1] == [];
  }

  /** A single role gives authorizations iff it serves. */
  lemma SingleRole(id: int, roles: seq<Role>)
    ensures FromRoles([id], roles) != map[] <==> Serves(id, roles)
  {
    hide RoleOf, AssociatedRoles, BestOf;
    AssociatedOne(id, roles);
    RoleOfIsOne(id, roles);
    var found := RoleOf(id, roles);
    if found == [] {
      BestIsHighest([]);
      NoRoles(roles);
      assert FromRoles([], roles) == BestOf(AssociatedRoles([], roles)).authorizations;
      NothingAssociated(roles);
    } else {
      assert found == [found[0]];
      BestOne(found[0]);
    }
  }

  lemma NothingAssociated(roles: seq<Role>)
    ensures AssociatedRoles([], roles) == []
  {
  }

  // ---- When a level grants anything

  /** A role that does not exist does not rank. */
  function Rank(id: int, roles: seq<Role>): int {
    var r := RoleOf(id, roles);
    if r == [] then 0 else r[0].priority
  }

  /** The i-th id ranks above all ids before it, and no id after it ranks higher. */
  predicate Leads(ids: seq<int>, roles: seq<Role>, i: nat)
    requires i < |ids|
  {
    && (forall j | 0 <= j < |ids| :: Rank(ids[j], roles) <= Rank(ids[i], roles))
    && (forall j | 0 <= j < i :: Rank(ids[j], roles) < Rank(ids[i], roles))
  }

  /** The first of the highest ranking ids names a role that serves. */
  predicate LevelGrants(ids: seq<int>, roles: seq<Role>) {
    exists i | 0 <= i < |ids| :: Leads(ids, roles, i) && Serves(ids[i], roles)
  }

  /** The best role of a level is the role of the id that leads, if that ranks at all. */
  ghost predicate BestFrom(b: Best, ids: seq<int>, roles: seq<Role>) {
    if b.priority == 0 then
      b.authorizations == map[] && forall j | 0 <= j < |ids| :: Rank(ids[j], roles) <= 0
    else
      b.priority > 0 && exists i | 0 <= i < |ids| ::
        Leads(ids, roles, i) && RoleOf(ids[i], roles) != []
        && RoleOf(ids[i], roles)[0].priority == b.priority
        && RoleOf(ids[i], roles)[0].authorizations == b.authorizations
  }

  lemma BestFromNext(b: Best, ids: seq<int>, id: int, roles: seq<Role>)
    requires BestFrom(b, ids, roles)
    ensures BestFrom(if Rank(id, roles) > b.priority then Best(Rank(id, roles), RoleOf(id, roles)[0].authorizations) else b,
                     ids + [id], roles)
  {
    hide RoleOf;
    var all, n := ids + [id], |ids|;
    assert all[n] == id && forall j | 0 <= j < n :: all[j] == ids[j];
    if b.priority > 0 {
      var i :| 0 <= i < n && Leads(ids, roles, i) && RoleOf(ids[i], roles) != []
               && RoleOf(ids[i], roles)[0].priority == b.priority
               && RoleOf(ids[i], roles)[0].authorizations == b.authorizations;
      if Rank(id, roles) > b.priority {
        LeadsLast(ids, id, roles, b.priority);
        assert Leads(all, roles, n);
      } else {
        LeadsStill(ids, id, roles, i);
        assert Leads(all, roles, i);
      }
    } else if Rank(id, roles) > 0 {
      LeadsLast(ids, id, roles, 0);
      assert Leads(all, roles, n);
    }
  }

  lemma LeadsLast(ids: seq<int>, id: int, roles: seq<Role>, bound: int)
    requires (forall j | 0 <= j < |ids| :: Rank(ids[j], roles) <= bound) && Rank(id, roles) > bound
    ensures Leads(ids + [id], roles, |ids|)
  {
    hide Rank;
  }

  lemma LeadsStill(ids: seq<int>, id: int, roles: seq<Role>, i: nat)
    requires i < |ids| && Leads(ids, roles, i) && Rank(id, roles) <= Rank(ids[i], roles)
    ensures Leads(ids + [id], roles, i)
  {
    hide Rank;
  }

  lemma BestOfNext(ids: seq<int>, roles: seq<Role>)
    requires ids != []
    ensures var b, id := BestOf(AssociatedRoles(ids[..|ids| - 1], roles)), ids[|ids| - 1];
            b.priority >= 0 &&
            BestOf(AssociatedRoles(ids, roles)) ==
            if Rank(id, roles) > b.priority then Best(Rank(id, roles), RoleOf(id, roles)[0].authorizations) else b
  {
    hide RoleOf;
    var before, r := AssociatedRoles(ids[..|ids| - 1], roles), RoleOf(ids[|ids| - 1], roles);
    RoleOfIsOne(ids[|ids| - 1], roles);
    BestIsHighest(before);
    if r == [] {
      assert before + r == before;
    } else {
      assert (before + r)[..|before|] == before;
    }
  }

  lemma {:induction false} BestIsFrom(ids: seq<int>, roles: seq<Role>)
    ensures BestFrom(BestOf(AssociatedRoles(ids, roles)), ids, roles)
  {
    hide RoleOf;
    if ids == [] {
      NothingAssociated(roles);
    } else {
      hide *;
      var n := |ids| - 1;
      BestIsFrom(ids[..n], roles);
      BestOfNext(ids, roles);
      BestFromNext(BestOf(AssociatedRoles(ids[..n], roles)), ids[..n], ids[n], roles);
      assert ids == ids[..n] + [ids[n]];
    }
  }

  /** A level yields authorizations exactly if its leading role serves. */
  lemma FromRolesIff(ids: seq<int>, roles: seq<Role>)
    ensures FromRoles(ids, roles) != map[] <==> LevelGrants(ids, roles)
  {
    hide RoleOf, BestOf, AssociatedRoles;
    var b := BestOf(AssociatedRoles(ids, roles));
    BestIsFrom(ids, roles);
    if b.priority > 0 {
      var i :| 0 <= i < |ids| && Leads(ids, roles, i) && RoleOf(ids[i], roles) != []
               && RoleOf(ids[i], roles)[0].priority == b.priority
               && RoleOf(ids[i], roles)[0].authorizations == b.authorizations;
      assert Serves(ids[i], roles) <==> b.authorizations != map[];
      if LevelGrants(ids, roles) {
        var k :| 0 <= k < |ids| && Leads(ids, roles, k) && Serves(ids[k], roles);
        OneLeads(ids, roles, i, k);
      }
    } else {
      forall k | 0 <= k < |ids|
        ensures !Serves(ids[k], roles)
      {
        assert Rank(ids[k], roles) <= 0;
      }
    }
  }

  lemma OneLeads(ids: seq<int>, roles: seq<Role>, i: nat, k: nat)
    requires i < |ids| && k < |ids| && Leads(ids, roles, i) && Leads(ids, roles, k)
    ensures i == k
  {
    assert Rank(ids[i], roles) == Rank(ids[k], roles);
  }

  // ---- Which levels apply

  ghost predicate Listed(roleId: int, policies: Policies) {
    exists t | t in policies :: policies[t] == roleId
  }

  lemma {:induction false} OfTeamsApplies(memberships: seq<Membership>, policies: Policies)
    ensures OfTeams(memberships, policies) != [] <==> exists i | 0 <= i < |memberships| :: memberships[i].teamId in policies
    ensures forall i | 0 <= i < |OfTeams(memberships, policies)| :: Listed(OfTeams(memberships, policies)[i], policies)
  {
    if memberships != [] {
      hide Listed;
      var n := |memberships| - 1;
      OfTeamsApplies(memberships[..n], policies);
      OwnIsListed(memberships[n].teamId, policies);
      if exists i | 0 <= i < n :: memberships[..n][i].teamId in policies {
        var i :| 0 <= i < n && memberships[..n][i].teamId in policies;
        assert memberships[i].teamId in policies;
      }
    }
  }

  lemma OwnIsListed(id: int, policies: Policies)
    ensures forall i | 0 <= i < |Own(id, policies)| :: Listed(Own(id, policies)[i], policies)
  {
  }

  lemma {:induction false} ByGroupFinds(groups: seq<Group>, g: Group)
    requires g in groups && forall i, j | 0 <= i < j < |groups| :: groups[i].id != groups[j].id
    ensures PoliciesOf(g.id, ByGroup(groups, true)) == g.users
    ensures PoliciesOf(g.id, ByGroup(groups, false)) == g.teams
  {
    var n := |groups| - 1;
    if groups[n] != g {
      assert g in groups[..n];
      ByGroupFinds(groups[..n], g);
      var i :| 0 <= i < n && groups[i] == g;
    }
  }

  predicate PoliciesServe(policies: Policies, roles: seq<Role>) {
    forall k | k in policies :: Serves(policies[k], roles)
  }

  lemma LevelServes(memberships: seq<Membership>, userId: int, users: Policies, teams: Policies, roles: seq<Role>)
    requires PoliciesServe(users, roles) && PoliciesServe(teams, roles)
    ensures FromRoles(Own(userId, users), roles) != map[] <==> userId in users
    ensures FromRoles(OfTeams(memberships, teams), roles) != map[] <==>
            exists i | 0 <= i < |memberships| :: memberships[i].teamId in teams
  {
    hide FromRoles, OfTeams, Serves;
    OfTeamsApplies(memberships, teams);
    ServedLevel(Own(userId, users), roles);
    ServedLevel(OfTeams(memberships, teams), roles);
  }

  /** One of the four levels grants the user something. */
  ghost predicate SomeLevelGrants(userId: int, e: Endpoint, g: Group, roles: seq<Role>, memberships: seq<Membership>) {
    || LevelGrants(Own(userId, e.users), roles)
    || LevelGrants(Own(userId, g.users), roles)
    || LevelGrants(OfTeams(memberships, e.teams), roles)
    || LevelGrants(OfTeams(memberships, g.teams), roles)
  }

  /** An endpoint has an entry exactly if one of its levels grants something. */
  lemma EntryIffGranted(userId: int, e: Endpoint, groups: seq<Group>, roles: seq<Role>, memberships: seq<Membership>, g: Group)
    requires g in groups && g.id == e.groupId && forall i, j | 0 <= i < j < |groups| :: groups[i].id != groups[j].id
    ensures Entry(userId, e, groups, roles, memberships) != map[] <==> SomeLevelGrants(userId, e, g, roles, memberships)
  {
    hide FromRoles, OfTeams, Own, ByGroup, PoliciesOf, FirstLevel, Levels, LevelGrants;
    ByGroupFinds(groups, g);
    LevelsInTurn(userId, e, ByGroup(groups, true), ByGroup(groups, false), roles, memberships);
    FromRolesIff(Own(userId, e.users), roles);
    FromRolesIff(Own(userId, g.users), roles);
    FromRolesIff(OfTeams(memberships, e.teams), roles);
    FromRolesIff(OfTeams(memberships, g.teams), roles);
  }

  /** Whatever the roles are, entry and check agree exactly if no user who is let in is left without a
      level that grants something. */
  lemma EntryAgreesIff(userId: int, e: Endpoint, groups: seq<Group>, roles: seq<Role>, memberships: seq<Membership>, g: Group)
    requires g in groups && g.id == e.groupId && forall i, j | 0 <= i < j < |groups| :: groups[i].id != groups[j].id
    ensures var authorized := AuthorizedEndpointAccess(e, g, userId, memberships);
            (Entry(userId, e, groups, roles, memberships) != map[] <==> authorized) <==>
            (authorized ==> SomeLevelGrants(userId, e, g, roles, memberships))
  {
    hide Entry, AuthorizedEndpointAccess, SomeLevelGrants;
    EntryIffGranted(userId, e, groups, roles, memberships, g);
    if Entry(userId, e, groups, roles, memberships) != map[] {
      EntryImpliesAuthorized(userId, e, groups, roles, memberships, g);
    }
  }

  /** If the roles of its policies all serve, an endpoint has an entry iff the user may use it. */
  lemma EntryIffAuthorized(userId: int, e: Endpoint, groups: seq<Group>, roles: seq<Role>, memberships: seq<Membership>, g: Group)
    requires g in groups && g.id == e.groupId && forall i, j | 0 <= i < j < |groups| :: groups[i].id != groups[j].id
    requires PoliciesServe(e.users, roles) && PoliciesServe(e.teams, roles)
    requires PoliciesServe(g.users, roles) && PoliciesServe(g.teams, roles)
    ensures Entry(userId, e, groups, roles, memberships) != map[] <==>
            AuthorizedEndpointAccess(e, g, userId, memberships)
  {
    hide FromRoles, OfTeams, Own, PoliciesServe, ByGroup, PoliciesOf, FirstLevel, Levels;
    ByGroupFinds(groups, g);
    LevelsInTurn(userId, e, ByGroup(groups, true), ByGroup(groups, false), roles, memberships);
    LevelServes(memberships, userId, e.users, e.teams, roles);
    LevelServes(memberships, userId, g.users, g.teams, roles);
  }

  /** Whatever the roles are, an entry is never given to a user the check turns away. */
  lemma EntryImpliesAuthorized(userId: int, e: Endpoint, groups: seq<Group>, roles: seq<Role>, memberships: seq<Membership>, g: Group)
    requires g in groups && g.id == e.groupId && forall i, j | 0 <= i < j < |groups| :: groups[i].id != groups[j].id
    requires Entry(userId, e, groups, roles, memberships) != map[]
    ensures AuthorizedEndpointAccess(e, g, userId, memberships)
  {
    hide FromRoles, ByGroup, PoliciesOf, FirstLevel, Levels;
    ByGroupFinds(groups, g);
    LevelsInTurn(userId, e, ByGroup(groups, true), ByGroup(groups, false), roles, memberships);
    OfTeamsApplies(memberships, e.teams);
    OfTeamsApplies(memberships, g.teams);
    NoRoles(roles);
  }

  /** A user whose only policy names the role is let in by the check, but has an entry iff the role
      serves: a policy with a role that does not exist is where table and check part. */
  lemma LonePolicy(userId: int, e: Endpoint, groups: seq<Group>, roles: seq<Role>, memberships: seq<Membership>, g: Group)
    requires g in groups && g.id == e.groupId && forall i, j | 0 <= i < j < |groups| :: groups[i].id != groups[j].id
    requires userId in e.users && e.teams == g.users == g.teams == map[]
    ensures AuthorizedEndpointAccess(e, g, userId, memberships)
    ensures Entry(userId, e, groups, roles, memberships) != map[] <==> Serves(e.users[userId], roles)
  {
    hide FromRoles, ByGroup, PoliciesOf, FirstLevel, Levels, Serves;
    ByGroupFinds(groups, g);
    LevelsInTurn(userId, e, ByGroup(groups, true), ByGroup(groups, false), roles, memberships);
    OfTeamsApplies(memberships, e.teams);
    OfTeamsApplies(memberships, g.teams);
    NoRoles(roles);
    SingleRole(e.users[userId], roles);
  }

  lemma RoleOfPair(a: Role, b: Role)
    requires a.id != b.id
    ensures RoleOf(a.id, [a, b]) == [a] && RoleOf(b.id, [a, b]) == [b]
  {
    var roles := [a, b];
    assert roles[0] == a && roles[1..] == [b];
    assert RoleOf(b.id, [b]) == [[b][0]];
  }

  /** Within a level, a leading role without authorizations masks one that would grant something. */
  lemma EmptyRoleMasks(low: Role, high: Role)
    requires low.id != high.id && 0 < low.priority < high.priority
    requires low.authorizations != map[] && high.authorizations == map[]
    ensures Serves(low.id, [low, high]) && FromRoles([high.id, low.id], [low, high]) == map[]
  {
    var ids, roles := [high.id, low.id], [low, high];
    RoleOfPair(low, high);
    FromRolesIff(ids, roles);
    assert Rank(ids[0], roles) == high.priority && Rank(ids[1], roles) == low.priority;
  }

  // ---- The table as a whole

  ghost predicate Entered(userId: int, endpoints: seq<Endpoint>, groups: seq<Group>, roles: seq<Role>,
      memberships: seq<Membership>, id: int)
  {
    exists i | 0 <= i < |endpoints| :: endpoints[i].id == id && Entry(userId, endpoints[i], groups, roles, memberships) != map[]
  }

  lemma EnteredSnoc(userId: int, endpoints: seq<Endpoint>, groups: seq<Group>, roles: seq<Role>,
      memberships: seq<Membership>, id: int)
    requires endpoints != []
    ensures var front, last := endpoints[..|endpoints| - 1], endpoints[|endpoints| - 1];
            Entered(userId, endpoints, groups, roles, memberships, id) <==>
            || Entered(userId, front, groups, roles, memberships, id)
            || (last.id == id && Entry(userId, last, groups, roles, memberships) != map[])
  {
    hide Entry;
    var front := endpoints[..|endpoints| - 1];
    if Entered(userId, front, groups, roles, memberships, id) {
      var i :| 0 <= i < |front| && front[i].id == id && Entry(userId, front[i], groups, roles, memberships) != map[];
      assert endpoints[i] == front[i];
    }
    if Entered(userId, endpoints, groups, roles, memberships, id) {
      var i :| 0 <= i < |endpoints| && endpoints[i].id == id && Entry(userId, endpoints[i], groups, roles, memberships) != map[];
      assert i < |front| ==> front[i] == endpoints[i];
    }
  }

  lemma {:induction false} TableHas(userId: int, endpoints: seq<Endpoint>, groups: seq<Group>, roles: seq<Role>,
      memberships: seq<Membership>, id: int)
    ensures id in TableOf(userId, endpoints, groups, roles, memberships) <==>
            Entered(userId, endpoints, groups, roles, memberships, id)
  {
    if endpoints != [] {
      hide Entry, Entered;
      TableHas(userId, endpoints[..|endpoints| - 1], groups, roles, memberships, id);
      EnteredSnoc(userId, endpoints, groups, roles, memberships, id);
    }
  }

  /** The filter keeps an endpoint with this id. */
  ghost predicate KeepsId(userId: int, endpoints: seq<Endpoint>, groups: seq<Group>, memberships: seq<Membership>, id: int)
    requires GroupsPresent(endpoints, groups)
  {
    exists i | 0 <= i < |endpoints| :: endpoints[i].id == id && endpoints[i] in Kept(endpoints, groups, userId, memberships)
  }

  /** One of the levels of an endpoint with this id grants something. */
  ghost predicate GrantsId(userId: int, endpoints: seq<Endpoint>, groups: seq<Group>, roles: seq<Role>,
      memberships: seq<Membership>, id: int)
    requires GroupsPresent(endpoints, groups)
  {
    exists i | 0 <= i < |endpoints| ::
      && endpoints[i].id == id
      && SomeLevelGrants(userId, endpoints[i], FindGroup(endpoints[i].groupId, groups).value, roles, memberships)
  }

  ghost predicate AllServed(endpoints: seq<Endpoint>, groups: seq<Group>, roles: seq<Role>) {
    && (forall i | 0 <= i < |endpoints| :: PoliciesServe(endpoints[i].users, roles) && PoliciesServe(endpoints[i].teams, roles))
    && (forall i | 0 <= i < |groups| :: PoliciesServe(groups[i].users, roles) && PoliciesServe(groups[i].teams, roles))
  }

  lemma GroupFound(e: Endpoint, groups: seq<Group>)
    requires FindGroup(e.groupId, groups).Some?
    ensures var g := FindGroup(e.groupId, groups).value;
            g in groups && g.id == e.groupId
  {
    FindGroupIs(e.groupId, groups);
  }

  lemma EnteredIffGrants(userId: int, endpoints: seq<Endpoint>, groups: seq<Group>, roles: seq<Role>,
      memberships: seq<Membership>, id: int)
    requires GroupsPresent(endpoints, groups) && forall i, j | 0 <= i < j < |groups| :: groups[i].id != groups[j].id
    ensures Entered(userId, endpoints, groups, roles, memberships, id) <==>
            GrantsId(userId, endpoints, groups, roles, memberships, id)
  {
    hide Entry, SomeLevelGrants, FindGroup;
    forall i | 0 <= i < |endpoints|
      ensures Entry(userId, endpoints[i], groups, roles, memberships) != map[] <==>
              SomeLevelGrants(userId, endpoints[i], FindGroup(endpoints[i].groupId, groups).value, roles, memberships)
    {
      GroupFound(endpoints[i], groups);
      EntryIffGranted(userId, endpoints[i], groups, roles, memberships, FindGroup(endpoints[i].groupId, groups).value);
    }
  }

  lemma EnteredIsKept(userId: int, endpoints: seq<Endpoint>, groups: seq<Group>, roles: seq<Role>,
      memberships: seq<Membership>, id: int)
    requires GroupsPresent(endpoints, groups) && forall i, j | 0 <= i < j < |groups| :: groups[i].id != groups[j].id
    requires Entered(userId, endpoints, groups, roles, memberships, id)
    ensures KeepsId(userId, endpoints, groups, memberships, id)
  {
    hide Entry, AuthorizedEndpointAccess, Kept, FindGroup;
    var i :| 0 <= i < |endpoints| && endpoints[i].id == id && Entry(userId, endpoints[i], groups, roles, memberships) != map[];
    var e := endpoints[i];
    GroupFound(e, groups);
    EntryImpliesAuthorized(userId, e, groups, roles, memberships, FindGroup(e.groupId, groups).value);
    KeptIff(endpoints, groups, userId, memberships, e);
  }

  /** For users who are no administrators, whatever the roles are: table and filter agree on an id
      exactly if, when the filter keeps an endpoint with that id, one of the levels of such an endpoint
      grants something. The table never has more than the filter. */
  lemma TableAgreesWithFilterIff(userId: int, endpoints: seq<Endpoint>, groups: seq<Group>, roles: seq<Role>,
      memberships: seq<Membership>, id: int)
    requires GroupsPresent(endpoints, groups)
    requires forall i, j | 0 <= i < j < |groups| :: groups[i].id != groups[j].id
    ensures var inTable, kept :=
              id in TableOf(userId, endpoints, groups, roles, memberships), KeepsId(userId, endpoints, groups, memberships, id);
            && (inTable ==> kept)
            && ((inTable <==> kept) <==> (kept ==> GrantsId(userId, endpoints, groups, roles, memberships, id)))
  {
    hide TableOf, Entered, KeepsId, GrantsId;
    TableHas(userId, endpoints, groups, roles, memberships, id);
    EnteredIffGrants(userId, endpoints, groups, roles, memberships, id);
    if Entered(userId, endpoints, groups, roles, memberships, id) {
      EnteredIsKept(userId, endpoints, groups, roles, memberships, id);
    }
  }

  /** If all roles serve, an endpoint id has an entry in the table iff the filter keeps an endpoint with
      that id. */
  lemma TableAgreesWithFilter(userId: int, endpoints: seq<Endpoint>, groups: seq<Group>, roles: seq<Role>,
      memberships: seq<Membership>, id: int)
    requires GroupsPresent(endpoints, groups) && AllServed(endpoints, groups, roles)
    requires forall i, j | 0 <= i < j < |groups| :: groups[i].id != groups[j].id
    ensures id in TableOf(userId, endpoints, groups, roles, memberships) <==>
            KeepsId(userId, endpoints, groups, memberships, id)
  {
    hide Entry, TableOf, Kept, PoliciesServe, FindGroup, AuthorizedEndpointAccess;
    TableHas(userId, endpoints, groups, roles, memberships, id);
    forall i | 0 <= i < |endpoints|
      ensures Entry(userId, endpoints[i], groups, roles, memberships) != map[] <==>
              endpoints[i] in Kept(endpoints, groups, userId, memberships)
    {
      var e := endpoints[i];
      GroupFound(e, groups);
      var g := FindGroup(e.groupId, groups).value;
      var k :| 0 <= k < |groups| && groups[k] == g;
      EntryIffAuthorized(userId, e, groups, roles, memberships, g);
      KeptIff(endpoints, groups, userId, memberships, e);
    }
  }

  /** With unique endpoint ids the entry is the one of that endpoint: the winning role of its most
      specific level that has authorizations. */
  lemma {:induction false} TableValue(userId: int, endpoints: seq<Endpoint>, groups: seq<Group>, roles: seq<Role>,
      memberships: seq<Membership>, i: nat)
    requires i < |endpoints| && forall j, k | 0 <= j < k < |endpoints| :: endpoints[j].id != endpoints[k].id
    requires Entry(userId, endpoints[i], groups, roles, memberships) != map[]
    ensures endpoints[i].id in TableOf(userId, endpoints, groups, roles, memberships)
    ensures TableOf(userId, endpoints, groups, roles, memberships)[endpoints[i].id] ==
            Entry(userId, endpoints[i], groups, roles, memberships)
  {
    hide Entry;
    if i < |endpoints| - 1 {
      TableValue(userId, endpoints[..|endpoints| - 1], groups, roles, memberships, i);
    }
  }

  // ---- The value of an entry

  /** The role of this id, the first listed, as the level's leading one; it exists, has a positive
      priority and grants something. */
  ghost predicate GrantsBy(ids: seq<int>, roles: seq<Role>, role: Role) {
    exists i | 0 <= i < |ids| :: Leads(ids, roles, i) && Serves(ids[i], roles) && RoleOf(ids[i], roles) == [role]
  }

  /** A level's authorizations are those of the one role that leads it. */
  lemma LevelValue(ids: seq<int>, roles: seq<Role>, role: Role)
    requires GrantsBy(ids, roles, role)
    ensures FromRoles(ids, roles) == role.authorizations && LevelGrants(ids, roles)
  {
    hide RoleOf, BestOf, AssociatedRoles;
    var k :| 0 <= k < |ids| && Leads(ids, roles, k) && Serves(ids[k], roles) && RoleOf(ids[k], roles) == [role];
    FromRolesIff(ids, roles);
    var b := BestOf(AssociatedRoles(ids, roles));
    BestIsFrom(ids, roles);
    assert Rank(ids[k], roles) > 0;
    if b.priority > 0 {
      var i :| 0 <= i < |ids| && Leads(ids, roles, i) && RoleOf(ids[i], roles) != []
               && RoleOf(ids[i], roles)[0].priority == b.priority
               && RoleOf(ids[i], roles)[0].authorizations == b.authorizations;
      OneLeads(ids, roles, i, k);
    }
  }

  /** The four levels of an endpoint, from the most to the least specific: the user's own policy on the
      endpoint, then on its group, then the teams' policies on the endpoint, then on its group. */
  function LevelsOf(userId: int, e: Endpoint, g: Group, memberships: seq<Membership>): seq<seq<int>> {
    [Own(userId, e.users), Own(userId, g.users), OfTeams(memberships, e.teams), OfTeams(memberships, g.teams)]
  }

  lemma EntryValue(userId: int, e: Endpoint, groups: seq<Group>, roles: seq<Role>, memberships: seq<Membership>, g: Group,
      level: nat, role: Role)
    requires g in groups && g.id == e.groupId && forall i, j | 0 <= i < j < |groups| :: groups[i].id != groups[j].id
    requires level < 4 && GrantsBy(LevelsOf(userId, e, g, memberships)[level], roles, role)
    requires forall l | 0 <= l < level :: !LevelGrants(LevelsOf(userId, e, g, memberships)[l], roles)
    ensures Entry(userId, e, groups, roles, memberships) == role.authorizations != map[]
  {
    hide FromRoles, OfTeams, Own, ByGroup, PoliciesOf, FirstLevel, Levels, LevelGrants, GrantsBy;
    var levels := LevelsOf(userId, e, g, memberships);
    ByGroupFinds(groups, g);
    LevelsInTurn(userId, e, ByGroup(groups, true), ByGroup(groups, false), roles, memberships);
    assert |levels| == 4;
    FromRolesIff(levels[0], roles);
    FromRolesIff(levels[1], roles);
    FromRolesIff(levels[2], roles);
    FromRolesIff(levels[3], roles);
    LevelValue(levels[level], roles, role);
    assert level > 0 ==> !LevelGrants(levels[0], roles);
    assert level > 1 ==> !LevelGrants(levels[1], roles);
    assert level > 2 ==> !LevelGrants(levels[2], roles);
  }

  /** With unique endpoint and group ids, the stored entry is what the leading role of the first level
      that grants something authorizes. */
  lemma TableHolds(userId: int, endpoints: seq<Endpoint>, groups: seq<Group>, roles: seq<Role>, memberships: seq<Membership>,
      i: nat, g: Group, level: nat, role: Role)
    requires i < |endpoints| && forall j, k | 0 <= j < k < |endpoints| :: endpoints[j].id != endpoints[k].id
    requires g in groups && g.id == endpoints[i].groupId && forall j, k | 0 <= j < k < |groups| :: groups[j].id != groups[k].id
    requires level < 4 && GrantsBy(LevelsOf(userId, endpoints[i], g, memberships)[level], roles, role)
    requires forall l | 0 <= l < level :: !LevelGrants(LevelsOf(userId, endpoints[i], g, memberships)[l], roles)
    ensures var table := TableOf(userId, endpoints, groups, roles, memberships);
            endpoints[i].id in table && table[endpoints[i].id] == role.authorizations
  {
    hide *;
    EntryValue(userId, endpoints[i], groups, roles, memberships, g, level, role);
    TableValue(userId, endpoints, groups, roles, memberships, i);
  }

  /** And there is no entry if no level grants anything, nor for an id that is no endpoint's. */
  lemma TableLacks(userId: int, endpoints: seq<Endpoint>, groups: seq<Group>, roles: seq<Role>, memberships: seq<Membership>, id: int)
    requires forall j, k | 0 <= j < k < |endpoints| :: endpoints[j].id != endpoints[k].id
    requires forall j, k | 0 <= j < k < |groups| :: groups[j].id != groups[k].id
    requires forall i, g | 0 <= i < |endpoints| && endpoints[i].id == id && g in groups && g.id == endpoints[i].groupId ::
               forall l | 0 <= l < 4 :: !LevelGrants(LevelsOf(userId, endpoints[i], g, memberships)[l], roles)
    requires forall i | 0 <= i < |endpoints| && endpoints[i].id == id :: exists g :: g in groups && g.id == endpoints[i].groupId
    ensures id !in TableOf(userId, endpoints, groups, roles, memberships)
  {
    hide TableOf, Entry, LevelGrants, Own, OfTeams;
    TableHas(userId, endpoints, groups, roles, memberships, id);
    forall i | 0 <= i < |endpoints| && endpoints[i].id == id
      ensures Entry(userId, endpoints[i], groups, roles, memberships) == map[]
    {
      var e := endpoints[i];
      var g :| g in groups && g.id == e.groupId;
      EntryIffGranted(userId, e, groups, roles, memberships, g);
      var levels := LevelsOf(userId, e, g, memberships);
      assert forall l | 0 <= l < 4 :: !LevelGrants(levels[l], roles);
      assert !LevelGrants(levels[0], roles) && !LevelGrants(levels[1], roles) && !LevelGrants(levels[2], roles) && !LevelGrants(levels[3], roles);
    }
  }

  // ---- The parts of a level

  /** The role of an id is the first listed with it. */
  lemma {:induction false} RoleOfIs(id: int, roles: seq<Role>, k: nat)
    requires k <= |roles| && (forall j | 0 <= j < k :: roles[j].id != id) && (k < |roles| ==> roles[k].id == id)
    ensures RoleOf(id, roles) == if k < |roles| then [roles[k]] else []
  {
    if k > 0 {
      RoleOfIs(id, roles[1..], k - 1);
    }
  }

  /** The user's own level is the one role the policies give the user. */
  lemma OwnIs(id: int, policies: Policies)
    ensures id in policies ==> Own(id, policies) == [policies[id]]
    ensures id !in policies ==> Own(id, policies) == []
  {
  }

  /** The teams' level: the roles the policies give the user's teams, in the order of the memberships. */
  lemma {:induction false} OfTeamsIs(memberships: seq<Membership>, policies: Policies)
    ensures OfTeams(memberships, policies) ==
            Map((t: int) => if t in policies then policies[t] else 0,
                Filter((t: int) => t in policies, Map((m: Membership) => m.teamId, memberships)))
  {
    var team, given, role :=
      (m: Membership) => m.teamId, (t: int) => t in policies, (t: int) => if t in policies then policies[t] else 0;
    if memberships != [] {
      var front, last := memberships[..|memberships| - 1], memberships[|memberships| - 1];
      assert memberships == front + [last];
      OfTeamsIs(front, policies);
      MapSnoc(team, front, last);
      FilterSnoc(given, Map(team, front), last.teamId);
      if last.teamId in policies {
        MapSnoc(role, Filter(given, Map(team, front)), last.teamId);
      }
    }
  }
}
