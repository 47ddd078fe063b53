/** Removing namespace policies of users and teams that lost access to the endpoint
    (api/internal/authorization/endpint_role_with_override.go). */
module PolicyCleanup {
  import opened Wrappers
  import opened Seqs
  import opened EndpointAccess

  /** The access policies of one namespace. */
  datatype NamespacePolicy = NamespacePolicy(users: Policies, teams: Policies)

  type NamespacePolicies = map<string, NamespacePolicy>

  /** The database, as far as it answers: team memberships by user, and the endpoint's group. */
  datatype Database = Database(memberships: map<int, seq<Membership>>, group: Option<Group>)

  /** The endpoint, and its group if the caller has it at hand. */
  datatype Scope = Scope(endpoint: Endpoint, group: Option<Group>)
  {
    function Effective(db: Database): Option<Group> {
      if group.Some? then group else db.group
    }
  }

  /** userAccess on the endpoint, then on the group. */
  predicate UserAccess(userId: int, e: Endpoint, g: Group, memberships: seq<Membership>) {
    || AuthorizedAccess(userId, memberships, e.users, e.teams)
    || AuthorizedAccess(userId, memberships, g.users, g.teams)
  }

  predicate TeamAccess(teamId: int, e: Endpoint, g: Group) {
    teamId in e.teams || teamId in g.teams
  }

  function UserCheck(userId: int, s: Scope, db: Database): Option<bool> {
    if userId in db.memberships && s.Effective(db).Some?
    then Some(UserAccess(userId, s.endpoint, s.Effective(db).value, db.memberships[userId]))
    else None
  }

  function TeamCheck(teamId: int, s: Scope, db: Database): Option<bool> {
    if s.Effective(db).Some? then Some(TeamAccess(teamId, s.endpoint, s.Effective(db).value)) else None
  }

  // ---- What is kept

  function KeptUsers(p: Policies, s: Scope, db: Database): Policies {
    map u | u in p && UserCheck(u, s, db) == Some(true) :: p[u]
  }

  function KeptTeams(p: Policies, s: Scope, db: Database): Policies {
    map t | t in p && TeamCheck(t, s, db) == Some(true) :: p[t]
  }

  function CleanedPolicy(p: NamespacePolicy, s: Scope, db: Database): NamespacePolicy {
    NamespacePolicy(KeptUsers(p.users, s, db), KeptTeams(p.teams, s, db))
  }

  function Cleaned(ps: NamespacePolicies, s: Scope, db: Database): NamespacePolicies {
    map n | n in ps :: CleanedPolicy(ps[n], s, db)
  }

  predicate UsersReadable(p: Policies, s: Scope, db: Database) {
    forall u | u in p :: UserCheck(u, s, db).Some?
  }

  predicate TeamsReadable(p: Policies, s: Scope, db: Database) {
    forall t | t in p :: TeamCheck(t, s, db).Some?
  }

  /** Every check the policies call for can be answered. */
  predicate Readable(ps: NamespacePolicies, s: Scope, db: Database) {
    forall n | n in ps :: TeamsReadable(ps[n].teams, s, db) && UsersReadable(ps[n].users, s, db)
  }

  method GetUserEndpointAccess(userId: int, s: Scope, db: Database) returns (access: Option<bool>)
    ensures access == UserCheck(userId, s, db)
  {
    if userId !in db.memberships {
      return None;
    }
    var memberships := db.memberships[userId];
    var group := s.group;
    if group.None? {
      group := db.group;
      if group.None? {
        return None;
      }
    }
    if AuthorizedAccess(userId, memberships, s.endpoint.users, s.endpoint.teams) {
      return Some(true);
    }
    if AuthorizedAccess(userId, memberships, group.value.users, group.value.teams) {
      return Some(true);
    }
    return Some(false);
  }

  method GetTeamEndpointAccess(teamId: int, s: Scope, db: Database) returns (access: Option<bool>)
    ensures access == TeamCheck(teamId, s, db)
  {
    var group := s.group;
    if group.None? {
      group := db.group;
      if group.None? {
        return None;
      }
    }
    if teamId in s.endpoint.teams {
      return Some(true);
    }
    if teamId in group.value.teams {
      return Some(true);
    }
    return Some(false);
  }

  /** The entries left once the keys in done were checked. */
  ghost function KeepAmong(p: Policies, done: set<int>, keep: int -> bool): Policies {
    map k | k in p && (k !in done || keep(k)) :: p[k]
  }

  lemma KeepNone(p: Policies, keep: int -> bool)
    ensures KeepAmong(p, p.Keys - p.Keys, keep) == p
  {
  }

  lemma KeepNext(p: Policies, items: set<int>, k: int, keep: int -> bool)
    requires items <= p.Keys && k in items
    ensures var before := KeepAmong(p, p.Keys - items, keep);
            KeepAmong(p, p.Keys - (items - {k}), keep) == if keep(k) then before else before - {k}
  {
  }

  method CleanTeams(p: Policies, s: Scope, db: Database) returns (r: Option<Policies>)
    ensures r.Some? <==> TeamsReadable(p, s, db)
    ensures r.Some? ==> r.value == KeptTeams(p, s, db)
  {
    hide TeamCheck;
    var remaining, items := p, p.Keys;
    ghost var keep := (k: int) => TeamCheck(k, s, db) == Some(true);
    KeepNone(p, keep);
    while items != {}
      invariant items <= p.Keys
      invariant forall k :: k in p && k !in items ==> TeamCheck(k, s, db).Some?
      invariant remaining == KeepAmong(p, p.Keys - items, keep)
      decreases items
    {
      var teamId := Pick(items);
      KeepNext(p, items, teamId, keep);
      items := items - {teamId};
      var access := GetTeamEndpointAccess(teamId, s, db);
      if access.None? {
        return None;
      }
      if !access.value {
        remaining := remaining - {teamId};
      }
    }
    assert p.Keys - items == p.Keys;
    assert KeepAmong(p, p.Keys, keep) == KeptTeams(p, s, db);
    return Some(remaining);
  }

  method CleanUsers(p: Policies, s: Scope, db: Database) returns (r: Option<Policies>)
    ensures r.Some? <==> UsersReadable(p, s, db)
    ensures r.Some? ==> r.value == KeptUsers(p, s, db)
  {
    hide UserCheck;
    var remaining, items := p, p.Keys;
    ghost var keep := (k: int) => UserCheck(k, s, db) == Some(true);
    KeepNone(p, keep);
    while items != {}
      invariant items <= p.Keys
      invariant forall k :: k in p && k !in items ==> UserCheck(k, s, db).Some?
      invariant remaining == KeepAmong(p, p.Keys - items, keep)
      decreases items
    {
      var userId := Pick(items);
      KeepNext(p, items, userId, keep);
      items := items - {userId};
      var access := GetUserEndpointAccess(userId, s, db);
      if access.None? {
        return None;
      }
      if !access.value {
        remaining := remaining - {userId};
      }
    }
    assert p.Keys - items == p.Keys;
    assert KeepAmong(p, p.Keys, keep) == KeptUsers(p, s, db);
    return Some(remaining);
  }

  /** The policies stored in the cluster; None if there is no config map to hold them. */
  class PolicyStore {
    var policies: Option<NamespacePolicies>
    var writes: nat

    constructor (policies: Option<NamespacePolicies>)
      ensures this.policies == policies && writes == 0
    {
      this.policies, writes := policies, 0;
    }

    method Update(ps: NamespacePolicies, writeFails: bool) returns (ok: bool)
      modifies this
      ensures ok == !writeFails
      ensures if ok && old(policies).Some? then policies == Some(ps) && writes == old(writes) + 1
              else policies == old(policies) && writes == old(writes)
    {
      if writeFails {
        return false;
      }
      if policies.Some? {
        policies, writes := Some(ps), writes + 1;
      }
      return true;
    }
  }

  /** readFails covers the cluster client and the reading of the stored policies. */
  method CleanNAPWithOverridePolicies(store: PolicyStore, s: Scope, db: Database, readFails: bool, writeFails: bool)
    returns (ok: bool)
    modifies store
    ensures var before := if old(store.policies).Some? then old(store.policies).value else map[];
            var changes := Readable(before, s, db) && Cleaned(before, s, db) != before;
            && ok == (!readFails && Readable(before, s, db) && (changes ==> !writeFails))
            && if ok && changes
               then store.policies == Some(Cleaned(before, s, db)) && store.writes == old(store.writes) + 1
               else store.policies == old(store.policies) && store.writes == old(store.writes)
  {
    hide TeamsReadable, UsersReadable, KeptUsers, KeptTeams;
    if readFails {
      return false;
    }
    var before := if store.policies.Some? then store.policies.value else map[];
    var ps, hasChange, items := before, false, before.Keys;
    while items != {}
      invariant items <= before.Keys && ps.Keys == before.Keys
      invariant forall n :: n in items ==> ps[n] == before[n]
      invariant forall n :: n in before && n !in items ==>
                  && TeamsReadable(before[n].teams, s, db) && UsersReadable(before[n].users, s, db)
                  && ps[n] == CleanedPolicy(before[n], s, db)
      invariant hasChange <==> exists n :: n in before && n !in items && ps[n] != before[n]
      invariant store.policies == old(store.policies) && store.writes == old(store.writes)
      decreases items
    {
      var n := Pick(items);
      items := items - {n};
      var policy := ps[n];
      var teams := CleanTeams(policy.teams, s, db);
      if teams.None? {
        return false;
      }
      var users := CleanUsers(policy.users, s, db);
      if users.None? {
        return false;
      }
      if teams.value != policy.teams || users.value != policy.users {
        hasChange := true;
      }
      ps := ps[n := NamespacePolicy(users.value, teams.value)];
    }
    assert ps == Cleaned(before, s, db);
    if hasChange {
      ok := store.Update(ps, writeFails);
      return;
    }
    assert forall n :: n in before ==> ps[n] == before[n];
    return true;
  }

  // ---- Properties

  /** The user check coincides with the check made on every request. */
  lemma UserCheckIsRequestCheck(userId: int, s: Scope, db: Database)
    ensures userId in db.memberships && s.Effective(db).Some? ==>
              UserCheck(userId, s, db) ==
              Some(AuthorizedEndpointAccess(s.endpoint, s.Effective(db).value, userId, db.memberships[userId]))
  {
  }

  /** Exactly the entries of users and teams with access stay, with the roles they had. */
  lemma CleanedKeeps(ps: NamespacePolicies, s: Scope, db: Database, n: string, k: int)
    requires Readable(ps, s, db) && n in ps
    ensures Cleaned(ps, s, db).Keys == ps.Keys
    ensures k in Cleaned(ps, s, db)[n].users <==>
            k in ps[n].users && AuthorizedEndpointAccess(s.endpoint, s.Effective(db).value, k, db.memberships[k])
    ensures k in Cleaned(ps, s, db)[n].teams <==>
            k in ps[n].teams && (k in s.endpoint.teams || k in s.Effective(db).value.teams)
    ensures k in Cleaned(ps, s, db)[n].users ==> Cleaned(ps, s, db)[n].users[k] == ps[n].users[k]
    ensures k in Cleaned(ps, s, db)[n].teams ==> Cleaned(ps, s, db)[n].teams[k] == ps[n].teams[k]
  {
    hide AuthorizedAccess;
    assert TeamsReadable(ps[n].teams, s, db) && UsersReadable(ps[n].users, s, db);
    if k in ps[n].users {
      assert UserCheck(k, s, db).Some?;
    }
    if k in ps[n].teams {
      assert TeamCheck(k, s, db).Some?;
    }
  }

  /** A second run finds nothing to remove and writes nothing. */
  lemma CleanedTwice(ps: NamespacePolicies, s: Scope, db: Database)
    ensures Cleaned(Cleaned(ps, s, db), s, db) == Cleaned(ps, s, db)
    ensures Readable(ps, s, db) ==> Readable(Cleaned(ps, s, db), s, db)
  {
    hide UserCheck, TeamCheck;
    var once := Cleaned(ps, s, db);
    forall n | n in ps
      ensures CleanedPolicy(once[n], s, db) == once[n]
    {
      assert KeptUsers(once[n].users, s, db) == once[n].users;
      assert KeptTeams(once[n].teams, s, db) == once[n].teams;
    }
  }

  /** The group given, or else the one the database has. */
  lemma EffectiveIs(s: Scope, db: Database)
    ensures s.Effective(db) == if s.group.Some? then s.group else db.group
  {
  }

  /** The cleanup can be carried out iff the group is known, as soon as there is an entry at all, and so
      are the memberships of every user with an entry. */
  lemma ReadableIff(ps: NamespacePolicies, s: Scope, db: Database)
    ensures Readable(ps, s, db) <==>
            forall n | n in ps ::
              && (forall t | t in ps[n].teams :: s.group.Some? || db.group.Some?)
              && (forall u | u in ps[n].users :: u in db.memberships && (s.group.Some? || db.group.Some?))
  {
    hide UserCheck, TeamCheck;
    forall n | n in ps
      ensures TeamsReadable(ps[n].teams, s, db) <==> forall t | t in ps[n].teams :: s.group.Some? || db.group.Some?
      ensures UsersReadable(ps[n].users, s, db) <==>
              forall u | u in ps[n].users :: u in db.memberships && (s.group.Some? || db.group.Some?)
    {
      forall t | t in ps[n].teams
        ensures TeamCheck(t, s, db).Some? <==> s.group.Some? || db.group.Some?
      {
        ChecksAnswered(t, s, db);
      }
      forall u | u in ps[n].users
        ensures UserCheck(u, s, db).Some? <==> u in db.memberships && (s.group.Some? || db.group.Some?)
      {
        ChecksAnswered(u, s, db);
      }
    }
  }

  lemma ChecksAnswered(id: int, s: Scope, db: Database)
    ensures TeamCheck(id, s, db).Some? <==> s.group.Some? || db.group.Some?
    ensures UserCheck(id, s, db).Some? <==> id in db.memberships && (s.group.Some? || db.group.Some?)
  {
  }

  /** Which entries stay, spelled out over the policies of the endpoint and of the group in effect. */
  lemma CleanedKeepsEntries(ps: NamespacePolicies, s: Scope, db: Database, n: string, k: int)
    requires Readable(ps, s, db) && n in ps
    ensures var g := if s.group.Some? then s.group else db.group;
            && (k in Cleaned(ps, s, db)[n].users <==>
                k in ps[n].users && g.Some? && k in db.memberships && MayUse(s.endpoint, g.value, k, db.memberships[k]))
            && (k in Cleaned(ps, s, db)[n].teams <==>
                k in ps[n].teams && g.Some? && (k in s.endpoint.teams || k in g.value.teams))
  {
    hide AuthorizedEndpointAccess, UserCheck, TeamCheck, MayUse;
    CleanedKeeps(ps, s, db, n, k);
    assert TeamsReadable(ps[n].teams, s, db) && UsersReadable(ps[n].users, s, db);
    ChecksAnswered(k, s, db);
    if k in ps[n].users {
      assert UserCheck(k, s, db).Some?;
      AuthorizedIff(s.endpoint, s.Effective(db).value, k, db.memberships[k]);
    }
  }
}
