/** Reconciling the role bindings of the namespaces with the access policies
    (api/kubernetes/cli/access.go, service_account.go). */
module NamespaceAccess {
  import opened Wrappers
  import opened ClusterNames

  datatype Subject = Subject(kind: string, name: string, namespace: string)

  /** A role binding is found by its namespace and its name. */
  datatype Ref = Ref(namespace: string, name: string)

  type Bindings = map<Ref, seq<Subject>>

  datatype Error = NotFound | AlreadyExists | Failed

  /** The user ids and the team ids a policy has entries for. */
  datatype Policy = Policy(users: set<int>, teams: set<int>)

  /** How the API server answers while one namespace is handled: whether the read fails, whether
      another client creates the missing role binding first, and whether the write fails. */
  datatype Answers = Answers(readFails: bool, rival: Option<seq<Subject>>, writeFails: bool)

  function Account(name: string): Subject {
    Subject("ServiceAccount", name, PORTAINER_NAMESPACE)
  }

  function Others(subjects: seq<Subject>, name: string): seq<Subject> {
    if subjects == [] then []
    else
      var last := subjects[|subjects| - 1];
      Others(subjects[..|subjects| - 1], name) + if last.name == name then [] else [last]
  }

  predicate Includes(subjects: seq<Subject>, name: string) {
    exists i | 0 <= i < |subjects| :: subjects[i].name == name
  }

  function RefOf(namespace: string, instanceId: string): Ref {
    Ref(namespace, RoleBindingName(namespace, instanceId))
  }

  // ---- Specification of one namespace

  datatype Outcome = Outcome(bindings: Bindings, error: Option<Error>)

  function Remove(b: Bindings, ref: Ref, name: string, a: Answers): Outcome {
    if a.readFails then Outcome(b, Some(Failed))
    else if ref !in b then Outcome(b, None)
    else if a.writeFails then Outcome(b, Some(Failed))
    else Outcome(b[ref := Others(b[ref], name)], None)
  }

  function Ensure(b: Bindings, ref: Ref, name: string, a: Answers): Outcome {
    if a.readFails then Outcome(b, Some(Failed))
    else if ref !in b then
      if a.rival.Some? then Outcome(b[ref := a.rival.value], Some(AlreadyExists))
      else if a.writeFails then Outcome(b, Some(Failed))
      else Outcome(b[ref := [Account(name)]], None)
    else if Includes(b[ref], name) then Outcome(b, None)
    else if a.writeFails then Outcome(b, Some(Failed))
    else Outcome(b[ref := b[ref] + [Account(name)]], None)
  }

  predicate HasAccess(userId: int, teamIds: seq<int>, policy: Policy) {
    userId in policy.users || exists i | 0 <= i < |teamIds| :: teamIds[i] in policy.teams
  }

  lemma HasAccessIff(userId: int, teamIds: seq<int>, policy: Policy)
    ensures HasAccess(userId, teamIds, policy) <==> userId in policy.users || exists t :: t in teamIds && t in policy.teams
  {
    if exists t :: t in teamIds && t in policy.teams {
      var t :| t in teamIds && t in policy.teams;
      var i :| 0 <= i < |teamIds| && teamIds[i] == t;
      assert teamIds[i] in policy.teams;
    }
  }

  /** Who is set up, and under which policies. */
  datatype Request = Request(userId: int, teamIds: seq<int>, instanceId: string, policies: map<string, Policy>)
  {
    function AccountName(): string {
      UserServiceAccountName(userId, instanceId)
    }

    predicate Grants(namespace: string) {
      namespace in policies && HasAccess(userId, teamIds, policies[namespace])
    }
  }

  function Visit(b: Bindings, q: Request, namespace: string, a: Answers): Outcome {
    var ref := RefOf(namespace, q.instanceId);
    if namespace == DEFAULT_NAMESPACE then Outcome(b, None)
    else if !q.Grants(namespace) then Remove(b, ref, q.AccountName(), a)
    else
      var r := Ensure(b, ref, q.AccountName(), a);
      if r.error == Some(AlreadyExists) then Outcome(r.bindings, None) else r
  }

  /** The namespaces in turn, up to the first error. */
  function VisitAll(b: Bindings, q: Request, namespaces: seq<string>, answers: seq<Answers>): Outcome
    requires |answers| == |namespaces|
    decreases |namespaces|
  {
    if namespaces == [] then Outcome(b, None)
    else
      var r := Visit(b, q, namespaces[0], answers[0]);
      if r.error.Some? then r else VisitAll(r.bindings, q, namespaces[1..], answers[1..])
  }

  // ---- The client

  class Cluster {
    var bindings: Bindings

    constructor (bindings: Bindings)
      ensures this.bindings == bindings
    {
      this.bindings := bindings;
    }

    /** The subjects come as a fresh copy. */
    method GetRoleBinding(ref: Ref, readFails: bool) returns (r: Result<array<Subject>, Error>)
      ensures r.Ok? ==> !readFails && ref in bindings && fresh(r.value) && r.value[..] == bindings[ref]
      ensures r.Err? ==> r.error == if readFails then Failed else NotFound
      ensures r.Err? && !readFails ==> ref !in bindings
    {
      if readFails {
        return Err(Failed);
      }
      if ref !in bindings {
        return Err(NotFound);
      }
      var subjects := bindings[ref];
      var a := new Subject[|subjects|](i requires 0 <= i < |subjects| => subjects[i]);
      return Ok(a);
    }

    /** Another client may come first. */
    method CreateRoleBinding(ref: Ref, subjects: seq<Subject>, a: Answers) returns (error: Option<Error>)
      requires ref !in bindings
      modifies this
      ensures Outcome(bindings, error) ==
              if a.rival.Some? then Outcome(old(bindings)[ref := a.rival.value], Some(AlreadyExists))
              else if a.writeFails then Outcome(old(bindings), Some(Failed))
              else Outcome(old(bindings)[ref := subjects], None)
    {
      if a.rival.Some? {
        bindings := bindings[ref := a.rival.value];
      }
      if ref in bindings {
        return Some(AlreadyExists);
      }
      if a.writeFails {
        return Some(Failed);
      }
      bindings := bindings[ref := subjects];
      return None;
    }

    method UpdateRoleBinding(ref: Ref, subjects: seq<Subject>, writeFails: bool) returns (error: Option<Error>)
      modifies this
      ensures Outcome(bindings, error) ==
              if writeFails then Outcome(old(bindings), Some(Failed)) else Outcome(old(bindings)[ref := subjects], None)
    {
      if writeFails {
        return Some(Failed);
      }
      bindings := bindings[ref := subjects];
      return None;
    }

    /** Keeps the subjects with another name, in the front of the same array. */
    static method Compact(subjects: array<Subject>, name: string) returns (kept: nat)
      modifies subjects
      ensures kept <= subjects.Length && subjects[..kept] == Others(old(subjects[..]), name)
    {
      kept := 0;
      ghost var before := subjects[..];
      for i := 0 to subjects.Length
        invariant kept <= i
        invariant subjects[..kept] == Others(before[..i], name)
        invariant forall j | i <= j < subjects.Length :: subjects[j] == before[j]
      {
        var subject := subjects[i];
        assert subject == before[i];
        assert before[..i + 1][..i] == before[..i];
        if subject.name != name {
          subjects[kept] := subject;
          kept := kept + 1;
          assert subjects[..kept] == subjects[..kept - 1] + [subject];
        }
      }
      assert before[..subjects.Length] == before;
    }

    method RemoveNamespaceAccess(name: string, namespace: string, instanceId: string, a: Answers)
      returns (error: Option<Error>)
      modifies this
      ensures Outcome(bindings, error) == Remove(old(bindings), RefOf(namespace, instanceId), name, a)
    {
      var ref := RefOf(namespace, instanceId);
      var r := GetRoleBinding(ref, a.readFails);
      if r.Err? {
        if r.error == NotFound {
          return None;
        }
        return Some(r.error);
      }
      var subjects := r.value;
      var kept := Compact(subjects, name);
      error := UpdateRoleBinding(ref, subjects[..kept], a.writeFails);
    }

    method EnsureNamespaceAccess(name: string, namespace: string, instanceId: string, a: Answers)
      returns (error: Option<Error>)
      modifies this
      ensures Outcome(bindings, error) == Ensure(old(bindings), RefOf(namespace, instanceId), name, a)
    {
      var ref := RefOf(namespace, instanceId);
      var r := GetRoleBinding(ref, a.readFails);
      if r.Err? {
        if r.error == NotFound {
          error := CreateRoleBinding(ref, [Account(name)], a);
          return;
        }
        return Some(r.error);
      }
      var subjects := r.value;
      for i := 0 to subjects.Length
        invariant forall j | 0 <= j < i :: subjects[j].name != name
      {
        if subjects[i].name == name {
          assert bindings[ref][i].name == name;
          return None;
        }
      }
      assert subjects[..] == bindings[ref];
      error := UpdateRoleBinding(ref, subjects[..] + [Account(name)], a.writeFails);
    }

    static method HasUserAccessToNamespace(userId: int, teamIds: seq<int>, policy: Policy) returns (access: bool)
      ensures access == HasAccess(userId, teamIds, policy)
      ensures access <==> userId in policy.users || exists t :: t in teamIds && t in policy.teams
    {
      HasAccessIff(userId, teamIds, policy);
      if userId in policy.users {
        return true;
      }
      for i := 0 to |teamIds|
        invariant forall j | 0 <= j < i :: teamIds[j] !in policy.teams
      {
        if teamIds[i] in policy.teams {
          return true;
        }
      }
      return false;
    }

    /** config: the policies in the config map, nothing if there is no config map, or the error of
        reading it, decoding it or listing the namespaces. */
    method SetupNamespaceAccesses(config: Result<Option<map<string, Policy>>, Error>, userId: int, teamIds: seq<int>,
        instanceId: string, namespaces: seq<string>, answers: seq<Answers>)
      returns (error: Option<Error>)
      requires |answers| == |namespaces|
      modifies this
      ensures match config
              case Err(e) => bindings == old(bindings) && error == Some(e)
              case Ok(None) => bindings == old(bindings) && error.None?
              case Ok(Some(policies)) =>
                Outcome(bindings, error) ==
                VisitAll(old(bindings), Request(userId, teamIds, instanceId, policies), namespaces, answers)
    {
      if config.Err? {
        return Some(config.error);
      }
      if config.value.None? {
        return None;
      }
      var policies := config.value.value;
      var name := UserServiceAccountName(userId, instanceId);
      ghost var q := Request(userId, teamIds, instanceId, policies);
      ghost var all := VisitAll(bindings, q, namespaces, answers);
      for n := 0 to |namespaces|
        invariant all == VisitAll(bindings, q, namespaces[n..], answers[n..])
      {
        var namespace := namespaces[n];
        assert namespaces[n..][1..] == namespaces[n + 1..];
        assert answers[n..][1..] == answers[n + 1..];
        if namespace == DEFAULT_NAMESPACE {
          continue;
        }
        if namespace !in policies {
          error := RemoveNamespaceAccess(name, namespace, instanceId, answers[n]);
          if error.Some? {
            return;
          }
          continue;
        }
        var access := HasUserAccessToNamespace(userId, teamIds, policies[namespace]);
        if !access {
          error := RemoveNamespaceAccess(name, namespace, instanceId, answers[n]);
          if error.Some? {
            return;
          }
          continue;
        }
        error := EnsureNamespaceAccess(name, namespace, instanceId, answers[n]);
        if error.Some? && error.value != AlreadyExists {
          return;
        }
      }
      return None;
    }
  }
}
