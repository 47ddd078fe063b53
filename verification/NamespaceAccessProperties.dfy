/** What a pass over the namespaces achieves, and how passes for several users combine. */
module NamespaceAccessProperties {
  import opened Wrappers
  import opened Seqs
  import opened ClusterNames
  import opened NamespaceAccess

  function Get(b: Bindings, ref: Ref): Option<seq<Subject>> {
    if ref in b then Some(b[ref]) else None
  }

  function Names(subjects: Option<seq<Subject>>): seq<Subject> {
    if subjects.None? then [] else subjects.value
  }

  lemma IncludesSnoc(a: seq<Subject>, s: Subject, name: string)
    ensures Includes(a + [s], name) <==> Includes(a, name) || s.name == name
  {
    var all := a + [s];
    if Includes(a, name) {
      var i :| 0 <= i < |a| && a[i].name == name;
      assert all[i].name == name;
    }
    assert all[|a|] == s;
  }

  lemma OthersSnoc(a: seq<Subject>, s: Subject, name: string)
    ensures Others(a + [s], name) == if s.name == name then Others(a, name) else Others(a, name) + [s]
  {
    assert (a + [s])[..|a|] == a;
    assert Others(a, name) + [] == Others(a, name);
  }

  /** Removing the name x leaves no subject of that name and every name but x. */
  lemma {:induction false} OthersIncludes(a: seq<Subject>, x: string, y: string)
    ensures Includes(Others(a, x), y) <==> y != x && Includes(a, y)
  {
    if a != [] {
      hide Others, Includes;
      var front, last := a[..|a| - 1], a[|a| - 1];
      assert a == front + [last];
      OthersIncludes(front, x, y);
      OthersSnoc(front, last, x);
      IncludesSnoc(front, last, y);
      IncludesSnoc(Others(front, x), last, y);
    }
  }

  lemma {:induction false} OthersAbsent(a: seq<Subject>, name: string)
    requires !Includes(a, name)
    ensures Others(a, name) == a
  {
    if a != [] {
      hide Others, Includes;
      var front, last := a[..|a| - 1], a[|a| - 1];
      assert a == front + [last];
      IncludesSnoc(front, last, name);
      OthersAbsent(front, name);
      OthersSnoc(front, last, name);
    } else {
      assert Others(a, name) == [];
    }
  }

  lemma OthersFacts(a: seq<Subject>, name: string)
    ensures Others(Others(a, name), name) == Others(a, name)
    ensures !Includes(Others(a, name), name)
    ensures Others(a + [Account(name)], name) == Others(a, name)
    ensures Includes(a + [Account(name)], name)
  {
    hide Others, Includes;
    OthersIncludes(a, name, name);
    OthersAbsent(Others(a, name), name);
    OthersSnoc(a, Account(name), name);
    IncludesSnoc(a, Account(name), name);
  }

  lemma NobodyIncluded(name: string)
    ensures !Includes([], name) && Others([], name) == []
    ensures Includes([Account(name)], name)
  {
    assert [Account(name)][0].name == name;
  }

  /** What one successful visit does to the binding of its namespace. */
  function Effect(before: Option<seq<Subject>>, grants: bool, name: string, rival: Option<seq<Subject>>): Option<seq<Subject>> {
    match before
    case None => if !grants then None else if rival.Some? then rival else Some([Account(name)])
    case Some(subjects) =>
      if !grants then Some(Others(subjects, name))
      else if Includes(subjects, name) then before
      else Some(subjects + [Account(name)])
  }

  predicate Managed(q: Request, namespaces: seq<string>, ref: Ref) {
    ref.namespace in namespaces && ref.namespace != DEFAULT_NAMESPACE && ref == RefOf(ref.namespace, q.instanceId)
  }

  lemma VisitEffect(b: Bindings, q: Request, namespace: string, a: Answers, ref: Ref)
    requires Visit(b, q, namespace, a).error.None?
    ensures Get(Visit(b, q, namespace, a).bindings, ref) ==
            if Managed(q, [namespace], ref) then Effect(Get(b, ref), q.Grants(namespace), q.AccountName(), a.rival)
            else Get(b, ref)
  {
    hide Others, Includes, HasAccess, UserServiceAccountName, RoleBindingName;
  }

  /** A successful pass visits every listed namespace once and touches nothing else. */
  lemma {:induction false} PassEffect(b: Bindings, q: Request, namespaces: seq<string>, answers: seq<Answers>, ref: Ref)
    requires |answers| == |namespaces| && Distinct(namespaces)
    requires VisitAll(b, q, namespaces, answers).error.None?
    ensures !Managed(q, namespaces, ref) ==> Get(VisitAll(b, q, namespaces, answers).bindings, ref) == Get(b, ref)
    ensures forall i | 0 <= i < |namespaces| :: Managed(q, namespaces, ref) && namespaces[i] == ref.namespace ==>
              Get(VisitAll(b, q, namespaces, answers).bindings, ref) ==
              Effect(Get(b, ref), q.Grants(ref.namespace), q.AccountName(), answers[i].rival)
    decreases |namespaces|
  {
    if namespaces != [] {
      hide Visit, Effect, Get, RefOf, HasAccess;
      var r := Visit(b, q, namespaces[0], answers[0]);
      VisitEffect(b, q, namespaces[0], answers[0], ref);
      PassEffect(r.bindings, q, namespaces[1..], answers[1..], ref);
      assert namespaces == [namespaces[0]] + namespaces[1..];
    }
  }

  /** Another client created the missing role binding of a granted namespace first. */
  predicate LostRace(b: Bindings, q: Request, namespace: string, a: Answers) {
    q.Grants(namespace) && RefOf(namespace, q.instanceId) !in b && a.rival.Some?
  }

  lemma EffectIncludes(before: Option<seq<Subject>>, grants: bool, name: string, rival: Option<seq<Subject>>)
    ensures Includes(Names(Effect(before, grants, name, rival)), name) <==>
            if before.None? && grants && rival.Some? then Includes(rival.value, name) else grants
  {
    hide Others, Includes;
    OthersFacts(Names(before), name);
    NobodyIncluded(name);
  }

  /** After a successful pass a subject of the account's name is there, in a listed namespace other than
      default, iff the policies grant access - except that a lost race for the role binding is reported
      as success although there is one then only if the rival listed it. */
  lemma AccessIffGranted(b: Bindings, q: Request, namespaces: seq<string>, answers: seq<Answers>, i: nat)
    requires |answers| == |namespaces| && Distinct(namespaces) && i < |namespaces|
    requires VisitAll(b, q, namespaces, answers).error.None? && namespaces[i] != DEFAULT_NAMESPACE
    ensures var after := Get(VisitAll(b, q, namespaces, answers).bindings, RefOf(namespaces[i], q.instanceId));
            Includes(Names(after), q.AccountName()) <==>
            if LostRace(b, q, namespaces[i], answers[i]) then Includes(answers[i].rival.value, q.AccountName())
            else q.Grants(namespaces[i])
  {
    hide HasAccess, UserServiceAccountName, RoleBindingName, VisitAll, Includes, Effect;
    var ref, name := RefOf(namespaces[i], q.instanceId), q.AccountName();
    PassEffect(b, q, namespaces, answers, ref);
    EffectIncludes(Get(b, ref), q.Grants(namespaces[i]), name, answers[i].rival);
  }

  /** Bindings that exist stay, and their subjects of other names stay in order; no other binding
      changes. */
  lemma OthersUntouched(b: Bindings, q: Request, namespaces: seq<string>, answers: seq<Answers>, ref: Ref)
    requires |answers| == |namespaces| && Distinct(namespaces)
    requires VisitAll(b, q, namespaces, answers).error.None? && ref in b
    ensures var r := VisitAll(b, q, namespaces, answers).bindings;
            && ref in r
            && Others(r[ref], q.AccountName()) == Others(b[ref], q.AccountName())
            && (!Managed(q, namespaces, ref) ==> r[ref] == b[ref])
  {
    hide HasAccess, UserServiceAccountName, RoleBindingName, VisitAll, Includes, Others, Managed;
    PassEffect(b, q, namespaces, answers, ref);
    if Managed(q, namespaces, ref) {
      IndexOfManaged(q, namespaces, ref);
      var i :| 0 <= i < |namespaces| && namespaces[i] == ref.namespace;
      OthersFacts(b[ref], q.AccountName());
    }
  }

  lemma IndexOfManaged(q: Request, namespaces: seq<string>, ref: Ref)
    requires Managed(q, namespaces, ref)
    ensures exists i :: 0 <= i < |namespaces| && namespaces[i] == ref.namespace
  {
  }

  // ---- The account itself

  lemma {:induction false} AccountNotAmongOthers(a: seq<Subject>, name: string)
    ensures Account(name) !in Others(a, name)
  {
    if a != [] {
      AccountNotAmongOthers(a[..|a| - 1], name);
    }
  }

  /** What a visit leaves of the account: it is there if it was or if its name was free. */
  lemma EffectAccount(before: Option<seq<Subject>>, grants: bool, name: string, rival: Option<seq<Subject>>)
    ensures Account(name) in Names(Effect(before, grants, name, rival)) <==>
            if before.None? && grants && rival.Some? then Account(name) in rival.value
            else grants && (Account(name) in Names(before) || !Includes(Names(before), name))
  {
    hide Others;
    AccountNotAmongOthers(Names(before), name);
    NobodyIncluded(name);
    AccountHasItsName(Names(before), name);
  }

  lemma AccountHasItsName(a: seq<Subject>, name: string)
    ensures Account(name) in a ==> Includes(a, name)
  {
  }

  /** The account is a subject after a successful pass exactly if the policies grant access and it was a
      subject before or no subject bore its name: a namesake of another kind or namespace keeps it out.
      After a lost race it is one exactly if the rival listed it. */
  lemma AccountIsSubjectIff(b: Bindings, q: Request, namespaces: seq<string>, answers: seq<Answers>, i: nat)
    requires |answers| == |namespaces| && Distinct(namespaces) && i < |namespaces|
    requires VisitAll(b, q, namespaces, answers).error.None? && namespaces[i] != DEFAULT_NAMESPACE
    ensures var ref, account := RefOf(namespaces[i], q.instanceId), Account(q.AccountName());
            var before, after := Names(Get(b, ref)), Names(Get(VisitAll(b, q, namespaces, answers).bindings, ref));
            account in after <==>
            if LostRace(b, q, namespaces[i], answers[i]) then account in answers[i].rival.value
            else q.Grants(namespaces[i]) && (account in before || !Includes(before, q.AccountName()))
  {
    hide HasAccess, UserServiceAccountName, RoleBindingName, VisitAll, Includes, Effect;
    var ref := RefOf(namespaces[i], q.instanceId);
    PassEffect(b, q, namespaces, answers, ref);
    EffectAccount(Get(b, ref), q.Grants(namespaces[i]), q.AccountName(), answers[i].rival);
  }

  /** After two successful passes: what counts is whom the first pass met, be it in the role binding or
      in that of the rival. */
  lemma AccountIsSubjectAfterTwoIff(b: Bindings, q: Request, namespaces: seq<string>, answers: seq<Answers>, again: seq<Answers>, i: nat)
    requires |answers| == |namespaces| == |again| && Distinct(namespaces) && i < |namespaces|
    requires namespaces[i] != DEFAULT_NAMESPACE
    requires var r := VisitAll(b, q, namespaces, answers);
             r.error.None? && VisitAll(r.bindings, q, namespaces, again).error.None?
    ensures var r, ref, account := VisitAll(b, q, namespaces, answers).bindings, RefOf(namespaces[i], q.instanceId), Account(q.AccountName());
            var met := if LostRace(b, q, namespaces[i], answers[i]) then answers[i].rival.value else Names(Get(b, ref));
            account in Names(Get(VisitAll(r, q, namespaces, again).bindings, ref)) <==>
            q.Grants(namespaces[i]) && (account in met || !Includes(met, q.AccountName()))
  {
    hide HasAccess, UserServiceAccountName, RoleBindingName, VisitAll, Includes, Effect;
    var r, ref := VisitAll(b, q, namespaces, answers).bindings, RefOf(namespaces[i], q.instanceId);
    AccountIsSubjectIff(r, q, namespaces, again, i);
    AccountIsSubjectIff(b, q, namespaces, answers, i);
    PassEffect(b, q, namespaces, answers, ref);
    GrantedIsBound(Get(b, ref), q.AccountName(), answers[i].rival);
    AccessIffGranted(b, q, namespaces, answers, i);
    LostRaceIsRival(Get(b, ref), q.AccountName(), answers[i].rival);
    if q.Grants(namespaces[i]) && !LostRace(b, q, namespaces[i], answers[i]) {
      AccountHasItsName(Names(Get(b, ref)), q.AccountName());
    }
  }

  lemma LostRaceIsRival(before: Option<seq<Subject>>, name: string, rival: Option<seq<Subject>>)
    ensures before.None? && rival.Some? ==> Effect(before, true, name, rival) == rival
  {
  }

  lemma GrantedIsBound(before: Option<seq<Subject>>, name: string, rival: Option<seq<Subject>>)
    ensures Effect(before, true, name, rival).Some?
  {
  }

  /** All subjects but one, in order. */
  function Except(subjects: seq<Subject>, s: Subject): seq<Subject> {
    if subjects == [] then []
    else
      var last := subjects[|subjects| - 1];
      Except(subjects[..|subjects| - 1], s) + if last == s then [] else [last]
  }

  /** Someone else bears the account's name. */
  predicate Namesake(subjects: seq<Subject>, name: string) {
    exists i | 0 <= i < |subjects| :: subjects[i].name == name && subjects[i] != Account(name)
  }

  lemma ExceptSnoc(a: seq<Subject>, last: Subject, s: Subject)
    ensures Except(a + [last], s) == if last == s then Except(a, s) else Except(a, s) + [last]
  {
    assert (a + [last])[..|a|] == a;
  }

  lemma NamesakeSnoc(a: seq<Subject>, s: Subject, name: string)
    ensures Namesake(a + [s], name) <==> Namesake(a, name) || (s.name == name && s != Account(name))
  {
    var all := a + [s];
    if Namesake(a, name) {
      var i :| 0 <= i < |a| && a[i].name == name && a[i] != Account(name);
      assert all[i] == a[i];
    }
    assert all[|a|] == s;
  }

  /** Removing the name removes the account only exactly if there is no namesake; with one, subjects
      are lost. */
  lemma {:induction false} OthersExcept(a: seq<Subject>, name: string)
    ensures |Except(Others(a, name), Account(name))| <= |Except(a, Account(name))|
    ensures Except(Others(a, name), Account(name)) == Except(a, Account(name)) <==> !Namesake(a, name)
  {
    if a != [] {
      hide Others, Except, Namesake;
      var front, last := a[..|a| - 1], a[|a| - 1];
      assert a == front + [last];
      OthersExcept(front, name);
      OthersSnoc(front, last, name);
      ExceptSnoc(front, last, Account(name));
      NamesakeSnoc(front, last, name);
      if last.name == name && last != Account(name) {
        assert |Except(a, Account(name))| > |Except(Others(a, name), Account(name))|;
      } else if last.name != name {
        ExceptSnoc(Others(front, name), last, Account(name));
        SnocSame(Except(Others(front, name), Account(name)), Except(front, Account(name)), last);
      }
    }
  }

  lemma SnocSame(a: seq<Subject>, b: seq<Subject>, s: Subject)
    ensures a + [s] == b + [s] <==> a == b
  {
    if a + [s] == b + [s] {
      assert a == (a + [s])[..|a|] && b == (b + [s])[..|b|];
      assert |a + [s]| == |b + [s]|;
    }
  }

  /** In a role binding of a listed namespace, every subject but the account stays, in order, exactly if
      access is granted or no other subject bears the account's name. */
  lemma OtherSubjectsStayIff(b: Bindings, q: Request, namespaces: seq<string>, answers: seq<Answers>, i: nat)
    requires |answers| == |namespaces| && Distinct(namespaces) && i < |namespaces|
    requires VisitAll(b, q, namespaces, answers).error.None? && namespaces[i] != DEFAULT_NAMESPACE
    requires RefOf(namespaces[i], q.instanceId) in b
    ensures var ref, account := RefOf(namespaces[i], q.instanceId), Account(q.AccountName());
            var r := VisitAll(b, q, namespaces, answers).bindings;
            && ref in r
            && (Except(r[ref], account) == Except(b[ref], account) <==>
                q.Grants(namespaces[i]) || !Namesake(b[ref], q.AccountName()))
  {
    hide HasAccess, UserServiceAccountName, RoleBindingName, VisitAll, Includes, Others, Except, Namesake;
    var ref, name := RefOf(namespaces[i], q.instanceId), q.AccountName();
    PassEffect(b, q, namespaces, answers, ref);
    OthersExcept(b[ref], name);
    ExceptSnoc(b[ref], Account(name), Account(name));
  }

  /** A namesake keeps a granted account out, and is removed with an account that is not granted. */
  lemma NamesakesConfused(name: string)
    ensures Effect(Some([Subject("User", name, "")]), true, name, None) == Some([Subject("User", name, "")])
    ensures Effect(Some([Subject("ServiceAccount", name, "team-a")]), false, name, None) == Some([])
  {
    hide Others;
    assert [Subject("User", name, "")][0].name == name;
    OthersSnoc([], Subject("ServiceAccount", name, "team-a"), name);
    NobodyIncluded(name);
    assert [] + [Subject("ServiceAccount", name, "team-a")] == [Subject("ServiceAccount", name, "team-a")];
  }

  ghost predicate NoLostRace(b: Bindings, q: Request, namespaces: seq<string>, answers: seq<Answers>)
    requires |answers| == |namespaces|
  {
    forall i | 0 <= i < |namespaces| :: namespaces[i] != DEFAULT_NAMESPACE ==> !LostRace(b, q, namespaces[i], answers[i])
  }

  /** What a pass without lost races leaves for a role binding. */
  function Settled(b: Bindings, q: Request, namespaces: seq<string>, ref: Ref): Option<seq<Subject>> {
    if Managed(q, namespaces, ref) then Effect(Get(b, ref), q.Grants(ref.namespace), q.AccountName(), None)
    else Get(b, ref)
  }

  lemma PassSettles(b: Bindings, q: Request, namespaces: seq<string>, answers: seq<Answers>, ref: Ref)
    requires |answers| == |namespaces| && Distinct(namespaces)
    requires VisitAll(b, q, namespaces, answers).error.None? && NoLostRace(b, q, namespaces, answers)
    ensures Get(VisitAll(b, q, namespaces, answers).bindings, ref) == Settled(b, q, namespaces, ref)
  {
    hide HasAccess, UserServiceAccountName, RoleBindingName, VisitAll, Includes, Others;
    PassEffect(b, q, namespaces, answers, ref);
    if Managed(q, namespaces, ref) {
      IndexOfManaged(q, namespaces, ref);
      var i :| 0 <= i < |namespaces| && namespaces[i] == ref.namespace;
      assert !LostRace(b, q, namespaces[i], answers[i]);
    }
  }

  /** Nothing is left to do for this namespace. */
  predicate Done(b: Bindings, q: Request, namespace: string) {
    namespace != DEFAULT_NAMESPACE ==>
      var before := Get(b, RefOf(namespace, q.instanceId));
      Effect(before, q.Grants(namespace), q.AccountName(), None) == before
  }

  lemma VisitDone(b: Bindings, q: Request, namespace: string, a: Answers)
    requires Done(b, q, namespace)
    ensures Visit(b, q, namespace, a).bindings == b
  {
    hide HasAccess, UserServiceAccountName, RoleBindingName, Others;
    var ref, name := RefOf(namespace, q.instanceId), q.AccountName();
    if ref in b {
      assert b[ref := b[ref]] == b;
    }
  }

  lemma {:induction false} PassDone(b: Bindings, q: Request, namespaces: seq<string>, answers: seq<Answers>)
    requires |answers| == |namespaces| && forall i | 0 <= i < |namespaces| :: Done(b, q, namespaces[i])
    ensures VisitAll(b, q, namespaces, answers).bindings == b
    decreases |namespaces|
  {
    if namespaces != [] {
      hide Visit, Done;
      assert Done(b, q, namespaces[0]);
      VisitDone(b, q, namespaces[0], answers[0]);
      PassDone(b, q, namespaces[1..], answers[1..]);
    }
  }

  /** A second pass changes nothing, whatever the server answers to it. */
  lemma SecondPassIsIdle(b: Bindings, q: Request, namespaces: seq<string>, answers: seq<Answers>, again: seq<Answers>)
    requires |answers| == |namespaces| == |again| && Distinct(namespaces)
    requires VisitAll(b, q, namespaces, answers).error.None? && NoLostRace(b, q, namespaces, answers)
    ensures var r := VisitAll(b, q, namespaces, answers).bindings;
            VisitAll(r, q, namespaces, again).bindings == r
  {
    hide HasAccess, UserServiceAccountName, RoleBindingName, VisitAll, Others, Includes;
    var r, name := VisitAll(b, q, namespaces, answers).bindings, q.AccountName();
    forall i | 0 <= i < |namespaces|
      ensures Done(r, q, namespaces[i])
    {
      var ref := RefOf(namespaces[i], q.instanceId);
      PassSettles(b, q, namespaces, answers, ref);
      var before := Names(Get(b, ref));
      OthersFacts(before, name);
      NobodyIncluded(name);
    }
    PassDone(r, q, namespaces, again);
  }

  /** What a role binding is after a second pass, given what it was after the first: a lost race is
      made up for by adding the account iff the rival left it out, and nothing else changes. */
  lemma SecondPassRepairs(b: Bindings, q: Request, namespaces: seq<string>, answers: seq<Answers>, again: seq<Answers>, i: nat)
    requires |answers| == |namespaces| == |again| && Distinct(namespaces) && i < |namespaces|
    requires namespaces[i] != DEFAULT_NAMESPACE
    requires var r := VisitAll(b, q, namespaces, answers);
             r.error.None? && VisitAll(r.bindings, q, namespaces, again).error.None?
    ensures var r, ref := VisitAll(b, q, namespaces, answers).bindings, RefOf(namespaces[i], q.instanceId);
            Get(VisitAll(r, q, namespaces, again).bindings, ref) ==
            if LostRace(b, q, namespaces[i], answers[i]) && !Includes(answers[i].rival.value, q.AccountName())
            then Some(answers[i].rival.value + [Account(q.AccountName())])
            else Get(r, ref)
  {
    hide HasAccess, UserServiceAccountName, RoleBindingName, VisitAll, Includes, Others;
    var r, name := VisitAll(b, q, namespaces, answers).bindings, q.AccountName();
    var ref := RefOf(namespaces[i], q.instanceId);
    PassEffect(b, q, namespaces, answers, ref);
    PassEffect(r, q, namespaces, again, ref);
    OthersFacts(Names(Get(b, ref)), name);
    NobodyIncluded(name);
  }

  /** After a second pass a subject of the account's name is there iff granted, lost races in the first
      or not. */
  lemma SecondPassGivesAccess(b: Bindings, q: Request, namespaces: seq<string>, answers: seq<Answers>, again: seq<Answers>, i: nat)
    requires |answers| == |namespaces| == |again| && Distinct(namespaces) && i < |namespaces|
    requires namespaces[i] != DEFAULT_NAMESPACE
    requires var r := VisitAll(b, q, namespaces, answers);
             r.error.None? && VisitAll(r.bindings, q, namespaces, again).error.None?
    ensures var r, ref := VisitAll(b, q, namespaces, answers).bindings, RefOf(namespaces[i], q.instanceId);
            Includes(Names(Get(VisitAll(r, q, namespaces, again).bindings, ref)), q.AccountName()) <==> q.Grants(namespaces[i])
  {
    hide HasAccess, UserServiceAccountName, RoleBindingName, VisitAll, Includes, Others, Effect;
    var r, ref := VisitAll(b, q, namespaces, answers).bindings, RefOf(namespaces[i], q.instanceId);
    AccessIffGranted(r, q, namespaces, again, i);
    PassEffect(b, q, namespaces, answers, ref);
    GrantedIsBound(Get(b, ref), q.AccountName(), answers[i].rival);
  }

  // ---- Two users

  /** The same bindings up to the order of subjects. */
  predicate SameUpToOrder(a: Option<seq<Subject>>, b: Option<seq<Subject>>) {
    a.Some? == b.Some? && multiset(Names(a)) == multiset(Names(b))
  }

  lemma {:induction false} OthersCommute(a: seq<Subject>, x: string, y: string)
    ensures Others(Others(a, x), y) == Others(Others(a, y), x)
  {
    if a != [] {
      hide Others;
      var front, last := a[..|a| - 1], a[|a| - 1];
      assert a == front + [last];
      OthersCommute(front, x, y);
      OthersSnoc(front, last, x);
      OthersSnoc(front, last, y);
      OthersSnoc(Others(front, x), last, y);
      OthersSnoc(Others(front, y), last, x);
    }
  }

  /** The effects of two different accounts on one binding commute up to order. */
  lemma EffectsCommute(before: Option<seq<Subject>>, x: string, gx: bool, y: string, gy: bool)
    requires x != y
    ensures SameUpToOrder(Effect(Effect(before, gx, x, None), gy, y, None), Effect(Effect(before, gy, y, None), gx, x, None))
  {
    hide Others, Includes;
    var a, s, t := Names(before), Account(x), Account(y);
    OthersCommute(a, x, y);
    OthersIncludes(a, x, y);
    OthersIncludes(a, y, x);
    OthersSnoc(a, s, y);
    OthersSnoc(a, t, x);
    IncludesSnoc(a, s, y);
    IncludesSnoc(a, t, x);
    Fresh(s, y);
    Fresh(t, x);
    assert multiset(a + [s] + [t]) == multiset(a + [t] + [s]);
    assert multiset([s] + [t]) == multiset([t] + [s]);
  }

  lemma Fresh(s: Subject, name: string)
    requires s.name != name
    ensures Others([s], name) == [s] && !Includes([s], name)
  {
    NobodyIncluded(name);
    OthersSnoc([], s, name);
    assert [] + [s] == [s];
  }

  /** Passes for two different users of one instance commute up to the order of subjects. */
  lemma UsersCommute(b: Bindings, p: Request, q: Request, namespaces: seq<string>,
      a1: seq<Answers>, a2: seq<Answers>, a3: seq<Answers>, a4: seq<Answers>, ref: Ref)
    requires p.instanceId == q.instanceId && p.userId != q.userId && Distinct(namespaces)
    requires |namespaces| == |a1| == |a2| == |a3| == |a4|
    requires var r := VisitAll(b, p, namespaces, a1);
             && r.error.None? && NoLostRace(b, p, namespaces, a1)
             && VisitAll(r.bindings, q, namespaces, a2).error.None? && NoLostRace(r.bindings, q, namespaces, a2)
    requires var r := VisitAll(b, q, namespaces, a3);
             && r.error.None? && NoLostRace(b, q, namespaces, a3)
             && VisitAll(r.bindings, p, namespaces, a4).error.None? && NoLostRace(r.bindings, p, namespaces, a4)
    ensures SameUpToOrder(Get(VisitAll(VisitAll(b, p, namespaces, a1).bindings, q, namespaces, a2).bindings, ref),
                          Get(VisitAll(VisitAll(b, q, namespaces, a3).bindings, p, namespaces, a4).bindings, ref))
  {
    hide HasAccess, UserServiceAccountName, RoleBindingName, VisitAll, NoLostRace, Effect, Get;
    NamesInjective(p.instanceId, p.userId, q.userId, "", "");
    var r, s := VisitAll(b, p, namespaces, a1).bindings, VisitAll(b, q, namespaces, a3).bindings;
    PassSettles(b, p, namespaces, a1, ref);
    PassSettles(r, q, namespaces, a2, ref);
    PassSettles(b, q, namespaces, a3, ref);
    PassSettles(s, p, namespaces, a4, ref);
    EffectsCommute(Get(b, ref), p.AccountName(), p.Grants(ref.namespace), q.AccountName(), q.Grants(ref.namespace));
  }

  // ---- The same, spelled out over the config map and the role bindings

  /** The config map has an entry for the namespace that names the user or one of the teams. */
  ghost predicate Granted(q: Request, namespace: string) {
    && namespace in q.policies
    && (q.userId in q.policies[namespace].users || exists t :: t in q.teamIds && t in q.policies[namespace].teams)
  }

  lemma GrantsIff(q: Request, namespace: string)
    ensures q.Grants(namespace) <==> Granted(q, namespace)
  {
    if namespace in q.policies {
      HasAccessIff(q.userId, q.teamIds, q.policies[namespace]);
    }
  }

  /** The role binding and the service account by the names they have in the cluster. */
  function BindingIn(q: Request, namespace: string): Ref {
    Ref(namespace, "portainer-rb-" + q.instanceId + "-" + namespace)
  }

  function AccountOf(q: Request): Subject {
    Subject("ServiceAccount", "portainer-sa-user-" + q.instanceId + "-" + FormatInt(q.userId), "portainer")
  }

  lemma ClusterNamesAre(q: Request, namespace: string)
    ensures RefOf(namespace, q.instanceId) == BindingIn(q, namespace)
    ensures Account(q.AccountName()) == AccountOf(q)
  {
    hide FormatInt;
    RoleBindingNameParts(namespace, q.instanceId);
    AccountNameParts(q.userId, q.instanceId);
    assert "portainer-rb-" + q.instanceId + "-" + namespace == "portainer-rb-" + (q.instanceId + "-" + namespace);
    assert "portainer-sa-user-" + q.instanceId + "-" + FormatInt(q.userId) ==
           "portainer-sa-user-" + (q.instanceId + "-" + FormatInt(q.userId));
  }

  lemma NameIsFree(a: seq<Subject>, name: string)
    ensures !Includes(a, name) <==> forall s :: s in a ==> s.name != name
  {
    if Includes(a, name) {
      var i :| 0 <= i < |a| && a[i].name == name;
      assert a[i] in a;
    }
  }

  /** AccountIsSubjectIff, with nothing left to look up. */
  lemma AccountIffGranted(b: Bindings, q: Request, namespaces: seq<string>, answers: seq<Answers>, i: nat)
    requires |answers| == |namespaces| && Distinct(namespaces) && i < |namespaces|
    requires VisitAll(b, q, namespaces, answers).error.None? && namespaces[i] != "default"
    ensures var n := namespaces[i]; var ref, account, r := BindingIn(q, n), AccountOf(q), VisitAll(b, q, namespaces, answers).bindings;
            (ref in r && account in r[ref]) <==>
            && Granted(q, n)
            && if ref in b then account in b[ref] || forall s :: s in b[ref] ==> s.name != account.name
               else answers[i].rival.Some? ==> account in answers[i].rival.value
  {
    hide HasAccess, UserServiceAccountName, RoleBindingName, VisitAll, Includes, FormatInt;
    var n := namespaces[i];
    GrantsIff(q, n);
    ClusterNamesAre(q, n);
    AccountIsSubjectIff(b, q, namespaces, answers, i);
    if BindingIn(q, n) in b {
      NameIsFree(b[BindingIn(q, n)], q.AccountName());
    } else {
      NobodyIncluded(q.AccountName());
    }
  }

  /** OtherSubjectsStayIff, likewise. */
  lemma OthersStayIffGranted(b: Bindings, q: Request, namespaces: seq<string>, answers: seq<Answers>, i: nat)
    requires |answers| == |namespaces| && Distinct(namespaces) && i < |namespaces|
    requires VisitAll(b, q, namespaces, answers).error.None? && namespaces[i] != "default"
    requires BindingIn(q, namespaces[i]) in b
    ensures var ref, account, r := BindingIn(q, namespaces[i]), AccountOf(q), VisitAll(b, q, namespaces, answers).bindings;
            var others := (s: Subject) => s != account;
            && ref in r
            && (Filter(others, r[ref]) == Filter(others, b[ref]) <==>
                Granted(q, namespaces[i]) || forall s :: s in b[ref] ==> s == account || s.name != account.name)
  {
    hide HasAccess, UserServiceAccountName, RoleBindingName, VisitAll, Includes, FormatInt, Except, Namesake;
    var n, ref := namespaces[i], BindingIn(q, namespaces[i]);
    GrantsIff(q, n);
    ClusterNamesAre(q, n);
    OtherSubjectsStayIff(b, q, namespaces, answers, i);
    ExceptIsFilter(b[ref], AccountOf(q));
    ExceptIsFilter(VisitAll(b, q, namespaces, answers).bindings[ref], AccountOf(q));
    NamesakeIff(b[ref], q.AccountName());
  }

  lemma {:induction false} ExceptIsFilter(a: seq<Subject>, s: Subject)
    ensures Except(a, s) == Filter((x: Subject) => x != s, a)
  {
    if a != [] {
      ExceptIsFilter(a[..|a| - 1], s);
    }
  }

  lemma NamesakeIff(a: seq<Subject>, name: string)
    ensures !Namesake(a, name) <==> forall s :: s in a ==> s == Account(name) || s.name != name
  {
    if Namesake(a, name) {
      var i :| 0 <= i < |a| && a[i].name == name && a[i] != Account(name);
      assert a[i] in a;
    }
  }

  /** Without access, exactly the subjects of the account's name are removed. */
  lemma {:induction false} OthersIsFilter(a: seq<Subject>, name: string)
    ensures Others(a, name) == Filter((s: Subject) => s.name != name, a)
  {
    if a != [] {
      OthersIsFilter(a[..|a| - 1], name);
    }
  }

  /** The role binding of a listed namespace after a successful pass, in full. */
  lemma BindingAfterPass(b: Bindings, q: Request, namespaces: seq<string>, answers: seq<Answers>, i: nat)
    requires |answers| == |namespaces| && Distinct(namespaces) && i < |namespaces|
    requires VisitAll(b, q, namespaces, answers).error.None? && namespaces[i] != "default"
    ensures var n := namespaces[i]; var ref, account, r := BindingIn(q, n), AccountOf(q), VisitAll(b, q, namespaces, answers).bindings;
            if ref !in b then
              if !Granted(q, n) then ref !in r
              else ref in r && r[ref] == if answers[i].rival.Some? then answers[i].rival.value else [account]
            else
              ref in r && r[ref] ==
                if !Granted(q, n) then Filter((s: Subject) => s.name != account.name, b[ref])
                else if exists s :: s in b[ref] && s.name == account.name then b[ref]
                else b[ref] + [account]
  {
    hide HasAccess, UserServiceAccountName, RoleBindingName, VisitAll, Includes, FormatInt, Others, Granted;
    var n, ref := namespaces[i], BindingIn(q, namespaces[i]);
    GrantsIff(q, n);
    ClusterNamesAre(q, n);
    PassEffect(b, q, namespaces, answers, ref);
    if ref in b {
      NameIsFree(b[ref], q.AccountName());
      OthersIsFilter(b[ref], q.AccountName());
    }
  }

  // ---- Failing passes

  /** The visit of this namespace fails: a read fails, or a write that is called for. */
  ghost predicate Fails(b: Bindings, q: Request, namespace: string, a: Answers) {
    var ref, name := BindingIn(q, namespace), AccountOf(q).name;
    && namespace != "default"
    && (|| a.readFails
        || (a.writeFails &&
            if ref !in b then Granted(q, namespace) && a.rival.None?
            else Granted(q, namespace) ==> forall s :: s in b[ref] ==> s.name != name))
  }

  lemma VisitFailsIff(b: Bindings, q: Request, namespace: string, a: Answers)
    ensures Visit(b, q, namespace, a).error == if Fails(b, q, namespace, a) then Some(Failed) else None
    ensures Fails(b, q, namespace, a) ==> Visit(b, q, namespace, a).bindings == b
  {
    hide HasAccess, UserServiceAccountName, RoleBindingName, Includes, FormatInt, Others;
    GrantsIff(q, namespace);
    ClusterNamesAre(q, namespace);
    if BindingIn(q, namespace) in b {
      NameIsFree(b[BindingIn(q, namespace)], q.AccountName());
    }
  }

  lemma FailsElsewhere(b: Bindings, q: Request, visited: string, a: Answers, namespace: string, a': Answers)
    requires visited != namespace && Visit(b, q, visited, a).error.None?
    ensures Fails(Visit(b, q, visited, a).bindings, q, namespace, a') <==> Fails(b, q, namespace, a')
  {
    hide HasAccess, UserServiceAccountName, RoleBindingName, Effect, FormatInt, Visit, Granted;
    VisitEffect(b, q, visited, a, BindingIn(q, namespace));
  }

  lemma {:induction false} PassSucceeds(b: Bindings, q: Request, namespaces: seq<string>, answers: seq<Answers>)
    requires |answers| == |namespaces| && Distinct(namespaces)
    requires forall i | 0 <= i < |namespaces| :: !Fails(b, q, namespaces[i], answers[i])
    ensures VisitAll(b, q, namespaces, answers).error.None?
    decreases |namespaces|
  {
    if namespaces != [] {
      hide Visit, Fails;
      var r := Visit(b, q, namespaces[0], answers[0]);
      VisitFailsIff(b, q, namespaces[0], answers[0]);
      forall i | 0 <= i < |namespaces| - 1
        ensures !Fails(r.bindings, q, namespaces[1..][i], answers[1..][i])
      {
        assert !Fails(b, q, namespaces[i + 1], answers[i + 1]);
        FailsElsewhere(b, q, namespaces[0], answers[0], namespaces[i + 1], answers[i + 1]);
      }
      PassSucceeds(r.bindings, q, namespaces[1..], answers[1..]);
    }
  }

  /** The first visit that fails ends the pass with its error; the role bindings are as the visits
      before it left them. */
  lemma {:induction false} PassFailsAt(b: Bindings, q: Request, namespaces: seq<string>, answers: seq<Answers>, i: nat)
    requires |answers| == |namespaces| && Distinct(namespaces) && i < |namespaces|
    requires Fails(b, q, namespaces[i], answers[i])
    requires forall j | 0 <= j < i :: !Fails(b, q, namespaces[j], answers[j])
    ensures VisitAll(b, q, namespaces[..i], answers[..i]).error.None?
    ensures VisitAll(b, q, namespaces, answers) == Outcome(VisitAll(b, q, namespaces[..i], answers[..i]).bindings, Some(Failed))
    decreases i
  {
    hide Visit, Fails;
    var r := Visit(b, q, namespaces[0], answers[0]);
    VisitFailsIff(b, q, namespaces[0], answers[0]);
    if i > 0 {
      assert !Fails(b, q, namespaces[0], answers[0]);
      forall j | 0 <= j < i
        ensures Fails(r.bindings, q, namespaces[1..][j], answers[1..][j]) <==> Fails(b, q, namespaces[j + 1], answers[j + 1])
      {
        FailsElsewhere(b, q, namespaces[0], answers[0], namespaces[j + 1], answers[j + 1]);
      }
      PassFailsAt(r.bindings, q, namespaces[1..], answers[1..], i - 1);
      assert namespaces[..i][1..] == namespaces[1..][..i - 1] && answers[..i][1..] == answers[1..][..i - 1];
    }
  }

  /** A pass succeeds iff no visit fails. */
  lemma PassSucceedsIff(b: Bindings, q: Request, namespaces: seq<string>, answers: seq<Answers>)
    requires |answers| == |namespaces| && Distinct(namespaces)
    ensures VisitAll(b, q, namespaces, answers).error.None? <==>
              forall i | 0 <= i < |namespaces| :: !Fails(b, q, namespaces[i], answers[i])
  {
    hide Visit, Fails, VisitAll;
    if forall i | 0 <= i < |namespaces| :: !Fails(b, q, namespaces[i], answers[i]) {
      PassSucceeds(b, q, namespaces, answers);
    } else {
      var i := FirstFailing(b, q, namespaces, answers, 0);
      PassFailsAt(b, q, namespaces, answers, i);
    }
  }

  lemma FirstFailing(b: Bindings, q: Request, namespaces: seq<string>, answers: seq<Answers>, from: nat) returns (i: nat)
    requires |answers| == |namespaces| && from <= |namespaces|
    requires forall j | 0 <= j < from :: !Fails(b, q, namespaces[j], answers[j])
    requires exists j | 0 <= j < |namespaces| :: Fails(b, q, namespaces[j], answers[j])
    ensures i < |namespaces| && Fails(b, q, namespaces[i], answers[i])
    ensures forall j | 0 <= j < i :: !Fails(b, q, namespaces[j], answers[j])
    decreases |namespaces| - from
  {
    hide Fails;
    if Fails(b, q, namespaces[from], answers[from]) {
      i := from;
    } else {
      i := FirstFailing(b, q, namespaces, answers, from + 1);
    }
  }
}
