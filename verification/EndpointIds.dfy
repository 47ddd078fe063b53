/** Identifiers of stored endpoints over whole runs (api/bolt/endpoint/endpoint.go). */
module EndpointIds {
  import opened BoltKeys
  import opened EndpointStore

  /** A stored key stands for an identifier that was handed out, and its record carries it. */
  ghost predicate Sound(k: Key, s: Store) {
    && IsKey(k)
    && k in s.records
    && 1 <= IdOf(k) <= s.sequence
    && s.records[k].id == IdOf(k)
  }

  ghost predicate Bounded(s: Store) {
    forall k | k in s.records :: Sound(k, s)
  }

  // ---- Listing

  lemma CursorOrderIsIdOrder(a: Key, b: Key)
    requires IsKey(a) && IsKey(b) && IdOf(a) >= 0 && IdOf(b) >= 0
    ensures Before(a, b) <==> IdOf(a) < IdOf(b)
  {
    KeyOfId(a);
    KeyOfId(b);
    KeyOrder(IdOf(a), IdOf(b));
  }

  /** Endpoints are listed in ascending order of their identifiers, each record once. */
  lemma ListedAscending(s: Store, endpoints: seq<Endpoint>)
    requires Bounded(s) && ListedInOrder(endpoints, s.records)
    ensures forall i, j | 0 <= i < j < |endpoints| :: endpoints[i].id < endpoints[j].id
    ensures forall e :: e in endpoints <==> exists k :: k in s.records && s.records[k] == e
  {
    hide IdOf, IsKey, Before;
    var keys :| InCursorOrder(keys, s.records) && endpoints == RecordsAt(keys, s.records);
    forall i, j | 0 <= i < j < |endpoints|
      ensures endpoints[i].id < endpoints[j].id
    {
      assert Sound(keys[i], s) && Sound(keys[j], s);
      CursorOrderIsIdOrder(keys[i], keys[j]);
    }
    forall e | exists k :: k in s.records && s.records[k] == e
      ensures e in endpoints
    {
      var k :| k in s.records && s.records[k] == e;
      assert k in keys;
      var i :| 0 <= i < |keys| && keys[i] == k;
      assert endpoints[i] == e;
    }
  }

  // ---- Runs

  datatype Op =
    | NextId
    | Abandon(id: Id)
    | Create(e: Endpoint)
    | Update(e: Endpoint)
    | Delete(id: Id)
    | Synchronize(toCreate: seq<Endpoint>, toUpdate: seq<Endpoint>, toDelete: seq<Endpoint>)

  /** The store, and what its callers did: the identifiers they hold and have neither used nor given
      up, each as often as it is held, and in order those handed out and those created under. */
  datatype Session = Session(store: Store, outstanding: multiset<int>, issued: seq<int>, created: seq<int>)

  const START := Session(Store(map[], 0), multiset{}, [], [])

  /** The session when the endpoints to create have their identifiers. */
  ghost function Synchronizing(t: Session, endpoints: seq<Endpoint>): Session {
    var sequence, ids := Advanced(t.store.sequence, |endpoints|), IdsOf(Assigned(t.store.sequence, endpoints));
    Session(t.store.(sequence := sequence), t.outstanding, t.issued + ids, t.created + ids)
  }

  function IdsOf(endpoints: seq<Endpoint>): (ids: seq<int>)
    ensures |ids| == |endpoints|
  {
    seq(|endpoints|, i requires 0 <= i < |endpoints| => endpoints[i].id)
  }

  /** Callers create under an identifier they hold, whenever they get to it, and update under one
      that was created. */
  ghost predicate Allowed(t: Session, op: Op) {
    match op
    case NextId => t.store.sequence < MAX_ID
    case Abandon(id) => id in t.outstanding
    case Create(e) => e.id in t.outstanding
    case Update(e) => e.id in t.created
    case Delete(_) => true
    case Synchronize(toCreate, toUpdate, _) =>
      && t.store.sequence + |toCreate| <= MAX_ID
      && forall i | 0 <= i < |toUpdate| :: toUpdate[i].id in Synchronizing(t, toCreate).created
  }

  ghost function After(t: Session, op: Op): Session {
    match op
    case NextId =>
      var s := AfterNext(t.store);
      Session(s, t.outstanding + multiset{AsId(s.sequence)}, t.issued + [AsId(s.sequence)], t.created)
    case Abandon(id) => t.(outstanding := t.outstanding - multiset{id})
    case Create(e) => Session(AfterCreate(t.store, e), t.outstanding - multiset{e.id}, t.issued, t.created + [e.id])
    case Update(e) => t.(store := AfterUpdate(t.store, e.id, e))
    case Delete(id) => t.(store := AfterDelete(t.store, id))
    case Synchronize(c, u, d) => Synchronizing(t, c).(store := AfterSynchronize(t.store, c, u, d))
  }

  ghost function AfterAll(ops: seq<Op>): Session {
    if ops == [] then START else After(AfterAll(ops[..|ops| - 1]), ops[|ops| - 1])
  }

  ghost predicate Run(ops: seq<Op>) {
    ops == [] || (Run(ops[..|ops| - 1]) && Allowed(AfterAll(ops[..|ops| - 1]), ops[|ops| - 1]))
  }

  // ---- Handing out stored or held identifiers

  /** No stored and no outstanding identifier exceeds the sequence. */
  ghost predicate Covered(t: Session) {
    Bounded(t.store) && forall id | id in t.outstanding :: 1 <= id <= t.store.sequence
  }

  /** Then the next identifier is neither stored nor held by anyone. */
  lemma CoveredNextIsNew(t: Session)
    requires Covered(t) && t.store.sequence < MAX_ID
    ensures var next := AsId(AfterNext(t.store).sequence);
            KeyOf(next) !in t.store.records && next !in t.outstanding
  {
    hide KeyOf, Bounded;
    NextSequence(t.store);
    PendingIsNew(t.store, t.store.sequence + 1);
  }

  lemma NextSequence(s: Store)
    requires s.sequence < MAX_ID
    ensures AfterNext(s) == s.(sequence := s.sequence + 1) && AsId(s.sequence + 1) == s.sequence + 1
  {
  }

  /** A creation keeps the cover exactly if its identifier is at least every stored one and every
      outstanding one. */
  lemma CreateKeepsCoverIff(t: Session, e: Endpoint)
    requires Covered(t)
    ensures Covered(After(t, Create(e))) <==>
            && e.id >= 1
            && (forall k | k in t.store.records :: IdOf(k) <= e.id)
            && (forall id | id in t.outstanding :: id <= e.id)
  {
    hide Sound, IsKey, IdOf, KeyOf;
    CreateKeepsBoundIff(t.store, e);
    forall id | id in t.outstanding
      ensures id in After(t, Create(e)).outstanding || id == e.id
    {
    }
  }

  // ---- Handing out any identifier again

  predicate Ascends(ids: seq<int>) {
    forall i, j | 0 <= i < j < |ids| :: ids[i] < ids[j]
  }

  /** Held by one caller, and neither stored nor created under. */
  ghost predicate Waits(id: int, t: Session)
    requires t.store.sequence <= MAX_ID
  {
    t.outstanding[id] == 1 && 1 <= id <= t.store.sequence && KeyOf(id) !in t.store.records && id !in t.created
  }

  /** The sequence is the largest identifier ever handed out, no identifier was handed out or created
      under twice, and what callers hold is unused. */
  ghost predicate Inv(t: Session) {
    && t.store.sequence <= MAX_ID
    && Bounded(t.store)
    && Ascends(t.issued) && Ascends(t.created)
    && (if t.issued == [] then t.store.sequence == 0 else t.issued[|t.issued| - 1] == t.store.sequence)
    && (forall i | 0 <= i < |t.issued| :: 1 <= t.issued[i] <= t.store.sequence)
    && (forall i | 0 <= i < |t.created| :: 1 <= t.created[i] <= t.store.sequence)
    && (forall id | id in t.outstanding :: Waits(id, t))
  }

  lemma StillSound(k: Key, s: Store, s': Store)
    requires Sound(k, s) && k in s'.records && s'.records[k] == s.records[k] && s.sequence <= s'.sequence
    ensures Sound(k, s')
  {
  }

  lemma NewlySound(e: Endpoint, s: Store)
    requires 1 <= e.id <= s.sequence && KeyOf(e.id) in s.records && s.records[KeyOf(e.id)] == e
    ensures Sound(KeyOf(e.id), s)
  {
    IdOfKey(e.id);
  }

  /** Putting records with handed out identifiers keeps the bound; only their keys are touched. */
  lemma {:induction false} PutAllBounded(s: Store, endpoints: seq<Endpoint>)
    requires Bounded(s)
    requires forall i | 0 <= i < |endpoints| :: 1 <= endpoints[i].id <= s.sequence
    ensures Bounded(s.(records := PutAll(s.records, endpoints)))
    ensures forall k | k in PutAll(s.records, endpoints) ::
              k in s.records || exists i :: 0 <= i < |endpoints| && k == KeyOf(endpoints[i].id)
  {
    hide IsKey, IdOf, KeyOf, Sound;
    if endpoints != [] {
      var n := |endpoints| - 1;
      var front, e := endpoints[..n], endpoints[n];
      PutAllBounded(s, front);
      var s1, s2 := s.(records := PutAll(s.records, front)), s.(records := PutAll(s.records, endpoints));
      forall k | k in s2.records
        ensures Sound(k, s2)
        ensures k in s.records || exists i :: 0 <= i < |endpoints| && k == KeyOf(endpoints[i].id)
      {
        if k == KeyOf(e.id) {
          NewlySound(e, s2);
          assert k == KeyOf(endpoints[n].id);
        } else {
          StillSound(k, s1, s2);
          if k !in s.records {
            var i :| 0 <= i < |front| && k == KeyOf(front[i].id);
            assert k == KeyOf(endpoints[i].id);
          }
        }
      }
    }
  }

  lemma {:induction false} DeleteAllBounded(s: Store, endpoints: seq<Endpoint>)
    requires Bounded(s)
    ensures Bounded(s.(records := DeleteAll(s.records, endpoints)))
    ensures forall k | k in DeleteAll(s.records, endpoints) :: k in s.records
  {
    hide IsKey, IdOf, KeyOf, Sound;
    if endpoints != [] {
      var n := |endpoints| - 1;
      DeleteAllBounded(s, endpoints[..n]);
      var s1 := s.(records := DeleteAll(s.records, endpoints[..n]));
      var s2 := s.(records := DeleteAll(s.records, endpoints));
      forall k | k in s2.records
        ensures Sound(k, s2)
      {
        StillSound(k, s1, s2);
      }
    }
  }

  /** Identifiers handed out beyond the sequence are those that follow it. */
  lemma AssignedIds(sequence: Unsigned, endpoints: seq<Endpoint>)
    requires sequence + |endpoints| <= MAX_ID
    ensures Advanced(sequence, |endpoints|) == sequence + |endpoints|
    ensures forall i | 0 <= i < |endpoints| :: Assigned(sequence, endpoints)[i].id == sequence + i + 1
  {
  }

  lemma KeysDiffer(a: Id, b: Id)
    ensures KeyOf(a) == KeyOf(b) <==> a == b
  {
    IdOfKey(a);
    IdOfKey(b);
  }

  lemma SynchronizeKeepsBound(t: Session, c: seq<Endpoint>, u: seq<Endpoint>, d: seq<Endpoint>)
    requires Inv(t) && Allowed(t, Synchronize(c, u, d))
    ensures Bounded(AfterSynchronize(t.store, c, u, d))
    ensures forall id | id in t.outstanding :: KeyOf(id) !in AfterSynchronize(t.store, c, u, d).records
  {
    hide IsKey, IdOf, KeyOf, Sound, Assigned, Advanced, PutAll, DeleteAll;
    var s := t.store;
    var s0 := s.(sequence := Advanced(s.sequence, |c|));
    AssignedIds(s.sequence, c);
    forall k | k in s0.records
      ensures Sound(k, s0)
    {
      StillSound(k, s, s0);
    }
    var created := Assigned(s.sequence, c);
    PutAllBounded(s0, created);
    var s1 := s0.(records := PutAll(s0.records, created));
    CreatedOrNew(t, c, u);
    PutAllBounded(s1, u);
    DeleteAllBounded(s1.(records := PutAll(s1.records, u)), d);
    forall id | id in t.outstanding
      ensures KeyOf(id) !in AfterSynchronize(s, c, u, d).records
    {
      assert Waits(id, t);
      KeysAllDiffer(id, created);
      KeysAllDiffer(id, u);
    }
  }

  /** Updates go to identifiers that were created under before or just now, never to held ones. */
  lemma CreatedOrNew(t: Session, c: seq<Endpoint>, u: seq<Endpoint>)
    ensures Inv(t) && Allowed(t, Synchronize(c, u, [])) ==>
              && (forall i | 0 <= i < |u| :: 1 <= u[i].id <= t.store.sequence + |c|)
              && forall i, id | 0 <= i < |u| && id in t.outstanding :: u[i].id != id
  {
    hide Bounded, Assigned, Advanced;
    if !Inv(t) || !Allowed(t, Synchronize(c, u, [])) {
      return;
    }
    AssignedIds(t.store.sequence, c);
    var ids := IdsOf(Assigned(t.store.sequence, c));
    forall i | 0 <= i < |u|
      ensures 1 <= u[i].id <= t.store.sequence + |c|
      ensures u[i].id in t.created || u[i].id > t.store.sequence
    {
      var k :| 0 <= k < |t.created + ids| && (t.created + ids)[k] == u[i].id;
      if k >= |t.created| {
        assert ids[k - |t.created|] == u[i].id;
      }
    }
    forall i, id | 0 <= i < |u| && id in t.outstanding
      ensures u[i].id != id
    {
      assert Waits(id, t);
    }
  }

  lemma KeysAllDiffer(id: Id, endpoints: seq<Endpoint>)
    requires forall i | 0 <= i < |endpoints| :: endpoints[i].id != id
    ensures forall i | 0 <= i < |endpoints| :: KeyOf(endpoints[i].id) != KeyOf(id)
  {
    hide KeyOf;
    forall i | 0 <= i < |endpoints|
      ensures KeyOf(endpoints[i].id) != KeyOf(id)
    {
      KeysDiffer(endpoints[i].id, id);
    }
  }

  lemma SynchronizeKeepsInv(t: Session, c: seq<Endpoint>, u: seq<Endpoint>, d: seq<Endpoint>)
    requires Inv(t) && Allowed(t, Synchronize(c, u, d))
    ensures Inv(After(t, Synchronize(c, u, d)))
  {
    hide Bounded, KeyOf, PutAll, DeleteAll, Advanced, Assigned;
    SynchronizeKeepsBound(t, c, u, d);
    AssignedIds(t.store.sequence, c);
    forall id | id in t.outstanding
      ensures Waits(id, After(t, Synchronize(c, u, d)))
    {
      assert Waits(id, t);
    }
  }

  lemma NotHeldAbove(t: Session, id: int)
    requires Inv(t) && id > t.store.sequence
    ensures id !in t.outstanding
  {
  }

  lemma NextKeepsInv(t: Session)
    requires Inv(t) && Allowed(t, NextId)
    ensures Inv(After(t, NextId))
  {
    hide Sound, KeyOf;
    var t' := After(t, NextId);
    forall k | k in t'.store.records
      ensures Sound(k, t'.store)
    {
      StillSound(k, t.store, t'.store);
    }
    PendingIsNew(t.store, t.store.sequence + 1);
    NotHeldAbove(t, t.store.sequence + 1);
    forall id | id in t'.outstanding
      ensures Waits(id, t')
    {
      assert id != t'.store.sequence ==> Waits(id, t);
    }
  }

  /** Every call but a creation keeps the invariant; a creation does exactly if it is under the
      identifier handed out last. */
  lemma StepKeepsInvIff(t: Session, op: Op)
    requires Inv(t) && Allowed(t, op)
    ensures Inv(After(t, op)) <==> (op.Create? ==> op.e.id == t.store.sequence)
  {
    hide Sound, KeyOf, IdOf, IsKey, PutAll, DeleteAll, Assigned;
    var t' := After(t, op);
    match op
    case NextId =>
      NextKeepsInv(t);
    case Abandon(id) =>
      forall other | other in t'.outstanding
        ensures Waits(other, t')
      {
        assert Waits(other, t);
      }
    case Create(e) =>
      assert Waits(e.id, t);
      if e.id == t.store.sequence {
        LastCreateKeepsInv(t, e);
      }
    case Update(e) =>
      UpdateKeepsInv(t, e);
    case Delete(id) =>
      forall k | k in t'.store.records
        ensures Sound(k, t'.store)
      {
        StillSound(k, t.store, t'.store);
      }
      forall other | other in t'.outstanding
        ensures Waits(other, t')
      {
        assert Waits(other, t);
      }
    case Synchronize(c, u, d) =>
      SynchronizeKeepsInv(t, c, u, d);
  }

  lemma LastCreateKeepsInv(t: Session, e: Endpoint)
    requires Inv(t) && Allowed(t, Create(e)) && e.id == t.store.sequence
    ensures Inv(After(t, Create(e)))
  {
    hide Sound, KeyOf;
    var t' := After(t, Create(e));
    assert Waits(e.id, t);
    forall k | k in t'.store.records
      ensures Sound(k, t'.store)
    {
      if k == KeyOf(e.id) {
        NewlySound(e, t'.store);
      } else {
        StillSound(k, t.store, t'.store);
      }
    }
    forall id | id in t'.outstanding
      ensures Waits(id, t')
    {
      assert Waits(id, t);
      KeysDiffer(id, e.id);
    }
  }

  lemma UpdateKeepsInv(t: Session, e: Endpoint)
    requires Inv(t) && Allowed(t, Update(e))
    ensures Inv(After(t, Update(e)))
  {
    hide Sound, KeyOf;
    var t' := After(t, Update(e));
    forall k | k in t'.store.records
      ensures Sound(k, t'.store)
    {
      if k == KeyOf(e.id) {
        NewlySound(e, t'.store);
      } else {
        StillSound(k, t.store, t'.store);
      }
    }
    forall id | id in t'.outstanding
      ensures Waits(id, t')
    {
      assert Waits(id, t);
      KeysDiffer(id, e.id);
    }
  }

  /** No identifier beyond the sequence is stored. */
  lemma PendingIsNew(s: Store, id: Id)
    requires Bounded(s) && id > s.sequence
    ensures KeyOf(id) !in s.records
  {
    IdOfKey(id);
    assert KeyOf(id) in s.records ==> Sound(KeyOf(id), s);
  }

  // ---- Whole runs

  /** Every creation is under the identifier that was handed out last. */
  ghost predicate LastUsed(ops: seq<Op>) {
    ops == [] ||
    (var front, op := ops[..|ops| - 1], ops[|ops| - 1];
     LastUsed(front) && (op.Create? ==> op.e.id == AfterAll(front).store.sequence))
  }

  /** The invariant holds after every call of the run. */
  ghost predicate InvThroughout(ops: seq<Op>) {
    Inv(AfterAll(ops)) && (ops == [] || InvThroughout(ops[..|ops| - 1]))
  }

  /** Over a whole run identifiers are handed out once and creations overwrite nothing, for exactly
      the runs in which every creation is under the identifier handed out last. */
  lemma {:induction false} RunKeepsInvIff(ops: seq<Op>)
    requires Run(ops)
    ensures InvThroughout(ops) <==> LastUsed(ops)
  {
    hide Inv, After, Allowed;
    if ops == [] {
      StartInv();
    } else {
      var front, op := ops[..|ops| - 1], ops[|ops| - 1];
      RunKeepsInvIff(front);
      if InvThroughout(front) {
        StepKeepsInvIff(AfterAll(front), op);
      }
    }
  }

  lemma StartInv()
    ensures Inv(START)
  {
  }

  /** In such a run no identifier is handed out twice, and each creation gets a larger identifier than
      all before it, whatever was deleted. */
  lemma IdsNeverReused(ops: seq<Op>)
    requires Run(ops) && LastUsed(ops)
    ensures Ascends(AfterAll(ops).issued) && Ascends(AfterAll(ops).created)
  {
    RunKeepsInvIff(ops);
  }

  /** A creation that continues such a run adds a record, overwrites none and leaves the sequence alone. */
  lemma CreateAdds(ops: seq<Op>, e: Endpoint)
    requires Run(ops + [Create(e)]) && LastUsed(ops + [Create(e)])
    ensures var s := AfterAll(ops).store;
            && KeyOf(e.id) !in s.records
            && e.id !in AfterAll(ops).created
            && AfterAll(ops + [Create(e)]).store == s.(records := s.records[KeyOf(e.id) := e])
  {
    hide KeyOf;
    assert (ops + [Create(e)])[..|ops|] == ops;
    RunKeepsInvIff(ops);
    assert Waits(e.id, AfterAll(ops));
  }

  // ---- Creations with another identifier

  /** A creation keeps the stored identifiers below the sequence exactly if none of them exceeds its own. */
  lemma CreateKeepsBoundIff(s: Store, e: Endpoint)
    requires Bounded(s)
    ensures Bounded(AfterCreate(s, e)) <==> e.id >= 1 && forall k | k in s.records :: IdOf(k) <= e.id
  {
    hide IsKey;
    var s' := AfterCreate(s, e);
    IdOfKey(e.id);
    assert KeyOf(e.id) in s'.records;
    if Bounded(s') {
      assert Sound(KeyOf(e.id), s');
      forall k | k in s.records
        ensures IdOf(k) <= e.id
      {
        assert Sound(k, s');
      }
    }
    if e.id >= 1 && forall k | k in s.records :: IdOf(k) <= e.id {
      forall k | k in s'.records
        ensures Sound(k, s')
      {
        if k != KeyOf(e.id) {
          assert Sound(k, s);
        }
      }
    }
  }

  ghost function AfterNexts(s: Store, n: nat): Store {
    if n == 0 then s else AfterNext(AfterNexts(s, n - 1))
  }

  lemma {:induction false} NextsAdvance(s: Store, n: nat)
    requires s.sequence + n <= MAX_ID
    ensures AfterNexts(s, n) == s.(sequence := s.sequence + n)
  {
    if n > 0 {
      NextsAdvance(s, n - 1);
    }
  }

  /** After a creation, handing out alone never repeats one of the given identifiers exactly if none of
      them exceeds the one created under - be they the stored, the held or all identifiers. */
  lemma NeverAgainIff(s: Store, e: Endpoint, known: seq<int>)
    requires e.id >= 0 && forall i | 0 <= i < |known| :: known[i] <= MAX_ID
    ensures (forall n: nat | 1 <= n <= MAX_ID - e.id :: AfterNexts(AfterCreate(s, e), n).sequence !in known) <==>
            forall i | 0 <= i < |known| :: known[i] <= e.id
  {
    hide KeyOf, AfterNexts;
    var s' := AfterCreate(s, e);
    if forall i | 0 <= i < |known| :: known[i] <= e.id {
      forall n: nat | 1 <= n <= MAX_ID - e.id
        ensures AfterNexts(s', n).sequence !in known
      {
        NextsAdvance(s', n);
      }
    } else {
      var i :| 0 <= i < |known| && known[i] > e.id;
      HandedOutAgain(s', known, i);
      var n: nat := known[i] - e.id;
      assert 1 <= n <= MAX_ID - e.id;
    }
  }

  lemma HandedOutAgain(s: Store, known: seq<int>, i: nat)
    requires i < |known| && s.sequence < known[i] <= MAX_ID
    ensures AfterNexts(s, known[i] - s.sequence).sequence in known
  {
    NextsAdvance(s, known[i] - s.sequence);
  }

  /** Three requests whose creations finish in the order in which they began, none of them below a
      stored identifier: the second and the third still hold the same identifier, and the third
      replaces the record of the second. */
  lemma InOrderCreatesOverwrite(a: Endpoint, b: Endpoint, c: Endpoint)
    requires a.id == 1 && b.id == c.id == 2
    ensures var t2 := After(After(START, NextId), NextId);
            var t4 := After(After(t2, Create(a)), NextId);
            var t5 := After(t4, Create(b));
            && Allowed(t2, Create(a)) && Allowed(t4, Create(b)) && Allowed(t5, Create(c))
            && Bounded(t4.store) && Bounded(t5.store) && Bounded(After(t5, Create(c)).store)
            && KeyOf(2) in t5.store.records && t5.store.records[KeyOf(2)] == b
            && After(t5, Create(c)).store.records[KeyOf(2)] == c
  {
    hide *;
    TwoHeldIdentifiers(a);
    SecondAndThird(a, b, c);
  }

  lemma TwoHeldIdentifiers(a: Endpoint)
    requires a.id == 1
    ensures var t2 := After(After(START, NextId), NextId);
            && Allowed(t2, Create(a))
            && After(After(t2, Create(a)), NextId) ==
               Session(Store(map[KeyOf(1) := a], 2), multiset{2, 2}, [1, 2, 2], [1])
  {
    hide KeyOf;
    NextSequence(Store(map[], 0));
    NextSequence(Store(map[], 1));
    NextSequence(Store(map[KeyOf(1) := a], 1));
    var t1 := Session(Store(map[], 1), multiset{1}, [1], []);
    assert After(START, NextId) == t1;
    var t2 := Session(Store(map[], 2), multiset{1, 2}, [1, 2], []);
    assert After(t1, NextId) == t2;
    assert multiset{1, 2} - multiset{1} == multiset{2};
    assert After(t2, Create(a)) == Session(Store(map[KeyOf(1) := a], 1), multiset{2}, [1, 2], [1]);
  }

  lemma SecondAndThird(a: Endpoint, b: Endpoint, c: Endpoint)
    requires a.id == 1 && b.id == c.id == 2
    ensures var t4 := Session(Store(map[KeyOf(1) := a], 2), multiset{2, 2}, [1, 2, 2], [1]);
            var t5 := After(t4, Create(b));
            && Allowed(t4, Create(b)) && Allowed(t5, Create(c))
            && Bounded(t4.store) && Bounded(t5.store) && Bounded(After(t5, Create(c)).store)
            && KeyOf(2) in t5.store.records && t5.store.records[KeyOf(2)] == b
            && After(t5, Create(c)).store.records[KeyOf(2)] == c
  {
    hide KeyOf, Sound, IdOf, IsKey;
    KeysDiffer(1, 2);
    var s4 := Store(map[KeyOf(1) := a], 2);
    NewlySound(a, s4);
    var s5 := AfterCreate(s4, b);
    NewlySound(a, s5);
    NewlySound(b, s5);
    var s6 := AfterCreate(s5, c);
    NewlySound(a, s6);
    NewlySound(c, s6);
  }

  /** After a creation with an identifier below a stored one, the stored one is handed out again:
      creating that endpoint replaces the record. */
  lemma StaleCreateHandsOutAgain(s: Store, e: Endpoint, stored: Id)
    requires 1 <= e.id < stored && KeyOf(stored) in s.records
    ensures var again := AfterNexts(AfterCreate(s, e), stored - e.id);
            && AsId(again.sequence) == stored
            && KeyOf(stored) in again.records
  {
    hide KeyOf, AfterNexts;
    NextsAdvance(AfterCreate(s, e), stored - e.id);
  }

  /** The other way to the same end: two creations finish in the opposite order. */
  lemma InterleavedCreates(a: Endpoint, b: Endpoint)
    requires a.id == 1 && b.id == 2
    ensures var start := AfterNexts(START.store, 2);
            var s := AfterNext(AfterCreate(AfterCreate(start, b), a));
            AsId(start.sequence) == 2 && AsId(s.sequence) == 2 && KeyOf(2) in s.records && s.records[KeyOf(2)] == b
  {
    KeysDiffer(1, 2);
    NextsAdvance(START.store, 2);
  }
}
