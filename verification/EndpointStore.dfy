/** The bucket of endpoints: records by key, and a sequence number (api/bolt/endpoint/endpoint.go,
    api/bolt/internal/db.go). */
module EndpointStore {
  import opened Wrappers
  import opened Seqs
  import opened BoltKeys

  /** content stands for the fields the store does not look at. */
  datatype Endpoint = Endpoint(id: Id, content: string)

  datatype Store = Store(records: map<Key, Endpoint>, sequence: Unsigned)

  // ---- What each transaction commits

  /** The sequence n steps on; it wraps around. */
  function Advanced(sequence: Unsigned, n: nat): Unsigned {
    (sequence + n) % 0x1_0000_0000_0000_0000
  }

  function AfterNext(s: Store): Store {
    s.(sequence := Advanced(s.sequence, 1))
  }

  function AfterCreate(s: Store, e: Endpoint): Store {
    Store(s.records[KeyOf(e.id) := e], AsUnsigned(e.id))
  }

  function AfterUpdate(s: Store, id: Id, e: Endpoint): Store {
    s.(records := s.records[KeyOf(id) := e])
  }

  function AfterDelete(s: Store, id: Id): Store {
    s.(records := s.records - {KeyOf(id)})
  }

  /** The endpoints with the identifiers that follow the sequence. */
  function Assigned(sequence: Unsigned, endpoints: seq<Endpoint>): (r: seq<Endpoint>)
    ensures |r| == |endpoints|
  {
    seq(|endpoints|, i requires 0 <= i < |endpoints| => endpoints[i].(id := AsId(Advanced(sequence, i + 1))))
  }

  function PutAll(records: map<Key, Endpoint>, endpoints: seq<Endpoint>): map<Key, Endpoint> {
    if endpoints == [] then records
    else
      var e := endpoints[|endpoints| - 1];
      PutAll(records, endpoints[..|endpoints| - 1])[KeyOf(e.id) := e]
  }

  function DeleteAll(records: map<Key, Endpoint>, endpoints: seq<Endpoint>): map<Key, Endpoint> {
    if endpoints == [] then records
    else DeleteAll(records, endpoints[..|endpoints| - 1]) - {KeyOf(endpoints[|endpoints| - 1].id)}
  }

  function AfterSynchronize(s: Store, toCreate: seq<Endpoint>, toUpdate: seq<Endpoint>, toDelete: seq<Endpoint>): Store {
    var created := PutAll(s.records, Assigned(s.sequence, toCreate));
    Store(DeleteAll(PutAll(created, toUpdate), toDelete), Advanced(s.sequence, |toCreate|))
  }

  // ---- Cursor order

  lemma BeforeIsTotalOrder(a: Key, b: Key, c: Key)
    requires IsKey(a) && IsKey(b) && IsKey(c)
    ensures a == b || Before(a, b) || Before(b, a)
    ensures !(Before(a, b) && Before(b, a)) && !Before(a, a)
    ensures Before(a, b) && Before(b, c) ==> Before(a, c)
  {
    hide Before, Number, BigEndian;
    BeforeIsSmaller(a, b);
    BeforeIsSmaller(b, a);
    BeforeIsSmaller(b, c);
    BeforeIsSmaller(a, c);
    BeforeIsSmaller(a, a);
    DigitsOfNumber(a);
    DigitsOfNumber(b);
  }

  ghost predicate Least(k: Key, keys: set<Key>) {
    k in keys && forall x | x in keys :: x == k || Before(k, x)
  }

  /** The keys in the order of a cursor. */
  ghost predicate InCursorOrder(keys: seq<Key>, records: map<Key, Endpoint>) {
    && (forall i, j | 0 <= i < j < |keys| :: Before(keys[i], keys[j]))
    && (forall k :: k in keys <==> k in records)
  }

  function RecordsAt(keys: seq<Key>, records: map<Key, Endpoint>): (r: seq<Endpoint>)
    requires forall i | 0 <= i < |keys| :: keys[i] in records
    ensures |r| == |keys|
  {
    seq(|keys|, i requires 0 <= i < |keys| => records[keys[i]])
  }

  /** The records from the first key to the last. */
  ghost predicate ListedInOrder(endpoints: seq<Endpoint>, records: map<Key, Endpoint>) {
    exists keys | InCursorOrder(keys, records) :: endpoints == RecordsAt(keys, records)
  }

  /** Where a cursor over these keys starts. */
  method First(keys: set<Key>) returns (k: Key)
    requires keys != {} && forall x | x in keys :: IsKey(x)
    ensures Least(k, keys)
  {
    hide IsKey, Before;
    k := Pick(keys);
    var rest := keys - {k};
    while rest != {}
      invariant rest <= keys && k in keys && k !in rest
      invariant forall x | x in keys && x !in rest :: x == k || Before(k, x)
    {
      var next := Pick(rest);
      if Before(next, k) {
        forall x | x in keys && x !in rest
          ensures x == next || Before(next, x)
        {
          BeforeIsTotalOrder(next, k, x);
        }
        k := next;
      } else {
        BeforeIsTotalOrder(next, k, k);
      }
      rest := rest - {next};
    }
  }

  class Service {
    var records: map<Key, Endpoint>
    var sequence: Unsigned
    /** Whether a record can be encoded. */
    const marshals: Endpoint -> bool

    ghost predicate Valid()
      reads this
    {
      forall k | k in records :: IsKey(k)
    }

    ghost function Contents(): Store
      reads this
    {
      Store(records, sequence)
    }

    constructor (marshals: Endpoint -> bool)
      ensures Valid() && this.marshals == marshals
      ensures Contents() == Store(map[], 0)
    {
      this.marshals := marshals;
      records := map[];
      sequence := 0;
    }

    method GetNextIdentifier() returns (identifier: Id)
      requires Valid()
      modifies this
      ensures Valid() && Contents() == AfterNext(old(Contents()))
      ensures identifier == AsId(sequence)
    {
      sequence := Advanced(sequence, 1);
      identifier := AsId(sequence);
    }

    method GetEndpoint(id: Id) returns (r: Option<Endpoint>)
      ensures r == if KeyOf(id) in records then Some(records[KeyOf(id)]) else None
    {
      var key := Itob(id);
      r := if key[..] in records then Some(records[key[..]]) else None;
    }

    /** A failed encoding undoes the transaction, the sequence included. */
    method CreateEndpoint(e: Endpoint) returns (ok: bool)
      requires Valid()
      modifies this
      ensures Valid() && ok == marshals(e)
      ensures Contents() == if ok then AfterCreate(old(Contents()), e) else old(Contents())
    {
      var before := sequence;
      sequence := AsUnsigned(e.id);
      ok := marshals(e);
      if !ok {
        sequence := before;
        return;
      }
      var key := Itob(e.id);
      IdOfKey(e.id);
      records := records[key[..] := e];
    }

    method UpdateEndpoint(id: Id, e: Endpoint) returns (ok: bool)
      requires Valid()
      modifies this`records
      ensures Valid() && ok == marshals(e)
      ensures Contents() == if ok then AfterUpdate(old(Contents()), id, e) else old(Contents())
    {
      var key := Itob(id);
      ok := marshals(e);
      IdOfKey(id);
      if ok {
        records := records[key[..] := e];
      }
    }

    method DeleteEndpoint(id: Id)
      requires Valid()
      modifies this`records
      ensures Valid() && Contents() == AfterDelete(old(Contents()), id)
    {
      var key := Itob(id);
      records := records - {key[..]};
    }

    method Endpoints() returns (endpoints: seq<Endpoint>)
      requires Valid()
      ensures ListedInOrder(endpoints, records)
    {
      hide IsKey, Before;
      endpoints := [];
      ghost var keys: seq<Key> := [];
      var ahead := records.Keys;
      while ahead != {}
        invariant ahead <= records.Keys
        invariant forall k :: k in keys <==> k in records && k !in ahead
        invariant forall i, j | 0 <= i < j < |keys| :: Before(keys[i], keys[j])
        invariant forall i, k | 0 <= i < |keys| && k in ahead :: Before(keys[i], k)
        invariant endpoints == RecordsAt(keys, records)
        decreases |ahead|
      {
        var k := First(ahead);
        endpoints := endpoints + [records[k]];
        keys := keys + [k];
        ahead := ahead - {k};
      }
    }

    /** All or nothing: creates, then updates, then deletes. */
    method Synchronize(toCreate: seq<Endpoint>, toUpdate: seq<Endpoint>, toDelete: seq<Endpoint>) returns (ok: bool)
      requires Valid()
      modifies this
      ensures Valid()
      ensures ok <==> && (forall i | 0 <= i < |toCreate| :: marshals(Assigned(old(sequence), toCreate)[i]))
                      && (forall i | 0 <= i < |toUpdate| :: marshals(toUpdate[i]))
      ensures Contents() == if ok then AfterSynchronize(old(Contents()), toCreate, toUpdate, toDelete) else old(Contents())
    {
      hide IsKey, KeyOf, Advanced, PutAll, DeleteAll, Assigned;
      var tx, next;
      ok, tx, next := CreateAll(records, sequence, toCreate, marshals);
      if ok {
        ok, tx := UpdateAll(tx, toUpdate, marshals);
      }
      if ok {
        tx := RemoveAll(tx, toDelete);
        records, sequence := tx, next;
      }
    }
  }

  // ---- The loops of a synchronization

  lemma AdvancedOnce(sequence: Unsigned, n: nat)
    ensures Advanced(Advanced(sequence, n), 1) == Advanced(sequence, n + 1)
    ensures Advanced(sequence, 0) == sequence
  {
  }

  method CreateAll(records: map<Key, Endpoint>, sequence: Unsigned, toCreate: seq<Endpoint>, marshals: Endpoint -> bool)
    returns (ok: bool, tx: map<Key, Endpoint>, next: Unsigned)
    requires forall k | k in records :: IsKey(k)
    ensures forall k | k in tx :: IsKey(k)
    ensures ok <==> forall i | 0 <= i < |toCreate| :: marshals(Assigned(sequence, toCreate)[i])
    ensures ok ==> tx == PutAll(records, Assigned(sequence, toCreate)) && next == Advanced(sequence, |toCreate|)
  {
    hide IsKey, KeyOf, Advanced;
    ok, tx, next := true, records, sequence;
    ghost var created := Assigned(sequence, toCreate);
    AdvancedOnce(sequence, 0);
    for i := 0 to |toCreate|
      invariant tx == PutAll(records, created[..i]) && next == Advanced(sequence, i)
      invariant forall j | 0 <= j < i :: marshals(created[j])
      invariant forall k | k in tx :: IsKey(k)
    {
      AdvancedOnce(sequence, i);
      next := Advanced(next, 1);
      var e := toCreate[i].(id := AsId(next));
      assert e == created[i];
      if !marshals(e) {
        ok := false;
        return;
      }
      var key := Itob(e.id);
      IdOfKey(e.id);
      assert created[..i + 1][..i] == created[..i];
      tx := tx[key[..] := e];
    }
    assert created[..|created|] == created;
  }

  method UpdateAll(records: map<Key, Endpoint>, toUpdate: seq<Endpoint>, marshals: Endpoint -> bool)
    returns (ok: bool, tx: map<Key, Endpoint>)
    requires forall k | k in records :: IsKey(k)
    ensures forall k | k in tx :: IsKey(k)
    ensures ok <==> forall i | 0 <= i < |toUpdate| :: marshals(toUpdate[i])
    ensures ok ==> tx == PutAll(records, toUpdate)
  {
    hide IsKey, KeyOf;
    ok, tx := true, records;
    for i := 0 to |toUpdate|
      invariant tx == PutAll(records, toUpdate[..i])
      invariant forall j | 0 <= j < i :: marshals(toUpdate[j])
      invariant forall k | k in tx :: IsKey(k)
    {
      if !marshals(toUpdate[i]) {
        ok := false;
        return;
      }
      var key := Itob(toUpdate[i].id);
      IdOfKey(toUpdate[i].id);
      assert toUpdate[..i + 1][..i] == toUpdate[..i];
      tx := tx[key[..] := toUpdate[i]];
    }
    assert toUpdate[..|toUpdate|] == toUpdate;
  }

  method RemoveAll(records: map<Key, Endpoint>, toDelete: seq<Endpoint>) returns (tx: map<Key, Endpoint>)
    requires forall k | k in records :: IsKey(k)
    ensures forall k | k in tx :: IsKey(k)
    ensures tx == DeleteAll(records, toDelete)
  {
    hide IsKey, KeyOf;
    tx := records;
    for i := 0 to |toDelete|
      invariant tx == DeleteAll(records, toDelete[..i])
      invariant forall k | k in tx :: IsKey(k)
    {
      var key := Itob(toDelete[i].id);
      assert toDelete[..i + 1][..i] == toDelete[..i];
      tx := tx - {key[..]};
    }
    assert toDelete[..|toDelete|] == toDelete;
  }

  // ---- What is read after each call

  /** What Endpoint answers. */
  function Read(s: Store, id: Id): Option<Endpoint> {
    if KeyOf(id) in s.records then Some(s.records[KeyOf(id)]) else None
  }

  lemma KeysAreDifferent(a: Id, b: Id)
    ensures KeyOf(a) == KeyOf(b) <==> a == b
  {
    hide KeyOf;
    IdOfKey(a);
    IdOfKey(b);
  }

  lemma ReadAfterCreate(s: Store, e: Endpoint, id: Id)
    ensures Read(AfterCreate(s, e), id) == if id == e.id then Some(e) else Read(s, id)
    ensures e.id >= 0 ==> AfterCreate(s, e).sequence == e.id
  {
    KeysAreDifferent(e.id, id);
    hide KeyOf;
  }

  lemma ReadAfterUpdate(s: Store, at: Id, e: Endpoint, id: Id)
    ensures Read(AfterUpdate(s, at, e), id) == if id == at then Some(e) else Read(s, id)
    ensures AfterUpdate(s, at, e).sequence == s.sequence
  {
    KeysAreDifferent(at, id);
    hide KeyOf;
  }

  lemma ReadAfterDelete(s: Store, at: Id, id: Id)
    ensures Read(AfterDelete(s, at), id) == if id == at then None else Read(s, id)
    ensures AfterDelete(s, at).sequence == s.sequence
  {
    KeysAreDifferent(at, id);
    hide KeyOf;
  }

  lemma ReadAfterNext(s: Store, id: Id)
    ensures Read(AfterNext(s), id) == Read(s, id)
    ensures AfterNext(s).sequence == if s.sequence == 0xFFFF_FFFF_FFFF_FFFF then 0 else s.sequence + 1
  {
    hide KeyOf;
  }

  /** The last of the endpoints with this identifier, or else what was there. */
  lemma {:induction false} ReadAfterPuts(records: map<Key, Endpoint>, endpoints: seq<Endpoint>, id: Id, k: int)
    requires -1 <= k < |endpoints| && (k >= 0 ==> endpoints[k].id == id)
    requires forall j | k < j < |endpoints| :: endpoints[j].id != id
    ensures var s := PutAll(records, endpoints);
            if k >= 0 then KeyOf(id) in s && s[KeyOf(id)] == endpoints[k]
            else (KeyOf(id) in s <==> KeyOf(id) in records) && (KeyOf(id) in s ==> s[KeyOf(id)] == records[KeyOf(id)])
  {
    hide KeyOf;
    var n := |endpoints| - 1;
    if n >= 0 {
      KeysAreDifferent(endpoints[n].id, id);
      if k < n {
        ReadAfterPuts(records, endpoints[..n], id, k);
      }
    }
  }

  lemma {:induction false} ReadAfterDeletes(records: map<Key, Endpoint>, endpoints: seq<Endpoint>, id: Id)
    ensures var s := DeleteAll(records, endpoints);
            && (KeyOf(id) in s <==> KeyOf(id) in records && forall j | 0 <= j < |endpoints| :: endpoints[j].id != id)
            && (KeyOf(id) in s ==> s[KeyOf(id)] == records[KeyOf(id)])
  {
    hide KeyOf;
    if endpoints != [] {
      var n := |endpoints| - 1;
      KeysAreDifferent(endpoints[n].id, id);
      ReadAfterDeletes(records, endpoints[..n], id);
      assert forall j | 0 <= j < n :: endpoints[..n][j] == endpoints[j];
    }
  }

  ghost predicate HasId(endpoints: seq<Endpoint>, id: Id) {
    exists j :: 0 <= j < |endpoints| && endpoints[j].id == id
  }

  /** After a synchronization an identifier that is to be deleted is gone; otherwise the last update under
      it counts, otherwise the endpoint created under it, otherwise what was there. */
  lemma ReadAfterSynchronize(s: Store, c: seq<Endpoint>, u: seq<Endpoint>, d: seq<Endpoint>, id: Id, k: int, l: int)
    requires s.sequence + |c| <= MAX_ID
    requires -1 <= k < |u| && (k >= 0 ==> u[k].id == id) && forall j | k < j < |u| :: u[j].id != id
    requires l == id - s.sequence - 1
    ensures var after := AfterSynchronize(s, c, u, d);
            && Read(after, id) == (
                 if HasId(d, id) then None
                 else if k >= 0 then Some(u[k])
                 else if 0 <= l < |c| then Some(c[l].(id := id))
                 else Read(s, id))
            && after.sequence == s.sequence + |c|
  {
    hide KeyOf, PutAll, DeleteAll;
    var created := Assigned(s.sequence, c);
    AssignedInOrder(s.sequence, c);
    ReadAfterPuts(s.records, created, id, if 0 <= l < |c| then l else -1);
    var s1 := PutAll(s.records, created);
    ReadAfterPuts(s1, u, id, k);
    ReadAfterDeletes(PutAll(s1, u), d, id);
  }

  lemma AssignedInOrder(sequence: Unsigned, endpoints: seq<Endpoint>)
    requires sequence + |endpoints| <= MAX_ID
    ensures Advanced(sequence, |endpoints|) == sequence + |endpoints|
    ensures forall i | 0 <= i < |endpoints| :: Assigned(sequence, endpoints)[i] == endpoints[i].(id := sequence + i + 1)
  {
  }
}
