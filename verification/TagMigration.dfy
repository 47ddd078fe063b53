/** The migration to database version 23: tags learn which endpoints and endpoint groups carry them
    (api/bolt/migrator/migrate_dbversion22.go). */
module TagMigration {
  import opened Wrappers
  import opened Seqs

  datatype TagRecord = TagRecord(name: string, endpoints: set<int>, groups: set<int>)

  /** An endpoint or an endpoint group: the old tag names and the new tag ids. */
  datatype Item = Item(tags: seq<string>, tagIds: seq<int>)

  // ---- Specification

  /** The tag that answers to a name: the last one listed. */
  function Owner(order: seq<int>, tags: map<int, TagRecord>, name: string): Option<int> {
    if order == [] then None
    else
      var last := order[|order| - 1];
      if last in tags && tags[last].name == name then Some(last) else Owner(order[..|order| - 1], tags, name)
  }

  /** The ids of the known names, in the order of the names. */
  function IdsOf(names: seq<string>, owners: map<string, int>): seq<int> {
    if names == [] then []
    else
      var last := names[|names| - 1];
      IdsOf(names[..|names| - 1], owners) + if last in owners then [owners[last]] else []
  }

  /** The listed items that carry the name. */
  function Carriers(items: map<int, Item>, ids: seq<int>, name: string): set<int> {
    set id | id in ids && id in items && name in items[id].tags
  }

  lemma CarriersNext(items: map<int, Item>, ids: seq<int>, i: nat, name: string)
    requires i < |ids| && ids[i] in items
    ensures Carriers(items, ids[..i + 1], name) == With(Carriers(items, ids[..i], name), items[ids[i]].tags, name, ids[i])
  {
    PrefixSnoc(ids, i);
  }

  ghost predicate Owns(owners: map<string, int>, name: string, id: int) {
    name in owners && owners[name] == id
  }

  /** A tag after the second step: the owner of its name gains the carriers of the name. */
  function MigratedTag(owners: map<string, int>, t: int, r: TagRecord, endpoints: set<int>, groups: set<int>): TagRecord {
    if r.name in owners && owners[r.name] == t then TagRecord(r.name, r.endpoints + endpoints, r.groups + groups) else r
  }

  /** The buckets before and after the second step, listed in the given orders. */
  ghost predicate MigratedTags(owners: map<string, int>, before: map<int, TagRecord>, endpoints: map<int, Item>, endpointOrder: seq<int>,
      groups: map<int, Item>, groupOrder: seq<int>, after: map<int, TagRecord>)
  {
    && after.Keys == before.Keys
    && forall t :: t in before ==>
         after[t] == MigratedTag(owners, t, before[t], Carriers(endpoints, endpointOrder, before[t].name),
                                 Carriers(groups, groupOrder, before[t].name))
  }

  ghost predicate MigratedItems(owners: map<string, int>, before: map<int, Item>, after: map<int, Item>) {
    after.Keys == before.Keys && forall e :: e in before ==> after[e] == before[e].(tagIds := IdsOf(before[e].tags, owners))
  }

  /** The owners of all names. */
  ghost predicate IsOwnerMap(owners: map<string, int>, order: seq<int>, tags: map<int, TagRecord>) {
    forall name :: (if name in owners then Some(owners[name]) else None) == Owner(order, tags, name)
  }

  lemma OwnerMapNext(owners: map<string, int>, order: seq<int>, i: nat, tags: map<int, TagRecord>)
    requires i < |order| && order[i] in tags && IsOwnerMap(owners, order[..i], tags)
    ensures IsOwnerMap(owners[tags[order[i]].name := order[i]], order[..i + 1], tags)
  {
    assert order[..i + 1][..i] == order[..i];
  }

  // ---- In memory

  /** A Go map used as a set, shared by all copies of the struct that holds it. */
  class IdSet {
    var ids: set<int>

    constructor (ids: set<int>)
      ensures this.ids == ids
    {
      this.ids := ids;
    }
  }

  /** A tag struct: copying it copies the references. */
  datatype Tag = Tag(id: int, name: string, endpoints: IdSet, groups: IdSet)

  function Side(t: Tag, ofGroups: bool): IdSet {
    if ofGroups then t.groups else t.endpoints
  }

  ghost predicate Separate(m: map<string, Tag>) {
    forall a, b, s, u | a in m && b in m && Side(m[a], s) == Side(m[b], u) :: a == b && s == u
  }

  lemma SeparateNext(m: map<string, Tag>, name: string, t: Tag)
    requires Separate(m) && t.endpoints != t.groups
    requires forall n, s, u | n in m :: Side(m[n], s) != Side(t, u)
    ensures Separate(m[name := t])
  {
  }

  function Ids(m: map<string, Tag>): map<string, int> {
    map name | name in m :: m[name].id
  }

  /** The contents of the two sets of a tag. */
  datatype Content = Content(endpoints: set<int>, groups: set<int>)

  ghost function Sets(m: map<string, Tag>, ofGroups: bool): set<IdSet> {
    set name | name in m :: Side(m[name], ofGroups)
  }

  /** What an item's names do to one of the sets. */
  function With(ids: set<int>, names: seq<string>, name: string, id: int): set<int> {
    ids + if name in names then {id} else {}
  }

  lemma WithNext(ids: set<int>, names: seq<string>, i: nat, name: string, id: int)
    requires i < |names|
    ensures With(ids, names[..i + 1], name, id) ==
            if names[i] == name then With(ids, names[..i], name, id) + {id} else With(ids, names[..i], name, id)
  {
    PrefixSnoc(names, i);
  }

  lemma IdsOfNext(names: seq<string>, i: nat, owners: map<string, int>)
    requires i < |names|
    ensures IdsOf(names[..i + 1], owners) ==
            if names[i] in owners then IdsOf(names[..i], owners) + [owners[names[i]]] else IdsOf(names[..i], owners)
  {
    PrefixSnoc(names, i);
  }

  lemma OwnSide(m: map<string, Tag>, name: string, ofGroups: bool)
    requires Separate(m) && name in m
    ensures Side(m[name], ofGroups) in Sets(m, ofGroups)
    ensures forall n | n in m && n != name :: Side(m[n], ofGroups) != Side(m[name], ofGroups)
  {
  }

  lemma NothingYet(id: int, owners: map<string, int>)
    ensures IdsOf([], owners) == []
    ensures forall ids, name :: With(ids, [], name, id) == ids
  {
  }

  /** Looks up the names of one item: collects the ids and notes the item in the tags' sets. */
  method TagItem(id: int, names: seq<string>, m: map<string, Tag>, ofGroups: bool) returns (ids: seq<int>)
    requires Separate(m)
    modifies Sets(m, ofGroups)
    ensures ids == IdsOf(names, Ids(m))
    ensures forall n :: n in m ==> Side(m[n], ofGroups).ids == With(old(Side(m[n], ofGroups).ids), names, n, id)
  {
    hide With, IdsOf, Separate, Sets, Side;
    ids := [];
    NothingYet(id, Ids(m));
    assert names[..0] == [];
    for i := 0 to |names|
      invariant ids == IdsOf(names[..i], Ids(m))
      invariant forall n :: n in m ==> Side(m[n], ofGroups).ids == With(old(Side(m[n], ofGroups).ids), names[..i], n, id)
    {
      var name := names[i];
      IdsOfNext(names, i, Ids(m));
      forall n | n in m
        ensures With(old(Side(m[n], ofGroups).ids), names[..i + 1], n, id) ==
                if name == n then Side(m[n], ofGroups).ids + {id} else Side(m[n], ofGroups).ids
      {
        WithNext(old(Side(m[n], ofGroups).ids), names, i, n, id);
      }
      if name in m {
        ids := ids + [m[name].id];
        OwnSide(m, name, ofGroups);
        var s := Side(m[name], ofGroups);
        s.ids := s.ids + {id};
      }
    }
    assert names[..|names|] == names;
  }

  // ---- The database

  /** The buckets; the sequences give the order in which a cursor lists the tags, the endpoints and
      the groups. */
  class Database {
    const tagOrder: seq<int>
    const endpointOrder: seq<int>
    const groupOrder: seq<int>
    var tags: map<int, TagRecord>
    var endpoints: map<int, Item>
    var groups: map<int, Item>
    var relations: map<int, set<int>>

    ghost predicate Valid()
      reads this`tags, this`endpoints, this`groups
    {
      && Lists(tagOrder, tags.Keys) && Lists(endpointOrder, endpoints.Keys) && Lists(groupOrder, groups.Keys)
    }

    static ghost predicate Lists(order: seq<int>, keys: set<int>) {
      Distinct(order) && (forall i | 0 <= i < |order| :: order[i] in keys) && (forall id | id in keys :: id in order)
    }

    constructor (tagOrder: seq<int>, endpointOrder: seq<int>, groupOrder: seq<int>, tags: map<int, TagRecord>,
        endpoints: map<int, Item>, groups: map<int, Item>, relations: map<int, set<int>>)
      requires Lists(tagOrder, tags.Keys) && Lists(endpointOrder, endpoints.Keys) && Lists(groupOrder, groups.Keys)
      ensures Valid()
      ensures this.tagOrder == tagOrder && this.endpointOrder == endpointOrder && this.groupOrder == groupOrder
      ensures this.tags == tags && this.endpoints == endpoints && this.groups == groups
      ensures this.relations == relations
    {
      this.tagOrder, this.endpointOrder, this.groupOrder := tagOrder, endpointOrder, groupOrder;
      this.tags, this.endpoints, this.groups, this.relations := tags, endpoints, groups, relations;
    }

    /** Any call to the store fails or succeeds; none fails unless failures are allowed for. */
    static method Call(mayFail: bool) returns (ok: bool)
      ensures !mayFail ==> ok
    {
      ok := true;
      if mayFail {
        ok := *;
      }
    }

    /** First step: every tag starts with empty sets. */
    method UpdateTags(mayFail: bool) returns (ok: bool)
      requires Valid()
      modifies this`tags
      ensures Valid() && (!mayFail ==> ok)
      ensures ok ==> tags.Keys == old(tags).Keys && forall t :: t in tags ==> tags[t] == TagRecord(old(tags)[t].name, {}, {})
    {
      ok := Call(mayFail);
      if !ok {
        return;
      }
      var before := tags;
      for i := 0 to |tagOrder|
        invariant Valid() && tags.Keys == before.Keys
        invariant forall t :: t in before ==> tags[t] == if t in tagOrder[..i] then TagRecord(before[t].name, {}, {}) else before[t]
      {
        var t := tagOrder[i];
        PrefixSnoc(tagOrder, i);
        ok := Call(mayFail);
        if !ok {
          return;
        }
        tags := tags[t := TagRecord(before[t].name, {}, {})];
      }
      assert tagOrder[..|tagOrder|] == tagOrder;
      return true;
    }

    /** The tags by name; later tags replace earlier ones of the same name. */
    method TagsByName() returns (m: map<string, Tag>)
      requires Valid()
      ensures Separate(m) && forall n, s | n in m :: fresh(Side(m[n], s))
      ensures IsOwnerMap(Ids(m), tagOrder, tags)
      ensures forall n :: n in m ==> m[n].id in tags && m[n].name == tags[m[n].id].name == n
      ensures forall n :: n in m ==> m[n].endpoints.ids == tags[m[n].id].endpoints && m[n].groups.ids == tags[m[n].id].groups
    {
      hide Separate, IsOwnerMap, Owner, Distinct;
      m := map[];
      EmptyMap(tags);
      assert tagOrder[..0] == [] && Ids(m) == map[];
      for i := 0 to |tagOrder|
        invariant Separate(m) && forall n, s | n in m :: fresh(Side(m[n], s))
        invariant IsOwnerMap(Ids(m), tagOrder[..i], tags)
        invariant forall n :: n in m ==> m[n].id in tags && m[n].name == tags[m[n].id].name == n
        invariant forall n :: n in m ==> m[n].endpoints.ids == tags[m[n].id].endpoints && m[n].groups.ids == tags[m[n].id].groups
      {
        var t := tagOrder[i];
        var r := tags[t];
        var endpoints := new IdSet(r.endpoints);
        var groups := new IdSet(r.groups);
        OwnerMapNext(Ids(m), tagOrder, i, tags);
        SeparateNext(m, r.name, Tag(t, r.name, endpoints, groups));
        ghost var before := m;
        m := m[r.name := Tag(t, r.name, endpoints, groups)];
        assert Ids(m) == Ids(before)[r.name := t];
      }
      assert tagOrder[..|tagOrder|] == tagOrder;
    }

    method MigrateEndpoint(id: int, item: Item, m: map<string, Tag>, mayFail: bool) returns (ok: bool)
      requires Valid() && Separate(m) && id in endpoints
      modifies this`endpoints, this`relations, Sets(m, false)
      ensures Valid() && (!mayFail ==> ok)
      ensures ok ==> endpoints == old(endpoints)[id := item.(tagIds := IdsOf(item.tags, Ids(m)))]
      ensures ok ==> relations == old(relations)[id := {}]
      ensures ok ==> forall n :: n in m ==> m[n].endpoints.ids == With(old(m[n].endpoints.ids), item.tags, n, id)
    {
      hide IdsOf, With;
      var endpointTags := TagItem(id, item.tags, m, false);
      ok := Call(mayFail);
      if !ok {
        return;
      }
      endpoints := endpoints[id := item.(tagIds := endpointTags)];
      ok := Call(mayFail);
      if !ok {
        return;
      }
      relations := relations[id := {}];
    }

    method MigrateEndpoints(m: map<string, Tag>, mayFail: bool) returns (ok: bool)
      requires Valid() && Separate(m)
      modifies this`endpoints, this`relations, Sets(m, false)
      ensures Valid() && (!mayFail ==> ok)
      ensures ok ==> MigratedItems(Ids(m), old(endpoints), endpoints)
      ensures ok ==> forall n :: n in m ==>
                m[n].endpoints.ids == old(m[n].endpoints.ids) + Carriers(old(endpoints), endpointOrder, n)
      ensures ok ==> forall e :: e in endpoints ==> e in relations && relations[e] == {}
    {
      hide IdsOf, Carriers, Separate, Ids;
      ok := Call(mayFail);
      if !ok {
        return;
      }
      var before := endpoints;
      NoCarriers(before);
      for i := 0 to |endpointOrder|
        invariant Valid() && endpoints.Keys == before.Keys
        invariant forall e :: e in before ==>
                    endpoints[e] == if e in endpointOrder[..i] then before[e].(tagIds := IdsOf(before[e].tags, Ids(m))) else before[e]
        invariant forall n :: n in m ==>
                    m[n].endpoints.ids == old(m[n].endpoints.ids) + Carriers(before, endpointOrder[..i], n)
        invariant forall e :: e in endpointOrder[..i] ==> e in relations && relations[e] == {}
      {
        var id := endpointOrder[i];
        PrefixSnoc(endpointOrder, i);
        ok := MigrateEndpoint(id, before[id], m, mayFail);
        if !ok {
          return;
        }
        forall n | n in m
          ensures m[n].endpoints.ids == old(m[n].endpoints.ids) + Carriers(before, endpointOrder[..i + 1], n)
        {
          CarriersNext(before, endpointOrder, i, n);
        }
      }
      assert endpointOrder[..|endpointOrder|] == endpointOrder;
      return true;
    }

    method MigrateGroup(id: int, item: Item, m: map<string, Tag>, mayFail: bool) returns (ok: bool)
      requires Valid() && Separate(m) && id in groups
      modifies this`groups, Sets(m, true)
      ensures Valid() && (!mayFail ==> ok)
      ensures ok ==> groups == old(groups)[id := item.(tagIds := IdsOf(item.tags, Ids(m)))]
      ensures ok ==> forall n :: n in m ==> m[n].groups.ids == With(old(m[n].groups.ids), item.tags, n, id)
    {
      hide IdsOf, With;
      var groupTags := TagItem(id, item.tags, m, true);
      ok := Call(mayFail);
      if !ok {
        return;
      }
      groups := groups[id := item.(tagIds := groupTags)];
    }

    method MigrateGroups(m: map<string, Tag>, mayFail: bool) returns (ok: bool)
      requires Valid() && Separate(m)
      modifies this`groups, Sets(m, true)
      ensures Valid() && (!mayFail ==> ok)
      ensures ok ==> MigratedItems(Ids(m), old(groups), groups)
      ensures ok ==> forall n :: n in m ==> m[n].groups.ids == old(m[n].groups.ids) + Carriers(old(groups), groupOrder, n)
    {
      hide IdsOf, Carriers, Separate, Ids;
      ok := Call(mayFail);
      if !ok {
        return;
      }
      var before := groups;
      NoCarriers(before);
      for i := 0 to |groupOrder|
        invariant Valid() && groups.Keys == before.Keys
        invariant forall g :: g in before ==>
                    groups[g] == if g in groupOrder[..i] then before[g].(tagIds := IdsOf(before[g].tags, Ids(m))) else before[g]
        invariant forall n :: n in m ==>
                    m[n].groups.ids == old(m[n].groups.ids) + Carriers(before, groupOrder[..i], n)
      {
        var id := groupOrder[i];
        PrefixSnoc(groupOrder, i);
        ok := MigrateGroup(id, before[id], m, mayFail);
        if !ok {
          return;
        }
        forall n | n in m
          ensures m[n].groups.ids == old(m[n].groups.ids) + Carriers(before, groupOrder[..i + 1], n)
        {
          CarriersNext(before, groupOrder, i, n);
        }
      }
      assert groupOrder[..|groupOrder|] == groupOrder;
      return true;
    }

    static lemma NoCarriers(items: map<int, Item>)
      ensures forall name :: Carriers(items, [], name) == {}
    {
    }

    /** Writes the tags back, in no particular order. */
    method SaveTags(m: map<string, Tag>, ghost sets: map<string, Content>, mayFail: bool) returns (ok: bool)
      requires Valid() && forall n :: n in m ==> m[n].id in tags && m[n].name == tags[m[n].id].name == n
      requires Holds(m, sets)
      modifies this`tags
      ensures Valid() && (!mayFail ==> ok)
      ensures ok ==> tags.Keys == old(tags).Keys
      ensures ok ==> forall t :: t in tags ==> tags[t] == Saved(m, sets, t, old(tags)[t])
    {
      var names := m.Keys;
      var before := tags;
      while names != {}
        invariant names <= m.Keys
        invariant Valid() && tags.Keys == before.Keys
        invariant forall t :: t in before ==> tags[t] == if before[t].name in names then before[t] else Saved(m, sets, t, before[t])
        decreases names
      {
        var n := Pick(names);
        names := names - {n};
        var tag := m[n];
        ok := Call(mayFail);
        if !ok {
          return;
        }
        tags := tags[tag.id := TagRecord(tag.name, tag.endpoints.ids, tag.groups.ids)];
      }
      return true;
    }

    /** What SaveTags leaves of a stored tag. */
    static ghost function Saved(m: map<string, Tag>, sets: map<string, Content>, t: int, r: TagRecord): TagRecord {
      if r.name in m && r.name in sets && m[r.name].id == t
      then TagRecord(r.name, sets[r.name].endpoints, sets[r.name].groups)
      else r
    }

    /** The contents of the sets in memory. */
    static ghost predicate Holds(m: map<string, Tag>, sets: map<string, Content>)
      reads set n | n in m :: m[n].endpoints, set n | n in m :: m[n].groups
    {
      sets.Keys == m.Keys && forall n | n in m :: sets[n] == Content(m[n].endpoints.ids, m[n].groups.ids)
    }

    /** The two loops over the items together. */
    method LinkItems(m: map<string, Tag>, ghost before: map<string, Content>, mayFail: bool) returns (ok: bool, ghost sets: map<string, Content>)
      requires Valid() && Separate(m) && Holds(m, before)
      modifies this`endpoints, this`groups, this`relations, Sets(m, false), Sets(m, true)
      ensures Valid() && (!mayFail ==> ok)
      ensures ok ==> MigratedItems(Ids(m), old(endpoints), endpoints) && MigratedItems(Ids(m), old(groups), groups)
      ensures ok ==> Holds(m, sets) && forall n :: n in m ==>
                sets[n] == Content(before[n].endpoints + Carriers(old(endpoints), endpointOrder, n),
                                 before[n].groups + Carriers(old(groups), groupOrder, n))
      ensures ok ==> forall e :: e in endpoints ==> e in relations && relations[e] == {}
    {
      hide IdsOf, Carriers, Separate, MigratedItems, Valid, Ids, Sets, Side;
      sets := map[];
      SidesApart(m);
      ok := MigrateEndpoints(m, mayFail);
      if !ok {
        return;
      }
      ok := MigrateGroups(m, mayFail);
      if !ok {
        return;
      }
      sets := map n | n in m :: Content(m[n].endpoints.ids, m[n].groups.ids);
    }

    method LinkAndSave(m: map<string, Tag>, ghost loaded: map<string, Content>, mayFail: bool) returns (ok: bool)
      requires Valid() && Separate(m) && Holds(m, loaded)
      requires forall n :: n in m ==> m[n].id in tags && m[n].name == tags[m[n].id].name == n
      requires forall n :: n in m ==> loaded[n] == Content(tags[m[n].id].endpoints, tags[m[n].id].groups)
      modifies this`tags, this`endpoints, this`groups, this`relations, Sets(m, false), Sets(m, true)
      ensures Valid() && (!mayFail ==> ok)
      ensures ok ==> MigratedTags(Ids(m), old(tags), old(endpoints), endpointOrder, old(groups), groupOrder, tags)
      ensures ok ==> MigratedItems(Ids(m), old(endpoints), endpoints) && MigratedItems(Ids(m), old(groups), groups)
      ensures ok ==> forall e :: e in endpoints ==> e in relations && relations[e] == {}
    {
      hide IdsOf, Carriers, Separate, MigratedItems, MigratedTags, Saved, Ids;
      ghost var sets;
      ok, sets := LinkItems(m, loaded, mayFail);
      if !ok {
        return;
      }
      ok := SaveTags(m, sets, mayFail);
      if !ok {
        return;
      }
      SavedIsMigrated(m, loaded, sets, old(tags), old(endpoints), endpointOrder, old(groups), groupOrder, tags);
    }

    /** Second step: endpoints and groups get tag ids, tags get the endpoints and groups. */
    method UpdateEndpointsAndEndpointGroups(mayFail: bool) returns (ok: bool, ghost owners: map<string, int>)
      requires Valid()
      modifies this`tags, this`endpoints, this`groups, this`relations
      ensures Valid() && (!mayFail ==> ok)
      ensures ok ==> IsOwnerMap(owners, tagOrder, old(tags))
      ensures ok ==> MigratedTags(owners, old(tags), old(endpoints), endpointOrder, old(groups), groupOrder, tags)
      ensures ok ==> MigratedItems(owners, old(endpoints), endpoints) && MigratedItems(owners, old(groups), groups)
      ensures ok ==> forall e :: e in endpoints ==> e in relations && relations[e] == {}
    {
      hide IdsOf, Carriers, Separate, IsOwnerMap, MigratedItems, MigratedTags, Ids;
      owners := map[];
      ok := Call(mayFail);
      if !ok {
        return;
      }
      var m := TagsByName();
      owners := Ids(m);
      ghost var loaded := map n | n in m :: Content(m[n].endpoints.ids, m[n].groups.ids);
      AllFresh(m);
      ok := LinkAndSave(m, loaded, mayFail);
    }

    static twostate lemma AllFresh(new m: map<string, Tag>)
      requires forall n, s | n in m :: fresh(Side(m[n], s))
      ensures fresh(Sets(m, false)) && fresh(Sets(m, true))
    {
    }

    static lemma SavedIsMigrated(m: map<string, Tag>, loaded: map<string, Content>, sets: map<string, Content>, before: map<int, TagRecord>,
        endpoints: map<int, Item>, endpointOrder: seq<int>, groups: map<int, Item>, groupOrder: seq<int>, after: map<int, TagRecord>)
      requires loaded.Keys == sets.Keys == m.Keys && after.Keys == before.Keys
      requires forall n :: n in m ==> m[n].id in before && loaded[n] == Content(before[m[n].id].endpoints, before[m[n].id].groups)
      requires forall n :: n in m ==> sets[n] == Content(loaded[n].endpoints + Carriers(endpoints, endpointOrder, n),
                                                       loaded[n].groups + Carriers(groups, groupOrder, n))
      requires forall t :: t in after ==> after[t] == Saved(m, sets, t, before[t])
      ensures MigratedTags(Ids(m), before, endpoints, endpointOrder, groups, groupOrder, after)
    {
      hide Carriers;
    }

    static lemma SidesApart(m: map<string, Tag>)
      requires Separate(m)
      ensures forall n | n in m :: m[n].endpoints !in Sets(m, true) && m[n].groups !in Sets(m, false)
    {
      forall n | n in m
        ensures m[n].endpoints !in Sets(m, true) && m[n].groups !in Sets(m, false)
      {
        assert Side(m[n], false) == m[n].endpoints && Side(m[n], true) == m[n].groups;
      }
    }

    /** The two steps in the order of the migrator. */
    method MigrateToDBVersion23(mayFail: bool) returns (ok: bool, ghost owners: map<string, int>)
      requires Valid()
      modifies this`tags, this`endpoints, this`groups, this`relations
      ensures Valid() && (!mayFail ==> ok)
      ensures ok ==> tags.Keys == old(tags).Keys && forall t :: t in tags ==> tags[t].name == old(tags)[t].name
      ensures ok ==> IsOwnerMap(owners, tagOrder, old(tags))
      ensures ok ==> MigratedItems(owners, old(endpoints), endpoints) && MigratedItems(owners, old(groups), groups)
      ensures ok ==> Consistent(tags, endpoints, groups)
      ensures ok ==> forall e :: e in endpoints ==> e in relations && relations[e] == {}
    {
      hide IsOwnerMap, IdsOf, Carriers, Consistent;
      owners := map[];
      ok := UpdateTags(mayFail);
      if !ok {
        return;
      }
      ghost var cleared, endpoints0, groups0 := tags, endpoints, groups;
      ok, owners := UpdateEndpointsAndEndpointGroups(mayFail);
      if !ok {
        return;
      }
      MigratedIsConsistent(tagOrder, owners, cleared, endpoints0, endpointOrder, groups0, groupOrder, tags, endpoints, groups);
      SameNamesSameOwners(owners, tagOrder, cleared, old(tags));
    }

    static lemma EmptyMap(tags: map<int, TagRecord>)
      ensures Separate(map[]) && IsOwnerMap(map[], [], tags)
    {
    }
  }

  lemma {:induction false} SameNamesSameOwner(order: seq<int>, a: map<int, TagRecord>, b: map<int, TagRecord>, name: string)
    requires a.Keys == b.Keys && forall t :: t in a ==> a[t].name == b[t].name
    ensures Owner(order, a, name) == Owner(order, b, name)
  {
    if order != [] {
      SameNamesSameOwner(order[..|order| - 1], a, b, name);
    }
  }

  lemma SameNamesSameOwners(owners: map<string, int>, order: seq<int>, a: map<int, TagRecord>, b: map<int, TagRecord>)
    requires a.Keys == b.Keys && forall t :: t in a ==> a[t].name == b[t].name
    requires IsOwnerMap(owners, order, a)
    ensures IsOwnerMap(owners, order, b)
  {
    hide Owner;
    forall name
      ensures (if name in owners then Some(owners[name]) else None) == Owner(order, b, name)
    {
      SameNamesSameOwner(order, a, b, name);
    }
  }

  // ---- The index

  /** Tags list stored endpoints and groups only, and an endpoint (or a group) iff it lists the tag. */
  ghost predicate Consistent(tags: map<int, TagRecord>, endpoints: map<int, Item>, groups: map<int, Item>) {
    && (forall t :: t in tags ==> tags[t].endpoints <= endpoints.Keys && tags[t].groups <= groups.Keys)
    && (forall t, e :: t in tags && e in endpoints ==> (e in tags[t].endpoints <==> t in endpoints[e].tagIds))
    && (forall t, g :: t in tags && g in groups ==> (g in tags[t].groups <==> t in groups[g].tagIds))
  }

  lemma {:induction false} OwnerIsNamed(order: seq<int>, tags: map<int, TagRecord>, name: string)
    ensures Owner(order, tags, name).Some? ==>
              Owner(order, tags, name).value in tags && tags[Owner(order, tags, name).value].name == name
    ensures Owner(order, tags, name).None? ==> forall i | 0 <= i < |order| :: order[i] in tags ==> tags[order[i]].name != name
  {
    if order != [] {
      OwnerIsNamed(order[..|order| - 1], tags, name);
    }
  }

  /** The ids given to an item are the owners of its names. */
  lemma {:induction false} IdsOfIff(names: seq<string>, owners: map<string, int>, t: int)
    ensures t in IdsOf(names, owners) <==> exists n :: n in names && Owns(owners, n, t)
  {
    if names != [] {
      var front, last := names[..|names| - 1], names[|names| - 1];
      IdsOfIff(front, owners, t);
      assert names == front + [last];
      if t in IdsOf(names, owners) && last in owners && owners[last] == t {
        assert Owns(owners, last, t);
      }
    }
  }

  /** If the tags started empty then the result is consistent, however many tags share a name. */
  lemma MigratedIsConsistent(order: seq<int>, owners: map<string, int>, tags: map<int, TagRecord>, endpoints: map<int, Item>, endpointOrder: seq<int>,
      groups: map<int, Item>, groupOrder: seq<int>, tags': map<int, TagRecord>, endpoints': map<int, Item>, groups': map<int, Item>)
    requires forall t :: t in tags ==> tags[t].endpoints == {} && tags[t].groups == {}
    requires (forall e :: e in endpoints ==> e in endpointOrder) && (forall g :: g in groups ==> g in groupOrder)
    requires IsOwnerMap(owners, order, tags)
    requires MigratedTags(owners, tags, endpoints, endpointOrder, groups, groupOrder, tags')
    requires MigratedItems(owners, endpoints, endpoints') && MigratedItems(owners, groups, groups')
    ensures Consistent(tags', endpoints', groups')
  {
    hide IdsOf, IsOwnerMap;
    forall t | t in tags
      ensures tags'[t].endpoints <= endpoints.Keys && tags'[t].groups <= groups.Keys
    {
      CarriersAreStored(endpoints, endpointOrder, tags[t].name);
      CarriersAreStored(groups, groupOrder, tags[t].name);
    }
    forall t, e | t in tags && e in endpoints
      ensures e in tags'[t].endpoints <==> t in endpoints'[e].tagIds
    {
      ListedIff(order, owners, tags, endpoints, t, e);
    }
    forall t, g | t in tags && g in groups
      ensures g in tags'[t].groups <==> t in groups'[g].tagIds
    {
      ListedIff(order, owners, tags, groups, t, g);
    }
  }

  lemma CarriersAreStored(items: map<int, Item>, ids: seq<int>, name: string)
    ensures Carriers(items, ids, name) <= items.Keys
  {
  }

  lemma ListedIff(order: seq<int>, owners: map<string, int>, tags: map<int, TagRecord>, items: map<int, Item>, t: int, id: int)
    requires IsOwnerMap(owners, order, tags) && t in tags && id in items
    ensures t in IdsOf(items[id].tags, owners) <==> Owns(owners, tags[t].name, t) && tags[t].name in items[id].tags
  {
    hide IdsOf, Owner;
    IdsOfIff(items[id].tags, owners, t);
    if exists n :: n in items[id].tags && Owns(owners, n, t) {
      var n :| n in items[id].tags && Owns(owners, n, t);
      OwnerIsNamed(order, tags, n);
    }
  }

  // ---- Which tag answers to a name

  /** No tag listed later has the name of this one. */
  ghost predicate LastOfItsName(order: seq<int>, tags: map<int, TagRecord>, t: int)
    requires t in tags
  {
    exists k | 0 <= k < |order| :: order[k] == t && NoneAfter(order, tags, k, tags[t].name)
  }

  ghost predicate NoneAfter(order: seq<int>, tags: map<int, TagRecord>, k: int, name: string) {
    forall j | 0 <= j < |order| && k < j :: order[j] in tags ==> tags[order[j]].name != name
  }

  /** The last tag listed with the name is its owner. */
  lemma {:induction false} OwnerIsLast(order: seq<int>, tags: map<int, TagRecord>, name: string, k: nat)
    requires k < |order| && order[k] in tags && tags[order[k]].name == name && NoneAfter(order, tags, k, name)
    ensures Owner(order, tags, name) == Some(order[k])
  {
    var n := |order| - 1;
    if k < n {
      assert order[n] in tags ==> tags[order[n]].name != name;
      OwnerIsLast(order[..n], tags, name, k);
    }
  }

  lemma {:induction false} OwnerIsSomeLast(order: seq<int>, tags: map<int, TagRecord>, name: string) returns (k: nat)
    requires Owner(order, tags, name).Some?
    ensures k < |order| && order[k] == Owner(order, tags, name).value && order[k] in tags && tags[order[k]].name == name
    ensures NoneAfter(order, tags, k, name)
  {
    var n := |order| - 1;
    if order[n] in tags && tags[order[n]].name == name {
      k := n;
    } else {
      k := OwnerIsSomeLast(order[..n], tags, name);
      assert forall j | 0 <= j < n :: order[..n][j] == order[j];
    }
  }

  /** After the migration an item lists exactly the tags that are the last of one of its names. */
  lemma ListedIffLast(order: seq<int>, owners: map<string, int>, tags: map<int, TagRecord>, items: map<int, Item>, t: int, id: int)
    requires IsOwnerMap(owners, order, tags) && t in tags && id in items
    ensures t in IdsOf(items[id].tags, owners) <==> LastOfItsName(order, tags, t) && tags[t].name in items[id].tags
  {
    hide IdsOf, Owner, NoneAfter;
    ListedIff(order, owners, tags, items, t, id);
    var name := tags[t].name;
    if LastOfItsName(order, tags, t) {
      var k :| 0 <= k < |order| && order[k] == t && NoneAfter(order, tags, k, name);
      OwnerIsLast(order, tags, name, k);
    }
    if Owner(order, tags, name).Some? {
      var k := OwnerIsSomeLast(order, tags, name);
    }
  }

  /** The ids stand in the order of the names, one for each name that some tag has. */
  lemma {:induction false} IdsOfIs(names: seq<string>, owners: map<string, int>)
    ensures IdsOf(names, owners) ==
            Map((n: string) => if n in owners then owners[n] else 0, Filter((n: string) => n in owners, names))
  {
    var known, id := (n: string) => n in owners, (n: string) => if n in owners then owners[n] else 0;
    if names != [] {
      var front, last := names[..|names| - 1], names[|names| - 1];
      IdsOfIs(front, owners);
      if last in owners {
        MapSnoc(id, Filter(known, front), last);
      }
    }
  }
}
