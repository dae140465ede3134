/** The per-request objects of data permissions (services/data_scope.py): the resolver that loads roles'
  * overrides, departments and scopes once, and the scope that loads owners' departments on demand. The
  * caches are invisible: every answer is that of an uncached resolution. */
module ScopeResolver {
  import opened Options
  import opened PyText
  import opened DataScope
  import opened ScopeMeaning

  // ---------------------------------------------------------------- loading owners

  function Keys(owners: seq<Option<string>>): set<string> {
    (set o | o in owners :: Normalize(o)) - {""}
  }

  /** The cache after a load: what was known stays, new keys get their department. */
  function Loaded(cache: Owners, owners: seq<Option<string>>, users: seq<UserRow>): Owners {
    LoadedKeys(cache, Keys(owners), users)
  }

  /** The query of load_owners: active users with one of the keys. */
  function Rows(users: seq<UserRow>, pending: set<string>): seq<UserRow> {
    if users == [] then []
    else
      var last := users[|users| - 1];
      Rows(users[..|users| - 1], pending) + if last.active && last.key in pending then [last] else []
  }

  lemma {:induction false} RowsDept(users: seq<UserRow>, pending: set<string>, k: string)
    requires k in pending
    ensures OwnerDept(Rows(users, pending), k) == OwnerDept(users, k)
  {
    if users != [] {
      var n := |users| - 1;
      RowsDept(users[..n], pending, k);
      var r := Rows(users[..n], pending);
      assert (r + [users[n]])[..|r|] == r && r + [] == r;
    }
  }

  lemma {:induction false} RowsKeys(users: seq<UserRow>, pending: set<string>)
    ensures forall r :: r in Rows(users, pending) ==> r.active && r.key in pending
  {
    if users != [] {
      RowsKeys(users[..|users| - 1], pending);
    }
  }

  function LoadedKeys(cache: Owners, keys: set<string>, users: seq<UserRow>): Owners {
    map k | k in cache.Keys + keys :: if k in cache then cache[k] else OwnerDept(users, k)
  }

  lemma {:induction false} LoadingKeys(cache: Owners, a: set<string>, b: set<string>, users: seq<UserRow>)
    ensures LoadedKeys(LoadedKeys(cache, a, users), b, users) == LoadedKeys(cache, a + b, users)
  {
  }

  /** The keys asked for have the answer of these rows so far, the others are as before. */
  ghost predicate Answered(cache: Owners, before: Owners, pending: set<string>, rows: seq<UserRow>) {
    && (forall k :: k in pending ==> (if k in cache then cache[k] else None) == OwnerDept(rows, k))
    && (forall k :: k !in pending ==> (k in cache <==> k in before) && (k in cache ==> cache[k] == before[k]))
  }

  method KeysOf(names: seq<Option<string>>) returns (keys: set<string>)
    ensures keys == Keys(names)
  {
    keys := {};
    assert names[..0] == [];
    for i := 0 to |names|
      invariant keys == set o | o in names[..i] :: Normalize(o)
    {
      assert names[..i + 1] == names[..i] + [names[i]];
      keys := keys + {Normalize(names[i])};
    }
    assert names[..|names|] == names;
    keys := keys - {""};
  }

  /** The result of loading does not depend on the batches or their order. */
  lemma {:induction false} LoadingOrder(cache: Owners, a: seq<Option<string>>, b: seq<Option<string>>, users: seq<UserRow>)
    ensures Loaded(Loaded(cache, a, users), b, users) == Loaded(cache, a + b, users)
    ensures Loaded(Loaded(cache, a, users), b, users) == Loaded(Loaded(cache, b, users), a, users)
  {
    KeysConcat(a, b);
    LoadingKeys(cache, Keys(a), Keys(b), users);
    LoadingKeys(cache, Keys(b), Keys(a), users);
    assert Keys(a) + Keys(b) == Keys(b) + Keys(a);
  }

  lemma {:induction false} KeysConcat(a: seq<Option<string>>, b: seq<Option<string>>)
    ensures Keys(a + b) == Keys(a) + Keys(b)
  {
    forall k | k in Keys(a) ensures k in Keys(a + b) {
      var o :| o in a && Normalize(o) == k;
      assert o in a + b;
    }
    forall k | k in Keys(b) ensures k in Keys(a + b) {
      var o :| o in b && Normalize(o) == k;
      assert o in a + b;
    }
  }

  function LoadedAll(batches: seq<seq<Option<string>>>, users: seq<UserRow>): Owners {
    if batches == [] then map[]
    else Loaded(LoadedAll(batches[..|batches| - 1], users), batches[|batches| - 1], users)
  }

  lemma {:induction false} LoadedAllHolds(batches: seq<seq<Option<string>>>, users: seq<UserRow>)
    ensures Faithful(LoadedAll(batches, users), users)
    ensures forall i, o :: 0 <= i < |batches| && o in batches[i] && Normalize(o) != "" ==>
              Normalize(o) in LoadedAll(batches, users)
  {
    if batches != [] {
      LoadedAllHolds(batches[..|batches| - 1], users);
    }
  }

  /** The list filter and the point check agree on every stored owner of a list, however its owners were
    * loaded, when the owner is normalised and its active users are in one department. */
  lemma {:induction false} FilterAgreesAfterLoading(s: Scope, users: seq<UserRow>, batches: seq<seq<Option<string>>>,
                                                    i: nat, owner: string)
    requires i < |batches| && Some(owner) in batches[i]
    requires owner != "" && Normalize(Some(owner)) == owner && OneDept(users, owner)
    ensures Selected(s, users, owner) <==> CanRead(s, LoadedAll(batches, users), Some(owner))
  {
    LoadedAllHolds(batches, users);
    FilterAgreesWithCheck(s, users, LoadedAll(batches, users), owner);
  }

  // ---------------------------------------------------------------- overrides

  type Grouped = map<string, map<int, Override>>

  function Lookup(g: Grouped, tag: string, roleId: int): Option<Override> {
    if tag in g && roleId in g[tag] then Some(g[tag][roleId]) else None
  }

  /** The query of the override table: rows of these roles and tags. */
  function Relevant(rows: seq<Override>, roles: seq<Role>, tags: set<string>): seq<Override> {
    if rows == [] then []
    else
      var last := rows[|rows| - 1];
      Relevant(rows[..|rows| - 1], roles, tags)
      + if last.tag in tags && (exists r :: r in roles && r.id == last.roleId) then [last] else []
  }

  lemma {:induction false} RelevantOverride(rows: seq<Override>, roles: seq<Role>, tags: set<string>, tag: string, role: Role)
    requires role in roles
    ensures OverrideOf(Relevant(rows, roles, tags), tag, role.id) == if tag in tags then OverrideOf(rows, tag, role.id) else None
  {
    if rows != [] {
      var n := |rows| - 1;
      RelevantOverride(rows[..n], roles, tags, tag, role);
      var r := Relevant(rows[..n], roles, tags);
      assert (r + [rows[n]])[..|r|] == r && r + [] == r;
    }
  }

  lemma {:induction false} LevelCounts(d: Directory, tag: string, roles: seq<Role>)
    ensures var all := AllLevels(d, tag, roles); |all.0| == |roles| && |all.1| == |roles| && |all.2| == |roles|
  {
    AllLevelsHold(d, tag, roles);
  }

  lemma {:induction false} LevelsAt(d: Directory, tag: string, i: nat)
    requires i < |d.roles|
    ensures var all, role := AllLevels(d, tag, d.roles), d.roles[i];
            var o := Applicable(d, tag, role.id);
            && |all.0| == |all.1| == |all.2| == |d.roles|
            && all.0[..i + 1] == all.0[..i] + [ReadLevel(o, role)]
            && all.1[..i + 1] == all.1[..i] + [WriteLevel(o, role)]
            && all.2[..i + 1] == all.2[..i] + [DeleteLevel(o, role)]
  {
    AllLevelsHold(d, tag, d.roles);
  }

  // ---------------------------------------------------------------- objects

  class RequestScope {
    const value: Scope
    const isSystem: bool
    const resolver: Resolver?
    var owners: Owners

    constructor (value: Scope, isSystem: bool, resolver: Resolver?)
      ensures this.value == value && this.isSystem == isSystem && this.resolver == resolver && owners == map[]
    {
      this.value, this.isSystem, this.resolver, owners := value, isSystem, resolver, map[];
    }

    method LoadOwners(names: seq<Option<string>>, users: seq<UserRow>)
      modifies this`owners
      ensures owners == if isSystem then old(owners) else Loaded(old(owners), names, users)
    {
      if isSystem {
        return;
      }
      var keys := KeysOf(names);
      Fetch(keys, users);
    }

    /** The rest of load_owners, for the normalised keys. */
    method Fetch(keys: set<string>, users: seq<UserRow>)
      modifies this`owners
      ensures owners == LoadedKeys(old(owners), keys, users)
    {
      var pending := set k | k in keys && k !in owners;
      assert forall k :: k in keys && k !in owners ==> k in pending;
      if pending == {} {
        return;
      }
      var rows := Rows(users, pending);
      RowsKeys(users, pending);
      assert rows[..0] == [];
      for i := 0 to |rows|
        invariant Answered(owners, old(owners), pending, rows[..i])
      {
        assert rows[..i + 1][..i] == rows[..i];
        assert rows[i] in rows;
        owners := owners[rows[i].key := rows[i].dept];
      }
      assert rows[..|rows|] == rows;
      forall k | k in pending ensures OwnerDept(rows, k) == OwnerDept(users, k) {
        RowsDept(users, pending, k);
      }
      var left := pending;
      while left != {}
        invariant left <= pending && Answered(owners, old(owners), pending, users)
        invariant forall k :: k in pending && k !in left ==> k in owners
      {
        var k :| k in left;
        if k !in owners {
          owners := owners[k := None];
        }
        left := left - {k};
      }
    }

    /** for_tag: a scope for another resource family, from the shared resolver. */
    method ForTag(tag: string) returns (s: RequestScope)
      requires resolver != null ==> resolver.Valid()
      modifies resolver
      ensures isSystem || resolver == null || tag == value.tag ==> s == this && (resolver != null ==> unchanged(resolver))
      ensures !isSystem && resolver != null && tag != value.tag ==> s.value == Resolved(resolver.d, tag) && s.resolver == resolver
      ensures resolver != null ==> resolver.Valid()
    {
      if isSystem || resolver == null || tag == value.tag {
        return this;
      }
      s := resolver.Resolve(tag);
    }
  }

  class Resolver {
    const d: Directory
    var overrides: Option<Grouped>
    var depts: map<Level, Departments>
    var scopes: map<string, RequestScope>

    constructor (d: Directory)
      ensures Valid() && this.d == d && scopes == map[]
    {
      this.d, overrides, depts, scopes := d, None, map[], map[];
    }

    /** Every cached entry is what a fresh computation gives. */
    ghost predicate Valid()
      reads this
    {
      && (overrides.Some? ==> forall tag: string, r :: r in d.roles ==>
            Lookup(overrides.value, tag, r.id) == if tag in d.scopeTags then OverrideOf(d.overrides, tag, r.id) else None)
      && (forall l :: l in depts ==> depts[l] == ResolveDepts(d, l))
      && (forall t :: t in scopes ==> scopes[t].value == Resolved(d, t) && scopes[t].resolver == this && !scopes[t].isSystem)
    }

    method TagOverrides(tag: string) returns (m: map<int, Override>)
      requires Valid()
      modifies this`overrides
      ensures Valid()
      ensures forall r :: r in d.roles ==> (if r.id in m then Some(m[r.id]) else None) == Applicable(d, tag, r.id)
    {
      if tag == LEGACY_TAG || d.roles == [] {
        return map[];
      }
      if overrides.None? {
        var rows := Relevant(d.overrides, d.roles, d.scopeTags);
        var grouped: Grouped := map[];
        assert rows[..0] == [];
        for i := 0 to |rows|
          invariant forall t: string, id: int :: Lookup(grouped, t, id) == OverrideOf(rows[..i], t, id)
        {
          var row := rows[i];
          ghost var before := grouped;
          assert rows[..i + 1][..i] == rows[..i];
          if row.tag !in grouped {
            grouped := grouped[row.tag := map[]];
          }
          grouped := grouped[row.tag := grouped[row.tag][row.roleId := row]];
          forall t: string, id: int ensures Lookup(grouped, t, id) == OverrideOf(rows[..i + 1], t, id) {
            assert Lookup(before, t, id) == OverrideOf(rows[..i], t, id);
          }
        }
        assert rows[..|rows|] == rows;
        forall t: string, r | r in d.roles
          ensures Lookup(grouped, t, r.id) == if t in d.scopeTags then OverrideOf(d.overrides, t, r.id) else None
        {
          RelevantOverride(d.overrides, d.roles, d.scopeTags, t, r);
        }
        overrides := Some(grouped);
      }
      m := if tag in overrides.value then overrides.value[tag] else map[];
      forall r | r in d.roles
        ensures (if r.id in m then Some(m[r.id]) else None) == Applicable(d, tag, r.id)
      {
        assert Lookup(overrides.value, tag, r.id) == if tag in d.scopeTags then OverrideOf(d.overrides, tag, r.id) else None;
      }
    }

    method Effective(tag: string) returns (levels: Levels)
      requires Valid()
      modifies this`overrides
      ensures Valid() && levels == EffectiveLevels(d, tag) && LevelsMean(d, tag, levels)
    {
      EffectiveMeans(d, tag);
      if d.roles == [] {
        return Levels(OnlySelf, OnlySelf, OnlySelf);
      }
      if IncludesAdmin(d.roles) {
        return Levels(Everything, Everything, Everything);
      }
      var read, write, delete := Collect(tag);
      levels := Levels(Widest(read), Widest(write), Widest(delete));
    }

    /** The loop over the roles. */
    method Collect(tag: string) returns (read: seq<Level>, write: seq<Level>, delete: seq<Level>)
      requires Valid()
      modifies this`overrides
      ensures Valid()
      ensures var all := AllLevels(d, tag, d.roles); read == all.0 && write == all.1 && delete == all.2
    {
      var found := TagOverrides(tag);
      read, write, delete := [], [], [];
      ghost var all := AllLevels(d, tag, d.roles);
      LevelCounts(d, tag, d.roles);
      for i := 0 to |d.roles|
        invariant Valid() && read == all.0[..i] && write == all.1[..i] && delete == all.2[..i]
      {
        var role := d.roles[i];
        assert role in d.roles;
        var o := if role.id in found then Some(found[role.id]) else None;
        LevelsAt(d, tag, i);
        read := read + [ReadLevel(o, role)];
        write := write + [WriteLevel(o, role)];
        delete := delete + [DeleteLevel(o, role)];
      }
      assert all.0[..|d.roles|] == all.0 && all.1[..|d.roles|] == all.1 && all.2[..|d.roles|] == all.2;
    }

    method DeptsOf(level: Level) returns (r: Departments)
      requires Valid()
      modifies this`depts
      ensures Valid() && r == ResolveDepts(d, level)
    {
      if level !in depts {
        depts := depts[level := ResolveDepts(d, level)];
      }
      r := depts[level];
    }

    /** resolve: the scope of a tag, the same object for the same tag. */
    method Resolve(tag: string) returns (s: RequestScope)
      requires Valid()
      modifies this
      ensures Valid() && s.value == Resolved(d, tag) && s.resolver == this && !s.isSystem
      ensures ScopeMeans(d, tag, s.value)
      ensures tag in old(scopes) ==> s == old(scopes)[tag] && unchanged(this)
      ensures tag !in old(scopes) ==> fresh(s) && scopes == old(scopes)[tag := s]
    {
      ResolvedMeans(d, tag);
      if tag in scopes {
        return scopes[tag];
      }
      var value := Resolution(tag);
      s := new RequestScope(value, false, this);
      scopes := scopes[tag := s];
    }

    /** The levels, their departments, and what of them may be read. */
    method Resolution(tag: string) returns (value: Scope)
      requires Valid()
      modifies this`overrides, this`depts
      ensures Valid() && value == Resolved(d, tag)
    {
      var levels := Effective(tag);
      var read := DeptsOf(levels.read);
      var write := DeptsOf(levels.write);
      var delete := DeptsOf(levels.delete);
      value := Scope(d.username, read, Clamp(read, write), Clamp(read, delete), tag);
    }
  }
}
