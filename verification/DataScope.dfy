/** Row-level data permissions (services/data_scope.py, services/resource_policy.py): the lattice of
  * scopes, the resolution of a user's departments for a resource family, the point check and the list
  * filter that must agree, and the three caches of the request. */
module DataScope {
  import opened Options
  import opened PyText

  // ---------------------------------------------------------------- the lattice

  datatype Level = OnlySelf | Dept | DeptAndChild | Everything

  /** SCOPE_RANK. */
  function Rank(l: Level): nat {
    match l case OnlySelf => 1 case Dept => 2 case DeptAndChild => 3 case Everything => 4
  }

  /** widest_scope as its max over the values. */
  function Widest(levels: seq<Level>): Level {
    if levels == [] then OnlySelf
    else
      var rest := Widest(levels[1..]);
      if Rank(levels[0]) >= Rank(rest) then levels[0] else rest
  }

  /** The widest level is one of the levels and none is wider. */
  lemma {:induction false} WidestIsMaximum(levels: seq<Level>)
    ensures forall l :: l in levels ==> Rank(l) <= Rank(Widest(levels))
    ensures if levels == [] then Widest(levels) == OnlySelf else Widest(levels) in levels
  {
    if levels != [] {
      WidestIsMaximum(levels[1..]);
      assert levels == [levels[0]] + levels[1..];
    }
  }

  // ---------------------------------------------------------------- resolution

  datatype Role = Role(id: int, code: string, read: Level, write: Level, delete: Level)

  /** A row of the override table; None inherits the role's default. */
  datatype Override = Override(roleId: int, tag: string, read: Option<Level>, write: Option<Level>, delete: Option<Level>)

  /** The closure table of the department tree. */
  datatype Below = Below(ancestor: int, descendant: int)

  /** What the databases hold about one user during a request. */
  datatype Directory = Directory(
    username: string,
    dept: Option<int>,
    roles: seq<Role>,
    overrides: seq<Override>,
    scopeTags: set<string>,
    closure: seq<Below>)

  const LEGACY_TAG := "legacy"

  /** A set of departments; None is no limit, the empty set is the user alone. */
  type Departments = Option<set<int>>

  datatype Scope = Scope(username: string, read: Departments, write: Departments, delete: Departments, tag: string)

  predicate IncludesAdmin(roles: seq<Role>) {
    exists r :: r in roles && Strip(r.code) == "Administrators"
  }

  /** The last override row of a role for a tag, as the grouping by tag and role keeps it. */
  function OverrideOf(rows: seq<Override>, tag: string, roleId: int): Option<Override> {
    if rows == [] then None
    else
      var last := rows[|rows| - 1];
      if last.tag == tag && last.roleId == roleId then Some(last) else OverrideOf(rows[..|rows| - 1], tag, roleId)
  }

  /** The override that applies to a role when a tag is resolved. */
  function Applicable(d: Directory, tag: string, roleId: int): Option<Override> {
    if tag == LEGACY_TAG || tag !in d.scopeTags then None else OverrideOf(d.overrides, tag, roleId)
  }

  function Or(given: Option<Level>, default: Level): Level {
    if given.Some? then given.value else default
  }

  function ReadLevel(o: Option<Override>, r: Role): Level { if o.Some? then Or(o.value.read, r.read) else r.read }
  function WriteLevel(o: Option<Override>, r: Role): Level { if o.Some? then Or(o.value.write, r.write) else r.write }
  function DeleteLevel(o: Option<Override>, r: Role): Level { if o.Some? then Or(o.value.delete, r.delete) else r.delete }

  datatype Levels = Levels(read: Level, write: Level, delete: Level)

  function AllLevels(d: Directory, tag: string, roles: seq<Role>): (seq<Level>, seq<Level>, seq<Level>) {
    if roles == [] then ([], [], [])
    else
      var o, rest := Applicable(d, tag, roles[0].id), AllLevels(d, tag, roles[1..]);
      ([ReadLevel(o, roles[0])] + rest.0, [WriteLevel(o, roles[0])] + rest.1, [DeleteLevel(o, roles[0])] + rest.2)
  }

  /** _effective_levels. */
  function EffectiveLevels(d: Directory, tag: string): Levels {
    if d.roles == [] then Levels(OnlySelf, OnlySelf, OnlySelf)
    else if IncludesAdmin(d.roles) then Levels(Everything, Everything, Everything)
    else
      var all := AllLevels(d, tag, d.roles);
      Levels(Widest(all.0), Widest(all.1), Widest(all.2))
  }

  function Descendants(closure: seq<Below>, dept: int): seq<int> {
    if closure == [] then []
    else (if closure[0].ancestor == dept then [closure[0].descendant] else []) + Descendants(closure[1..], dept)
  }

  function Items(s: seq<int>): set<int> { set x | x in s }

  /** _dept_ids: department 0 counts as none. */
  function DeptIds(d: Directory, level: Level): seq<int> {
    if d.dept.None? || d.dept.value == 0 then []
    else if level == Dept then [d.dept.value]
    else
      var below := Descendants(d.closure, d.dept.value);
      if below == [] then [d.dept.value] else below
  }

  /** _resolve_depts. */
  function ResolveDepts(d: Directory, level: Level): Departments {
    if level == Everything then None
    else if level == OnlySelf then Some({})
    else Some(Items(DeptIds(d, level)))
  }

  /** _clamp_to_read, for one of the two. */
  function Clamp(read: Departments, other: Departments): Departments {
    if read.None? then other
    else if other.None? then read
    else Some(other.value * read.value)
  }

  /** A resolution without any cache. */
  function Resolved(d: Directory, tag: string): Scope {
    var levels := EffectiveLevels(d, tag);
    var read := ResolveDepts(d, levels.read);
    Scope(d.username, read, Clamp(read, ResolveDepts(d, levels.write)), Clamp(read, ResolveDepts(d, levels.delete)), tag)
  }

  // ---------------------------------------------------------------- owners

  /** normalize_username: without blanks around it, in upper case, cut to 16 characters. */
  function Normalize(name: Option<string>): string {
    var s := Upper(Strip(if name.Some? then name.value else ""));
    if |s| > 16 then s[..16] else s
  }

  /** A row of the user table with its owner key, as the database computes it. */
  datatype UserRow = UserRow(key: string, dept: Option<int>, active: bool)

  /** From owner key to department: the cache of loaded owners. */
  type Owners = map<string, Option<int>>

  /** The department an owner key stands for: that of the last active row that has it. */
  function OwnerDept(users: seq<UserRow>, key: string): Option<int> {
    if users == [] then None
    else
      var last := users[|users| - 1];
      if last.active && last.key == key then last.dept else OwnerDept(users[..|users| - 1], key)
  }

  predicate Within(dept: Option<int>, depts: set<int>) {
    dept.Some? && dept.value in depts
  }

  /** _allows. */
  predicate Allows(s: Scope, depts: Departments, owners: Owners, owner: Option<string>) {
    if depts.None? then true
    else
      var key := Normalize(owner);
      if key == s.username then true
      else if depts.value == {} then false
      else key in owners && Within(owners[key], depts.value)
  }

  predicate CanRead(s: Scope, owners: Owners, owner: Option<string>) { Allows(s, s.read, owners, owner) }
  predicate CanWrite(s: Scope, owners: Owners, owner: Option<string>) { Allows(s, s.write, owners, owner) }
  predicate CanDelete(s: Scope, owners: Owners, owner: Option<string>) { Allows(s, s.delete, owners, owner) }

  /** The rows the condition of read_q selects, by the value of their owner column. */
  predicate Selected(s: Scope, users: seq<UserRow>, owner: string) {
    s.read.None? || owner == s.username
    || (s.read.value != {} && exists u :: u in users && u.active && u.key == owner && Within(u.dept, s.read.value))
  }

  // ---------------------------------------------------------------- more roles, more rights

  predicate Covers(outer: Departments, inner: Departments) {
    outer.None? || (inner.Some? && inner.value <= outer.value)
  }

  /** The department is among its own descendants, or has none listed. */
  predicate ClosureHoldsSelf(d: Directory) {
    d.dept.Some? && d.dept.value != 0 ==>
      var below := Descendants(d.closure, d.dept.value);
      below == [] || d.dept.value in below
  }

  /** A wider level resolves to no fewer departments exactly when the closure table holds the user's own
    * department or nothing below it. */
  lemma {:induction false} WiderCoversIff(d: Directory)
    ensures ClosureHoldsSelf(d) <==>
            forall a: Level, b: Level :: Rank(a) <= Rank(b) ==> Covers(ResolveDepts(d, b), ResolveDepts(d, a))
  {
    if !ClosureHoldsSelf(d) {
      assert d.dept.value in ResolveDepts(d, Dept).value && d.dept.value !in ResolveDepts(d, DeptAndChild).value;
      assert Rank(Dept) <= Rank(DeptAndChild) && !Covers(ResolveDepts(d, DeptAndChild), ResolveDepts(d, Dept));
    }
  }

  lemma {:induction false} AllLevelsHold(d: Directory, tag: string, roles: seq<Role>)
    ensures var all := AllLevels(d, tag, roles);
            && |all.0| == |roles| && |all.1| == |roles| && |all.2| == |roles|
            && forall i :: 0 <= i < |roles| ==>
                 var o := Applicable(d, tag, roles[i].id);
                 && all.0[i] == ReadLevel(o, roles[i])
                 && all.1[i] == WriteLevel(o, roles[i])
                 && all.2[i] == DeleteLevel(o, roles[i])
  {
    if roles != [] {
      AllLevelsHold(d, tag, roles[1..]);
    }
  }

  predicate MoreRoles(d: Directory, d': Directory) {
    d' == d.(roles := d'.roles) && forall r :: r in d.roles ==> r in d'.roles
  }

  predicate Includes(all: seq<Level>, some: seq<Level>) {
    forall l :: l in some ==> l in all
  }

  lemma {:induction false} WidestMonotone(a: seq<Level>, b: seq<Level>)
    requires Includes(b, a)
    ensures Rank(Widest(a)) <= Rank(Widest(b))
  {
    WidestIsMaximum(a);
    WidestIsMaximum(b);
  }

  lemma {:induction false} SameApplicable(d: Directory, d': Directory, tag: string, roleId: int)
    requires MoreRoles(d, d')
    ensures Applicable(d', tag, roleId) == Applicable(d, tag, roleId)
  {
  }

  /** Each level a role gives is still given when there are more roles. */
  lemma {:induction false} LevelStays(d: Directory, d': Directory, tag: string, i: nat)
    requires MoreRoles(d, d') && i < |d.roles|
    ensures var a, b := AllLevels(d, tag, d.roles), AllLevels(d', tag, d'.roles);
            && i < |a.0| && i < |a.1| && i < |a.2|
            && a.0[i] in b.0 && a.1[i] in b.1 && a.2[i] in b.2
  {
    AllLevelsHold(d, tag, d.roles);
    AllLevelsHold(d', tag, d'.roles);
    SameApplicable(d, d', tag, d.roles[i].id);
    assert d.roles[i] in d'.roles;
    var k :| 0 <= k < |d'.roles| && d'.roles[k] == d.roles[i];
    var b := AllLevels(d', tag, d'.roles);
    assert b.0[k] in b.0 && b.1[k] in b.1 && b.2[k] in b.2;
  }

  lemma {:induction false} AllLevelsStay(d: Directory, d': Directory, tag: string)
    requires MoreRoles(d, d')
    ensures var a, b := AllLevels(d, tag, d.roles), AllLevels(d', tag, d'.roles);
            Includes(b.0, a.0) && Includes(b.1, a.1) && Includes(b.2, a.2)
  {
    AllLevelsHold(d, tag, d.roles);
    forall i | 0 <= i < |d.roles|
      ensures var a, b := AllLevels(d, tag, d.roles), AllLevels(d', tag, d'.roles);
              a.0[i] in b.0 && a.1[i] in b.1 && a.2[i] in b.2
    {
      LevelStays(d, d', tag, i);
    }
  }

  /** Keeping the roles and adding others never narrows a level. */
  lemma {:induction false} LevelsMonotone(d: Directory, d': Directory, tag: string)
    requires MoreRoles(d, d')
    ensures var a, b := EffectiveLevels(d, tag), EffectiveLevels(d', tag);
            Rank(a.read) <= Rank(b.read) && Rank(a.write) <= Rank(b.write) && Rank(a.delete) <= Rank(b.delete)
  {
    if d.roles != [] && !IncludesAdmin(d'.roles) {
      assert d.roles[0] in d'.roles;
      var a, b := AllLevels(d, tag, d.roles), AllLevels(d', tag, d'.roles);
      AllLevelsStay(d, d', tag);
      WidestMonotone(a.0, b.0);
      WidestMonotone(a.1, b.1);
      WidestMonotone(a.2, b.2);
    }
  }

  lemma {:induction false} ScopeMonotone(d: Directory, d': Directory, tag: string)
    requires MoreRoles(d, d') && ClosureHoldsSelf(d)
    ensures var s, s' := Resolved(d, tag), Resolved(d', tag);
            Covers(s'.read, s.read) && Covers(s'.write, s.write) && Covers(s'.delete, s.delete)
  {
    LevelsMonotone(d, d', tag);
    WiderCoversIff(d);
    var a, b := EffectiveLevels(d, tag), EffectiveLevels(d', tag);
    SameDepts(d, d', b.read);
    SameDepts(d, d', b.write);
    SameDepts(d, d', b.delete);
    assert Covers(ResolveDepts(d, b.read), ResolveDepts(d, a.read));
    assert Covers(ResolveDepts(d, b.write), ResolveDepts(d, a.write));
    assert Covers(ResolveDepts(d, b.delete), ResolveDepts(d, a.delete));
  }

  lemma {:induction false} SameDepts(d: Directory, d': Directory, level: Level)
    requires MoreRoles(d, d')
    ensures ResolveDepts(d', level) == ResolveDepts(d, level)
  {
  }

  /** Adding roles never takes a right away, whatever overrides, defaults and admin roles there are. */
  lemma {:induction false} MoreRolesMoreRights(d: Directory, d': Directory, tag: string, owners: Owners, owner: Option<string>)
    requires MoreRoles(d, d') && ClosureHoldsSelf(d)
    ensures CanRead(Resolved(d, tag), owners, owner) ==> CanRead(Resolved(d', tag), owners, owner)
    ensures CanWrite(Resolved(d, tag), owners, owner) ==> CanWrite(Resolved(d', tag), owners, owner)
    ensures CanDelete(Resolved(d, tag), owners, owner) ==> CanDelete(Resolved(d', tag), owners, owner)
  {
    ScopeMonotone(d, d', tag);
  }

  predicate KeepsRights(d: Directory, d': Directory, tag: string, owners: Owners, owner: Option<string>) {
    && (CanRead(Resolved(d, tag), owners, owner) ==> CanRead(Resolved(d', tag), owners, owner))
    && (CanWrite(Resolved(d, tag), owners, owner) ==> CanWrite(Resolved(d', tag), owners, owner))
    && (CanDelete(Resolved(d, tag), owners, owner) ==> CanDelete(Resolved(d', tag), owners, owner))
  }

  /** The same directory but for roles and overrides. */
  predicate SameBut(d: Directory, a: Directory) {
    a == d.(roles := a.roles, overrides := a.overrides)
  }

  /** And for all roles and overrides that holds exactly under the condition on the closure table: without it
    * a second role hides a department that the first one showed. */
  lemma {:induction false} MoreRolesMoreRightsIff(d: Directory, tag: string)
    ensures ClosureHoldsSelf(d) <==>
            forall a: Directory, b: Directory, owners: Owners, owner: Option<string> | SameBut(d, a) && MoreRoles(a, b) ::
              KeepsRights(a, b, tag, owners, owner)
  {
    if ClosureHoldsSelf(d) {
      forall a: Directory, b: Directory, owners: Owners, owner: Option<string> | SameBut(d, a) && MoreRoles(a, b)
        ensures KeepsRights(a, b, tag, owners, owner)
      {
        MoreRolesMoreRights(a, b, tag, owners, owner);
      }
    } else {
      var a, b, owners, owner := SecondRoleHides(d, tag);
    }
  }

  /** Two roles, and an owner whom the second role hides. */
  lemma {:induction false} SecondRoleHides(d: Directory, tag: string)
    returns (a: Directory, b: Directory, owners: Owners, owner: Option<string>)
    requires !ClosureHoldsSelf(d)
    ensures SameBut(d, a) && MoreRoles(a, b) && !KeepsRights(a, b, tag, owners, owner)
  {
    var one, two := Role(1, "A", Dept, OnlySelf, OnlySelf), Role(2, "B", DeptAndChild, OnlySelf, OnlySelf);
    a, b := d.(roles := [one], overrides := []), d.(roles := [one] + [two], overrides := []);
    var name := if d.username == "A" then "B" else "A";
    owners, owner := map[name := Some(d.dept.value)], Some(name);
    TwoRoles(d, tag, one, two);
    OnlyOneReads(d, Resolved(a, tag), Resolved(b, tag), name);
    RightLost(a, b, tag, owners, owner);
  }

  lemma {:induction false} RightLost(a: Directory, b: Directory, tag: string, owners: Owners, owner: Option<string>)
    requires CanRead(Resolved(a, tag), owners, owner) && !CanRead(Resolved(b, tag), owners, owner)
    ensures !KeepsRights(a, b, tag, owners, owner)
  {
  }

  /** Of two scopes with these departments only the first reads the user's own department. */
  lemma {:induction false} OnlyOneReads(d: Directory, s: Scope, s': Scope, name: string)
    requires !ClosureHoldsSelf(d) && (name == "A" || name == "B")
    requires s.read == ResolveDepts(d, Dept) && s'.read == ResolveDepts(d, DeptAndChild) && s'.username != name
    ensures var owners: Owners := map[name := Some(d.dept.value)];
            CanRead(s, owners, Some(name)) && !CanRead(s', owners, Some(name))
  {
    LetterNormal(name);
    assert d.dept.value in ResolveDepts(d, Dept).value && d.dept.value !in ResolveDepts(d, DeptAndChild).value;
  }

  lemma {:induction false} LetterNormal(name: string)
    requires name == "A" || name == "B"
    ensures Normalize(Some(name)) == name
  {
    assert Strip(name) == name;
    assert name[1..] == "" && Upper(name) == name;
  }

  lemma {:induction false} ShortCodesAreNotAdmin(roles: seq<Role>)
    requires forall r :: r in roles ==> |r.code| < 14
    ensures !IncludesAdmin(roles)
  {
    forall r | r in roles ensures Strip(r.code) != "Administrators" {
      assert |Strip(r.code)| <= |StripLeft(r.code)| <= |r.code|;
      assert |"Administrators"| == 14;
    }
  }

  /** Without overrides and admin roles the read scope is the widest of the roles' own. */
  lemma {:induction false} ReadOfRoles(d: Directory, tag: string, roles: seq<Role>, levels: seq<Level>)
    requires roles != [] && |levels| == |roles| && forall i :: 0 <= i < |roles| ==> levels[i] == roles[i].read
    requires forall r :: r in roles ==> |r.code| < 14
    ensures Resolved(d.(roles := roles, overrides := []), tag).read == ResolveDepts(d, Widest(levels))
  {
    var d' := d.(roles := roles, overrides := []);
    ShortCodesAreNotAdmin(roles);
    AllLevelsHold(d', tag, roles);
    assert AllLevels(d', tag, roles).0 == levels;
  }

  lemma {:induction false} TwoRoles(d: Directory, tag: string, a: Role, b: Role)
    requires a.read == Dept && b.read == DeptAndChild && |a.code| < 14 && |b.code| < 14
    ensures Resolved(d.(roles := [a], overrides := []), tag).read == ResolveDepts(d, Dept)
    ensures Resolved(d.(roles := [a] + [b], overrides := []), tag).read == ResolveDepts(d, DeptAndChild)
  {
    ReadOfRoles(d, tag, [a], [Dept]);
    ReadOfRoles(d, tag, [a] + [b], [Dept, DeptAndChild]);
    WidestIsMaximum([Dept]);
    WidestIsMaximum([Dept, DeptAndChild]);
    assert Dept in [Dept, DeptAndChild] && DeptAndChild in [Dept, DeptAndChild];
  }

  /** What may be changed or deleted may be seen. */
  lemma {:induction false} WritableIsReadable(d: Directory, tag: string, owners: Owners, owner: Option<string>)
    ensures CanWrite(Resolved(d, tag), owners, owner) || CanDelete(Resolved(d, tag), owners, owner)
            ==> CanRead(Resolved(d, tag), owners, owner)
  {
  }

  // ---------------------------------------------------------------- list filter and point check

  /** The cache holds what the user table says. */
  predicate Faithful(owners: Owners, users: seq<UserRow>) {
    forall k :: k in owners ==> owners[k] == OwnerDept(users, k)
  }

  /** All active rows with this key agree with the last one, where they name a department. */
  predicate OneDept(users: seq<UserRow>, key: string) {
    forall u :: u in users && u.active && u.key == key && u.dept.Some? ==> u.dept == OwnerDept(users, key)
  }

  lemma {:induction false} OwnerDeptListed(users: seq<UserRow>, key: string)
    requires OwnerDept(users, key).Some?
    ensures exists u :: u in users && u.active && u.key == key && u.dept == OwnerDept(users, key)
  {
    var last := users[|users| - 1];
    assert users == users[..|users| - 1] + [last];
    if last.active && last.key == key {
      assert last in users;
    } else {
      OwnerDeptListed(users[..|users| - 1], key);
      var u :| u in users[..|users| - 1] && u.active && u.key == key && u.dept == OwnerDept(users[..|users| - 1], key);
      assert u in users;
    }
  }

  /** For a stored owner that is normalised and has been loaded, the list filter selects its rows exactly
    * when the point check allows reading them. */
  lemma {:induction false} FilterAgreesWithCheck(s: Scope, users: seq<UserRow>, owners: Owners, owner: string)
    requires Normalize(Some(owner)) == owner && owner in owners && Faithful(owners, users) && OneDept(users, owner)
    ensures Selected(s, users, owner) <==> CanRead(s, owners, Some(owner))
  {
    if OwnerDept(users, owner).Some? {
      OwnerDeptListed(users, owner);
    }
  }

  /** And that is so for every scope exactly when the active rows of that key name one department. */
  lemma {:induction false} FilterAgreesIff(users: seq<UserRow>, owners: Owners, owner: string)
    requires Normalize(Some(owner)) == owner && owner in owners && Faithful(owners, users)
    ensures OneDept(users, owner) <==>
            forall s: Scope :: Selected(s, users, owner) <==> CanRead(s, owners, Some(owner))
  {
    if OneDept(users, owner) {
      forall s: Scope ensures Selected(s, users, owner) <==> CanRead(s, owners, Some(owner)) {
        FilterAgreesWithCheck(s, users, owners, owner);
      }
    } else {
      var u :| u in users && u.active && u.key == owner && u.dept.Some? && u.dept != OwnerDept(users, owner);
      var s := Scope(owner + "X", Some({u.dept.value}), Some({}), Some({}), "");
      assert Within(u.dept, s.read.value);
      assert owner != s.username by { assert |owner| != |s.username|; }
      assert Selected(s, users, owner) && !CanRead(s, owners, Some(owner));
    }
  }

  // ---------------------------------------------------------------- normalised names

  lemma {:induction false} UpperChars(s: string)
    ensures |Upper(s)| == |s| && forall i :: 0 <= i < |s| ==> IsSpace(Upper(s)[i]) == IsSpace(s[i])
    ensures Upper(Upper(s)) == Upper(s)
  {
    if s != "" {
      UpperChars(s[1..]);
      assert Upper(s)[1..] == Upper(s[1..]);
    }
  }

  lemma {:induction false} UpperTake(s: string, n: nat)
    requires n <= |s|
    ensures |Upper(s)| == |s| && Upper(s[..n]) == Upper(s)[..n]
  {
    UpperChars(s);
    if n > 0 {
      UpperTake(s[1..], n - 1);
      assert s[..n][1..] == s[1..][..n - 1];
    }
  }

  lemma {:induction false} StripKeepsTight(s: string)
    ensures s == "" || (!IsSpace(s[0]) && !IsSpace(s[|s| - 1])) ==> Strip(s) == s
  {
  }

  lemma {:induction false} StripIsTight(s: string)
    ensures var t := Strip(s); t == "" || (!IsSpace(t[0]) && !IsSpace(t[|t| - 1]))
  {
    var l := StripLeft(s);
    StripRightPrefix(l);
  }

  lemma {:induction false} StripRightPrefix(s: string)
    ensures var t := StripRight(s); t != "" ==> t[0] == s[0] && !IsSpace(t[|t| - 1])
  {
    if s != "" && IsSpace(s[|s| - 1]) {
      StripRightPrefix(s[..|s| - 1]);
    }
  }

  /** Cutting at 16 characters can leave a blank at the end, which a second normalisation takes away: the
    * stored form is stable exactly when the cut does not fall after a blank. */
  lemma {:induction false} NormalizeStableIff(name: string)
    ensures var t := Strip(name);
            Normalize(Some(Normalize(Some(name)))) == Normalize(Some(name)) <==> |t| <= 16 || !IsSpace(t[15])
  {
    var t := Strip(name);
    StripIsTight(name);
    UpperChars(t);
    if |t| <= 16 {
      StripKeepsTight(Upper(t));
    } else {
      UpperTake(Upper(t), 16);
      CutIsStableIff(Upper(t)[..16]);
    }
  }

  lemma {:induction false} CutIsStableIff(c: string)
    requires |c| == 16 && Upper(c) == c && !IsSpace(c[0])
    ensures Normalize(Some(c)) == c <==> !IsSpace(c[15])
  {
    if IsSpace(c[15]) {
      StripShortens(c);
      UpperChars(Strip(c));
    } else {
      StripKeepsTight(c);
    }
  }

  lemma {:induction false} StripShortens(s: string)
    requires s != "" && IsSpace(s[|s| - 1])
    ensures |Strip(s)| < |s|
  {
    var l := StripLeft(s);
    if l != "" {
      StripLeftSuffix(s);
    }
  }

  lemma {:induction false} StripLeftSuffix(s: string)
    ensures var l := StripLeft(s); l != "" ==> |s| > 0 && l[|l| - 1] == s[|s| - 1]
  {
    if s != "" && IsSpace(s[0]) {
      StripLeftSuffix(s[1..]);
    }
  }
}
