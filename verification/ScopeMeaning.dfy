/** What a resolved scope shows (services/data_scope.py), said of roles, override rows and the closure table
  * themselves: an override replaces the role's own level field by field, the widest level counts, and what may be
  * changed is cut down to what may be read. */
module ScopeMeaning {
  import opened Options
  import PyText
  import opened PyBlanks
  import opened DataScope

  // ---------------------------------------------------------------- levels

  predicate Wider(a: Level, b: Level) {
    match a
    case Everything => b != Everything
    case DeptAndChild => b == Dept || b == OnlySelf
    case Dept => b == OnlySelf
    case OnlySelf => false
  }

  /** The tag is one that roles can override. */
  predicate Overridable(d: Directory, tag: string) {
    tag != "legacy" && tag in d.scopeTags
  }

  /** Row i is the role's last override row for the tag. */
  predicate LastRow(rows: seq<Override>, tag: string, roleId: int, i: int) {
    && 0 <= i < |rows| && rows[i].tag == tag && rows[i].roleId == roleId
    && forall j :: i < j < |rows| ==> rows[j].tag != tag || rows[j].roleId != roleId
  }

  /** The level that a role gives in one field: that of its last override row for the tag, where the row gives
    * one, and the role's own otherwise. */
  ghost predicate Gives(d: Directory, tag: string, roleId: int, own: Level, field: Override -> Option<Level>, level: Level) {
    if Overridable(d, tag) && exists i :: LastRow(d.overrides, tag, roleId, i) && field(d.overrides[i]).Some? then
      exists i :: LastRow(d.overrides, tag, roleId, i) && field(d.overrides[i]) == Some(level)
    else level == own
  }

  /** The widest of the levels that the roles give in one field. */
  ghost predicate IsWidest(d: Directory, tag: string, own: Role -> Level, field: Override -> Option<Level>, level: Level) {
    && (exists r :: r in d.roles && Gives(d, tag, r.id, own(r), field, level))
    && forall r, l: Level :: r in d.roles && Gives(d, tag, r.id, own(r), field, l) ==> !Wider(l, level)
  }

  /** A role with the code of the administrators, but for blanks around it. */
  ghost predicate HasAdmin(roles: seq<Role>) {
    exists r :: r in roles && IsAdminCode(r.code)
  }

  ghost predicate IsAdminCode(code: string) {
    exists i: nat, j: nat :: StandsAt(code, i, j) && code[i..j] == "Administrators"
  }

  lemma {:induction false} AdminIff(roles: seq<Role>)
    ensures IncludesAdmin(roles) <==> HasAdmin(roles)
  {
    forall r | r in roles ensures IsAdminCode(r.code) <==> PyText.Strip(r.code) == "Administrators" {
      StripIff(r.code, "Administrators");
    }
  }

  ghost predicate LevelsMean(d: Directory, tag: string, levels: Levels) {
    if d.roles == [] then levels.read == levels.write == levels.delete == OnlySelf
    else if HasAdmin(d.roles) then levels.read == levels.write == levels.delete == Everything
    else
      && IsWidest(d, tag, (r: Role) => r.read, (o: Override) => o.read, levels.read)
      && IsWidest(d, tag, (r: Role) => r.write, (o: Override) => o.write, levels.write)
      && IsWidest(d, tag, (r: Role) => r.delete, (o: Override) => o.delete, levels.delete)
  }

  lemma {:induction false} OverrideIs(rows: seq<Override>, tag: string, roleId: int)
    ensures var o := OverrideOf(rows, tag, roleId);
            if o.Some? then exists i :: LastRow(rows, tag, roleId, i) && rows[i] == o.value
            else forall i :: !LastRow(rows, tag, roleId, i)
  {
    if rows != [] {
      var k := |rows| - 1;
      if rows[k].tag == tag && rows[k].roleId == roleId {
        assert LastRow(rows, tag, roleId, k);
      } else {
        OverrideIs(rows[..k], tag, roleId);
        forall i ensures LastRow(rows, tag, roleId, i) <==> LastRow(rows[..k], tag, roleId, i) {
          LastRowShorter(rows, tag, roleId, i);
        }
      }
    }
  }

  lemma {:induction false} LastRowShorter(rows: seq<Override>, tag: string, roleId: int, i: int)
    requires rows != [] && (rows[|rows| - 1].tag != tag || rows[|rows| - 1].roleId != roleId)
    ensures LastRow(rows, tag, roleId, i) <==> LastRow(rows[..|rows| - 1], tag, roleId, i)
  {
  }

  lemma {:induction false} OneLastRow(rows: seq<Override>, tag: string, roleId: int, i: int, j: int)
    requires LastRow(rows, tag, roleId, i) && LastRow(rows, tag, roleId, j)
    ensures i == j
  {
  }

  /** What the applicable row says is what the role gives. */
  lemma {:induction false} GivenLevel(d: Directory, tag: string, roleId: int, own: Level, field: Override -> Option<Level>, level: Level)
    ensures Gives(d, tag, roleId, own, field, level) <==>
            var o := Applicable(d, tag, roleId);
            if o.Some? && field(o.value).Some? then field(o.value) == Some(level) else level == own
  {
    OverrideIs(d.overrides, tag, roleId);
    var o := OverrideOf(d.overrides, tag, roleId);
    if o.Some? {
      var i :| LastRow(d.overrides, tag, roleId, i) && d.overrides[i] == o.value;
      forall j | LastRow(d.overrides, tag, roleId, j) ensures d.overrides[j] == o.value {
        OneLastRow(d.overrides, tag, roleId, i, j);
      }
    }
  }

  lemma {:induction false} WidestNotWider(levels: seq<Level>, l: Level)
    requires l in levels
    ensures !Wider(l, Widest(levels))
  {
    WidestIsMaximum(levels);
  }

  /** The levels of one field, role by role, and the widest of them. */
  lemma {:induction false} WidestMeans(d: Directory, tag: string, own: Role -> Level, field: Override -> Option<Level>, levels: seq<Level>)
    requires d.roles != [] && |levels| == |d.roles|
    requires forall i :: 0 <= i < |d.roles| ==>
               var o := Applicable(d, tag, d.roles[i].id);
               levels[i] == if o.Some? && field(o.value).Some? then field(o.value).value else own(d.roles[i])
    ensures IsWidest(d, tag, own, field, Widest(levels))
  {
    WidestIsMaximum(levels);
    var k :| 0 <= k < |levels| && levels[k] == Widest(levels);
    GivenLevel(d, tag, d.roles[k].id, own(d.roles[k]), field, levels[k]);
    assert d.roles[k] in d.roles;
    forall r, l: Level | r in d.roles && Gives(d, tag, r.id, own(r), field, l) ensures !Wider(l, Widest(levels)) {
      var i :| 0 <= i < |d.roles| && d.roles[i] == r;
      GivenLevel(d, tag, r.id, own(r), field, l);
      assert l == levels[i];
      WidestNotWider(levels, l);
    }
  }

  /** The levels of a user without an administrator's role are the widest over the roles, in each field. */
  lemma {:induction false} EffectiveMeans(d: Directory, tag: string)
    ensures LevelsMean(d, tag, EffectiveLevels(d, tag))
  {
    AdminIff(d.roles);
    if d.roles != [] && !HasAdmin(d.roles) {
      var all := AllLevels(d, tag, d.roles);
      AllLevelsHold(d, tag, d.roles);
      WidestMeans(d, tag, (r: Role) => r.read, (o: Override) => o.read, all.0);
      WidestMeans(d, tag, (r: Role) => r.write, (o: Override) => o.write, all.1);
      WidestMeans(d, tag, (r: Role) => r.delete, (o: Override) => o.delete, all.2);
    }
  }

  // ---------------------------------------------------------------- departments

  /** The closure table has the department below another. */
  predicate IsBelow(d: Directory, dept: int, x: int) {
    Below(dept, x) in d.closure
  }

  /** The departments of a level: no limit; the user's own; those below it, or itself where the closure table has
    * none; none at all. Department 0 counts as none. */
  ghost predicate DeptsMean(d: Directory, level: Level, depts: Departments) {
    match level
    case Everything => depts == None
    case OnlySelf => depts == Some({})
    case Dept => depts.Some? && forall x :: x in depts.value <==> d.dept == Some(x) && x != 0
    case DeptAndChild =>
      && depts.Some?
      && forall x :: x in depts.value <==>
           d.dept.Some? && d.dept.value != 0 &&
           (IsBelow(d, d.dept.value, x) || (x == d.dept.value && forall y :: !IsBelow(d, d.dept.value, y)))
  }

  lemma {:induction false} DescendantsAre(closure: seq<Below>, dept: int)
    ensures forall x :: x in Descendants(closure, dept) <==> Below(dept, x) in closure
  {
    if closure != [] {
      DescendantsAre(closure[1..], dept);
      assert closure == [closure[0]] + closure[1..];
    }
  }

  lemma {:induction false} ResolvedDepts(d: Directory, level: Level)
    ensures DeptsMean(d, level, ResolveDepts(d, level))
  {
    if d.dept.Some? {
      var below := Descendants(d.closure, d.dept.value);
      DescendantsAre(d.closure, d.dept.value);
      if below != [] {
        assert below[0] in below;
        assert IsBelow(d, d.dept.value, below[0]);
      }
    }
  }

  predicate Shows(depts: Departments, x: int) { depts.None? || x in depts.value }

  /** Cut down to what may be read. */
  ghost predicate CutDown(depts: Departments, full: Departments, read: Departments) {
    (depts.None? <==> full.None? && read.None?) && forall x :: Shows(depts, x) <==> Shows(full, x) && Shows(read, x)
  }

  /** What a scope of the user for a tag is. */
  ghost predicate ScopeMeans(d: Directory, tag: string, s: Scope) {
    && s.username == d.username && s.tag == tag
    && exists levels, write, delete ::
         && LevelsMean(d, tag, levels) && DeptsMean(d, levels.read, s.read)
         && DeptsMean(d, levels.write, write) && CutDown(s.write, write, s.read)
         && DeptsMean(d, levels.delete, delete) && CutDown(s.delete, delete, s.read)
  }

  /** The resolved scope shows what the roles, their override rows and the closure table say. */
  lemma {:induction false} ResolvedMeans(d: Directory, tag: string)
    ensures ScopeMeans(d, tag, Resolved(d, tag))
  {
    var levels := EffectiveLevels(d, tag);
    EffectiveMeans(d, tag);
    ResolvedDepts(d, levels.read);
    ResolvedDepts(d, levels.write);
    ResolvedDepts(d, levels.delete);
    var read, write, delete := ResolveDepts(d, levels.read), ResolveDepts(d, levels.write), ResolveDepts(d, levels.delete);
    Clamped(read, write);
    Clamped(read, delete);
  }

  lemma {:induction false} Clamped(read: Departments, other: Departments)
    ensures CutDown(Clamp(read, other), other, read)
  {
  }

  /** Without roles the user is alone; with an administrator's role nothing is limited, whatever the overrides. */
  lemma {:induction false} Extremes(d: Directory, tag: string)
    ensures var s := Resolved(d, tag);
            && (d.roles == [] ==> s.read == s.write == s.delete == Some({}))
            && (HasAdmin(d.roles) ==> s.read == s.write == s.delete == None)
  {
    AdminIff(d.roles);
    var none: set<int> := {};
    assert none * none == none;
  }

  // ---------------------------------------------------------------- owners and rights

  /** The key of an account: its name without the blanks around it, in capitals, and no more than 16 characters of it. */
  ghost predicate IsKey(name: string, key: string) {
    exists i: nat, j: nat :: StandsAt(name, i, j) && IsKeyAt(name, i, j, key)
  }

  predicate IsKeyAt(name: string, i: nat, j: nat, key: string)
    requires i <= j <= |name|
  {
    && |key| == (if j - i < 16 then j - i else 16)
    && forall k :: 0 <= k < |key| ==> IsCapital(name[i + k], key[k])
  }

  lemma {:induction false} KeyIff(name: Option<string>, key: string)
    ensures Normalize(name) == key <==> IsKey(if name.Some? then name.value else "", key)
  {
    var text := if name.Some? then name.value else "";
    var i, j := StripStands(text);
    UpperAt(text[i..j]);
    KeyAtIff(text, i, j, Normalize(name));
    forall k: nat, l: nat | StandsAt(text, k, l) && IsKeyAt(text, k, l, key) ensures Normalize(name) == key {
      StandsOnce(text, i, j, k, l);
      SameKey(text, i, j, k, l, Normalize(name), key);
    }
  }

  lemma {:induction false} KeyAtIff(text: string, i: nat, j: nat, key: string)
    requires i <= j <= |text| && |PyText.Upper(text[i..j])| == j - i
    requires forall k :: 0 <= k < j - i ==> IsCapital(text[i..j][k], PyText.Upper(text[i..j])[k])
    requires key == if j - i > 16 then PyText.Upper(text[i..j])[..16] else PyText.Upper(text[i..j])
    ensures IsKeyAt(text, i, j, key)
  {
  }

  lemma {:induction false} SameKey(text: string, i: nat, j: nat, k: nat, l: nat, a: string, b: string)
    requires i <= j <= |text| && k <= l <= |text| && text[i..j] == text[k..l]
    requires IsKeyAt(text, i, j, a) && IsKeyAt(text, k, l, b)
    ensures a == b
  {
    assert |text[i..j]| == |text[k..l]|;
    forall m | 0 <= m < |a| ensures a[m] == b[m] {
      assert text[i..j][m] == text[i + m] && text[k..l][m] == text[k + m];
    }
  }

  /** Nothing is limited, or the record is the user's own, or its owner was loaded with one of the departments. */
  predicate MayTouch(username: string, depts: Departments, owners: Owners, key: string) {
    depts.None? || key == username || (key in owners && owners[key].Some? && owners[key].value in depts.value)
  }

  /** Reading, changing and deleting go by their own departments each. */
  lemma {:induction false} RightsIff(s: Scope, owners: Owners, owner: Option<string>)
    ensures CanRead(s, owners, owner) <==> MayTouch(s.username, s.read, owners, Normalize(owner))
    ensures CanWrite(s, owners, owner) <==> MayTouch(s.username, s.write, owners, Normalize(owner))
    ensures CanDelete(s, owners, owner) <==> MayTouch(s.username, s.delete, owners, Normalize(owner))
  {
  }
}
