/** The table of test cases (applications/autotest/services/autotest_case_crud.py): creation, restoring,
  * updating, hard and soft deletion and batch saving, as functions on the table, and what every run of
  * them keeps. Permission, parent and attachment checks can only reject; they are parameters. */
module CaseTable {
  import opened Options

  datatype CaseType = PrivateScript | PublicScript | PublicApi

  /** The columns of the uniqueness constraint. The type may be NULL, which SQL never counts as equal. */
  datatype Key = Key(project: int, name: string, ctype: Option<CaseType>, owner: string)

  datatype Case = Case(key: Key, tags: Option<seq<int>>, version: int, enabled: bool, code: string, updated: int)

  type Rows = map<int, Case>

  /** The rows, the id of the next one, and the time of the next write. */
  datatype Table = Table(rows: Rows, next: int, now: int)

  /** A field of a request: left out, sent as null, or sent with a value. */
  datatype Given<+T> = Unset | Nulled | Set(value: T)

  // ---------------------------------------------------------------- rules

  predicate NonEmpty(tags: Option<seq<int>>) {
    tags.Some? && tags.value != []
  }

  /** _normalize_case_tags: interfaces carry no tags, public scripts may, all others must. */
  function NormalizeTags(ctype: Option<CaseType>, tags: Option<seq<int>>): Result<Option<seq<int>>, string> {
    if ctype == Some(PublicApi) then (if NonEmpty(tags) then Err("no tags allowed") else Ok(None))
    else if !NonEmpty(tags) then (if ctype == Some(PublicScript) then Ok(None) else Err("tags required"))
    else Ok(tags)
  }

  /** Which of two rows a lookup prefers: enabled before deleted, then the one updated last, then by id. */
  predicate Ahead(rows: Rows, i: int, j: int)
    requires i in rows && j in rows
  {
    if rows[i].enabled != rows[j].enabled then rows[i].enabled
    else if rows[i].updated != rows[j].updated then rows[i].updated > rows[j].updated
    else i < j
  }

  predicate IsHolder(rows: Rows, key: Key, i: int)
    requires i in rows
  {
    rows[i].key == key && forall j :: j in rows && j != i && rows[j].key == key ==> Ahead(rows, i, j)
  }

  function AllAhead(rows: Rows, k: int): set<int>
    requires k in rows
  {
    set i | i in rows && i != k && Ahead(rows, i, k)
  }

  /** From a row of the key to the one that is ahead of all. */
  lemma {:induction false} Climb(rows: Rows, key: Key, k: int) returns (i: int)
    requires k in rows && rows[k].key == key
    ensures i in rows && IsHolder(rows, key, i)
    decreases AllAhead(rows, k)
  {
    if j :| j in rows && j != k && rows[j].key == key && !Ahead(rows, k, j) {
      assert j in AllAhead(rows, k) && j !in AllAhead(rows, j);
      assert AllAhead(rows, j) <= AllAhead(rows, k);
      i := Climb(rows, key, j);
    } else {
      i := k;
    }
  }

  lemma {:induction false} HolderExists(rows: Rows, key: Key)
    requires exists i :: i in rows && rows[i].key == key
    ensures exists i :: i in rows && IsHolder(rows, key, i)
  {
    var k :| k in rows && rows[k].key == key;
    var i := Climb(rows, key, k);
  }

  /** The row a lookup by business key finds, enabled or not. */
  ghost function Holder(rows: Rows, key: Key): (r: Option<int>)
    ensures r.Some? ==> r.value in rows && IsHolder(rows, key, r.value)
    ensures r.None? ==> forall i :: i in rows ==> rows[i].key != key
  {
    if exists i :: i in rows && rows[i].key == key then
      HolderExists(rows, key);
      var i :| i in rows && IsHolder(rows, key, i);
      Some(i)
    else None
  }

  predicate CodeInUse(rows: Rows, code: string) {
    exists i :: i in rows && rows[i].code == code
  }

  /** An enabled row, by id when there is one, else by code. */
  ghost function Located(rows: Rows, id: Option<int>, code: Option<string>): (r: Option<int>)
    ensures r.Some? ==> r.value in rows && rows[r.value].enabled
  {
    if id.Some? then (if id.value in rows && rows[id.value].enabled then id else None)
    else if code.Some? && exists i :: i in rows && rows[i].enabled && rows[i].code == code.value then
      var i :| i in rows && rows[i].enabled && rows[i].code == code.value;
      Some(i)
    else None
  }

  // ---------------------------------------------------------------- creating

  datatype NewCase = NewCase(name: string, project: int, ctype: Given<CaseType>, tags: Option<seq<int>>, code: string)

  /** The type the request schema shows, with its default. */
  function ShownType(c: NewCase): Option<CaseType> {
    match c.ctype
    case Unset => Some(PrivateScript)
    case Nulled => None
    case Set(t) => Some(t)
  }

  /** The type that reaches the row: the dump leaves out what was not sent. */
  function StoredType(c: NewCase): Option<CaseType> {
    match c.ctype
    case Unset => None
    case Nulled => None
    case Set(t) => Some(t)
  }

  /** _restore_and_overwrite_case. */
  function Restored(row: Case, ctype: Option<CaseType>, tags: Option<seq<int>>, now: int): Case {
    row.(key := row.key.(ctype := if ctype.Some? then ctype else row.key.ctype),
         tags := tags,
         version := (if row.version == 0 then 1 else row.version) + 1,
         enabled := true,
         updated := now)
  }

  /** Inserting, or waking a soft-deleted row of the looked-up key; None where the request is refused. */
  ghost function Placed(t: Table, lookup: Key, stored: Option<CaseType>, tags: Option<seq<int>>, code: string): Option<Table> {
    var h := Holder(t.rows, lookup);
    if h.Some? then
      if t.rows[h.value].enabled then None
      else Some(t.(rows := t.rows[h.value := Restored(t.rows[h.value], stored, tags, t.now)], now := t.now + 1))
    else if CodeInUse(t.rows, code) then None
    else Some(Table(t.rows[t.next := Case(lookup.(ctype := stored), tags, 1, true, code, t.now)], t.next + 1, t.now + 1))
  }

  /** create_case. */
  ghost function Created(t: Table, c: NewCase, owner: string): Option<Table> {
    var tags := NormalizeTags(ShownType(c), c.tags);
    if tags.Err? then None
    else Placed(t, Key(c.project, c.name, ShownType(c), owner), StoredType(c), tags.value, c.code)
  }

  // ---------------------------------------------------------------- updating

  /** An update request; `others` says whether it has fields besides these. */
  datatype Change = Change(
    id: Option<int>,
    code: Option<string>,
    name: Option<string>,
    project: Option<int>,
    ctype: Option<CaseType>,
    tags: Given<seq<int>>,
    others: bool)

  predicate IsEmpty(c: Change) {
    c.name.None? && c.project.None? && c.ctype.None? && c.tags.Unset? && !c.others
  }

  function TagsOf(g: Given<seq<int>>, current: Option<seq<int>>): Option<seq<int>> {
    match g
    case Unset => current
    case Nulled => None
    case Set(s) => Some(s)
  }

  function ChangedKey(row: Case, c: Change): Key {
    Key(if c.project.Some? then c.project.value else row.key.project,
        if c.name.Some? then c.name.value else row.key.name,
        if c.ctype.Some? then c.ctype else row.key.ctype,
        row.key.owner)
  }

  /** The tags after an update; Err where they break the rule for the type. */
  function ChangedTags(row: Case, c: Change): Result<Option<seq<int>>, string> {
    var ctype := ChangedKey(row, c).ctype;
    if ctype == Some(PublicApi) then
      if c.tags.Set? && c.tags.value != [] then Err("no tags allowed") else Ok(None)
    else if !c.tags.Unset? || (c.ctype.Some? && row.key.ctype == Some(PublicApi)) then
      NormalizeTags(ctype, TagsOf(c.tags, row.tags))
    else Ok(row.tags)
  }

  predicate TouchesKey(c: Change) {
    c.name.Some? || c.project.Some? || c.ctype.Some?
  }

  predicate TakenByOther(rows: Rows, key: Key, id: int) {
    exists i :: i in rows && i != id && rows[i].key == key
  }

  /** The update of one located row. */
  function Updated(t: Table, id: int, c: Change): Option<Table>
    requires id in t.rows
  {
    var row := t.rows[id];
    var tags := ChangedTags(row, c);
    if tags.Err? || (TouchesKey(c) && TakenByOther(t.rows, ChangedKey(row, c), id)) then None
    else
      var row' := row.(key := ChangedKey(row, c), tags := tags.value, version := row.version + 1, updated := t.now);
      Some(t.(rows := t.rows[id := row'], now := t.now + 1))
  }

  // ---------------------------------------------------------------- deleting

  function HardDeleted(t: Table, id: int): Table {
    t.(rows := t.rows - {id})
  }

  function SoftDeleted(t: Table, ids: seq<int>): Table {
    t.(rows := map i | i in t.rows :: if i in ids then t.rows[i].(enabled := false) else t.rows[i])
  }

  predicate AllEnabled(rows: Rows, ids: seq<int>) {
    forall i :: i in ids ==> i in rows && rows[i].enabled
  }

  // ---------------------------------------------------------------- what must hold

  /** At most one row per key, soft-deleted rows included. */
  predicate Unique(rows: Rows) {
    forall i, j :: i in rows && j in rows && rows[i].key == rows[j].key ==> i == j
  }

  predicate UntaggedInterfaces(rows: Rows) {
    forall i :: i in rows && rows[i].key.ctype == Some(PublicApi) ==> !NonEmpty(rows[i].tags)
  }

  predicate SoundVersions(rows: Rows) {
    forall i :: i in rows ==> rows[i].version >= 1
  }

  predicate UniqueCodes(rows: Rows) {
    forall i, j :: i in rows && j in rows && rows[i].code == rows[j].code ==> i == j
  }

  /** All but the uniqueness of keys. */
  predicate WellKept(t: Table) {
    && UntaggedInterfaces(t.rows) && SoundVersions(t.rows) && UniqueCodes(t.rows)
    && forall i :: i in t.rows ==> i < t.next
  }

  predicate Invariant(t: Table) {
    Unique(t.rows) && WellKept(t)
  }

  /** No row that stays has its version lowered, or its owner changed. */
  predicate NeverLowered(before: Rows, after: Rows) {
    forall i :: i in before && i in after ==>
      after[i].version >= before[i].version && after[i].key.owner == before[i].key.owner && after[i].code == before[i].code
  }

  // ---------------------------------------------------------------- each operation

  lemma {:induction false} InsertedKeeps(t: Table, row: Case)
    requires WellKept(t) && !CodeInUse(t.rows, row.code) && row.version >= 1
    requires row.key.ctype == Some(PublicApi) ==> !NonEmpty(row.tags)
    ensures var t' := Table(t.rows[t.next := row], t.next + 1, t.now + 1);
            && WellKept(t') && NeverLowered(t.rows, t'.rows) && t.rows.Keys <= t'.rows.Keys
            && |t'.rows| == |t.rows| + 1
  {
    assert t.next !in t.rows;
  }

  lemma {:induction false} ReplacedKeeps(t: Table, id: int, row: Case)
    requires WellKept(t) && id in t.rows && row.code == t.rows[id].code && row.key.owner == t.rows[id].key.owner
    requires row.version >= t.rows[id].version
    requires row.key.ctype == Some(PublicApi) ==> !NonEmpty(row.tags)
    ensures var t' := t.(rows := t.rows[id := row], now := t.now + 1);
            && WellKept(t') && NeverLowered(t.rows, t'.rows) && t.rows.Keys <= t'.rows.Keys
            && |t'.rows| == |t.rows|
  {
    assert t.rows[id := row].Keys == t.rows.Keys;
  }

  lemma {:induction false} PlacedKeeps(t: Table, lookup: Key, stored: Option<CaseType>, tags: Option<seq<int>>, code: string)
    requires WellKept(t) && Placed(t, lookup, stored, tags, code).Some?
    requires stored.Some? ==> stored == lookup.ctype
    requires lookup.ctype == Some(PublicApi) ==> !NonEmpty(tags)
    ensures var t' := Placed(t, lookup, stored, tags, code).value;
            && WellKept(t') && NeverLowered(t.rows, t'.rows) && t.rows.Keys <= t'.rows.Keys
            && |t'.rows| == |t.rows| + if Holder(t.rows, lookup).Some? then 0 else 1
  {
    var h := Holder(t.rows, lookup);
    if h.Some? {
      ReplacedKeeps(t, h.value, Restored(t.rows[h.value], stored, tags, t.now));
    } else {
      InsertedKeeps(t, Case(lookup.(ctype := stored), tags, 1, true, code, t.now));
    }
  }

  /** Placing under the looked-up key keeps keys unique. */
  lemma {:induction false} PlacedKeepsUnique(t: Table, lookup: Key, tags: Option<seq<int>>, code: string)
    requires Invariant(t) && Placed(t, lookup, lookup.ctype, tags, code).Some?
    ensures Unique(Placed(t, lookup, lookup.ctype, tags, code).value.rows)
  {
    var h := Holder(t.rows, lookup);
    if h.Some? {
      assert Restored(t.rows[h.value], lookup.ctype, tags, t.now).key == t.rows[h.value].key;
    }
  }

  lemma {:induction false} CreatedKeeps(t: Table, c: NewCase, owner: string)
    requires WellKept(t) && Created(t, c, owner).Some?
    ensures WellKept(Created(t, c, owner).value) && NeverLowered(t.rows, Created(t, c, owner).value.rows)
  {
    var tags := NormalizeTags(ShownType(c), c.tags).value;
    PlacedKeeps(t, Key(c.project, c.name, ShownType(c), owner), StoredType(c), tags, c.code);
  }

  /** A creation keeps keys unique exactly when the request names a type or sends null for it, or else
    * wakes a deleted row, or no row without type has the rest of the key. */
  lemma {:induction false} CreateKeepsUniqueIff(t: Table, c: NewCase, owner: string)
    requires Invariant(t) && Created(t, c, owner).Some?
    ensures Unique(Created(t, c, owner).value.rows) <==>
            || !c.ctype.Unset?
            || Holder(t.rows, Key(c.project, c.name, ShownType(c), owner)).Some?
            || Holder(t.rows, Key(c.project, c.name, None, owner)).None?
  {
    var tags := NormalizeTags(ShownType(c), c.tags).value;
    var lookup := Key(c.project, c.name, ShownType(c), owner);
    var t' := Created(t, c, owner).value;
    if !c.ctype.Unset? {
      PlacedKeepsUnique(t, lookup, tags, c.code);
    } else if Holder(t.rows, lookup).Some? {
      var i := Holder(t.rows, lookup).value;
      assert t'.rows[i].key == t.rows[i].key;
    } else if Holder(t.rows, lookup.(ctype := None)).Some? {
      var i := Holder(t.rows, lookup.(ctype := None)).value;
      assert t'.rows[i].key == t'.rows[t.next].key && i != t.next;
    }
  }

  /** The same request twice, without a type: both are accepted, and the table then has two equal keys. */
  lemma {:induction false} UnsetTypeDuplicates(name: string, project: int, owner: string, tag: int, code: string, code': string)
    requires code != code'
    ensures var t := Table(map[], 1, 0);
            var c := NewCase(name, project, Unset, Some([tag]), code);
            var once := Created(t, c, owner);
            && once.Some?
            && var twice := Created(once.value, c.(code := code'), owner);
               twice.Some? && Invariant(once.value) && !Unique(twice.value.rows)
  {
    var t := Table(map[], 1, 0);
    var c := NewCase(name, project, Unset, Some([tag]), code);
    var lookup, stored := Key(project, name, Some(PrivateScript), owner), Key(project, name, None, owner);
    assert Holder(t.rows, lookup).None?;
    var once := Created(t, c, owner).value;
    assert once == Table(map[1 := Case(stored, Some([tag]), 1, true, code, 0)], 2, 1);
    assert Holder(once.rows, lookup).None?;
    var twice := Created(once, c.(code := code'), owner).value;
    assert twice.rows[1].key == twice.rows[2].key;
  }

  lemma {:induction false} UpdatedKeeps(t: Table, id: int, c: Change)
    requires WellKept(t) && id in t.rows && Updated(t, id, c).Some?
    ensures var t' := Updated(t, id, c).value;
            && WellKept(t') && NeverLowered(t.rows, t'.rows) && t.rows.Keys <= t'.rows.Keys
            && |t'.rows| == |t.rows| && t'.rows[id].version == t.rows[id].version + 1
  {
    ReplacedKeeps(t, id, Updated(t, id, c).value.rows[id]);
  }

  lemma {:induction false} UpdatedKeepsUnique(t: Table, id: int, c: Change)
    requires Unique(t.rows) && id in t.rows && Updated(t, id, c).Some?
    ensures Unique(Updated(t, id, c).value.rows)
  {
    var t' := Updated(t, id, c).value;
    forall i, j | i in t'.rows && j in t'.rows && t'.rows[i].key == t'.rows[j].key ensures i == j {
      if i == id && j != id {
        OtherKeeps(t, id, c, j);
      } else if j == id && i != id {
        OtherKeeps(t, id, c, i);
      }
    }
  }

  /** An accepted update does not take the key of another row. */
  lemma {:induction false} OtherKeeps(t: Table, id: int, c: Change, i: int)
    requires Unique(t.rows) && id in t.rows && i in t.rows && i != id && Updated(t, id, c).Some?
    ensures t.rows[i].key != ChangedKey(t.rows[id], c)
  {
  }

  lemma {:induction false} DeletedKeeps(t: Table, id: int, ids: seq<int>)
    requires WellKept(t)
    ensures WellKept(HardDeleted(t, id)) && NeverLowered(t.rows, HardDeleted(t, id).rows)
    ensures WellKept(SoftDeleted(t, ids)) && NeverLowered(t.rows, SoftDeleted(t, ids).rows)
    ensures Unique(t.rows) ==> Unique(HardDeleted(t, id).rows) && Unique(SoftDeleted(t, ids).rows)
  {
  }

  // ---------------------------------------------------------------- batch saving

  /** One entry of a batch: the request, the code a new row would get, and whether the checks pass. */
  datatype Entry = Entry(change: Change, newCode: string, checks: bool)

  datatype Progress = Progress(
    table: Table,
    processed: set<(int, string)>,
    created: nat,
    updated: nat,
    skipped: nat,
    failed: bool)

  predicate Repeated(p: Progress, c: Change) {
    c.id.Some? && c.code.Some? && (c.id.value, c.code.value) in p.processed
  }

  function Noted(processed: set<(int, string)>, id: int, code: Option<string>): set<(int, string)> {
    if code.Some? then processed + {(id, code.value)} else processed
  }

  /** The part of the loop that creates. */
  ghost function BatchCreate(p: Progress, e: Entry, owner: string): Progress {
    var c := e.change;
    var tags := NormalizeTags(c.ctype, TagsOf(c.tags, None));
    if tags.Err? || c.name.None? || c.project.None? || c.project == Some(0) || !e.checks then p.(failed := true)
    else
      var lookup := Key(c.project.value, c.name.value, c.ctype, owner);
      var t := Placed(p.table, lookup, c.ctype, tags.value, e.newCode);
      if t.None? then p.(failed := true)
      else if Holder(p.table.rows, lookup).Some? then
        var id := Holder(p.table.rows, lookup).value;
        p.(table := t.value, processed := Noted(p.processed, id, Some(p.table.rows[id].code)), updated := p.updated + 1)
      else
        p.(table := t.value, processed := Noted(p.processed, p.table.next, Some(e.newCode)), created := p.created + 1)
  }

  /** The part of the loop that updates a located row. */
  function BatchUpdate(p: Progress, e: Entry, id: int): Progress
    requires id in p.table.rows
  {
    var c := e.change;
    if !e.checks then p.(failed := true)
    else if IsEmpty(c) then p.(processed := Noted(p.processed, id, c.code), skipped := p.skipped + 1)
    else
      var t := Updated(p.table, id, c);
      if t.None? then p.(failed := true)
      else p.(table := t.value, processed := Noted(p.processed, id, c.code), updated := p.updated + 1)
  }

  ghost function BatchStep(p: Progress, e: Entry, owner: string): Progress {
    if p.failed then p
    else if Repeated(p, e.change) then p.(skipped := p.skipped + 1)
    else
      var id := Located(p.table.rows, e.change.id, e.change.code);
      if id.None? then BatchCreate(p, e, owner) else BatchUpdate(p, e, id.value)
  }

  /** batch_update_or_create_cases: the rows saved before a refusal stay. */
  ghost function Batch(t: Table, entries: seq<Entry>, owner: string): Progress {
    if entries == [] then Progress(t, {}, 0, 0, 0, false)
    else BatchStep(Batch(t, entries[..|entries| - 1], owner), entries[|entries| - 1], owner)
  }

  /** What a step of a batch does to the table. */
  ghost predicate Advances(t: Table, t': Table) {
    && WellKept(t') && NeverLowered(t.rows, t'.rows) && t.rows.Keys <= t'.rows.Keys
    && (Unique(t.rows) ==> Unique(t'.rows))
  }

  lemma {:induction false} PlacedAdvances(t: Table, lookup: Key, tags: Option<seq<int>>, code: string)
    requires WellKept(t) && Placed(t, lookup, lookup.ctype, tags, code).Some?
    requires lookup.ctype == Some(PublicApi) ==> !NonEmpty(tags)
    ensures var t' := Placed(t, lookup, lookup.ctype, tags, code).value;
            Advances(t, t') && |t'.rows| == |t.rows| + if Holder(t.rows, lookup).Some? then 0 else 1
  {
    PlacedKeeps(t, lookup, lookup.ctype, tags, code);
    if Unique(t.rows) {
      PlacedKeepsUnique(t, lookup, tags, code);
    }
  }

  lemma {:induction false} UpdatedAdvances(t: Table, id: int, c: Change)
    requires WellKept(t) && id in t.rows && Updated(t, id, c).Some?
    ensures Advances(t, Updated(t, id, c).value) && |Updated(t, id, c).value.rows| == |t.rows|
  {
    UpdatedKeeps(t, id, c);
    if Unique(t.rows) {
      UpdatedKeepsUnique(t, id, c);
    }
  }

  lemma {:induction false} RefusedAdvances(t: Table)
    requires WellKept(t)
    ensures Advances(t, t)
  {
  }

  lemma {:induction false} RuleForInterfaces(ctype: Option<CaseType>, tags: Option<seq<int>>)
    requires NormalizeTags(ctype, tags).Ok? && ctype == Some(PublicApi)
    ensures !NonEmpty(NormalizeTags(ctype, tags).value)
  {
  }

  lemma {:induction false} BatchCreateKeeps(p: Progress, e: Entry, owner: string)
    requires WellKept(p.table)
    ensures var p' := BatchCreate(p, e, owner);
            Advances(p.table, p'.table) && |p'.table.rows| - |p.table.rows| == p'.created - p.created
  {
    var c := e.change;
    if BatchCreate(p, e, owner).failed {
      RefusedAdvances(p.table);
    } else {
      var tags := NormalizeTags(c.ctype, TagsOf(c.tags, None)).value;
      if c.ctype == Some(PublicApi) {
        RuleForInterfaces(c.ctype, TagsOf(c.tags, None));
      }
      PlacedAdvances(p.table, Key(c.project.value, c.name.value, c.ctype, owner), tags, e.newCode);
    }
  }

  lemma {:induction false} BatchUpdateKeeps(p: Progress, e: Entry, id: int)
    requires WellKept(p.table) && id in p.table.rows
    ensures var p' := BatchUpdate(p, e, id);
            Advances(p.table, p'.table) && |p'.table.rows| - |p.table.rows| == p'.created - p.created
  {
    RefusedAdvances(p.table);
    if Updated(p.table, id, e.change).Some? {
      UpdatedAdvances(p.table, id, e.change);
    }
  }

  lemma {:induction false} BatchStepKeeps(p: Progress, e: Entry, owner: string)
    requires WellKept(p.table)
    ensures var p' := BatchStep(p, e, owner);
            && Advances(p.table, p'.table) && |p'.table.rows| - |p.table.rows| == p'.created - p.created
            && (!p'.failed ==> p'.created + p'.updated + p'.skipped == p.created + p.updated + p.skipped + 1)
  {
    if !p.failed && !Repeated(p, e.change) {
      var id := Located(p.table.rows, e.change.id, e.change.code);
      if id.None? {
        BatchCreateKeeps(p, e, owner);
      } else {
        BatchUpdateKeeps(p, e, id.value);
      }
    }
  }

  /** A batch keeps the table sound even where it stops, deletes nothing, grows the table by the creations
    * it counts, and counts every entry once. */
  lemma {:induction false} BatchKeeps(t: Table, entries: seq<Entry>, owner: string)
    requires WellKept(t)
    ensures var p := Batch(t, entries, owner);
            && WellKept(p.table) && NeverLowered(t.rows, p.table.rows) && t.rows.Keys <= p.table.rows.Keys
            && (Unique(t.rows) ==> Unique(p.table.rows))
            && |p.table.rows| == |t.rows| + p.created
            && (!p.failed ==> p.created + p.updated + p.skipped == |entries|)
  {
    if entries != [] {
      var n := |entries| - 1;
      BatchKeeps(t, entries[..n], owner);
      BatchStepKeeps(Batch(t, entries[..n], owner), entries[n], owner);
    }
  }

  // ---------------------------------------------------------------- runs

  /** A call of the service; `checks` is whether permissions and the other checks let it through. */
  datatype Call =
    | Create(c: NewCase, owner: string, checks: bool)
    | Update(change: Change, checks: bool)
    | HardDelete(id: Option<int>, code: Option<string>, checks: bool)
    | SoftDelete(ids: seq<int>, checks: bool)
    | Save(entries: seq<Entry>, batchOwner: string)

  /** The table after a call; a refused call changes nothing. */
  ghost function After(t: Table, call: Call): Table {
    match call
    case Create(c, owner, checks) =>
      if checks && Created(t, c, owner).Some? then Created(t, c, owner).value else t
    case Update(c, checks) =>
      var id := Located(t.rows, c.id, c.code);
      if checks && id.Some? && Updated(t, id.value, c).Some? then Updated(t, id.value, c).value else t
    case HardDelete(id, code, checks) =>
      var found := Located(t.rows, id, code);
      if checks && found.Some? then HardDeleted(t, found.value) else t
    case SoftDelete(ids, checks) =>
      if checks && AllEnabled(t.rows, ids) then SoftDeleted(t, ids) else t
    case Save(entries, owner) => Batch(t, entries, owner).table
  }

  /** A call that does not create without naming a type. */
  predicate NamesType(call: Call) {
    call.Create? ==> !call.c.ctype.Unset?
  }

  lemma {:induction false} CallKeeps(t: Table, call: Call)
    requires WellKept(t)
    ensures WellKept(After(t, call)) && NeverLowered(t.rows, After(t, call).rows)
    ensures Unique(t.rows) && NamesType(call) ==> Unique(After(t, call).rows)
  {
    match call
    case Create(c, owner, checks) =>
      if checks && Created(t, c, owner).Some? {
        CreatedKeeps(t, c, owner);
        if Unique(t.rows) {
          CreateKeepsUniqueIff(t, c, owner);
        }
      }
    case Update(c, checks) => {
      var id := Located(t.rows, c.id, c.code);
      if checks && id.Some? && Updated(t, id.value, c).Some? {
        UpdatedKeeps(t, id.value, c);
        if Unique(t.rows) {
          UpdatedKeepsUnique(t, id.value, c);
        }
      }
    }
    case HardDelete(id, code, checks) => {
      var found := Located(t.rows, id, code);
      if found.Some? {
        DeletedKeeps(t, found.value, []);
      }
    }
    case SoftDelete(ids, checks) => DeletedKeeps(t, 0, ids);
    case Save(entries, owner) => BatchKeeps(t, entries, owner);
  }

  ghost function AfterAll(t: Table, calls: seq<Call>): Table {
    if calls == [] then t else After(AfterAll(t, calls[..|calls| - 1]), calls[|calls| - 1])
  }

  /** Over every run: no interface has tags, codes are unique, versions are positive, and each step lowers
    * no version. */
  lemma {:induction false} EveryRunKeeps(t: Table, calls: seq<Call>)
    requires WellKept(t)
    ensures WellKept(AfterAll(t, calls))
    ensures calls != [] ==> NeverLowered(AfterAll(t, calls[..|calls| - 1]).rows, AfterAll(t, calls).rows)
  {
    if calls != [] {
      var n := |calls| - 1;
      EveryRunKeeps(t, calls[..n]);
      CallKeeps(AfterAll(t, calls[..n]), calls[n]);
    }
  }

  /** Over every run whose creations name their types, at most one row, enabled or soft-deleted, has a
    * given project, name, type and owner. */
  lemma {:induction false} EveryRunKeepsUnique(t: Table, calls: seq<Call>)
    requires Invariant(t) && forall i :: 0 <= i < |calls| ==> NamesType(calls[i])
    ensures Unique(AfterAll(t, calls).rows)
  {
    if calls != [] {
      var n := |calls| - 1;
      EveryRunKeeps(t, calls[..n]);
      EveryRunKeepsUnique(t, calls[..n]);
      CallKeeps(AfterAll(t, calls[..n]), calls[n]);
    }
  }
}
