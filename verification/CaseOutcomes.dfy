/** What an accepted request leaves in the case table (applications/autotest/services/autotest_case_crud.py), said of
  * the rows before and after: which row is made, woken, changed or disabled, and with which fields. */
module CaseOutcomes {
  import opened Options
  import opened CaseTable

  /** The tags stored for given ones: an interface has none and may be given none, a public script has the given
    * ones or none, any other case must be given some and has them. */
  predicate TagsAre(ctype: Option<CaseType>, given: Option<seq<int>>, stored: Option<seq<int>>) {
    var some := given.Some? && given.value != [];
    match ctype
    case Some(PublicApi) => !some && stored == None
    case Some(PublicScript) => stored == if some then given else None
    case _ => some && stored == given
  }

  lemma {:induction false} TagRuleIff(ctype: Option<CaseType>, given: Option<seq<int>>, stored: Option<seq<int>>)
    ensures NormalizeTags(ctype, given) == Ok(stored) <==> TagsAre(ctype, given, stored)
  {
  }

  /** The type of the key that is looked up: a request that leaves it out asks for a private script. */
  function AskedType(c: NewCase): Option<CaseType> {
    match c.ctype
    case Unset => Some(PrivateScript)
    case Nulled => None
    case Set(t) => Some(t)
  }

  /** The rows but for one. */
  predicate OnlyRow(before: Rows, after: Rows, i: int) {
    && after.Keys == before.Keys + {i}
    && forall j :: j in before && j != i ==> after[j] == before[j]
  }

  /** The request names this enabled row: by id when it has one, else by code. */
  predicate Names(rows: Rows, id: Option<int>, code: Option<string>, i: int) {
    i in rows && rows[i].enabled && if id.Some? then i == id.value else code == Some(rows[i].code)
  }

  lemma {:induction false} LocatedIff(rows: Rows, id: Option<int>, code: Option<string>)
    ensures Located(rows, id, code).Some? <==> exists i :: Names(rows, id, code, i)
    ensures Located(rows, id, code).Some? ==> Names(rows, id, code, Located(rows, id, code).value)
  {
    var r := Located(rows, id, code);
    if r.Some? {
      assert Names(rows, id, code, r.value);
    }
    forall i | Names(rows, id, code, i) ensures r.Some? {
      assert rows[i].enabled;
    }
  }

  // ---------------------------------------------------------------- creating

  /** The row that a key stands for: an enabled one if there is one, and among those alike the one updated last. */
  predicate StandsFor(rows: Rows, key: Key, i: int) {
    && i in rows && rows[i].key == key
    && forall j :: j in rows && rows[j].key == key ==>
         && (rows[j].enabled ==> rows[i].enabled)
         && (rows[j].enabled == rows[i].enabled ==> rows[j].updated <= rows[i].updated)
  }

  lemma {:induction false} HolderStands(rows: Rows, key: Key)
    ensures Holder(rows, key).None? <==> forall i :: i in rows ==> rows[i].key != key
    ensures Holder(rows, key).Some? ==> StandsFor(rows, key, Holder(rows, key).value)
  {
    var h := Holder(rows, key);
    if h.Some? {
      forall j | j in rows && rows[j].key == key
        ensures rows[j].enabled ==> rows[h.value].enabled
        ensures rows[j].enabled == rows[h.value].enabled ==> rows[j].updated <= rows[h.value].updated
      {
        assert j != h.value ==> Ahead(rows, h.value, j);
      }
    }
  }

  /** Row i is what asking for a key leaves: the row it stands for, when that is disabled, woken, or, when no row has the
    * key, a new one; enabled, with the tags asked for. */
  predicate IsPlaced(t: Table, asked: Key, stored: Option<CaseType>, given: Option<seq<int>>, code: string, t': Table, i: int) {
    && i in t'.rows && OnlyRow(t.rows, t'.rows, i) && t'.now == t.now + 1
    && var row := t'.rows[i];
       && row.enabled && row.updated == t.now && TagsAre(asked.ctype, given, row.tags)
       && if i in t.rows then
            && !t.rows[i].enabled && StandsFor(t.rows, asked, i) && t'.next == t.next
            && row.key == asked && row.code == t.rows[i].code
            && row.version == (if t.rows[i].version == 0 then 2 else t.rows[i].version + 1)
          else
            && i == t.next && t'.next == t.next + 1 && row.version == 1 && row.code == code
            && row.key == Key(asked.project, asked.name, stored, asked.owner)
            && forall j :: j in t.rows ==> t.rows[j].key != asked
  }

  lemma {:induction false} PlacedMakes(t: Table, asked: Key, stored: Option<CaseType>, given: Option<seq<int>>, code: string)
    returns (i: int)
    requires NormalizeTags(asked.ctype, given).Ok? && WellKept(t) && (stored.Some? ==> stored == asked.ctype)
    requires Placed(t, asked, stored, NormalizeTags(asked.ctype, given).value, code).Some?
    ensures IsPlaced(t, asked, stored, given, code, Placed(t, asked, stored, NormalizeTags(asked.ctype, given).value, code).value, i)
    ensures i in t.rows <==> Holder(t.rows, asked).Some?
    ensures i == if Holder(t.rows, asked).Some? then Holder(t.rows, asked).value else t.next
  {
    TagRuleIff(asked.ctype, given, NormalizeTags(asked.ctype, given).value);
    HolderStands(t.rows, asked);
    var h := Holder(t.rows, asked);
    i := if h.Some? then h.value else t.next;
    assert h.None? ==> t.next !in t.rows;
  }

  /** The same for a creation. */
  predicate IsMade(t: Table, c: NewCase, owner: string, t': Table, i: int) {
    IsPlaced(t, Key(c.project, c.name, AskedType(c), owner), if c.ctype.Set? then Some(c.ctype.value) else None, c.tags, c.code, t', i)
  }

  lemma {:induction false} CreatedMakes(t: Table, c: NewCase, owner: string) returns (i: int)
    requires Created(t, c, owner).Some? && WellKept(t)
    ensures IsMade(t, c, owner, Created(t, c, owner).value, i)
  {
    i := PlacedMakes(t, Key(c.project, c.name, AskedType(c), owner), if c.ctype.Set? then Some(c.ctype.value) else None, c.tags, c.code);
  }

  /** A creation is accepted exactly when the tags fit the type, and the rows of the asked key are all disabled and at
    * least one, or there is none and the code is free. */
  lemma {:induction false} CreatedIff(t: Table, c: NewCase, owner: string)
    ensures var asked := Key(c.project, c.name, AskedType(c), owner);
            Created(t, c, owner).Some? <==>
            && (exists stored :: TagsAre(AskedType(c), c.tags, stored))
            && (forall i :: i in t.rows && t.rows[i].key == asked ==> !t.rows[i].enabled)
            && ((forall i :: i in t.rows ==> t.rows[i].key != asked) ==> forall i :: i in t.rows ==> t.rows[i].code != c.code)
  {
    var asked, tags := Key(c.project, c.name, AskedType(c), owner), NormalizeTags(AskedType(c), c.tags);
    if tags.Ok? {
      TagRuleIff(AskedType(c), c.tags, tags.value);
    }
    forall stored | TagsAre(AskedType(c), c.tags, stored) ensures tags.Ok? {
      TagRuleIff(AskedType(c), c.tags, stored);
    }
    var h := Holder(t.rows, asked);
    if h.Some? {
      forall i | i in t.rows && t.rows[i].key == asked ensures t.rows[i].enabled ==> t.rows[h.value].enabled {
        assert i != h.value ==> Ahead(t.rows, h.value, i);
      }
    }
  }

  // ---------------------------------------------------------------- updating

  /** Each given field has the given value, and each other one its old one; the tags follow the rule for the type, and
    * are the old ones where neither they nor an interface's type are changed. */
  predicate IsChanged(t: Table, id: int, c: Change, t': Table)
    requires id in t.rows
  {
    && id in t'.rows && OnlyRow(t.rows, t'.rows, id) && t'.next == t.next && t'.now == t.now + 1
    && var old', row := t.rows[id], t'.rows[id];
       && row.key.project == (if c.project.Some? then c.project.value else old'.key.project)
       && row.key.name == (if c.name.Some? then c.name.value else old'.key.name)
       && row.key.ctype == (if c.ctype.Some? then c.ctype else old'.key.ctype)
       && row.key.owner == old'.key.owner && row.enabled == old'.enabled && row.code == old'.code
       && row.version == old'.version + 1 && row.updated == t.now
       && if row.key.ctype == Some(PublicApi) then row.tags == None && (c.tags.Set? ==> c.tags.value == [])
          else match c.tags
            case Set(tags) => TagsAre(row.key.ctype, Some(tags), row.tags)
            case Nulled => TagsAre(row.key.ctype, None, row.tags)
            case Unset =>
              if c.ctype.Some? && old'.key.ctype == Some(PublicApi) then TagsAre(row.key.ctype, old'.tags, row.tags)
              else row.tags == old'.tags
  }

  lemma {:induction false} UpdatedChanges(t: Table, id: int, c: Change)
    requires id in t.rows && Updated(t, id, c).Some?
    ensures IsChanged(t, id, c, Updated(t, id, c).value)
  {
    var row, row' := t.rows[id], Updated(t, id, c).value.rows[id];
    if c.tags.Set? {
      TagRuleIff(row'.key.ctype, Some(c.tags.value), row'.tags);
    } else if c.tags.Nulled? {
      TagRuleIff(row'.key.ctype, None, row'.tags);
    } else {
      TagRuleIff(row'.key.ctype, row.tags, row'.tags);
    }
  }

  // ---------------------------------------------------------------- deleting

  /** Exactly the listed rows are disabled; nothing else changes. */
  predicate AreDisabled(before: Rows, after: Rows, ids: seq<int>) {
    && after.Keys == before.Keys
    && forall i :: i in before ==>
         && (after[i].enabled <==> before[i].enabled && i !in ids)
         && after[i].(enabled := before[i].enabled) == before[i]
  }

  lemma {:induction false} DeletedDisables(t: Table, ids: seq<int>)
    ensures AreDisabled(t.rows, SoftDeleted(t, ids).rows, ids)
  {
  }

  // ---------------------------------------------------------------- one entry of a batch

  predicate NothingSent(c: Change) {
    c.name == None && c.project == None && c.ctype == None && c.tags == Unset && !c.others
  }

  function Remembered(processed: set<(int, string)>, id: int, code: Option<string>): set<(int, string)> {
    if code.None? then processed else processed + {(id, code.value)}
  }

  function GivenTags(c: Change): Option<seq<int>> {
    if c.tags.Set? then Some(c.tags.value) else None
  }

  /** What an entry for an enabled row does: nothing is sent and it is skipped, or the row is changed. */
  predicate EntryChanges(p: Progress, e: Entry, i: int, p': Progress)
    requires i in p.table.rows
  {
    if NothingSent(e.change) then
      p' == p.(processed := Remembered(p.processed, i, e.change.code), skipped := p.skipped + 1)
    else
      && IsChanged(p.table, i, e.change, p'.table)
      && p' == p.(table := p'.table, processed := Remembered(p.processed, i, e.change.code), updated := p.updated + 1)
  }

  /** What an entry that names no enabled row does: a disabled row of its key is woken and counts as updated, or a new
    * row is made and counts as created. */
  predicate EntryMakes(p: Progress, e: Entry, owner: string, i: int, p': Progress) {
    && e.change.name.Some? && e.change.project.Some? && e.change.project != Some(0)
    && IsPlaced(p.table, Key(e.change.project.value, e.change.name.value, e.change.ctype, owner), e.change.ctype, GivenTags(e.change),
                e.newCode, p'.table, i)
    && p' == p.(table := p'.table, processed := p.processed + {(i, p'.table.rows[i].code)},
                created := p.created + (if i in p.table.rows then 0 else 1),
                updated := p.updated + (if i in p.table.rows then 1 else 0))
  }

  /** One entry: after a refusal nothing more happens; an entry whose id and code were seen together before is skipped;
    * any other changes the row it names, or makes one, unless it is refused. */
  ghost predicate EntryDoes(p: Progress, e: Entry, owner: string, p': Progress) {
    if p.failed then p' == p
    else if e.change.id.Some? && e.change.code.Some? && (e.change.id.value, e.change.code.value) in p.processed then
      p' == p.(skipped := p.skipped + 1)
    else if p'.failed then p' == p.(failed := true)
    else
      && e.checks
      && if exists i :: Names(p.table.rows, e.change.id, e.change.code, i) then
           exists i :: Names(p.table.rows, e.change.id, e.change.code, i) && EntryChanges(p, e, i, p')
         else exists i :: EntryMakes(p, e, owner, i, p')
  }

  lemma {:induction false} UpdatingEntry(p: Progress, e: Entry, i: int)
    requires i in p.table.rows && !BatchUpdate(p, e, i).failed && !p.failed
    ensures e.checks && EntryChanges(p, e, i, BatchUpdate(p, e, i))
  {
    if !NothingSent(e.change) {
      UpdatedChanges(p.table, i, e.change);
    }
  }

  lemma {:induction false} CreatingEntry(p: Progress, e: Entry, owner: string) returns (i: int)
    requires WellKept(p.table) && !BatchCreate(p, e, owner).failed && !p.failed
    ensures e.checks && EntryMakes(p, e, owner, i, BatchCreate(p, e, owner))
  {
    var c := e.change;
    i := PlacedMakes(p.table, Key(c.project.value, c.name.value, c.ctype, owner), c.ctype, GivenTags(c), e.newCode);
  }

  /** Every entry of a batch does that. */
  lemma {:induction false} BatchEntryDoes(p: Progress, e: Entry, owner: string)
    requires WellKept(p.table)
    ensures EntryDoes(p, e, owner, BatchStep(p, e, owner))
  {
    var p' := BatchStep(p, e, owner);
    LocatedIff(p.table.rows, e.change.id, e.change.code);
    var id := Located(p.table.rows, e.change.id, e.change.code);
    if !p.failed && !Repeated(p, e.change) && !p'.failed {
      if id.Some? {
        UpdatingEntry(p, e, id.value);
      } else {
        var i := CreatingEntry(p, e, owner);
      }
    }
  }
}
