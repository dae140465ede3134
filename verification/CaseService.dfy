/** The case service on its table (applications/autotest/services/autotest_case_crud.py): each operation
  * step by step, with the request dictionary edited on the way, against the table functions. */
module CaseService {
  import opened Options
  import opened CaseTable
  import opened CaseOutcomes

  /** A batch that has stopped, or has come to its end, stays as it is. */
  lemma {:induction false} StoppedBatch(t: Table, entries: seq<Entry>, owner: string, k: nat)
    requires k <= |entries| && (k < |entries| ==> Batch(t, entries[..k], owner).failed)
    ensures Batch(t, entries, owner) == Batch(t, entries[..k], owner)
    decreases |entries|
  {
    if k < |entries| {
      var n := |entries| - 1;
      assert entries[..n][..k] == entries[..k];
      StoppedBatch(t, entries[..n], owner, k);
    } else {
      assert entries[..k] == entries;
    }
  }

  class CaseCrud {
    var rows: Rows
    var next: int
    var now: int

    ghost predicate Valid()
      reads this
    {
      WellKept(Now())
    }

    ghost function Now(): Table
      reads this
    {
      Table(rows, next, now)
    }

    constructor (rows: Rows, next: int, now: int)
      requires WellKept(Table(rows, next, now))
      ensures Valid() && Now() == Table(rows, next, now)
    {
      this.rows, this.next, this.now := rows, next, now;
    }

    /** _get_by_owner_key: among the rows of the key the enabled one, then the one updated last. */
    method GetByOwnerKey(key: Key, exclude: Option<int>) returns (id: Option<int>)
      ensures exclude.None? ==> id == Holder(rows, key)
      ensures exclude.None? ==> if id.Some? then StandsFor(rows, key, id.value) else forall i :: i in rows ==> rows[i].key != key
      ensures exclude.Some? ==> (id.Some? <==> TakenByOther(rows, key, exclude.value))
    {
      var others := if exclude.Some? then rows - {exclude.value} else rows;
      if exists i :: i in others && others[i].key == key {
        HolderExists(others, key);
        var i :| i in others && IsHolder(others, key, i);
        id := Some(i);
        assert i in rows && exclude != Some(i) && rows[i].key == key;
      } else {
        id := None;
        assert forall i :: i in rows && exclude != Some(i) ==> i in others && others[i] == rows[i];
      }
    }

    /** get_by_id and get_by_code, among the enabled rows. */
    method Locate(id: Option<int>, code: Option<string>) returns (r: Option<int>)
      requires Valid()
      ensures r == Located(rows, id, code)
    {
      if id.Some? {
        r := if id.value in rows && rows[id.value].enabled then id else None;
      } else if code.Some? && exists i :: i in rows && rows[i].enabled && rows[i].code == code.value {
        var i :| i in rows && rows[i].enabled && rows[i].code == code.value;
        r := Some(i);
      } else {
        r := None;
      }
    }

    /** _restore_and_overwrite_case: an update of the soft-deleted row. */
    method Restore(id: int, ctype: Option<CaseType>, tags: Option<seq<int>>)
      requires id in rows
      modifies this`rows, this`now
      ensures rows == old(rows)[id := Restored(old(rows)[id], ctype, tags, old(now))] && now == old(now) + 1
    {
      var row := rows[id];
      var version := row.version;
      if version == 0 {
        version := 1;
      }
      row := row.(tags := tags, enabled := true, version := version + 1, updated := now);
      if ctype.Some? {
        row := row.(key := row.key.(ctype := ctype));
      }
      rows, now := rows[id := row], now + 1;
    }

    /** The insertion; false where the code is already in use. */
    method Insert(row: Case) returns (ok: bool)
      modifies this
      ensures ok == !CodeInUse(old(rows), row.code)
      ensures Now() == if ok then Table(old(rows)[old(next) := row.(updated := old(now))], old(next) + 1, old(now) + 1)
                       else old(Now())
    {
      ok := !CodeInUse(rows, row.code);
      if ok {
        rows, next, now := rows[next := row.(updated := now)], next + 1, now + 1;
      }
    }

    /** create_case. */
    method CreateCase(c: NewCase, owner: string, checks: bool) returns (r: Result<(), string>)
      requires Valid()
      modifies this
      ensures Valid()
      ensures r.Ok? <==> checks && Created(old(Now()), c, owner).Some?
      ensures Now() == After(old(Now()), Create(c, owner, checks))
      ensures r.Ok? ==> exists i :: IsMade(old(Now()), c, owner, Now(), i)
    {
      ghost var before := Now();
      var ctype := ShownType(c);
      var tags := NormalizeTags(ctype, c.tags);
      if tags.Err? {
        return Err("tags");
      }
      if !checks {
        return Err("checks");
      }
      var key := Key(c.project, c.name, ctype, owner);
      var existing := GetByOwnerKey(key, None);
      if existing.Some? && rows[existing.value].enabled {
        return Err("name taken");
      }
      if Created(before, c, owner).Some? {
        CreatedKeeps(before, c, owner);
        var made := CreatedMakes(before, c, owner);
      }
      if existing.Some? {
        Restore(existing.value, StoredType(c), tags.value);
        return Ok(());
      }
      var ok := Insert(Case(key.(ctype := StoredType(c)), tags.value, 1, true, c.code, now));
      r := if ok then Ok(()) else Err("code taken");
    }

    /** The tag rule of an update. */
    static method NewTags(instance: Case, c: Change) returns (r: Result<Option<seq<int>>, string>)
      ensures r == ChangedTags(instance, c)
    {
      var ctype := if c.ctype.Some? then c.ctype else instance.key.ctype;
      r := Ok(instance.tags);
      if ctype == Some(PublicApi) {
        r := if c.tags.Set? && c.tags.value != [] then Err("no tags allowed") else Ok(None);
      } else if !c.tags.Unset? || (c.ctype.Some? && instance.key.ctype == Some(PublicApi)) {
        r := NormalizeTags(ctype, TagsOf(c.tags, instance.tags));
      }
    }

    /** The common part of update_case and of the batch: the tag rule, the key check and the write. */
    method Change(id: int, c: Change) returns (r: Result<(), string>)
      requires Valid() && id in rows
      modifies this`rows, this`now
      ensures Valid()
      ensures r.Ok? <==> Updated(old(Now()), id, c).Some?
      ensures Now() == if r.Ok? then Updated(old(Now()), id, c).value else old(Now())
      ensures r.Ok? ==> IsChanged(old(Now()), id, c, Now())
    {
      ghost var before := Now();
      if Updated(before, id, c).Some? {
        UpdatedKeeps(before, id, c);
        UpdatedChanges(before, id, c);
      }
      var instance := rows[id];
      var tags := NewTags(instance, c);
      if tags.Err? {
        return Err("tags");
      }
      var ctype := if c.ctype.Some? then c.ctype else instance.key.ctype;
      var name := if c.name.Some? then c.name.value else instance.key.name;
      var project := if c.project.Some? then c.project.value else instance.key.project;
      var key := Key(project, name, ctype, instance.key.owner);
      if c.name.Some? || c.project.Some? || c.ctype.Some? {
        var existing := GetByOwnerKey(key, Some(id));
        if existing.Some? {
          return Err("name taken");
        }
      }
      rows := rows[id := instance.(key := key, tags := tags.value, version := instance.version + 1, updated := now)];
      now := now + 1;
      r := Ok(());
    }

    /** update_case. */
    method UpdateCase(c: Change, checks: bool) returns (r: Result<(), string>)
      requires Valid()
      modifies this`rows, this`now
      ensures Valid() && Now() == After(old(Now()), Update(c, checks))
      ensures r.Err? ==> Now() == old(Now())
      ensures r.Ok? ==> exists i :: Names(old(rows), c.id, c.code, i) && IsChanged(old(Now()), i, c, Now())
    {
      LocatedIff(rows, c.id, c.code);
      var found := Locate(c.id, c.code);
      if found.None? {
        return Err("not found");
      }
      if !checks {
        return Err("checks");
      }
      r := Change(found.value, c);
    }

    /** delete_case. */
    method DeleteCase(id: Option<int>, code: Option<string>, checks: bool) returns (r: Result<Case, string>)
      requires Valid()
      modifies this`rows
      ensures Valid() && Now() == After(old(Now()), HardDelete(id, code, checks))
      ensures r.Ok? <==> checks && Located(old(rows), id, code).Some?
      ensures r.Ok? ==> r.value == old(rows)[Located(old(rows), id, code).value]
      ensures r.Ok? ==> exists i :: Names(old(rows), id, code, i) && rows == old(rows) - {i} && r.value == old(rows)[i]
    {
      LocatedIff(rows, id, code);
      var found := Locate(id, code);
      if found.None? {
        return Err("not found");
      }
      if !checks {
        return Err("checks");
      }
      DeletedKeeps(Now(), found.value, []);
      r := Ok(rows[found.value]);
      rows := rows - {found.value};
    }

    /** delete_cases, by ids. */
    method DeleteCases(ids: seq<int>, checks: bool) returns (r: Result<nat, string>)
      requires Valid()
      modifies this`rows
      ensures Valid() && Now() == After(old(Now()), SoftDelete(ids, checks))
      ensures r.Ok? <==> checks && ids != [] && AllEnabled(old(rows), ids)
      ensures r.Ok? ==> r.value == |set i | i in ids| && AreDisabled(old(rows), rows, ids)
    {
      if ids == [] {
        DeletedKeeps(Now(), 0, ids);
        assert SoftDeleted(Now(), ids) == Now();
        return Err("nothing given");
      }
      for k := 0 to |ids|
        invariant AllEnabled(rows, ids[..k])
      {
        assert ids[..k + 1] == ids[..k] + [ids[k]];
        if ids[k] !in rows || !rows[ids[k]].enabled {
          var i := ids[k];
          assert i in ids && !(i in rows && rows[i].enabled);
          return Err("not found");
        }
      }
      assert ids[..|ids|] == ids;
      if !checks {
        return Err("checks");
      }
      DeletedKeeps(Now(), 0, ids);
      DeletedDisables(Now(), ids);
      rows := map i | i in rows :: if i in ids then rows[i].(enabled := false) else rows[i];
      r := Ok(|set i | i in ids|);
    }

    /** The part of the batch loop that creates: the row's id, and whether it was a deleted one. */
    method SaveNew(e: Entry, owner: string, ghost p: Progress) returns (r: Result<(int, bool), string>)
      requires Valid() && p.table == Now() && !p.failed
      modifies this
      ensures Valid() && Now() == BatchCreate(p, e, owner).table
      ensures r.Err? <==> BatchCreate(p, e, owner).failed
      ensures r.Ok? ==>
                var (id, woken) := r.value;
                && id in rows
                && BatchCreate(p, e, owner)
                   == Progress(Now(), Noted(p.processed, id, Some(rows[id].code)), p.created + (if woken then 0 else 1),
                               p.updated + (if woken then 1 else 0), p.skipped, false)
    {
      BatchCreateKeeps(p, e, owner);
      var c := e.change;
      var tags := NormalizeTags(c.ctype, TagsOf(c.tags, None));
      if tags.Err? {
        return Err("tags");
      }
      if c.name.None? {
        return Err("name");
      }
      if c.project.None? || c.project == Some(0) {
        return Err("project");
      }
      if !e.checks {
        return Err("checks");
      }
      var key := Key(c.project.value, c.name.value, c.ctype, owner);
      var existing := GetByOwnerKey(key, None);
      if existing.Some? && rows[existing.value].enabled {
        return Err("name taken");
      }
      if existing.Some? {
        Restore(existing.value, c.ctype, tags.value);
        return Ok((existing.value, true));
      }
      var id := next;
      var ok := Insert(Case(key, tags.value, 1, true, e.newCode, now));
      r := if ok then Ok((id, false)) else Err("code taken");
    }

    /** One round of the batch loop. */
    method SaveEntry(e: Entry, owner: string, processed: set<(int, string)>, ghost p: Progress)
      returns (processed': set<(int, string)>, create: nat, update: nat, ghost skip: nat, ok: bool)
      requires Valid() && p.table == Now() && p.processed == processed && !p.failed
      modifies this
      ensures Valid()
      ensures BatchStep(p, e, owner)
              == Progress(Now(), processed', p.created + create, p.updated + update, p.skipped + skip, !ok)
    {
      processed', create, update, skip, ok := processed, 0, 0, 0, true;
      var c := e.change;
      if c.id.Some? && c.code.Some? && (c.id.value, c.code.value) in processed {
        skip := 1;
        return;
      }
      var found := Locate(c.id, c.code);
      if found.None? {
        var saved := SaveNew(e, owner, p);
        ok := saved.Ok?;
        if ok {
          processed' := Noted(processed, saved.value.0, Some(rows[saved.value.0].code));
          if saved.value.1 {
            update := 1;
          } else {
            create := 1;
          }
        }
      } else if !e.checks {
        ok := false;
      } else if IsEmpty(c) {
        processed' := Noted(processed, found.value, c.code);
        skip := 1;
      } else {
        var r := Change(found.value, c);
        ok := r.Ok?;
        if ok {
          processed' := Noted(processed, found.value, c.code);
          update := 1;
        }
      }
    }

    /** batch_update_or_create_cases: created and updated counts; an error stops it where it is. */
    method SaveBatch(entries: seq<Entry>, owner: string) returns (created: nat, updated: nat, failed: bool)
      requires Valid()
      modifies this
      ensures Valid() && Now() == Batch(old(Now()), entries, owner).table
      ensures failed == Batch(old(Now()), entries, owner).failed
      ensures created == Batch(old(Now()), entries, owner).created && updated == Batch(old(Now()), entries, owner).updated
    {
      ghost var before, skipped := Now(), 0;
      var processed: set<(int, string)> := {};
      created, updated, failed := 0, 0, false;
      var k := 0;
      assert entries[..0] == [];
      while k < |entries| && !failed
        invariant 0 <= k <= |entries| && Valid()
        invariant Progress(Now(), processed, created, updated, skipped, failed) == Batch(before, entries[..k], owner)
      {
        assert entries[..k + 1][..k] == entries[..k];
        var create, update, ok;
        ghost var skip;
        processed, create, update, skip, ok := SaveEntry(entries[k], owner, processed, Batch(before, entries[..k], owner));
        created, updated, skipped, failed := created + create, updated + update, skipped + skip, !ok;
        k := k + 1;
      }
      StoppedBatch(before, entries, owner, k);
    }
  }
}
