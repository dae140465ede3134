/** The operations on the migration ledger (scripts/repair_aerich_alignment.py): finding duplicates,
  * repairing, upgrading, rebuilding the newest snapshot and verifying, each on the table itself. */
module LedgerRepair {
  import opened Options
  import opened MigrationLedger
  import opened RepairLimits

  /** find_duplicate_records: the dictionary of newest ids, and the rows that are not newest. */
  method FindDuplicateRecords(rows: seq<Row>) returns (r: seq<Row>)
    requires Ascending(rows)
    ensures r == Duplicates(rows)
  {
    var latest: map<string, nat> := map[];
    for i := 0 to |rows|
      invariant Latest(rows[..i], latest)
    {
      LatestStep(rows, i, latest);
      var seen := Get(latest, rows[i].version);
      latest := latest[rows[i].version := if seen >= rows[i].id then seen else rows[i].id];
    }
    assert rows[..|rows|] == rows;
    r := [];
    for i := 0 to |rows|
      invariant r + Duplicates(rows[i..]) == Duplicates(rows)
    {
      RepeatedIff(rows, i);
      DuplicateStep(r, rows, i);
      LatestHas(rows, i, latest);
      if rows[i].id != latest[rows[i].version] {
        r := r + [rows[i]];
      }
    }
  }

  lemma {:induction false} DuplicateStep(done: seq<Row>, rows: seq<Row>, i: nat)
    requires i < |rows|
    ensures done + Duplicates(rows[i..])
            == (if rows[i].version in Versions(rows[i + 1..]) then done + [rows[i]] else done) + Duplicates(rows[i + 1..])
  {
    assert rows[i..][1..] == rows[i + 1..];
  }

  /** The id of the last row of a version; 0 when there is none. */
  function LastId(rows: seq<Row>, version: string): nat {
    if rows == [] then 0
    else if rows[|rows| - 1].version == version then rows[|rows| - 1].id
    else LastId(rows[..|rows| - 1], version)
  }

  ghost predicate Latest(rows: seq<Row>, latest: map<string, nat>) {
    forall v: string :: Get(latest, v) == LastId(rows, v)
  }

  /** dict.get(version, 0). */
  function Get(latest: map<string, nat>, version: string): nat {
    if version in latest then latest[version] else 0
  }

  lemma {:induction false} LastIdBelow(rows: seq<Row>, version: string, id: nat)
    requires id > 0 && forall i :: 0 <= i < |rows| ==> rows[i].id < id
    ensures LastId(rows, version) < id
  {
    if rows != [] {
      LastIdBelow(rows[..|rows| - 1], version, id);
    }
  }

  lemma {:induction false} LatestStep(rows: seq<Row>, i: nat, latest: map<string, nat>)
    requires Ascending(rows) && i < |rows| && Latest(rows[..i], latest)
    ensures rows[i].version in latest ==> latest[rows[i].version] < rows[i].id
    ensures Latest(rows[..i + 1], latest[rows[i].version := rows[i].id]) && rows[i].id > 0
  {
    LastIdBelow(rows[..i], rows[i].version, rows[i].id);
    assert rows[..i + 1][..i] == rows[..i];
    assert Get(latest, rows[i].version) == LastId(rows[..i], rows[i].version);
    var latest', now := latest[rows[i].version := rows[i].id], rows[..i + 1];
    forall v: string ensures Get(latest', v) == LastId(now, v) {
      assert Get(latest, v) == LastId(rows[..i], v);
    }
  }

  lemma {:induction false} LatestHas(rows: seq<Row>, i: nat, latest: map<string, nat>)
    requires Ascending(rows) && i < |rows| && Latest(rows, latest)
    ensures rows[i].version in latest && latest[rows[i].version] == LastId(rows, rows[i].version)
  {
    LastIdFound(rows, i);
    assert Get(latest, rows[i].version) == LastId(rows, rows[i].version);
  }

  lemma {:induction false} LastIdFound(rows: seq<Row>, i: nat)
    requires Ascending(rows) && i < |rows|
    ensures LastId(rows, rows[i].version) > 0
  {
    var n := |rows| - 1;
    if rows[n].version != rows[i].version {
      assert rows[..n][i] == rows[i];
      LastIdFound(rows[..n], i);
    }
  }

  lemma {:induction false} RepeatedIff(rows: seq<Row>, i: nat)
    requires Ascending(rows) && i < |rows|
    ensures rows[i].id != LastId(rows, rows[i].version) <==> rows[i].version in Versions(rows[i + 1..])
  {
    var n := |rows| - 1;
    if i == n {
      assert rows[i + 1..] == [];
    } else {
      assert rows[i + 1..] == rows[i + 1..n] + [rows[n]];
      VersionsSnoc(rows[i + 1..n], rows[n], rows[i].version);
      if rows[n].version != rows[i].version {
        assert rows[..n][i + 1..] == rows[i + 1..n] && rows[..n][i] == rows[i];
        RepeatedIff(rows[..n], i);
      }
    }
  }

  lemma {:induction false} VersionsSnoc(rows: seq<Row>, r: Row, version: string)
    ensures version in Versions(rows + [r]) <==> version in Versions(rows) || r.version == version
  {
    VersionsConcat(rows, [r]);
    assert r in [r];
  }

  // ---------------------------------------------------------------- deleting by id

  function Without(rows: seq<Row>, ids: set<nat>): seq<Row> {
    if rows == [] then [] else (if rows[0].id in ids then [] else [rows[0]]) + Without(rows[1..], ids)
  }

  lemma {:induction false} WithoutBoth(rows: seq<Row>, a: set<nat>, b: set<nat>)
    ensures Without(Without(rows, a), b) == Without(rows, a + b)
  {
    if rows != [] {
      WithoutBoth(rows[1..], a, b);
      var w := Without(rows[1..], a);
      if rows[0].id !in a {
        assert Without(rows, a)[1..] == w;
      } else {
        assert Without(rows, a) == w;
      }
    }
  }

  lemma {:induction false} WithoutAbsent(rows: seq<Row>, ids: set<nat>, id: nat)
    requires forall r :: r in rows ==> r.id != id
    ensures Without(rows, ids + {id}) == Without(rows, ids)
  {
    if rows != [] {
      WithoutAbsent(rows[1..], ids, id);
    }
  }

  lemma {:induction false} RowIdsCons(r: Row, rows: seq<Row>)
    ensures RowIds([r] + rows) == {r.id} + RowIds(rows)
  {
    var all := [r] + rows;
    assert r in all;
    forall v | v in RowIds(rows) ensures v in RowIds(all) {
      var x :| x in rows && x.id == v;
      assert x in all;
    }
  }

  lemma {:induction false} AscendingRest(rows: seq<Row>)
    requires Ascending(rows) && rows != []
    ensures Ascending(rows[1..]) && forall r :: r in rows[1..] ==> r.id != rows[0].id
  {
  }

  lemma {:induction false} DuplicatesWithin(rows: seq<Row>)
    ensures forall r :: r in Duplicates(rows) ==> r in rows
  {
    if rows != [] {
      DuplicatesWithin(rows[1..]);
    }
  }

  /** Deleting the duplicates by their ids leaves the last record of each version. */
  lemma {:induction false} WithoutDuplicates(rows: seq<Row>)
    requires Ascending(rows)
    ensures Without(rows, RowIds(Duplicates(rows))) == Kept(rows)
  {
    if rows != [] {
      AscendingRest(rows);
      WithoutDuplicates(rows[1..]);
      var rest := Duplicates(rows[1..]);
      DuplicatesWithin(rows[1..]);
      if rows[0].version in Versions(rows[1..]) {
        RowIdsCons(rows[0], rest);
        WithoutAbsent(rows[1..], RowIds(rest), rows[0].id);
        assert RowIds(rest) + {rows[0].id} == {rows[0].id} + RowIds(rest);
      } else {
        assert Duplicates(rows) == rest;
        assert rows[0].id !in RowIds(rest);
      }
    }
  }

  lemma {:induction false} StaleWithin(rows: seq<Row>, names: set<string>)
    ensures forall r :: r in Stale(rows, names) ==> r in rows
  {
    if rows != [] {
      StaleWithin(rows[1..], names);
    }
  }

  lemma {:induction false} WithoutStale(rows: seq<Row>, names: set<string>)
    requires Ascending(rows)
    ensures Without(rows, RowIds(Stale(rows, names))) == Current(rows, names)
  {
    if rows != [] {
      AscendingRest(rows);
      WithoutStale(rows[1..], names);
      var rest := Stale(rows[1..], names);
      StaleWithin(rows[1..], names);
      if rows[0].version !in names {
        RowIdsCons(rows[0], rest);
        WithoutAbsent(rows[1..], RowIds(rest), rows[0].id);
        assert RowIds(rest) + {rows[0].id} == {rows[0].id} + RowIds(rest);
      } else {
        assert Stale(rows, names) == rest;
        assert rows[0].id !in RowIds(rest);
      }
    }
  }

  lemma {:induction false} AscendingSome(rows: seq<Row>, ids: set<nat>, next: nat)
    requires Ascending(rows) && forall r :: r in rows ==> r.id < next
    ensures Ascending(Without(rows, ids)) && forall r :: r in Without(rows, ids) ==> r in rows
  {
    if rows != [] {
      AscendingRest(rows);
      AscendingSome(rows[1..], ids, next);
      AscendingCons(rows, Without(rows[1..], ids));
    }
  }

  lemma {:induction false} AscendingCons(rows: seq<Row>, some: seq<Row>)
    requires Ascending(rows) && rows != [] && Ascending(some) && forall r :: r in some ==> r in rows[1..]
    ensures Ascending([rows[0]] + some)
  {
    var all := [rows[0]] + some;
    forall j | 0 < j < |all| ensures all[0].id < all[j].id {
      assert all[j] in some;
    }
  }

  lemma {:induction false} RecordedSnoc(files: seq<File>, i: nat, next: nat, full: bool)
    requires i < |files|
    ensures Recorded(files[..i + 1], next, full) == Recorded(files[..i], next, full) + [Row(next + i, files[i].name, full)]
  {
    if i == 0 {
      assert files[..1] == [files[0]] && files[..1][1..] == [];
    } else {
      RecordedSnoc(files[1..], i - 1, next + 1, full);
      assert files[..i + 1][1..] == files[1..][..i] && files[..i][1..] == files[1..][..i - 1];
    }
  }

  lemma {:induction false} UpToSnoc(files: seq<File>, i: nat, limit: int)
    requires i < |files|
    ensures UpTo(files[..i + 1], limit) == UpTo(files[..i], limit) + if files[i].num <= limit then [files[i]] else []
  {
    if i == 0 {
      assert files[..1] == [files[0]] && files[..1][1..] == [];
    } else {
      UpToSnoc(files[1..], i - 1, limit);
      assert files[..i + 1][1..] == files[1..][..i] && files[..i][1..] == files[1..][..i - 1];
    }
  }

  lemma {:induction false} RecordedOne(files: seq<File>, f: File, next: nat, full: bool)
    ensures Recorded(files + [f], next, full) == Recorded(files, next, full) + [Row(next + |files|, f.name, full)]
  {
    var all := files + [f];
    RecordedSnoc(all, |files|, next, full);
    assert all[..|files| + 1] == all && all[..|files|] == files;
  }

  lemma {:induction false} WithoutNone(rows: seq<Row>)
    ensures Without(rows, {}) == rows
  {
    if rows != [] {
      WithoutNone(rows[1..]);
    }
  }

  lemma {:induction false} RowIdsSnoc(rows: seq<Row>, i: nat)
    requires i < |rows|
    ensures RowIds(rows[..i + 1]) == RowIds(rows[..i]) + {rows[i].id}
  {
    var all := rows[..i + 1];
    assert all == rows[..i] + [rows[i]];
    assert all[i] in all;
    forall v | v in RowIds(rows[..i]) ensures v in RowIds(all) {
      var x :| x in rows[..i] && x.id == v;
      assert x in all;
    }
  }

  // ---------------------------------------------------------------- after the repair

  /** The next id once the gaps are filled. */
  function AfterGaps(rows: seq<Row>, files: seq<File>, limit: int, next: nat): nat {
    next + |UpTo(MissingFiles(files, Versions(Kept(rows))), limit)|
  }

  /** The newest row with a full snapshot. */
  function Rebuilt(rows: seq<Row>): seq<Row> {
    if rows == [] then [] else rows[..|rows| - 1] + [rows[|rows| - 1].(full := true)]
  }

  /** What verify_repair answers; Err where it raises. */
  function Verdict(rows: seq<Row>, files: seq<File>): Result<bool, string> {
    if rows == [] then Err("TypeError")
    else if NumberOf(rows[|rows| - 1].version).None? then Err("ValueError")
    else Ok(CountsMatch(rows, files) && NewestIsHighest(rows, files) && rows[|rows| - 1].full)
  }

  /** A full fix executes the files beyond the limit, and no others. */
  lemma {:induction false} FixExecutes(rows: seq<Row>, files: seq<File>, raw: string, next: nat)
    requires Listing(files) && IsLimit(raw)
    ensures PlanFor(rows, files, raw).Some?
    ensures var limit := PlanFor(rows, files, raw).value.limit;
            ExecutesBeyond(rows, Rebuilt(Upgraded(Repaired(rows, files, limit, next), files, AfterGaps(rows, files, limit, next))),
                           files, raw)
  {
    HandedOver(rows, files, raw);
    var limit := PlanFor(rows, files, raw).value.limit;
    var fixed := Upgraded(Repaired(rows, files, limit, next), files, AfterGaps(rows, files, limit, next));
    ExecutedAre(rows, files, raw, next, AfterGaps(rows, files, limit, next), Rebuilt(fixed));
  }

  lemma {:induction false} NothingLeft(rows: seq<Row>, files: seq<File>, limit: int, next: nat, next': nat)
    requires Listing(files) && Beyond(MissingFiles(files, Versions(Kept(rows))), limit) == []
    ensures Upgraded(Repaired(rows, files, limit, next), files, next') == Repaired(rows, files, limit, next)
  {
    FinalRows(rows, files, limit, next, next');
  }

  lemma {:induction false} RebuiltAligned(rows: seq<Row>, files: seq<File>)
    requires Aligned(rows, files)
    ensures Aligned(Rebuilt(rows), files) && (NewestIsHighest(Rebuilt(rows), files) <==> NewestIsHighest(rows, files))
  {
    if rows != [] {
      var n := |rows| - 1;
      var last := rows[n].(full := true);
      assert rows == rows[..n] + [rows[n]];
      VersionsConcat(rows[..n], [rows[n]]);
      VersionsConcat(rows[..n], [last]);
      assert rows[n] in [rows[n]] && last in [last];
      assert Versions([rows[n]]) == Versions([last]);
    }
  }

  /** On an aligned ledger with a rebuilt snapshot the verdict is the newest-record check alone; with no
    * file and no row the check cannot even be made. */
  lemma {:induction false} FixVerdict(rows: seq<Row>, files: seq<File>)
    requires Listing(files) && Aligned(rows, files)
    ensures Verdict(Rebuilt(rows), files) == if files == [] then Err("TypeError") else Ok(NewestIsHighest(rows, files))
  {
    RebuiltAligned(rows, files);
    AlignedCounts(Rebuilt(rows), files);
    assert files != [] ==> files[0] in files && files[0].name in Names(files);
    if rows != [] {
      var last := rows[|rows| - 1];
      assert last in rows;
      assert last.version in Names(files);
    }
  }

  // ---------------------------------------------------------------- the table

  class Ledger {
    var rows: seq<Row>
    var next: nat

    /** Ids are positive, ascending and below the next one. */
    ghost predicate Valid()
      reads this
    {
      Ascending(rows) && next > 0 && forall r :: r in rows ==> r.id < next
    }

    constructor (rows: seq<Row>, next: nat)
      requires Ascending(rows) && next > 0 && forall r :: r in rows ==> r.id < next
      ensures Valid() && this.rows == rows && this.next == next
    {
      this.rows, this.next := rows, next;
    }

    /** DELETE ... WHERE id = ... for each of the rows. */
    method DeleteEach(gone: seq<Row>)
      requires Valid()
      modifies this`rows
      ensures Valid() && rows == Without(old(rows), RowIds(gone))
    {
      WithoutNone(rows);
      assert gone[..0] == [] && RowIds([]) == {};
      for i := 0 to |gone|
        invariant Valid() && rows == Without(old(rows), RowIds(gone[..i]))
      {
        WithoutBoth(old(rows), RowIds(gone[..i]), {gone[i].id});
        RowIdsSnoc(gone, i);
        AscendingSome(rows, {gone[i].id}, next);
        rows := Without(rows, {gone[i].id});
      }
      assert gone[..|gone|] == gone;
    }

    /** INSERT: the next id. */
    method Insert(version: string, full: bool)
      requires Valid()
      modifies this
      ensures Valid() && rows == old(rows) + [Row(old(next), version, full)] && next == old(next) + 1
    {
      rows, next := rows + [Row(next, version, full)], next + 1;
    }

    /** The part of repair_records that only reads. */
    method Survey(files: seq<File>, raw: string) returns (p: Option<Plan>)
      requires Valid()
      ensures p == PlanFor(rows, files, raw)
    {
      var duplicates := FindDuplicateRecords(rows);
      WithoutDuplicates(rows);
      var effective := Without(rows, RowIds(duplicates));
      var recorded := Versions(effective);
      var stale := Stale(effective, Names(files));
      var missing := MissingFiles(files, recorded);
      var limit := ResolveFakeMax(raw, MatchedMax(files, recorded));
      p := if limit.None? then None else Some(Plan(duplicates, stale, missing, limit.value));
    }

    /** The part of repair_records that writes. */
    method Apply(files: seq<File>, p: Plan)
      requires Valid()
      requires p.duplicates == Duplicates(rows) && p.stale == Stale(Kept(rows), Names(files))
      requires p.missing == MissingFiles(files, Versions(Kept(rows)))
      modifies this
      ensures Valid() && rows == Repaired(old(rows), files, p.limit, old(next))
      ensures next == AfterGaps(old(rows), files, p.limit, old(next))
    {
      WithoutDuplicates(rows);
      DeleteEach(p.duplicates);
      WithoutStale(rows, Names(files));
      DeleteEach(p.stale);
      FillGaps(p.missing, p.limit);
    }

    /** repair_records. The answer is the files to execute and the number of planned changes; Err where
      * the process exits or int() raises. The table changes only when asked to, confirmed and not idle. */
    method RepairRecords(files: seq<File>, raw: string, lockFree: bool, execute: bool, assumeYes: bool, confirmed: bool)
      returns (r: Result<(seq<File>, nat), string>)
      requires Valid()
      modifies this
      ensures Valid()
      ensures r.Ok? <==> lockFree && PlanFor(old(rows), files, raw).Some?
      ensures r.Ok? ==>
                var p := PlanFor(old(rows), files, raw).value;
                var act := execute && (assumeYes || (Changes(p) > 0 && confirmed));
                && r.value == (Beyond(p.missing, p.limit), if execute && !act then 0 else Changes(p))
                && rows == (if act then Repaired(old(rows), files, p.limit, old(next)) else old(rows))
                && next == (if act then AfterGaps(old(rows), files, p.limit, old(next)) else old(next))
      ensures r.Err? ==> rows == old(rows)
      ensures r.Ok? <==> lockFree && IsLimit(raw)
      ensures r.Ok? ==> HandsOver(old(rows), files, raw, r.value.0)
      ensures raw == "all" && Listing(files) && NumbersUpTo(files, 1000000000) && r.Ok? ==>
                r.value.0 == [] && (execute && assumeYes ==> OnlyRecords(old(rows), rows, files))
    {
      PlanIff(rows, files, raw);
      if IsLimit(raw) {
        HandedOver(rows, files, raw);
      }
      if Listing(files) && NumbersUpTo(files, 1000000000) {
        AllOnlyRecords(rows, files, next);
      }
      if !lockFree {
        return Err("locked");
      }
      var plan := Survey(files, raw);
      if plan.None? {
        return Err("ValueError");
      }
      var p := plan.value;
      var pending, planned := Beyond(p.missing, p.limit), Changes(p);
      if !execute {
        return Ok((pending, planned));
      }
      if !assumeYes {
        if planned == 0 {
          return Ok((pending, 0));
        }
        if !confirmed {
          return Ok((pending, 0));
        }
      }
      Apply(files, p);
      r := Ok((pending, planned));
    }

    /** The insertions of a repair: missing files up to the limit get an empty record. */
    method FillGaps(missing: seq<File>, limit: int)
      requires Valid()
      modifies this
      ensures Valid() && rows == old(rows) + Recorded(UpTo(missing, limit), old(next), false)
      ensures next == old(next) + |UpTo(missing, limit)|
    {
      assert missing[..0] == [] && old(rows) + [] == old(rows);
      for i := 0 to |missing|
        invariant Valid() && rows == old(rows) + Recorded(UpTo(missing[..i], limit), old(next), false)
        invariant next == old(next) + |UpTo(missing[..i], limit)|
      {
        UpToSnoc(missing, i, limit);
        ghost var done := UpTo(missing[..i], limit);
        if missing[i].num > limit {
          assert done + [] == done;
          continue;
        }
        RecordedOne(done, missing[i], old(next), false);
        Insert(missing[i].name, false);
      }
      assert missing[..|missing|] == missing;
    }

    /** aerich's upgrade: every file without a record is executed and recorded with its snapshot. */
    method Upgrade(files: seq<File>)
      requires Valid()
      modifies this
      ensures Valid() && rows == Upgraded(old(rows), files, old(next))
    {
      var left := MissingFiles(files, Versions(rows));
      assert left[..0] == [] && old(rows) + [] == old(rows);
      for i := 0 to |left|
        invariant Valid() && rows == old(rows) + Recorded(left[..i], old(next), true) && next == old(next) + i
      {
        RecordedSnoc(left, i, old(next), true);
        Insert(left[i].name, true);
      }
      assert left[..|left|] == left;
    }

    /** check_baseline_and_preview with rebuild: an empty newest snapshot is replaced. */
    method RebuildBaseline() returns (ok: bool)
      requires Valid()
      modifies this`rows
      ensures Valid() && ok == (old(rows) != []) && rows == Rebuilt(old(rows))
    {
      if rows == [] {
        return false;
      }
      var last := rows[|rows| - 1];
      assert rows == rows[..|rows| - 1] + [last];
      if !last.full {
        rows := rows[..|rows| - 1] + [last.(full := true)];
      }
      ok := true;
    }

    /** verify_repair; Err where it raises: on an empty table, or when the newest version has no number. */
    method VerifyRepair(files: seq<File>) returns (r: Result<bool, string>)
      requires Valid() && Listing(files)
      ensures r == Verdict(rows, files)
    {
      var maxNum := if files == [] then -1 else files[|files| - 1].num;
      if rows == [] {
        return Err("TypeError");
      }
      var last := rows[|rows| - 1];
      var ok := CountsMatch(rows, files);
      var lastNum := NumberOf(last.version);
      if lastNum.None? {
        return Err("ValueError");
      }
      if lastNum.value != maxNum {
        ok := false;
      }
      if !last.full {
        ok := false;
      }
      r := Ok(ok);
    }

    /** capability_full_fix, once confirmed: repair, execute what is beyond the limit, rebuild, verify. */
    method FullFix(files: seq<File>, raw: string) returns (r: Result<bool, string>)
      requires Valid() && Listing(files)
      modifies this
      ensures Valid()
      ensures PlanFor(old(rows), files, raw).None? ==> r == Err("ValueError") && rows == old(rows)
      ensures PlanFor(old(rows), files, raw).Some? ==>
                var limit := PlanFor(old(rows), files, raw).value.limit;
                && rows == Rebuilt(Upgraded(Repaired(old(rows), files, limit, old(next)), files,
                                            AfterGaps(old(rows), files, limit, old(next))))
                && Aligned(rows, files)
                && r == if files == [] then Err("TypeError") else Ok(NewestIsHighest(rows, files))
      ensures r == Err("ValueError") <==> !IsLimit(raw)
      ensures IsLimit(raw) ==> ExecutesBeyond(old(rows), rows, files, raw)
    {
      PlanIff(rows, files, raw);
      if IsLimit(raw) {
        FixExecutes(rows, files, raw, next);
      }
      var repaired := RepairRecords(files, raw, true, true, true, true);
      if repaired.Err? {
        return Err("ValueError");
      }
      ghost var limit := PlanFor(old(rows), files, raw).value.limit;
      ghost var id := AfterGaps(old(rows), files, limit, old(next));
      RepairThenUpgradeAligns(old(rows), files, limit, old(next), id);
      KeptHolds(old(rows));
      if repaired.value.0 != [] {
        Upgrade(files);
      } else {
        NothingLeft(old(rows), files, limit, old(next), id);
      }
      RebuiltAligned(rows, files);
      FixVerdict(rows, files);
      var baselineOk := RebuildBaseline();
      var verified := VerifyRepair(files);
      r := if verified.Err? then verified else Ok(baselineOk && verified.value);
    }
  }
}
