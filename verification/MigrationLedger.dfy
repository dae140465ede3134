/** Repair of the migration ledger (scripts/repair_aerich_alignment.py): the table that says which
  * migration files have been applied, what the repair plans and does to it, and what the final checks
  * then say. */
module MigrationLedger {
  import opened Options
  import opened PyText

  /** A migration file: the number its name starts with, and the name. */
  datatype File = File(num: nat, name: string)

  /** A row of the ledger; `full` says whether its snapshot of the models is not empty. */
  datatype Row = Row(id: nat, version: string, full: bool)

  // ---------------------------------------------------------------- files

  function UpToUnderscore(name: string): string {
    if name == "" || name[0] == '_' then "" else [name[0]] + UpToUnderscore(name[1..])
  }

  /** int(name.split("_")[0]); None where it raises. */
  function NumberOf(name: string): Option<int> { ParseInt(UpToUnderscore(name), 10) }

  /** What list_migration_files returns: numbered names, sorted, each name once. */
  predicate Listing(files: seq<File>) {
    && (forall i :: 0 <= i < |files| ==> NumberOf(files[i].name) == Some(files[i].num))
    && (forall i, j :: 0 <= i < j < |files| ==> files[i].num <= files[j].num && files[i].name != files[j].name)
  }

  function Names(files: seq<File>): set<string> { set f | f in files :: f.name }

  function Versions(rows: seq<Row>): set<string> { set r | r in rows :: r.version }

  function RowIds(rows: seq<Row>): set<nat> { set r | r in rows :: r.id }

  /** Rows in order of their ids, as ORDER BY id gives them. */
  predicate Ascending(rows: seq<Row>) {
    (forall i :: 0 <= i < |rows| ==> rows[i].id > 0) && (forall i, j :: 0 <= i < j < |rows| ==> rows[i].id < rows[j].id)
  }

  // ---------------------------------------------------------------- the plan

  /** Rows whose version is recorded again later. */
  function Duplicates(rows: seq<Row>): seq<Row> {
    if rows == [] then []
    else (if rows[0].version in Versions(rows[1..]) then [rows[0]] else []) + Duplicates(rows[1..])
  }

  /** The last record of every version. */
  function Kept(rows: seq<Row>): seq<Row> {
    if rows == [] then []
    else (if rows[0].version in Versions(rows[1..]) then [] else [rows[0]]) + Kept(rows[1..])
  }

  function Stale(rows: seq<Row>, names: set<string>): seq<Row> {
    if rows == [] then [] else (if rows[0].version in names then [] else [rows[0]]) + Stale(rows[1..], names)
  }

  function Current(rows: seq<Row>, names: set<string>): seq<Row> {
    if rows == [] then [] else (if rows[0].version in names then [rows[0]] else []) + Current(rows[1..], names)
  }

  function MissingFiles(files: seq<File>, recorded: set<string>): seq<File> {
    if files == [] then []
    else (if files[0].name in recorded then [] else [files[0]]) + MissingFiles(files[1..], recorded)
  }

  /** Files up to the limit are only recorded, files beyond it are executed. */
  function UpTo(files: seq<File>, limit: int): seq<File> {
    if files == [] then [] else (if files[0].num <= limit then [files[0]] else []) + UpTo(files[1..], limit)
  }

  function Beyond(files: seq<File>, limit: int): seq<File> {
    if files == [] then [] else (if files[0].num > limit then [files[0]] else []) + Beyond(files[1..], limit)
  }

  /** The highest number among the recorded files. */
  function MatchedMax(files: seq<File>, recorded: set<string>): Option<int> {
    if files == [] then None
    else
      var rest := MatchedMax(files[1..], recorded);
      if files[0].name !in recorded then rest
      else if rest.Some? && rest.value >= files[0].num then rest
      else Some(files[0].num)
  }

  const FAKE_MAX_ALL := 1_000_000_000

  /** resolve_fake_max; None where int() raises. */
  function ResolveFakeMax(raw: string, matched: Option<int>): Option<int> {
    if raw == "all" then Some(FAKE_MAX_ALL)
    else if raw == "auto" then Some(if matched.Some? then matched.value else -1)
    else ParseInt(raw, 10)
  }

  datatype Plan = Plan(duplicates: seq<Row>, stale: seq<Row>, missing: seq<File>, limit: int)

  function PlanFor(rows: seq<Row>, files: seq<File>, raw: string): Option<Plan> {
    var kept := Kept(rows);
    var limit := ResolveFakeMax(raw, MatchedMax(files, Versions(kept)));
    if limit.None? then None
    else Some(Plan(Duplicates(rows), Stale(kept, Names(files)), MissingFiles(files, Versions(kept)), limit.value))
  }

  function Changes(p: Plan): nat { |p.duplicates| + |p.stale| + |p.missing| }

  // ---------------------------------------------------------------- the effects

  /** New rows for files, with the next free ids. */
  function Recorded(files: seq<File>, next: nat, full: bool): seq<Row> {
    if files == [] then [] else [Row(next, files[0].name, full)] + Recorded(files[1..], next + 1, full)
  }

  /** The ledger after a repair. */
  function Repaired(rows: seq<Row>, files: seq<File>, limit: int, next: nat): seq<Row> {
    Current(Kept(rows), Names(files)) + Recorded(UpTo(MissingFiles(files, Versions(Kept(rows))), limit), next, false)
  }

  /** The ledger after aerich's upgrade: the unrecorded files, in order, with their snapshots. */
  function Upgraded(rows: seq<Row>, files: seq<File>, next: nat): seq<Row> {
    rows + Recorded(MissingFiles(files, Versions(rows)), next, true)
  }

  // ---------------------------------------------------------------- the goal

  /** Each file recorded exactly once, and nothing else. */
  predicate Aligned(rows: seq<Row>, files: seq<File>) {
    && (forall i, j :: 0 <= i < j < |rows| ==> rows[i].version != rows[j].version)
    && Versions(rows) == Names(files)
  }

  predicate DistinctVersions(rows: seq<Row>) {
    forall i, j :: 0 <= i < j < |rows| ==> rows[i].version != rows[j].version
  }

  lemma {:induction false} VersionsConcat(a: seq<Row>, b: seq<Row>)
    ensures Versions(a + b) == Versions(a) + Versions(b)
  {
    forall v | v in Versions(a) ensures v in Versions(a + b) {
      var r :| r in a && r.version == v;
      assert r in a + b;
    }
    forall v | v in Versions(b) ensures v in Versions(a + b) {
      var r :| r in b && r.version == v;
      assert r in a + b;
    }
  }

  lemma {:induction false} DistinctConcat(a: seq<Row>, b: seq<Row>)
    requires DistinctVersions(a) && DistinctVersions(b) && Versions(a) !! Versions(b)
    ensures DistinctVersions(a + b)
  {
    forall i, j | 0 <= i < j < |a + b| ensures (a + b)[i].version != (a + b)[j].version {
      if i < |a| <= j {
        assert a[i] in a && b[j - |a|] in b;
        assert a[i].version in Versions(a) && b[j - |a|].version in Versions(b);
      }
    }
  }

  lemma {:induction false} DistinctCons(r: Row, rows: seq<Row>)
    ensures DistinctVersions([r] + rows) <==> r.version !in Versions(rows) && DistinctVersions(rows)
  {
    var all := [r] + rows;
    if DistinctVersions(all) {
      assert all[0] == r;
      forall i | 0 <= i < |rows| ensures all[i + 1] == rows[i] && rows[i].version != r.version {
      }
      forall i, j | 0 <= i < j < |rows| ensures rows[i].version != rows[j].version {
        assert all[i + 1].version != all[j + 1].version;
      }
    } else if r.version !in Versions(rows) {
      var i, j :| 0 <= i < j < |all| && all[i].version == all[j].version;
      assert all[j] == rows[j - 1] && rows[j - 1] in rows;
      if i > 0 {
        assert rows[i - 1].version == rows[j - 1].version;
      }
    }
  }

  lemma {:induction false} KeptHolds(rows: seq<Row>)
    ensures DistinctVersions(Kept(rows)) && Versions(Kept(rows)) == Versions(rows)
    ensures forall r :: r in Kept(rows) ==> r in rows
  {
    if rows != [] {
      KeptHolds(rows[1..]);
      assert rows == [rows[0]] + rows[1..];
      VersionsConcat([rows[0]], rows[1..]);
      assert Versions([rows[0]]) == {rows[0].version} by { assert rows[0] in [rows[0]]; }
      if rows[0].version !in Versions(rows[1..]) {
        VersionsConcat([rows[0]], Kept(rows[1..]));
        DistinctConcat([rows[0]], Kept(rows[1..]));
      } else {
        assert Kept(rows) == Kept(rows[1..]);
      }
    }
  }

  lemma {:induction false} CurrentMembers(rows: seq<Row>, names: set<string>)
    ensures forall r :: r in Current(rows, names) <==> r in rows && r.version in names
  {
    if rows != [] {
      CurrentMembers(rows[1..], names);
      assert rows == [rows[0]] + rows[1..];
    }
  }

  lemma {:induction false} CurrentDistinct(rows: seq<Row>, names: set<string>)
    requires DistinctVersions(rows)
    ensures DistinctVersions(Current(rows, names))
  {
    if rows != [] {
      assert rows == [rows[0]] + rows[1..];
      DistinctCons(rows[0], rows[1..]);
      CurrentDistinct(rows[1..], names);
      if rows[0].version in names {
        CurrentMembers(rows[1..], names);
        DistinctCons(rows[0], Current(rows[1..], names));
      } else {
        assert Current(rows, names) == Current(rows[1..], names);
      }
    }
  }

  lemma {:induction false} CurrentHolds(rows: seq<Row>, names: set<string>)
    ensures DistinctVersions(rows) ==> DistinctVersions(Current(rows, names))
    ensures Versions(Current(rows, names)) == Versions(rows) * names
    ensures forall r :: r in Current(rows, names) <==> r in rows && r.version in names
  {
    CurrentMembers(rows, names);
    if DistinctVersions(rows) {
      CurrentDistinct(rows, names);
    }
  }

  lemma {:induction false} ListingRest(files: seq<File>)
    requires Listing(files) && files != []
    ensures Listing(files[1..])
  {
  }

  lemma {:induction false} ConsListing(f: File, some: seq<File>, all: seq<File>)
    requires Listing([f] + all) && Listing(some) && forall g :: g in some ==> g in all
    ensures Listing([f] + some)
  {
    var s := [f] + some;
    forall i, j | 0 <= i < j < |s| ensures s[i].num <= s[j].num && s[i].name != s[j].name {
      if i == 0 {
        assert s[j] in some;
        var k :| 0 <= k < |all| && all[k] == s[j];
        assert ([f] + all)[k + 1] == s[j] && ([f] + all)[0] == f;
      }
    }
    assert ([f] + all)[0] == f;
  }

  lemma {:induction false} MissingMembers(files: seq<File>, recorded: set<string>)
    ensures forall f :: f in MissingFiles(files, recorded) <==> f in files && f.name !in recorded
  {
    if files != [] {
      MissingMembers(files[1..], recorded);
      assert files == [files[0]] + files[1..];
    }
  }

  lemma {:induction false} MissingListing(files: seq<File>, recorded: set<string>)
    requires Listing(files)
    ensures Listing(MissingFiles(files, recorded))
  {
    if files != [] {
      ListingRest(files);
      MissingListing(files[1..], recorded);
      if files[0].name !in recorded {
        MissingMembers(files[1..], recorded);
        assert files == [files[0]] + files[1..];
        ConsListing(files[0], MissingFiles(files[1..], recorded), files[1..]);
      } else {
        assert MissingFiles(files, recorded) == MissingFiles(files[1..], recorded);
      }
    }
  }

  lemma {:induction false} MissingHolds(files: seq<File>, recorded: set<string>)
    ensures forall f :: f in MissingFiles(files, recorded) <==> f in files && f.name !in recorded
    ensures Listing(files) ==> Listing(MissingFiles(files, recorded))
    ensures Names(MissingFiles(files, recorded)) == Names(files) - recorded
  {
    MissingMembers(files, recorded);
    if Listing(files) {
      MissingListing(files, recorded);
    }
  }

  lemma {:induction false} UpToMembers(files: seq<File>, limit: int)
    ensures forall f :: f in UpTo(files, limit) <==> f in files && f.num <= limit
  {
    if files != [] {
      UpToMembers(files[1..], limit);
      assert files == [files[0]] + files[1..];
    }
  }

  lemma {:induction false} UpToListing(files: seq<File>, limit: int)
    requires Listing(files)
    ensures Listing(UpTo(files, limit))
  {
    if files != [] {
      ListingRest(files);
      UpToListing(files[1..], limit);
      if files[0].num <= limit {
        UpToMembers(files[1..], limit);
        assert files == [files[0]] + files[1..];
        ConsListing(files[0], UpTo(files[1..], limit), files[1..]);
      } else {
        assert UpTo(files, limit) == UpTo(files[1..], limit);
      }
    }
  }

  lemma {:induction false} UpToHolds(files: seq<File>, limit: int)
    ensures forall f :: f in UpTo(files, limit) <==> f in files && f.num <= limit
    ensures Listing(files) ==> Listing(UpTo(files, limit))
    ensures Names(UpTo(files, limit)) <= Names(files)
  {
    UpToMembers(files, limit);
    if Listing(files) {
      UpToListing(files, limit);
    }
  }

  lemma {:induction false} RecordedAt(files: seq<File>, next: nat, full: bool)
    ensures |Recorded(files, next, full)| == |files|
    ensures forall i :: 0 <= i < |files| ==> Recorded(files, next, full)[i] == Row(next + i, files[i].name, full)
  {
    if files != [] {
      RecordedAt(files[1..], next + 1, full);
    }
  }

  lemma {:induction false} RecordedHolds(files: seq<File>, next: nat, full: bool)
    ensures var r := Recorded(files, next, full);
            && |r| == |files|
            && (forall i :: 0 <= i < |files| ==> r[i] == Row(next + i, files[i].name, full))
            && Versions(r) == Names(files)
            && (Listing(files) ==> DistinctVersions(r))
  {
    RecordedAt(files, next, full);
    var r := Recorded(files, next, full);
    forall v | v in Names(files) ensures v in Versions(r) {
      var i :| 0 <= i < |files| && files[i].name == v;
      assert r[i] in r;
    }
    forall v | v in Versions(r) ensures v in Names(files) {
      var i :| 0 <= i < |r| && r[i].version == v;
      assert files[i] in files;
    }
  }

  /** After the repair the ledger has no duplicates, nothing stale, and every file within the limit. */
  lemma {:induction false} RepairedHolds(rows: seq<Row>, files: seq<File>, limit: int, next: nat)
    requires Listing(files)
    ensures var after := Repaired(rows, files, limit, next);
            && DistinctVersions(after)
            && Versions(after) <= Names(files)
            && Names(files) - Versions(after) == Names(Beyond(MissingFiles(files, Versions(rows)), limit))
  {
    var kept, names := Kept(rows), Names(files);
    var missing := MissingFiles(files, Versions(kept));
    KeptHolds(rows);
    CurrentHolds(kept, names);
    MissingHolds(files, Versions(kept));
    UpToHolds(missing, limit);
    BeyondHolds(missing, limit);
    RecordedHolds(UpTo(missing, limit), next, false);
    VersionsConcat(Current(kept, names), Recorded(UpTo(missing, limit), next, false));
    DistinctConcat(Current(kept, names), Recorded(UpTo(missing, limit), next, false));
    SplitNames(missing, limit);
  }

  lemma {:induction false} BeyondMembers(files: seq<File>, limit: int)
    ensures forall f :: f in Beyond(files, limit) <==> f in files && f.num > limit
  {
    if files != [] {
      BeyondMembers(files[1..], limit);
      assert files == [files[0]] + files[1..];
    }
  }

  lemma {:induction false} BeyondListing(files: seq<File>, limit: int)
    requires Listing(files)
    ensures Listing(Beyond(files, limit))
  {
    if files != [] {
      ListingRest(files);
      BeyondListing(files[1..], limit);
      if files[0].num > limit {
        BeyondMembers(files[1..], limit);
        assert files == [files[0]] + files[1..];
        ConsListing(files[0], Beyond(files[1..], limit), files[1..]);
      } else {
        assert Beyond(files, limit) == Beyond(files[1..], limit);
      }
    }
  }

  lemma {:induction false} BeyondHolds(files: seq<File>, limit: int)
    ensures forall f :: f in Beyond(files, limit) <==> f in files && f.num > limit
    ensures Listing(files) ==> Listing(Beyond(files, limit))
  {
    BeyondMembers(files, limit);
    if Listing(files) {
      BeyondListing(files, limit);
    }
  }

  lemma {:induction false} SplitNames(files: seq<File>, limit: int)
    requires Listing(files)
    ensures Names(files) == Names(UpTo(files, limit)) + Names(Beyond(files, limit))
    ensures Names(UpTo(files, limit)) !! Names(Beyond(files, limit))
  {
    UpToHolds(files, limit);
    BeyondHolds(files, limit);
    forall v | v in Names(files) ensures v in Names(UpTo(files, limit)) + Names(Beyond(files, limit)) {
      var f :| f in files && f.name == v;
      assert f in UpTo(files, limit) || f in Beyond(files, limit);
    }
  }

  /** Repair followed by upgrade records every file exactly once, from any ledger, with any limit. */
  lemma {:induction false} RepairThenUpgradeAligns(rows: seq<Row>, files: seq<File>, limit: int, next: nat, next': nat)
    requires Listing(files)
    ensures Aligned(Upgraded(Repaired(rows, files, limit, next), files, next'), files)
  {
    var after := Repaired(rows, files, limit, next);
    var left := MissingFiles(files, Versions(after));
    RepairedHolds(rows, files, limit, next);
    MissingHolds(files, Versions(after));
    RecordedHolds(left, next', true);
    VersionsConcat(after, Recorded(left, next', true));
    DistinctConcat(after, Recorded(left, next', true));
  }

  lemma {:induction false} KeptIsAll(rows: seq<Row>)
    ensures Duplicates(rows) == [] <==> DistinctVersions(rows)
    ensures DistinctVersions(rows) ==> Kept(rows) == rows
  {
    if rows != [] {
      assert rows == [rows[0]] + rows[1..];
      DistinctCons(rows[0], rows[1..]);
      KeptIsAll(rows[1..]);
    }
  }

  lemma {:induction false} StaleEmptyIff(rows: seq<Row>, names: set<string>)
    ensures Stale(rows, names) == [] <==> Versions(rows) <= names
  {
    if rows != [] {
      StaleEmptyIff(rows[1..], names);
      assert rows == [rows[0]] + rows[1..];
      VersionsConcat([rows[0]], rows[1..]);
      assert Versions([rows[0]]) == {rows[0].version} by { assert rows[0] in [rows[0]]; }
    }
  }

  lemma {:induction false} MissingEmptyIff(files: seq<File>, recorded: set<string>)
    ensures MissingFiles(files, recorded) == [] <==> Names(files) <= recorded
  {
    MissingHolds(files, recorded);
    if MissingFiles(files, recorded) != [] {
      assert MissingFiles(files, recorded)[0] in MissingFiles(files, recorded);
    }
  }

  /** A plan is empty exactly when the ledger is aligned; so a second pass plans no change. */
  lemma {:induction false} NothingToDoIff(rows: seq<Row>, files: seq<File>, raw: string)
    requires PlanFor(rows, files, raw).Some?
    ensures Changes(PlanFor(rows, files, raw).value) == 0 <==> Aligned(rows, files)
  {
    KeptIsAll(rows);
    KeptHolds(rows);
    StaleEmptyIff(Kept(rows), Names(files));
    MissingEmptyIff(files, Versions(Kept(rows)));
  }

  lemma {:induction false} SecondPassIsIdle(rows: seq<Row>, files: seq<File>, limit: int, next: nat, next': nat, raw: string)
    requires Listing(files)
    requires PlanFor(Upgraded(Repaired(rows, files, limit, next), files, next'), files, raw).Some?
    ensures Changes(PlanFor(Upgraded(Repaired(rows, files, limit, next), files, next'), files, raw).value) == 0
  {
    RepairThenUpgradeAligns(rows, files, limit, next, next');
    NothingToDoIff(Upgraded(Repaired(rows, files, limit, next), files, next'), files, raw);
  }

  /** Repairing again, without the upgrade, does nothing either. */
  lemma {:induction false} RepairTwice(rows: seq<Row>, files: seq<File>, limit: int, next: nat, next': nat)
    requires Listing(files)
    ensures var once := Repaired(rows, files, limit, next); Repaired(once, files, limit, next') == once
  {
    var once := Repaired(rows, files, limit, next);
    RepairedHolds(rows, files, limit, next);
    KeptIsAll(once);
    CurrentIsAll(once, Names(files));
    var pending := MissingFiles(files, Versions(rows));
    MissingHolds(files, Versions(rows));
    BeyondHolds(pending, limit);
    var left := MissingFiles(files, Versions(once));
    MissingHolds(files, Versions(once));
    forall f | f in left ensures f.num > limit {
      assert f.name in Names(files) - Versions(once);
      var g :| g in Beyond(pending, limit) && g.name == f.name;
      SameFile(files, f, g);
    }
    NoneUpTo(left, limit);
  }

  lemma {:induction false} NoneUpTo(files: seq<File>, limit: int)
    requires forall f :: f in files ==> f.num > limit
    ensures UpTo(files, limit) == []
  {
    if files != [] {
      NoneUpTo(files[1..], limit);
    }
  }

  lemma {:induction false} SameFile(files: seq<File>, f: File, g: File)
    requires Listing(files) && f in files && g in files && f.name == g.name
    ensures f == g
  {
    var i :| 0 <= i < |files| && files[i] == f;
    var j :| 0 <= j < |files| && files[j] == g;
    assert i == j;
  }

  lemma {:induction false} CurrentIsAll(rows: seq<Row>, names: set<string>)
    requires Versions(rows) <= names
    ensures Current(rows, names) == rows
  {
    if rows != [] {
      assert rows == [rows[0]] + rows[1..];
      VersionsConcat([rows[0]], rows[1..]);
      assert Versions([rows[0]]) == {rows[0].version} by { assert rows[0] in [rows[0]]; }
      CurrentIsAll(rows[1..], names);
    }
  }

  // ---------------------------------------------------------------- the checks afterwards

  /** What the first check of verify_repair counts: as many rows as files, none twice. */
  predicate CountsMatch(rows: seq<Row>, files: seq<File>) {
    |rows| == |files| && DistinctVersions(rows)
  }

  lemma {:induction false} NamesCons(f: File, files: seq<File>)
    ensures Names([f] + files) == {f.name} + Names(files)
  {
    var all := [f] + files;
    assert f in all;
    forall v | v in Names(files) ensures v in Names(all) {
      var g :| g in files && g.name == v;
      assert g in all;
    }
  }

  predicate DistinctNames(files: seq<File>) {
    forall i, j :: 0 <= i < j < |files| ==> files[i].name != files[j].name
  }

  lemma {:induction false} NamesCount(files: seq<File>)
    requires DistinctNames(files)
    ensures |Names(files)| == |files|
  {
    if files == [] {
      assert Names(files) == {};
    } else {
      NamesCount(files[1..]);
      NamesCons(files[0], files[1..]);
      assert files == [files[0]] + files[1..];
      assert files[0].name !in Names(files[1..]);
    }
  }

  lemma {:induction false} VersionsCount(rows: seq<Row>)
    requires DistinctVersions(rows)
    ensures |Versions(rows)| == |rows|
  {
    if rows == [] {
      assert Versions(rows) == {};
    } else {
      assert rows == [rows[0]] + rows[1..];
      DistinctCons(rows[0], rows[1..]);
      VersionsCount(rows[1..]);
      VersionsConcat([rows[0]], rows[1..]);
      assert Versions([rows[0]]) == {rows[0].version} by { assert rows[0] in [rows[0]]; }
    }
  }

  lemma {:induction false} SameSize<T>(a: set<T>, b: set<T>)
    requires a <= b && |a| == |b|
    ensures a == b
  {
    assert b == a + (b - a);
  }

  /** The count check means a one-to-one correspondence exactly when no row is stale, as after a repair. */
  lemma {:induction false} CountsMeanAlignedIff(rows: seq<Row>, files: seq<File>)
    requires Listing(files) && CountsMatch(rows, files)
    ensures Aligned(rows, files) <==> Versions(rows) <= Names(files)
  {
    if Versions(rows) <= Names(files) {
      NamesCount(files);
      VersionsCount(rows);
      SameSize(Versions(rows), Names(files));
    }
  }

  /** An aligned ledger passes the count check. */
  lemma {:induction false} AlignedCounts(rows: seq<Row>, files: seq<File>)
    requires Listing(files) && Aligned(rows, files)
    ensures CountsMatch(rows, files)
  {
    NamesCount(files);
    VersionsCount(rows);
  }

  /** One stale row and one missing file pass the count check. */
  lemma {:induction false} StaleHidesMissing(stale: string, file: File)
    requires Listing([file]) && stale != file.name
    ensures CountsMatch([Row(1, stale, true)], [file]) && !Aligned([Row(1, stale, true)], [file])
  {
    var row := Row(1, stale, true);
    assert row in [row];
    assert stale in Versions([row]) && stale !in Names([file]);
  }

  /** The second check: the newest row is the file with the highest number. */
  predicate NewestIsHighest(rows: seq<Row>, files: seq<File>) {
    rows != [] && NumberOf(rows[|rows| - 1].version) == Some(if files == [] then -1 else files[|files| - 1].num)
  }

  /** The rows a repair and an upgrade leave: what was kept, the gaps filled, the files executed. */
  lemma {:induction false} FinalRows(rows: seq<Row>, files: seq<File>, limit: int, next: nat, next': nat)
    requires Listing(files)
    ensures var missing := MissingFiles(files, Versions(Kept(rows)));
            Upgraded(Repaired(rows, files, limit, next), files, next')
            == Current(Kept(rows), Names(files)) + Recorded(UpTo(missing, limit), next, false)
               + Recorded(Beyond(missing, limit), next', true)
  {
    var kept, names := Kept(rows), Names(files);
    var missing := MissingFiles(files, Versions(kept));
    var gaps := UpTo(missing, limit);
    var after := Repaired(rows, files, limit, next);
    CurrentHolds(kept, names);
    MissingHolds(files, Versions(kept));
    UpToHolds(missing, limit);
    RecordedHolds(gaps, next, false);
    VersionsConcat(Current(kept, names), Recorded(gaps, next, false));
    assert Versions(after) == Versions(kept) * names + Names(gaps);
    forall f | f in files ensures f.name in Versions(after) <==> f.name in Versions(kept) || f.num <= limit {
      assert f.name in names;
      if f.name !in Versions(kept) {
        assert f in missing;
        if f.num <= limit {
          assert f in gaps;
        } else {
          forall g | g in gaps ensures g.name != f.name {
            if g.name == f.name {
              SameFile(files, f, g);
            }
          }
        }
      }
    }
    StillMissing(files, Versions(kept), Versions(after), limit);
  }

  lemma {:induction false} StillMissing(files: seq<File>, recorded: set<string>, recorded': set<string>, limit: int)
    requires forall f :: f in files ==> (f.name in recorded' <==> f.name in recorded || f.num <= limit)
    ensures MissingFiles(files, recorded') == Beyond(MissingFiles(files, recorded), limit)
  {
    if files != [] {
      assert files[0] in files;
      StillMissing(files[1..], recorded, recorded', limit);
      var rest := MissingFiles(files[1..], recorded);
      if files[0].name !in recorded {
        assert MissingFiles(files, recorded) == [files[0]] + rest;
        assert MissingFiles(files, recorded)[1..] == rest;
      } else {
        assert MissingFiles(files, recorded) == rest;
      }
    }
  }

  function LastNumber(files: seq<File>): int
    requires files != []
  {
    files[|files| - 1].num
  }

  /** Exactly when the newest-record check passes after repair and upgrade, read off the plan. */
  lemma {:induction false} NewestAfterFixIff(rows: seq<Row>, files: seq<File>, limit: int, next: nat, next': nat)
    requires Listing(files)
    ensures var kept := Current(Kept(rows), Names(files));
            var missing := MissingFiles(files, Versions(Kept(rows)));
            var gaps, executed := UpTo(missing, limit), Beyond(missing, limit);
            NewestIsHighest(Upgraded(Repaired(rows, files, limit, next), files, next'), files) <==>
            files != [] &&
            if executed != [] then LastNumber(executed) == LastNumber(files)
            else if gaps != [] then LastNumber(gaps) == LastNumber(files)
            else kept != [] && NumberOf(kept[|kept| - 1].version) == Some(LastNumber(files))
  {
    var kept := Current(Kept(rows), Names(files));
    var missing := MissingFiles(files, Versions(Kept(rows)));
    var gaps, executed := UpTo(missing, limit), Beyond(missing, limit);
    FinalRows(rows, files, limit, next, next');
    MissingHolds(files, Versions(Kept(rows)));
    UpToHolds(missing, limit);
    BeyondHolds(missing, limit);
    NewestOf(kept, gaps, executed, files, next, next');
    if files == [] {
      CurrentOfNone(Kept(rows));
    }
  }

  lemma {:induction false} NewestOf(kept: seq<Row>, gaps: seq<File>, executed: seq<File>, files: seq<File>, next: nat, next': nat)
    requires Listing(gaps) && Listing(executed)
    requires files == [] ==> gaps == [] && executed == []
    ensures NewestIsHighest(kept + Recorded(gaps, next, false) + Recorded(executed, next', true), files) <==>
            var top := if files == [] then -1 else LastNumber(files);
            if executed != [] then LastNumber(executed) == top
            else if gaps != [] then LastNumber(gaps) == top
            else kept != [] && NumberOf(kept[|kept| - 1].version) == Some(top)
  {
    LastRecorded(gaps, next, false);
    LastRecorded(executed, next', true);
    LastOfThree(kept, Recorded(gaps, next, false), Recorded(executed, next', true));
  }

  lemma {:induction false} LastRecorded(files: seq<File>, next: nat, full: bool)
    requires Listing(files)
    ensures var r := Recorded(files, next, full);
            && (r == [] <==> files == [])
            && (files != [] ==> NumberOf(r[|r| - 1].version) == Some(LastNumber(files)))
  {
    RecordedHolds(files, next, full);
  }

  lemma {:induction false} LastOfThree(a: seq<Row>, b: seq<Row>, c: seq<Row>)
    ensures var all := a + b + c;
            if c != [] then all != [] && all[|all| - 1] == c[|c| - 1]
            else if b != [] then all != [] && all[|all| - 1] == b[|b| - 1]
            else all == a
  {
  }

  lemma {:induction false} CurrentOfNone(rows: seq<Row>)
    ensures Current(rows, {}) == [] && Names([]) == {}
  {
    if rows != [] {
      CurrentOfNone(rows[1..]);
    }
  }

  lemma {:induction false} MatchedMaxHolds(files: seq<File>, recorded: set<string>)
    ensures var m := MatchedMax(files, recorded);
            && (forall f :: f in files && f.name in recorded ==> m.Some? && f.num <= m.value)
            && (m.Some? ==> exists f :: f in files && f.name in recorded && f.num == m.value)
  {
    if files != [] {
      MatchedMaxHolds(files[1..], recorded);
      assert files == [files[0]] + files[1..];
      assert files[0] in files;
      var m := MatchedMax(files, recorded);
      if m.Some? && m == MatchedMax(files[1..], recorded) {
        var f :| f in files[1..] && f.name in recorded && f.num == m.value;
        assert f in files;
      }
    }
  }

  lemma {:induction false} LastIsHighest(files: seq<File>, f: File)
    requires Listing(files) && f in files
    ensures f.num <= LastNumber(files)
  {
    var i :| 0 <= i < |files| && files[i] == f;
  }

  /** With the limit `auto`: the check passes when a file was executed; otherwise the newest record is the
    * last gap that was filled, or the last one kept, and that must carry the highest recorded number. */
  lemma {:induction false} NewestWithAutoIff(rows: seq<Row>, files: seq<File>, next: nat, next': nat)
    requires Listing(files)
    ensures var kept := Current(Kept(rows), Names(files));
            var matched := MatchedMax(files, Versions(Kept(rows)));
            var limit := ResolveFakeMax("auto", matched).value;
            var missing := MissingFiles(files, Versions(Kept(rows)));
            NewestIsHighest(Upgraded(Repaired(rows, files, limit, next), files, next'), files) <==>
            || Beyond(missing, limit) != []
            || (matched.Some? &&
                if missing != [] then LastNumber(missing) == matched.value
                else kept != [] && NumberOf(kept[|kept| - 1].version) == Some(matched.value))
  {
    var recorded := Versions(Kept(rows));
    var matched := MatchedMax(files, recorded);
    var limit := ResolveFakeMax("auto", matched).value;
    var missing := MissingFiles(files, recorded);
    var executed := Beyond(missing, limit);
    NewestAfterFixIff(rows, files, limit, next, next');
    MatchedMaxHolds(files, recorded);
    MissingHolds(files, recorded);
    BeyondHolds(missing, limit);
    NoneBeyond(missing, limit);
    if executed != [] {
      assert executed[|executed| - 1] in executed;
      LastIsHighest(files, executed[|executed| - 1]);
      var top := files[|files| - 1];
      assert top in files;
      assert top in executed;
      LastIsHighest(executed, top);
    } else if files != [] {
      var top := files[|files| - 1];
      assert top in files;
      assert top.num <= limit;
      assert matched.Some?;
      var f :| f in files && f.name in recorded && f.num == matched.value;
      LastIsHighest(files, f);
      assert LastNumber(files) == matched.value;
    }
  }

  lemma {:induction false} NoneBeyond(files: seq<File>, limit: int)
    ensures Beyond(files, limit) == [] ==> UpTo(files, limit) == files
  {
    if files != [] {
      NoneBeyond(files[1..], limit);
      assert files == [files[0]] + files[1..];
    }
  }

  // ---------------------------------------------------------------- nothing recorded is lost

  /** Every file that was recorded keeps its newest row, number and snapshot included. */
  lemma {:induction false} NewestRecordStays(rows: seq<Row>, files: seq<File>, limit: int, next: nat, i: nat)
    requires Ascending(rows) && i < |rows| && rows[i].version in Names(files)
    requires forall j :: i < j < |rows| ==> rows[j].version != rows[i].version
    ensures rows[i] in Repaired(rows, files, limit, next)
  {
    LastIsKept(rows, i);
    CurrentHolds(Kept(rows), Names(files));
  }

  lemma {:induction false} LastIsKept(rows: seq<Row>, i: nat)
    requires i < |rows| && forall j :: i < j < |rows| ==> rows[j].version != rows[i].version
    ensures rows[i] in Kept(rows)
  {
    if i == 0 {
      assert rows[0].version !in Versions(rows[1..]);
    } else {
      assert rows[1..][i - 1] == rows[i];
      LastIsKept(rows[1..], i - 1);
    }
  }
}
