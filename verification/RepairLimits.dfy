/** What the limits `all`, `auto` and a number mean for a repair (scripts/repair_aerich_alignment.py): which of the
  * files without a record are handed over for execution, and which are only recorded. */
module RepairLimits {
  import opened Options
  import opened PyText
  import opened PyNumerals
  import opened MigrationLedger

  /** The number of a file is the numeral in front of the first underscore of its name. */
  lemma {:induction false} NumberOfName(num: string, rest: string)
    requires IsNumeral(num)
    ensures NumberOf(num + ("_" + rest)) == Some(Numeral(num))
  {
    BeforeUnderscore(num, "_" + rest);
    NumeralParses(num);
  }

  lemma {:induction false} BeforeUnderscore(num: string, rest: string)
    requires rest != "" && rest[0] == '_' && forall i :: 0 <= i < |num| ==> num[i] != '_'
    ensures UpToUnderscore(num + rest) == num
  {
    if num != "" {
      BeforeUnderscore(num[1..], rest);
      assert (num + rest)[1..] == num[1..] + rest;
    } else {
      assert num + rest == rest;
    }
  }

  // ---------------------------------------------------------------- what is handed over

  /** A limit: one of the two words, or a text with a decimal number in it. */
  ghost predicate IsLimit(raw: string) { raw == "all" || raw == "auto" || exists n :: Denotes(raw, 10, n) }

  /** The file lies beyond the limit: above 10^9, above every recorded file, or above the number. */
  ghost predicate LiesBeyond(rows: seq<Row>, files: seq<File>, raw: string, f: File) {
    if raw == "all" then f.num > 1000000000
    else if raw == "auto" then forall g :: g in files && g.name in Versions(rows) ==> g.num < f.num
    else forall n :: Denotes(raw, 10, n) ==> f.num > n
  }

  /** Exactly the files without a record that lie beyond the limit are handed over. */
  ghost predicate HandsOver(rows: seq<Row>, files: seq<File>, raw: string, pending: seq<File>) {
    forall f :: f in pending <==> f in files && f.name !in Versions(rows) && LiesBeyond(rows, files, raw, f)
  }

  /** Only a text that is no limit is refused. */
  lemma {:induction false} PlanIff(rows: seq<Row>, files: seq<File>, raw: string)
    ensures PlanFor(rows, files, raw).Some? <==> IsLimit(raw)
  {
    if raw != "all" && raw != "auto" {
      var n := ParseInt(raw, 10);
      if n.Some? {
        ParseIntIff(raw, 10, n.value);
      }
      forall m | Denotes(raw, 10, m) ensures n == Some(m) {
        ParseIntIff(raw, 10, m);
      }
    }
  }

  lemma {:induction false} HandedOver(rows: seq<Row>, files: seq<File>, raw: string)
    requires IsLimit(raw)
    ensures PlanFor(rows, files, raw).Some?
    ensures var p := PlanFor(rows, files, raw).value; HandsOver(rows, files, raw, Beyond(p.missing, p.limit))
  {
    KeptHolds(rows);
    PlanIff(rows, files, raw);
    var p := PlanFor(rows, files, raw).value;
    MissingHolds(files, Versions(rows));
    BeyondHolds(p.missing, p.limit);
    forall f | f in files ensures f.num > p.limit <==> LiesBeyond(rows, files, raw, f) {
      BeyondLimit(rows, files, raw, f);
    }
  }

  lemma {:induction false} BeyondLimit(rows: seq<Row>, files: seq<File>, raw: string, f: File)
    requires f in files && PlanFor(rows, files, raw).Some?
    ensures f.num > PlanFor(rows, files, raw).value.limit <==> LiesBeyond(rows, files, raw, f)
  {
    KeptHolds(rows);
    MatchedMaxHolds(files, Versions(rows));
    if raw != "all" && raw != "auto" {
      var limit := PlanFor(rows, files, raw).value.limit;
      forall n ensures Denotes(raw, 10, n) <==> n == limit {
        ParseIntIff(raw, 10, n);
      }
      assert Denotes(raw, 10, limit);
    }
  }

  // ---------------------------------------------------------------- what is only recorded

  /** Every file has a record; the records that are new have no snapshot. */
  ghost predicate OnlyRecords(before: seq<Row>, after: seq<Row>, files: seq<File>) {
    && (forall f :: f in files ==> f.name in Versions(after))
    && (forall r :: r in after && r.version !in Versions(before) ==> !r.full)
  }

  predicate NumbersUpTo(files: seq<File>, limit: int) {
    forall f :: f in files ==> f.num <= limit
  }

  /** With `all` nothing is handed over, and an executed repair records every file. */
  lemma {:induction false} AllOnlyRecords(rows: seq<Row>, files: seq<File>, next: nat)
    requires Listing(files) && NumbersUpTo(files, 1000000000)
    ensures PlanFor(rows, files, "all").Some?
    ensures var p := PlanFor(rows, files, "all").value;
            && Beyond(p.missing, p.limit) == []
            && OnlyRecords(rows, Repaired(rows, files, p.limit, next), files)
  {
    HandedOver(rows, files, "all");
    KeptHolds(rows);
    var p := PlanFor(rows, files, "all").value;
    NothingPending(rows, files, Beyond(p.missing, p.limit));
    RecordsAll(rows, files, p.limit, next);
    NewUnfilled(rows, files, p.limit, next);
  }

  lemma {:induction false} NothingPending(rows: seq<Row>, files: seq<File>, pending: seq<File>)
    requires HandsOver(rows, files, "all", pending) && NumbersUpTo(files, 1000000000)
    ensures pending == []
  {
    SomeFile(pending);
  }

  lemma {:induction false} SomeFile(files: seq<File>)
    ensures files == [] || exists f :: f in files
  {
    if files != [] {
      assert files[0] in files;
    }
  }

  lemma {:induction false} RecordsAll(rows: seq<Row>, files: seq<File>, limit: int, next: nat)
    requires Listing(files) && Beyond(MissingFiles(files, Versions(Kept(rows))), limit) == []
    ensures forall f :: f in files ==> f.name in Versions(Repaired(rows, files, limit, next))
  {
    KeptHolds(rows);
    RepairedHolds(rows, files, limit, next);
    NamesWithin(files, Versions(Repaired(rows, files, limit, next)));
  }

  lemma {:induction false} NamesWithin(files: seq<File>, versions: set<string>)
    requires Names(files) - versions == Names([])
    ensures forall f :: f in files ==> f.name in versions
  {
    forall f | f in files ensures f.name in versions {
      assert f.name in Names(files);
      assert f.name !in Names([]);
    }
  }

  lemma {:induction false} NewUnfilled(rows: seq<Row>, files: seq<File>, limit: int, next: nat)
    ensures forall r :: r in Repaired(rows, files, limit, next) && r.version !in Versions(rows) ==> !r.full
  {
    KeptHolds(rows);
    CurrentMembers(Kept(rows), Names(files));
    RecordedAt(UpTo(MissingFiles(files, Versions(Kept(rows))), limit), next, false);
  }

  // ---------------------------------------------------------------- what a full fix executes

  /** Among the new records below the newest, those of the files beyond the limit have a snapshot, since they were
    * executed, and the others have none. */
  ghost predicate ExecutesBeyond(before: seq<Row>, after: seq<Row>, files: seq<File>, raw: string) {
    forall i, f :: 0 <= i < |after| - 1 && f in files && f.name == after[i].version && f.name !in Versions(before) ==>
      (after[i].full <==> LiesBeyond(before, files, raw, f))
  }

  lemma {:induction false} ExecutedAre(rows: seq<Row>, files: seq<File>, raw: string, next: nat, next': nat, after: seq<Row>)
    requires Listing(files) && IsLimit(raw) && PlanFor(rows, files, raw).Some?
    requires var fixed := Upgraded(Repaired(rows, files, PlanFor(rows, files, raw).value.limit, next), files, next');
             |after| == |fixed| && forall i :: 0 <= i < |after| - 1 ==> after[i] == fixed[i]
    ensures ExecutesBeyond(rows, after, files, raw)
  {
    var p := PlanFor(rows, files, raw).value;
    FinalRows(rows, files, p.limit, next, next');
    forall i, f | 0 <= i < |after| - 1 && f in files && f.name == after[i].version && f.name !in Versions(rows)
      ensures after[i].full <==> LiesBeyond(rows, files, raw, f)
    {
      BeyondLimit(rows, files, raw, f);
      NewRow(rows, files, p.limit, next, next', after[i], f);
    }
  }

  /** A new record of a file, from the gaps or from the upgrade. */
  lemma {:induction false} NewRow(rows: seq<Row>, files: seq<File>, limit: int, next: nat, next': nat, r: Row, f: File)
    requires Listing(files) && f in files && f.name == r.version && f.name !in Versions(rows)
    requires var missing := MissingFiles(files, Versions(Kept(rows)));
             r in Current(Kept(rows), Names(files)) + Recorded(UpTo(missing, limit), next, false)
                  + Recorded(Beyond(missing, limit), next', true)
    ensures r.full <==> f.num > limit
  {
    var missing := MissingFiles(files, Versions(Kept(rows)));
    KeptHolds(rows);
    CurrentMembers(Kept(rows), Names(files));
    MissingHolds(files, Versions(Kept(rows)));
    RecordedOf(UpTo(missing, limit), next, false, r);
    RecordedOf(Beyond(missing, limit), next', true, r);
    UpToMembers(missing, limit);
    BeyondMembers(missing, limit);
    forall g | g in missing && g.name == f.name ensures g == f {
      SameFile(files, f, g);
    }
  }

  lemma {:induction false} RecordedOf(files: seq<File>, next: nat, full: bool, r: Row)
    ensures r in Recorded(files, next, full) ==> r.full == full && exists f :: f in files && f.name == r.version
  {
    RecordedAt(files, next, full);
    if r in Recorded(files, next, full) {
      var i :| 0 <= i < |files| && Recorded(files, next, full)[i] == r;
      assert files[i] in files;
    }
  }
}
