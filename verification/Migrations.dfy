/** The migration runner: verify what is applied, then apply the rest, with every commit a point where the
    process may stop. */
module Migrations {

  import opened Money

  type Version = string
  type Checksum = string

  /** A migration file of the release. The checksum stands for its contents. */
  datatype File = File(name: Version, checksum: Checksum)

  /** `schema_migrations`, where rows from before checksums existed have none, and the migrations whose SQL
      has committed, in order. */
  datatype Schema = Schema(rows: map<Version, Option<Checksum>>, history: seq<Version>)

  // ---------------------------------------------------------------- a release

  predicate Distinct(files: seq<File>) {
    forall i, j | 0 <= i < j < |files| :: files[i].name != files[j].name
  }

  function Checksums(files: seq<File>): map<Version, Checksum> {
    if files == [] then map[]
        else Checksums(files[..|files| - 1])[files[|files| - 1].name := files[|files| - 1].checksum]
  }

  lemma {:induction false} ChecksumsMeaning(files: seq<File>)
    requires Distinct(files)
    ensures forall i | 0 <= i < |files| ::
              files[i].name in Checksums(files) && Checksums(files)[files[i].name] == files[i].checksum
    ensures forall v :: v in Checksums(files) ==> exists i :: 0 <= i < |files| && files[i].name == v
  {
    if files == [] {
    } else {
      var n := |files| - 1;
      ChecksumsMeaning(files[..n]);
      forall v | v in Checksums(files)
        ensures exists i :: 0 <= i < |files| && files[i].name == v
      {
        if v != files[n].name {
          var i :| 0 <= i < n && files[..n][i].name == v;
          assert files[i].name == v;
        }
      }
    }
  }

  // ---------------------------------------------------------------- verification

  /** Every applied row is in the release, unchanged if its checksum is known. */
  predicate Acceptable(available: map<Version, Checksum>, rows: map<Version, Option<Checksum>>) {
    forall v :: v in rows ==> v in available && (rows[v].Some? ==> rows[v].value == available[v])
  }

  datatype Applied = Applied(version: Version, checksum: Option<Checksum>)

  /** The result of listing the table, in some order: every row once. */
  ghost predicate Lists(applied: seq<Applied>, rows: map<Version, Option<Checksum>>) {
    if applied == [] then rows == map[]
    else
      var last := applied[|applied| - 1];
      && last.version in rows && rows[last.version] == last.checksum
      && Lists(applied[..|applied| - 1], rows - {last.version})
  }

  /** The rows of a listing that lack a checksum. */
  function Legacy(applied: seq<Applied>): seq<Version> {
    if applied == [] then []
    else Legacy(applied[..|applied| - 1]) + if applied[|applied| - 1].checksum.None?
        then [applied[|applied| - 1].version] else []
  }

  predicate RowAcceptable(available: map<Version, Checksum>, a: Applied) {
    a.version in available && (a.checksum.Some? ==> a.checksum.value == available[a.version])
  }

  /** `validateAppliedMigrationChecksums`: the legacy versions, or the first offending row stops it. */
  method ValidateChecksums(available: map<Version, Checksum>, applied: seq<Applied>)
    returns (accepted: bool, legacy: seq<Version>)
    ensures accepted <==> forall i | 0 <= i < |applied| :: RowAcceptable(available, applied[i])
    ensures accepted ==> legacy == Legacy(applied)
  {
    legacy := [];
    for k := 0 to |applied|
      invariant forall i | 0 <= i < k :: RowAcceptable(available, applied[i])
      invariant legacy == Legacy(applied[..k])
    {
      var row := applied[k];
      assert applied[..k + 1][..k] == applied[..k];
      if row.version !in available {
        return false, [];
      }
      if row.checksum.None? {
        legacy := legacy + [row.version];
        continue;
      }
      if row.checksum.value != available[row.version] {
        return false, [];
      }
    }
    assert applied[..|applied|] == applied;
    return true, legacy;
  }

  lemma {:induction false} ListingDecides(available: map<Version, Checksum>, applied: seq<Applied>,
                                          rows: map<Version, Option<Checksum>>)
    requires Lists(applied, rows)
    ensures Acceptable(available, rows) <==> forall i | 0 <= i < |applied| :: RowAcceptable(available, applied[i])
  {
    if applied == [] {
    } else {
      var (init, last) := (applied[..|applied| - 1], applied[|applied| - 1]);
      ListingDecides(available, init, rows - {last.version});
      assert forall v :: v in rows <==> v in rows - {last.version} || v == last.version;
      assert (forall i | 0 <= i < |applied| :: RowAcceptable(available, applied[i]))
        <==> (forall i | 0 <= i < |init| :: RowAcceptable(available, init[i])) && RowAcceptable(available, last);
    }
  }

  // ---------------------------------------------------------------- the commits of a run

  /** `UPDATE schema_migrations SET checksum = ...`, one commit for each legacy version. */
  function BaselineAll(db: Schema, available: map<Version, Checksum>, legacy: seq<Version>): Schema {
    if legacy == [] then db
    else
      var (before, v) := (BaselineAll(db, available, legacy[..|legacy| - 1]), legacy[|legacy| - 1]);
      if v in available then before.(rows := before.rows[v := Some(available[v])]) else before
  }

  lemma BaselineNext(db: Schema, available: map<Version, Checksum>, legacy: seq<Version>, k: nat)
    requires k < |legacy| && legacy[k] in available
    ensures var before := BaselineAll(db, available, legacy[..k]);
            BaselineAll(db, available, legacy[..k + 1])
                == before.(rows := before.rows[legacy[k] := Some(available[legacy[k]])])
  {
    assert legacy[..k + 1][..k] == legacy[..k];
  }

  lemma LegacyIsInRelease(available: map<Version, Checksum>, applied: seq<Applied>,
                          rows: map<Version, Option<Checksum>>)
    requires Lists(applied, rows) && Acceptable(available, rows)
    ensures forall i | 0 <= i < |Legacy(applied)| :: Legacy(applied)[i] in available
  {
    LegacyMeaning(applied, rows);
    assert forall i | 0 <= i < |Legacy(applied)| :: Legacy(applied)[i] in Legacy(applied);
  }

  /** One commit for each file: its SQL together with its row. */
  function ApplyAll(db: Schema, files: seq<File>): Schema {
    if files == [] then db
    else
      var (before, f) := (ApplyAll(db, files[..|files| - 1]), files[|files| - 1]);
      Schema(before.rows[f.name := Some(f.checksum)], before.history + [f.name])
  }

  /** The files not recorded yet, in file order. */
  function Pending(files: seq<File>, rows: map<Version, Option<Checksum>>): seq<File> {
    if files == [] then []
    else
      var (before, f) := (Pending(files[..|files| - 1], rows), files[|files| - 1]);
      if f.name in rows then before else before + [f]
  }

  /** A run that is stopped after at most `k` commits. */
  function RunFor(db: Schema, files: seq<File>, applied: seq<Applied>, k: nat): Schema {
    var (legacy, pending) := (Legacy(applied), Pending(files, db.rows));
    if !Acceptable(Checksums(files), db.rows) then db
    else if k <= |legacy| then BaselineAll(db, Checksums(files), legacy[..k])
    else
      ApplyAll(BaselineAll(db, Checksums(files), legacy),
               pending[..if k - |legacy| < |pending| then k - |legacy| else |pending|])
  }

  /** A run nothing stops. */
  function Complete(db: Schema, files: seq<File>, applied: seq<Applied>): Schema {
    RunFor(db, files, applied, |Legacy(applied)| + |files| + 1)
  }

  // ---------------------------------------------------------------- what the commits do

  function Names(files: seq<File>): seq<Version> {
    seq(|files|, i requires 0 <= i < |files| => files[i].name)
  }

  predicate NoRepeats(history: seq<Version>) {
    forall i, j | 0 <= i < j < |history| :: history[i] != history[j]
  }

  predicate FromRelease(files: seq<File>, available: map<Version, Checksum>) {
    forall i | 0 <= i < |files| :: files[i].name in available && available[files[i].name] == files[i].checksum
  }

  lemma NamesMore(files: seq<File>)
    requires files != []
    ensures Names(files) == Names(files[..|files| - 1]) + [files[|files| - 1].name]
    ensures forall v :: v in Names(files) <==> v in Names(files[..|files| - 1]) || v == files[|files| - 1].name
  {
  }

  lemma {:induction false} LegacyMeaning(applied: seq<Applied>, rows: map<Version, Option<Checksum>>)
    requires Lists(applied, rows)
    ensures forall v :: v in Legacy(applied) <==> v in rows && rows[v].None?
  {
    if applied == [] {
    } else {
      var last := applied[|applied| - 1];
      LegacyMeaning(applied[..|applied| - 1], rows - {last.version});
    }
  }

  lemma {:induction false} BaselineEffect(db: Schema, available: map<Version, Checksum>, legacy: seq<Version>)
    requires forall v :: v in legacy ==> v in available && v in db.rows
    ensures var out := BaselineAll(db, available, legacy);
            && out.history == db.history && out.rows.Keys == db.rows.Keys
            && forall v :: v in db.rows ==> out.rows[v] == if v in legacy then Some(available[v]) else db.rows[v]
  {
    if legacy == [] {
    } else {
      BaselineEffect(db, available, legacy[..|legacy| - 1]);
      assert legacy[|legacy| - 1] in legacy;
    }
  }

  lemma {:induction false} ApplyEffect(db: Schema, files: seq<File>, available: map<Version, Checksum>)
    requires FromRelease(files, available)
    ensures var out := ApplyAll(db, files);
            && out.history == db.history + Names(files)
            && (forall v :: v in out.rows <==> v in db.rows || v in Names(files))
            && (forall v :: v in out.rows ==> (v in Names(files) && v in available && out.rows[v] == Some(available[v]))
                                              || (v !in Names(files) && v in db.rows && out.rows[v] == db.rows[v]))
  {
    if files == [] {
    } else {
      ApplyEffect(db, files[..|files| - 1], available);
      NamesMore(files);
    }
  }

  lemma NamesOfFirst(files: seq<File>, j: nat)
    requires j <= |files|
    ensures Names(files[..j]) == Names(files)[..j]
  {
  }

  lemma {:induction false} NewName(files: seq<File>)
    requires Distinct(files) && files != []
    ensures files[|files| - 1].name !in Checksums(files[..|files| - 1])
  {
    ChecksumsMeaning(files[..|files| - 1]);
  }

  /** The pending names are exactly those of the release that are not recorded. */
  lemma {:induction false} PendingNames(files: seq<File>, rows: map<Version, Option<Checksum>>)
    ensures |Pending(files, rows)| <= |files|
    ensures forall v :: v in Names(Pending(files, rows)) <==> v in Checksums(files) && v !in rows
  {
    if files == [] {
    } else {
      PendingNames(files[..|files| - 1], rows);
      if files[|files| - 1].name !in rows {
        assert Pending(files, rows)[..|Pending(files, rows)| - 1] == Pending(files[..|files| - 1], rows);
        NamesMore(Pending(files, rows));
      }
    }
  }

  /** No pending name repeats, and each pending file carries the checksum of the release. */
  lemma {:induction false} PendingFiles(files: seq<File>, rows: map<Version, Option<Checksum>>)
    requires Distinct(files)
    ensures NoRepeats(Names(Pending(files, rows)))
    ensures FromRelease(Pending(files, rows), Checksums(files))
  {
    if files == [] {
    } else {
      var init := files[..|files| - 1];
      PendingFiles(init, rows);
      PendingNames(init, rows);
      NewName(files);
      var p := Pending(init, rows);
      assert forall i | 0 <= i < |p| :: Names(p)[i] in Names(p) && Names(p)[i] != files[|files| - 1].name;
      if files[|files| - 1].name !in rows {
        assert Names(Pending(files, rows)) == Names(p) + [files[|files| - 1].name];
      }
    }
  }

  /** How many pending files a run of `k` commits gets through. */
  function Reached(files: seq<File>, rows: map<Version, Option<Checksum>>, applied: seq<Applied>, k: nat): (j: nat)
    ensures j <= |Pending(files, rows)|
  {
    var (legacy, pending) := (|Legacy(applied)|, |Pending(files, rows)|);
    if k <= legacy then 0 else if k - legacy < pending then k - legacy else pending
  }

  function Ran(files: seq<File>, rows: map<Version, Option<Checksum>>, applied: seq<Applied>, k: nat): seq<Version> {
    Names(Pending(files, rows))[..Reached(files, rows, applied, k)]
  }

  /** The two phases of an accepted run, cut at `k` commits. */
  lemma RunPhases(db: Schema, files: seq<File>, applied: seq<Applied>, k: nat)
    requires Acceptable(Checksums(files), db.rows)
    ensures var b := if k <= |Legacy(applied)| then k else |Legacy(applied)|;
            RunFor(db, files, applied, k)
            == ApplyAll(BaselineAll(db, Checksums(files), Legacy(applied)[..b]),
                        Pending(files, db.rows)[..Reached(files, db.rows, applied, k)])
  {
    assert Legacy(applied)[..|Legacy(applied)|] == Legacy(applied);
  }

  lemma SomeLegacy(files: seq<File>, applied: seq<Applied>, rows: map<Version, Option<Checksum>>, b: nat)
    requires Lists(applied, rows) && Acceptable(Checksums(files), rows) && b <= |Legacy(applied)|
    ensures forall v :: v in Legacy(applied)[..b] ==> v in Checksums(files) && v in rows
    ensures b == |Legacy(applied)| ==> forall v :: v in rows && rows[v].None? ==> v in Legacy(applied)[..b]
  {
    LegacyMeaning(applied, rows);
    assert forall v :: v in Legacy(applied)[..b] ==> v in Legacy(applied);
    assert b == |Legacy(applied)| ==> Legacy(applied)[..b] == Legacy(applied);
  }

  /** After any number of commits of an accepted run the table holds what it held and the pending files reached
      so far, which are also what the history gains. */
  lemma RunEffect(db: Schema, files: seq<File>, applied: seq<Applied>, k: nat)
    requires Distinct(files) && Lists(applied, db.rows) && Acceptable(Checksums(files), db.rows)
    ensures var (out, ran) := (RunFor(db, files, applied, k), Ran(files, db.rows, applied, k));
            out.history == db.history + ran && forall v :: v in out.rows <==> v in db.rows || v in ran
    ensures Acceptable(Checksums(files), RunFor(db, files, applied, k).rows)
    ensures k >= |Legacy(applied)| ==> NoneLegacy(RunFor(db, files, applied, k).rows)
  {
    var available := Checksums(files);
    var b := if k <= |Legacy(applied)| then k else |Legacy(applied)|;
    var ran := Pending(files, db.rows)[..Reached(files, db.rows, applied, k)];
    RunPhases(db, files, applied, k);
    BaselinePhase(db, files, applied, b);
    PendingFiles(files, db.rows);
    assert FromRelease(ran, available);
    NamesOfFirst(Pending(files, db.rows), |ran|);
    ApplyEffect(BaselineAll(db, available, Legacy(applied)[..b]), ran, available);
  }

  predicate NoneLegacy(rows: map<Version, Option<Checksum>>) {
    forall v :: v in rows ==> rows[v].Some?
  }

  lemma BaselinePhase(db: Schema, files: seq<File>, applied: seq<Applied>, b: nat)
    requires Lists(applied, db.rows) && Acceptable(Checksums(files), db.rows) && b <= |Legacy(applied)|
    ensures var out := BaselineAll(db, Checksums(files), Legacy(applied)[..b]);
            && out.history == db.history && out.rows.Keys == db.rows.Keys && Acceptable(Checksums(files), out.rows)
            && (b == |Legacy(applied)| ==> NoneLegacy(out.rows))
  {
    SomeLegacy(files, applied, db.rows, b);
    BaselineEffect(db, Checksums(files), Legacy(applied)[..b]);
  }

  // ---------------------------------------------------------------- main results

  function AllKnown(available: map<Version, Checksum>): map<Version, Option<Checksum>> {
    map v | v in available :: Some(available[v])
  }

  /** A release whose applied part was removed or altered is refused before anything is written, wherever the
      run stops; every other release, run to the end, leaves exactly its files and their checksums. */
  lemma RefusedOrUpToDate(db: Schema, files: seq<File>, applied: seq<Applied>, k: nat)
    requires Distinct(files) && Lists(applied, db.rows)
    ensures !Acceptable(Checksums(files), db.rows) ==> RunFor(db, files, applied, k) == db
    ensures Acceptable(Checksums(files), db.rows) && k >= |Legacy(applied)| + |Pending(files, db.rows)|
            ==> RunFor(db, files, applied, k).rows == AllKnown(Checksums(files))
  {
    if Acceptable(Checksums(files), db.rows) && k >= |Legacy(applied)| + |Pending(files, db.rows)| {
      RunEffect(db, files, applied, k);
      PendingNames(files, db.rows);
      assert Ran(files, db.rows, applied, k) == Names(Pending(files, db.rows));
    }
  }

  /** One attempt to migrate: the release, the listing it read, and how many commits it lived to make. */
  datatype Attempt = Attempt(files: seq<File>, applied: seq<Applied>, commits: nat)

  function RunAll(db: Schema, attempts: seq<Attempt>): Schema {
    if attempts == [] then db
    else
      var last := attempts[|attempts| - 1];
      RunFor(RunAll(db, attempts[..|attempts| - 1]), last.files, last.applied, last.commits)
  }

  /** Each attempt read the table as it was. */
  ghost predicate Faithful(db: Schema, attempts: seq<Attempt>) {
    forall i | 0 <= i < |attempts| ::
      Distinct(attempts[i].files) && Lists(attempts[i].applied, RunAll(db, attempts[..i]).rows)
  }

  /** What holds of the history and the table, `start` being the table before the first attempt. */
  ghost predicate OnceEach(start: Schema, db: Schema) {
    && NoRepeats(db.history)
    && (forall v :: v in db.history ==> v !in start.rows)
    && (forall v :: v in db.rows <==> v in start.rows || v in db.history)
  }

  lemma AttemptKeepsOnce(start: Schema, db: Schema, files: seq<File>, applied: seq<Applied>, k: nat)
    requires OnceEach(start, db) && Distinct(files) && Lists(applied, db.rows)
    ensures OnceEach(start, RunFor(db, files, applied, k))
  {
    if Acceptable(Checksums(files), db.rows) {
      RunEffect(db, files, applied, k);
      PendingNames(files, db.rows);
      PendingFiles(files, db.rows);
      var (all, ran) := (Names(Pending(files, db.rows)), Ran(files, db.rows, applied, k));
      assert NoRepeats(ran);
      assert forall i | 0 <= i < |ran| :: ran[i] == all[i] && all[i] in all;
    }
  }

  /** Over any sequence of attempts with any releases, each stopped anywhere: no version's SQL commits twice,
      nor does one recorded from the start; and what is recorded is what was there plus what has run. */
  lemma {:induction false} ExactlyOnce(start: Schema, attempts: seq<Attempt>)
    requires start.history == [] && Faithful(start, attempts)
    ensures OnceEach(start, RunAll(start, attempts))
  {
    if attempts == [] {
    } else {
      var (before, last) := (attempts[..|attempts| - 1], attempts[|attempts| - 1]);
      FaithfulSoFar(start, attempts);
      ExactlyOnce(start, before);
      AttemptKeepsOnce(start, RunAll(start, before), last.files, last.applied, last.commits);
    }
  }

  lemma FaithfulSoFar(start: Schema, attempts: seq<Attempt>)
    requires attempts != [] && Faithful(start, attempts)
    ensures var (before, last) := (attempts[..|attempts| - 1], attempts[|attempts| - 1]);
            Faithful(start, before) && Distinct(last.files) && Lists(last.applied, RunAll(start, before).rows)
  {
    var before := attempts[..|attempts| - 1];
    forall i | 0 <= i < |before|
      ensures Distinct(before[i].files) && Lists(before[i].applied, RunAll(start, before[..i]).rows)
    {
      assert before[..i] == attempts[..i];
    }
  }

  // ---------------------------------------------------------------- crashes leave no trace

  /** Some first files of the release account for any first part of the pending ones. */
  lemma {:induction false} FilesBehind(files: seq<File>, rows: map<Version, Option<Checksum>>, j: nat) returns (m: nat)
    requires j <= |Pending(files, rows)|
    ensures m <= |files| && Pending(files[..m], rows) == Pending(files, rows)[..j]
  {
    if j == |Pending(files, rows)| {
      m := |files|;
      assert files[..m] == files;
    } else {
      m := FilesBehind(files[..|files| - 1], rows, j);
      assert files[..|files| - 1][..m] == files[..m];
    }
  }

  /** With the first `m` files recorded, what is still pending is the rest. */
  lemma {:induction false} PendingResumes(files: seq<File>, rows: map<Version, Option<Checksum>>, m: nat, n: nat,
                                          later: map<Version, Option<Checksum>>)
    requires Distinct(files) && m <= n <= |files|
    requires Recorded(Names(Pending(files[..m], rows)), rows, later)
    ensures Pending(files[..n], rows) == Pending(files[..m], rows) + Pending(files[..n], later)
    decreases n
  {
    if n == m {
      FirstRecorded(files, rows, m, later);
    } else {
      PendingResumes(files, rows, m, n - 1, later);
      NewsUnchanged(files, rows, m, n - 1, later);
      ResumesOneMore(files, rows, Pending(files[..m], rows), n - 1, later);
    }
  }

  lemma ResumesOneMore(files: seq<File>, rows: map<Version, Option<Checksum>>, first: seq<File>, n: nat,
                       later: map<Version, Option<Checksum>>)
    requires n < |files| && (files[n].name in later <==> files[n].name in rows)
    requires Pending(files[..n], rows) == first + Pending(files[..n], later)
    ensures Pending(files[..n + 1], rows) == first + Pending(files[..n + 1], later)
  {
    PendingGrows(files, rows, n);
    PendingGrows(files, later, n);
  }

  lemma FirstRecorded(files: seq<File>, rows: map<Version, Option<Checksum>>, m: nat,
                      later: map<Version, Option<Checksum>>)
    requires m <= |files| && Recorded(Names(Pending(files[..m], rows)), rows, later)
    ensures Pending(files[..m], later) == []
  {
    PendingNames(files[..m], rows);
    ChecksumsCover(files[..m]);
    NothingPending(files[..m], later);
  }

  lemma NewsUnchanged(files: seq<File>, rows: map<Version, Option<Checksum>>, m: nat, n: nat,
                      later: map<Version, Option<Checksum>>)
    requires Distinct(files) && m <= n < |files| && Recorded(Names(Pending(files[..m], rows)), rows, later)
    ensures files[n].name in later <==> files[n].name in rows
  {
    PendingNames(files[..m], rows);
    NotAmongFirst(files, m, n);
  }

  /** `later` records what `rows` does, and `names`. */
  ghost predicate Recorded(names: seq<Version>, rows: map<Version, Option<Checksum>>,
                           later: map<Version, Option<Checksum>>) {
    forall v :: v in later <==> v in rows || v in names
  }

  lemma {:induction false} ChecksumsCover(files: seq<File>)
    ensures forall i | 0 <= i < |files| :: files[i].name in Checksums(files)
  {
    if files == [] {
    } else {
      ChecksumsCover(files[..|files| - 1]);
    }
  }

  lemma NotAmongFirst(files: seq<File>, m: nat, n: nat)
    requires Distinct(files) && m <= n < |files|
    ensures files[n].name !in Checksums(files[..m])
  {
    ChecksumsMeaning(files[..m]);
  }

  lemma {:induction false} NothingPending(files: seq<File>, rows: map<Version, Option<Checksum>>)
    requires forall i | 0 <= i < |files| :: files[i].name in rows
    ensures Pending(files, rows) == []
  {
    if files == [] {
    } else {
      NothingPending(files[..|files| - 1], rows);
    }
  }

  /** The table an accepted run leaves behind, wherever it stopped, is accepted again. */
  lemma StoppedIsAcceptable(db: Schema, files: seq<File>, applied: seq<Applied>, k: nat)
    requires Distinct(files) && Lists(applied, db.rows)
    ensures Acceptable(Checksums(files), RunFor(db, files, applied, k).rows) == Acceptable(Checksums(files), db.rows)
  {
    if Acceptable(Checksums(files), db.rows) {
      RunEffect(db, files, applied, k);
    }
  }

  /** An interrupted run followed by an undisturbed one of the same release ends exactly like an undisturbed
      run alone: same table, and the same SQL committed in the same order. */
  lemma InterruptionLeavesNoTrace(db: Schema, files: seq<File>, applied: seq<Applied>, k: nat,
                                  appliedLater: seq<Applied>)
    requires Distinct(files) && Lists(applied, db.rows) && Lists(appliedLater, RunFor(db, files, applied, k).rows)
    ensures Complete(RunFor(db, files, applied, k), files, appliedLater) == Complete(db, files, applied)
  {
    if Acceptable(Checksums(files), db.rows) {
      AcceptedLeavesNoTrace(db, files, applied, k, appliedLater);
    } else {
      RefusedOrUpToDate(db, files, applied, k);
      RefusedOrUpToDate(db, files, applied, |Legacy(applied)| + |files| + 1);
      RefusedOrUpToDate(db, files, appliedLater, |Legacy(appliedLater)| + |files| + 1);
    }
  }

  lemma AcceptedLeavesNoTrace(db: Schema, files: seq<File>, applied: seq<Applied>, k: nat, appliedLater: seq<Applied>)
    requires Distinct(files) && Lists(applied, db.rows) && Lists(appliedLater, RunFor(db, files, applied, k).rows)
    requires Acceptable(Checksums(files), db.rows)
    ensures Complete(RunFor(db, files, applied, k), files, appliedLater) == Complete(db, files, applied)
  {
    StoppedIsAcceptable(db, files, applied, k);
    RestIsPending(db, files, applied, k);
    HistoryGains(db, files, applied, k);
    SameEnd(db, RunFor(db, files, applied, k), files, applied, appliedLater, Ran(files, db.rows, applied, k));
  }

  lemma SameEnd(db: Schema, stopped: Schema, files: seq<File>, applied: seq<Applied>, appliedLater: seq<Applied>,
                ran: seq<Version>)
    requires Distinct(files) && Lists(applied, db.rows) && Lists(appliedLater, stopped.rows)
    requires Acceptable(Checksums(files), db.rows) && Acceptable(Checksums(files), stopped.rows)
    requires stopped.history == db.history + ran
    requires Names(Pending(files, db.rows)) == ran + Names(Pending(files, stopped.rows))
    ensures Complete(stopped, files, appliedLater) == Complete(db, files, applied)
  {
    CompleteEffect(db, files, applied);
    CompleteEffect(stopped, files, appliedLater);
    SameSchema(db.history, ran, Names(Pending(files, stopped.rows)), Complete(db, files, applied),
               Complete(stopped, files, appliedLater));
  }

  lemma SameSchema(history: seq<Version>, ran: seq<Version>, rest: seq<Version>, a: Schema, b: Schema)
    requires a.rows == b.rows && a.history == history + (ran + rest) && b.history == history + ran + rest
    ensures a == b
  {
    assert history + (ran + rest) == history + ran + rest;
  }

  lemma HistoryGains(db: Schema, files: seq<File>, applied: seq<Applied>, k: nat)
    requires Distinct(files) && Lists(applied, db.rows) && Acceptable(Checksums(files), db.rows)
    ensures RunFor(db, files, applied, k).history == db.history + Ran(files, db.rows, applied, k)
  {
    RunEffect(db, files, applied, k);
  }

  lemma CompleteEffect(db: Schema, files: seq<File>, applied: seq<Applied>)
    requires Distinct(files) && Lists(applied, db.rows) && Acceptable(Checksums(files), db.rows)
    ensures Complete(db, files, applied).rows == AllKnown(Checksums(files))
    ensures Complete(db, files, applied).history == db.history + Names(Pending(files, db.rows))
  {
    var all := |Legacy(applied)| + |files| + 1;
    PendingNames(files, db.rows);
    RefusedOrUpToDate(db, files, applied, all);
    RunEffect(db, files, applied, all);
    assert Ran(files, db.rows, applied, all) == Names(Pending(files, db.rows));
  }

  /** What an interrupted run ran and what is pending afterwards make up what was pending before. */
  lemma RestIsPending(db: Schema, files: seq<File>, applied: seq<Applied>, k: nat)
    requires Distinct(files) && Lists(applied, db.rows) && Acceptable(Checksums(files), db.rows)
    ensures Names(Pending(files, db.rows))
            == Ran(files, db.rows, applied, k) + Names(Pending(files, RunFor(db, files, applied, k).rows))
  {
    var later := RunFor(db, files, applied, k).rows;
    var j := Reached(files, db.rows, applied, k);
    var m := FilesBehind(files, db.rows, j);
    assert Recorded(Names(Pending(files[..m], db.rows)), db.rows, later) by {
      RunEffect(db, files, applied, k);
      NamesOfFirst(Pending(files, db.rows), j);
    }
    PendingResumes(files, db.rows, m, |files|, later);
    assert files[..|files|] == files;
    NamesOfBoth(Pending(files, db.rows)[..j], Pending(files, later));
    NamesOfFirst(Pending(files, db.rows), j);
  }

  lemma NamesOfBoth(a: seq<File>, b: seq<File>)
    ensures Names(a + b) == Names(a) + Names(b)
  {
  }

  // ---------------------------------------------------------------- the runner

  datatype Ending = Refused | Stopped | Completed

  class Runner {
    var rows: map<Version, Option<Checksum>>
    var history: seq<Version>

    constructor (rows: map<Version, Option<Checksum>>)
      ensures Db() == Schema(rows, [])
    {
      this.rows, history := rows, [];
    }

    function Db(): Schema
      reads this
    {
      Schema(rows, history)
    }

    /** `verifyAppliedMigrations`: nothing is written unless every row passes; then the legacy rows get their
        checksum, one commit each. */
    method VerifyApplied(files: seq<File>, applied: seq<Applied>, lifetime: nat) returns (accepted: bool, commits: nat)
      requires Distinct(files) && Lists(applied, rows)
      modifies this`rows
      ensures accepted <==> Acceptable(Checksums(files), old(rows))
      ensures !accepted ==> Db() == old(Db())
      ensures accepted ==> commits == (if lifetime < |Legacy(applied)| then lifetime else |Legacy(applied)|)
                           && Db() == BaselineAll(old(Db()), Checksums(files), Legacy(applied)[..commits])
    {
      var available := Checksums(files);
      ListingDecides(available, applied, rows);
      var legacy;
      accepted, legacy := ValidateChecksums(available, applied);
      commits := 0;
      if !accepted {
        return;
      }
      LegacyIsInRelease(available, applied, rows);
      while commits < |legacy| && commits < lifetime
        invariant commits <= |legacy| && commits <= lifetime
        invariant Db() == BaselineAll(old(Db()), available, legacy[..commits])
      {
        BaselineNext(old(Db()), available, legacy, commits);
        rows := rows[legacy[commits] := Some(available[legacy[commits]])];
        commits := commits + 1;
      }
    }

    /** The loop of `applyMigration`: skip what is recorded, run and record the rest in one commit each. */
    method ApplyPending(files: seq<File>, lifetime: nat) returns (ran: nat)
      requires Distinct(files)
      modifies this
      ensures var pending := Pending(files, old(rows));
              ran == (if lifetime < |pending| then lifetime else |pending|)
                  && Db() == ApplyAll(old(Db()), pending[..ran])
    {
      ran := 0;
      ghost var pending := Pending(files, rows);
      for k := 0 to |files|
        invariant ran == |Pending(files[..k], old(rows))| <= |pending| && ran <= lifetime
        invariant Pending(files[..k], old(rows)) == pending[..ran]
        invariant Db() == ApplyAll(old(Db()), pending[..ran])
      {
        PendingGrows(files, old(rows), k);
        RecordedSoFar(old(Db()), files, k);
        if files[k].name !in rows {
          if ran == lifetime {
            return;
          }
          assert pending[..ran + 1][..ran] == pending[..ran];
          rows := rows[files[k].name := Some(files[k].checksum)];
          history := history + [files[k].name];
          ran := ran + 1;
        }
      }
      assert files[..|files|] == files;
    }

    /** One process, stopped before any commit after the first `lifetime` ones. */
    method Migrate(files: seq<File>, applied: seq<Applied>, lifetime: nat) returns (ending: Ending)
      requires Distinct(files) && Lists(applied, rows)
      modifies this
      ensures Db() == RunFor(old(Db()), files, applied, lifetime)
      ensures ending == Refused <==> !Acceptable(Checksums(files), old(rows))
      ensures ending == Completed ==> rows == AllKnown(Checksums(files))
    {
      ghost var start := Db();
      RefusedOrUpToDate(start, files, applied, lifetime);
      var accepted, commits := VerifyApplied(files, applied, lifetime);
      if !accepted {
        return Refused;
      }
      CutInBaseline(start, files, applied, lifetime);
      if commits == lifetime {
        return Stopped;
      }
      assert Legacy(applied)[..commits] == Legacy(applied);
      var ran := ApplyPending(files, lifetime - commits);
      if commits + ran == lifetime {
        return Stopped;
      }
      return Completed;
    }
  }

  /** Baselining leaves the pending files as they were; a run stopped within it made exactly those commits. */
  lemma CutInBaseline(db: Schema, files: seq<File>, applied: seq<Applied>, lifetime: nat)
    requires Lists(applied, db.rows) && Acceptable(Checksums(files), db.rows)
    ensures lifetime <= |Legacy(applied)|
            ==> RunFor(db, files, applied, lifetime) == BaselineAll(db, Checksums(files), Legacy(applied)[..lifetime])
    ensures Pending(files, BaselineAll(db, Checksums(files), Legacy(applied)).rows) == Pending(files, db.rows)
  {
    SomeLegacy(files, applied, db.rows, |Legacy(applied)|);
    assert Legacy(applied)[..|Legacy(applied)|] == Legacy(applied);
    BaselineEffect(db, Checksums(files), Legacy(applied));
    SamePending(files, db.rows, BaselineAll(db, Checksums(files), Legacy(applied)).rows);
  }

  lemma {:induction false} SamePending(files: seq<File>, a: map<Version, Option<Checksum>>,
                                       b: map<Version, Option<Checksum>>)
    requires a.Keys == b.Keys
    ensures Pending(files, a) == Pending(files, b)
  {
    if files == [] {
    } else {
      SamePending(files[..|files| - 1], a, b);
    }
  }

  lemma {:induction false} PendingGrows(files: seq<File>, rows: map<Version, Option<Checksum>>, k: nat)
    requires k < |files|
    ensures Pending(files[..k + 1], rows)
            == Pending(files[..k], rows) + if files[k].name in rows then [] else [files[k]]
    ensures Pending(files[..k + 1], rows) <= Pending(files, rows)
    decreases |files|
  {
    assert files[..k + 1][..k] == files[..k];
    if k + 1 < |files| {
      var init := files[..|files| - 1];
      PendingGrows(init, rows, k);
      assert init[..k] == files[..k] && init[..k + 1] == files[..k + 1];
    } else {
      assert files[..k + 1] == files;
    }
  }

  /** While files are applied in order, a file is recorded exactly when it was at the start. */
  lemma RecordedSoFar(start: Schema, files: seq<File>, k: nat)
    requires Distinct(files) && k < |files|
    ensures files[k].name in ApplyAll(start, Pending(files[..k], start.rows)).rows <==> files[k].name in start.rows
  {
    PendingNames(files[..k], start.rows);
    PendingFiles(files[..k], start.rows);
    NotAmongFirst(files, k, k);
    ApplyEffect(start, Pending(files[..k], start.rows), Checksums(files[..k]));
  }

  // ---------------------------------------------------------------- which files run, and in what order

  /** A recorded version is a file of the release, with the recorded checksum if there is one. */
  predicate UnchangedAt(files: seq<File>, i: nat, v: Version, recorded: Option<Checksum>) {
    i < |files| && files[i].name == v && (recorded.Some? ==> recorded.value == files[i].checksum)
  }

  ghost predicate Unchanged(files: seq<File>, v: Version, recorded: Option<Checksum>) {
    exists i :: UnchangedAt(files, i, v, recorded)
  }

  /** A release is accepted exactly when every recorded version is one of its files, unaltered as far as is known. */
  lemma AcceptedReleases(files: seq<File>, rows: map<Version, Option<Checksum>>)
    requires Distinct(files)
    ensures Acceptable(Checksums(files), rows) <==> forall v :: v in rows ==> Unchanged(files, v, rows[v])
  {
    ChecksumsMeaning(files);
    if Acceptable(Checksums(files), rows) {
      forall v | v in rows
        ensures Unchanged(files, v, rows[v])
      {
        var i :| 0 <= i < |files| && files[i].name == v;
        assert UnchangedAt(files, i, v, rows[v]);
      }
    }
    if forall v :: v in rows ==> Unchanged(files, v, rows[v]) {
      forall v | v in rows
        ensures v in Checksums(files) && (rows[v].Some? ==> rows[v].value == Checksums(files)[v])
      {
        var i: nat :| UnchangedAt(files, i, v, rows[v]);
      }
    }
  }

  /** These are the files of the release that are not recorded, in its order, and `at` is where they are. */
  ghost predicate UnrecordedAt(files: seq<File>, rows: map<Version, Option<Checksum>>, names: seq<Version>,
                               at: seq<nat>) {
    && |at| == |names|
    && (forall j | 0 <= j < |at| :: at[j] < |files| && files[at[j]].name == names[j] && names[j] !in rows)
    && (forall i, j | 0 <= i < j < |at| :: at[i] < at[j])
    && (forall i | 0 <= i < |files| && files[i].name !in rows :: i in at)
  }

  lemma {:induction false} PendingAt(files: seq<File>, rows: map<Version, Option<Checksum>>) returns (at: seq<nat>)
    ensures UnrecordedAt(files, rows, Names(Pending(files, rows)), at)
    decreases |files|
  {
    at := [];
    if files != [] {
      var (init, last) := (files[..|files| - 1], files[|files| - 1]);
      at := PendingAt(init, rows);
      var before := Names(Pending(init, rows));
      assert files == init + [last];
      if last.name in rows {
        RecordedMore(init, last, rows, before, at);
      } else {
        assert Names(Pending(init, rows) + [last]) == before + [last.name];
        UnrecordedMore(init, last, rows, before, at);
        at := at + [|init|];
      }
    }
  }

  lemma RecordedMore(init: seq<File>, last: File, rows: map<Version, Option<Checksum>>, names: seq<Version>,
                     at: seq<nat>)
    requires UnrecordedAt(init, rows, names, at) && last.name in rows
    ensures UnrecordedAt(init + [last], rows, names, at)
  {
    assert forall i | 0 <= i < |init| :: (init + [last])[i] == init[i];
  }

  lemma UnrecordedMore(init: seq<File>, last: File, rows: map<Version, Option<Checksum>>, names: seq<Version>,
                       at: seq<nat>)
    requires UnrecordedAt(init, rows, names, at) && last.name !in rows
    ensures UnrecordedAt(init + [last], rows, names + [last.name], at + [|init|])
  {
    assert forall i | 0 <= i < |init| :: (init + [last])[i] == init[i];
    assert (at + [|init|])[|at|] == |init|;
    assert forall i | 0 <= i < |at| :: (at + [|init|])[i] == at[i];
  }

  /** Wherever an accepted run stops, the SQL that has committed is that of the first files of the release, without the
      recorded ones, each once and in the order of the release. */
  lemma RunsInFileOrder(db: Schema, files: seq<File>, applied: seq<Applied>, k: nat)
    returns (m: nat, ran: seq<Version>, at: seq<nat>)
    requires Distinct(files) && Lists(applied, db.rows) && Acceptable(Checksums(files), db.rows)
    ensures m <= |files| && RunFor(db, files, applied, k).history == db.history + ran
    ensures UnrecordedAt(files[..m], db.rows, ran, at)
    ensures k >= |applied| + |files| ==> m == |files|
  {
    RunEffect(db, files, applied, k);
    PendingNames(files, db.rows);
    LegacySize(applied);
    var j := Reached(files, db.rows, applied, k);
    ran := Ran(files, db.rows, applied, k);
    m := FilesBehind(files, db.rows, j);
    if k >= |applied| + |files| {
      m := |files|;
      assert files[..m] == files;
    }
    NamesOfFirst(Pending(files, db.rows), j);
    at := PendingAt(files[..m], db.rows);
  }

  lemma {:induction false} LegacySize(applied: seq<Applied>)
    ensures |Legacy(applied)| <= |applied|
  {
    if applied != [] {
      LegacySize(applied[..|applied| - 1]);
    }
  }
}
