/**
 * The migration runner and its baseline guard. A boot reads the newest row of the migration
 * table once, then applies every journal entry newer than it, all in one transaction that
 * holds an advisory lock; the guard runs first in the same transaction.
 */
module Migrations {
  import opened Prelude
  import opened JsText

  datatype Migration = Migration(folderMillis: int, hash: string, sql: seq<string>)

  datatype Applied = Applied(hash: string, createdAt: int)

  /** `legacy` stands for what only pre-0.1 databases have; `executed` lists every statement ever run. */
  datatype Db = Db(rows: seq<Applied>, executed: seq<string>, legacy: Legacy)

  datatype Legacy = Legacy(hasMigrationAudit: bool, hasProjectsRepoUrl: bool, otherMigrationTables: seq<nat>)

  // ----- the guard -----

  predicate AnyNonEmpty(counts: seq<nat>) {
    exists i :: 0 <= i < |counts| && counts[i] > 0
  }

  predicate BaselineCompatible(db: Db, journal: seq<Migration>) {
    && !db.legacy.hasMigrationAudit
    && !db.legacy.hasProjectsRepoUrl
    && !AnyNonEmpty(db.legacy.otherMigrationTables)
    && |db.rows| <= |journal|
  }

  // ----- the runner -----

  /** `ORDER BY created_at DESC LIMIT 1`. */
  function Newest(rows: seq<Applied>): Option<int> {
    if rows == [] then None
    else
      var before := Newest(rows[..|rows| - 1]);
      var last := rows[|rows| - 1].createdAt;
      Some(if before.None? || before.value < last then last else before.value)
  }

  function Statements(sql: seq<string>): seq<string> {
    if sql == [] then []
    else
      var front := Statements(sql[..|sql| - 1]);
      if IsBlank(sql[|sql| - 1]) then front else front + [sql[|sql| - 1]]
  }

  predicate Due(newest: Option<int>, m: Migration) {
    newest.None? || newest.value < m.folderMillis
  }

  function Apply(db: Db, m: Migration): Db {
    db.(rows := db.rows + [Applied(m.hash, m.folderMillis)], executed := db.executed + Statements(m.sql))
  }

  /** The loop over the journal, with the newest row as it was before the loop. */
  function ApplyDue(db: Db, newest: Option<int>, journal: seq<Migration>): Db {
    if journal == [] then db
    else
      var before := ApplyDue(db, newest, journal[..|journal| - 1]);
      var m := journal[|journal| - 1];
      if Due(newest, m) then Apply(before, m) else before
  }

  function Migrate(db: Db, journal: seq<Migration>): Db {
    ApplyDue(db, Newest(db.rows), journal)
  }

  /** One boot: the guard, then the runner; a refused or failed boot rolls everything back. */
  function Boot(db: Db, journal: seq<Migration>, commits: bool): Db {
    if BaselineCompatible(db, journal) && commits then Migrate(db, journal) else db
  }

  class MigrationRunner {
    var rows: seq<Applied>
    var executed: seq<string>
    const legacy: Legacy

    ghost function View(): Db
      reads this
    {
      Db(rows, executed, legacy)
    }

    constructor (db: Db)
      ensures View() == db
    {
      rows, executed, legacy := db.rows, db.executed, db.legacy;
    }

    method NewestRow() returns (newest: Option<int>)
      ensures newest == Newest(rows)
      ensures newest.None? <==> rows == []
      ensures newest.Some? ==> && (forall i :: 0 <= i < |rows| ==> rows[i].createdAt <= newest.value)
                               && exists i :: 0 <= i < |rows| && rows[i].createdAt == newest.value
    {
      NewestIsGreatest(rows);
      newest := None;
      for i := 0 to |rows|
        invariant newest == Newest(rows[..i])
      {
        assert rows[..i + 1][..i] == rows[..i];
        if newest.None? || newest.value < rows[i].createdAt {
          newest := Some(rows[i].createdAt);
        }
      }
      assert rows[..|rows|] == rows;
    }

    method Execute(sql: seq<string>)
      modifies `executed
      ensures executed == old(executed) + Statements(sql)
    {
      for i := 0 to |sql|
        invariant executed == old(executed) + Statements(sql[..i])
      {
        assert sql[..i + 1][..i] == sql[..i];
        if IsBlank(sql[i]) {
          continue;
        }
        executed := executed + [sql[i]];
      }
      assert sql[..|sql|] == sql;
    }

    method RunMigrations(journal: seq<Migration>)
      modifies this
      ensures View() == Migrate(old(View()), journal)
    {
      var newest := NewestRow();
      for i := 0 to |journal|
        invariant View() == ApplyDue(old(View()), newest, journal[..i])
      {
        assert journal[..i + 1][..i] == journal[..i];
        if newest.None? || newest.value < journal[i].folderMillis {
          Execute(journal[i].sql);
          rows := rows + [Applied(journal[i].hash, journal[i].folderMillis)];
        }
      }
      assert journal[..|journal|] == journal;
    }

    /** Refuses with no change, or migrates. */
    method MigrateWithGuard(journal: seq<Migration>) returns (refused: bool)
      modifies this
      ensures refused <==> || legacy.hasMigrationAudit || legacy.hasProjectsRepoUrl
                           || (exists i :: 0 <= i < |legacy.otherMigrationTables| && legacy.otherMigrationTables[i] > 0)
                           || |old(rows)| > |journal|
      ensures View() == if refused then old(View()) else Migrate(old(View()), journal)
      ensures View() == Boot(old(View()), journal, true)
    {
      var i := 0;
      while i < |legacy.otherMigrationTables| && legacy.otherMigrationTables[i] == 0
        invariant 0 <= i <= |legacy.otherMigrationTables|
        invariant forall k :: 0 <= k < i ==> legacy.otherMigrationTables[k] == 0
      {
        i := i + 1;
      }
      if legacy.hasMigrationAudit || legacy.hasProjectsRepoUrl || i < |legacy.otherMigrationTables|
         || |rows| > |journal| {
        return true;
      }
      RunMigrations(journal);
      return false;
    }
  }

  /** A statement is executed unless it is blank, in the order of the file. */
  lemma StatementsAppend(sql: seq<string>, statement: string)
    ensures Statements(sql + [statement])
         == if IsBlank(statement) then Statements(sql) else Statements(sql) + [statement]
  {
    assert (sql + [statement])[..|sql|] == sql;
  }

  lemma {:induction false} NewestIsGreatest(rows: seq<Applied>)
    ensures Newest(rows).None? <==> rows == []
    ensures Newest(rows).Some? ==> && (forall i :: 0 <= i < |rows| ==> rows[i].createdAt <= Newest(rows).value)
                                   && exists i :: 0 <= i < |rows| && rows[i].createdAt == Newest(rows).value
  {
    if rows != [] {
      var n := |rows| - 1;
      var front := rows[..n];
      NewestIsGreatest(front);
      assert rows[n].createdAt <= Newest(rows).value;
      if Newest(rows) == Newest(front) {
        var i :| 0 <= i < |front| && front[i].createdAt == Newest(front).value;
        assert rows[i].createdAt == Newest(rows).value;
      }
    }
  }

  // ---------------------------------------------------------------------------
  // Exactly once
  // ---------------------------------------------------------------------------

  const FRESH := Db([], [], Legacy(false, false, []))

  /** One run over an empty database. */
  function FreshRun(journal: seq<Migration>): Db {
    Migrate(FRESH, journal)
  }

  function RowsOf(journal: seq<Migration>): seq<Applied> {
    if journal == [] then []
    else RowsOf(journal[..|journal| - 1]) + [Applied(journal[|journal| - 1].hash, journal[|journal| - 1].folderMillis)]
  }

  /** The entries a run over `newest` picks, in journal order. */
  function DueOnly(newest: Option<int>, journal: seq<Migration>): seq<Migration> {
    if journal == [] then []
    else
      var front := DueOnly(newest, journal[..|journal| - 1]);
      if Due(newest, journal[|journal| - 1]) then front + [journal[|journal| - 1]] else front
  }

  function ApplyAll(db: Db, journal: seq<Migration>): Db {
    if journal == [] then db else Apply(ApplyAll(db, journal[..|journal| - 1]), journal[|journal| - 1])
  }

  lemma {:induction false} ApplyDueIsApplyAll(db: Db, newest: Option<int>, journal: seq<Migration>)
    ensures ApplyDue(db, newest, journal) == ApplyAll(db, DueOnly(newest, journal))
  {
    if journal != [] {
      var front := journal[..|journal| - 1];
      ApplyDueIsApplyAll(db, newest, front);
      if Due(newest, journal[|journal| - 1]) {
        var picked := DueOnly(newest, journal);
        assert picked[..|picked| - 1] == DueOnly(newest, front);
      }
    }
  }

  lemma {:induction false} ApplyAllAppend(db: Db, a: seq<Migration>, b: seq<Migration>)
    ensures ApplyAll(db, a + b) == ApplyAll(ApplyAll(db, a), b)
  {
    if b == [] {
      assert a + b == a;
    } else {
      assert (a + b)[..|a + b| - 1] == a + b[..|b| - 1];
      ApplyAllAppend(db, a, b[..|b| - 1]);
    }
  }

  lemma {:induction false} ApplyAllRows(db: Db, journal: seq<Migration>)
    ensures ApplyAll(db, journal).rows == db.rows + RowsOf(journal)
    ensures ApplyAll(db, journal).legacy == db.legacy
    ensures |RowsOf(journal)| == |journal|
  {
    if journal != [] {
      ApplyAllRows(db, journal[..|journal| - 1]);
    }
  }

  lemma {:induction false} DueOnlyAppend(newest: Option<int>, a: seq<Migration>, b: seq<Migration>)
    ensures DueOnly(newest, a + b) == DueOnly(newest, a) + DueOnly(newest, b)
  {
    if b == [] {
      assert a + b == a;
    } else {
      assert (a + b)[..|a + b| - 1] == a + b[..|b| - 1];
      DueOnlyAppend(newest, a, b[..|b| - 1]);
    }
  }

  lemma {:induction false} DueOnlyAll(newest: Option<int>, journal: seq<Migration>)
    requires forall i :: 0 <= i < |journal| ==> Due(newest, journal[i])
    ensures DueOnly(newest, journal) == journal
  {
    if journal != [] {
      var front := journal[..|journal| - 1];
      DueOnlyAll(newest, front);
      assert journal == front + [journal[|journal| - 1]];
    }
  }

  lemma {:induction false} DueOnlyNone(newest: Option<int>, journal: seq<Migration>)
    requires forall i :: 0 <= i < |journal| ==> !Due(newest, journal[i])
    ensures DueOnly(newest, journal) == []
  {
    if journal != [] {
      DueOnlyNone(newest, journal[..|journal| - 1]);
    }
  }

  lemma {:induction false} DueOnlyLength(newest: Option<int>, journal: seq<Migration>, skipped: nat)
    ensures |DueOnly(newest, journal)| <= |journal|
    ensures skipped < |journal| && !Due(newest, journal[skipped]) ==> |DueOnly(newest, journal)| < |journal|
  {
    if journal != [] {
      DueOnlyLength(newest, journal[..|journal| - 1], skipped);
    }
  }

  lemma FreshRunAppliesAll(journal: seq<Migration>)
    ensures FreshRun(journal) == ApplyAll(FRESH, journal)
  {
    ApplyDueIsApplyAll(FRESH, None, journal);
    DueOnlyAll(None, journal);
  }

  function AllStatements(journal: seq<Migration>): seq<string> {
    if journal == [] then []
    else AllStatements(journal[..|journal| - 1]) + Statements(journal[|journal| - 1].sql)
  }

  /** A fresh run records every entry of the journal, in order, and executes every statement of each. */
  lemma {:induction false} FreshRunDoesEverything(journal: seq<Migration>)
    ensures FreshRun(journal).rows == RowsOf(journal) && FreshRun(journal).executed == AllStatements(journal)
  {
    FreshRunAppliesAll(journal);
    ApplyAllRows(FRESH, journal);
    ApplyAllExecutes(journal);
  }

  lemma {:induction false} ApplyAllExecutes(journal: seq<Migration>)
    ensures ApplyAll(FRESH, journal).executed == AllStatements(journal)
  {
    if journal != [] {
      ApplyAllExecutes(journal[..|journal| - 1]);
    }
  }

  lemma {:induction false} NewestOfJournal(journal: seq<Migration>)
    ensures var n := Newest(RowsOf(journal));
            && (n.None? <==> journal == [])
            && (n.Some? ==> forall i :: 0 <= i < |journal| ==> journal[i].folderMillis <= n.value)
            && (n.Some? ==> exists i :: 0 <= i < |journal| && journal[i].folderMillis == n.value)
  {
    if journal != [] {
      var front := journal[..|journal| - 1];
      NewestOfJournal(front);
      var rows := RowsOf(journal);
      assert rows[..|rows| - 1] == RowsOf(front);
      var n := Newest(rows);
      if front == [] || Newest(RowsOf(front)).value < journal[|journal| - 1].folderMillis {
        assert journal[|journal| - 1].folderMillis == n.value;
      } else {
        var i :| 0 <= i < |front| && front[i].folderMillis == Newest(RowsOf(front)).value;
        assert journal[i].folderMillis == n.value;
      }
    }
  }

  /** Every new entry is newer than every old one. */
  ghost predicate GrowsForward(old_: seq<Migration>, added: seq<Migration>) {
    forall i, k :: 0 <= i < |old_| && 0 <= k < |added| ==> old_[i].folderMillis < added[k].folderMillis
  }

  /** Restarting with a longer journal applies exactly the due part of what was added. */
  lemma UpgradeAppliesDue(j: seq<Migration>, added: seq<Migration>)
    ensures var newest := Newest(RowsOf(j));
            Migrate(FreshRun(j), j + added) == ApplyAll(FreshRun(j), DueOnly(newest, added))
  {
    FreshRunAppliesAll(j);
    ApplyAllRows(FRESH, j);
    var newest := Newest(RowsOf(j));
    assert FreshRun(j).rows == RowsOf(j);
    ApplyDueIsApplyAll(FreshRun(j), newest, j + added);
    DueOnlyAppend(newest, j, added);
    NewestOfJournal(j);
    DueOnlyNone(newest, j);
    assert [] + DueOnly(newest, added) == DueOnly(newest, added);
  }

  /**
   * The exact condition. Restarting with a grown journal ends in the database one fresh run of that journal would
   * give if and only if every added entry is newer than every entry already applied.
   */
  lemma UpgradeEqualsFreshRunExactlyWhenForward(j: seq<Migration>, added: seq<Migration>)
    ensures Migrate(FreshRun(j), j + added) == FreshRun(j + added) <==> GrowsForward(j, added)
  {
    var picked := DueOnly(Newest(RowsOf(j)), added);
    UpgradeAppliesDue(j, added);
    FreshRunAppliesAll(j);
    FreshRunAppliesAll(j + added);
    ApplyAllAppend(FRESH, j, added);
    ApplyAllRows(FreshRun(j), picked);
    ApplyAllRows(FreshRun(j), added);
    AllDueExactlyWhenForward(j, added);
  }

  /** The failing case: an entry added with an older time is skipped on upgrade and applied on a fresh install. */
  lemma OlderEntryIsSkipped(first: Migration, late: Migration)
    requires late.folderMillis <= first.folderMillis
    ensures Migrate(FreshRun([first]), [first] + [late]) == FreshRun([first])
    ensures FreshRun([first] + [late]) != FreshRun([first])
  {
    var j, added := [first], [late];
    UpgradeAppliesDue(j, added);
    NewestOfJournal(j);
    AllDueExactlyWhenForward(j, added);
    assert !GrowsForward(j, added) by {
      assert j[0].folderMillis >= added[0].folderMillis;
    }
    FreshRunAppliesAll(j);
    FreshRunAppliesAll(j + added);
    ApplyAllRows(FRESH, j);
    ApplyAllRows(FRESH, j + added);
  }

  lemma AllDueExactlyWhenForward(j: seq<Migration>, added: seq<Migration>)
    ensures var picked := DueOnly(Newest(RowsOf(j)), added);
            if GrowsForward(j, added) then picked == added else |picked| < |added|
  {
    var newest := Newest(RowsOf(j));
    NewestOfJournal(j);
    if GrowsForward(j, added) {
      if j != [] {
        var i :| 0 <= i < |j| && j[i].folderMillis == newest.value;
        assert forall k :: 0 <= k < |added| ==> j[i].folderMillis < added[k].folderMillis;
      }
      DueOnlyAll(newest, added);
    } else {
      var i, k :| 0 <= i < |j| && 0 <= k < |added| && j[i].folderMillis >= added[k].folderMillis;
      DueOnlyLength(newest, added, k);
    }
  }

  /** Booting again with the same journal changes nothing. */
  lemma RerunIsNoOp(j: seq<Migration>)
    ensures Migrate(FreshRun(j), j) == FreshRun(j)
  {
    UpgradeAppliesDue(j, []);
    assert j + [] == j;
  }

  // ----- any sequence of boots -----

  ghost predicate Increasing(journal: seq<Migration>) {
    forall i, k :: 0 <= i < k < |journal| ==> journal[i].folderMillis < journal[k].folderMillis
  }

  /** A boot of a release that ships the first `length` entries of the journal. */
  datatype Attempt = Attempt(length: nat, commits: bool)

  predicate Within(attempts: seq<Attempt>, journal: seq<Migration>) {
    forall i :: 0 <= i < |attempts| ==> attempts[i].length <= |journal|
  }

  function Boots(journal: seq<Migration>, attempts: seq<Attempt>): Db
    requires Within(attempts, journal)
  {
    if attempts == [] then FRESH
    else
      var a := attempts[|attempts| - 1];
      Boot(Boots(journal, attempts[..|attempts| - 1]), journal[..a.length], a.commits)
  }

  /** The longest journal that was ever booted and committed. */
  function Longest(attempts: seq<Attempt>): nat {
    if attempts == [] then 0
    else
      var before := Longest(attempts[..|attempts| - 1]);
      var a := attempts[|attempts| - 1];
      if a.commits && a.length > before then a.length else before
  }

  lemma {:induction false} LongestWithin(journal: seq<Migration>, attempts: seq<Attempt>)
    requires Within(attempts, journal)
    ensures Longest(attempts) <= |journal|
  {
    if attempts != [] {
      LongestWithin(journal, attempts[..|attempts| - 1]);
    }
  }

  /**
   * Exactly once. Over any sequence of boots of releases whose journals are prefixes of one increasing journal,
   * in any order, some failing and rolled back, some older than the database, the database is what one fresh run
   * of the longest committed journal gives.
   */
  lemma {:induction false} EveryBootSequenceAppliesOnce(journal: seq<Migration>, attempts: seq<Attempt>)
    requires Increasing(journal) && Within(attempts, journal)
    ensures Longest(attempts) <= |journal|
    ensures Boots(journal, attempts) == FreshRun(journal[..Longest(attempts)])
  {
    LongestWithin(journal, attempts);
    if attempts != [] {
      var front := attempts[..|attempts| - 1];
      var a := attempts[|attempts| - 1];
      LongestWithin(journal, front);
      EveryBootSequenceAppliesOnce(journal, front);
      BootStep(journal, Longest(front), a);
    } else {
      assert journal[..0] == [];
    }
  }

  /** One boot over the database of the first `n` entries: admitted exactly when its journal is not shorter. */
  lemma BootStep(journal: seq<Migration>, n: nat, a: Attempt)
    requires Increasing(journal) && n <= |journal| && a.length <= |journal|
    ensures BaselineCompatible(FreshRun(journal[..n]), journal[..a.length]) <==> n <= a.length
    ensures Boot(FreshRun(journal[..n]), journal[..a.length], a.commits)
         == FreshRun(journal[..if a.commits && a.length > n then a.length else n])
  {
    var j := journal[..n];
    FreshRunAppliesAll(j);
    ApplyAllRows(FRESH, j);
    assert |FreshRun(j).rows| == n;
    if n <= a.length {
      var added := journal[n..a.length];
      assert journal[..a.length] == j + added;
      assert GrowsForward(j, added);
      UpgradeEqualsFreshRunExactlyWhenForward(j, added);
      assert a.length == n ==> journal[..a.length] == j;
    }
  }
}
