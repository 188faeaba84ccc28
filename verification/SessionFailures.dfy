// Runs from the start in which the session does not do what one expects of it.
module SessionFailures {
  import opened Mvcc
  import opened RowCodec
  import opened Session
  import opened SessionRefinement
  import opened SessionProperties
  import opened SessionIndex
  import opened SessionRollback
  import opened SessionRestart

  // ----- states with one version -----

  // One transaction has begun, its status is s, and v is all there is in table t.
  ghost predicate Single(e: Db, t: string, v: Version, s: Status) {
    && t in e.columns && t in e.pages && e.pages[t] == [v] && v.xmin == 1 && (v.xmax == 0 || v.xmax == 1)
    && e.log == TxLog(1, [s]) && s != Free && e.cur == (if s == Active then 1 else 0)
    && (s == Active ==> e.snap == TakeSnapshot(e.log, 1))
  }

  lemma OnePrinted(e: Db, t: string, v: Version)
    requires t in e.pages && e.pages[t] == [v]
    ensures Printed(e, t) == if NextSees(e, v) then [v.value] else []
  {
    assert [v][..|[v]| - 1] == [] && Visible(Enter(e).log, Enter(e).snap, []) == [];
  }

  lemma SinglePrints(e: Db, t: string, v: Version, s: Status)
    requires Single(e, t, v, s)
    ensures Printed(e, t) == if s == Active || (s == Committed && v.xmax == 0) then [v.value] else []
  {
    OnePrinted(e, t, v);
    if s == Active { OpenSnapshotShows(e.log, 1, v); } else { FreshSnapshotShows(e.log, v); }
  }

  // A new process prints the version in any case.
  lemma SingleReturns(e: Db, tables: set<string>, t: string, v: Version, s: Status)
    requires Single(e, t, v, s)
    ensures t in Restarted(e, tables).pages && Printed(Restarted(e, tables), t) == [v.value]
  {
    OnePrinted(Restarted(e, tables), t, v);
    QuietProcessSees(e, tables, [], v);
  }

  lemma BeginInsert(d: Db, t: string, value: string)
    requires Initial(d) && t in d.pages
    ensures Single(Step(Step(d, Begin), Insert(t, value)), t, Version(1, 0, Cut(value, STORED_MAX)), Active)
  {
    assert Begun(EmptyLog) == TxLog(1, [Active]);
  }

  lemma JustInsert(d: Db, t: string, value: string)
    requires Initial(d) && t in d.pages
    ensures var e := Step(d, Insert(t, value));
      && Single(e, t, Version(1, 0, Cut(value, STORED_MAX)), Committed)
      && (Atoi(value) > 0 ==> t in e.index && Atoi(value) in e.index[t] && e.index[t][Atoi(value)] == 0)
  {
    assert Begun(EmptyLog) == TxLog(1, [Active]) && [Active][0 := Committed] == [Committed];
  }

  lemma ThenDelete(e: Db, t: string, v: Version)
    requires Single(e, t, v, Active) && v.xmax == 0
    ensures Single(Step(e, Delete(t, Atoi(v.value))), t, Killed(v, 1), Active)
  {
    OpenSnapshotShows(e.log, 1, v);
    assert FirstHit(e.log, e.snap, [v], ByRecord(Atoi(v.value))) == 0;
    assert [v][0 := Killed(v, 1)] == [Killed(v, 1)];
  }

  lemma ThenEnd(e: Db, t: string, v: Version, commits: bool)
    requires Single(e, t, v, Active)
    ensures Single(Step(e, if commits then Commit else Rollback), t, v, if commits then Committed else Aborted)
  {
    assert [Active][0 := Committed] == [Committed] && [Active][0 := Aborted] == [Aborted];
  }

  // ----- rows of the own transaction -----

  // BEGIN, INSERT, DELETE of that row: SELECT still prints it.  After COMMIT it does not, but a new
  // process does, for its first statement.
  lemma OwnDeleteShows(d: Db, t: string, value: string, tables: set<string>)
    requires Initial(d) && t in d.pages
    ensures var row := Cut(value, STORED_MAX);
      var e := Run(d, [Begin, Insert(t, value), Delete(t, Atoi(row))]);
      && t in e.pages && Printed(e, t) == [row]
      && t in Step(e, Commit).pages && Printed(Step(e, Commit), t) == []
      && t in Restarted(Step(e, Commit), tables).pages && Printed(Restarted(Step(e, Commit), tables), t) == [row]
  {
    var row := Cut(value, STORED_MAX);
    var e := Run(d, [Begin, Insert(t, value), Delete(t, Atoi(row))]);
    var v := Version(1, 0, row);
    ThreeSteps(d, Begin, Insert(t, value), Delete(t, Atoi(row)));
    BeginInsert(d, t, value);
    ThenDelete(Step(Step(d, Begin), Insert(t, value)), t, v);
    SinglePrints(e, t, Killed(v, 1), Active);
    ThenEnd(e, t, Killed(v, 1), true);
    SinglePrints(Step(e, Commit), t, Killed(v, 1), Committed);
    SingleReturns(Step(e, Commit), tables, t, Killed(v, 1), Committed);
  }

  // ----- a new process -----

  // BEGIN, INSERT, ROLLBACK: the row is not printed until the program is started again.
  lemma RolledBackRowReturns(d: Db, t: string, value: string, tables: set<string>)
    requires Initial(d) && t in d.pages
    ensures var e := Run(d, [Begin, Insert(t, value), Rollback]);
      && t in e.pages && Printed(e, t) == []
      && t in Restarted(e, tables).pages && Printed(Restarted(e, tables), t) == [Cut(value, STORED_MAX)]
  {
    var e := Run(d, [Begin, Insert(t, value), Rollback]);
    var v := Version(1, 0, Cut(value, STORED_MAX));
    ThreeSteps(d, Begin, Insert(t, value), Rollback);
    BeginInsert(d, t, value);
    ThenEnd(Step(Step(d, Begin), Insert(t, value)), t, v, false);
    SinglePrints(e, t, v, Aborted);
    SingleReturns(e, tables, t, v, Aborted);
  }

  // INSERT, a new start, BEGIN, ROLLBACK: the row that was committed is gone, for the transaction rolled
  // back has the id of the one that inserted it.
  lemma EmptyRollbackHides(d: Db, t: string, value: string, tables: set<string>)
    requires Initial(d) && t in d.pages
    ensures var a := Run(d, [Insert(t, value)]);
      var r := Restarted(a, tables);
      var e := Run(r, [Begin, Rollback]);
      && t in a.pages && Printed(a, t) == [Cut(value, STORED_MAX)]
      && t in r.pages && Printed(r, t) == [Cut(value, STORED_MAX)]
      && t in e.pages && Printed(e, t) == []
  {
    var a := Run(d, [Insert(t, value)]);
    var r, v := Restarted(a, tables), Version(1, 0, Cut(value, STORED_MAX));
    RunThen(d, [], Insert(t, value));
    assert [] + [Insert(t, value)] == [Insert(t, value)];
    JustInsert(d, t, value);
    SinglePrints(a, t, v, Committed);
    SingleReturns(a, tables, t, v, Committed);
    UndoRun(r, 0);
    assert Idle(0) + [Begin, Rollback] == [Begin, Rollback];
    OnePrinted(Run(r, [Begin, Rollback]), t, v);
    RestartShows(a, tables, [Begin, Rollback], v);
  }

  // INSERT, a new start: SELECT prints the row, and the lookup by its id, which found it, does not.
  lemma StartLookupMisses(d: Db, t: string, value: string, tables: set<string>)
    requires Initial(d) && StraightNames(d) && t in d.pages && Atoi(value) > 0
    ensures var a := Run(d, [Insert(t, value)]);
      var r := Restarted(a, tables);
      && LookupId(a, t, Atoi(value)) == Shows(Cut(value, STORED_MAX))
      && t in r.pages && Printed(r, t) == [Cut(value, STORED_MAX)]
      && LookupId(r, t, Atoi(value)) == NotIndexed
  {
    var a := Run(d, [Insert(t, value)]);
    var v := Version(1, 0, Cut(value, STORED_MAX));
    RunThen(d, [], Insert(t, value));
    assert [] + [Insert(t, value)] == [Insert(t, value)];
    JustInsert(d, t, value);
    FreshSnapshotShows(a.log, v);
    SingleReturns(a, tables, t, v, Committed);
    StartLookupExactly(d, [Insert(t, value)], tables, t, Atoi(value));
  }

  // ----- ROLLBACK and the index -----

  // Transaction 1 committed one version of the record, transaction 2 inserted another and is in status
  // s, and the index names that one.
  ghost predicate Twice(e: Db, t: string, value: string, s: Status) {
    && t in e.columns && t in e.pages && e.pages[t] == [Version(1, 0, value), Version(2, 0, value)]
    && e.log == TxLog(2, [Committed, s]) && e.cur == (if s == Active then 2 else 0)
    && t in e.index && Atoi(value) in e.index[t] && e.index[t][Atoi(value)] == 1
  }

  lemma InsertAgain(b: Db, t: string, value: string)
    requires b.log == TxLog(2, [Committed, Active]) && b.cur == 2 && Atoi(value) > 0 && |value| <= STORED_MAX
    requires t in b.columns && t in b.pages && b.pages[t] == [Version(1, 0, value)] && t in b.index
    ensures Twice(DoInsert(b, t, value), t, value, Active)
  {
  }

  lemma ThenRollback(c: Db, t: string, value: string)
    requires Twice(c, t, value, Active)
    ensures Twice(Step(c, Rollback), t, value, Aborted)
  {
    assert [Committed, Active][1 := Aborted] == [Committed, Aborted];
  }

  // The scan shows the row, the lookup does not.
  lemma MissedByLookup(e: Db, t: string, value: string)
    requires Twice(e, t, value, Aborted)
    ensures value in Printed(e, t) && LookupId(e, t, Atoi(value)) == NotVisible
  {
    FreshSnapshotShows(e.log, e.pages[t][0]);
    FreshSnapshotShows(e.log, e.pages[t][1]);
    SeenIsVisible(Enter(e).log, Enter(e).snap, e.pages[t], 0);
  }

  lemma AfterOne(a: Db, t: string, value: string, e: Db)
    requires Single(a, t, Version(1, 0, value), Committed) && t in a.index && Atoi(value) > 0 && |value| <= STORED_MAX
    requires e == Step(DoInsert(Step(a, Begin), t, value), Rollback)
    ensures Twice(e, t, value, Aborted)
  {
    assert Begun(a.log) == TxLog(2, [Committed, Active]);
    InsertAgain(Step(a, Begin), t, value);
    ThenRollback(DoInsert(Step(a, Begin), t, value), t, value);
  }

  lemma FourSteps(d: Db, q: Stmt, r: Stmt, s: Stmt, t: Stmt)
    ensures Run(d, [q, r, s, t]) == Step(Step(Step(Step(d, q), r), s), t)
  {
    ThreeSteps(d, q, r, s);
    RunThen(d, [q, r, s], t);
    assert [q, r, s] + [t] == [q, r, s, t];
  }

  // INSERT, BEGIN, INSERT of the same record, ROLLBACK: the scan shows the row and the lookup misses it,
  // for the index still names the slot of the row that was rolled back.
  lemma RollbackHidesRow(d: Db, t: string, value: string)
    requires Initial(d) && t in d.pages && Atoi(value) > 0 && |value| <= STORED_MAX
    ensures var e := Run(d, [Insert(t, value), Begin, Insert(t, value), Rollback]);
      && t in e.pages && value in Printed(e, t) && LookupId(e, t, Atoi(value)) == NotVisible
  {
    var e := Run(d, [Insert(t, value), Begin, Insert(t, value), Rollback]);
    FourSteps(d, Insert(t, value), Begin, Insert(t, value), Rollback);
    JustInsert(d, t, value);
    AfterOne(Step(d, Insert(t, value)), t, value, e);
    MissedByLookup(e, t, value);
  }

  // ----- UPDATE on a full page -----

  function Copies(n: nat, row: string): seq<string> {
    if n == 0 then [] else Copies(n - 1, row) + [row]
  }

  function Inserts(n: nat, t: string, value: string): seq<Stmt> {
    if n == 0 then [] else Inserts(n - 1, t, value) + [Insert(t, value)]
  }

  lemma {:induction false} CopiesAt(n: nat, row: string)
    ensures |Copies(n, row)| == n && forall i :: 0 <= i < n ==> Copies(n, row)[i] == row
  {
    if n > 0 { CopiesAt(n - 1, row); }
  }

  lemma PlainInsert(a: Plain, columns: map<string, seq<string>>, t: string, value: string)
    requires t in a.working && t in a.used && a.used[t] < SLOTS && !a.open
    ensures var b := PlainStep(a, columns, Insert(t, value));
      && t in b.working && t in b.used && !b.open
      && b.working[t] == a.working[t] + [Cut(value, STORED_MAX)] && b.used[t] == a.used[t] + 1
  {
  }

  ghost predicate Filled(a: Plain, t: string, n: nat, row: string) {
    t in a.working && t in a.used && a.working[t] == Copies(n, row) && a.used[t] == n && !a.open
  }

  lemma FillsOn(a: Plain, columns: map<string, seq<string>>, t: string, n: nat, value: string)
    requires n < SLOTS && Filled(a, t, n, Cut(value, STORED_MAX))
    ensures Filled(PlainStep(a, columns, Insert(t, value)), t, n + 1, Cut(value, STORED_MAX))
  {
    PlainInsert(a, columns, t, value);
  }

  lemma PlainRunThen(a: Plain, columns: map<string, seq<string>>, ss: seq<Stmt>, s: Stmt)
    ensures PlainRun(a, columns, ss + [s]) == PlainStep(PlainRun(a, columns, ss), columns, s)
  {
    assert (ss + [s])[..|ss + [s]| - 1] == ss;
  }

  lemma {:induction false} InsertsFill(a: Plain, columns: map<string, seq<string>>, n: nat, t: string, value: string)
    requires n <= SLOTS && Filled(a, t, 0, Cut(value, STORED_MAX))
    ensures Filled(PlainRun(a, columns, Inserts(n, t, value)), t, n, Cut(value, STORED_MAX))
  {
    if n > 0 {
      InsertsFill(a, columns, n - 1, t, value);
      PlainRunThen(a, columns, Inserts(n - 1, t, value), Insert(t, value));
      FillsOn(PlainRun(a, columns, Inserts(n - 1, t, value)), columns, t, n - 1, value);
    }
  }

  lemma {:induction false} InsertsGuarded(d: Db, n: nat, t: string, value: string)
    ensures GuardedRun(d, Inserts(n, t, value))
  {
    if n > 0 {
      InsertsGuarded(d, n - 1, t, value);
      InsertIsGuarded(d, Inserts(n, t, value), Inserts(n - 1, t, value), t, value);
    }
  }

  lemma InsertIsGuarded(d: Db, ss: seq<Stmt>, front: seq<Stmt>, t: string, value: string)
    requires ss == front + [Insert(t, value)] && GuardedRun(d, front)
    ensures GuardedRun(d, ss)
  {
    assert ss[..|ss| - 1] == front;
  }

  lemma FilledPage(d: Db, t: string, value: string, n: nat) returns (a: Plain)
    requires Initial(d) && t in d.pages && n == SLOTS
    ensures var f := Run(d, Inserts(n, t, value));
      && Refines(f, a) && Sound(f) && f.cur == 0 && t in f.pages && f.columns == d.columns && |f.pages[t]| == n
      && Rows(f.log, 0, f.pages[t]) == Printed(f, t) == Copies(n, Cut(value, STORED_MAX))
  {
    var ss := Inserts(n, t, value);
    var f := Run(d, ss);
    a := PlainRun(EmptyPlain(d), d.columns, ss);
    InsertsGuarded(d, n, t, value);
    InsertsFill(EmptyPlain(d), d.columns, n, t, value);
    FromTheStart(d, ss);
    RunSound(d, ss);
    RunColumns(d, ss);
    SamePages(d, ss);
    SelectShowsWorking(f, a, t);
    WorkingRows(f, a, t);
  }

  // Sixteen times INSERT of a row with this id, and an UPDATE of it: of sixteen rows fifteen are left,
  // and none is changed.
  lemma FullUpdateLoses(d: Db, t: string, value: string, setText: string, id: int, n: nat)
    requires Initial(d) && t in d.pages && "id" in d.columns[t] && n == SLOTS
    requires Matches(ByColumn(IdColumn(d.columns[t]), id), Cut(value, STORED_MAX))
    ensures var f, row := Run(d, Inserts(n, t, value)), Cut(value, STORED_MAX);
      && t in f.pages && Printed(f, t) == Copies(n, row)
      && Printed(DoUpdate(f, t, setText, id), t) == Copies(n - 1, row)
  {
    var a := FilledPage(d, t, value, n);
    FullUpdate(Run(d, Inserts(n, t, value)), a, t, setText, id, Cut(value, STORED_MAX), n);
  }

  lemma FullUpdate(f: Db, a: Plain, t: string, setText: string, id: int, row: string, n: nat)
    requires Refines(f, a) && Sound(f) && f.cur == 0 && t in f.pages && "id" in f.columns[t] && |f.pages[t]| == n == SLOTS
    requires Rows(f.log, 0, f.pages[t]) == Copies(n, row) && Matches(ByColumn(IdColumn(f.columns[t]), id), row)
    ensures Printed(DoUpdate(f, t, setText, id), t) == Copies(n - 1, row)
  {
    var m := ByColumn(IdColumn(f.columns[t]), id);
    var i := FirstHit(Enter(f).log, Enter(f).snap, f.pages[t], m);
    FirstCopyHit(f, t, m, row, i, n);
    UpdateNoRoomIs(f, a, t, setText, id, i);
    UpdateSound(f, t, setText, id);
    MarkedCopy(f, DoUpdate(f, t, setText, id), t, m, i, row, n);
  }

  lemma MarkedCopy(f: Db, e: Db, t: string, m: Match, i: nat, row: string, n: nat)
    requires Sound(f) && Sound(e) && f.cur == 0 && e.cur == 0 && t in f.pages && t in e.pages && n > 0
    requires i == FirstHit(Enter(f).log, Enter(f).snap, f.pages[t], m) < |f.pages[t]|
    requires Rows(f.log, 0, f.pages[t]) == Copies(n, row) && FirstMatch(Copies(n, row), m) == 0
    requires e.log == Leave(Enter(f), Committed) && e.pages[t] == Kill(f.pages[t], i, Enter(f).tx)
    ensures Printed(e, t) == Copies(n - 1, row)
  {
    VisibleIsRows(e, e.pages[t]);
    CopiesAt(n, row);
    CopiesAt(n - 1, row);
    KilledHit(f, Enter(f), f.pages[t], t, m, i, e.log, e.pages[t], Copies(n, row));
    assert Copies(n, row)[..0] + Copies(n, row)[1..] == Copies(n - 1, row);
  }

  lemma FirstCopyHit(f: Db, t: string, m: Match, row: string, i: nat, n: nat)
    requires Sound(f) && f.cur == 0 && t in f.pages && i == FirstHit(Enter(f).log, Enter(f).snap, f.pages[t], m) && n > 0
    requires Rows(f.log, 0, f.pages[t]) == Copies(n, row) && Matches(m, row)
    ensures i < |f.pages[t]| && FirstMatch(Copies(n, row), m) == 0
  {
    CopiesAt(n, row);
    FirstCopyMatches(Copies(n, row), m, row);
    VisibleHit(f, t, m);
  }

  lemma FirstCopyMatches(rows: seq<string>, m: Match, row: string)
    requires rows != [] && rows[0] == row && Matches(m, row)
    ensures FirstMatch(rows, m) == 0
  {
  }
}
