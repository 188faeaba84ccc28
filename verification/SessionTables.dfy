// Each table by itself: a table is an ordinary one as long as the statements on it, and the ends of
// transactions as far as they concern it, stay within their guards, whatever happens to other tables.
module SessionTables {
  import opened Mvcc
  import opened RowCodec
  import opened Session
  import opened SessionRefinement
  import opened SessionProperties

  // What Guard asks of a statement for the sake of one table.
  ghost predicate TableGuard(d: Db, s: Stmt, t: string)
    requires t in d.pages
  {
    if Writes(s, t) then Guard(d, s)
    else match s
      case Commit => d.cur != 0 ==> forall i :: 0 <= i < |d.pages[t]| ==> !SelfMarked(d.pages[t][i], d.cur)
      case Rollback => d.cur > 100 ==> Rows(d.log, 0, d.pages[t]) == Rows(d.log, -d.cur, d.pages[t])
      case Begin => d.cur > 100 ==> Rows(d.log, 0, d.pages[t]) == Rows(d.log, -d.cur, d.pages[t])
      case _ => true
  }

  // Guard asks exactly this, of every table.
  lemma GuardIsPerTable(d: Db, s: Stmt)
    ensures Guard(d, s) <==> forall t :: t in d.pages ==> TableGuard(d, s, t)
  {
    if IsWrite(s) && s.table in d.pages {
      assert TableGuard(d, s, s.table) <==> Guard(d, s);
    }
  }

  // Table t of the session is table t of a.
  ghost predicate RefinesAt(d: Db, a: Plain, t: string) {
    a.open == (d.cur != 0) && TableRefines(d, a, t)
  }

  // The ordinary database a state stands for.
  function Meaning(d: Db): Plain {
    Plain(map t | t in d.pages :: Rows(d.log, -d.cur, d.pages[t]), map t | t in d.pages :: Rows(d.log, d.cur, d.pages[t]),
          d.cur != 0, map t | t in d.pages :: |d.pages[t]|)
  }

  lemma MeaningIs(d: Db)
    ensures Refines(d, Meaning(d))
  {
    forall t | t in d.pages ensures TableRefines(d, Meaning(d), t) {}
  }

  predicate SameAt(a: Plain, b: Plain, t: string) {
    && a.open == b.open && t in a.committed && t in a.working && t in a.used && t in b.committed && t in b.working && t in b.used
    && a.committed[t] == b.committed[t] && a.working[t] == b.working[t] && a.used[t] == b.used[t]
  }

  lemma PutIsLocal(a: Plain, b: Plain, t: string, rows: seq<string>, used: nat)
    requires SameAt(a, b, t)
    ensures SameAt(Put(a, t, rows, used), Put(b, t, rows, used), t)
  {
  }

  // A statement of the ordinary database does the same to a table that looks the same.
  lemma StepIsLocal(a: Plain, b: Plain, columns: map<string, seq<string>>, s: Stmt, t: string)
    requires SameAt(a, b, t) && Writes(s, t)
    ensures SameAt(PlainStep(a, columns, s), PlainStep(b, columns, s), t)
  {
    var rows, used := a.working[t], a.used[t];
    match s
    case Insert(_, v) => PutIsLocal(a, b, t, rows + [Cut(v, STORED_MAX)], used + 1);
    case Delete(_, id) => PutIsLocal(a, b, t, Without(rows, FirstMatch(rows, ByRecord(id))), used);
    case DeleteAll(_) => PutIsLocal(a, b, t, [], used);
    case Update(_, set_, id) =>
      if t in columns && "id" in columns[t] {
        var i := FirstMatch(rows, ByColumn(IdColumn(columns[t]), id));
        if i < |rows| {
          PutIsLocal(a, b, t, Without(rows, i) + [Cut(NewRow(columns[t], set_, rows[i]), STORED_MAX)], used + 1);
        }
      }
  }

  lemma OtherTable(d: Db, a: Plain, s: Stmt, t: string)
    requires Sound(d) && RefinesAt(d, a, t) && Inside(s) && !Writes(s, t)
    ensures RefinesAt(Step(d, s), PlainStep(a, d.columns, s), t)
  {
    var e := Step(d, s);
    LeavesTable(d, s, t);
    RowsKept(d, d.pages[t], Committed);
    RowsKept(d, d.pages[t], Aborted);
    OtherPlain(d, a, s, t);
  }

  lemma OtherPlain(d: Db, a: Plain, s: Stmt, t: string)
    requires RefinesAt(d, a, t) && Inside(s) && !Writes(s, t)
    ensures var b := PlainStep(a, d.columns, s);
      && b.open == a.open && t in b.committed && t in b.working && t in b.used
      && b.committed[t] == a.committed[t] && b.working[t] == a.working[t] && b.used[t] == a.used[t]
  {
  }

  lemma WriteOpen(d: Db, a: Plain, s: Stmt)
    requires IsWrite(s)
    ensures PlainStep(a, d.columns, s).open == a.open && Step(d, s).cur == d.cur
  {
    InsideStep(d, s);
  }

  lemma WriteKeys(a: Plain, columns: map<string, seq<string>>, s: Stmt)
    requires IsWrite(s) && a.committed.Keys == a.working.Keys == a.used.Keys
    ensures var b := PlainStep(a, columns, s); b.committed.Keys == b.working.Keys == b.used.Keys == a.used.Keys
  {
  }

  lemma OtherTables(d: Db, a: Plain, s: Stmt, t: string)
    requires Sound(d) && Refines(d, a) && Writes(s, t)
    ensures forall u {:trigger TableRefines(Step(d, s), PlainStep(a, d.columns, s), u)} ::
      u in d.pages && u != t ==> TableRefines(Step(d, s), PlainStep(a, d.columns, s), u)
  {
    forall u | u in d.pages && u != t ensures TableRefines(Step(d, s), PlainStep(a, d.columns, s), u) {
      assert TableRefines(d, a, u);
      OtherTable(d, a, s, u);
    }
  }

  // The theorem for all tables, where only this one can go wrong.
  lemma WriteRefines(d: Db, a: Plain, s: Stmt, t: string)
    requires Sound(d) && Refines(d, a) && Writes(s, t) && t in d.pages
    ensures Guard(d, s) <==> TableRefines(Step(d, s), PlainStep(a, d.columns, s), t)
  {
    StepRefinesExactly(d, a, s);
    OtherTables(d, a, s, t);
    WriteOpen(d, a, s);
    WriteKeys(a, d.columns, s);
  }

  lemma SameRefines(e: Db, a: Plain, b: Plain, t: string)
    requires SameAt(a, b, t)
    ensures TableRefines(e, a, t) <==> TableRefines(e, b, t)
  {
  }

  lemma WriteRefinesLike(d: Db, a: Plain, m: Plain, s: Stmt, t: string)
    requires Sound(d) && Refines(d, m) && SameAt(a, m, t) && Writes(s, t) && t in d.pages && a.open == (d.cur != 0)
    ensures Guard(d, s) <==> RefinesAt(Step(d, s), PlainStep(a, d.columns, s), t)
  {
    WriteRefines(d, m, s, t);
    WriteOpen(d, a, s);
    StepIsLocal(a, m, d.columns, s, t);
    SameRefines(Step(d, s), PlainStep(a, d.columns, s), PlainStep(m, d.columns, s), t);
  }

  lemma WriteRefinesAt(d: Db, a: Plain, s: Stmt, t: string)
    requires Sound(d) && RefinesAt(d, a, t) && Writes(s, t)
    ensures Guard(d, s) <==> RefinesAt(Step(d, s), PlainStep(a, d.columns, s), t)
  {
    MeaningIs(d);
    assert TableRefines(d, Meaning(d), t);
    WriteRefinesLike(d, a, Meaning(d), s, t);
  }

  lemma CommitRefinesAt(d: Db, a: Plain, t: string)
    requires Sound(d) && RefinesAt(d, a, t)
    ensures TableGuard(d, Commit, t) <==> RefinesAt(Step(d, Commit), PlainStep(a, d.columns, Commit), t)
  {
    if d.cur != 0 { CommitPublishesExactly(d, t); }
  }

  lemma AbandonedRows(d: Db, t: string)
    requires Sound(d) && t in d.pages && d.cur <= MAX_TX
    ensures Rows(d.log, 0, d.pages[t]) == Rows(d.log, -d.cur, d.pages[t])
  {
    RowsAgree(d.log, 0, d.log, -d.cur, d.pages[t], d.pages[t]);
  }

  lemma RollbackRefinesAt(d: Db, a: Plain, t: string)
    requires Sound(d) && RefinesAt(d, a, t)
    ensures TableGuard(d, Rollback, t) <==> RefinesAt(Step(d, Rollback), PlainStep(a, d.columns, Rollback), t)
  {
    if d.cur <= MAX_TX { AbandonedRows(d, t); }
    UndoneRows(d, t);
  }

  lemma BeginRefinesAt(d: Db, a: Plain, t: string)
    requires Sound(d) && RefinesAt(d, a, t)
    ensures TableGuard(d, Begin, t) <==> RefinesAt(Step(d, Begin), PlainStep(a, d.columns, Begin), t)
  {
    if d.cur <= MAX_TX { AbandonedRows(d, t); }
    BegunRows(d, t);
  }

  // Within its guard for a table a statement does to it what it does to the ordinary table, and
  // outside it does not.
  lemma TableRefinesExactly(d: Db, a: Plain, s: Stmt, t: string)
    requires Sound(d) && RefinesAt(d, a, t)
    ensures TableGuard(d, s, t) <==> RefinesAt(Step(d, s), PlainStep(a, d.columns, s), t)
  {
    if Writes(s, t) { WriteRefinesAt(d, a, s, t); }
    else if s.Commit? { CommitRefinesAt(d, a, t); }
    else if s.Rollback? { RollbackRefinesAt(d, a, t); }
    else if s.Begin? { BeginRefinesAt(d, a, t); }
    else { OtherTable(d, a, s, t); }
  }

  ghost predicate TableGuarded(d: Db, ss: seq<Stmt>, t: string)
    requires t in d.pages
    decreases |ss|
  {
    ss == [] || (TableGuarded(d, ss[..|ss| - 1], t) && t in Run(d, ss[..|ss| - 1]).pages &&
                 TableGuard(Run(d, ss[..|ss| - 1]), ss[|ss| - 1], t))
  }

  // A run of any length is, for a table whose guards it keeps, a run of the ordinary database.
  lemma {:induction false} RunRefinesTable(d: Db, a: Plain, ss: seq<Stmt>, t: string)
    requires Sound(d) && RefinesAt(d, a, t) && TableGuarded(d, ss, t)
    ensures RefinesAt(Run(d, ss), PlainRun(a, d.columns, ss), t)
    decreases |ss|
  {
    if ss != [] {
      var ss', s := ss[..|ss| - 1], ss[|ss| - 1];
      RunRefinesTable(d, a, ss', t);
      RunSound(d, ss');
      RunColumns(d, ss');
      TableRefinesExactly(Run(d, ss'), PlainRun(a, d.columns, ss'), s, t);
    }
  }

  // So from empty tables, and SELECT prints the rows of the ordinary table.
  lemma TableFromTheStart(d: Db, ss: seq<Stmt>, t: string)
    requires Initial(d) && t in d.pages && TableGuarded(d, ss, t)
    ensures var e, a := Run(d, ss), PlainRun(EmptyPlain(d), d.columns, ss);
      t in e.pages && t in a.working && Printed(e, t) == a.working[t]
  {
    assert RefinesAt(d, EmptyPlain(d), t);
    RunRefinesTable(d, EmptyPlain(d), ss, t);
    RunSound(d, ss);
    VisibleIsRows(Run(d, ss), Run(d, ss).pages[t]);
  }
}
