// What ROLLBACK leaves behind, with and without an entry in the transaction table.
module SessionRollback {
  import opened Mvcc
  import opened RowCodec
  import opened Session
  import opened SessionRefinement
  import opened SessionProperties

  lemma AbortedRows(l: TxLog, cur: int, p: Page)
    requires ValidLog(l) && Has(l, cur, Active)
    ensures Rows(WithStatus(l, cur, Aborted), 0, p) == Rows(l, -cur, p)
  {
    RowsAgree(WithStatus(l, cur, Aborted), 0, l, -cur, p, p);
  }

  // When f, later in the transaction of b, is rolled back, the rows are those b had committed.
  lemma BodyUndone(b: Db, body: seq<Stmt>, f: Db, t: string)
    requires Sound(b) && 0 < b.cur <= MAX_TX && forall s :: s in body ==> Inside(s)
    requires f == Run(b, body) && t in b.pages
    ensures t in f.pages && f.cur != 0
    ensures Rows(WithStatus(f.log, f.cur, Aborted), 0, f.pages[t]) == Rows(b.log, -b.cur, b.pages[t])
  {
    BodyKeepsCommitted(b, body, t);
    AbortedRows(f.log, f.cur, f.pages[t]);
  }

  // BEGIN of a transaction that gets an entry, anything, ROLLBACK: every table's committed rows are
  // those before BEGIN, although the versions and marks of the transaction are still on the pages.
  lemma RollbackIsAtomic(d: Db, body: seq<Stmt>, t: string)
    requires Sound(d) && d.log.begun < 100 && t in d.pages && forall s :: s in body ==> Inside(s)
    ensures var e := Step(Run(Step(d, Begin), body), Rollback);
      e.cur == 0 && t in e.pages && Rows(e.log, 0, e.pages[t]) == Rows(d.log, -d.cur, d.pages[t])
  {
    StepSound(d, Begin);
    BodyUndone(Step(d, Begin), body, Run(Step(d, Begin), body), t);
    BegunRows(d, t);
    LeftBehind(d, t);
  }

  // ----- what a later transaction sees, slot by slot -----

  // What a statement of d sees of a version.
  predicate NextSees(d: Db, v: Version) {
    Sees(Enter(d).log, v.Head(), Enter(d).snap)
  }

  // Transaction tx inserted the version and did not mark it, or marked one that would be seen.
  predicate Touched(l: TxLog, tx: int, v: Version) {
    if v.xmin == tx then v.xmax != tx else v.xmax == tx && IsCommittedIn(l, v.xmin)
  }

  ghost predicate Untouched(d: Db, p: Page) {
    forall i :: 0 <= i < |p| ==> !Touched(d.log, d.cur, p[i])
  }

  lemma UndoneSlot(d: Db, v: Version)
    requires Sound(d) && d.cur != 0 && InRange(d.log, v)
    ensures NextSees(Step(d, Rollback), v) == Shown(d.log, -d.cur, v) <==> d.cur <= 100 || !Touched(d.log, d.cur, v)
  {
    StepSound(d, Rollback);
    FreshSnapshotShows(Step(d, Rollback).log, v);
  }

  // For every state: after ROLLBACK the next transaction sees of a page what was committed, exactly
  // when the transaction had an entry in the table or touched nothing on the page.
  lemma RollbackRestoresExactly(d: Db, t: string)
    requires Sound(d) && d.cur != 0 && t in d.pages
    ensures (forall i :: 0 <= i < |d.pages[t]| ==>
              (NextSees(Step(d, Rollback), d.pages[t][i]) <==> Shown(d.log, -d.cur, d.pages[t][i]))) <==>
            d.cur <= 100 || Untouched(d, d.pages[t])
  {
    forall i | 0 <= i < |d.pages[t]|
      ensures (NextSees(Step(d, Rollback), d.pages[t][i]) <==> Shown(d.log, -d.cur, d.pages[t][i])) <==>
              (d.cur <= 100 || !Touched(d.log, d.cur, d.pages[t][i]))
    {
      UndoneSlot(d, d.pages[t][i]);
    }
  }

  // ----- rows and slots -----

  lemma TouchedSlot(d: Db, v: Version)
    requires Sound(d) && d.cur > MAX_TX && InRange(d.log, v)
    ensures Touched(d.log, d.cur, v) <==> Shown(d.log, 0, v) != Shown(d.log, -d.cur, v)
  {
  }

  predicate Live(d: Db, v: Version) {
    Shown(d.log, 0, v) || Shown(d.log, -d.cur, v)
  }

  // No two rows, committed or to be published, have the same text.
  ghost predicate NoTwins(d: Db, p: Page) {
    forall i, j :: 0 <= i < |p| && 0 <= j < |p| && i != j && Live(d, p[i]) && Live(d, p[j]) ==> p[i].value != p[j].value
  }

  // A row shown under one view and not under the other is missing from the rows of the other.
  lemma MissingRow(d: Db, p: Page, i: nat, here: int, there: int)
    requires NoTwins(d, p) && i < |p| && here in {0, -d.cur} && there in {0, -d.cur}
    requires Shown(d.log, here, p[i]) && !Shown(d.log, there, p[i])
    ensures Rows(d.log, here, p) != Rows(d.log, there, p)
  {
    ShownIsRow(d.log, here, p, i);
    if p[i].value in Rows(d.log, there, p) { RowsFrom(d.log, there, p, p[i].value); }
  }

  // When texts do not repeat, undoing a transaction without an entry leaves the committed rows alone
  // exactly when it touched nothing.
  lemma UndoneRowsExactly(d: Db, t: string)
    requires Sound(d) && d.cur > MAX_TX && t in d.pages
    ensures Untouched(d, d.pages[t]) ==> Rows(d.log, 0, d.pages[t]) == Rows(d.log, -d.cur, d.pages[t])
    ensures NoTwins(d, d.pages[t]) ==>
      (Rows(d.log, 0, d.pages[t]) == Rows(d.log, -d.cur, d.pages[t]) <==> Untouched(d, d.pages[t]))
  {
    var p := d.pages[t];
    forall i | 0 <= i < |p| ensures Touched(d.log, d.cur, p[i]) <==> Shown(d.log, 0, p[i]) != Shown(d.log, -d.cur, p[i]) {
      TouchedSlot(d, p[i]);
    }
    if Untouched(d, p) {
      RowsAgree(d.log, 0, d.log, -d.cur, p, p);
    } else if NoTwins(d, p) {
      var i :| 0 <= i < |p| && Touched(d.log, d.cur, p[i]);
      if Shown(d.log, 0, p[i]) { MissingRow(d, p, i, 0, -d.cur); } else { MissingRow(d, p, i, -d.cur, 0); }
    }
  }

  // ----- BEGIN, any statements, ROLLBACK -----

  // The statements of a transaction change the committed view of no slot.
  lemma {:induction false} BodyKeepsSlots(d: Db, body: seq<Stmt>, t: string)
    requires Sound(d) && d.cur != 0 && t in d.pages && forall s :: s in body ==> Inside(s)
    ensures var e := Run(d, body); e.cur == d.cur && e.log == d.log && Sound(e) && t in e.pages
    ensures var p, q := d.pages[t], Run(d, body).pages[t];
      |p| <= |q| && forall i :: 0 <= i < |q| ==>
        (Shown(d.log, -d.cur, q[i]) <==> i < |p| && Shown(d.log, -d.cur, p[i]))
    decreases |body|
  {
    if body != [] {
      var e, s := Run(d, body[..|body| - 1]), body[|body| - 1];
      BodyKeepsSlots(d, body[..|body| - 1], t);
      OpenStepEdits(e, s, t);
      StepSound(e, s);
      EditKeepsSlots(e, t, Step(e, s).pages[t]);
    }
  }

  lemma EditKeepsSlots(d: Db, t: string, q: Page)
    requires Sound(d) && d.cur != 0 && t in d.pages && Edited(d, d.pages[t], q)
    ensures forall i :: 0 <= i < |q| ==>
      (Shown(d.log, -d.cur, q[i]) <==> i < |d.pages[t]| && Shown(d.log, -d.cur, d.pages[t][i]))
  {
    var p := d.pages[t];
    forall i | 0 <= i < |p| && q[i] != p[i] ensures Shown(d.log, -d.cur, q[i]) == Shown(d.log, -d.cur, p[i]) {
      KilledIsHidden(d, p[i]);
    }
  }

  // Until then the committed view of the page of t, in the transaction b has begun, is what d sees of it.
  lemma CommittedIsSeen(d: Db, b: Db, body: seq<Stmt>, f: Db, t: string)
    requires Sound(d) && d.cur == 0 && t in d.pages && forall s :: s in body ==> Inside(s)
    requires b == Step(d, Begin) && f == Run(b, body)
    ensures Sound(f) && f.cur == d.log.begun + 1 && t in f.pages
    ensures var p, q := d.pages[t], f.pages[t];
      forall i :: 0 <= i < |q| ==> (Shown(f.log, -f.cur, q[i]) <==> i < |p| && NextSees(d, p[i]))
  {
    StepSound(d, Begin);
    BodyKeepsSlots(b, body, t);
    var p := d.pages[t];
    forall i | 0 <= i < |p| ensures Shown(b.log, -b.cur, p[i]) == NextSees(d, p[i]) {
      StatementSees(d, p[i]);
    }
  }

  // For every state, body and table: after BEGIN, the body and ROLLBACK the next statement sees of
  // each slot what it would have seen before BEGIN, and of no new slot, exactly when the transaction
  // had an entry or left nothing touched.
  lemma RollbackHidesExactly(d: Db, body: seq<Stmt>, t: string)
    requires Sound(d) && d.cur == 0 && t in d.pages && forall s :: s in body ==> Inside(s)
    ensures var f := Run(Step(d, Begin), body);
      var e := Step(f, Rollback);
      && t in f.pages && e.pages == f.pages && f.cur == d.log.begun + 1
      && ((forall i :: 0 <= i < |e.pages[t]| ==>
             (NextSees(e, e.pages[t][i]) <==> i < |d.pages[t]| && NextSees(d, d.pages[t][i]))) <==>
          f.cur <= 100 || Untouched(f, f.pages[t]))
  {
    var f := Run(Step(d, Begin), body);
    CommittedIsSeen(d, Step(d, Begin), body, f, t);
    RollbackRestoresExactly(f, t);
  }

  // ----- past the end of the table -----

  // There ROLLBACK is COMMIT.
  lemma LateRollbackCommits(d: Db)
    requires Sound(d) && d.cur > MAX_TX
    ensures Step(d, Rollback) == Step(d, Commit)
  {
  }

  lemma RunThen(d: Db, ss: seq<Stmt>, s: Stmt)
    ensures Run(d, ss + [s]) == Step(Run(d, ss), s)
  {
    assert (ss + [s])[..|ss + [s]| - 1] == ss;
  }

  lemma OneByOne(r: Stmt, s: Stmt, t: Stmt)
    ensures [] + [r] == [r] && [r] + [s] == [r, s] && [r, s] + [t] == [r, s, t]
  {
  }

  lemma ThreeSteps(d: Db, r: Stmt, s: Stmt, t: Stmt)
    ensures Run(d, [r, s, t]) == Step(Step(Step(d, r), s), t)
  {
    OneByOne(r, s, t);
    RunThen(d, [], r);
    RunThen(d, [r], s);
    RunThen(d, [r, s], t);
  }

  lemma LateInsert(d: Db, t: string, value: string, f: Db)
    requires Sound(d) && d.cur == 0 && d.log.begun >= MAX_TX && t in d.pages && |d.pages[t]| < SLOTS
    requires f == Step(Step(d, Begin), Insert(t, value))
    ensures Sound(f) && f.cur == f.log.begun && f.log == Begun(d.log) && t in f.pages
    ensures f.pages[t] == d.pages[t] + [Version(f.log.begun, 0, Cut(value, STORED_MAX))]
  {
    StepSound(d, Begin);
    StepSound(Step(d, Begin), Insert(t, value));
  }

  // BEGIN, INSERT, ROLLBACK by a transaction without an entry: every later SELECT prints the row.
  lemma LateRollbackShows(d: Db, t: string, value: string)
    requires Sound(d) && d.cur == 0 && d.log.begun >= MAX_TX && t in d.pages && |d.pages[t]| < SLOTS
    ensures var e := Run(d, [Begin, Insert(t, value), Rollback]);
      && e.cur == 0 && t in e.pages
      && Printed(e, t) == Printed(d, t) + [Cut(value, STORED_MAX)]
  {
    var f := Step(Step(d, Begin), Insert(t, value));
    var e := Step(f, Rollback);
    ThreeSteps(d, Begin, Insert(t, value), Rollback);
    LateInsert(d, t, value, f);
    StepSound(f, Rollback);
    LateRollbackCommits(f);
    VisibleIsRows(d, d.pages[t]);
    VisibleIsRows(e, e.pages[t]);
    LateRow(d, e.log, d.pages[t], e.pages[t], Version(f.log.begun, 0, Cut(value, STORED_MAX)));
  }

  lemma LateRow(d: Db, l: TxLog, p: Page, q: Page, v: Version)
    requires Sound(d) && d.cur == 0 && d.log.begun >= MAX_TX && forall i :: 0 <= i < |p| ==> InRange(d.log, p[i])
    requires l == Begun(d.log) && q == p + [v] && v.xmin == l.begun && v.xmax == 0
    ensures Rows(l, 0, q) == Rows(d.log, 0, p) + [v.value]
  {
    RowsAgree(l, 0, d.log, 0, p, p);
    AppendRow(l, 0, p, v);
  }

  function Selects(t: string, n: nat): seq<Stmt> {
    if n == 0 then [] else Selects(t, n - 1) + [Select(t)]
  }

  ghost predicate Between(e: Db, pages: map<string, Page>, begun: nat) {
    Sound(e) && e.cur == 0 && e.log.begun == begun && e.pages == pages
  }

  lemma SelectBegins(d: Db, t: string, e: Db)
    requires Between(d, d.pages, d.log.begun) && t in d.pages && e == Step(d, Select(t))
    ensures Between(e, d.pages, d.log.begun + 1)
  {
    StepSound(d, Select(t));
  }

  // Each SELECT begins a transaction.
  lemma {:induction false} SelectsBegin(d: Db, t: string, n: nat)
    requires Between(d, d.pages, d.log.begun) && t in d.pages
    ensures Between(Run(d, Selects(t, n)), d.pages, d.log.begun + n)
  {
    if n > 0 {
      SelectsBegin(d, t, n - 1);
      RunThen(d, Selects(t, n - 1), Select(t));
      SelectBegins(Run(d, Selects(t, n - 1)), t, Run(d, Selects(t, n)));
    }
  }

  // ----- the hundred transactions -----

  // No statement begins more than one.
  lemma {:induction false} BegunAtMost(d: Db, ss: seq<Stmt>)
    ensures Run(d, ss).log.begun <= d.log.begun + |ss|
    decreases |ss|
  {
    if ss != [] {
      BegunAtMost(d, ss[..|ss| - 1]);
      StepBegins(Run(d, ss[..|ss| - 1]), ss[|ss| - 1]);
    }
  }

  lemma StepBegins(d: Db, s: Stmt)
    ensures Step(d, s).log.begun <= d.log.begun + 1
  {
    if Inside(s) { InsideStep(d, s); }
  }

  lemma SamePrints(d: Db, e: Db, t: string)
    requires Sound(d) && Sound(e) && d.cur == e.cur == 0 && t in d.pages && t in e.pages
    requires Rows(e.log, 0, e.pages[t]) == Rows(d.log, 0, d.pages[t])
    ensures Printed(e, t) == Printed(d, t)
  {
    VisibleIsRows(d, d.pages[t]);
    VisibleIsRows(e, e.pages[t]);
  }

  lemma UndoneSound(d: Db, b: Db, body: seq<Stmt>, f: Db, e: Db)
    requires Sound(d) && b == Step(d, Begin) && f == Run(b, body) && e == Step(f, Rollback)
    ensures Sound(e)
  {
    StepSound(d, Begin);
    RunSound(b, body);
    StepSound(f, Rollback);
  }

  // With fewer than a hundred transactions begun before: after BEGIN, any statements and ROLLBACK the next
  // SELECT prints of every table what it would have printed.
  lemma EarlyRollbackPrints(d: Db, body: seq<Stmt>, t: string)
    requires Sound(d) && d.cur == 0 && d.log.begun < 100 && t in d.pages && forall s :: s in body ==> Inside(s)
    ensures var e := Step(Run(Step(d, Begin), body), Rollback); t in e.pages && Printed(e, t) == Printed(d, t)
  {
    var f := Run(Step(d, Begin), body);
    RollbackIsAtomic(d, body, t);
    UndoneSound(d, Step(d, Begin), body, f, Step(f, Rollback));
    SamePrints(d, Step(f, Rollback), t);
  }

  // So from the start, when fewer than a hundred statements came before.
  lemma RollbackPrints(d: Db, ss: seq<Stmt>, body: seq<Stmt>, t: string)
    requires Initial(d) && |ss| < 100 && Run(d, ss).cur == 0 && t in d.pages && forall s :: s in body ==> Inside(s)
    ensures t in Run(d, ss).pages
    ensures var e := Step(Run(Step(Run(d, ss), Begin), body), Rollback);
      t in e.pages && Printed(e, t) == Printed(Run(d, ss), t)
  {
    RunSound(d, ss);
    BegunAtMost(d, ss);
    SamePages(d, ss);
    EarlyRollbackPrints(Run(d, ss), body, t);
  }

  // n SELECTs, BEGIN, INSERT, ROLLBACK, SELECT: the row is printed exactly if n is a hundred or more.
  lemma RolledBackRowExactly(d: Db, t: string, n: nat, value: string)
    requires Initial(d) && t in d.pages
    ensures var e := Run(Run(d, Selects(t, n)), [Begin, Insert(t, value), Rollback]);
      && e.cur == 0 && t in e.pages
      && Printed(e, t) == if n >= 100 then [if |value| <= 239 then value else value[..239]] else []
  {
    var f := Run(d, Selects(t, n));
    SelectsBegin(d, t, n);
    assert Printed(f, t) == [];
    if n >= 100 { LateRollbackShows(f, t, value); } else { EarlyInsertHides(f, t, value); }
  }

  lemma EarlyInsertHides(d: Db, t: string, value: string)
    requires Sound(d) && d.cur == 0 && d.log.begun < 100 && t in d.pages
    ensures var e := Run(d, [Begin, Insert(t, value), Rollback]); e.cur == 0 && t in e.pages && Printed(e, t) == Printed(d, t)
  {
    ThreeSteps(d, Begin, Insert(t, value), Rollback);
    RunOne(Step(d, Begin), Insert(t, value));
    EarlyRollbackPrints(d, [Insert(t, value)], t);
    SamePages(d, [Begin, Insert(t, value), Rollback]);
    RolledBack(Step(Step(d, Begin), Insert(t, value)));
  }

  lemma RolledBack(d: Db)
    ensures Step(d, Rollback).cur == 0
  {
  }

  lemma RunOne(d: Db, s: Stmt)
    ensures Run(d, [s]) == Step(d, s)
  {
    assert [s][..0] == [];
  }
}
