// What the refinement means for whole runs of the session.
module SessionProperties {
  import opened Mvcc
  import opened RowCodec
  import opened Session
  import opened SessionRefinement

  // ----- one statement: exactly when it does what the ordinary database does -----

  lemma ReadRefines(d: Db, a: Plain, e: Db)
    requires Refines(d, a) && Sound(d)
    requires e == d.(index := e.index) || e == d.(log := Leave(Enter(d), Committed), index := e.index)
    ensures Refines(e, a)
  {
    if e.log != d.log {
      KeepsAll(d, Committed);
      NoChange(d, a, e);
    } else {
      forall t | t in e.pages ensures TableRefines(e, a, t) { assert TableRefines(d, a, t); }
    }
  }

  lemma GuardedStepRefines(d: Db, a: Plain, s: Stmt)
    requires Refines(d, a) && Sound(d) && Guard(d, s)
    ensures Refines(Step(d, s), PlainStep(a, d.columns, s))
  {
    match s
    case Begin => BeginRefines(d, a);
    case Commit => CommitRefines(d, a);
    case Rollback => RollbackRefines(d, a);
    case Insert(t, v) => if t in d.pages { InsertRefines(d, a, t, v); }
    case Update(t, set_, id) => if t in d.pages && "id" in d.columns[t] { UpdateRefines(d, a, t, set_, id); }
    case Delete(t, id) => if t in d.pages { DeleteRefines(d, a, t, id); }
    case DeleteAll(t) => if t in d.pages { DeleteAllRefines(d, a, t); }
    case Select(t) => ReadRefines(d, a, Step(d, s));
    case SelectId(t, id) => ReadRefines(d, a, Step(d, s));
    case Join(t, o) => ReadRefines(d, a, Step(d, s));
  }

  lemma {:induction false} ShownIsRow(l: TxLog, view: int, p: Page, i: nat)
    requires i < |p| && Shown(l, view, p[i])
    ensures p[i].value in Rows(l, view, p)
  {
    SplitAt(l, view, p, i);
  }

  // The rows the transaction inserted still show after they are marked.
  lemma DeleteAllLeavesOwn(d: Db, t: string)
    requires Sound(d) && t in d.pages && !Guard(d, DeleteAll(t))
    ensures var e := DoDeleteAll(d, t); t in e.pages && Rows(e.log, e.cur, e.pages[t]) != []
  {
    var p := d.pages[t];
    var i :| 0 <= i < |p| && Sees(Enter(d).log, p[i].Head(), Enter(d).snap) && Own(d, p[i]);
    OwnStillShows(d, t, DoDeleteAll(d, t).pages[t], i);
  }

  lemma NothingWorking(a: Plain, columns: map<string, seq<string>>, t: string)
    requires t in a.working && t in a.used
    ensures var b := PlainStep(a, columns, DeleteAll(t)); t in b.working && b.working[t] == []
  {
  }

  lemma UnguardedDeleteAll(d: Db, a: Plain, t: string)
    requires Refines(d, a) && Sound(d) && !Guard(d, DeleteAll(t))
    ensures !Refines(DoDeleteAll(d, t), PlainStep(a, d.columns, DeleteAll(t)))
  {
    DeleteAllLeavesOwn(d, t);
    assert TableRefines(d, a, t);
    NothingWorking(a, d.columns, t);
    assert !TableRefines(DoDeleteAll(d, t), PlainStep(a, d.columns, DeleteAll(t)), t);
  }

  lemma OwnStillShows(d: Db, t: string, q: Page, i: nat)
    requires Sound(d) && t in d.pages && i < |d.pages[t]| && Own(d, d.pages[t][i])
    requires Sees(Enter(d).log, d.pages[t][i].Head(), Enter(d).snap)
    requires q == KillAll(Enter(d).log, Enter(d).snap, d.pages[t], Enter(d).tx)
    ensures Rows(d.log, d.cur, q) != []
  {
    StatementSees(d, d.pages[t][i]);
    KilledIsHidden(d, d.pages[t][i]);
    ShownIsRow(d.log, d.cur, q, i);
  }

  lemma OneLessWorking(a: Plain, columns: map<string, seq<string>>, t: string, id: int)
    requires t in a.working && t in a.used && FirstMatch(a.working[t], ByRecord(id)) < |a.working[t]|
    ensures var b := PlainStep(a, columns, Delete(t, id)); t in b.working && |b.working[t]| == |a.working[t]| - 1
  {
  }

  lemma UnguardedDelete(d: Db, a: Plain, t: string, id: int)
    requires Refines(d, a) && Sound(d) && !Guard(d, Delete(t, id))
    ensures !Refines(DoDelete(d, t, id), PlainStep(a, d.columns, Delete(t, id)))
  {
    var e, p, m := DoDelete(d, t, id), d.pages[t], ByRecord(id);
    var i := FirstHit(Enter(d).log, Enter(d).snap, p, m);
    assert TableRefines(d, a, t);
    VisibleHit(d, t, m);
    KillRows(d, t, i);
    assert e.pages[t] == Kill(p, i, d.cur);
    OneLessWorking(a, d.columns, t, id);
    assert !TableRefines(e, PlainStep(a, d.columns, Delete(t, id)), t);
  }

  // The old row still shows beside the new one.
  lemma UpdateOfOwn(d: Db, a: Plain, t: string, setText: string, id: int, i: nat)
    requires Refines(d, a) && Sound(d) && t in d.pages && "id" in d.columns[t] && i < |d.pages[t]| < SLOTS
    requires i == FirstHit(Enter(d).log, Enter(d).snap, d.pages[t], ByColumn(IdColumn(d.columns[t]), id))
    requires Own(d, d.pages[t][i])
    ensures !Refines(DoUpdate(d, t, setText, id), PlainStep(a, d.columns, Update(t, setText, id)))
  {
    var p, m := d.pages[t], ByColumn(IdColumn(d.columns[t]), id);
    WorkingRows(d, a, t);
    VisibleHit(d, t, m);
    PlainUpdateIs(a, d.columns, t, setText, id, p[i].value);
    OneRowMore(d, DoUpdate(d, t, setText, id), t, i, Cut(NewRow(d.columns[t], setText, p[i].value), STORED_MAX));
    assert !TableRefines(DoUpdate(d, t, setText, id), PlainStep(a, d.columns, Update(t, setText, id)), t);
  }

  lemma OneRowMore(d: Db, e: Db, t: string, i: nat, row: string)
    requires Sound(d) && t in d.pages && i < |d.pages[t]| && Own(d, d.pages[t][i]) && Shown(d.log, d.cur, d.pages[t][i])
    requires e.log == d.log && t in e.pages && e.pages[t] == Kill(d.pages[t], i, d.cur) + [Version(d.cur, 0, row)]
    ensures |Rows(e.log, d.cur, e.pages[t])| == |Rows(d.log, d.cur, d.pages[t])| + 1
  {
    KillRows(d, t, i);
    AppendRows(d, Kill(d.pages[t], i, d.cur), row);
  }

  // On a full page the found row is lost and the new one not written.
  lemma UpdateWithoutRoom(d: Db, a: Plain, t: string, setText: string, id: int)
    requires Refines(d, a) && Sound(d) && t in d.pages && "id" in d.columns[t] && |d.pages[t]| >= SLOTS
    requires var c := Enter(d); var i := FirstHit(c.log, c.snap, d.pages[t], ByColumn(IdColumn(d.columns[t]), id));
      i < |d.pages[t]| && !Own(d, d.pages[t][i])
    ensures PlainStep(a, d.columns, Update(t, setText, id)) == a
    ensures !Refines(DoUpdate(d, t, setText, id), a)
  {
    var e, m := DoUpdate(d, t, setText, id), ByColumn(IdColumn(d.columns[t]), id);
    var i := FirstHit(Enter(d).log, Enter(d).snap, d.pages[t], m);
    WorkingRows(d, a, t);
    OneRowLess(d, t, m, i);
    UpdateNoRoomIs(d, a, t, setText, id, i);
    assert !TableRefines(e, a, t);
  }

  lemma OneRowLess(d: Db, t: string, m: Match, i: nat)
    requires Sound(d) && t in d.pages && i < |d.pages[t]| && !Own(d, d.pages[t][i])
    requires i == FirstHit(Enter(d).log, Enter(d).snap, d.pages[t], m)
    ensures |Rows(Leave(Enter(d), Committed), d.cur, Kill(d.pages[t], i, Enter(d).tx))| == |Rows(d.log, d.cur, d.pages[t])| - 1
  {
    var c, p := Enter(d), d.pages[t];
    KilledHit(d, c, p, t, m, i, Leave(c, Committed), Kill(p, i, c.tx), Rows(d.log, d.cur, p));
    VisibleHit(d, t, m);
  }

  lemma UnguardedUpdate(d: Db, a: Plain, t: string, setText: string, id: int)
    requires Refines(d, a) && Sound(d) && !Guard(d, Update(t, setText, id))
    ensures !Refines(DoUpdate(d, t, setText, id), PlainStep(a, d.columns, Update(t, setText, id)))
  {
    var i := FirstHit(Enter(d).log, Enter(d).snap, d.pages[t], ByColumn(IdColumn(d.columns[t]), id));
    if |d.pages[t]| >= SLOTS { UpdateWithoutRoom(d, a, t, setText, id); } else { UpdateOfOwn(d, a, t, setText, id, i); }
  }

  lemma UnguardedCommit(d: Db, a: Plain)
    requires Refines(d, a) && Sound(d) && !Clean(d)
    ensures !Refines(Step(d, Commit), PlainStep(a, d.columns, Commit))
  {
    var t, i :| t in d.pages && 0 <= i < |d.pages[t]| && SelfMarked(d.pages[t][i], d.cur);
    WorkingRows(d, a, t);
    CommitPublishesExactly(d, t);
    assert !TableRefines(Step(d, Commit), PlainStep(a, d.columns, Commit), t);
  }

  lemma UnguardedUndo(d: Db, a: Plain, s: Stmt)
    requires Refines(d, a) && Sound(d) && (s.Begin? || s.Rollback?) && !Guard(d, s)
    ensures !Refines(Step(d, s), PlainStep(a, d.columns, s))
  {
    var t :| t in d.pages && Rows(d.log, 0, d.pages[t]) != Rows(d.log, -d.cur, d.pages[t]);
    assert TableRefines(d, a, t);
    if s.Begin? { BegunRows(d, t); }
    assert !TableRefines(Step(d, s), PlainStep(a, d.columns, s), t);
  }

  // Within its guard a statement does what it does to the ordinary database, and outside it does not.
  lemma StepRefinesExactly(d: Db, a: Plain, s: Stmt)
    requires Refines(d, a) && Sound(d)
    ensures Guard(d, s) <==> Refines(Step(d, s), PlainStep(a, d.columns, s))
  {
    if Guard(d, s) {
      GuardedStepRefines(d, a, s);
    } else {
      match s
      case Delete(t, id) => UnguardedDelete(d, a, t, id);
      case DeleteAll(t) => UnguardedDeleteAll(d, a, t);
      case Update(t, set_, id) => UnguardedUpdate(d, a, t, set_, id);
      case Commit => UnguardedCommit(d, a);
      case Begin => UnguardedUndo(d, a, s);
      case Rollback => UnguardedUndo(d, a, s);
    }
  }

  // Outside a transaction only an UPDATE on a full page is outside its guard.
  lemma AutocommitIsGuarded(d: Db, s: Stmt)
    requires Sound(d) && d.cur == 0
    requires s.Update? && s.table in d.pages ==> |d.pages[s.table]| < SLOTS
    ensures Guard(d, s)
  {
  }

  // ----- every run -----

  ghost predicate GuardedRun(d: Db, ss: seq<Stmt>)
    decreases |ss|
  {
    ss == [] || (GuardedRun(d, ss[..|ss| - 1]) && Guard(Run(d, ss[..|ss| - 1]), ss[|ss| - 1]))
  }

  lemma {:induction false} RunSound(d: Db, ss: seq<Stmt>)
    requires Sound(d)
    ensures Sound(Run(d, ss))
    decreases |ss|
  {
    if ss != [] {
      RunSound(d, ss[..|ss| - 1]);
      StepSound(Run(d, ss[..|ss| - 1]), ss[|ss| - 1]);
    }
  }

  lemma {:induction false} RunColumns(d: Db, ss: seq<Stmt>)
    ensures Run(d, ss).columns == d.columns
    decreases |ss|
  {
    if ss != [] {
      RunColumns(d, ss[..|ss| - 1]);
    }
  }

  // A run of any length that stays within its guards is a run of the ordinary database.
  lemma {:induction false} RunRefines(d: Db, a: Plain, ss: seq<Stmt>)
    requires Refines(d, a) && Sound(d) && GuardedRun(d, ss)
    ensures Refines(Run(d, ss), PlainRun(a, d.columns, ss))
    decreases |ss|
  {
    if ss != [] {
      var ss', s := ss[..|ss| - 1], ss[|ss| - 1];
      RunRefines(d, a, ss');
      RunSound(d, ss');
      RunColumns(d, ss');
      StepRefinesExactly(Run(d, ss'), PlainRun(a, d.columns, ss'), s);
    }
  }

  function EmptyPlain(d: Db): Plain {
    var none := map t | t in d.pages :: [];
    Plain(none, none, false, map t | t in d.pages :: 0)
  }

  lemma FromTheStart(d: Db, ss: seq<Stmt>)
    requires Initial(d) && GuardedRun(d, ss)
    ensures Refines(Run(d, ss), PlainRun(EmptyPlain(d), d.columns, ss))
  {
    forall t | t in d.pages ensures TableRefines(d, EmptyPlain(d), t) {}
    RunRefines(d, EmptyPlain(d), ss);
  }

  // What SELECT prints of a table.
  function Printed(d: Db, t: string): seq<string>
    requires t in d.pages
  {
    Visible(Enter(d).log, Enter(d).snap, d.pages[t])
  }

  // do_select prints the working copy: the open transaction's rows, or the committed ones.
  lemma SelectShowsWorking(d: Db, a: Plain, t: string)
    requires Refines(d, a) && Sound(d) && t in d.pages
    ensures t in a.working && Printed(d, t) == a.working[t]
  {
    assert TableRefines(d, a, t);
    VisibleIsRows(d, d.pages[t]);
  }

  lemma {:induction false} VisibleIsRows(d: Db, p: Page)
    requires Sound(d) && forall i :: 0 <= i < |p| ==> InRange(d.log, p[i])
    ensures Visible(Enter(d).log, Enter(d).snap, p) == Rows(d.log, d.cur, p)
    decreases |p|
  {
    if p != [] {
      VisibleIsRows(d, p[..|p| - 1]);
      StatementSees(d, p[|p| - 1]);
    }
  }

  // ----- COMMIT -----

  ghost predicate SelfMarked(v: Version, tx: int) {
    v.xmin == tx && v.xmax == tx
  }

  lemma {:induction false} RowsLost(l: TxLog, cur: int, m: TxLog, p: Page)
    requires forall i :: 0 <= i < |p| ==>
      (Shown(m, 0, p[i]) <==> Shown(l, cur, p[i]) && !SelfMarked(p[i], cur)) && (SelfMarked(p[i], cur) ==> Shown(l, cur, p[i]))
    ensures |Rows(m, 0, p)| <= |Rows(l, cur, p)|
    ensures |Rows(m, 0, p)| == |Rows(l, cur, p)| <==> forall i :: 0 <= i < |p| ==> !SelfMarked(p[i], cur)
  {
    if p != [] { RowsLost(l, cur, m, p[..|p| - 1]); }
  }

  // COMMIT publishes a table's working copy if and only if the transaction marked no row of its own there.
  lemma CommitPublishesExactly(d: Db, t: string)
    requires Sound(d) && d.cur != 0 && t in d.pages
    ensures Rows(Step(d, Commit).log, 0, d.pages[t]) == Rows(d.log, d.cur, d.pages[t]) <==>
      forall i :: 0 <= i < |d.pages[t]| ==> !SelfMarked(d.pages[t][i], d.cur)
  {
    var l, p := Step(d, Commit).log, d.pages[t];
    RowsLost(d.log, d.cur, l, p);
    if forall i :: 0 <= i < |p| ==> !SelfMarked(p[i], d.cur) { RowsAgree(l, 0, d.log, d.cur, p, p); }
  }

  // ----- inside a transaction -----

  predicate Inside(s: Stmt) {
    !s.Begin? && !s.Commit? && !s.Rollback?
  }

  lemma InsideStep(d: Db, s: Stmt)
    requires Inside(s)
    ensures Within(d, Step(d, s))
  {
  }

  // How a statement of an open transaction leaves a page: old versions, some of them that the
  // transaction saw marked, and new ones of its own.
  ghost predicate Edited(d: Db, p: Page, q: Page) {
    && |q| >= |p|
    && (forall i :: 0 <= i < |p| && q[i] != p[i] ==> q[i] == Killed(p[i], d.cur) && Shown(d.log, d.cur, p[i]))
    && (forall i :: |p| <= i < |q| ==> q[i].xmin == d.cur)
  }

  lemma OpenStepEdits(d: Db, s: Stmt, t: string)
    requires Sound(d) && d.cur != 0 && Inside(s) && t in d.pages
    ensures Step(d, s).cur == d.cur && Step(d, s).log == d.log && t in Step(d, s).pages
    ensures Edited(d, d.pages[t], Step(d, s).pages[t])
  {
    InsideStep(d, s);
    if !Writes(s, t) { LeavesTable(d, s, t); } else { OpenWriteEdits(d, s, t); }
  }

  lemma OpenWriteEdits(d: Db, s: Stmt, t: string)
    requires Sound(d) && d.cur != 0 && Writes(s, t) && t in d.pages
    ensures Edited(d, d.pages[t], Step(d, s).pages[t])
  {
    PageSeen(d, t);
    if s.Update? { UpdateEdits(d, t, s.setText, s.id); }
    else if s.Insert? { InsertEdits(d, t, s.value); }
    else if s.Delete? { DeleteEdits(d, t, s.id); }
    else { DeleteAllEdits(d, t); }
  }

  lemma InsertEdits(d: Db, t: string, value: string)
    requires d.cur != 0 && t in d.pages
    ensures Edited(d, d.pages[t], DoInsert(d, t, value).pages[t])
  {
  }

  lemma DeleteEdits(d: Db, t: string, id: int)
    requires d.cur != 0 && t in d.pages && SeenAlike(d.log, d.snap, d.log, d.cur, d.pages[t])
    ensures Edited(d, d.pages[t], DoDelete(d, t, id).pages[t])
  {
    var p := d.pages[t];
    var i := FirstHit(d.log, d.snap, p, ByRecord(id));
    if i < |p| { ReplacedEdits(d, p, i, Kill(p, i, d.cur)); }
  }

  lemma DeleteAllEdits(d: Db, t: string)
    requires d.cur != 0 && t in d.pages && SeenAlike(d.log, d.snap, d.log, d.cur, d.pages[t])
    ensures Edited(d, d.pages[t], DoDeleteAll(d, t).pages[t])
  {
  }

  lemma UpdateEdits(d: Db, t: string, setText: string, id: int)
    requires Sound(d) && d.cur != 0 && t in d.pages && SeenAlike(d.log, d.snap, d.log, d.cur, d.pages[t])
    ensures Edited(d, d.pages[t], DoUpdate(d, t, setText, id).pages[t])
  {
    if "id" in d.columns[t] {
      var p := d.pages[t];
      var i := FirstHit(d.log, d.snap, p, ByColumn(IdColumn(d.columns[t]), id));
      if i < |p| {
        UpdateWrites(d, t, setText, id, i);
        ReplacedEdits(d, p, i, DoUpdate(d, t, setText, id).pages[t]);
      }
    }
  }

  lemma ReplacedEdits(d: Db, p: Page, i: nat, q: Page)
    requires i < |p| && Shown(d.log, d.cur, p[i]) && Kill(p, i, d.cur) <= q
    requires |q| <= |p| + 1 && (|q| == |p| + 1 ==> q[|p|].xmin == d.cur)
    ensures Edited(d, p, q)
  {
    assert forall j :: 0 <= j < |p| ==> q[j] == Kill(p, i, d.cur)[j];
  }

  // Whatever a transaction does, guarded or not, the committed rows of every table stay as they are.
  lemma OpenKeepsCommitted(d: Db, s: Stmt, t: string)
    requires Sound(d) && d.cur != 0 && Inside(s) && t in d.pages
    ensures Step(d, s).cur == d.cur && Step(d, s).log == d.log && t in Step(d, s).pages
    ensures Rows(d.log, -d.cur, Step(d, s).pages[t]) == Rows(d.log, -d.cur, d.pages[t])
  {
    OpenStepEdits(d, s, t);
    EditKeepsCommitted(d, t, Step(d, s).pages[t]);
  }

  lemma EditKeepsCommitted(d: Db, t: string, q: Page)
    requires Sound(d) && d.cur != 0 && t in d.pages && Edited(d, d.pages[t], q)
    ensures Rows(d.log, -d.cur, q) == Rows(d.log, -d.cur, d.pages[t])
  {
    var p := d.pages[t];
    var n := |p|;
    assert q == q[..n] + q[n..];
    RowsAppend(d.log, -d.cur, q[..n], q[n..]);
    NoRows(d.log, -d.cur, q[n..]);
    forall i | 0 <= i < n ensures q[..n][i].value == p[i].value && Shown(d.log, -d.cur, q[..n][i]) == Shown(d.log, -d.cur, p[i]) {
      if q[i] != p[i] { KilledIsHidden(d, p[i]); }
    }
    RowsAgree(d.log, -d.cur, d.log, -d.cur, q[..n], p);
  }

  lemma {:induction false} BodyKeepsCommitted(d: Db, body: seq<Stmt>, t: string)
    requires Sound(d) && d.cur != 0 && t in d.pages && forall s :: s in body ==> Inside(s)
    ensures var e := Run(d, body); e.cur == d.cur && e.log == d.log && Sound(e) && t in e.pages
    ensures Rows(d.log, -d.cur, Run(d, body).pages[t]) == Rows(d.log, -d.cur, d.pages[t])
    decreases |body|
  {
    if body != [] {
      BodyKeepsCommitted(d, body[..|body| - 1], t);
      var e, s := Run(d, body[..|body| - 1]), body[|body| - 1];
      OpenKeepsCommitted(e, s, t);
      StepSound(e, s);
    }
  }

  // ----- one table -----

  predicate IsWrite(s: Stmt) {
    s.Insert? || s.Update? || s.Delete? || s.DeleteAll?
  }

  predicate Writes(s: Stmt, t: string) {
    IsWrite(s) && s.table == t
  }

  // A statement on other tables leaves table t alone.
  lemma LeavesTable(d: Db, s: Stmt, t: string)
    requires t in d.pages && Inside(s) && !Writes(s, t)
    ensures Within(d, Step(d, s)) && Step(d, s).pages[t] == d.pages[t]
  {
    match s
    case Insert(u, v) => assert DoInsert(d, u, v).pages[t] == d.pages[t];
    case Update(u, set_, id) => UpdateLeaves(d, u, set_, id, t);
    case Delete(u, id) => assert DoDelete(d, u, id).pages[t] == d.pages[t];
    case DeleteAll(u) => assert DoDeleteAll(d, u).pages[t] == d.pages[t];
    case _ =>
  }

  lemma UpdateLeaves(d: Db, u: string, setText: string, id: int, t: string)
    requires t in d.pages && u != t
    ensures DoUpdate(d, u, setText, id).pages[t] == d.pages[t]
  {
  }

  lemma {:induction false} SamePages(d: Db, body: seq<Stmt>)
    ensures Run(d, body).pages.Keys == d.pages.Keys
    decreases |body|
  {
    if body != [] {
      SamePages(d, body[..|body| - 1]);
    }
  }

  // ----- files -----

  lemma {:induction false} FilesStay(d: Db, ss: seq<Stmt>)
    ensures Run(d, ss).strays == d.strays && Run(d, ss).db == d.db
    decreases |ss|
  {
    if ss != [] {
      FilesStay(d, ss[..|ss| - 1]);
    }
  }

  // A path is in one directory.
  lemma OneDirectory(db: string, other: string, t: string)
    requires '/' !in db && '/' !in other
    ensures Under(db, PathOf(other, t)) <==> db == other
  {
    var path := PathOf(other, t);
    assert path[|other|] == '/' && path[..|other|] == other;
    if Under(db, path) {
      assert path[|db|] == (db + "/")[|db|] == '/';
      assert forall i :: 0 <= i < |db| ==> path[i] == (db + "/")[i] == db[i];
      assert |db| >= |other|;
      assert |db| <= |other|;
      assert db == path[..|db|];
    }
  }

  lemma OwnFile(d: Db, t: string)
    requires t in d.pages
    ensures FileAt(d, PathOf(d.db, t)) == File(d.pages[t])
  {
    var path := PathOf(d.db, t);
    assert path[..|d.db| + 1] == d.db + "/" && path[|d.db| + 1..] == t;
  }
}
