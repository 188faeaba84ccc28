// The indexed lookup against the full scan, over every run: of the slots of an id that were not rolled
// back, the newest is the last to die.
module SessionLookup {
  import opened Mvcc
  import opened RowCodec
  import opened Session
  import opened SessionRefinement
  import opened SessionProperties
  import opened SessionIndex

  predicate Mine(cur: int, v: Version) {
    cur != 0 && v.xmin == cur
  }

  // Visible now, and visible once the open transaction commits.
  predicate Stays(l: TxLog, cur: int, v: Version) {
    Shown(l, cur, v) && !(Mine(cur, v) && v.xmax == cur)
  }

  // Inserted by a transaction that was rolled back, or abandoned by another BEGIN.
  predicate Dead(l: TxLog, cur: int, v: Version) {
    !IsCommittedIn(l, v.xmin) && v.xmin != cur
  }

  // Slot j, unless dead, outlives the earlier slot i of the same id: now, after COMMIT and, if it is not
  // the transaction's own, after ROLLBACK.
  ghost predicate Outlives(l: TxLog, cur: int, p: Page, i: nat, j: nat)
    requires i < j < |p|
  {
    && p[i].xmin <= p[j].xmin
    && (KeyAt(p, i) == KeyAt(p, j) && KeyAt(p, i) > 0 && !Dead(l, cur, p[j]) ==>
        && (Shown(l, cur, p[i]) ==> Shown(l, cur, p[j]))
        && (Stays(l, cur, p[i]) ==> Stays(l, cur, p[j]))
        && (Shown(l, -cur, p[i]) && !Mine(cur, p[j]) ==> Shown(l, -cur, p[j])))
  }

  ghost predicate Ordered(l: TxLog, cur: int, p: Page) {
    forall i: nat, j: nat {:trigger Outlives(l, cur, p, i, j)} :: i < j < |p| ==> Outlives(l, cur, p, i, j)
  }

  // The id column of a record agrees with atoi of the whole record, as it does when id comes first.
  predicate Keyed(columns: seq<string>, value: string) {
    "id" in columns ==> IdColumn(columns) < MAX_COLUMNS && Atoi(Split(value)[IdColumn(columns)]) == Atoi(value)
  }

  ghost predicate TableOrdered(d: Db, t: string) {
    && t in d.pages && t in d.columns
    && Ordered(d.log, d.cur, d.pages[t])
    && forall i :: 0 <= i < |d.pages[t]| ==> Keyed(d.columns[t], d.pages[t][i].value)
  }

  // The records a statement stores in table t are keyed.
  predicate StoresKeyed(d: Db, s: Stmt, t: string) {
    match s
    case Insert(u, v) => u == t && t in d.columns ==> Keyed(d.columns[t], Cut(v, STORED_MAX))
    case Update(u, set_, id) =>
      u == t && t in d.pages && t in d.columns && "id" in d.columns[t] ==>
        var c, p, cols := Enter(d), d.pages[t], d.columns[t];
        var i := FirstHit(c.log, c.snap, p, ByColumn(IdColumn(cols), id));
        i < |p| ==> Keyed(cols, Cut(NewRow(cols, set_, p[i].value), STORED_MAX))
    case _ => true
  }

  // ----- what the statements do to the order -----

  // The version looks under m as it did under l, in every way that matters to the order.
  predicate Alike(l: TxLog, m: TxLog, cur: int, v: Version) {
    && Shown(m, cur, v) == Shown(l, cur, v) && Stays(m, cur, v) == Stays(l, cur, v)
    && Shown(m, -cur, v) == Shown(l, -cur, v) && Dead(m, cur, v) == Dead(l, cur, v)
  }

  lemma SameOrder(l: TxLog, m: TxLog, cur: int, p: Page)
    requires Ordered(l, cur, p)
    requires forall i {:trigger p[i]} :: 0 <= i < |p| ==> Alike(l, m, cur, p[i])
    ensures Ordered(m, cur, p)
  {
    forall i: nat, j: nat | i < j < |p| ensures Outlives(m, cur, p, i, j) { assert Outlives(l, cur, p, i, j); }
  }

  // At a transaction boundary what shows afterwards is what stays, or what was committed.
  lemma BoundaryOrder(l: TxLog, cur: int, m: TxLog, cur': int, p: Page, stays: bool)
    requires Ordered(l, cur, p)
    requires forall i {:trigger p[i]} :: 0 <= i < |p| ==>
      && !Mine(cur', p[i])
      && Shown(m, cur', p[i]) == Shown(m, -cur', p[i]) == if stays then Stays(l, cur, p[i]) else Shown(l, -cur, p[i])
    requires forall i {:trigger p[i]} :: 0 <= i < |p| && !Dead(m, cur', p[i]) ==>
      !Dead(l, cur, p[i]) && (stays || !Mine(cur, p[i]))
    ensures Ordered(m, cur', p)
  {
    forall i: nat, j: nat | i < j < |p| ensures Outlives(m, cur', p, i, j) { assert Outlives(l, cur, p, i, j); }
  }

  lemma AppendOrder(l: TxLog, cur: int, p: Page, v: Version)
    requires Ordered(l, cur, p) && Stays(l, cur, v) && (cur != 0 ==> v.xmin == cur)
    requires forall i :: 0 <= i < |p| ==> p[i].xmin <= v.xmin
    ensures Ordered(l, cur, p + [v])
  {
    var q := p + [v];
    forall i: nat, j: nat | i < j < |q| ensures Outlives(l, cur, q, i, j) {
      if j < |p| { assert Outlives(l, cur, p, i, j); }
    }
  }

  // The first visible slot of an id is marked: no earlier slot of that id was visible.
  lemma KillOrder(l: TxLog, cur: int, m: TxLog, p: Page, i: nat, tx: int)
    requires Ordered(l, cur, p) && i < |p| && Shown(l, cur, p[i])
    requires forall j :: 0 <= j < i && KeyAt(p, j) == KeyAt(p, i) ==> !Shown(l, cur, p[j])
    requires forall j {:trigger p[j]} :: 0 <= j < |p| ==> Alike(l, m, cur, p[j])
    requires !Stays(m, cur, Killed(p[i], tx))
    requires cur != 0 ==> Shown(m, -cur, Killed(p[i], tx)) == Shown(l, -cur, p[i])
    ensures Ordered(m, cur, Kill(p, i, tx))
  {
    var q := Kill(p, i, tx);
    forall a: nat, b: nat | a < b < |q| ensures Outlives(m, cur, q, a, b) {
      assert Outlives(l, cur, p, a, b);
      assert KeyAt(q, a) == KeyAt(p, a) && KeyAt(q, b) == KeyAt(p, b);
    }
  }

  // All visible slots are marked; those of the transaction's own, which come last, keep showing.
  lemma KillAllOrder(l: TxLog, cur: int, m: TxLog, p: Page, q: Page, tx: int)
    requires Ordered(l, cur, p) && |q| == |p|
    requires forall j {:trigger q[j]} :: 0 <= j < |p| ==>
      && q[j] == (if Shown(l, cur, p[j]) then Killed(p[j], tx) else p[j])
      && !Stays(m, cur, q[j]) && p[j].xmin <= tx && Dead(m, cur, q[j]) == Dead(l, cur, p[j])
      && (Shown(m, cur, q[j]) <==> Shown(l, cur, p[j]) && Mine(cur, p[j]))
      && (cur != 0 ==> Shown(m, -cur, q[j]) == Shown(l, -cur, p[j]))
    requires cur != 0 ==> cur == tx
    ensures Ordered(m, cur, q)
  {
    forall a: nat, b: nat | a < b < |q| ensures Outlives(m, cur, q, a, b) {
      assert Outlives(l, cur, p, a, b);
      assert q[a].value == p[a].value && q[b].value == p[b].value;
      assert KeyAt(q, a) == KeyAt(p, a) && KeyAt(q, b) == KeyAt(p, b);
    }
  }

  // ----- one statement -----

  lemma LeaveShows(d: Db, p: Page, s: Status)
    requires Sound(d) && forall i :: 0 <= i < |p| ==> InRange(d.log, p[i])
    ensures forall i {:trigger p[i]} :: 0 <= i < |p| ==> Alike(d.log, Leave(Enter(d), s), d.cur, p[i])
  {
    forall i | 0 <= i < |p| ensures Alike(d.log, Leave(Enter(d), s), d.cur, p[i]) {
      StatementKeeps(d, p[i], s, d.cur);
      StatementKeeps(d, p[i], s, -d.cur);
    }
  }

  // The page of t is left alone.
  lemma QuietOrdered(d: Db, e: Db, t: string, s: Status)
    requires Sound(d) && TableOrdered(d, t) && (e.log == d.log || e.log == Leave(Enter(d), s))
    requires e.cur == d.cur && e.columns == d.columns && t in e.pages && e.pages[t] == d.pages[t]
    ensures TableOrdered(e, t)
  {
    if e.log != d.log {
      LeaveShows(d, d.pages[t], s);
      SameOrder(d.log, e.log, d.cur, d.pages[t]);
    }
  }

  lemma NewStays(d: Db, value: string)
    requires Sound(d)
    ensures Stays(Leave(Enter(d), Committed), d.cur, Version(Enter(d).tx, 0, value))
  {
    NewIsShown(d, value);
  }

  lemma InsertOrdered(d: Db, t: string, value: string)
    requires Sound(d) && TableOrdered(d, t) && StoresKeyed(d, Insert(t, value), t)
    ensures TableOrdered(DoInsert(d, t, value), t)
  {
    var e, p, c := DoInsert(d, t, value), d.pages[t], Enter(d);
    if |p| >= SLOTS {
      QuietOrdered(d, e, t, Aborted);
    } else {
      LeaveShows(d, p, Committed);
      SameOrder(d.log, e.log, d.cur, p);
      NewStays(d, Cut(value, STORED_MAX));
      AppendOrder(e.log, e.cur, p, Version(c.tx, 0, Cut(value, STORED_MAX)));
    }
  }

  // The first hit by id is the first visible slot with its key.
  lemma HitIsFirstOfKey(d: Db, t: string, m: Match, i: nat)
    requires Sound(d) && TableOrdered(d, t) && i < |d.pages[t]|
    requires m.ByRecord? || (m == ByColumn(IdColumn(d.columns[t]), m.id) && "id" in d.columns[t])
    requires i == FirstHit(Enter(d).log, Enter(d).snap, d.pages[t], m)
    ensures Shown(d.log, d.cur, d.pages[t][i])
    ensures forall j :: 0 <= j < i && KeyAt(d.pages[t], j) == KeyAt(d.pages[t], i) ==> !Shown(d.log, d.cur, d.pages[t][j])
  {
    var p := d.pages[t];
    PageSeen(d, t);
    forall j | 0 <= j <= i ensures Matches(m, p[j].value) <==> KeyAt(p, j) == m.id {
      assert Keyed(d.columns[t], p[j].value);
    }
  }

  lemma HitOrdered(d: Db, t: string, m: Match, i: nat)
    requires Sound(d) && TableOrdered(d, t) && i < |d.pages[t]|
    requires m.ByRecord? || (m == ByColumn(IdColumn(d.columns[t]), m.id) && "id" in d.columns[t])
    requires i == FirstHit(Enter(d).log, Enter(d).snap, d.pages[t], m)
    ensures Ordered(Leave(Enter(d), Committed), d.cur, Kill(d.pages[t], i, Enter(d).tx))
  {
    HitIsFirstOfKey(d, t, m, i);
    LeaveShows(d, d.pages[t], Committed);
    KilledIsHidden(d, d.pages[t][i]);
    KillOrder(d.log, d.cur, Leave(Enter(d), Committed), d.pages[t], i, Enter(d).tx);
  }

  lemma DeleteOrdered(d: Db, t: string, id: int)
    requires Sound(d) && TableOrdered(d, t)
    ensures TableOrdered(DoDelete(d, t, id), t)
  {
    var i := FirstHit(Enter(d).log, Enter(d).snap, d.pages[t], ByRecord(id));
    if i < |d.pages[t]| {
      HitOrdered(d, t, ByRecord(id), i);
    } else {
      QuietOrdered(d, DoDelete(d, t, id), t, Committed);
    }
  }

  lemma DeleteAllOrdered(d: Db, t: string)
    requires Sound(d) && TableOrdered(d, t)
    ensures TableOrdered(DoDeleteAll(d, t), t)
  {
    var e, p, c := DoDeleteAll(d, t), d.pages[t], Enter(d);
    LeaveShows(d, p, Committed);
    forall j | 0 <= j < |p|
      ensures e.pages[t][j] == (if Shown(d.log, d.cur, p[j]) then Killed(p[j], c.tx) else p[j])
      ensures !Stays(e.log, d.cur, e.pages[t][j]) && p[j].xmin <= c.tx
      ensures Dead(e.log, d.cur, e.pages[t][j]) == Dead(d.log, d.cur, p[j])
      ensures Shown(e.log, d.cur, e.pages[t][j]) <==> Shown(d.log, d.cur, p[j]) && Mine(d.cur, p[j])
      ensures d.cur != 0 ==> Shown(e.log, -d.cur, e.pages[t][j]) == Shown(d.log, -d.cur, p[j])
    {
      StatementSees(d, p[j]);
      if Shown(d.log, d.cur, p[j]) { KilledIsHidden(d, p[j]); }
    }
    KillAllOrder(d.log, d.cur, e.log, p, e.pages[t], c.tx);
  }

  lemma UpdateOrdered(d: Db, t: string, setText: string, id: int)
    requires Sound(d) && TableOrdered(d, t) && "id" in d.columns[t] && StoresKeyed(d, Update(t, setText, id), t)
    ensures TableOrdered(DoUpdate(d, t, setText, id), t)
  {
    var c, p, cols := Enter(d), d.pages[t], d.columns[t];
    var i := FirstHit(c.log, c.snap, p, ByColumn(IdColumn(cols), id));
    if i < |p| {
      var v := Version(c.tx, 0, Cut(NewRow(cols, setText, p[i].value), STORED_MAX));
      UpdateWrites(d, t, setText, id, i);
      ReplaceOrdered(d, DoUpdate(d, t, setText, id), t, ByColumn(IdColumn(cols), id), i, v);
    } else {
      QuietOrdered(d, DoUpdate(d, t, setText, id), t, Committed);
    }
  }

  lemma ReplaceOrdered(d: Db, e: Db, t: string, m: Match, i: nat, v: Version)
    requires Sound(d) && TableOrdered(d, t) && i < |d.pages[t]| && "id" in d.columns[t]
    requires m == ByColumn(IdColumn(d.columns[t]), m.id) && i == FirstHit(Enter(d).log, Enter(d).snap, d.pages[t], m)
    requires v.xmin == Enter(d).tx && v.xmax == 0 && Keyed(d.columns[t], v.value)
    requires var q := Kill(d.pages[t], i, Enter(d).tx); e.pages == d.pages[t := if |q| >= SLOTS then q else q + [v]]
    requires e.log == Leave(Enter(d), Committed) && e.cur == d.cur && e.columns == d.columns
    ensures TableOrdered(e, t)
  {
    ReplacedOrder(d, t, m, i, v, e.pages[t], e.log);
  }

  lemma ReplacedOrder(d: Db, t: string, m: Match, i: nat, v: Version, r: Page, l: TxLog)
    requires Sound(d) && TableOrdered(d, t) && i < |d.pages[t]| && "id" in d.columns[t]
    requires m == ByColumn(IdColumn(d.columns[t]), m.id) && i == FirstHit(Enter(d).log, Enter(d).snap, d.pages[t], m)
    requires v.xmin == Enter(d).tx && v.xmax == 0 && l == Leave(Enter(d), Committed)
    requires var q := Kill(d.pages[t], i, Enter(d).tx); r == if |q| >= SLOTS then q else q + [v]
    ensures Ordered(l, d.cur, r)
  {
    var q := Kill(d.pages[t], i, Enter(d).tx);
    HitOrdered(d, t, m, i);
    if |q| < SLOTS {
      NewStays(d, v.value);
      AppendOrder(l, d.cur, q, v);
    }
  }

  lemma BoundaryOrdered(d: Db, s: Stmt, t: string)
    requires Sound(d) && TableOrdered(d, t) && (s.Begin? || (d.cur != 0 && (s.Commit? || s.Rollback?)))
    ensures TableOrdered(Step(d, s), t)
  {
    var e := Step(d, s);
    BoundaryOrder(d.log, d.cur, e.log, e.cur, d.pages[t], s.Commit? || d.cur > MAX_TX);
  }

  lemma OtherOrdered(d: Db, s: Stmt, t: string)
    requires Sound(d) && TableOrdered(d, t) && Inside(s) && !Writes(s, t)
    ensures TableOrdered(Step(d, s), t)
  {
    LeavesTable(d, s, t);
    QuietOrdered(d, Step(d, s), t, if Step(d, s).log == Leave(Enter(d), Committed) then Committed else Aborted);
  }

  // Whatever it undoes, a statement that stores keyed rows, or writes other tables, keeps the order.
  lemma StepOrdered(d: Db, s: Stmt, t: string)
    requires Sound(d) && TableOrdered(d, t) && StoresKeyed(d, s, t)
    ensures TableOrdered(Step(d, s), t)
  {
    if !Inside(s) {
      if s.Begin? || d.cur != 0 { BoundaryOrdered(d, s, t); }
    } else if !Writes(s, t) {
      OtherOrdered(d, s, t);
    } else {
      match s
      case Insert(_, v) => InsertOrdered(d, t, v);
      case Update(_, set_, id) => if "id" in d.columns[t] { UpdateOrdered(d, t, set_, id); }
      case Delete(_, id) => DeleteOrdered(d, t, id);
      case DeleteAll(_) => DeleteAllOrdered(d, t);
    }
  }

  // ----- the lookup against the scan -----

  ghost predicate ScanFinds(d: Db, t: string, id: int)
    requires t in d.pages
  {
    exists r :: r in Visible(Enter(d).log, Enter(d).snap, d.pages[t]) && Atoi(r) == id
  }

  // Of a table that has an index the lookup shows a row of this id exactly when the scan does.
  ghost predicate LookupAgrees(d: Db, t: string, id: int)
    requires t in d.pages
  {
    HasIndex(d, t) ==> (LookupId(d, t, id).Shows? <==> ScanFinds(d, t, id))
  }

  // The newest slot of the id was neither rolled back nor abandoned.
  ghost predicate NewestLives(l: TxLog, cur: int, p: Page, id: int) {
    forall j: nat {:trigger Newest(p, id, j)} :: Newest(p, id, j) ==> !Dead(l, cur, p[j])
  }

  lemma ScanFindsSlot(d: Db, t: string, id: int)
    requires Sound(d) && t in d.pages
    ensures ScanFinds(d, t, id) <==> exists i :: 0 <= i < |d.pages[t]| && KeyAt(d.pages[t], i) == id && Shown(d.log, d.cur, d.pages[t][i])
  {
    var c, p := Enter(d), d.pages[t];
    if ScanFinds(d, t, id) {
      var r :| r in Visible(c.log, c.snap, p) && Atoi(r) == id;
      VisibleIsSeen(c.log, c.snap, p, r);
      var i :| 0 <= i < |p| && Sees(c.log, p[i].Head(), c.snap) && p[i].value == r;
      StatementSees(d, p[i]);
      assert KeyAt(p, i) == id;
    }
    if i :| 0 <= i < |p| && KeyAt(p, i) == id && Shown(d.log, d.cur, p[i]) {
      StatementSees(d, p[i]);
      SeenIsVisible(c.log, c.snap, p, i);
    }
  }

  lemma {:induction false} NewestOf(p: Page, n: nat, id: int)
    requires n <= |p| && forall j {:trigger KeyAt(p, j)} :: n <= j < |p| ==> KeyAt(p, j) != id
    requires exists i :: 0 <= i < |p| && KeyAt(p, i) == id
    ensures exists j: nat :: Newest(p, id, j)
    decreases n
  {
    if n > 0 && KeyAt(p, n - 1) == id { assert Newest(p, id, n - 1); } else { NewestOf(p, n - 1, id); }
  }

  // Ordered slots: the newest one, unless dead, shows if any does.
  lemma NewestShows(l: TxLog, cur: int, p: Page, id: int, i: nat, j: nat)
    requires Ordered(l, cur, p) && id > 0 && Newest(p, id, j) && !Dead(l, cur, p[j])
    requires i < |p| && KeyAt(p, i) == id && Shown(l, cur, p[i])
    ensures Shown(l, cur, p[j])
  {
    assert KeyAt(p, j) == id;
    if i < j { assert Outlives(l, cur, p, i, j); }
  }

  lemma DeadIsHidden(l: TxLog, cur: int, v: Version)
    requires ValidLog(l) && cur >= 0 && Dead(l, cur, v)
    ensures !Shown(l, cur, v)
  {
  }

  // For every such state: the lookup is as good as the scan, unless the newest slot of the id was
  // rolled back or abandoned and an older one is visible.
  lemma LookupAgreesExactly(d: Db, t: string, id: int)
    requires Sound(d) && TableOrdered(d, t) && Indexed(d, t) && id > 0
    ensures LookupAgrees(d, t, id) <==>
      (HasIndex(d, t) && ScanFinds(d, t, id) ==> NewestLives(d.log, d.cur, d.pages[t], id))
  {
    if HasIndex(d, t) {
      var c, p := Enter(d), d.pages[t];
      LookupIsSound(d, t, id);
      ScanFindsSlot(d, t, id);
      if i :| 0 <= i < |p| && KeyAt(p, i) == id && Shown(d.log, d.cur, p[i]) {
        NewestOf(p, |p|, id);
        var j: nat :| Newest(p, id, j);
        forall k: nat | Newest(p, id, k) ensures k == j { assert KeyAt(p, k) == id && KeyAt(p, j) == id; }
        StatementSees(d, p[j]);
        if Dead(d.log, d.cur, p[j]) { DeadIsHidden(d.log, d.cur, p[j]); } else { NewestShows(d.log, d.cur, p, id, i, j); }
      }
    }
  }

  // ----- every run -----

  // Every statement that writes table t stores keyed rows and enters their keys.
  ghost predicate KeyedRun(d: Db, ss: seq<Stmt>, t: string)
    decreases |ss|
  {
    ss == [] ||
    (KeyedRun(d, ss[..|ss| - 1], t) &&
     var e, s := Run(d, ss[..|ss| - 1]), ss[|ss| - 1];
     StoresKeyed(e, s, t) && StoresItsKey(e, s, t))
  }

  lemma {:induction false} RunOrdered(d: Db, ss: seq<Stmt>, t: string)
    requires Sound(d) && TableOrdered(d, t) && Indexed(d, t) && KeyedRun(d, ss, t)
    ensures Sound(Run(d, ss)) && TableOrdered(Run(d, ss), t) && Indexed(Run(d, ss), t)
    decreases |ss|
  {
    if ss != [] {
      var e, s := Run(d, ss[..|ss| - 1]), ss[|ss| - 1];
      RunOrdered(d, ss[..|ss| - 1], t);
      StepSound(e, s);
      StepOrdered(e, s, t);
      StepIndexed(e, s, t);
    }
  }

  lemma StartsOrdered(d: Db, t: string)
    requires Initial(d) && t in d.pages
    ensures Sound(d) && TableOrdered(d, t) && Indexed(d, t) && Settled(d, t)
  {
  }

  // From the start, through any rollbacks and whatever happens to other tables: exactly when the lookup
  // agrees with the scan.
  lemma LookupInEveryRun(d: Db, ss: seq<Stmt>, t: string, id: int)
    requires Initial(d) && KeyedRun(d, ss, t) && t in d.pages && id > 0
    ensures t in Run(d, ss).pages
    ensures var e := Run(d, ss);
      LookupAgrees(e, t, id) <==> (HasIndex(e, t) && ScanFinds(e, t, id) ==> NewestLives(e.log, e.cur, e.pages[t], id))
  {
    StartsOrdered(d, t);
    RunOrdered(d, ss, t);
    LookupAgreesExactly(Run(d, ss), t, id);
  }

  // ----- ROLLBACK, seen from before it -----

  // What is visible after ROLLBACK.
  predicate Survives(d: Db, v: Version) {
    if d.cur <= MAX_TX then Shown(d.log, -d.cur, v) else Stays(d.log, d.cur, v)
  }

  lemma AfterRollback(d: Db, v: Version)
    requires Sound(d) && d.cur != 0 && InRange(d.log, v)
    ensures var l := Step(d, Rollback).log; Shown(l, 0, v) == Survives(d, v) && Dead(l, 0, v) == !IsCommittedIn(d.log, v.xmin)
  {
  }

  ghost predicate AnySurvives(d: Db, p: Page, id: int) {
    exists i :: 0 <= i < |p| && KeyAt(p, i) == id && Survives(d, p[i])
  }

  // The newest slot of the id was inserted by a committed transaction, or by one without an entry.
  ghost predicate NewestCommitted(l: TxLog, p: Page, id: int) {
    forall j: nat {:trigger Newest(p, id, j)} :: Newest(p, id, j) ==> IsCommittedIn(l, p[j].xmin)
  }

  lemma RolledBackState(d: Db, e: Db, t: string)
    requires Sound(d) && TableOrdered(d, t) && Indexed(d, t) && d.cur != 0 && e == Step(d, Rollback)
    ensures Sound(e) && TableOrdered(e, t) && Indexed(e, t) && e.cur == 0 && e.pages == d.pages && e.index == d.index
    ensures e.log == Step(d, Rollback).log
  {
    StepSound(d, Rollback);
    StepOrdered(d, Rollback, t);
    StepIndexed(d, Rollback, t);
  }

  // After ROLLBACK the lookup of an id agrees with the scan exactly when no slot of the id survives or
  // the newest one was not inserted by a transaction that is undone, now or before.
  lemma RollbackLookupExactly(d: Db, t: string, id: int)
    requires Sound(d) && TableOrdered(d, t) && Indexed(d, t) && d.cur != 0 && id > 0
    ensures LookupAgrees(Step(d, Rollback), t, id) <==>
      (HasIndex(d, t) && AnySurvives(d, d.pages[t], id) ==> NewestCommitted(d.log, d.pages[t], id))
  {
    var e, p := Step(d, Rollback), d.pages[t];
    RolledBackState(d, e, t);
    LookupAgreesExactly(e, t, id);
    ScanFindsSlot(e, t, id);
    forall i | 0 <= i < |p|
      ensures Shown(e.log, 0, p[i]) == Survives(d, p[i]) && Dead(e.log, 0, p[i]) == !IsCommittedIn(d.log, p[i].xmin)
    {
      AfterRollback(d, p[i]);
    }
  }

  // ----- runs that undo nothing that was done to the table -----

  predicate Wrote(tx: int, p: Page) {
    exists i :: 0 <= i < |p| && (p[i].xmin == tx || p[i].xmax == tx)
  }

  // No open transaction that has an entry and wrote to t is rolled back or abandoned.
  predicate NoUndo(d: Db, s: Stmt, t: string) {
    0 < d.cur <= MAX_TX && t in d.pages && Wrote(d.cur, d.pages[t]) ==> !s.Rollback? && !s.Begin?
  }

  ghost predicate PlainRunOf(d: Db, ss: seq<Stmt>, t: string)
    decreases |ss|
  {
    ss == [] || (PlainRunOf(d, ss[..|ss| - 1], t) && NoUndo(Run(d, ss[..|ss| - 1]), ss[|ss| - 1], t))
  }

  // Every id on the page of t belongs to a committed transaction or to the open one.
  ghost predicate Settled(d: Db, t: string) {
    t in d.pages && forall i :: 0 <= i < |d.pages[t]| ==>
      var v := d.pages[t][i];
      && (IsCommittedIn(d.log, v.xmin) || v.xmin == d.cur)
      && (v.xmax == 0 || IsCommittedIn(d.log, v.xmax) || v.xmax == d.cur)
  }

  lemma ContinuesSettled(d: Db, t: string, q: Page, e: Db, s: Status)
    requires Sound(d) && Settled(d, t) && Continues(d, t, q) && e.cur == d.cur && t in e.pages && e.pages[t] == q
    requires e.log == Leave(Enter(d), s) && (s == Committed || q == d.pages[t])
    ensures Settled(e, t)
  {
  }

  lemma BoundarySettled(d: Db, s: Stmt, t: string)
    requires Sound(d) && Settled(d, t) && NoUndo(d, s, t) && !Inside(s)
    ensures Settled(Step(d, s), t)
  {
  }

  lemma OtherSettled(d: Db, s: Stmt, t: string)
    requires Sound(d) && Settled(d, t) && Inside(s) && !Writes(s, t)
    ensures Settled(Step(d, s), t)
  {
    var e := Step(d, s);
    LeavesTable(d, s, t);
    if e.log == Leave(Enter(d), Committed) { ContinuesSettled(d, t, d.pages[t], e, Committed); }
    else if e.log == Leave(Enter(d), Aborted) { ContinuesSettled(d, t, d.pages[t], e, Aborted); }
  }

  lemma WriteSettled(d: Db, s: Stmt, t: string)
    requires Sound(d) && Settled(d, t) && Writes(s, t)
    ensures Settled(Step(d, s), t)
  {
    if s.Insert? { InsertSettled(d, t, s.value); }
    else if s.Update? { UpdateSettled(d, t, s.setText, s.id); }
    else if s.Delete? { DeleteSettled(d, t, s.id); }
    else { DeleteAllSettled(d, t); }
  }

  lemma DeleteSettled(d: Db, t: string, id: int)
    requires Sound(d) && Settled(d, t)
    ensures Settled(DoDelete(d, t, id), t)
  {
    ContinuesSettled(d, t, DoDelete(d, t, id).pages[t], DoDelete(d, t, id), Committed);
  }

  lemma DeleteAllSettled(d: Db, t: string)
    requires Sound(d) && Settled(d, t)
    ensures Settled(DoDeleteAll(d, t), t)
  {
    ContinuesSettled(d, t, DoDeleteAll(d, t).pages[t], DoDeleteAll(d, t), Committed);
  }

  lemma UpdateSettled(d: Db, t: string, setText: string, id: int)
    requires Sound(d) && Settled(d, t)
    ensures Settled(DoUpdate(d, t, setText, id), t)
  {
    if "id" in d.columns[t] {
      UpdateContinues(d, t, setText, id);
      ContinuesSettled(d, t, DoUpdate(d, t, setText, id).pages[t], DoUpdate(d, t, setText, id), Committed);
    }
  }

  lemma InsertSettled(d: Db, t: string, value: string)
    requires Sound(d) && Settled(d, t)
    ensures Settled(DoInsert(d, t, value), t)
  {
    var e := DoInsert(d, t, value);
    if |d.pages[t]| >= SLOTS {
      ContinuesSettled(d, t, d.pages[t], e, Aborted);
    } else {
      ContinuesSettled(d, t, e.pages[t], e, Committed);
    }
  }

  lemma StepSettled(d: Db, s: Stmt, t: string)
    requires Sound(d) && Settled(d, t) && NoUndo(d, s, t)
    ensures Settled(Step(d, s), t)
  {
    if !Inside(s) { BoundarySettled(d, s, t); }
    else if Writes(s, t) { WriteSettled(d, s, t); }
    else { OtherSettled(d, s, t); }
  }

  lemma {:induction false} RunSettled(d: Db, ss: seq<Stmt>, t: string)
    requires Sound(d) && Settled(d, t) && PlainRunOf(d, ss, t)
    ensures Settled(Run(d, ss), t)
    decreases |ss|
  {
    if ss != [] {
      RunSound(d, ss[..|ss| - 1]);
      RunSettled(d, ss[..|ss| - 1], t);
      StepSettled(Run(d, ss[..|ss| - 1]), ss[|ss| - 1], t);
    }
  }

  // From the start, by statements that undo nothing that was done to t: the lookup shows a row exactly
  // when the scan does.
  lemma LookupAgreesWithScan(d: Db, ss: seq<Stmt>, t: string, id: int)
    requires Initial(d) && KeyedRun(d, ss, t) && PlainRunOf(d, ss, t) && t in d.pages && id > 0
    ensures t in Run(d, ss).pages && LookupAgrees(Run(d, ss), t, id)
  {
    StartsOrdered(d, t);
    RunSettled(d, ss, t);
    LookupInEveryRun(d, ss, t, id);
  }
}
