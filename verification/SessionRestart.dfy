// The next start of the program on the files a session leaves: the index it rebuilds, and what it sees
// of the versions the former process wrote, under ids that it hands out again.
module SessionRestart {
  import opened Mvcc
  import opened RowCodec
  import opened Session
  import opened SessionProperties
  import opened SessionIndex
  import opened SessionLookup
  import opened SessionRollback
  import opened SessionRebuild

  // executor_init reads the file of t in the database default, before another one can be selected.
  function StartIndex(d: Db, t: string): map<int, nat> {
    match FileAt(d, PathOf("default", t))
    case NoFile => map[]
    case File(p) => Rebuilt(p)
  }

  // The program started again on the files d leaves, with the same database selected.  tables are those
  // an index is rebuilt for.
  function Restarted(d: Db, tables: set<string>): Db {
    d.(log := EmptyLog, cur := 0, index := map t | t in tables :: StartIndex(d, t))
  }

  // ----- the index -----

  // Whatever a session did, the index rebuilt at the next start is empty.
  lemma StartIndexIsEmpty(d: Db, ss: seq<Stmt>, t: string)
    requires Initial(d) && StraightNames(d) && Straight(t)
    ensures StartIndex(Run(d, ss), t) == map[]
  {
    FilesStay(d, ss);
    OneDirectory(d.db, "default", t);
    OneDirectory("default", "default", t);
    assert Unwritten(PathOf("default", t));
  }

  // ----- old versions in a new process -----

  // The log and the open snapshot are as the program makes them, whatever is on the pages.
  ghost predicate Steady(d: Db) {
    ValidLog(d.log) && (d.cur != 0 ==> d.cur == d.log.begun && d.snap == TakeSnapshot(d.log, d.cur))
  }

  lemma InsideSteady(d: Db, e: Db)
    requires Steady(d) && Within(d, e)
    ensures Steady(e)
  {
  }

  lemma StepSteady(d: Db, s: Stmt)
    requires Steady(d)
    ensures Steady(Step(d, s))
  {
    if Inside(s) {
      InsideStep(d, s);
      InsideSteady(d, Step(d, s));
    }
  }

  lemma {:induction false} RunSteady(d: Db, ss: seq<Stmt>)
    requires Steady(d)
    ensures Steady(Run(d, ss))
    decreases |ss|
  {
    if ss != [] {
      RunSteady(d, ss[..|ss| - 1]);
      StepSteady(Run(d, ss[..|ss| - 1]), ss[|ss| - 1]);
    }
  }

  // What transaction n sees of a version, whoever wrote it: it goes by the id alone.
  predicate SeenById(l: TxLog, n: int, v: Version) {
    if v.xmin == n then v.xmax == 0 || v.xmax == n
    else IsCommittedIn(l, v.xmin) && (v.xmax == 0 || (v.xmax != n && !IsCommittedIn(l, v.xmax)))
  }

  // In every run of the new process, for every version.
  lemma RestartShows(d: Db, tables: set<string>, ss: seq<Stmt>, v: Version)
    ensures var e := Run(Restarted(d, tables), ss); NextSees(e, v) <==> SeenById(e.log, Enter(e).tx, v)
  {
    var e := Run(Restarted(d, tables), ss);
    RunSteady(Restarted(d, tables), ss);
    if e.cur == 0 { OpenSnapshotShows(Begun(e.log), e.log.begun + 1, v); } else { OpenSnapshotShows(e.log, e.cur, v); }
  }

  // A statement of e sees the version as the former process d had committed it.
  predicate AsCommitted(d: Db, e: Db, v: Version) {
    NextSees(e, v) == Shown(d.log, -d.cur, v)
  }

  // The slot of the version still holds it.
  predicate Holds(e: Db, t: string, i: nat, v: Version) {
    t in e.pages && i < |e.pages[t]| && e.pages[t][i] == v
  }

  // Unmarked, the version is read by the status the new process gives its inserter's id; inserted and
  // marked by one id, it comes back for the transaction of that id; otherwise both ids count.
  predicate Misread(d: Db, e: Db, v: Version) {
    var l, n := e.log, Enter(e).tx;
    if v.xmax == 0 then Done(d.log, d.cur, v.xmin) != (v.xmin == n || IsCommittedIn(l, v.xmin))
    else if v.xmin == v.xmax then v.xmin == n
    else Shown(d.log, -d.cur, v) !=
         (v.xmin != n && IsCommittedIn(l, v.xmin) && v.xmax != n && !IsCommittedIn(l, v.xmax))
  }

  // For every run of the new process: it sees the versions of a page that it has not marked as they were
  // committed if and only if none of them is misread.
  lemma RestartKeepsExactly(d: Db, tables: set<string>, ss: seq<Stmt>, t: string)
    requires Sound(d) && t in d.pages
    ensures var e, p := Run(Restarted(d, tables), ss), d.pages[t];
      (forall i :: 0 <= i < |p| && Holds(e, t, i, p[i]) ==> AsCommitted(d, e, p[i])) <==>
      (forall i :: 0 <= i < |p| && Holds(e, t, i, p[i]) ==> !Misread(d, e, p[i]))
  {
    var e, p := Run(Restarted(d, tables), ss), d.pages[t];
    forall i | 0 <= i < |p| ensures AsCommitted(d, e, p[i]) <==> !Misread(d, e, p[i]) {
      RestartShows(d, tables, ss, p[i]);
      TransactionIds(Restarted(d, tables), ss);
    }
  }

  lemma TransactionIds(d: Db, ss: seq<Stmt>)
    requires Steady(d)
    ensures Enter(Run(d, ss)).tx > 0
  {
    RunSteady(d, ss);
  }

  // ----- the versions that last -----

  // The id gets an entry in the table of the new process, sooner or later.
  predicate Entered(id: int) {
    1 <= id <= 100
  }

  // A committed row that is not marked, or one that does not show and was marked by another transaction
  // than inserted it; in either case the last to touch it was beyond the first hundred.
  predicate Lasting(d: Db, v: Version) {
    if v.xmax == 0 then Shown(d.log, -d.cur, v) && !Entered(v.xmin)
    else !Shown(d.log, -d.cur, v) && v.xmin != v.xmax && !Entered(v.xmax)
  }

  ghost predicate ReadRightInEveryRun(d: Db, tables: set<string>, t: string, i: nat, v: Version) {
    forall ss {:trigger Run(Restarted(d, tables), ss)} ::
      Holds(Run(Restarted(d, tables), ss), t, i, v) ==> AsCommitted(d, Run(Restarted(d, tables), ss), v)
  }

  // For every state and every version on a page: each run of the next process sees it as it was
  // committed, as long as it does not mark it, if and only if it is one of those.
  lemma RestartLastsExactly(d: Db, tables: set<string>, t: string, i: nat)
    requires Sound(d) && t in d.pages && i < |d.pages[t]|
    ensures ReadRightInEveryRun(d, tables, t, i, d.pages[t][i]) <==> Lasting(d, d.pages[t][i])
  {
    var v := d.pages[t][i];
    if Lasting(d, v) {
      forall ss ensures AsCommitted(d, Run(Restarted(d, tables), ss), v) { LastingIsRead(d, tables, ss, v); }
    } else {
      var p, r := LapseFor(v, Shown(d.log, -d.cur, v)), Restarted(d, tables);
      LapseIsShort(d, v);
      AfterLapse(r, p);
      LapseMisreads(d, v, Run(r, RunOf(p)).log, p);
      RestartShows(d, tables, RunOf(p), v);
      assert Holds(Run(r, RunOf(p)), t, i, v);
    }
  }

  lemma LastingIsRead(d: Db, tables: set<string>, ss: seq<Stmt>, v: Version)
    requires Sound(d) && InRange(d.log, v) && Lasting(d, v)
    ensures AsCommitted(d, Run(Restarted(d, tables), ss), v)
  {
    RestartShows(d, tables, ss, v);
    RunSteady(Restarted(d, tables), ss);
  }

  // k transactions that do nothing.
  function Idle(k: nat): seq<Stmt> {
    if k == 0 then [] else Idle(k - 1) + [Begin, Commit]
  }

  // All ids up to n have been handed out, and all but the one that was undone are committed.
  ghost predicate AllButOne(l: TxLog, n: nat, undone: int) {
    && ValidLog(l) && l.begun == n
    && forall id: nat :: IsCommittedIn(l, id) <==> id != undone
  }

  lemma TwoMore(ss: seq<Stmt>, r: Stmt, s: Stmt)
    ensures ss + [r] + [s] == ss + [r, s]
  {
  }

  lemma RunTwo(d: Db, ss: seq<Stmt>, r: Stmt, s: Stmt)
    ensures Run(d, ss + [r, s]) == Step(Step(Run(d, ss), r), s)
  {
    TwoMore(ss, r, s);
    RunThen(d, ss, r);
    RunThen(d, ss + [r], s);
  }

  // One more transaction that does nothing.
  lemma OneMore(f: Db, ends: Stmt)
    requires f.cur == 0 && AllButOne(f.log, f.log.begun, -1) && (ends == Commit || (ends == Rollback && f.log.begun < MAX_TX))
    ensures var e, n := Step(Step(f, Begin), ends), f.log.begun + 1;
      e.cur == 0 && e.pages == f.pages && AllButOne(e.log, n, if ends == Commit then -1 else n)
  {
    var l, n, s := f.log, f.log.begun + 1, if ends == Commit then Committed else Aborted;
    assert Step(Step(f, Begin), ends).log == WithStatus(Begun(l), n, s);
    OneMoreLog(l, s);
  }

  lemma OneMoreLog(l: TxLog, s: Status)
    requires AllButOne(l, l.begun, -1) && (s == Committed || (s == Aborted && l.begun < MAX_TX))
    ensures AllButOne(WithStatus(Begun(l), l.begun + 1, s), l.begun + 1, if s == Committed then -1 else l.begun + 1)
  {
    var m := WithStatus(Begun(l), l.begun + 1, s);
    forall id: nat ensures IsCommittedIn(m, id) <==> id != (if s == Committed then -1 else l.begun + 1) {
      assert IsCommittedIn(l, id);
    }
  }

  lemma {:induction false} IdleRun(r: Db, k: nat)
    requires r.log == EmptyLog && r.cur == 0
    ensures var e := Run(r, Idle(k)); e.cur == 0 && e.pages == r.pages && AllButOne(e.log, k, -1)
  {
    if k > 0 {
      IdleRun(r, k - 1);
      IdleNext(r, k - 1, Run(r, Idle(k - 1)), Commit);
    }
  }

  lemma IdleNext(r: Db, k: nat, f: Db, ends: Stmt)
    requires f == Run(r, Idle(k)) && f.cur == 0 && AllButOne(f.log, k, -1)
    requires ends == Commit || (ends == Rollback && k < MAX_TX)
    ensures var e := Run(r, Idle(k) + [Begin, ends]);
      e.cur == 0 && e.pages == f.pages && AllButOne(e.log, k + 1, if ends == Commit then -1 else k + 1)
  {
    OneMore(f, ends);
    RunTwo(r, Idle(k), Begin, ends);
  }

  // And one more that is rolled back.
  lemma UndoRun(r: Db, k: nat)
    requires r.log == EmptyLog && r.cur == 0 && k < MAX_TX
    ensures var e := Run(r, Idle(k) + [Begin, Rollback]); e.cur == 0 && e.pages == r.pages && AllButOne(e.log, k + 1, k + 1)
  {
    IdleRun(r, k);
    IdleNext(r, k, Run(r, Idle(k)), Rollback);
  }

  // A run of the new process that misreads a version that does not last: so many idle transactions, and
  // perhaps one that is rolled back.
  datatype Lapse = Lapse(idle: nat, undo: bool)

  function RunOf(p: Lapse): seq<Stmt> {
    if p.undo then Idle(p.idle) + [Begin, Rollback] else Idle(p.idle)
  }

  function LapseFor(v: Version, shown: bool): Lapse
    requires v.xmin >= 0 && v.xmax >= 0
  {
    if v.xmax == 0 then if shown && v.xmin > 0 then Lapse(v.xmin - 1, true) else Lapse(0, false)
    else if v.xmin == v.xmax then Lapse(v.xmin - 1, false)
    else if shown then Lapse(0, false)
    else Lapse(v.xmax - 1, true)
  }

  // The ids as they stand after a lapse, and the next one.
  lemma AfterLapse(r: Db, p: Lapse)
    requires r.log == EmptyLog && r.cur == 0 && (p.undo ==> p.idle < MAX_TX)
    ensures var e := Run(r, RunOf(p));
      && e.pages == r.pages && e.cur == 0 && Enter(e).tx == e.log.begun + 1
      && if p.undo then AllButOne(e.log, p.idle + 1, p.idle + 1) else AllButOne(e.log, p.idle, -1)
  {
    if p.undo { UndoRun(r, p.idle); } else { IdleRun(r, p.idle); }
  }

  lemma LapseMisreads(d: Db, v: Version, l: TxLog, p: Lapse)
    requires Sound(d) && InRange(d.log, v) && !Lasting(d, v) && p == LapseFor(v, Shown(d.log, -d.cur, v))
    requires if p.undo then AllButOne(l, p.idle + 1, p.idle + 1) else AllButOne(l, p.idle, -1)
    ensures SeenById(l, l.begun + 1, v) != Shown(d.log, -d.cur, v)
  {
    assert IsCommittedIn(l, v.xmin) <==> v.xmin != if p.undo then p.idle + 1 else -1;
    assert IsCommittedIn(l, v.xmax) <==> v.xmax != if p.undo then p.idle + 1 else -1;
  }

  lemma LapseIsShort(d: Db, v: Version)
    requires Sound(d) && InRange(d.log, v) && !Lasting(d, v)
    ensures var p := LapseFor(v, Shown(d.log, -d.cur, v)); p.undo ==> p.idle < MAX_TX
  {
  }

  // ----- a new process that aborts nothing -----

  // The statement aborts a transaction that has an entry: the open one, or that of an INSERT on a full page.
  predicate Aborts(d: Db, s: Stmt) {
    || (0 < d.cur <= MAX_TX && (s.Rollback? || s.Begin?))
    || (d.cur == 0 && d.log.begun < MAX_TX && s.Insert? && s.table in d.pages && |d.pages[s.table]| >= SLOTS)
  }

  ghost predicate AbortsNothing(d: Db, ss: seq<Stmt>)
    decreases |ss|
  {
    ss == [] || (AbortsNothing(d, ss[..|ss| - 1]) && !Aborts(Run(d, ss[..|ss| - 1]), ss[|ss| - 1]))
  }

  // Every id but that of the open transaction counts as committed.
  ghost predicate OthersCommitted(d: Db) {
    Steady(d) && forall id: nat :: id != d.cur ==> IsCommittedIn(d.log, id)
  }

  lemma InsideCommits(d: Db, s: Stmt)
    requires Steady(d) && Inside(s) && !Aborts(d, s)
    ensures Step(d, s).log == d.log || Step(d, s).log == Leave(Enter(d), Committed)
  {
  }

  lemma LeaveCommits(d: Db, id: nat)
    requires OthersCommitted(d) && id != d.cur
    ensures IsCommittedIn(Leave(Enter(d), Committed), id)
  {
    assert IsCommittedIn(d.log, id);
  }

  lemma BoundaryCommits(d: Db, s: Stmt, id: nat)
    requires OthersCommitted(d) && !Inside(s) && !Aborts(d, s) && id != Step(d, s).cur
    ensures IsCommittedIn(Step(d, s).log, id)
  {
    assert id != d.cur ==> IsCommittedIn(d.log, id);
  }

  lemma StepCommits(d: Db, s: Stmt)
    requires OthersCommitted(d) && !Aborts(d, s)
    ensures OthersCommitted(Step(d, s))
  {
    StepSteady(d, s);
    if Inside(s) {
      InsideStep(d, s);
      InsideCommits(d, s);
      forall id: nat | id != d.cur ensures IsCommittedIn(Step(d, s).log, id) { LeaveCommits(d, id); }
    } else {
      forall id: nat | id != Step(d, s).cur ensures IsCommittedIn(Step(d, s).log, id) { BoundaryCommits(d, s, id); }
    }
  }

  lemma {:induction false} RunCommits(d: Db, ss: seq<Stmt>)
    requires OthersCommitted(d) && AbortsNothing(d, ss)
    ensures OthersCommitted(Run(d, ss))
    decreases |ss|
  {
    if ss != [] {
      RunCommits(d, ss[..|ss| - 1]);
      StepCommits(Run(d, ss[..|ss| - 1]), ss[|ss| - 1]);
    }
  }

  // A process that has aborted nothing sees a version exactly when it is not marked, or when the
  // transaction that looks has the id that inserted and marked it.
  lemma QuietProcessSees(d: Db, tables: set<string>, ss: seq<Stmt>, v: Version)
    requires AbortsNothing(Restarted(d, tables), ss) && v.xmin >= 0 && v.xmax >= 0
    ensures var e := Run(Restarted(d, tables), ss); NextSees(e, v) <==> v.xmax == 0 || SelfMarked(v, Enter(e).tx)
  {
    RunCommits(Restarted(d, tables), ss);
    RestartShows(d, tables, ss, v);
  }

  // If neither process undid anything done to the table, only rows the looking transaction's former
  // namesake inserted and marked are in the way.
  lemma PlainRestartKeepsExactly(d: Db, before: seq<Stmt>, tables: set<string>, ss: seq<Stmt>, t: string)
    requires Initial(d) && PlainRunOf(d, before, t) && Run(d, before).cur == 0 && t in d.pages
    requires AbortsNothing(Restarted(Run(d, before), tables), ss)
    ensures t in Run(d, before).pages
    ensures var f := Run(d, before);
      var e, p := Run(Restarted(f, tables), ss), f.pages[t];
      (forall i :: 0 <= i < |p| && Holds(e, t, i, p[i]) ==> AsCommitted(f, e, p[i])) <==>
      (forall i :: 0 <= i < |p| && Holds(e, t, i, p[i]) ==> !SelfMarked(p[i], Enter(e).tx))
  {
    var f := Run(d, before);
    RunSound(d, before);
    StartsOrdered(d, t);
    RunSettled(d, before, t);
    var e, p := Run(Restarted(f, tables), ss), f.pages[t];
    TransactionIds(Restarted(f, tables), ss);
    forall i | 0 <= i < |p| ensures AsCommitted(f, e, p[i]) <==> !SelfMarked(p[i], Enter(e).tx) {
      QuietProcessSees(f, tables, ss, p[i]);
    }
  }

  // ----- lookups -----

  // After any run and a new start the lookup reports nothing, and agrees with the scan exactly when the
  // page has no row of the id for it to miss.
  lemma StartLookupExactly(d: Db, ss: seq<Stmt>, tables: set<string>, t: string, id: int)
    requires Initial(d) && StraightNames(d) && t in d.pages && id > 0
    ensures var e := Restarted(Run(d, ss), tables);
      && t in e.pages && LookupId(e, t, id) == NotIndexed
      && (ScanFinds(e, t, id) <==> exists i :: 0 <= i < |e.pages[t]| && KeyAt(e.pages[t], i) == id &&
                                               (e.pages[t][i].xmax == 0 || SelfMarked(e.pages[t][i], 1)))
      && (LookupAgrees(e, t, id) <==> (HasIndex(e, t) ==> !ScanFinds(e, t, id)))
  {
    var f := Run(d, ss);
    var e := Restarted(f, tables);
    RunSound(d, ss);
    SamePages(d, ss);
    RunColumns(d, ss);
    if t in tables { StartIndexIsEmpty(d, ss, t); }
    var c, p := Enter(e), e.pages[t];
    forall i | 0 <= i < |p| ensures NextSees(e, p[i]) <==> p[i].xmax == 0 || SelfMarked(p[i], 1) {
      QuietProcessSees(f, tables, [], p[i]);
    }
    if ScanFinds(e, t, id) {
      var r :| r in Visible(c.log, c.snap, p) && Atoi(r) == id;
      VisibleIsSeen(c.log, c.snap, p, r);
      var i :| 0 <= i < |p| && Sees(c.log, p[i].Head(), c.snap) && p[i].value == r;
      assert KeyAt(p, i) == id && NextSees(e, p[i]);
    }
    if i :| 0 <= i < |p| && KeyAt(p, i) == id && (p[i].xmax == 0 || SelfMarked(p[i], 1)) {
      SeenIsVisible(c.log, c.snap, p, i);
    }
  }

  // Had it read the table's own page, the index would find, as long as the new process has aborted
  // nothing nor written to the page, the newest row of each id it sees, but for such a row.
  lemma OwnFileWouldDo(d: Db, tables: set<string>, ss: seq<Stmt>, t: string, k: int)
    requires Sound(d) && t in d.pages && k > 0
    requires AbortsNothing(Restarted(d, tables), ss)
    ensures var e, p := Run(Restarted(d, tables), ss), d.pages[t];
      && (k in Rebuilt(p) ==> Rebuilt(p)[k] < |p| && KeyAt(p, Rebuilt(p)[k]) == k && NextSees(e, p[Rebuilt(p)[k]]))
      && ((k in Rebuilt(p) <==> exists i :: 0 <= i < |p| && KeyAt(p, i) == k && NextSees(e, p[i])) <==>
          (k in Rebuilt(p) || forall i :: 0 <= i < |p| && KeyAt(p, i) == k ==> !SelfMarked(p[i], Enter(e).tx)))
  {
    var e, p := Run(Restarted(d, tables), ss), d.pages[t];
    RebuiltMeaning(p, k);
    forall i | 0 <= i < |p| ensures NextSees(e, p[i]) <==> p[i].xmax == 0 || SelfMarked(p[i], Enter(e).tx) {
      QuietProcessSees(d, tables, ss, p[i]);
    }
  }
}
