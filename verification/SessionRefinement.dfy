// The session refines an ordinary database that keeps, per table, a committed and a working
// sequence of rows.
module SessionRefinement {
  import opened Mvcc
  import opened RowCodec
  import opened Session

  // ----- the ordinary database -----

  // Rows by table.  Outside a transaction working is committed.  used counts the slots the table's
  // page has spent, which is all that is left of the versions.
  datatype Plain = Plain(committed: map<string, seq<string>>, working: map<string, seq<string>>,
                         open: bool, used: map<string, nat>)

  function FirstMatch(rows: seq<string>, m: Match): (i: nat)
    ensures i <= |rows| && (i < |rows| ==> Matches(m, rows[i]))
    ensures forall j :: 0 <= j < i ==> !Matches(m, rows[j])
  {
    if rows == [] || Matches(m, rows[0]) then 0
    else
      var i := FirstMatch(rows[1..], m);
      assert forall j :: 1 <= j < i + 1 ==> rows[j] == rows[1..][j - 1];
      1 + i
  }

  function Without(rows: seq<string>, i: nat): seq<string> {
    if i < |rows| then rows[..i] + rows[i + 1..] else rows
  }

  // Write new rows for a table: to the working copy, and at once to the committed one outside a transaction.
  function Put(a: Plain, t: string, rows: seq<string>, used: nat): Plain {
    var w := a.working[t := rows];
    a.(working := w, committed := if a.open then a.committed else w, used := a.used[t := used])
  }

  function PlainStep(a: Plain, columns: map<string, seq<string>>, s: Stmt): Plain {
    match s
    case Begin => a.(open := true, working := a.committed)
    case Commit => a.(open := false, committed := a.working)
    case Rollback => a.(open := false, working := a.committed)
    case Insert(t, v) =>
      if t in a.working && t in a.used && a.used[t] < SLOTS
      then Put(a, t, a.working[t] + [Cut(v, STORED_MAX)], a.used[t] + 1) else a
    case Delete(t, id) =>
      if t in a.working && t in a.used
      then Put(a, t, Without(a.working[t], FirstMatch(a.working[t], ByRecord(id))), a.used[t]) else a
    case DeleteAll(t) => if t in a.working && t in a.used then Put(a, t, [], a.used[t]) else a
    case Update(t, set_, id) =>
      if t in a.working && t in a.used && t in columns && "id" in columns[t] && a.used[t] < SLOTS then
        var rows := a.working[t];
        var i := FirstMatch(rows, ByColumn(IdColumn(columns[t]), id));
        if i < |rows|
        then Put(a, t, Without(rows, i) + [Cut(NewRow(columns[t], set_, rows[i]), STORED_MAX)], a.used[t] + 1) else a
      else a
    case Select(_) => a
    case SelectId(_, _) => a
    case Join(_, _) => a
  }

  function PlainRun(a: Plain, columns: map<string, seq<string>>, ss: seq<Stmt>): Plain
    decreases |ss|
  {
    if ss == [] then a else PlainStep(PlainRun(a, columns, ss[..|ss| - 1]), columns, ss[|ss| - 1])
  }

  // ----- the abstraction -----

  function Rows(l: TxLog, cur: int, page: Page): seq<string> {
    if page == [] then []
    else Rows(l, cur, page[..|page| - 1]) +
         (if Shown(l, cur, page[|page| - 1]) then [page[|page| - 1].value] else [])
  }

  ghost predicate TableRefines(d: Db, a: Plain, t: string) {
    && t in d.pages && t in a.committed && t in a.working && t in a.used
    && a.committed[t] == Rows(d.log, -d.cur, d.pages[t])
    && a.working[t] == Rows(d.log, d.cur, d.pages[t])
    && a.used[t] == |d.pages[t]|
  }

  // a is what the session's state means.
  ghost predicate Refines(d: Db, a: Plain) {
    && a.open == (d.cur != 0)
    && a.committed.Keys == a.working.Keys == a.used.Keys == d.pages.Keys
    && forall t {:trigger TableRefines(d, a, t)} :: t in d.pages ==> TableRefines(d, a, t)
  }

  // ----- rows of a page -----

  lemma {:induction false} RowsAgree(l: TxLog, cur: int, m: TxLog, cur': int, p: Page, q: Page)
    requires |p| == |q|
    requires forall i :: 0 <= i < |p| ==> p[i].value == q[i].value && Shown(l, cur, p[i]) == Shown(m, cur', q[i])
    ensures Rows(l, cur, p) == Rows(m, cur', q)
  {
    if p != [] { RowsAgree(l, cur, m, cur', p[..|p| - 1], q[..|q| - 1]); }
  }

  lemma {:induction false} RowsAppend(l: TxLog, cur: int, p: Page, q: Page)
    ensures Rows(l, cur, p + q) == Rows(l, cur, p) + Rows(l, cur, q)
  {
    if q == [] {
      assert p + q == p;
    } else {
      assert (p + q)[..|p + q| - 1] == p + q[..|q| - 1];
      RowsAppend(l, cur, p, q[..|q| - 1]);
    }
  }

  lemma {:induction false} NoRows(l: TxLog, cur: int, p: Page)
    requires forall i :: 0 <= i < |p| ==> !Shown(l, cur, p[i])
    ensures Rows(l, cur, p) == []
  {
    if p != [] { NoRows(l, cur, p[..|p| - 1]); }
  }

  lemma {:induction false} RowsFrom(l: TxLog, cur: int, p: Page, r: string)
    requires r in Rows(l, cur, p)
    ensures exists i :: 0 <= i < |p| && Shown(l, cur, p[i]) && p[i].value == r
  {
    if p != [] {
      var n := |p| - 1;
      if r in Rows(l, cur, p[..n]) {
        RowsFrom(l, cur, p[..n], r);
      } else {
        assert p[n].value == r;
      }
    }
  }

  lemma SplitAt(l: TxLog, cur: int, p: Page, i: nat)
    requires i < |p|
    ensures Rows(l, cur, p) ==
      Rows(l, cur, p[..i]) + (if Shown(l, cur, p[i]) then [p[i].value] else []) + Rows(l, cur, p[i + 1..])
  {
    assert p == p[..i] + ([p[i]] + p[i + 1..]);
    RowsAppend(l, cur, p[..i], [p[i]] + p[i + 1..]);
    RowsAppend(l, cur, [p[i]], p[i + 1..]);
    assert [p[i]][..0] == [];
  }

  lemma FirstMatchIs(rows: seq<string>, m: Match, k: nat)
    requires k < |rows| && Matches(m, rows[k]) && forall j :: 0 <= j < k ==> !Matches(m, rows[j])
    ensures FirstMatch(rows, m) == k
  {
  }

  lemma NoMatchBefore(l: TxLog, cur: int, p: Page, m: Match)
    requires forall j :: 0 <= j < |p| ==> !(Shown(l, cur, p[j]) && Matches(m, p[j].value))
    ensures forall j :: 0 <= j < |Rows(l, cur, p)| ==> !Matches(m, Rows(l, cur, p)[j])
  {
    var rows := Rows(l, cur, p);
    forall j | 0 <= j < |rows| ensures !Matches(m, rows[j]) { RowsFrom(l, cur, p, rows[j]); }
  }

  lemma Spliced(before: seq<string>, row: string, after: seq<string>)
    ensures var rows := before + [row] + after;
      rows[|before|] == row && rows[..|before|] == before && Without(rows, |before|) == before + after
  {
    var rows := before + [row] + after;
    assert rows[|before| + 1..] == after;
  }

  // If i is the first shown version that matches, its row is the first row that matches.
  lemma HitIsFirstRow(l: TxLog, cur: int, p: Page, i: nat, m: Match)
    requires i < |p| && Shown(l, cur, p[i]) && Matches(m, p[i].value)
    requires forall j :: 0 <= j < i ==> !(Shown(l, cur, p[j]) && Matches(m, p[j].value))
    ensures var rows, k := Rows(l, cur, p), |Rows(l, cur, p[..i])|;
      FirstMatch(rows, m) == k < |rows| && rows[k] == p[i].value && Without(rows, k) == Rows(l, cur, p[..i]) + Rows(l, cur, p[i + 1..])
  {
    var rows, before := Rows(l, cur, p), Rows(l, cur, p[..i]);
    SplitAt(l, cur, p, i);
    Spliced(before, p[i].value, Rows(l, cur, p[i + 1..]));
    NoMatchBefore(l, cur, p[..i], m);
    assert forall j :: 0 <= j < |before| ==> rows[j] == rows[..|before|][j];
    FirstMatchIs(rows, m, |before|);
  }

  lemma NoHitNoRow(l: TxLog, cur: int, p: Page, m: Match)
    requires forall j :: 0 <= j < |p| ==> !(Shown(l, cur, p[j]) && Matches(m, p[j].value))
    ensures FirstMatch(Rows(l, cur, p), m) == |Rows(l, cur, p)|
  {
    var rows := Rows(l, cur, p);
    var k := FirstMatch(rows, m);
    if k < |rows| {
      assert rows[k] in rows;
      RowsFrom(l, cur, p, rows[k]);
    }
  }

  // ----- one statement -----

  // When a statement does what the ordinary database does.  DELETE must not find a row the open
  // transaction inserted itself; UPDATE must not either, if there is a free slot, and must not find
  // another one if there is none; COMMIT must not meet a row the transaction both inserted and marked.
  // Undoing a transaction that has no entry in the table publishes it, so that must change nothing.
  ghost predicate Guard(d: Db, s: Stmt) {
    match s
    case Delete(t, id) =>
      t in d.pages ==>
        var c, p := Enter(d), d.pages[t];
        var i := FirstHit(c.log, c.snap, p, ByRecord(id));
        i < |p| ==> !Own(d, p[i])
    case DeleteAll(t) =>
      t in d.pages ==>
        var c, p := Enter(d), d.pages[t];
        forall i :: 0 <= i < |p| && Sees(c.log, p[i].Head(), c.snap) ==> !Own(d, p[i])
    case Update(t, set_, id) =>
      t in d.pages && t in d.columns && "id" in d.columns[t] ==>
        var c, p := Enter(d), d.pages[t];
        var i := FirstHit(c.log, c.snap, p, ByColumn(IdColumn(d.columns[t]), id));
        i < |p| ==> (Own(d, p[i]) <==> |p| >= 16)
    case Commit => Clean(d)
    case Rollback => d.cur > 100 ==> NothingToPublish(d)
    case Begin => d.cur > 100 ==> NothingToPublish(d)
    case _ => true
  }

  // The open transaction has not marked a row of its own.
  ghost predicate Clean(d: Db) {
    d.cur != 0 ==> forall t, i :: t in d.pages && 0 <= i < |d.pages[t]| ==>
      !(d.pages[t][i].xmin == d.cur && d.pages[t][i].xmax == d.cur)
  }

  // What COMMIT would make of the tables is what is committed already.
  ghost predicate NothingToPublish(d: Db) {
    forall t {:trigger d.pages[t]} :: t in d.pages ==> Rows(d.log, 0, d.pages[t]) == Rows(d.log, -d.cur, d.pages[t])
  }

  predicate Own(d: Db, v: Version) {
    d.cur != 0 && v.xmin == d.cur
  }

  lemma RowsKept(d: Db, p: Page, s: Status)
    requires Sound(d)
    requires forall i :: 0 <= i < |p| ==> InRange(d.log, p[i])
    ensures Rows(Leave(Enter(d), s), -d.cur, p) == Rows(d.log, -d.cur, p)
    ensures Rows(Leave(Enter(d), s), d.cur, p) == Rows(d.log, d.cur, p)
  {
    forall i | 0 <= i < |p|
      ensures Shown(Leave(Enter(d), s), -d.cur, p[i]) == Shown(d.log, -d.cur, p[i])
      ensures Shown(Leave(Enter(d), s), d.cur, p[i]) == Shown(d.log, d.cur, p[i])
    {
      StatementKeeps(d, p[i], s, -d.cur);
      StatementKeeps(d, p[i], s, d.cur);
    }
    RowsAgree(Leave(Enter(d), s), -d.cur, d.log, -d.cur, p, p);
    RowsAgree(Leave(Enter(d), s), d.cur, d.log, d.cur, p, p);
  }

  // Under log l the page of n shows what it showed, to the session and to others.
  ghost predicate Keeps(d: Db, l: TxLog, n: string) {
    n in d.pages ==> Rows(l, -d.cur, d.pages[n]) == Rows(d.log, -d.cur, d.pages[n]) && Rows(l, d.cur, d.pages[n]) == Rows(d.log, d.cur, d.pages[n])
  }

  lemma KeepsAll(d: Db, s: Status)
    requires Sound(d)
    ensures forall n {:trigger Keeps(d, Leave(Enter(d), s), n)} :: Keeps(d, Leave(Enter(d), s), n)
  {
    forall n ensures Keeps(d, Leave(Enter(d), s), n) {
      if n in d.pages { RowsKept(d, d.pages[n], s); }
    }
  }

  // Writing a page is writing its rows, provided the committed rows stay as they are in a transaction.
  lemma ChangeIsPut(d: Db, a: Plain, e: Db, t: string, rows: seq<string>, used: nat)
    requires Refines(d, a) && t in d.pages && t in e.pages && e.pages == d.pages[t := e.pages[t]] && e.cur == d.cur
    requires forall n {:trigger Keeps(d, e.log, n)} :: Keeps(d, e.log, n)
    requires rows == Rows(e.log, d.cur, e.pages[t]) && used == |e.pages[t]|
    requires d.cur != 0 ==> Rows(e.log, -d.cur, e.pages[t]) == Rows(d.log, -d.cur, d.pages[t])
    ensures Refines(e, Put(a, t, rows, used))
  {
    var b := Put(a, t, rows, used);
    assert TableRefines(d, a, t);
    assert TableRefines(e, b, t);
    forall n | n in e.pages && n != t ensures TableRefines(e, b, n) {
      OtherTable(d, a, e, b, n);
    }
  }

  lemma OtherTable(d: Db, a: Plain, e: Db, b: Plain, n: string)
    requires TableRefines(d, a, n) && Keeps(d, e.log, n) && e.cur == d.cur && n in e.pages && e.pages[n] == d.pages[n]
    requires n in b.working && n in b.committed && n in b.used
    requires b.working[n] == a.working[n] && b.used[n] == a.used[n]
    requires b.committed[n] == if d.cur == 0 then a.working[n] else a.committed[n]
    ensures TableRefines(e, b, n)
  {
  }

  // Nothing written: nothing changed.
  lemma NoChange(d: Db, a: Plain, e: Db)
    requires Refines(d, a) && e.pages == d.pages && e.cur == d.cur
    requires forall n {:trigger Keeps(d, e.log, n)} :: Keeps(d, e.log, n)
    ensures Refines(e, a)
  {
    forall n | n in e.pages ensures TableRefines(e, a, n) {
      assert TableRefines(d, a, n) && Keeps(d, e.log, n);
    }
  }

  // Marking version i: its row goes, unless the version is the transaction's own.
  lemma KillRows(d: Db, t: string, i: nat)
    requires Sound(d) && t in d.pages && i < |d.pages[t]|
    requires Shown(d.log, d.cur, d.pages[t][i])
    ensures var c, p := Enter(d), d.pages[t];
      var l, q := Leave(c, Committed), Kill(p, i, c.tx);
      && (d.cur != 0 ==> Rows(l, -d.cur, q) == Rows(d.log, -d.cur, p))
      && Rows(l, d.cur, q) ==
         if Own(d, p[i]) then Rows(d.log, d.cur, p)
         else Rows(d.log, d.cur, p[..i]) + Rows(d.log, d.cur, p[i + 1..])
  {
    var c, p := Enter(d), d.pages[t];
    var l, q := Leave(c, Committed), Kill(p, i, c.tx);
    KilledIsHidden(d, p[i]);
    if d.cur != 0 { KillKeepsCommitted(d, t, i); }
    RowsKept(d, p[..i], Committed);
    RowsKept(d, p[i + 1..], Committed);
    ReplacedRow(l, d.log, d.cur, p, i, Killed(p[i], c.tx));
  }

  lemma ReplacedRow(l: TxLog, was: TxLog, cur: int, p: Page, i: nat, v: Version)
    requires i < |p| && Shown(was, cur, p[i]) && v.value == p[i].value
    requires Rows(l, cur, p[..i]) == Rows(was, cur, p[..i]) && Rows(l, cur, p[i + 1..]) == Rows(was, cur, p[i + 1..])
    ensures Rows(l, cur, p[i := v]) == if Shown(l, cur, v) then Rows(was, cur, p)
                                       else Rows(was, cur, p[..i]) + Rows(was, cur, p[i + 1..])
  {
    var q := p[i := v];
    assert q[..i] == p[..i] && q[i + 1..] == p[i + 1..];
    SplitAt(l, cur, q, i);
    SplitAt(was, cur, p, i);
  }

  // What an open transaction marks stays committed for everyone else.
  lemma KillKeepsCommitted(d: Db, t: string, i: nat)
    requires Sound(d) && d.cur != 0 && t in d.pages && i < |d.pages[t]|
    requires Shown(d.log, d.cur, d.pages[t][i])
    ensures Rows(d.log, -d.cur, Kill(d.pages[t], i, d.cur)) == Rows(d.log, -d.cur, d.pages[t])
  {
    KilledIsHidden(d, d.pages[t][i]);
    RowsAgree(d.log, -d.cur, d.log, -d.cur, Kill(d.pages[t], i, d.cur), d.pages[t]);
  }

  lemma AppendRow(l: TxLog, cur: int, p: Page, v: Version)
    ensures Rows(l, cur, p + [v]) == Rows(l, cur, p) + (if Shown(l, cur, v) then [v.value] else [])
  {
    assert (p + [v])[..|p|] == p;
  }

  lemma AppendRows(d: Db, p: Page, value: string)
    requires Sound(d)
    ensures var c := Enter(d);
      var l, q := Leave(c, Committed), p + [Version(c.tx, 0, value)];
      && (d.cur != 0 ==> Rows(l, -d.cur, q) == Rows(l, -d.cur, p))
      && Rows(l, d.cur, q) == Rows(l, d.cur, p) + [value]
  {
    var c := Enter(d);
    NewIsShown(d, value);
    AppendRow(Leave(c, Committed), -d.cur, p, Version(c.tx, 0, value));
    AppendRow(Leave(c, Committed), d.cur, p, Version(c.tx, 0, value));
  }

  lemma InsertRefines(d: Db, a: Plain, t: string, value: string)
    requires Refines(d, a) && Sound(d)
    ensures Refines(DoInsert(d, t, value), PlainStep(a, d.columns, Insert(t, value)))
  {
    if t in d.pages {
      assert TableRefines(d, a, t);
      if |d.pages[t]| >= SLOTS {
        KeepsAll(d, Aborted);
        NoChange(d, a, DoInsert(d, t, value));
      } else {
        InsertWithRoom(d, a, t, value);
      }
    }
  }

  lemma InsertWithRoom(d: Db, a: Plain, t: string, value: string)
    requires Refines(d, a) && Sound(d) && t in d.pages && |d.pages[t]| < SLOTS
    ensures Refines(DoInsert(d, t, value), PlainStep(a, d.columns, Insert(t, value)))
  {
    var rows := Rows(d.log, d.cur, d.pages[t]) + [Cut(value, STORED_MAX)];
    AppendedRows(d, d.pages[t], Cut(value, STORED_MAX));
    PlainInsertIs(d, a, t, value, rows);
    CommitAndPut(d, a, DoInsert(d, t, value), t, rows);
  }

  lemma PlainInsertIs(d: Db, a: Plain, t: string, value: string, rows: seq<string>)
    requires Refines(d, a) && t in d.pages && |d.pages[t]| < SLOTS
    requires rows == Rows(d.log, d.cur, d.pages[t]) + [Cut(value, STORED_MAX)]
    ensures t in a.used && a.used[t] == |d.pages[t]|
    ensures PlainStep(a, d.columns, Insert(t, value)) == Put(a, t, rows, a.used[t] + 1)
  {
    assert TableRefines(d, a, t);
  }

  lemma AppendedRows(d: Db, p: Page, value: string)
    requires Sound(d) && forall i :: 0 <= i < |p| ==> InRange(d.log, p[i])
    ensures var c := Enter(d);
      var l, q := Leave(c, Committed), p + [Version(c.tx, 0, value)];
      && (d.cur != 0 ==> Rows(l, -d.cur, q) == Rows(d.log, -d.cur, p))
      && Rows(l, d.cur, q) == Rows(d.log, d.cur, p) + [value]
  {
    AppendRows(d, p, value);
    RowsKept(d, p, Committed);
  }

  // The snapshot shows of a page what the state is said to show.
  ghost predicate SeenAlike(l: TxLog, s: Snapshot, k: TxLog, cur: int, p: Page) {
    forall j :: 0 <= j < |p| ==> Sees(l, p[j].Head(), s) == Shown(k, cur, p[j])
  }

  lemma PageSeen(d: Db, t: string)
    requires Sound(d) && t in d.pages
    ensures SeenAlike(Enter(d).log, Enter(d).snap, d.log, d.cur, d.pages[t])
  {
    forall j | 0 <= j < |d.pages[t]|
      ensures Sees(Enter(d).log, d.pages[t][j].Head(), Enter(d).snap) == Shown(d.log, d.cur, d.pages[t][j])
    {
      StatementSees(d, d.pages[t][j]);
    }
  }

  lemma SeenHit(l: TxLog, s: Snapshot, k: TxLog, cur: int, p: Page, m: Match)
    requires SeenAlike(l, s, k, cur, p)
    ensures var i, rows := FirstHit(l, s, p, m), Rows(k, cur, p);
      if i < |p| then
        && Shown(k, cur, p[i])
        && FirstMatch(rows, m) < |rows| && rows[FirstMatch(rows, m)] == p[i].value
        && Without(rows, FirstMatch(rows, m)) == Rows(k, cur, p[..i]) + Rows(k, cur, p[i + 1..])
      else FirstMatch(rows, m) == |rows|
  {
    var i := FirstHit(l, s, p, m);
    if i < |p| { HitIsFirstRow(k, cur, p, i, m); } else { NoHitNoRow(k, cur, p, m); }
  }

  lemma VisibleHit(d: Db, t: string, m: Match)
    requires Sound(d) && t in d.pages
    ensures var c, p := Enter(d), d.pages[t];
      var i, rows := FirstHit(c.log, c.snap, p, m), Rows(d.log, d.cur, p);
      if i < |p| then
        && Shown(d.log, d.cur, p[i])
        && FirstMatch(rows, m) < |rows| && rows[FirstMatch(rows, m)] == p[i].value
        && Without(rows, FirstMatch(rows, m)) == Rows(d.log, d.cur, p[..i]) + Rows(d.log, d.cur, p[i + 1..])
      else FirstMatch(rows, m) == |rows|
  {
    PageSeen(d, t);
    SeenHit(Enter(d).log, Enter(d).snap, d.log, d.cur, d.pages[t], m);
  }

  lemma DeleteMiss(d: Db, a: Plain, t: string, id: int)
    requires Refines(d, a) && Sound(d) && t in d.pages
    requires var c := Enter(d); FirstHit(c.log, c.snap, d.pages[t], ByRecord(id)) == |d.pages[t]|
    ensures Refines(DoDelete(d, t, id), PlainStep(a, d.columns, Delete(t, id)))
  {
    assert TableRefines(d, a, t);
    VisibleHit(d, t, ByRecord(id));
    KeepsAll(d, Committed);
    NoChange(d, a, DoDelete(d, t, id));
    assert a.working[t := a.working[t]] == a.working && a.committed[t := a.committed[t]] == a.committed;
    assert a.used[t := a.used[t]] == a.used;
    assert !a.open ==> a.committed == a.working by { ClosedAgrees(d, a); }
  }

  // Outside a transaction there is one copy of the rows.
  lemma ClosedAgrees(d: Db, a: Plain)
    requires Refines(d, a)
    ensures !a.open ==> a.committed == a.working
  {
    forall t | t in a.working ensures !a.open ==> a.committed[t] == a.working[t] { assert TableRefines(d, a, t); }
  }

  lemma DeleteRefines(d: Db, a: Plain, t: string, id: int)
    requires Refines(d, a) && Sound(d) && Guard(d, Delete(t, id))
    ensures Refines(DoDelete(d, t, id), PlainStep(a, d.columns, Delete(t, id)))
  {
    if t in d.pages {
      var c, p := Enter(d), d.pages[t];
      var i := FirstHit(c.log, c.snap, p, ByRecord(id));
      if i == |p| { DeleteMiss(d, a, t, id); } else { DeleteHit(d, a, t, id); }
    }
  }

  lemma DeleteHit(d: Db, a: Plain, t: string, id: int)
    requires Refines(d, a) && Sound(d) && Guard(d, Delete(t, id)) && t in d.pages
    requires FirstHit(Enter(d).log, Enter(d).snap, d.pages[t], ByRecord(id)) < |d.pages[t]|
    ensures Refines(DoDelete(d, t, id), PlainStep(a, d.columns, Delete(t, id)))
  {
    var e, m := DoDelete(d, t, id), ByRecord(id);
    var i := FirstHit(Enter(d).log, Enter(d).snap, d.pages[t], m);
    assert TableRefines(d, a, t);
    KilledHit(d, Enter(d), d.pages[t], t, m, i, e.log, e.pages[t], a.working[t]);
    KeepsAll(d, Committed);
    ChangeIsPut(d, a, e, t, Without(a.working[t], FirstMatch(a.working[t], m)), a.used[t]);
  }

  // Marking every row the statement sees, none of them the transaction's own.
  lemma KilledAll(d: Db, t: string, l: TxLog, q: Page)
    requires Sound(d) && Guard(d, DeleteAll(t)) && t in d.pages && l == Leave(Enter(d), Committed)
    requires q == KillAll(Enter(d).log, Enter(d).snap, d.pages[t], Enter(d).tx)
    ensures Rows(l, d.cur, q) == []
    ensures d.cur != 0 ==> Rows(l, -d.cur, q) == Rows(d.log, -d.cur, d.pages[t])
  {
    var p := d.pages[t];
    forall i | 0 <= i < |p|
      ensures !Shown(l, d.cur, q[i]) && (d.cur != 0 ==> Shown(l, -d.cur, q[i]) == Shown(d.log, -d.cur, p[i]))
    {
      StatementSees(d, p[i]);
      StatementKeeps(d, p[i], Committed, d.cur);
      StatementKeeps(d, p[i], Committed, -d.cur);
      if Shown(d.log, d.cur, p[i]) { KilledIsHidden(d, p[i]); }
    }
    NoRows(l, d.cur, q);
    if d.cur != 0 { RowsAgree(l, -d.cur, d.log, -d.cur, q, p); }
  }

  lemma DeleteAllRefines(d: Db, a: Plain, t: string)
    requires Refines(d, a) && Sound(d) && Guard(d, DeleteAll(t))
    ensures Refines(DoDeleteAll(d, t), PlainStep(a, d.columns, DeleteAll(t)))
  {
    if t in d.pages {
      var e := DoDeleteAll(d, t);
      WorkingRows(d, a, t);
      KilledAll(d, t, e.log, e.pages[t]);
      KeepsAll(d, Committed);
      ChangeIsPut(d, a, e, t, [], a.used[t]);
    }
  }

  lemma UpdateRefines(d: Db, a: Plain, t: string, setText: string, id: int)
    requires Refines(d, a) && Sound(d) && Guard(d, Update(t, setText, id))
    ensures Refines(DoUpdate(d, t, setText, id), PlainStep(a, d.columns, Update(t, setText, id)))
  {
    if t in d.pages && "id" in d.columns[t] {
      assert TableRefines(d, a, t);
      var c, p, m := Enter(d), d.pages[t], ByColumn(IdColumn(d.columns[t]), id);
      var i := FirstHit(c.log, c.snap, p, m);
      if i == |p| {
        VisibleHit(d, t, m);
        KeepsAll(d, Committed);
        NoChange(d, a, DoUpdate(d, t, setText, id));
      } else if |p| < SLOTS {
        UpdateHit(d, a, t, setText, id, c, i);
      } else {
        UpdateInVain(d, a, t, setText, id, i);
      }
    }
  }

  // What is done on a full page, and what should be.
  lemma UpdateNoRoomIs(d: Db, a: Plain, t: string, setText: string, id: int, i: nat)
    requires Refines(d, a) && Sound(d) && t in d.pages && "id" in d.columns[t] && i < |d.pages[t]| && |d.pages[t]| >= SLOTS
    requires i == FirstHit(Enter(d).log, Enter(d).snap, d.pages[t], ByColumn(IdColumn(d.columns[t]), id))
    ensures PlainStep(a, d.columns, Update(t, setText, id)) == a
    ensures DoUpdate(d, t, setText, id) ==
            d.(log := Leave(Enter(d), Committed), pages := d.pages[t := Kill(d.pages[t], i, Enter(d).tx)])
  {
    WorkingRows(d, a, t);
  }

  // On a full page a row of the transaction's own is marked, and still shows.
  lemma UpdateInVain(d: Db, a: Plain, t: string, setText: string, id: int, i: nat)
    requires Refines(d, a) && Sound(d) && t in d.pages && "id" in d.columns[t] && i < |d.pages[t]| && |d.pages[t]| >= SLOTS
    requires i == FirstHit(Enter(d).log, Enter(d).snap, d.pages[t], ByColumn(IdColumn(d.columns[t]), id))
    requires Own(d, d.pages[t][i])
    ensures PlainStep(a, d.columns, Update(t, setText, id)) == a && Refines(DoUpdate(d, t, setText, id), a)
  {
    UpdateNoRoomIs(d, a, t, setText, id, i);
    VisibleHit(d, t, ByColumn(IdColumn(d.columns[t]), id));
    MarkedInVain(d, a, DoUpdate(d, t, setText, id), t, i);
  }

  lemma MarkedInVain(d: Db, a: Plain, e: Db, t: string, i: nat)
    requires Refines(d, a) && Sound(d) && t in d.pages && i < |d.pages[t]| && Own(d, d.pages[t][i])
    requires Shown(d.log, d.cur, d.pages[t][i])
    requires e == d.(pages := d.pages[t := Kill(d.pages[t], i, d.cur)])
    ensures Refines(e, a)
  {
    KillRows(d, t, i);
    forall n | n in e.pages ensures TableRefines(e, a, n) { assert TableRefines(d, a, n); }
  }

  lemma PlainUpdateIs(a: Plain, columns: map<string, seq<string>>, t: string, setText: string, id: int, value: string)
    requires t in a.working && t in a.used && t in columns && "id" in columns[t]
    requires var k := FirstMatch(a.working[t], ByColumn(IdColumn(columns[t]), id)); k < |a.working[t]| && a.working[t][k] == value
    requires a.used[t] < SLOTS
    ensures PlainStep(a, columns, Update(t, setText, id)) ==
            Put(a, t, Without(a.working[t], FirstMatch(a.working[t], ByColumn(IdColumn(columns[t]), id))) +
                      [Cut(NewRow(columns[t], setText, value), STORED_MAX)], a.used[t] + 1)
  {
  }

  lemma UpdateHitIs(d: Db, t: string, setText: string, id: int, c: Ctx, i: nat)
    requires t in d.pages && t in d.columns && "id" in d.columns[t] && i < |d.pages[t]| < SLOTS
    requires c == Enter(d) && i == FirstHit(c.log, c.snap, d.pages[t], ByColumn(IdColumn(d.columns[t]), id))
    ensures var e, p := DoUpdate(d, t, setText, id), d.pages[t];
      && e.log == Leave(c, Committed) && e.cur == d.cur
      && e.pages == d.pages[t := Kill(p, i, c.tx) +
                                 [Version(c.tx, 0, Cut(NewRow(d.columns[t], setText, p[i].value), STORED_MAX))]]
  {
  }

  lemma UpdateHit(d: Db, a: Plain, t: string, setText: string, id: int, c: Ctx, i: nat)
    requires Refines(d, a) && Sound(d) && t in d.pages && "id" in d.columns[t] && i < |d.pages[t]| < SLOTS
    requires c == Enter(d) && i == FirstHit(c.log, c.snap, d.pages[t], ByColumn(IdColumn(d.columns[t]), id))
    requires !Own(d, d.pages[t][i])
    ensures Refines(DoUpdate(d, t, setText, id), PlainStep(a, d.columns, Update(t, setText, id)))
  {
    UpdateHitIs(d, t, setText, id, c, i);
    UpdatedRefines(d, a, DoUpdate(d, t, setText, id), t, setText, id, c, i);
  }

  lemma UpdatedRefines(d: Db, a: Plain, e: Db, t: string, setText: string, id: int, c: Ctx, i: nat)
    requires Refines(d, a) && Sound(d) && t in d.pages && "id" in d.columns[t] && i < |d.pages[t]| < SLOTS
    requires c == Enter(d) && i == FirstHit(c.log, c.snap, d.pages[t], ByColumn(IdColumn(d.columns[t]), id))
    requires !Own(d, d.pages[t][i]) && e.log == Leave(c, Committed) && e.cur == d.cur
    requires e.pages == d.pages[t := Kill(d.pages[t], i, c.tx) +
                                     [Version(c.tx, 0, Cut(NewRow(d.columns[t], setText, d.pages[t][i].value), STORED_MAX))]]
    ensures Refines(e, PlainStep(a, d.columns, Update(t, setText, id)))
  {
    var m, value := ByColumn(IdColumn(d.columns[t]), id), d.pages[t][i].value;
    assert TableRefines(d, a, t);
    VisibleHit(d, t, m);
    PlainUpdateIs(a, d.columns, t, setText, id, value);
    ReplaceRefines(d, a, e, t, m, i, Cut(NewRow(d.columns[t], setText, value), STORED_MAX), c);
  }

  // Marking the first hit and appending a row, whatever the row is.
  lemma ReplaceRefines(d: Db, a: Plain, e: Db, t: string, m: Match, i: nat, row: string, c: Ctx)
    requires Refines(d, a) && Sound(d) && t in d.pages && t in a.working && t in a.used && i < |d.pages[t]|
    requires c == Enter(d) && i == FirstHit(c.log, c.snap, d.pages[t], m) && !Own(d, d.pages[t][i])
    requires e.log == Leave(c, Committed) && e.cur == d.cur
    requires e.pages == d.pages[t := Kill(d.pages[t], i, c.tx) + [Version(c.tx, 0, row)]]
    ensures Refines(e, Put(a, t, Without(a.working[t], FirstMatch(a.working[t], m)) + [row], a.used[t] + 1))
  {
    var rows := Without(a.working[t], FirstMatch(a.working[t], m)) + [row];
    WorkingRows(d, a, t);
    ReplaceRows(d, c, d.pages[t], t, m, i, row, e.log, e.pages[t], a.working[t]);
    CommitAndPut(d, a, e, t, rows);
  }

  lemma WorkingRows(d: Db, a: Plain, t: string)
    requires Refines(d, a) && t in d.pages && t in a.working && t in a.used
    ensures a.working[t] == Rows(d.log, d.cur, d.pages[t]) && a.used[t] == |d.pages[t]|
  {
    assert TableRefines(d, a, t);
  }

  // A statement that leaves one page with these rows and one more version.
  lemma CommitAndPut(d: Db, a: Plain, e: Db, t: string, rows: seq<string>)
    requires Refines(d, a) && Sound(d) && t in d.pages && t in e.pages && t in a.used && a.used[t] + 1 == |e.pages[t]|
    requires e.log == Leave(Enter(d), Committed) && e.cur == d.cur && e.pages == d.pages[t := e.pages[t]]
    requires rows == Rows(e.log, d.cur, e.pages[t])
    requires d.cur != 0 ==> Rows(e.log, -d.cur, e.pages[t]) == Rows(d.log, -d.cur, d.pages[t])
    ensures Refines(e, Put(a, t, rows, a.used[t] + 1))
  {
    KeepsAll(d, Committed);
    ChangeIsPut(d, a, e, t, rows, a.used[t] + 1);
  }

  lemma ReplaceRows(d: Db, c: Ctx, p: Page, t: string, m: Match, i: nat, row: string, l: TxLog, q: Page, rows: seq<string>)
    requires Sound(d) && t in d.pages && p == d.pages[t] && i < |p| && !Own(d, p[i])
    requires c == Enter(d) && i == FirstHit(c.log, c.snap, p, m)
    requires l == Leave(c, Committed) && rows == Rows(d.log, d.cur, p)
    requires q == Kill(p, i, c.tx) + [Version(c.tx, 0, row)]
    ensures d.cur != 0 ==> Rows(l, -d.cur, q) == Rows(d.log, -d.cur, p)
    ensures Rows(l, d.cur, q) == Without(rows, FirstMatch(rows, m)) + [row]
  {
    KilledHit(d, c, p, t, m, i, l, Kill(p, i, c.tx), rows);
    AppendRows(d, Kill(p, i, c.tx), row);
  }

  lemma KilledHit(d: Db, c: Ctx, p: Page, t: string, m: Match, i: nat, l: TxLog, q: Page, rows: seq<string>)
    requires Sound(d) && t in d.pages && p == d.pages[t] && i < |p| && !Own(d, p[i])
    requires c == Enter(d) && i == FirstHit(c.log, c.snap, p, m)
    requires l == Leave(c, Committed) && q == Kill(p, i, c.tx) && rows == Rows(d.log, d.cur, p)
    ensures d.cur != 0 ==> Rows(l, -d.cur, q) == Rows(d.log, -d.cur, p)
    ensures Rows(l, d.cur, q) == Without(rows, FirstMatch(rows, m))
  {
    HitShows(d, c, t, m, i, rows);
    KillRows(d, t, i);
  }

  lemma HitShows(d: Db, c: Ctx, t: string, m: Match, i: nat, rows: seq<string>)
    requires Sound(d) && t in d.pages && c == Enter(d) && i == FirstHit(c.log, c.snap, d.pages[t], m) < |d.pages[t]|
    requires rows == Rows(d.log, d.cur, d.pages[t])
    ensures Shown(d.log, d.cur, d.pages[t][i])
    ensures Without(rows, FirstMatch(rows, m)) == Rows(d.log, d.cur, d.pages[t][..i]) + Rows(d.log, d.cur, d.pages[t][i + 1..])
  {
    VisibleHit(d, t, m);
  }

  // ----- transactions -----

  // The transaction that is left behind, if any, has an entry, or what it did does not matter.
  lemma BeginRefines(d: Db, a: Plain)
    requires Refines(d, a) && Sound(d) && Guard(d, Begin)
    ensures Refines(Step(d, Begin), PlainStep(a, d.columns, Begin))
  {
    var e, b := Step(d, Begin), PlainStep(a, d.columns, Begin);
    forall t | t in e.pages ensures TableRefines(e, b, t) {
      assert TableRefines(d, a, t);
      LeftBehind(d, t);
      BegunRows(d, t);
    }
  }

  // A new transaction starts from what is committed.
  lemma BegunRows(d: Db, t: string)
    requires Sound(d) && t in d.pages
    ensures var e := Step(d, Begin);
      Rows(e.log, e.cur, d.pages[t]) == Rows(e.log, -e.cur, d.pages[t]) == Rows(d.log, 0, d.pages[t])
  {
    var e := Step(d, Begin);
    RowsAgree(e.log, -e.cur, d.log, 0, d.pages[t], d.pages[t]);
    RowsAgree(e.log, e.cur, d.log, 0, d.pages[t], d.pages[t]);
  }

  lemma LeftBehind(d: Db, t: string)
    requires Sound(d) && t in d.pages && Guard(d, Begin)
    ensures Rows(d.log, 0, d.pages[t]) == Rows(d.log, -d.cur, d.pages[t])
  {
    if d.cur <= MAX_TX { RowsAgree(d.log, 0, d.log, -d.cur, d.pages[t], d.pages[t]); }
  }

  // A transaction with an entry is undone, one without is published.
  lemma UndoneRows(d: Db, t: string)
    requires Sound(d) && t in d.pages
    ensures var e := Step(d, Rollback);
      Rows(e.log, 0, d.pages[t]) == if d.cur > MAX_TX then Rows(d.log, 0, d.pages[t]) else Rows(d.log, -d.cur, d.pages[t])
  {
    var e, p := Step(d, Rollback), d.pages[t];
    if d.cur <= MAX_TX { RowsAgree(e.log, 0, d.log, -d.cur, p, p); }
  }

  lemma RollbackRefines(d: Db, a: Plain)
    requires Refines(d, a) && Sound(d) && Guard(d, Rollback)
    ensures Refines(Step(d, Rollback), PlainStep(a, d.columns, Rollback))
  {
    forall t | t in d.pages ensures TableRefines(Step(d, Rollback), PlainStep(a, d.columns, Rollback), t) {
      assert TableRefines(d, a, t);
      LeftBehind(d, t);
      UndoneRows(d, t);
    }
  }

  lemma CommitRefines(d: Db, a: Plain)
    requires Refines(d, a) && Sound(d) && Clean(d)
    ensures Refines(Step(d, Commit), PlainStep(a, d.columns, Commit))
  {
    var e, b := Step(d, Commit), PlainStep(a, d.columns, Commit);
    forall t | t in e.pages ensures TableRefines(e, b, t) {
      assert TableRefines(d, a, t);
      RowsAgree(e.log, 0, d.log, d.cur, d.pages[t], d.pages[t]);
    }
  }

  // ----- every statement, every run -----

  lemma LeaveSound(d: Db, s: Status)
    requires Sound(d) && s != Free
    ensures var l := Leave(Enter(d), s);
      && ValidLog(l) && d.log.begun <= l.begun && Enter(d).tx == l.begun
      && (d.cur != 0 ==> l == d.log)
  {
  }

  // A page that holds old versions, marked ones and at most a new one.
  ghost predicate Continues(d: Db, t: string, q: Page) {
    var tx := Enter(d).tx;
    && t in d.pages && |q| <= SLOTS
    && forall i :: 0 <= i < |q| ==>
      (i < |d.pages[t]| && (q[i] == d.pages[t][i] || q[i] == Killed(d.pages[t][i], tx))) || (q[i].xmin == tx && q[i].xmax == 0)
  }

  lemma ContinuesSound(d: Db, e: Db, t: string, q: Page, s: Status)
    requires Sound(d) && s != Free && Continues(d, t, q)
    requires e == d.(log := Leave(Enter(d), s), pages := d.pages[t := q], index := e.index)
    ensures Sound(e)
  {
    LeaveSound(d, s);
  }

  lemma QuietSound(d: Db, e: Db, s: Status)
    requires Sound(d) && s != Free
    requires e == d.(log := Leave(Enter(d), s), index := e.index) || e == d.(index := e.index)
    ensures Sound(e)
  {
    LeaveSound(d, s);
  }

  lemma BoundarySound(d: Db, s: Stmt)
    requires Sound(d) && (s.Begin? || s.Commit? || s.Rollback?)
    ensures Sound(Step(d, s))
  {
  }

  lemma InsertSound(d: Db, t: string, v: string)
    requires Sound(d) && t in d.pages
    ensures Sound(DoInsert(d, t, v))
  {
    var e := DoInsert(d, t, v);
    if |d.pages[t]| >= SLOTS { QuietSound(d, e, Aborted); } else { ContinuesSound(d, e, t, e.pages[t], Committed); }
  }

  lemma DeleteSound(d: Db, t: string, id: int)
    requires Sound(d) && t in d.pages
    ensures Sound(DoDelete(d, t, id))
  {
    var e := DoDelete(d, t, id);
    assert e.pages == d.pages[t := e.pages[t]];
    ContinuesSound(d, e, t, e.pages[t], Committed);
  }

  lemma DeleteAllSound(d: Db, t: string)
    requires Sound(d) && t in d.pages
    ensures Sound(DoDeleteAll(d, t))
  {
    var e := DoDeleteAll(d, t);
    ContinuesSound(d, e, t, e.pages[t], Committed);
  }

  lemma ReadSound(d: Db, known: bool)
    requires Sound(d)
    ensures Sound(DoRead(d, known))
  {
    if known { QuietSound(d, DoRead(d, known), Committed); }
  }

  lemma StepSound(d: Db, s: Stmt)
    requires Sound(d)
    ensures Sound(Step(d, s))
  {
    match s
    case Begin => BoundarySound(d, s);
    case Commit => BoundarySound(d, s);
    case Rollback => BoundarySound(d, s);
    case Insert(t, v) => if t in d.pages { InsertSound(d, t, v); }
    case Update(t, set_, id) => UpdateSound(d, t, set_, id);
    case Delete(t, id) => if t in d.pages { DeleteSound(d, t, id); }
    case DeleteAll(t) => if t in d.pages { DeleteAllSound(d, t); }
    case Select(t) => ReadSound(d, t in d.pages);
    case SelectId(t, id) => SelectIdSound(d, t, id);
    case Join(t, o) => ReadSound(d, JoinOpens(d, t, o));
  }

  lemma SelectIdSound(d: Db, t: string, id: int)
    requires Sound(d)
    ensures Sound(DoSelectId(d, t, id))
  {
    var e := DoSelectId(d, t, id);
    if e.log != d.log { QuietSound(d, e, Committed); }
  }

  // What UPDATE does when it finds version i.
  lemma UpdateWrites(d: Db, t: string, setText: string, id: int, i: nat)
    requires t in d.pages && t in d.columns && "id" in d.columns[t] && i < |d.pages[t]|
    requires i == FirstHit(Enter(d).log, Enter(d).snap, d.pages[t], ByColumn(IdColumn(d.columns[t]), id))
    ensures var e, c, p := DoUpdate(d, t, setText, id), Enter(d), d.pages[t];
      var q, row := Kill(p, i, c.tx), Cut(NewRow(d.columns[t], setText, p[i].value), STORED_MAX);
      && e.pages == d.pages[t := if |p| >= SLOTS then q else q + [Version(c.tx, 0, row)]]
      && e == d.(log := Leave(c, Committed), pages := e.pages, index := e.index)
  {
  }

  lemma ReplacedContinues(d: Db, t: string, i: nat, row: string)
    requires Sound(d) && t in d.pages && i < |d.pages[t]|
    ensures var q := Kill(d.pages[t], i, Enter(d).tx);
      Continues(d, t, q) && (|q| < SLOTS ==> Continues(d, t, q + [Version(Enter(d).tx, 0, row)]))
  {
  }

  lemma UpdateContinues(d: Db, t: string, setText: string, id: int)
    requires Sound(d) && t in d.pages && "id" in d.columns[t]
    ensures var e := DoUpdate(d, t, setText, id);
      && t in e.pages && Continues(d, t, e.pages[t])
      && e == d.(log := Leave(Enter(d), Committed), pages := d.pages[t := e.pages[t]], index := e.index)
  {
    var c, p := Enter(d), d.pages[t];
    var i := FirstHit(c.log, c.snap, p, ByColumn(IdColumn(d.columns[t]), id));
    if i == |p| {
      assert d.pages[t := p] == d.pages;
    } else {
      ReplacedContinues(d, t, i, Cut(NewRow(d.columns[t], setText, p[i].value), STORED_MAX));
    }
  }

  lemma UpdateSound(d: Db, t: string, setText: string, id: int)
    requires Sound(d)
    ensures Sound(DoUpdate(d, t, setText, id))
  {
    var e := DoUpdate(d, t, setText, id);
    if t in d.pages && "id" in d.columns[t] {
      UpdateContinues(d, t, setText, id);
      ContinuesSound(d, e, t, e.pages[t], Committed);
    }
  }
}
