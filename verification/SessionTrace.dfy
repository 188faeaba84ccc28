// What the session does, guarded or not, to the rows that can still show; and so that a transaction
// that was rolled back leaves no trace in anything that follows.
module SessionTrace {
  import opened Mvcc
  import opened RowCodec
  import opened Session
  import opened SessionRefinement
  import opened SessionProperties
  import opened SessionRollback

  // ----- rows without versions -----

  // Of the open transaction a row is older, and committed, or new; either may be marked by it.
  datatype Kind = Old | OldMarked | New | NewMarked

  datatype Row = Row(kind: Kind, value: string)

  // The tables, and whether a transaction is open.  Without one there are old rows only.
  datatype Store = Store(tables: map<string, seq<Row>>, open: bool)

  // A transaction does not see what it marked, except what it inserted itself.
  predicate Seen(r: Row) {
    r.kind != OldMarked
  }

  function Marked(r: Row, open: bool): seq<Row> {
    if !open then []
    else [r.(kind := if r.kind == Old || r.kind == OldMarked then OldMarked else NewMarked)]
  }

  // What a statement can do to every row of a table.
  datatype Effect = MarkSeen(open: bool) | Publish | Undo

  function Apply(e: Effect, r: Row): seq<Row> {
    match e
    case MarkSeen(open) => if Seen(r) then Marked(r, open) else [r]
    case Publish => if r.kind == Old || r.kind == New then [r.(kind := Old)] else []
    case Undo => if r.kind == Old || r.kind == OldMarked then [r.(kind := Old)] else []
  }

  function Each(e: Effect, rows: seq<Row>): seq<Row>
    decreases |rows|
  {
    if rows == [] then [] else Each(e, rows[..|rows| - 1]) + Apply(e, rows[|rows| - 1])
  }

  function EachTable(e: Effect, tables: map<string, seq<Row>>): map<string, seq<Row>> {
    map t | t in tables :: Each(e, tables[t])
  }

  // ROLLBACK, and a BEGIN inside a transaction, undo it, or publish it if it is late.
  function Undoing(late: bool): Effect {
    if late then Publish else Undo
  }

  function FirstSeen(rows: seq<Row>, m: Match): (i: nat)
    ensures i <= |rows| && (i < |rows| ==> Seen(rows[i]) && Matches(m, rows[i].value))
    ensures forall j :: 0 <= j < i ==> !(Seen(rows[j]) && Matches(m, rows[j].value))
  {
    if rows == [] || (Seen(rows[0]) && Matches(m, rows[0].value)) then 0
    else
      var i := FirstSeen(rows[1..], m);
      assert forall j :: 1 <= j < i + 1 ==> rows[j] == rows[1..][j - 1];
      1 + i
  }

  function MarkAt(rows: seq<Row>, i: nat, open: bool): seq<Row> {
    if i < |rows| then rows[..i] + Marked(rows[i], open) + rows[i + 1..] else rows
  }

  function Added(rows: seq<Row>, value: string, open: bool): seq<Row> {
    rows + [Row(if open then New else Old, Cut(value, STORED_MAX))]
  }

  function UpdatedRows(rows: seq<Row>, cols: seq<string>, setText: string, id: int, open: bool, full: bool): seq<Row> {
    var i := FirstSeen(rows, ByColumn(IdColumn(cols), id));
    if i == |rows| then rows
    else if full then MarkAt(rows, i, open)
    else Added(MarkAt(rows, i, open), NewRow(cols, setText, rows[i].value), open)
  }

  // What a statement makes of the rows of its table.  full: the page has no slot left.
  function RowsAfter(rows: seq<Row>, cols: seq<string>, s: Stmt, open: bool, full: bool): seq<Row>
    requires IsWrite(s)
  {
    match s
    case Insert(_, v) => if full then rows else Added(rows, v, open)
    case Delete(_, id) => MarkAt(rows, FirstSeen(rows, ByRecord(id)), open)
    case DeleteAll(_) => Each(MarkSeen(open), rows)
    case Update(_, set_, id) => if "id" in cols then UpdatedRows(rows, cols, set_, id, open, full) else rows
  }

  function PutRows(st: Store, t: string, rows: seq<Row>): Store {
    st.(tables := st.tables[t := rows])
  }

  // late: the open transaction has no entry in the transaction table.
  function StoreStep(st: Store, columns: map<string, seq<string>>, s: Stmt, full: bool, late: bool): Store {
    if IsWrite(s) then
      if s.table in st.tables && s.table in columns
      then PutRows(st, s.table, RowsAfter(st.tables[s.table], columns[s.table], s, st.open, full)) else st
    else if s.Begin? then Store(if st.open then EachTable(Undoing(late), st.tables) else st.tables, true)
    else if s.Commit? && st.open then Store(EachTable(Publish, st.tables), false)
    else if s.Rollback? && st.open then Store(EachTable(Undoing(late), st.tables), false)
    else st
  }

  // ----- the rows of a page -----

  function RowOf(l: TxLog, cur: int, v: Version): seq<Row> {
    if cur != 0 && v.xmin == cur then [Row(if v.xmax == 0 then New else NewMarked, v.value)]
    else if Shown(l, -cur, v) then [Row(if Shown(l, cur, v) then Old else OldMarked, v.value)]
    else []
  }

  function RowsOf(l: TxLog, cur: int, p: Page): seq<Row> {
    if p == [] then [] else RowsOf(l, cur, p[..|p| - 1]) + RowOf(l, cur, p[|p| - 1])
  }

  function StoreOf(d: Db): Store {
    Store(map t | t in d.pages :: RowsOf(d.log, d.cur, d.pages[t]), d.cur != 0)
  }

  // The rows a statement prints.
  function SeenValues(rows: seq<Row>): seq<string> {
    if rows == [] then []
    else SeenValues(rows[..|rows| - 1]) + (if Seen(rows[|rows| - 1]) then [rows[|rows| - 1].value] else [])
  }

  lemma {:induction false} RowsOfConcat(l: TxLog, cur: int, p: Page, q: Page)
    ensures RowsOf(l, cur, p + q) == RowsOf(l, cur, p) + RowsOf(l, cur, q)
    decreases |q|
  {
    if q == [] {
      assert p + q == p;
    } else {
      assert (p + q)[..|p + q| - 1] == p + q[..|q| - 1];
      RowsOfConcat(l, cur, p, q[..|q| - 1]);
    }
  }

  lemma {:induction false} EachConcat(f: Effect, a: seq<Row>, b: seq<Row>)
    ensures Each(f, a + b) == Each(f, a) + Each(f, b)
    decreases |b|
  {
    if b == [] {
      assert a + b == a;
    } else {
      assert (a + b)[..|a + b| - 1] == a + b[..|b| - 1];
      EachConcat(f, a, b[..|b| - 1]);
    }
  }

  // What happens to every version happens to every row.
  lemma {:induction false} EachRow(f: Effect, l: TxLog, cur: int, m: TxLog, cur': int, p: Page, q: Page)
    requires |p| == |q| && forall i :: 0 <= i < |p| ==> RowOf(m, cur', q[i]) == Each(f, RowOf(l, cur, p[i]))
    ensures RowsOf(m, cur', q) == Each(f, RowsOf(l, cur, p))
    decreases |p|
  {
    if p != [] {
      var n := |p| - 1;
      EachRow(f, l, cur, m, cur', p[..n], q[..n]);
      EachConcat(f, RowsOf(l, cur, p[..n]), RowOf(l, cur, p[n]));
    }
  }

  lemma {:induction false} RowsOfAgree(l: TxLog, m: TxLog, cur: int, p: Page)
    requires forall i :: 0 <= i < |p| ==> RowOf(m, cur, p[i]) == RowOf(l, cur, p[i])
    ensures RowsOf(m, cur, p) == RowsOf(l, cur, p)
  {
    if p != [] { RowsOfAgree(l, m, cur, p[..|p| - 1]); }
  }

  lemma EachOne(f: Effect, r: Row)
    ensures Each(f, [r]) == Apply(f, r) && Each(f, []) == []
  {
    assert [r][..0] == [];
  }

  lemma RowsOfSplit(l: TxLog, cur: int, p: Page, i: nat)
    requires i < |p|
    ensures RowsOf(l, cur, p) == RowsOf(l, cur, p[..i]) + RowOf(l, cur, p[i]) + RowsOf(l, cur, p[i + 1..])
  {
    assert p == p[..i + 1] + p[i + 1..] && p[..i + 1][..i] == p[..i];
    RowsOfConcat(l, cur, p[..i + 1], p[i + 1..]);
  }

  lemma {:induction false} RowComesFrom(l: TxLog, cur: int, p: Page, r: Row)
    requires r in RowsOf(l, cur, p)
    ensures exists i :: 0 <= i < |p| && RowOf(l, cur, p[i]) == [r]
    decreases |p|
  {
    var n := |p| - 1;
    if r in RowsOf(l, cur, p[..n]) {
      RowComesFrom(l, cur, p[..n], r);
      var i :| 0 <= i < n && RowOf(l, cur, p[..n][i]) == [r];
      assert p[i] == p[..n][i];
    } else {
      assert RowOf(l, cur, p[n]) == [r];
    }
  }

  // A statement sees a version exactly if it has a row that is seen.
  lemma SeenIsShown(d: Db, v: Version)
    requires Sound(d) && InRange(d.log, v)
    ensures |RowOf(d.log, d.cur, v)| <= 1
    ensures Shown(d.log, d.cur, v) <==> RowOf(d.log, d.cur, v) != [] && Seen(RowOf(d.log, d.cur, v)[0])
    ensures RowOf(d.log, d.cur, v) != [] ==> RowOf(d.log, d.cur, v)[0].value == v.value
  {
  }

  lemma {:induction false} SeenAreRows(d: Db, p: Page)
    requires Sound(d) && forall i :: 0 <= i < |p| ==> InRange(d.log, p[i])
    ensures SeenValues(RowsOf(d.log, d.cur, p)) == Rows(d.log, d.cur, p)
    decreases |p|
  {
    if p != [] {
      var n := |p| - 1;
      SeenAreRows(d, p[..n]);
      SeenIsShown(d, p[n]);
      var rows, r := RowsOf(d.log, d.cur, p), RowOf(d.log, d.cur, p[n]);
      if r != [] { assert rows[..|rows| - 1] == RowsOf(d.log, d.cur, p[..n]); } else { assert rows == RowsOf(d.log, d.cur, p[..n]); }
    }
  }

  // ----- one statement -----

  lemma QuietRow(d: Db, v: Version, s: Status)
    requires Sound(d) && InRange(d.log, v)
    ensures RowOf(Leave(Enter(d), s), d.cur, v) == RowOf(d.log, d.cur, v)
  {
    StatementKeeps(d, v, s, d.cur);
    StatementKeeps(d, v, s, -d.cur);
  }

  lemma QuietRows(d: Db, p: Page, s: Status)
    requires Sound(d) && forall i :: 0 <= i < |p| ==> InRange(d.log, p[i])
    ensures RowsOf(Leave(Enter(d), s), d.cur, p) == RowsOf(d.log, d.cur, p)
  {
    forall i | 0 <= i < |p| ensures RowOf(Leave(Enter(d), s), d.cur, p[i]) == RowOf(d.log, d.cur, p[i]) { QuietRow(d, p[i], s); }
    RowsOfAgree(d.log, Leave(Enter(d), s), d.cur, p);
  }

  // A statement that writes the page of t, or none.
  lemma OnlyTable(d: Db, e: Db, t: string, s: Status)
    requires Sound(d) && t in d.pages && t in e.pages
    requires e.pages == d.pages[t := e.pages[t]] && e.cur == d.cur && e.log == Leave(Enter(d), s)
    ensures StoreOf(e) == StoreOf(d).(tables := StoreOf(d).tables[t := RowsOf(e.log, d.cur, e.pages[t])])
  {
    var a, b := StoreOf(e).tables, StoreOf(d).tables[t := RowsOf(e.log, d.cur, e.pages[t])];
    forall n | n in e.pages && n != t ensures a[n] == b[n] { QuietRows(d, d.pages[n], s); }
    assert a.Keys == b.Keys && forall n :: n in a ==> a[n] == b[n];
  }

  lemma NoTable(d: Db, e: Db, s: Status)
    requires Sound(d) && e.pages == d.pages && e.cur == d.cur && (e.log == Leave(Enter(d), s) || e.log == d.log)
    ensures StoreOf(e) == StoreOf(d)
  {
    if e.log != d.log {
      forall n | n in e.pages ensures RowsOf(e.log, e.cur, e.pages[n]) == RowsOf(d.log, d.cur, d.pages[n]) { QuietRows(d, d.pages[n], s); }
    }
    assert StoreOf(e).tables == StoreOf(d).tables;
  }

  lemma AddedRow(d: Db, p: Page, value: string)
    requires Sound(d)
    ensures var c := Enter(d);
      RowsOf(Leave(c, Committed), d.cur, p + [Version(c.tx, 0, Cut(value, STORED_MAX))]) ==
      Added(RowsOf(Leave(c, Committed), d.cur, p), value, d.cur != 0)
  {
    var c := Enter(d);
    var l, v := Leave(c, Committed), Version(c.tx, 0, Cut(value, STORED_MAX));
    NewIsShown(d, v.value);
    RowsOfConcat(l, d.cur, p, [v]);
    assert [v][..0] == [];
  }

  lemma MarkedRow(d: Db, v: Version)
    requires Sound(d) && InRange(d.log, v) && Shown(d.log, d.cur, v)
    ensures RowOf(d.log, d.cur, v) != []
    ensures RowOf(Leave(Enter(d), Committed), d.cur, Killed(v, Enter(d).tx)) == Marked(RowOf(d.log, d.cur, v)[0], d.cur != 0)
  {
    SeenIsShown(d, v);
    KilledIsHidden(d, v);
  }

  // The first version a statement finds is the first row it finds.
  lemma HitIsFirstSeen(d: Db, t: string, m: Match, i: nat)
    requires Sound(d) && t in d.pages && i == FirstHit(Enter(d).log, Enter(d).snap, d.pages[t], m)
    ensures i < |d.pages[t]| ==> Shown(d.log, d.cur, d.pages[t][i]) && Matches(m, d.pages[t][i].value)
    ensures var p := d.pages[t];
      FirstSeen(RowsOf(d.log, d.cur, p), m) == |RowsOf(d.log, d.cur, p[..i])|
  {
    var p := d.pages[t];
    PageSeen(d, t);
    FirstShownIsSeen(d, p, m, i);
  }

  lemma FirstShownIsSeen(d: Db, p: Page, m: Match, i: nat)
    requires Sound(d) && i <= |p| && forall j :: 0 <= j < |p| ==> InRange(d.log, p[j])
    requires i < |p| ==> Shown(d.log, d.cur, p[i]) && Matches(m, p[i].value)
    requires forall j :: 0 <= j < i ==> !(Shown(d.log, d.cur, p[j]) && Matches(m, p[j].value))
    ensures FirstSeen(RowsOf(d.log, d.cur, p), m) == |RowsOf(d.log, d.cur, p[..i])|
  {
    var rows, before := RowsOf(d.log, d.cur, p), RowsOf(d.log, d.cur, p[..i]);
    if i < |p| {
      RowsOfSplit(d.log, d.cur, p, i);
      SeenIsShown(d, p[i]);
    } else {
      assert p[..i] == p;
    }
    forall j | 0 <= j < |before| ensures !(Seen(before[j]) && Matches(m, before[j].value)) {
      UnseenBefore(d, p[..i], m, before[j]);
    }
    FirstSeenIs(rows, before, m);
  }

  lemma UnseenBefore(d: Db, p: Page, m: Match, r: Row)
    requires Sound(d) && forall j :: 0 <= j < |p| ==> InRange(d.log, p[j])
    requires forall j :: 0 <= j < |p| ==> !(Shown(d.log, d.cur, p[j]) && Matches(m, p[j].value))
    requires r in RowsOf(d.log, d.cur, p)
    ensures !(Seen(r) && Matches(m, r.value))
  {
    RowComesFrom(d.log, d.cur, p, r);
    var k :| 0 <= k < |p| && RowOf(d.log, d.cur, p[k]) == [r];
    SeenIsShown(d, p[k]);
  }

  lemma FirstSeenIs(rows: seq<Row>, before: seq<Row>, m: Match)
    requires |before| <= |rows| && rows[..|before|] == before
    requires forall j :: 0 <= j < |before| ==> !(Seen(before[j]) && Matches(m, before[j].value))
    requires |before| < |rows| ==> Seen(rows[|before|]) && Matches(m, rows[|before|].value)
    ensures FirstSeen(rows, m) == |before|
  {
    assert forall j :: 0 <= j < |before| ==> rows[j] == before[j];
  }

  lemma MarkedAt(d: Db, t: string, m: Match, i: nat)
    requires Sound(d) && t in d.pages && i == FirstHit(Enter(d).log, Enter(d).snap, d.pages[t], m) < |d.pages[t]|
    ensures var p, rows := d.pages[t], RowsOf(d.log, d.cur, d.pages[t]);
      && FirstSeen(rows, m) < |rows| && rows[FirstSeen(rows, m)].value == p[i].value
      && RowsOf(Leave(Enter(d), Committed), d.cur, Kill(p, i, Enter(d).tx)) == MarkAt(rows, FirstSeen(rows, m), d.cur != 0)
  {
    var p, l, cur := d.pages[t], Leave(Enter(d), Committed), d.cur;
    var q := Kill(p, i, Enter(d).tx);
    HitIsFirstSeen(d, t, m, i);
    MarkedRow(d, p[i]);
    SeenIsShown(d, p[i]);
    assert q[..i] == p[..i] && q[i + 1..] == p[i + 1..];
    RowsOfSplit(d.log, cur, p, i);
    RowsOfSplit(l, cur, q, i);
    QuietRows(d, p[..i], Committed);
    QuietRows(d, p[i + 1..], Committed);
    Respliced(RowsOf(d.log, cur, p[..i]), RowOf(d.log, cur, p[i])[0], RowsOf(d.log, cur, p[i + 1..]), cur != 0);
  }

  lemma Respliced(before: seq<Row>, r: Row, after: seq<Row>, open: bool)
    ensures MarkAt(before + [r] + after, |before|, open) == before + Marked(r, open) + after
  {
    var rows := before + [r] + after;
    assert rows[..|before|] == before && rows[|before|] == r && rows[|before| + 1..] == after;
  }

  function TableRows(d: Db, t: string): seq<Row>
    requires t in d.pages
  {
    RowsOf(d.log, d.cur, d.pages[t])
  }

  // Nothing written is the old rows put back.
  lemma NothingPut(d: Db, e: Db, t: string, s: Status)
    requires Sound(d) && t in d.pages && e.pages == d.pages && e.cur == d.cur && (e.log == Leave(Enter(d), s) || e.log == d.log)
    ensures StoreOf(e) == StoreOf(d) == PutRows(StoreOf(d), t, TableRows(d, t))
  {
    NoTable(d, e, s);
    assert StoreOf(d).tables[t := StoreOf(d).tables[t]] == StoreOf(d).tables;
  }

  lemma InsertTraced(d: Db, t: string, value: string)
    requires Sound(d) && t in d.pages
    ensures StoreOf(DoInsert(d, t, value)) ==
            if |d.pages[t]| >= SLOTS then StoreOf(d) else PutRows(StoreOf(d), t, Added(TableRows(d, t), value, d.cur != 0))
  {
    var e := DoInsert(d, t, value);
    if |d.pages[t]| >= SLOTS {
      NothingPut(d, e, t, Aborted);
    } else {
      QuietRows(d, d.pages[t], Committed);
      AddedRow(d, d.pages[t], value);
      OnlyTable(d, e, t, Committed);
    }
  }

  lemma DeleteTraced(d: Db, t: string, id: int)
    requires Sound(d) && t in d.pages
    ensures var rows := TableRows(d, t);
      StoreOf(DoDelete(d, t, id)) == PutRows(StoreOf(d), t, MarkAt(rows, FirstSeen(rows, ByRecord(id)), d.cur != 0))
  {
    var e, i := DoDelete(d, t, id), FirstHit(Enter(d).log, Enter(d).snap, d.pages[t], ByRecord(id));
    if i < |d.pages[t]| {
      MarkedAt(d, t, ByRecord(id), i);
      OnlyTable(d, e, t, Committed);
    } else {
      HitIsFirstSeen(d, t, ByRecord(id), i);
      assert d.pages[t][..i] == d.pages[t];
      NothingPut(d, e, t, Committed);
    }
  }

  lemma DeleteAllTraced(d: Db, t: string)
    requires Sound(d) && t in d.pages
    ensures StoreOf(DoDeleteAll(d, t)) == PutRows(StoreOf(d), t, Each(MarkSeen(d.cur != 0), TableRows(d, t)))
  {
    var e := DoDeleteAll(d, t);
    AllMarked(d, d.pages[t], KillAll(Enter(d).log, Enter(d).snap, d.pages[t], Enter(d).tx));
    OnlyTable(d, e, t, Committed);
  }

  lemma AllMarked(d: Db, p: Page, q: Page)
    requires Sound(d) && q == KillAll(Enter(d).log, Enter(d).snap, p, Enter(d).tx)
    requires forall i :: 0 <= i < |p| ==> InRange(d.log, p[i])
    ensures RowsOf(Leave(Enter(d), Committed), d.cur, q) == Each(MarkSeen(d.cur != 0), RowsOf(d.log, d.cur, p))
  {
    forall i | 0 <= i < |p|
      ensures RowOf(Leave(Enter(d), Committed), d.cur, q[i]) == Each(MarkSeen(d.cur != 0), RowOf(d.log, d.cur, p[i]))
    {
      SeenVersion(d, p[i], q[i]);
    }
    EachRow(MarkSeen(d.cur != 0), d.log, d.cur, Leave(Enter(d), Committed), d.cur, p, q);
  }

  lemma SeenVersion(d: Db, v: Version, w: Version)
    requires Sound(d) && InRange(d.log, v)
    requires w == if Sees(Enter(d).log, v.Head(), Enter(d).snap) then Killed(v, Enter(d).tx) else v
    ensures RowOf(Leave(Enter(d), Committed), d.cur, w) == Each(MarkSeen(d.cur != 0), RowOf(d.log, d.cur, v))
  {
    StatementSees(d, v);
    SeenIsShown(d, v);
    if RowOf(d.log, d.cur, v) != [] {
      assert RowOf(d.log, d.cur, v) == [RowOf(d.log, d.cur, v)[0]];
      EachOne(MarkSeen(d.cur != 0), RowOf(d.log, d.cur, v)[0]);
    }
    if Shown(d.log, d.cur, v) { MarkedRow(d, v); } else { QuietRow(d, v, Committed); }
  }

  lemma UpdateTraced(d: Db, t: string, setText: string, id: int)
    requires Sound(d) && t in d.pages && "id" in d.columns[t]
    ensures StoreOf(DoUpdate(d, t, setText, id)) ==
            PutRows(StoreOf(d), t, UpdatedRows(TableRows(d, t), d.columns[t], setText, id, d.cur != 0, |d.pages[t]| >= SLOTS))
  {
    var e, p, m := DoUpdate(d, t, setText, id), d.pages[t], ByColumn(IdColumn(d.columns[t]), id);
    var i := FirstHit(Enter(d).log, Enter(d).snap, p, m);
    if i == |p| {
      HitIsFirstSeen(d, t, m, i);
      assert p[..i] == p;
      NothingPut(d, e, t, Committed);
    } else {
      UpdateWrites(d, t, setText, id, i);
      OnlyTable(d, e, t, Committed);
      UpdatedPage(d, t, m, i, d.columns[t], setText, e.pages[t]);
    }
  }

  lemma UpdatedPage(d: Db, t: string, m: Match, i: nat, cols: seq<string>, setText: string, q: Page)
    requires Sound(d) && t in d.pages && m == ByColumn(IdColumn(cols), m.id)
    requires i == FirstHit(Enter(d).log, Enter(d).snap, d.pages[t], m) < |d.pages[t]|
    requires var k, row := Kill(d.pages[t], i, Enter(d).tx), Cut(NewRow(cols, setText, d.pages[t][i].value), STORED_MAX);
      q == if |d.pages[t]| >= SLOTS then k else k + [Version(Enter(d).tx, 0, row)]
    ensures RowsOf(Leave(Enter(d), Committed), d.cur, q) ==
            UpdatedRows(TableRows(d, t), cols, setText, m.id, d.cur != 0, |d.pages[t]| >= SLOTS)
  {
    MarkedAt(d, t, m, i);
    AddedRow(d, Kill(d.pages[t], i, Enter(d).tx), NewRow(cols, setText, d.pages[t][i].value));
  }

  // What COMMIT, or an undoing, makes of a version's row; m is the log afterwards, and cur' the
  // transaction then open.
  lemma BoundaryRow(d: Db, v: Version, m: TxLog, cur': int, f: Effect)
    requires Sound(d) && InRange(d.log, v) && d.cur != 0 && (cur' == 0 || cur' == d.log.begun + 1)
    requires f.Publish? || f.Undo?
    requires Shown(m, -cur', v) == Shown(m, cur', v) == if f.Publish? then Shown(d.log, d.cur, v) && !(v.xmin == d.cur && v.xmax == d.cur)
                                                         else Shown(d.log, -d.cur, v)
    ensures RowOf(m, cur', v) == Each(f, RowOf(d.log, d.cur, v))
  {
    SeenIsShown(d, v);
    var r := RowOf(d.log, d.cur, v);
    if r != [] {
      assert r == [r[0]];
      EachOne(f, r[0]);
    }
  }

  function AtBoundary(d: Db, s: Stmt): Effect {
    if s.Commit? then Publish else Undoing(d.cur > MAX_TX)
  }

  // What shows after a boundary shows to everybody.
  lemma BoundaryShows(d: Db, s: Stmt, v: Version)
    requires Sound(d) && InRange(d.log, v) && d.cur != 0 && (s.Begin? || s.Commit? || s.Rollback?)
    ensures var e := Step(d, s);
      && (e.cur == 0 || e.cur == d.log.begun + 1)
      && (Shown(e.log, -e.cur, v) == Shown(e.log, e.cur, v) ==
          if AtBoundary(d, s).Publish? then Shown(d.log, d.cur, v) && !(v.xmin == d.cur && v.xmax == d.cur)
          else Shown(d.log, -d.cur, v))
  {
    match s
    case Begin =>
    case Commit =>
    case Rollback =>
  }

  lemma BoundaryRows(d: Db, l: TxLog, cur: int, f: Effect, p: Page)
    requires Sound(d) && d.cur != 0 && (cur == 0 || cur == d.log.begun + 1) && (f.Publish? || f.Undo?)
    requires forall i :: 0 <= i < |p| ==> InRange(d.log, p[i])
    requires forall i {:trigger p[i]} :: 0 <= i < |p| ==>
      Shown(l, -cur, p[i]) == Shown(l, cur, p[i]) ==
      if f.Publish? then Shown(d.log, d.cur, p[i]) && !(p[i].xmin == d.cur && p[i].xmax == d.cur) else Shown(d.log, -d.cur, p[i])
    ensures RowsOf(l, cur, p) == Each(f, RowsOf(d.log, d.cur, p))
  {
    forall i | 0 <= i < |p| ensures RowOf(l, cur, p[i]) == Each(f, RowOf(d.log, d.cur, p[i])) {
      BoundaryRow(d, p[i], l, cur, f);
    }
    EachRow(f, d.log, d.cur, l, cur, p, p);
  }

  lemma BoundaryTable(d: Db, s: Stmt, t: string)
    requires Sound(d) && d.cur != 0 && (s.Begin? || s.Commit? || s.Rollback?) && t in d.pages
    ensures RowsOf(Step(d, s).log, Step(d, s).cur, d.pages[t]) == Each(AtBoundary(d, s), TableRows(d, t))
  {
    var e, p := Step(d, s), d.pages[t];
    assert e.cur == 0 || e.cur == d.log.begun + 1;
    forall i | 0 <= i < |p| { BoundaryShows(d, s, p[i]); }
    BoundaryRows(d, e.log, e.cur, AtBoundary(d, s), p);
  }

  lemma BoundaryTraced(d: Db, s: Stmt)
    requires Sound(d) && d.cur != 0 && (s.Begin? || s.Commit? || s.Rollback?)
    ensures StoreOf(Step(d, s)) == Store(EachTable(AtBoundary(d, s), StoreOf(d).tables), s.Begin?)
  {
    forall t | t in d.pages { BoundaryTable(d, s, t); }
    SameTables(StoreOf(Step(d, s)).tables, EachTable(AtBoundary(d, s), StoreOf(d).tables));
  }

  lemma SameTables(a: map<string, seq<Row>>, b: map<string, seq<Row>>)
    requires a.Keys == b.Keys && forall t :: t in a ==> a[t] == b[t]
    ensures a == b
  {
  }

  lemma FirstBegin(d: Db, e: Db)
    requires Sound(d) && d.cur == 0 && e.log == Begun(d.log) && e.cur == d.log.begun + 1 && e.pages == d.pages
    ensures StoreOf(e) == Store(StoreOf(d).tables, true)
  {
    forall t | t in d.pages ensures StoreOf(e).tables[t] == StoreOf(d).tables[t] { BegunTable(d, t); }
    SameTables(StoreOf(e).tables, StoreOf(d).tables);
  }

  lemma BegunTable(d: Db, t: string)
    requires Sound(d) && d.cur == 0 && t in d.pages
    ensures RowsOf(Begun(d.log), d.log.begun + 1, d.pages[t]) == RowsOf(d.log, 0, d.pages[t])
  {
    BegunRowsAgree(d.log, d.pages[t]);
  }

  lemma {:induction false} BegunRowsAgree(l: TxLog, p: Page)
    requires ValidLog(l) && forall i :: 0 <= i < |p| ==> InRange(l, p[i])
    ensures RowsOf(Begun(l), l.begun + 1, p) == RowsOf(l, 0, p)
    decreases |p|
  {
    if p != [] { BegunRowsAgree(l, p[..|p| - 1]); }
  }

  predicate Full(d: Db, s: Stmt) {
    (s.Insert? || s.Update?) && s.table in d.pages && |d.pages[s.table]| >= SLOTS
  }

  lemma RowsThere(d: Db, t: string)
    requires t in d.pages
    ensures t in StoreOf(d).tables && StoreOf(d).tables[t] == TableRows(d, t)
  {
  }

  // The store after a statement that writes table t.
  function Written(d: Db, s: Stmt, t: string): Store
    requires IsWrite(s) && t in d.pages && t in d.columns
  {
    PutRows(StoreOf(d), t, RowsAfter(TableRows(d, t), d.columns[t], s, d.cur != 0, |d.pages[t]| >= SLOTS))
  }

  lemma InsertWritten(d: Db, t: string, v: string)
    requires Sound(d) && t in d.pages
    ensures StoreOf(DoInsert(d, t, v)) == Written(d, Insert(t, v), t)
  {
    InsertTraced(d, t, v);
    if |d.pages[t]| >= SLOTS { NothingPut(d, DoInsert(d, t, v), t, Aborted); }
  }

  lemma DeleteWritten(d: Db, t: string, id: int)
    requires Sound(d) && t in d.pages
    ensures StoreOf(DoDelete(d, t, id)) == Written(d, Delete(t, id), t)
  {
    DeleteTraced(d, t, id);
  }

  lemma AllWritten(d: Db, t: string)
    requires t in d.pages && t in d.columns
    ensures Written(d, DeleteAll(t), t) == PutRows(StoreOf(d), t, Each(MarkSeen(d.cur != 0), TableRows(d, t)))
  {
  }

  lemma DeleteAllWritten(d: Db, t: string)
    requires Sound(d) && t in d.pages
    ensures StoreOf(DoDeleteAll(d, t)) == Written(d, DeleteAll(t), t)
  {
    AllWritten(d, t);
    DeleteAllTraced(d, t);
  }

  lemma UpdateWritten(d: Db, t: string, setText: string, id: int)
    requires Sound(d) && t in d.pages
    ensures StoreOf(DoUpdate(d, t, setText, id)) == Written(d, Update(t, setText, id), t)
  {
    if "id" in d.columns[t] { UpdateTraced(d, t, setText, id); } else { NothingPut(d, d, t, Committed); }
  }

  lemma WriteStep(d: Db, s: Stmt, t: string)
    requires Sound(d) && Writes(s, t) && t in d.pages
    requires Full(d, s) == (|d.pages[t]| >= SLOTS) || s.Delete? || s.DeleteAll?
    ensures StoreStep(StoreOf(d), d.columns, s, Full(d, s), d.cur > MAX_TX) == Written(d, s, t)
  {
    RowsThere(d, t);
  }

  lemma ReadStep(d: Db, s: Stmt)
    requires Sound(d) && Inside(s) && (IsWrite(s) ==> s.table !in d.pages)
    ensures StoreOf(Step(d, s)) == StoreOf(d)
  {
    var e := Step(d, s);
    InsideStep(d, s);
    assert e.pages == d.pages;
    if e.log == Leave(Enter(d), Aborted) { NoTable(d, e, Aborted); } else { NoTable(d, e, Committed); }
  }

  lemma StoreReads(st: Store, columns: map<string, seq<string>>, s: Stmt, full: bool, late: bool)
    requires Inside(s) && (IsWrite(s) ==> s.table !in st.tables)
    ensures StoreStep(st, columns, s, full, late) == st
  {
  }

  lemma BoundaryStep(d: Db, s: Stmt)
    requires Sound(d) && !Inside(s)
    ensures StoreOf(Step(d, s)) == StoreStep(StoreOf(d), d.columns, s, Full(d, s), d.cur > MAX_TX)
  {
    if d.cur != 0 { BoundaryTraced(d, s); } else if s.Begin? { FirstBegin(d, Step(d, s)); }
  }

  // Whatever the statement, guarded or not, and however many transactions there have been: it does to
  // the rows of every table what StoreStep does.
  lemma StepTraced(d: Db, s: Stmt)
    requires Sound(d)
    ensures StoreOf(Step(d, s)) == StoreStep(StoreOf(d), d.columns, s, Full(d, s), d.cur > MAX_TX)
  {
    if !Inside(s) {
      BoundaryStep(d, s);
    } else if IsWrite(s) && s.table in d.pages {
      WriteStep(d, s, s.table);
      if s.Insert? { InsertWritten(d, s.table, s.value); }
      else if s.Update? { UpdateWritten(d, s.table, s.setText, s.id); }
      else if s.Delete? { DeleteWritten(d, s.table, s.id); }
      else { DeleteAllWritten(d, s.table); }
    } else {
      ReadStep(d, s);
      StoreReads(StoreOf(d), d.columns, s, Full(d, s), d.cur > MAX_TX);
    }
  }

  // ----- two sessions -----

  // The run ss finds a page full, or undoes a transaction without an entry, in both sessions or in neither.
  ghost predicate Comparable(d: Db, e: Db, ss: seq<Stmt>)
    decreases |ss|
  {
    ss == [] ||
    (Comparable(d, e, ss[..|ss| - 1]) &&
     var d', e', s := Run(d, ss[..|ss| - 1]), Run(e, ss[..|ss| - 1]), ss[|ss| - 1];
     && Full(d', s) == Full(e', s)
     && (s.Begin? || s.Rollback? ==> (d'.cur > MAX_TX <==> e'.cur > MAX_TX)))
  }

  lemma StepsAlike(d: Db, e: Db, s: Stmt)
    requires Sound(d) && Sound(e) && StoreOf(d) == StoreOf(e) && d.columns == e.columns && Full(d, s) == Full(e, s)
    requires s.Begin? || s.Rollback? ==> (d.cur > MAX_TX <==> e.cur > MAX_TX)
    ensures StoreOf(Step(d, s)) == StoreOf(Step(e, s))
  {
    StepTraced(d, s);
    StepTraced(e, s);
    LateMatters(StoreOf(d), d.columns, s, Full(d, s), d.cur > MAX_TX, e.cur > MAX_TX);
  }

  lemma LateMatters(st: Store, columns: map<string, seq<string>>, s: Stmt, full: bool, late: bool, late': bool)
    requires s.Begin? || s.Rollback? ==> late == late'
    ensures StoreStep(st, columns, s, full, late) == StoreStep(st, columns, s, full, late')
  {
  }

  lemma {:induction false} RunTraced(d: Db, e: Db, ss: seq<Stmt>)
    requires Sound(d) && Sound(e) && StoreOf(d) == StoreOf(e) && d.columns == e.columns && Comparable(d, e, ss)
    ensures StoreOf(Run(d, ss)) == StoreOf(Run(e, ss))
    decreases |ss|
  {
    if ss != [] {
      var ss', s := ss[..|ss| - 1], ss[|ss| - 1];
      RunTraced(d, e, ss');
      RunSound(d, ss');
      RunSound(e, ss');
      RunColumns(d, ss');
      RunColumns(e, ss');
      StepsAlike(Run(d, ss'), Run(e, ss'), s);
    }
  }

  function AllOld(values: seq<string>): seq<Row> {
    seq(|values|, i requires 0 <= i < |values| => Row(Old, values[i]))
  }

  lemma {:induction false} ClosedRows(l: TxLog, p: Page)
    ensures RowsOf(l, 0, p) == AllOld(Rows(l, 0, p))
  {
    if p != [] { ClosedRows(l, p[..|p| - 1]); }
  }

  lemma UndoneState(b: Db, body: seq<Stmt>, f: Db, e: Db)
    requires Sound(b) && f == Run(b, body) && f.cur != 0
    requires e == f.(log := WithStatus(f.log, f.cur, Aborted), cur := 0)
    ensures Sound(e) && e.columns == b.columns && e.pages.Keys == b.pages.Keys
  {
    RunSound(b, body);
    StepSound(f, Rollback);
    RunColumns(b, body);
    SamePages(b, body);
  }

  lemma SameClosedStore(d: Db, e: Db)
    requires d.cur == 0 && e.cur == 0 && e.pages.Keys == d.pages.Keys
    requires forall t {:trigger e.pages[t]} :: t in d.pages ==> Rows(e.log, 0, e.pages[t]) == Rows(d.log, 0, d.pages[t])
    ensures StoreOf(e) == StoreOf(d)
  {
    var a, b := StoreOf(e).tables, StoreOf(d).tables;
    forall t | t in d.pages ensures a[t] == b[t] {
      ClosedRows(d.log, d.pages[t]);
      ClosedRows(e.log, e.pages[t]);
    }
    assert a == b;
  }

  // b has begun a transaction after d.
  lemma BegunTables(d: Db, b: Db)
    requires Sound(d) && d.cur == 0 && b == Step(d, Begin)
    ensures Sound(b) && b.cur == d.log.begun + 1 && b.columns == d.columns && b.pages == d.pages
    ensures forall t {:trigger b.pages[t]} :: t in d.pages ==> Rows(b.log, -b.cur, b.pages[t]) == Rows(d.log, 0, d.pages[t])
  {
    StepSound(d, Begin);
    forall t | t in d.pages ensures Rows(b.log, -b.cur, b.pages[t]) == Rows(d.log, 0, d.pages[t]) { BegunRows(d, t); }
  }

  lemma AfterRollback(d: Db, b: Db, body: seq<Stmt>, f: Db, e: Db)
    requires Sound(b) && 0 < b.cur <= MAX_TX && forall s :: s in body ==> Inside(s)
    requires d.cur == 0 && b.columns == d.columns && b.pages == d.pages
    requires forall t {:trigger b.pages[t]} :: t in d.pages ==> Rows(b.log, -b.cur, b.pages[t]) == Rows(d.log, 0, d.pages[t])
    requires f == Run(b, body) && f.cur != 0 && e == f.(log := WithStatus(f.log, f.cur, Aborted), cur := 0)
    ensures Sound(e) && StoreOf(e) == StoreOf(d) && e.columns == d.columns
  {
    UndoneState(b, body, f, e);
    forall t | t in d.pages ensures Rows(e.log, 0, e.pages[t]) == Rows(d.log, 0, d.pages[t]) {
      BodyUndone(b, body, f, t);
      assert Rows(b.log, -b.cur, b.pages[t]) == Rows(d.log, 0, d.pages[t]);
    }
    SameClosedStore(d, e);
  }

  lemma {:induction false} StaysOpen(d: Db, body: seq<Stmt>)
    requires forall s :: s in body ==> Inside(s)
    ensures Run(d, body).cur == d.cur
    decreases |body|
  {
    if body != [] {
      StaysOpen(d, body[..|body| - 1]);
      InsideStep(Run(d, body[..|body| - 1]), body[|body| - 1]);
    }
  }

  // For every state between transactions, every transaction with an entry and everything after it,
  // guarded or not: had it never begun, every table would show what it shows after its ROLLBACK.
  lemma RollbackLeavesNoTrace(d: Db, body: seq<Stmt>, rest: seq<Stmt>, t: string)
    requires Sound(d) && d.cur == 0 && d.log.begun < MAX_TX && forall s :: s in body ==> Inside(s)
    requires Comparable(d, Step(Run(Step(d, Begin), body), Rollback), rest) && t in d.pages
    ensures var a, b := Run(d, rest), Run(Step(Run(Step(d, Begin), body), Rollback), rest);
      && t in a.pages && t in b.pages && (a.cur == 0 <==> b.cur == 0)
      && Printed(a, t) == Printed(b, t)
  {
    var e := Step(Run(Step(d, Begin), body), Rollback);
    StaysOpen(Step(d, Begin), body);
    BegunTables(d, Step(d, Begin));
    AfterRollback(d, Step(d, Begin), body, Run(Step(d, Begin), body), e);
    RunTraced(d, e, rest);
    RunSound(d, rest);
    RunSound(e, rest);
    var a, b := Run(d, rest), Run(e, rest);
    SamePages(d, rest);
    assert t in StoreOf(a).tables && StoreOf(a).tables[t] == StoreOf(b).tables[t];
    PrintedIsSeen(a, t);
    PrintedIsSeen(b, t);
  }

  // SELECT prints the rows that are seen.
  lemma PrintedIsSeen(d: Db, t: string)
    requires Sound(d) && t in d.pages
    ensures Printed(d, t) == SeenValues(StoreOf(d).tables[t])
  {
    VisibleIsRows(d, d.pages[t]);
    SeenAreRows(d, d.pages[t]);
  }
}
