// The statements of query/executor.c as steps on the state they share: the transaction log, the
// session's open transaction and its snapshot, one append-only page of versions per table, and the
// in-memory index of each table.
module Session {
  import opened Mvcc
  import opened RowCodec

  const SLOTS := 16          // records of 248 bytes that fit into the 4088 data bytes of a page
  const MAX_INDEXES := 32

  datatype Version = Version(xmin: int, xmax: int, value: string) {
    function Head(): Header { Header(xmin, xmax) }
  }

  type Page = seq<Version>

  // columns is the catalog.  db is the selected database, and pages are its files that open: the
  // table t is in the file db/t.  strays are the other files under data that open, by path; opening
  // makes a file where there is none, and it reads as an empty page.
  datatype Db = Db(log: TxLog, cur: int, snap: Snapshot, db: string, columns: map<string, seq<string>>,
                   pages: map<string, Page>, index: map<string, map<int, nat>>, strays: map<string, Page>)

  datatype Stmt =
    | Begin
    | Commit
    | Rollback
    | Insert(table: string, value: string)
    | Select(table: string)
    | SelectId(table: string, id: int)
    | Update(table: string, setText: string, id: int)
    | Delete(table: string, id: int)
    | DeleteAll(table: string)
    | Join(table: string, other: string)

  // ----- helpers of the statements -----

  // How a statement recognises a row by id: by atoi of the whole record, or by the id column.
  datatype Match = ByRecord(id: int) | ByColumn(column: nat, id: int)

  predicate Matches(m: Match, value: string) {
    match m
    case ByRecord(id) => Atoi(value) == id
    case ByColumn(c, id) => c < MAX_COLUMNS && Atoi(Split(value)[c]) == id
  }

  // The first visible version that matches, or the length of the page.
  function FirstHit(l: TxLog, s: Snapshot, page: Page, m: Match): (i: nat)
    ensures i <= |page|
    ensures i < |page| ==> Sees(l, page[i].Head(), s) && Matches(m, page[i].value)
    ensures forall j :: 0 <= j < i ==> !(Sees(l, page[j].Head(), s) && Matches(m, page[j].value))
  {
    if page == [] || (Sees(l, page[0].Head(), s) && Matches(m, page[0].value)) then 0
    else
      var i := FirstHit(l, s, page[1..], m);
      assert forall j :: 1 <= j < i + 1 ==> page[j] == page[1..][j - 1];
      1 + i
  }

  function Killed(v: Version, tx: int): Version {
    v.(xmax := tx)
  }

  function Kill(page: Page, i: nat, tx: int): Page
    requires i < |page|
  {
    page[i := Killed(page[i], tx)]
  }

  function KillAll(l: TxLog, s: Snapshot, page: Page, tx: int): (r: Page)
    ensures |r| == |page|
    ensures forall i :: 0 <= i < |page| ==> r[i] == if Sees(l, page[i].Head(), s) then Killed(page[i], tx) else page[i]
  {
    if page == [] then []
    else [if Sees(l, page[0].Head(), s) then Killed(page[0], tx) else page[0]] + KillAll(l, s, page[1..], tx)
  }

  // The transaction a statement runs in: the open one, or one of its own.
  datatype Ctx = Ctx(log: TxLog, tx: int, snap: Snapshot, auto: bool)

  function Enter(d: Db): Ctx {
    if d.cur == 0 then
      var l := Begun(d.log);
      Ctx(l, l.begun, TakeSnapshot(l, l.begun), true)
    else Ctx(d.log, d.cur, d.snap, false)
  }

  function Leave(c: Ctx, s: Status): TxLog {
    if c.auto then WithStatus(c.log, c.tx, s) else c.log
  }

  // get_index_for_table: the index of a table is made on first use, for at most MAX_INDEXES tables.
  function WithIndex(index: map<string, map<int, nat>>, t: string): map<string, map<int, nat>> {
    if t in index || |index| >= MAX_INDEXES then index else index[t := map[]]
  }

  function IndexPut(index: map<string, map<int, nat>>, t: string, key: int, slot: nat): map<string, map<int, nat>> {
    var ix := WithIndex(index, t);
    if key > 0 && t in ix then
      var entries: map<int, nat> := ix[t][key := slot];
      ix[t := entries]
    else ix
  }

  function IdColumn(columns: seq<string>): nat {
    ColumnIndex(columns, "id")
  }

  // The fields of the row an UPDATE writes.
  function NewFields(columns: seq<string>, setText: string, value: string): (r: seq<string>)
    ensures |r| == MAX_COLUMNS
  {
    ApplySet(columns, Split(value), setText)
  }

  function NewRow(columns: seq<string>, setText: string, value: string): string {
    Build(NewFields(columns, setText, value), |columns|)
  }

  // ----- files -----

  datatype Opened = NoFile | File(page: Page)

  // full_table: where the statements look for table t.
  function PathOf(db: string, t: string): string {
    db + "/" + t
  }

  // path is that of a table of database db.
  predicate Under(db: string, path: string) {
    |path| > |db| && path[..|db| + 1] == db + "/"
  }

  // fm_open_table and the page it gives.
  function FileAt(d: Db, path: string): Opened {
    if Under(d.db, path) && path[|d.db| + 1..] in d.pages then File(d.pages[path[|d.db| + 1..]])
    else if path in d.strays then File(d.strays[path])
    else NoFile
  }

  // ----- the statements -----

  // Nothing but log, snapshots, pages and indexes changes, and no file comes or goes.
  predicate Framed(d: Db, e: Db) {
    e.db == d.db && e.columns == d.columns && e.strays == d.strays && e.pages.Keys == d.pages.Keys
  }

  // The open transaction, if any, stays open; a statement of its own is over.
  predicate Within(d: Db, e: Db) {
    && e.cur == d.cur && e.snap == d.snap
    && (e.log == d.log || e.log == Leave(Enter(d), Committed) || e.log == Leave(Enter(d), Aborted))
  }

  function DoInsert(d: Db, t: string, value: string): (e: Db)
    ensures Framed(d, e) && Within(d, e)
  {
    if t !in d.pages then d
    else
      var c, page := Enter(d), d.pages[t];
      if |page| >= SLOTS then d.(log := Leave(c, Aborted))
      else d.(log := Leave(c, Committed),
              pages := d.pages[t := page + [Version(c.tx, 0, Cut(value, STORED_MAX))]],
              index := IndexPut(d.index, t, Atoi(value), |page|))
  }

  function DoDelete(d: Db, t: string, id: int): (e: Db)
    ensures Framed(d, e) && Within(d, e)
  {
    if t !in d.pages then d
    else
      var c, page := Enter(d), d.pages[t];
      var i := FirstHit(c.log, c.snap, page, ByRecord(id));
      d.(log := Leave(c, Committed), pages := if i < |page| then d.pages[t := Kill(page, i, c.tx)] else d.pages)
  }

  function DoDeleteAll(d: Db, t: string): (e: Db)
    ensures Framed(d, e) && Within(d, e)
  {
    if t !in d.pages then d
    else
      var c, page := Enter(d), d.pages[t];
      d.(log := Leave(c, Committed), pages := d.pages[t := KillAll(c.log, c.snap, page, c.tx)])
  }

  // do_update_columns_where_id: the old version is marked before there is known to be room for the new one.
  function DoUpdate(d: Db, t: string, setText: string, id: int): (e: Db)
    ensures Framed(d, e) && Within(d, e)
  {
    if t !in d.pages || t !in d.columns || "id" !in d.columns[t] then d
    else
      var c, page, cols := Enter(d), d.pages[t], d.columns[t];
      var i := FirstHit(c.log, c.snap, page, ByColumn(IdColumn(cols), id));
      if i == |page| then d.(log := Leave(c, Committed))
      else
        var killed := Kill(page, i, c.tx);
        if |killed| >= SLOTS then d.(log := Leave(c, Committed), pages := d.pages[t := killed])
        else
          var fields := NewFields(cols, setText, page[i].value);
          var k := IdColumn(cols);
          d.(log := Leave(c, Committed),
             pages := d.pages[t := killed + [Version(c.tx, 0, Cut(Build(fields, |cols|), STORED_MAX))]],
             index := IndexPut(d.index, t, if k < MAX_COLUMNS then Atoi(fields[k]) else 0, |killed|))
  }

  // do_select and do_join change nothing but the log, and that only in a transaction of their own.
  function DoRead(d: Db, known: bool): (e: Db)
    ensures Framed(d, e) && Within(d, e)
  {
    if known then d.(log := Leave(Enter(d), Committed)) else d
  }

  function DoSelectId(d: Db, t: string, id: int): (e: Db)
    ensures Framed(d, e) && Within(d, e)
  {
    if t !in d.columns then d
    else
      var ix := WithIndex(d.index, t);
      if t in ix && id in ix[t] && t in d.pages then d.(index := ix, log := Leave(Enter(d), Committed)) else d.(index := ix)
  }

  // do_join opens the files named like the tables, without the directory of the database.
  predicate JoinOpens(d: Db, t: string, o: string) {
    t in d.columns && o in d.columns && FileAt(d, t).File? && FileAt(d, o).File?
  }

  function Step(d: Db, s: Stmt): (e: Db)
    ensures Framed(d, e)
  {
    match s
    case Begin =>
      var l := Begun(d.log);
      d.(log := l, cur := l.begun, snap := TakeSnapshot(l, l.begun))
    case Commit => if d.cur == 0 then d else d.(log := WithStatus(d.log, d.cur, Committed), cur := 0)
    case Rollback => if d.cur == 0 then d else d.(log := WithStatus(d.log, d.cur, Aborted), cur := 0)
    case Insert(t, v) => DoInsert(d, t, v)
    case Select(t) => DoRead(d, t in d.pages)
    case SelectId(t, id) => DoSelectId(d, t, id)
    case Update(t, set_, id) => DoUpdate(d, t, set_, id)
    case Delete(t, id) => DoDelete(d, t, id)
    case DeleteAll(t) => DoDeleteAll(d, t)
    case Join(t, o) => DoRead(d, JoinOpens(d, t, o))
  }

  function Run(d: Db, ss: seq<Stmt>): Db
    decreases |ss|
  {
    if ss == [] then d else Step(Run(d, ss[..|ss| - 1]), ss[|ss| - 1])
  }

  // ----- what the statements print -----

  // The values of the visible versions, in slot order (do_select).
  function Visible(l: TxLog, s: Snapshot, page: Page): seq<string> {
    if page == [] then []
    else Visible(l, s, page[..|page| - 1]) +
         (if Sees(l, page[|page| - 1].Head(), s) then [page[|page| - 1].value] else [])
  }

  datatype Lookup = NotIndexed | NotVisible | Shows(value: string)

  // do_select_where_id.
  function LookupId(d: Db, t: string, id: int): Lookup {
    if t !in d.columns || t !in d.pages || t !in d.index || id !in d.index[t] || d.index[t][id] >= |d.pages[t]| then NotIndexed
    else
      var c, v := Enter(d), d.pages[t][d.index[t][id]];
      if Sees(c.log, v.Head(), c.snap) then Shows(v.value) else NotVisible
  }

  // ----- states -----

  predicate InRange(l: TxLog, v: Version) {
    0 <= v.xmin <= l.begun && 0 <= v.xmax <= l.begun && (v.xmax == 0 || v.xmin <= v.xmax)
  }

  // A database one can select: a directory of its own, and not the one at the start.
  predicate Selectable(db: string) {
    db != "" && '/' !in db && db != "." && db != ".." && db != "default"
  }

  // The states a session passes through.
  ghost predicate Sound(d: Db) {
    && ValidLog(d.log) && Selectable(d.db)
    && (d.cur != 0 ==> d.cur == d.log.begun && (d.cur <= MAX_TX ==> Has(d.log, d.cur, Active)) &&
                       d.snap == TakeSnapshot(d.log, d.cur))
    && d.pages.Keys <= d.columns.Keys
    && (forall t :: t in d.pages ==> |d.columns[t]| <= MAX_COLUMNS && |d.pages[t]| <= SLOTS)
    && (forall t, i :: t in d.pages && 0 <= i < |d.pages[t]| ==> InRange(d.log, d.pages[t][i]))
  }

  // A file no statement writes: it is not in the directory of a database one can select.  CREATE TABLE
  // leaves an empty page there.
  predicate Unwritten(path: string) {
    '/' !in path || Under("default", path)
  }

  // No part of the name before its last slash is empty, "." or "..", which would make it a second name
  // of another file.
  predicate Straight(name: string) {
    forall i, j :: 0 <= i <= j < |name| && name[j] == '/' && (i == 0 || name[i - 1] == '/') && '/' !in name[i..j] ==>
      name[i..j] != "" && name[i..j] != "." && name[i..j] != ".."
  }

  predicate StraightNames(d: Db) {
    forall t :: t in d.columns ==> Straight(t)
  }

  // A session at the start: tables without rows, nothing begun, no index.
  predicate Initial(d: Db) {
    && d.log == EmptyLog && d.cur == 0 && d.index == map[] && Selectable(d.db)
    && d.pages.Keys <= d.columns.Keys
    && (forall t :: t in d.pages ==> |d.columns[t]| <= MAX_COLUMNS && d.pages[t] == [])
    && (forall path :: path in d.strays && Unwritten(path) ==> d.strays[path] == [])
  }

  // ----- what is visible to whom -----

  // Committed, not counting the open transaction.
  predicate Done(l: TxLog, open: int, id: int) {
    IsCommittedIn(l, id) && (open == 0 || id != open)
  }

  // A view is the id of a transaction, for what it sees itself, or the negative of the id of the open
  // one, for what everybody else sees meanwhile: the committed rows.  When none is open both are 0.
  predicate Shown(l: TxLog, view: int, v: Version) {
    if view > 0 then
      if v.xmin == view then v.xmax == 0 || v.xmax == view
      else IsCommittedIn(l, v.xmin) && v.xmax != view && (v.xmax == 0 || !IsCommittedIn(l, v.xmax))
    else Done(l, -view, v.xmin) && (v.xmax == 0 || !Done(l, -view, v.xmax))
  }

  // With or without an entry in the transaction table.
  lemma OpenSnapshotShows(l: TxLog, tx: int, v: Version)
    requires ValidLog(l) && tx > 0
    ensures Sees(l, v.Head(), TakeSnapshot(l, tx)) == Shown(l, tx, v)
  {
    SnapshotIsExact(l, tx);
  }

  // A new transaction sees what has been committed.
  lemma FreshSnapshotShows(l: TxLog, v: Version)
    requires ValidLog(l) && InRange(l, v)
    ensures var m := Begun(l); Sees(m, v.Head(), TakeSnapshot(m, m.begun)) == Shown(l, 0, v)
  {
    SnapshotIsExact(Begun(l), l.begun + 1);
  }

  // What a statement sees: the working copy of the open transaction, or the committed rows.
  lemma StatementSees(d: Db, v: Version)
    requires Sound(d) && InRange(d.log, v)
    ensures var c := Enter(d); Sees(c.log, v.Head(), c.snap) == Shown(d.log, d.cur, v)
  {
    if d.cur == 0 { FreshSnapshotShows(d.log, v); } else { OpenSnapshotShows(d.log, d.cur, v); }
  }

  // Every statement leaves old versions looking as they did, to itself and to later transactions.
  lemma StatementKeeps(d: Db, v: Version, s: Status, view: int)
    requires Sound(d) && InRange(d.log, v) && (view == d.cur || view == -d.cur)
    ensures Shown(Leave(Enter(d), s), view, v) == Shown(d.log, view, v)
  {
  }

  lemma NewIsShown(d: Db, value: string)
    requires Sound(d)
    ensures var c := Enter(d); var v := Version(c.tx, 0, value);
      && Shown(Leave(c, Committed), d.cur, v)
      && (Shown(Leave(c, Committed), -d.cur, v) <==> d.cur == 0)
  {
  }

  // Marking a version deleted hides it, unless its own transaction marks it.
  lemma KilledIsHidden(d: Db, v: Version)
    requires Sound(d) && InRange(d.log, v) && Shown(d.log, d.cur, v)
    ensures var c := Enter(d);
      && (Shown(Leave(c, Committed), d.cur, Killed(v, c.tx)) <==> d.cur != 0 && v.xmin == d.cur)
      && (Shown(Leave(c, Committed), -d.cur, Killed(v, c.tx)) <==> d.cur != 0 && Shown(d.log, -d.cur, v))
  {
  }
}
