// The executor itself: static variables as fields, statements as methods that loop over the versions
// of a page.  Every method is proved to take the step Session defines.
module SessionEngine {
  import opened Mvcc
  import opened RowCodec
  import opened Session
  import SessionIndex
  import SessionJoin

  // The page when the scan of do_delete_all has passed n versions.
  ghost function MarkedUpTo(l: TxLog, s: Snapshot, page: Page, tx: int, n: nat): (r: Page)
    requires n <= |page|
    ensures |r| == |page|
  {
    if n == 0 then page
    else
      var r := MarkedUpTo(l, s, page, tx, n - 1);
      if Sees(l, page[n - 1].Head(), s) then r[n - 1 := Killed(page[n - 1], tx)] else r
  }

  lemma {:induction false} MarkedAt(l: TxLog, s: Snapshot, page: Page, tx: int, n: nat, j: nat)
    requires n <= |page| && j < |page|
    ensures MarkedUpTo(l, s, page, tx, n)[j] ==
            if j < n && Sees(l, page[j].Head(), s) then Killed(page[j], tx) else page[j]
  {
    if n > 0 { MarkedAt(l, s, page, tx, n - 1, j); }
  }

  lemma MarkedAll(l: TxLog, s: Snapshot, page: Page, tx: int)
    ensures MarkedUpTo(l, s, page, tx, |page|) == KillAll(l, s, page, tx)
  {
    forall j | 0 <= j < |page| ensures MarkedUpTo(l, s, page, tx, |page|)[j] == KillAll(l, s, page, tx)[j] {
      MarkedAt(l, s, page, tx, |page|, j);
    }
  }

  lemma VisibleNext(l: TxLog, s: Snapshot, page: Page, n: nat)
    requires n < |page|
    ensures Visible(l, s, page[..n + 1]) ==
            Visible(l, s, page[..n]) + if Sees(l, page[n].Head(), s) then [page[n].value] else []
  {
    assert page[..n + 1][..n] == page[..n];
  }

  lemma HitNext(l: TxLog, s: Snapshot, page: Page, m: Match, n: nat)
    requires n < |page|
    ensures FirstHit(l, s, page[n..], m) ==
      if Sees(l, page[n].Head(), s) && Matches(m, page[n].value) then 0 else 1 + FirstHit(l, s, page[n + 1..], m)
  {
    assert page[n..][1..] == page[n + 1..];
  }

  class Engine {
    const mvcc: TxTable
    const db: string
    var currentTx: nat
    var currentSnapshot: Snapshot
    var catalog: map<string, seq<string>>
    var pages: map<string, Page>
    var indexes: map<string, map<int, nat>>     // what the B+ tree of each table holds
    const strays: map<string, Page>

    ghost predicate Valid()
      reads this, mvcc, mvcc.entries
    {
      mvcc.Valid() && (forall t :: t in pages ==> |pages[t]| <= SLOTS)
    }

    ghost function State(): Db
      requires mvcc.Valid()
      reads this, mvcc, mvcc.entries
    {
      Db(mvcc.Log(), currentTx, currentSnapshot, db, catalog, pages, indexes, strays)
    }

    // mvcc_init and executor_init, with the database db selected.
    constructor (db: string, catalog: map<string, seq<string>>, pages: map<string, Page>, strays: map<string, Page>)
      requires forall t :: t in pages ==> |pages[t]| <= SLOTS
      ensures Valid() && fresh(mvcc) && fresh(mvcc.entries)
      ensures State() == Db(EmptyLog, 0, Snapshot(0, 0, 0, []), db, catalog, pages, map[], strays)
    {
      mvcc := new TxTable();
      this.db := db;
      currentTx := 0;
      currentSnapshot := Snapshot(0, 0, 0, []);
      this.catalog := catalog;
      this.pages := pages;
      indexes := map[];
      this.strays := strays;
    }

    // ----- BEGIN, COMMIT, ROLLBACK -----

    method BeginTransaction()
      requires Valid()
      modifies this, mvcc, mvcc.entries
      ensures Valid() && State() == Step(old(State()), Begin)
    {
      var id := mvcc.Begin();
      currentTx := id;
      currentSnapshot := mvcc.CreateSnapshot(currentTx);
    }

    method CommitTransaction()
      requires Valid()
      modifies this, mvcc.entries
      ensures Valid() && State() == Step(old(State()), Commit)
    {
      if currentTx != 0 {
        mvcc.Commit(currentTx);
        currentTx := 0;
      }
    }

    method RollbackTransaction()
      requires Valid()
      modifies this, mvcc.entries
      ensures Valid() && State() == Step(old(State()), Rollback)
    {
      if currentTx != 0 {
        mvcc.Abort(currentTx);
        currentTx := 0;
      }
    }

    // ----- the frame of every other statement -----

    method EnterStatement() returns (txId: nat, autoTx: bool, snapshot: Snapshot)
      requires Valid()
      modifies mvcc, mvcc.entries
      ensures Valid() && Ctx(mvcc.Log(), txId, snapshot, autoTx) == Enter(old(State()))
    {
      txId := currentTx;
      autoTx := false;
      snapshot := currentSnapshot;
      if txId == 0 {
        txId := mvcc.Begin();
        autoTx := true;
        snapshot := mvcc.CreateSnapshot(txId);
      }
    }

    method LeaveStatement(txId: nat, autoTx: bool, ghost c: Ctx)
      requires Valid() && mvcc.Log() == c.log && txId == c.tx && autoTx == c.auto
      modifies mvcc.entries
      ensures Valid() && mvcc.Log() == Leave(c, Committed)
    {
      if autoTx {
        mvcc.Commit(txId);
      }
    }

    method EnsureIndex(t: string) returns (present: bool)
      modifies this`indexes
      ensures indexes == WithIndex(old(indexes), t) && present == (t in indexes)
    {
      if t !in indexes && |indexes| < MAX_INDEXES {
        indexes := indexes[t := map[]];
      }
      present := t in indexes;
    }

    method PutIndex(t: string, key: int, slot: nat)
      modifies this`indexes
      ensures indexes == IndexPut(old(indexes), t, key, slot)
    {
      var present := EnsureIndex(t);
      if key > 0 && present {
        var entries: map<int, nat> := indexes[t][key := slot];
        indexes := indexes[t := entries];
      }
    }

    // ----- statements that write -----

    method Insert(t: string, value: string)
      requires Valid()
      modifies this, mvcc, mvcc.entries
      ensures Valid() && State() == Step(old(State()), Stmt.Insert(t, value))
    {
      if t !in pages {
        return;
      }
      ghost var c := Enter(State());
      var txId, autoTx, _ := EnterStatement();
      var slot := |pages[t]|;
      if slot >= SLOTS {
        if autoTx {
          mvcc.Abort(txId);
        }
        return;
      }
      pages := pages[t := pages[t] + [Version(txId, 0, Cut(value, STORED_MAX))]];
      PutIndex(t, Atoi(value), slot);
      LeaveStatement(txId, autoTx, c);
    }

    // The scan shared by DELETE and UPDATE: the first visible version that matches.
    method FindFirst(page: Page, snapshot: Snapshot, m: Match) returns (i: nat)
      requires Valid()
      ensures i == FirstHit(mvcc.Log(), snapshot, page, m)
    {
      ghost var l := mvcc.Log();
      i := 0;
      while i < |page|
        invariant i <= |page|
        invariant FirstHit(l, snapshot, page, m) == i + FirstHit(l, snapshot, page[i..], m)
      {
        HitNext(l, snapshot, page, m, i);
        var visible := mvcc.IsVisible(page[i].Head(), snapshot);
        if visible && Matches(m, page[i].value) {
          return;
        }
        i := i + 1;
      }
    }

    method Delete(t: string, id: int) returns (found: bool)
      requires Valid()
      modifies this, mvcc, mvcc.entries
      ensures Valid() && State() == Step(old(State()), Stmt.Delete(t, id))
      ensures found <==> (t in old(pages) &&
        var c := Enter(old(State())); FirstHit(c.log, c.snap, old(pages)[t], ByRecord(id)) < |old(pages)[t]|)
    {
      found := false;
      if t !in pages {
        return;
      }
      ghost var d, c := State(), Enter(State());
      var txId, autoTx, snapshot := EnterStatement();
      var i := FindFirst(pages[t], snapshot, ByRecord(id));
      assert i == FirstHit(c.log, c.snap, d.pages[t], ByRecord(id));
      if i < |pages[t]| {
        pages := pages[t := pages[t][i := pages[t][i].(xmax := txId)]];
        found := true;
      }
      LeaveStatement(txId, autoTx, c);
    }

    // The scan of do_delete_all.
    method MarkVisible(page: Page, snapshot: Snapshot, txId: int) returns (marked: Page, deleted: nat)
      requires Valid()
      ensures marked == MarkedUpTo(mvcc.Log(), snapshot, page, txId, |page|)
      ensures deleted == |Visible(mvcc.Log(), snapshot, page)|
    {
      marked, deleted := page, 0;
      ghost var l := mvcc.Log();
      for i := 0 to |page|
        invariant marked == MarkedUpTo(l, snapshot, page, txId, i)
        invariant deleted == |Visible(l, snapshot, page[..i])|
      {
        MarkedAt(l, snapshot, page, txId, i, i);
        VisibleNext(l, snapshot, page, i);
        var visible := mvcc.IsVisible(marked[i].Head(), snapshot);
        if visible {
          marked := marked[i := marked[i].(xmax := txId)];
          deleted := deleted + 1;
        }
      }
      assert page[..|page|] == page;
    }

    method DeleteAll(t: string) returns (deleted: nat)
      requires Valid()
      modifies this, mvcc, mvcc.entries
      ensures Valid() && State() == Step(old(State()), Stmt.DeleteAll(t))
      ensures t in old(pages) ==> var c := Enter(old(State())); deleted == |Visible(c.log, c.snap, old(pages)[t])|
    {
      deleted := 0;
      if t !in pages {
        return;
      }
      ghost var d, c := State(), Enter(State());
      var txId, autoTx, snapshot := EnterStatement();
      var page;
      page, deleted := MarkVisible(pages[t], snapshot, txId);
      pages := pages[t := page];
      LeaveStatement(txId, autoTx, c);
      DeleteAllIs(d, t, page, State());
    }

    static lemma DeleteAllIs(d: Db, t: string, page: Page, e: Db)
      requires t in d.pages
      requires page == MarkedUpTo(Enter(d).log, Enter(d).snap, d.pages[t], Enter(d).tx, |d.pages[t]|)
      requires e == d.(log := Leave(Enter(d), Committed), pages := d.pages[t := page])
      ensures e == Step(d, Stmt.DeleteAll(t))
    {
      MarkedAll(Enter(d).log, Enter(d).snap, d.pages[t], Enter(d).tx);
    }

    static lemma UpdateIs(d: Db, t: string, setText: string, id: int, i: nat, pages: map<string, Page>,
                          indexes: map<string, map<int, nat>>, e: Db)
      requires t in d.pages && t in d.columns && "id" in d.columns[t]
      requires i == FirstHit(Enter(d).log, Enter(d).snap, d.pages[t], ByColumn(IdColumn(d.columns[t]), id))
      requires if i == |d.pages[t]| then pages == d.pages && indexes == d.index else
        var p, cols := d.pages[t], d.columns[t];
        var q, fields := Kill(p, i, Enter(d).tx), NewFields(cols, setText, p[i].value);
        if |q| >= SLOTS then pages == d.pages[t := q] && indexes == d.index
        else
          && pages == d.pages[t := q + [Version(Enter(d).tx, 0, Cut(Build(fields, |cols|), STORED_MAX))]]
          && indexes == IndexPut(d.index, t, if IdColumn(cols) < MAX_COLUMNS then Atoi(fields[IdColumn(cols)]) else 0, |q|)
      requires e == d.(log := Leave(Enter(d), Committed), pages := pages, index := indexes)
      ensures e == Step(d, Stmt.Update(t, setText, id))
    {
    }

    // What do_update_columns_where_id does with the version it found.
    method WriteUpdate(t: string, setText: string, i: nat, txId: int) returns (found: bool)
      requires t in pages && t in catalog && i < |pages[t]| && "id" in catalog[t]
      modifies this`pages, this`indexes
      ensures var p, cols := old(pages)[t], catalog[t];
        var q, fields := Kill(p, i, txId), NewFields(cols, setText, p[i].value);
        if |q| >= SLOTS then pages == old(pages)[t := q] && indexes == old(indexes) && !found
        else
          && pages == old(pages)[t := q + [Version(txId, 0, Cut(Build(fields, |cols|), STORED_MAX))]]
          && indexes == IndexPut(old(indexes), t, if IdColumn(cols) < MAX_COLUMNS then Atoi(fields[IdColumn(cols)]) else 0, |q|)
          && found
    {
      var columns := catalog[t];
      var idIndex := IdColumn(columns);
      var values := Split(pages[t][i].value);
      var page := pages[t][i := pages[t][i].(xmax := txId)];
      pages := pages[t := page];
      values := ApplySet(columns, values, setText);
      var newRecord := Build(values, |columns|);
      var newSlot := |page|;
      found := false;
      if newSlot < SLOTS {
        pages := pages[t := page + [Version(txId, 0, Cut(newRecord, STORED_MAX))]];
        PutIndex(t, if idIndex < MAX_COLUMNS then Atoi(values[idIndex]) else 0, newSlot);
        found := true;
      }
    }

    // do_update_columns_where_id
    method Update(t: string, setText: string, id: int) returns (found: bool)
      requires Valid()
      modifies this, mvcc, mvcc.entries
      ensures Valid() && State() == Step(old(State()), Stmt.Update(t, setText, id))
      ensures found <==> t in old(pages) && |pages[t]| == |old(pages)[t]| + 1
    {
      found := false;
      if t !in catalog || t !in pages || "id" !in catalog[t] {
        return;
      }
      ghost var d, c := State(), Enter(State());
      var txId, autoTx, snapshot := EnterStatement();
      var i := FindFirst(pages[t], snapshot, ByColumn(IdColumn(catalog[t]), id));
      assert i == FirstHit(c.log, c.snap, d.pages[t], ByColumn(IdColumn(d.columns[t]), id));
      if i < |pages[t]| {
        found := WriteUpdate(t, setText, i, txId);
      }
      LeaveStatement(txId, autoTx, c);
      UpdateIs(d, t, setText, id, i, pages, indexes, State());
    }

    // ----- statements that read -----

    // The scan of do_select.
    method ListVisible(page: Page, snapshot: Snapshot) returns (rows: seq<string>)
      requires Valid()
      ensures rows == Visible(mvcc.Log(), snapshot, page)
    {
      rows := [];
      for i := 0 to |page|
        invariant rows == Visible(mvcc.Log(), snapshot, page[..i])
      {
        VisibleNext(mvcc.Log(), snapshot, page, i);
        var visible := mvcc.IsVisible(page[i].Head(), snapshot);
        if visible {
          rows := rows + [page[i].value];
        }
      }
      assert page[..|page|] == page;
    }

    method Select(t: string) returns (rows: seq<string>)
      requires Valid()
      modifies mvcc, mvcc.entries
      ensures Valid() && State() == Step(old(State()), Stmt.Select(t))
      ensures t in pages ==> rows == Visible(Enter(old(State())).log, Enter(old(State())).snap, pages[t])
    {
      rows := [];
      if t !in pages {
        return;
      }
      ghost var c := Enter(State());
      var txId, autoTx, snapshot := EnterStatement();
      rows := ListVisible(pages[t], snapshot);
      LeaveStatement(txId, autoTx, c);
    }

    method SelectWhereId(t: string, id: int) returns (answer: Lookup)
      requires Valid()
      requires SessionIndex.Slotted(State())
      modifies this`indexes, mvcc, mvcc.entries
      ensures Valid() && State() == Step(old(State()), Stmt.SelectId(t, id))
      ensures answer == LookupId(old(State()), t, id)
    {
      answer := NotIndexed;
      if t !in catalog {
        return;
      }
      var present := EnsureIndex(t);
      if !present || id !in indexes[t] || t !in pages {
        return;
      }
      var record := pages[t][indexes[t][id]];
      ghost var c := Enter(State());
      var txId, autoTx, snapshot := EnterStatement();
      var visible := mvcc.IsVisible(record.Head(), snapshot);
      answer := if visible then Shows(record.value) else NotVisible;
      LeaveStatement(txId, autoTx, c);
    }

    // fm_open_table, and page 0 of the file.
    method OpenTable(path: string) returns (file: Opened)
      requires mvcc.Valid()
      ensures file == FileAt(State(), path)
    {
      if Under(db, path) && path[|db| + 1..] in pages {
        return File(pages[path[|db| + 1..]]);
      }
      return if path in strays then File(strays[path]) else NoFile;
    }

    // do_join: two nested scans over the files it opened.
    method Join(t: string, o: string) returns (pairs: seq<(string, string)>)
      requires Valid()
      modifies mvcc, mvcc.entries
      ensures Valid() && State() == Step(old(State()), Stmt.Join(t, o))
      ensures pairs == SessionJoin.JoinAnswer(old(State()), t, o)
    {
      pairs := [];
      if t !in catalog || o !in catalog {
        return;
      }
      var file1 := OpenTable(t);
      var file2 := OpenTable(o);
      if file1.NoFile? || file2.NoFile? {
        return;
      }
      ghost var c := Enter(State());
      var txId, autoTx, snapshot := EnterStatement();
      pairs := JoinPages(file1.page, file2.page, snapshot);
      LeaveStatement(txId, autoTx, c);
    }

    method JoinPages(p1: Page, p2: Page, snapshot: Snapshot) returns (pairs: seq<(string, string)>)
      requires Valid()
      ensures pairs == SessionJoin.Pairs(mvcc.Log(), snapshot, p1, p2)
    {
      pairs := [];
      for i := 0 to |p1|
        invariant pairs == SessionJoin.Pairs(mvcc.Log(), snapshot, p1[..i], p2)
      {
        assert p1[..i + 1][..i] == p1[..i];
        var visible := mvcc.IsVisible(p1[i].Head(), snapshot);
        if visible {
          var partners := JoinRow(p1[i].value, snapshot, p2);
          pairs := pairs + partners;
        }
      }
      assert p1[..|p1|] == p1;
    }

    // The inner loop of do_join.
    method JoinRow(value: string, snapshot: Snapshot, p2: Page) returns (pairs: seq<(string, string)>)
      requires Valid()
      ensures pairs == SessionJoin.Partners(mvcc.Log(), snapshot, value, p2)
    {
      pairs := [];
      for j := 0 to |p2|
        invariant pairs == SessionJoin.Partners(mvcc.Log(), snapshot, value, p2[..j])
      {
        assert p2[..j + 1][..j] == p2[..j];
        var visible := mvcc.IsVisible(p2[j].Head(), snapshot);
        if visible && Atoi(value) == Atoi(p2[j].value) {
          pairs := pairs + [(value, p2[j].value)];
        }
      }
      assert p2[..|p2|] == p2;
    }
  }
}
