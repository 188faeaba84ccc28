// One table as it is stored: the bytes of its page and its B+ tree, against the page and the index
// of the session model.
module StoredTable {
  import opened Mvcc
  import opened RowCodec
  import opened Session
  import opened SessionIndex
  import opened SessionRebuild
  import opened BPlusTree
  import F = BPlusForest
  import P = PageBytes
  import T = RowText

  predicate IsKey(k: int) {
    F.INT_MIN <= k < F.INT_END
  }

  // The tree holds the entries of an index of the session, all for page 0.
  ghost predicate Mirrors(contents: map<F.Key, F.RecordRef>, entries: map<int, nat>) {
    && (forall k :: k in entries ==> IsKey(k))
    && (forall k: F.Key :: k in contents <==> k in entries)
    && (forall k: F.Key :: k in contents ==> contents[k] == F.RecordRef(0, entries[k]))
  }

  // The page and the tree stand for table t of the session; a table that has no tree yet gets an empty one.
  ghost predicate Represents(d: Db, t: string, index: Tree, page: P.Page)
    reads index, index.t.nodes.Keys, page, page.data
  {
    && index.Valid() && page.Valid()
    && t in d.pages && page.Contents() == d.pages[t]
    && HasIndex(d, t) && Mirrors(index.t.contents, Entries(d, t))
  }

  // Entering a key: nothing happens for keys that are not positive.
  method EnterKey(index: Tree, key: int, slot: nat, ghost entries: map<int, nat>)
    requires index.Valid() && IsKey(key) && Mirrors(index.t.contents, entries)
    modifies index, index.t.nodes.Keys
    ensures index.Valid() && fresh(index.t.nodes.Keys - old(index.t.nodes.Keys))
    ensures Mirrors(index.t.contents, if key > 0 then entries[key := slot] else entries)
  {
    if key > 0 {
      index.Insert(key, 0, slot);
    }
  }

  // A row goes onto the page and its key into the tree, if there is room.
  method AppendRow(index: Tree, page: P.Page, row: string, key: int, txId: int, ghost entries: map<int, nat>) returns (ok: bool)
    requires index.Valid() && page.Valid() && P.IsText(row) && P.IsInt(txId) && IsKey(key)
    requires Mirrors(index.t.contents, entries)
    modifies index, index.t.nodes.Keys, page`numRecords, page.data
    ensures index.Valid() && page.Valid() && ok == (|old(page.Contents())| < SLOTS)
    ensures page.Contents() == old(page.Contents()) + if ok then [Version(txId, 0, Cut(row, STORED_MAX))] else []
    ensures Mirrors(index.t.contents, if ok && key > 0 then entries[key := |old(page.Contents())|] else entries)
  {
    var slot: nat := page.numRecords;
    var rc := page.Append(row, txId);
    if rc != 0 {
      assert page.Contents() == old(page.Contents()) + [];
      return false;
    }
    EnterKey(index, key, slot, entries);
    return true;
  }

  // The page part and the index part of do_insert, in transaction txId.
  method InsertRow(index: Tree, page: P.Page, value: string, txId: int, ghost d: Db, ghost t: string) returns (ok: bool)
    requires Represents(d, t, index, page) && txId == Enter(d).tx
    requires P.IsText(value) && P.IsInt(txId) && IsKey(Atoi(value))
    modifies index, index.t.nodes.Keys, page`numRecords, page.data
    ensures Represents(DoInsert(d, t, value), t, index, page)
    ensures ok <==> |d.pages[t]| < SLOTS
  {
    InsertLeaves(d, t, value);
    ok := AppendRow(index, page, value, Atoi(value), txId, Entries(d, t));
  }

  lemma InsertLeaves(d: Db, t: string, value: string)
    requires t in d.pages && HasIndex(d, t)
    ensures var p, e, key := d.pages[t], DoInsert(d, t, value), Atoi(value);
      && t in e.pages && HasIndex(e, t)
      && e.pages[t] == p + (if |p| < SLOTS then [Version(Enter(d).tx, 0, Cut(value, STORED_MAX))] else [])
      && Entries(e, t) == if |p| < SLOTS && key > 0 then Entries(d, t)[key := |p|] else Entries(d, t)
  {
    if |d.pages[t]| < SLOTS { PutEntries(d, DoInsert(d, t, value), t, Atoi(value), |d.pages[t]|, t); }
  }

  method RowMatches(m: Match, value: string) returns (hit: bool)
    ensures hit == Matches(m, value)
  {
    match m {
      case ByRecord(id) => hit := Atoi(value) == id;
      case ByColumn(c, id) =>
        if c >= MAX_COLUMNS { return false; }
        var values := new string[MAX_COLUMNS];
        T.SplitRecordValues(value, values);
        hit := Atoi(values[..][c]) == id;
    }
  }

  predicate Hit(l: TxLog, s: Snapshot, v: Version, m: Match) {
    Sees(l, v.Head(), s) && Matches(m, v.value)
  }

  predicate NoHitBelow(l: TxLog, s: Snapshot, p: Page, m: Match, n: nat)
    requires n <= |p|
  {
    forall j :: 0 <= j < n ==> !Hit(l, s, p[j], m)
  }

  lemma FirstHitIs(l: TxLog, s: Snapshot, p: Page, m: Match, i: nat)
    requires i <= |p| && NoHitBelow(l, s, p, m, i) && (i < |p| ==> Hit(l, s, p[i], m))
    ensures i == FirstHit(l, s, p, m)
  {
    var k := FirstHit(l, s, p, m);
    assert k < |p| ==> Hit(l, s, p[k], m);
  }

  method IsHit(page: P.Page, i: nat, mvcc: TxTable, snapshot: Snapshot, m: Match, ghost p: Page, ghost l: TxLog)
    returns (hit: bool)
    requires page.Valid() && mvcc.Valid() && i < page.numRecords && p == page.Contents() && l == mvcc.Log()
    ensures |p| == page.numRecords && hit == Hit(l, snapshot, p[i], m)
  {
    var r := page.ReadRecord(i);
    hit := mvcc.IsVisible(Header(r.xmin, r.xmax), snapshot);
    if hit {
      hit := RowMatches(m, P.TextOf(r.value));
    }
  }

  lemma NoHitNext(l: TxLog, s: Snapshot, p: Page, m: Match, i: nat)
    requires i < |p| && NoHitBelow(l, s, p, m, i) && !Hit(l, s, p[i], m)
    ensures NoHitBelow(l, s, p, m, i + 1)
  {
  }

  // The scan of DELETE and UPDATE; the number of records when nothing is found.
  method FindHit(page: P.Page, mvcc: TxTable, snapshot: Snapshot, m: Match, ghost p: Page, ghost l: TxLog) returns (i: nat)
    requires page.Valid() && mvcc.Valid() && p == page.Contents() && l == mvcc.Log()
    ensures i == FirstHit(l, snapshot, p, m)
  {
    i := 0;
    while i < page.numRecords
      invariant i <= page.numRecords == |p| && NoHitBelow(l, snapshot, p, m, i)
    {
      var hit := IsHit(page, i, mvcc, snapshot, m, p, l);
      if hit {
        FirstHitIs(l, snapshot, p, m, i);
        return;
      }
      NoHitNext(l, snapshot, p, m, i);
      i := i + 1;
    }
    FirstHitIs(l, snapshot, p, m, i);
  }

  lemma DeleteLeaves(d: Db, t: string, id: int)
    requires t in d.pages
    ensures var p, c, e := d.pages[t], Enter(d), DoDelete(d, t, id);
      var i := FirstHit(c.log, c.snap, p, ByRecord(id));
      t in e.pages && e.index == d.index && e.pages[t] == if i < |p| then Kill(p, i, c.tx) else p
  {
  }

  // The page part of do_delete_where_id, which leaves the index alone.
  method DeleteRow(index: Tree, page: P.Page, mvcc: TxTable, snapshot: Snapshot, id: int, txId: int, ghost d: Db, ghost t: string)
    requires Represents(d, t, index, page) && mvcc.Valid() && P.IsInt(txId)
    requires Enter(d).log == mvcc.Log() && Enter(d).snap == snapshot && Enter(d).tx == txId
    modifies page.data
    ensures Represents(DoDelete(d, t, id), t, index, page)
  {
    DeleteLeaves(d, t, id);
    MarkFirst(page, mvcc, snapshot, ByRecord(id), txId, d.pages[t], Enter(d).log);
  }

  method MarkFirst(page: P.Page, mvcc: TxTable, snapshot: Snapshot, m: Match, txId: int, ghost p: Page, ghost l: TxLog)
    requires page.Valid() && mvcc.Valid() && P.IsInt(txId) && p == page.Contents() && l == mvcc.Log()
    modifies page.data
    ensures page.Valid()
    ensures var i := FirstHit(l, snapshot, p, m); page.Contents() == if i < |p| then Kill(p, i, txId) else p
  {
    var i := FindHit(page, mvcc, snapshot, m, p, l);
    if i < page.numRecords {
      page.Mark(i, txId);
    }
  }

  // The new fields of a row, as do_update_columns_where_id computes them.
  method ChangedFields(columns: seq<string>, setText: string, value: string) returns (values: array<string>)
    requires |columns| <= MAX_COLUMNS
    ensures fresh(values) && values.Length == MAX_COLUMNS && values[..] == NewFields(columns, setText, value)
  {
    values := new string[MAX_COLUMNS];
    T.SplitRecordValues(value, values);
    T.ApplySetValues(columns, values, setText);
  }

  // What the page and the index are asked to keep of the row an UPDATE writes.
  ghost predicate Storable(columns: seq<string>, setText: string, value: string) {
    && P.IsText(NewRow(columns, setText, value))
    && (IdColumn(columns) < MAX_COLUMNS ==> IsKey(Atoi(NewFields(columns, setText, value)[IdColumn(columns)])))
  }

  // What an UPDATE does to its table and to its index.
  lemma UpdateLeaves(d: Db, t: string, setText: string, id: int)
    requires t in d.pages && t in d.columns && "id" in d.columns[t] && |d.columns[t]| <= MAX_COLUMNS && HasIndex(d, t)
    ensures var p, cols, c, e := d.pages[t], d.columns[t], Enter(d), DoUpdate(d, t, setText, id);
      var i := FirstHit(c.log, c.snap, p, ByColumn(IdColumn(cols), id));
      && t in e.pages && HasIndex(e, t)
      && (i == |p| ==> e.pages[t] == p && Entries(e, t) == Entries(d, t))
      && (i < |p| ==>
            && e.pages[t] == Replaced(p, i, cols, setText, c.tx)
            && Entries(e, t) == Reindexed(Entries(d, t), p, i, cols, setText))
  {
    var p, c := d.pages[t], Enter(d);
    var i := FirstHit(c.log, c.snap, p, ByColumn(IdColumn(d.columns[t]), id));
    if i < |p| {
      assert Kill(p, i, c.tx) + [] == Kill(p, i, c.tx);
      if |p| < SLOTS {
        PutEntries(d, DoUpdate(d, t, setText, id), t, KeyWritten(d.columns[t], setText, p[i].value), |p|, t);
      }
    }
  }

  // The page part and the index part of do_update_columns_where_id.
  method UpdateRow(index: Tree, page: P.Page, mvcc: TxTable, snapshot: Snapshot, columns: seq<string>, setText: string,
                   id: int, txId: int, ghost d: Db, ghost t: string) returns (found: bool)
    requires Represents(d, t, index, page) && mvcc.Valid() && P.IsInt(txId)
    requires Enter(d).log == mvcc.Log() && Enter(d).snap == snapshot && Enter(d).tx == txId
    requires t in d.columns && d.columns[t] == columns && |columns| <= MAX_COLUMNS && "id" in columns
    requires AllStorable(columns, setText, d.pages[t])
    modifies index, index.t.nodes.Keys, page`numRecords, page.data
    ensures Represents(DoUpdate(d, t, setText, id), t, index, page)
  {
    UpdateLeaves(d, t, setText, id);
    found := UpdatePage(index, page, mvcc, snapshot, columns, setText, id, txId, d.pages[t], Enter(d).log, Entries(d, t));
  }

  ghost predicate AllStorable(columns: seq<string>, setText: string, p: Page) {
    forall i :: 0 <= i < |p| ==> Storable(columns, setText, p[i].value)
  }

  lemma StorableAt(columns: seq<string>, setText: string, p: Page, i: nat)
    requires AllStorable(columns, setText, p) && i < |p|
    ensures Storable(columns, setText, p[i].value)
  {
  }

  // The same of any page, log and entries.
  method UpdatePage(index: Tree, page: P.Page, mvcc: TxTable, snapshot: Snapshot, columns: seq<string>, setText: string,
                    id: int, txId: int, ghost p: Page, ghost l: TxLog, ghost entries: map<int, nat>) returns (found: bool)
    requires index.Valid() && page.Valid() && mvcc.Valid() && P.IsInt(txId)
    requires p == page.Contents() && l == mvcc.Log() && Mirrors(index.t.contents, entries)
    requires |columns| <= MAX_COLUMNS && "id" in columns && AllStorable(columns, setText, p)
    modifies index, index.t.nodes.Keys, page`numRecords, page.data
    ensures index.Valid() && page.Valid()
    ensures var i := FirstHit(l, snapshot, p, ByColumn(IdColumn(columns), id));
      && page.Contents() == (if i < |p| then Replaced(p, i, columns, setText, txId) else p)
      && Mirrors(index.t.contents, if i < |p| then Reindexed(entries, p, i, columns, setText) else entries)
  {
    var k := T.GetColumnIndex(columns, "id");
    var i := FindHit(page, mvcc, snapshot, ByColumn(k, id), p, l);
    found := UpdateSlot(index, page, i, columns, setText, k, txId, p, entries);
  }

  // What comes after the scan: i is the slot it found, or the number of records.
  method UpdateSlot(index: Tree, page: P.Page, i: nat, columns: seq<string>, setText: string, k: nat, txId: int,
                    ghost p: Page, ghost entries: map<int, nat>) returns (found: bool)
    requires index.Valid() && page.Valid() && P.IsInt(txId) && p == page.Contents() && i <= |p|
    requires Mirrors(index.t.contents, entries)
    requires k == IdColumn(columns) < |columns| <= MAX_COLUMNS && AllStorable(columns, setText, p)
    modifies index, index.t.nodes.Keys, page`numRecords, page.data
    ensures index.Valid() && page.Valid()
    ensures page.Contents() == (if i < |p| then Replaced(p, i, columns, setText, txId) else p)
    ensures Mirrors(index.t.contents, if i < |p| then Reindexed(entries, p, i, columns, setText) else entries)
  {
    if i == page.numRecords { return false; }
    StorableAt(columns, setText, p, i);
    found := ReplaceRow(index, page, i, columns, setText, k, txId, p, entries);
  }

  // The page with version i replaced, as far as there is room.
  function Replaced(p: Page, i: nat, columns: seq<string>, setText: string, txId: int): Page
    requires i < |p|
  {
    Kill(p, i, txId) + (if |p| < SLOTS then [Version(txId, 0, Cut(NewRow(columns, setText, p[i].value), STORED_MAX))] else [])
  }

  function Reindexed(entries: map<int, nat>, p: Page, i: nat, columns: seq<string>, setText: string): map<int, nat>
    requires i < |p| && IdColumn(columns) < MAX_COLUMNS
  {
    var key := Atoi(NewFields(columns, setText, p[i].value)[IdColumn(columns)]);
    if |p| < SLOTS && key > 0 then entries[key := |p|] else entries
  }

  // Record i is marked, and its changed row appended if there is room.
  method ReplaceRow(index: Tree, page: P.Page, i: nat, columns: seq<string>, setText: string, k: nat, txId: int,
                    ghost p: Page, ghost entries: map<int, nat>) returns (found: bool)
    requires index.Valid() && page.Valid() && i < page.numRecords && P.IsInt(txId) && p == page.Contents()
    requires Mirrors(index.t.contents, entries)
    requires k == IdColumn(columns) < |columns| <= MAX_COLUMNS && Storable(columns, setText, p[i].value)
    modifies index, index.t.nodes.Keys, page`numRecords, page.data
    ensures index.Valid() && page.Valid()
    ensures page.Contents() == Replaced(p, i, columns, setText, txId)
    ensures Mirrors(index.t.contents, Reindexed(entries, p, i, columns, setText))
  {
    var r := page.ReadRecord(i);
    page.Mark(i, txId);
    var values := ChangedFields(columns, setText, P.TextOf(r.value));
    var row := T.BuildRecordString(|columns|, values);
    found := AppendRow(index, page, row, Atoi(values[..][k]), txId, entries);
  }

  // One record of a page, as a SELECT through the index answers it.
  method ShowRecord(page: P.Page, i: nat, mvcc: TxTable, snapshot: Snapshot, ghost p: Page, ghost l: TxLog)
    returns (answer: Lookup)
    requires page.Valid() && mvcc.Valid() && p == page.Contents() && l == mvcc.Log() && i < |p|
    ensures answer == if Sees(l, p[i].Head(), snapshot) then Shows(p[i].value) else NotVisible
  {
    var r := page.ReadRecord(i);
    var visible := mvcc.IsVisible(Header(r.xmin, r.xmax), snapshot);
    answer := if visible then Shows(P.TextOf(r.value)) else NotVisible;
  }

  // What a lookup answers when the tree of the table has been searched.
  lemma LookupBySearch(d: Db, t: string, id: F.Key, contents: map<F.Key, F.RecordRef>)
    requires t in d.pages && t in d.columns && HasIndex(d, t) && Mirrors(contents, Entries(d, t))
    requires id in contents ==> contents[id].slotId < |d.pages[t]|
    ensures LookupId(d, t, id) ==
      if id !in contents then NotIndexed
      else
        var v := d.pages[t][contents[id].slotId];
        if Sees(Enter(d).log, v.Head(), Enter(d).snap) then Shows(v.value) else NotVisible
  {
  }

  // do_select_where_id: through the tree to one record.
  method SelectRow(index: Tree, page: P.Page, mvcc: TxTable, snapshot: Snapshot, id: int, ghost d: Db, ghost t: string)
    returns (answer: Lookup)
    requires Represents(d, t, index, page) && mvcc.Valid() && IsKey(id) && t in d.columns
    requires Enter(d).log == mvcc.Log() && Enter(d).snap == snapshot
    requires forall k :: k in Entries(d, t) ==> Entries(d, t)[k] < |d.pages[t]|
    ensures answer == LookupId(d, t, id)
  {
    LookupBySearch(d, t, id, index.t.contents);
    var found, ref := index.Search(id);
    if !found { return NotIndexed; }
    answer := ShowRecord(page, ref.slotId, mvcc, snapshot, d.pages[t], Enter(d).log);
  }

  lemma RebuiltNext(p: Page, i: nat)
    requires i < |p|
    ensures Rebuilt(p[..i + 1]) ==
            if Atoi(p[i].value) > 0 && p[i].xmax == 0 then Rebuilt(p[..i])[Atoi(p[i].value) := i] else Rebuilt(p[..i])
  {
    assert p[..i + 1][..i] == p[..i];
  }

  method RebuildRecord(index: Tree, page: P.Page, i: nat, ghost p: Page)
    requires index.Valid() && page.Valid() && p == page.Contents() && i < page.numRecords && IsKey(Atoi(p[i].value))
    requires Mirrors(index.t.contents, Rebuilt(p[..i]))
    modifies index, index.t.nodes.Keys
    ensures index.Valid() && fresh(index.t.nodes.Keys - old(index.t.nodes.Keys))
    ensures Mirrors(index.t.contents, Rebuilt(p[..i + 1]))
  {
    RebuiltNext(p, i);
    var r := page.ReadRecord(i);
    if r.xmax == 0 {
      EnterKey(index, Atoi(P.TextOf(r.value)), i, Rebuilt(p[..i]));
    }
  }

  // rebuild_index_for_table on the page it opened, with the empty tree of a new process.
  method RebuildIndex(index: Tree, page: P.Page)
    requires index.Valid() && page.Valid() && index.t.contents == map[]
    requires forall i :: 0 <= i < |page.Contents()| ==> IsKey(Atoi(page.Contents()[i].value))
    modifies index, index.t.nodes.Keys
    ensures index.Valid() && Mirrors(index.t.contents, Rebuilt(page.Contents()))
  {
    ghost var p := page.Contents();
    for i := 0 to page.numRecords
      modifies index, index.t.nodes.Keys
      invariant index.Valid() && fresh(index.t.nodes.Keys - old(index.t.nodes.Keys))
      invariant Mirrors(index.t.contents, Rebuilt(p[..i]))
    {
      RebuildRecord(index, page, i, p);
    }
    assert p[..|p|] == p;
  }
}
