// The in-memory index against the full scan, over whole runs of the session.
module SessionIndex {
  import opened Mvcc
  import opened RowCodec
  import opened Session
  import opened SessionProperties

  function KeyAt(p: Page, i: nat): int
    requires i < |p|
  {
    Atoi(p[i].value)
  }

  // ----- the index names the newest slot of each key -----

  ghost predicate Newest(p: Page, k: int, i: nat) {
    && i < |p| && KeyAt(p, i) == k
    && forall j {:trigger KeyAt(p, j)} :: i < j < |p| ==> KeyAt(p, j) != k
  }

  ghost predicate TableIndexed(p: Page, ix: map<int, nat>) {
    && (forall k {:trigger ix[k]} :: k in ix ==> k > 0 && Newest(p, k, ix[k]))
    && (forall i {:trigger KeyAt(p, i)} :: 0 <= i < |p| && KeyAt(p, i) > 0 ==> KeyAt(p, i) in ix)
  }

  // The table has an index, or gets one on first use.
  predicate HasIndex(d: Db, t: string) {
    t in d.index || |d.index| < MAX_INDEXES
  }

  function Entries(d: Db, t: string): map<int, nat> {
    if t in d.index then d.index[t] else map[]
  }

  // The index of table t is exact, if it has one.
  ghost predicate Indexed(d: Db, t: string) {
    t in d.pages && (HasIndex(d, t) ==> TableIndexed(d.pages[t], Entries(d, t)))
  }

  // Entering key is entering the key of the record.
  predicate KeepsKey(key: int, value: string) {
    key > 0 || Atoi(value) > 0 ==> key == Atoi(value)
  }

  // If a statement writes table t, the key it enters into the index is that of the record it stores.
  predicate StoresItsKey(d: Db, s: Stmt, t: string) {
    match s
    case Insert(u, v) =>
      u == t && t in d.pages && HasIndex(d, t) && |d.pages[t]| < SLOTS ==> KeepsKey(Atoi(v), Cut(v, STORED_MAX))
    case Update(u, set_, id) =>
      u == t && t in d.pages && t in d.columns && "id" in d.columns[t] && HasIndex(d, t) && |d.pages[t]| < SLOTS ==>
        var c, p, cols := Enter(d), d.pages[t], d.columns[t];
        var i := FirstHit(c.log, c.snap, p, ByColumn(IdColumn(cols), id));
        i < |p| ==> KeepsKey(KeyWritten(cols, set_, p[i].value), Cut(NewRow(cols, set_, p[i].value), STORED_MAX))
    case _ => true
  }

  // The key UPDATE enters: the id column of the new row.
  function KeyWritten(cols: seq<string>, setText: string, value: string): int {
    if IdColumn(cols) < MAX_COLUMNS then Atoi(NewFields(cols, setText, value)[IdColumn(cols)]) else 0
  }

  // Appending a record and entering a key keeps the index exact just when it is the record's key.
  lemma AppendIndexed(p: Page, ix: map<int, nat>, v: Version, key: int)
    requires TableIndexed(p, ix)
    ensures TableIndexed(p + [v], if key > 0 then ix[key := |p|] else ix) <==> KeepsKey(key, v.value)
  {
    var q := p + [v];
    var jx: map<int, nat> := if key > 0 then ix[key := |p|] else ix;
    assert KeyAt(q, |p|) == Atoi(v.value);
    assert forall i {:trigger KeyAt(q, i)} :: 0 <= i < |p| ==> KeyAt(q, i) == KeyAt(p, i);
    if KeepsKey(key, v.value) {
      forall k | k in jx ensures k > 0 && Newest(q, k, jx[k]) {
        if k != key || key <= 0 { assert Newest(p, k, ix[k]); }
      }
    } else if key > 0 {
      assert !Newest(q, key, jx[key]);
    } else if KeyAt(q, |p|) in jx {
      assert Newest(p, KeyAt(q, |p|), ix[KeyAt(q, |p|)]);
      assert !Newest(q, KeyAt(q, |p|), jx[KeyAt(q, |p|)]);
    }
  }

  // Marking versions does not concern the index.
  lemma MarkIndexed(p: Page, q: Page, ix: map<int, nat>)
    requires TableIndexed(p, ix) && |q| == |p| && forall i :: 0 <= i < |p| ==> q[i].value == p[i].value
    ensures TableIndexed(q, ix)
  {
    assert forall i {:trigger KeyAt(q, i)} :: 0 <= i < |p| ==> KeyAt(q, i) == KeyAt(p, i);
    assert forall i {:trigger KeyAt(p, i)} :: 0 <= i < |p| ==> KeyAt(q, i) == KeyAt(p, i);
    forall k | k in ix ensures k > 0 && Newest(q, k, ix[k]) { assert Newest(p, k, ix[k]); }
  }

  // What IndexPut leaves: the entries of the other tables, and those of t with the key entered.
  lemma PutEntries(d: Db, e: Db, t: string, key: int, slot: nat, n: string)
    requires e.index == IndexPut(d.index, t, key, slot)
    ensures HasIndex(e, t) == HasIndex(d, t)
    ensures n != t && HasIndex(e, n) ==> HasIndex(d, n) && Entries(e, n) == Entries(d, n)
    ensures HasIndex(d, t) ==> Entries(e, t) == if key > 0 then Entries(d, t)[key := slot] else Entries(d, t)
  {
    assert forall m :: m in e.index <==> m in WithIndex(d.index, t);
    assert e.index.Keys == WithIndex(d.index, t).Keys;
  }

  lemma PutIndexed(d: Db, e: Db, t: string, q: Page, v: Version, key: int)
    requires Indexed(d, t) && |q| == |d.pages[t]| && forall i :: 0 <= i < |q| ==> q[i].value == d.pages[t][i].value
    requires t in e.pages && e.pages[t] == q + [v] && e.index == IndexPut(d.index, t, key, |q|)
    ensures Indexed(e, t) <==> (HasIndex(d, t) ==> KeepsKey(key, v.value))
  {
    PutEntries(d, e, t, key, |q|, t);
    if HasIndex(d, t) {
      MarkIndexed(d.pages[t], q, Entries(d, t));
      AppendIndexed(q, Entries(d, t), v, key);
    }
  }

  lemma MarksIndexed(d: Db, e: Db, t: string)
    requires Indexed(d, t) && t in e.pages && e.index == d.index && |e.pages[t]| == |d.pages[t]|
    requires forall i :: 0 <= i < |d.pages[t]| ==> e.pages[t][i].value == d.pages[t][i].value
    ensures Indexed(e, t)
  {
    if HasIndex(d, t) { MarkIndexed(d.pages[t], e.pages[t], Entries(d, t)); }
  }

  lemma UpdateIndexed(d: Db, t: string, setText: string, id: int)
    requires Sound(d) && Indexed(d, t) && "id" in d.columns[t]
    ensures Indexed(DoUpdate(d, t, setText, id), t) <==> StoresItsKey(d, Update(t, setText, id), t)
  {
    var c, p, cols := Enter(d), d.pages[t], d.columns[t];
    var i := FirstHit(c.log, c.snap, p, ByColumn(IdColumn(cols), id));
    if i < |p| {
      var e := DoUpdate(d, t, setText, id);
      UpdatePuts(d, t, setText, id, i);
      if |p| >= SLOTS {
        MarksIndexed(d, e, t);
      } else {
        var v := Version(c.tx, 0, Cut(NewRow(cols, setText, p[i].value), STORED_MAX));
        PutIndexed(d, e, t, Kill(p, i, c.tx), v, KeyWritten(cols, setText, p[i].value));
      }
    }
  }

  lemma UpdatePuts(d: Db, t: string, setText: string, id: int, i: nat)
    requires Sound(d) && t in d.pages && "id" in d.columns[t] && i < |d.pages[t]|
    requires i == FirstHit(Enter(d).log, Enter(d).snap, d.pages[t], ByColumn(IdColumn(d.columns[t]), id))
    ensures var e, c, p, cols := DoUpdate(d, t, setText, id), Enter(d), d.pages[t], d.columns[t];
      var q := Kill(p, i, c.tx);
      if |p| >= SLOTS then e.pages == d.pages[t := q] && e.index == d.index
      else
        && e.pages == d.pages[t := q + [Version(c.tx, 0, Cut(NewRow(cols, setText, p[i].value), STORED_MAX))]]
        && e.index == IndexPut(d.index, t, KeyWritten(cols, setText, p[i].value), |q|)
  {
  }

  lemma InsertIndexed(d: Db, t: string, value: string)
    requires Indexed(d, t)
    ensures Indexed(DoInsert(d, t, value), t) <==> StoresItsKey(d, Insert(t, value), t)
  {
    if |d.pages[t]| < SLOTS {
      PutIndexed(d, DoInsert(d, t, value), t, d.pages[t], Version(Enter(d).tx, 0, Cut(value, STORED_MAX)), Atoi(value));
    }
  }

  // A statement that does not write t may give another table an index.
  lemma OtherIndexed(d: Db, s: Stmt, t: string)
    requires Sound(d) && Indexed(d, t) && Inside(s) && !Writes(s, t)
    ensures Indexed(Step(d, s), t)
  {
    LeavesTable(d, s, t);
    OtherEntries(d, s, t);
  }

  lemma OtherEntries(d: Db, s: Stmt, t: string)
    requires Sound(d) && Inside(s) && !Writes(s, t)
    ensures HasIndex(Step(d, s), t) ==> HasIndex(d, t) && Entries(Step(d, s), t) == Entries(d, t)
  {
    if s.Insert? { InsertEntries(d, s.table, s.value, t); }
    else if s.Update? { UpdateEntries(d, s.table, s.setText, s.id, t); }
    else if s.SelectId? { SelectEntries(d, s.table, s.id, t); }
  }

  lemma SelectEntries(d: Db, u: string, id: int, t: string)
    ensures var e := DoSelectId(d, u, id); HasIndex(e, t) ==> HasIndex(d, t) && Entries(e, t) == Entries(d, t)
  {
  }

  lemma InsertEntries(d: Db, u: string, value: string, t: string)
    requires u != t
    ensures var e := DoInsert(d, u, value); HasIndex(e, t) ==> HasIndex(d, t) && Entries(e, t) == Entries(d, t)
  {
    if u in d.pages && |d.pages[u]| < SLOTS { PutEntries(d, DoInsert(d, u, value), u, Atoi(value), |d.pages[u]|, t); }
  }

  lemma UpdateEntries(d: Db, u: string, setText: string, id: int, t: string)
    requires Sound(d) && u != t
    ensures var e := DoUpdate(d, u, setText, id); HasIndex(e, t) ==> HasIndex(d, t) && Entries(e, t) == Entries(d, t)
  {
    if u in d.pages && "id" in d.columns[u] {
      var e, p, cols := DoUpdate(d, u, setText, id), d.pages[u], d.columns[u];
      var i := FirstHit(Enter(d).log, Enter(d).snap, p, ByColumn(IdColumn(cols), id));
      if i < |p| {
        UpdatePuts(d, u, setText, id, i);
        if |p| < SLOTS { PutEntries(d, e, u, KeyWritten(cols, setText, p[i].value), |p|, t); }
      }
    }
  }

  lemma DeletesIndexed(d: Db, s: Stmt, t: string)
    requires Indexed(d, t) && (s.Delete? || s.DeleteAll?) && s.table == t
    ensures Indexed(Step(d, s), t)
  {
    var e := Step(d, s);
    assert e.index == d.index && t in e.pages;
    MarksIndexed(d, e, t);
  }

  // Every statement, in or outside transactions, ROLLBACK included, keeps the index of a table exact if
  // and only if, when it writes the table, it enters the key of the record it stores.
  lemma StepIndexed(d: Db, s: Stmt, t: string)
    requires Sound(d) && Indexed(d, t)
    ensures Indexed(Step(d, s), t) <==> StoresItsKey(d, s, t)
  {
    if !Inside(s) {
    } else if !Writes(s, t) {
      OtherIndexed(d, s, t);
    } else {
      match s
      case Insert(_, v) => InsertIndexed(d, t, v);
      case Update(_, set_, id) => if "id" in d.columns[t] { UpdateIndexed(d, t, set_, id); }
      case Delete(_, id) => DeletesIndexed(d, s, t);
      case DeleteAll(_) => DeletesIndexed(d, s, t);
    }
  }

  // ----- every run -----

  ghost predicate KeysRun(d: Db, ss: seq<Stmt>, t: string)
    decreases |ss|
  {
    ss == [] || (KeysRun(d, ss[..|ss| - 1], t) && StoresItsKey(Run(d, ss[..|ss| - 1]), ss[|ss| - 1], t))
  }

  ghost predicate IndexedThroughout(d: Db, ss: seq<Stmt>, t: string)
    decreases |ss|
  {
    Indexed(Run(d, ss), t) && (ss != [] ==> IndexedThroughout(d, ss[..|ss| - 1], t))
  }

  // The index of a table is exact after every statement of a run, rollbacks included, if and only if
  // every statement that wrote the table entered the key of the record it stored.
  lemma {:induction false} RunIndexed(d: Db, ss: seq<Stmt>, t: string)
    requires Sound(d) && Indexed(d, t)
    ensures IndexedThroughout(d, ss, t) <==> KeysRun(d, ss, t)
    decreases |ss|
  {
    if ss != [] {
      RunIndexed(d, ss[..|ss| - 1], t);
      RunSound(d, ss[..|ss| - 1]);
      if IndexedThroughout(d, ss[..|ss| - 1], t) { StepIndexed(Run(d, ss[..|ss| - 1]), ss[|ss| - 1], t); }
    }
  }

  // Every index entry names a slot of its page.
  ghost predicate Slotted(d: Db) {
    forall t, k :: t in d.index && t in d.pages && k in d.index[t] ==> d.index[t][k] < |d.pages[t]|
  }

  lemma PutSlotted(d: Db, e: Db, t: string, q: Page, v: Version, key: int)
    requires Slotted(d) && t in d.pages && |q| == |d.pages[t]|
    requires e.pages == d.pages[t := q + [v]] && e.index == IndexPut(d.index, t, key, |q|)
    ensures Slotted(e)
  {
    forall n, k | n in e.index && n in e.pages && k in e.index[n] ensures e.index[n][k] < |e.pages[n]| {
      assert n in WithIndex(d.index, t);
    }
  }

  lemma UpdateSlotted(d: Db, t: string, setText: string, id: int)
    requires Sound(d) && Slotted(d)
    ensures Slotted(DoUpdate(d, t, setText, id))
  {
    if t in d.pages && "id" in d.columns[t] {
      var p, cols := d.pages[t], d.columns[t];
      var i := FirstHit(Enter(d).log, Enter(d).snap, p, ByColumn(IdColumn(cols), id));
      if i < |p| {
        UpdatePuts(d, t, setText, id, i);
        if |p| < SLOTS {
          var v := Version(Enter(d).tx, 0, Cut(NewRow(cols, setText, p[i].value), STORED_MAX));
          PutSlotted(d, DoUpdate(d, t, setText, id), t, Kill(p, i, Enter(d).tx), v, KeyWritten(cols, setText, p[i].value));
        }
      }
    }
  }

  lemma InsertSlotted(d: Db, t: string, value: string)
    requires Slotted(d)
    ensures Slotted(DoInsert(d, t, value))
  {
    if t in d.pages && |d.pages[t]| < SLOTS {
      PutSlotted(d, DoInsert(d, t, value), t, d.pages[t], Version(Enter(d).tx, 0, Cut(value, STORED_MAX)), Atoi(value));
    }
  }

  lemma DeleteSlotted(d: Db, t: string, id: int)
    requires Slotted(d)
    ensures Slotted(DoDelete(d, t, id)) && Slotted(DoDeleteAll(d, t))
  {
  }

  lemma StepSlotted(d: Db, s: Stmt)
    requires Sound(d) && Slotted(d)
    ensures Slotted(Step(d, s))
  {
    if s.Insert? { InsertSlotted(d, s.table, s.value); }
    else if s.Update? { UpdateSlotted(d, s.table, s.setText, s.id); }
    else if s.Delete? { DeleteSlotted(d, s.table, s.id); }
    else if s.DeleteAll? { DeleteSlotted(d, s.table, 0); }
    else { ReadSlotted(d, s); }
  }

  lemma ReadSlotted(d: Db, s: Stmt)
    requires Slotted(d) && !IsWrite(s)
    ensures Slotted(Step(d, s))
  {
    var e := Step(d, s);
    assert e.pages == d.pages && (e.index == d.index || (s.SelectId? && e.index == WithIndex(d.index, s.table)));
  }

  // In every run, whatever the keys: do_select_where_id never reads past the records of a page.
  lemma {:induction false} RunSlotted(d: Db, ss: seq<Stmt>)
    requires Initial(d)
    ensures Slotted(Run(d, ss))
    decreases |ss|
  {
    if ss != [] {
      RunSlotted(d, ss[..|ss| - 1]);
      RunSound(d, ss[..|ss| - 1]);
      StepSlotted(Run(d, ss[..|ss| - 1]), ss[|ss| - 1]);
    }
  }

  // A row the indexed lookup shows is one the full scan shows, and the lookup shows a row exactly when
  // the table has an index and the newest version of the id is visible.
  lemma LookupIsSound(d: Db, t: string, id: int)
    requires Sound(d) && Indexed(d, t) && id > 0
    ensures var c, r := Enter(d), LookupId(d, t, id);
      && (r.Shows? ==> Atoi(r.value) == id && r.value in Visible(c.log, c.snap, d.pages[t]))
      && (r.Shows? <==>
          HasIndex(d, t) && exists i: nat :: Newest(d.pages[t], id, i) && Sees(c.log, d.pages[t][i].Head(), c.snap))
  {
    var c, r, p := Enter(d), LookupId(d, t, id), d.pages[t];
    if t in d.index && id in d.index[t] {
      var i := d.index[t][id];
      assert Newest(p, id, i);
      if r.Shows? { SeenIsVisible(c.log, c.snap, p, i); }
      forall j: nat | Newest(p, id, j) ensures j == i {
        assert KeyAt(p, i) == id && KeyAt(p, j) == id;
      }
    } else if HasIndex(d, t) {
      assert TableIndexed(p, Entries(d, t));
      forall j: nat ensures !Newest(p, id, j) { assert j < |p| ==> KeyAt(p, j) != id; }
    }
  }

  // So in every run from the start, with any number of tables and any rollbacks, whatever happens to
  // other tables.
  lemma LookupIsSoundInEveryRun(d: Db, ss: seq<Stmt>, t: string, id: int)
    requires Initial(d) && KeysRun(d, ss, t) && t in d.pages && id > 0
    ensures t in Run(d, ss).pages
    ensures var e := Run(d, ss);
      var c, r, p := Enter(e), LookupId(e, t, id), e.pages[t];
      && (r.Shows? ==> Atoi(r.value) == id && r.value in Visible(c.log, c.snap, p))
      && (r.Shows? <==> HasIndex(e, t) && exists i: nat :: Newest(p, id, i) && Sees(c.log, p[i].Head(), c.snap))
  {
    RunIndexed(d, ss, t);
    RunSound(d, ss);
    LookupIsSound(Run(d, ss), t, id);
  }

  lemma {:induction false} SeenIsVisible(l: TxLog, s: Snapshot, p: Page, i: nat)
    requires i < |p| && Sees(l, p[i].Head(), s)
    ensures p[i].value in Visible(l, s, p)
    decreases |p|
  {
    if i < |p| - 1 {
      SeenIsVisible(l, s, p[..|p| - 1], i);
    }
  }

  lemma {:induction false} VisibleIsSeen(l: TxLog, s: Snapshot, p: Page, r: string)
    requires r in Visible(l, s, p)
    ensures exists i :: 0 <= i < |p| && Sees(l, p[i].Head(), s) && p[i].value == r
    decreases |p|
  {
    var n := |p| - 1;
    if r in Visible(l, s, p[..n]) {
      VisibleIsSeen(l, s, p[..n], r);
      var i :| 0 <= i < n && Sees(l, p[..n][i].Head(), s) && p[..n][i].value == r;
      assert p[i] == p[..n][i];
    } else {
      assert p[n].value == r;
    }
  }
}
