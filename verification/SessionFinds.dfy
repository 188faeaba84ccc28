// What a lookup by id answers after the statements that store a row, in terms of the numbers and texts
// they store.
module SessionFinds {
  import opened Mvcc
  import opened RowCodec
  import opened RowNumbers
  import opened RowProperties
  import opened RowUpdate
  import opened Session
  import opened SessionRefinement
  import opened SessionIndex
  import opened SessionEffects
  import C = Catalog

  // ----- which tables have an index -----

  function TablesOf(s: Stmt): set<string> {
    match s
    case Begin => {}
    case Commit => {}
    case Rollback => {}
    case Join(t, o) => {t, o}
    case _ => {s.table}
  }

  function TablesNamed(ss: seq<Stmt>): set<string>
    decreases |ss|
  {
    if ss == [] then {} else TablesNamed(ss[..|ss| - 1]) + TablesOf(ss[|ss| - 1])
  }

  // Only the tables of the statement can get an index, and the thirty-third gets none.
  lemma StepIndexes(d: Db, s: Stmt)
    requires |d.index| <= 32
    ensures Step(d, s).index.Keys <= d.index.Keys + TablesOf(s) && |Step(d, s).index| <= 32
  {
    if s.Insert? { InsertIndexes(d, s.table, s.value); }
    else if s.Update? { UpdateIndexes(d, s.table, s.setText, s.id); }
    else if s.SelectId? { LookupIndexes(d, s.table, s.id); }
  }

  lemma InsertIndexes(d: Db, t: string, value: string)
    requires |d.index| <= 32
    ensures var e := DoInsert(d, t, value); e.index.Keys <= d.index.Keys + {t} && |e.index| <= 32
  {
    if t in d.pages { PutIndexes(d.index, t, Atoi(value), |d.pages[t]|); }
  }

  lemma LookupIndexes(d: Db, t: string, id: int)
    requires |d.index| <= 32
    ensures var e := DoSelectId(d, t, id); e.index.Keys <= d.index.Keys + {t} && |e.index| <= 32
  {
    PutIndexes(d.index, t, 0, 0);
  }

  lemma PutIndexes(index: map<string, map<int, nat>>, t: string, key: int, slot: nat)
    requires |index| <= 32
    ensures var after := IndexPut(index, t, key, slot); after.Keys <= index.Keys + {t} && |after| <= 32
    ensures WithIndex(index, t).Keys <= index.Keys + {t} && |WithIndex(index, t)| <= 32
  {
    var ix, after := WithIndex(index, t), IndexPut(index, t, key, slot);
    assert after.Keys == ix.Keys;
    assert |after| == |after.Keys| && |ix| == |ix.Keys|;
    if t !in index && |index| < 32 { assert ix.Keys == index.Keys + {t} && |index.Keys| == |index|; }
  }

  lemma UpdateIndexes(d: Db, t: string, setText: string, id: int)
    requires |d.index| <= 32
    ensures var e := DoUpdate(d, t, setText, id); e.index.Keys <= d.index.Keys + {t} && |e.index| <= 32
  {
    if t in d.pages && t in d.columns && "id" in d.columns[t] {
      var p, cols := d.pages[t], d.columns[t];
      var i := FirstHit(Enter(d).log, Enter(d).snap, p, ByColumn(IdColumn(cols), id));
      if i < |p| {
        var fields := NewFields(cols, setText, p[i].value);
        PutIndexes(d.index, t, if IdColumn(cols) < MAX_COLUMNS then Atoi(fields[IdColumn(cols)]) else 0, |p|);
      }
    }
  }

  lemma {:induction false} RunIndexes(d: Db, ss: seq<Stmt>)
    requires Initial(d)
    ensures Run(d, ss).index.Keys <= TablesNamed(ss) && |Run(d, ss).index| <= 32
    decreases |ss|
  {
    if ss != [] {
      RunIndexes(d, ss[..|ss| - 1]);
      StepIndexes(Run(d, ss[..|ss| - 1]), ss[|ss| - 1]);
    }
  }

  lemma FewerThan(a: set<string>, b: set<string>, t: string)
    requires a <= b && t in b && t !in a
    ensures |a| < |b|
  {
    assert a <= b - {t};
    Smaller(a, b - {t});
  }

  lemma {:induction false} Smaller(a: set<string>, b: set<string>)
    requires a <= b
    ensures |a| <= |b|
    decreases |a|
  {
    if t :| t in a { Smaller(a - {t}, b - {t}); }
  }

  // After a run whose statements name at most thirty-two tables each of them has an index, or gets one
  // with its first key; and whatever they name, no more than thirty-two have one.
  lemma NamedTablesAreIndexed(d: Db, ss: seq<Stmt>, t: string)
    requires Initial(d) && t in TablesNamed(ss)
    ensures |TablesNamed(ss)| <= 32 ==> HasIndex(Run(d, ss), t)
    ensures |Run(d, ss).index| <= 32 && (HasIndex(Run(d, ss), t) <==> t in Run(d, ss).index || |Run(d, ss).index| < 32)
  {
    RunIndexes(d, ss);
    var index := Run(d, ss).index;
    if |TablesNamed(ss)| <= 32 && t !in index { FewerThan(index.Keys, TablesNamed(ss), t); }
  }

  // ----- what a lookup says -----

  // It says of an id that no slot of the page has that it is not there, and otherwise answers by the
  // newest slot of the id.
  lemma LookupTells(d: Db, t: string, id: int) returns (i: nat)
    requires Sound(d) && Indexed(d, t) && HasIndex(d, t) && id > 0
    ensures i <= |d.pages[t]| && (i < |d.pages[t]| ==> Atoi(d.pages[t][i].value) == id)
    ensures forall j :: 0 <= j < |d.pages[t]| && (i < j || i == |d.pages[t]|) ==> Atoi(d.pages[t][j].value) != id
    ensures LookupId(d, t, id) ==
      if i == |d.pages[t]| then NotIndexed
      else if Sees(Enter(d).log, d.pages[t][i].Head(), Enter(d).snap) then Shows(d.pages[t][i].value) else NotVisible
  {
    var p, ix := d.pages[t], Entries(d, t);
    if id in ix {
      i := ix[id];
      assert Newest(p, id, i);
      assert forall j :: i < j < |p| ==> KeyAt(p, j) == Atoi(p[j].value);
    } else {
      i := |p|;
      assert forall j :: 0 <= j < |p| ==> KeyAt(p, j) == Atoi(p[j].value);
    }
  }

  // ----- INSERT -----

  // A new row of d is seen by the statements after it, and old ones as before.
  lemma NextSeesNew(d: Db, e: Db, value: string)
    requires Sound(d) && Sound(e) && e.log == Leave(Enter(d), Committed) && e.cur == d.cur
    ensures var v := Version(Enter(d).tx, 0, value); Sees(Enter(e).log, v.Head(), Enter(e).snap)
  {
    NewIsShown(d, value);
    StatementSees(e, Version(Enter(d).tx, 0, value));
  }

  lemma NextSeesOld(d: Db, e: Db, v: Version)
    requires Sound(d) && Sound(e) && e.log == Leave(Enter(d), Committed) && e.cur == d.cur && InRange(d.log, v)
    ensures Sees(Enter(e).log, v.Head(), Enter(e).snap) == Sees(Enter(d).log, v.Head(), Enter(d).snap)
  {
    StatementKeeps(d, v, Committed, d.cur);
    StatementSees(d, v);
    StatementSees(e, v);
  }

  lemma FoundAtSlot(d: Db, e: Db, t: string, key: int, value: string, id: int)
    requires Sound(d) && Sound(e) && Slotted(d) && t in d.pages && HasIndex(d, t) && key > 0
    requires e.log == Leave(Enter(d), Committed) && e.cur == d.cur && e.columns == d.columns
    requires e.pages == d.pages[t := d.pages[t] + [Version(Enter(d).tx, 0, value)]]
    requires e.index == IndexPut(d.index, t, key, |d.pages[t]|)
    ensures LookupId(e, t, id) == if id == key then Shows(value) else LookupId(d, t, id)
  {
    PutEntries(d, e, t, key, |d.pages[t]|, t);
    if id == key { NextSeesNew(d, e, value); }
    else if id in Entries(d, t) { NextSeesOld(d, e, d.pages[t][Entries(d, t)[id]]); }
  }

  // INSERT of a record that begins with the decimal digits of k and a bar, SELECT WHERE id = k: it shows
  // that record, cut to 239 characters; a lookup of another id answers what it did before.
  lemma InsertedIsFound(d: Db, t: string, k: nat, rest: string, id: int)
    requires Sound(d) && Slotted(d) && t in d.pages && |d.pages[t]| < 16 && HasIndex(d, t) && k > 0
    ensures var value := C.Decimal(k) + "|" + rest;
      LookupId(Step(d, Insert(t, value)), t, id) == if id == k then Shows(CutAt(value, 239)) else LookupId(d, t, id)
  {
    var value := C.Decimal(k) + "|" + rest;
    StepSound(d, Insert(t, value));
    DecimalIsRead(k, "|" + rest);
    assert value == C.Decimal(k) + ("|" + rest);
    FoundAtSlot(d, Step(d, Insert(t, value)), t, k, CutAt(value, 239), id);
  }

  // So in a new database: 12 is found after INSERT of "12|bob", and nothing else.
  lemma FirstInsertIsFound(d: Db, t: string, id: int)
    requires Initial(d) && t in d.pages
    ensures LookupId(Step(d, Insert(t, "12|bob")), t, id) == if id == 12 then Shows("12|bob") else NotIndexed
  {
    assert C.Decimal(12) == "12" by { assert C.DecimalNat(1) == "1"; }
    assert C.Decimal(12) + "|" + "bob" == "12|bob";
    InsertedIsFound(d, t, 12, "bob", id);
  }

  // ----- UPDATE -----

  lemma FoundBehind(d: Db, e: Db, t: string, q: Page, key: int, value: string)
    requires Sound(d) && Sound(e) && t in d.pages && |q| == |d.pages[t]| && HasIndex(d, t) && key > 0
    requires e.log == Leave(Enter(d), Committed) && e.cur == d.cur && e.columns == d.columns
    requires e.pages == d.pages[t := q + [Version(Enter(d).tx, 0, value)]] && e.index == IndexPut(d.index, t, key, |q|)
    ensures LookupId(e, t, key) == Shows(value)
  {
    PutEntries(d, e, t, key, |q|, t);
    NextSeesNew(d, e, value);
  }

  lemma PadBegins(fields: seq<string>, padded: seq<string>, c: nat)
    requires |fields| <= MAX_COLUMNS && c < |fields| && padded == Pad(fields)
    ensures padded[c] == fields[c]
  {
  }

  // The text and the id column of the row an UPDATE writes.
  lemma ChangedText(cols: seq<string>, fields: seq<string>, setText: string, c: nat, changed: seq<string>, value: string)
    requires |cols| == |fields| && Fits(fields) && Recoverable(fields) && c < |fields| && value == Stored(fields)
    requires changed == Changed(cols, fields, Assignments(setText))
    ensures NewFields(cols, setText, value)[c] == changed[c]
    ensures CutAt(NewRow(cols, setText, value), 239) == CutAt(RowCodec.Join(changed), 239)
  {
    UpdateChangesExactly(cols, fields, setText);
    StoredIs(changed);
    PadBegins(changed, NewFields(cols, setText, value), c);
    CutIs(NewRow(cols, setText, value));
    CutIs(RowCodec.Join(changed));
  }

  lemma CutIs(s: string)
    ensures CutAt(s, 239) == Cut(s, STORED_MAX)
  {
  }

  lemma UpdateStores(d: Db, e: Db, t: string, setText: string, id: int, c: nat, i: nat)
    requires t in d.pages && t in d.columns && i < |d.pages[t]| < 16 && c < 16 && c == IdColumn(d.columns[t]) < |d.columns[t]|
    requires i == FirstHit(Enter(d).log, Enter(d).snap, d.pages[t], ByColumn(c, id)) && e == DoUpdate(d, t, setText, id)
    ensures var p, cols := d.pages[t], d.columns[t];
      && e.log == Leave(Enter(d), Committed) && e.cur == d.cur && e.columns == d.columns
      && e.index == IndexPut(d.index, t, Atoi(NewFields(cols, setText, p[i].value)[c]), |p|)
      && e.pages == d.pages[t := Kill(p, i, Enter(d).tx) +
                                 [Version(Enter(d).tx, 0, CutAt(NewRow(cols, setText, p[i].value), 239))]]
  {
  }

  lemma RowIsFound(d: Db, e: Db, t: string, setText: string, id: int, c: nat, i: nat, key: int, row: string)
    requires Sound(d) && Sound(e) && HasIndex(d, t) && key > 0
    requires t in d.pages && t in d.columns && i < |d.pages[t]| < 16 && c < 16 && c == IdColumn(d.columns[t]) < |d.columns[t]|
    requires i == FirstHit(Enter(d).log, Enter(d).snap, d.pages[t], ByColumn(c, id)) && e == DoUpdate(d, t, setText, id)
    requires key == Atoi(NewFields(d.columns[t], setText, d.pages[t][i].value)[c])
    requires row == CutAt(NewRow(d.columns[t], setText, d.pages[t][i].value), 239)
    ensures LookupId(e, t, key) == Shows(row)
  {
    UpdateStores(d, e, t, setText, id, c, i);
    FoundBehind(d, e, t, Kill(d.pages[t], i, Enter(d).tx), key, row);
  }

  lemma UpdateIsStep(d: Db, t: string, setText: string, id: int)
    ensures Step(d, Update(t, setText, id)) == DoUpdate(d, t, setText, id)
  {
  }

  lemma StepIsFound(d: Db, t: string, setText: string, id: int, c: nat, i: nat, key: int, row: string)
    requires Sound(d) && t in d.pages && i < |d.pages[t]| < 16 && HasIndex(d, t) && key > 0
    requires c < |d.columns[t]| && d.columns[t][c] == "id" && "id" !in d.columns[t][..c]
    requires FieldSeen(d, d.pages[t], i, c, id) && forall j :: 0 <= j < i ==> !FieldSeen(d, d.pages[t], j, c, id)
    requires key == Atoi(NewFields(d.columns[t], setText, d.pages[t][i].value)[c])
    requires row == CutAt(NewRow(d.columns[t], setText, d.pages[t][i].value), 239)
    ensures LookupId(Step(d, Update(t, setText, id)), t, key) == Shows(row)
  {
    var e := DoUpdate(d, t, setText, id);
    UpdateIsStep(d, t, setText, id);
    UpdateSound(d, t, setText, id);
    FirstFieldHit(d, t, id, c, i);
    RowIsFound(d, e, t, setText, id, c, i, key, row);
    assert LookupId(e, t, key) == Shows(row);
  }

  // UPDATE WHERE id, SELECT WHERE id = the number in the id column of the changed row: it shows that row.
  lemma UpdatedIsFound(d: Db, t: string, setText: string, id: int, c: nat, i: nat, fields: seq<string>)
    requires Sound(d) && t in d.pages && i < |d.pages[t]| < 16 && HasIndex(d, t)
    requires c < |d.columns[t]| && d.columns[t][c] == "id" && "id" !in d.columns[t][..c]
    requires FieldSeen(d, d.pages[t], i, c, id) && forall j :: 0 <= j < i ==> !FieldSeen(d, d.pages[t], j, c, id)
    requires |fields| == |d.columns[t]| && Fits(fields) && Recoverable(fields) && d.pages[t][i].value == Stored(fields)
    requires Atoi(Changed(d.columns[t], fields, Assignments(setText))[c]) > 0
    ensures var changed := Changed(d.columns[t], fields, Assignments(setText));
      LookupId(Step(d, Update(t, setText, id)), t, Atoi(changed[c])) == Shows(CutAt(RowCodec.Join(changed), 239))
  {
    var changed, value := Changed(d.columns[t], fields, Assignments(setText)), d.pages[t][i].value;
    ChangedText(d.columns[t], fields, setText, c, changed, value);
    StepIsFound(d, t, setText, id, c, i, Atoi(changed[c]), CutAt(RowCodec.Join(changed), 239));
  }

  lemma FirstFieldHit(d: Db, t: string, id: int, c: nat, i: nat)
    requires t in d.pages && t in d.columns && i < |d.pages[t]|
    requires c < |d.columns[t]| && d.columns[t][c] == "id" && "id" !in d.columns[t][..c]
    requires FieldSeen(d, d.pages[t], i, c, id) && forall j :: 0 <= j < i ==> !FieldSeen(d, d.pages[t], j, c, id)
    ensures IdColumn(d.columns[t]) == c && i == FirstHit(Enter(d).log, Enter(d).snap, d.pages[t], ByColumn(c, id))
  {
    IdIsAt(d.columns[t], c);
    var k := FirstHit(Enter(d).log, Enter(d).snap, d.pages[t], ByColumn(c, id));
    assert k < |d.pages[t]| ==> FieldSeen(d, d.pages[t], k, c, id);
  }
}
