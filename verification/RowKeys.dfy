// Rows whose first field is a positive id: the key the index uses, atoi of the whole record, is the
// id column, so the indexed lookup is as good as the scan.
module RowKeys {
  import opened RowCodec
  import opened RowProperties
  import opened Session
  import opened SessionRefinement
  import opened SessionProperties
  import opened SessionIndex
  import opened SessionLookup

  // ----- atoi -----

  lemma {:induction false} DigitsStop(s: string, n: nat, acc: int)
    requires n <= |s| && (n < |s| ==> s[n] == '|')
    ensures Digits(s, acc) == Digits(s[..n], acc)
    decreases |s|
  {
    if n > 0 && IsDigit(s[0]) {
      assert s[..n][1..] == s[1..][..n - 1];
      DigitsStop(s[1..], n - 1, acc * 10 + (s[0] as int - '0' as int));
    }
  }

  // atoi of a record is atoi of what comes before any of its bars.
  lemma {:induction false} AtoiStops(s: string, n: nat)
    requires n <= |s| && (n < |s| ==> s[n] == '|')
    ensures Atoi(s) == Atoi(s[..n])
    decreases |s|
  {
    if n > 0 {
      assert s[..n][1..] == s[1..][..n - 1];
      if IsSpace(s[0]) { AtoiStops(s[1..], n - 1); }
      else if s[0] == '-' || s[0] == '+' { DigitsStop(s[1..], n - 1, 0); }
      else { DigitsStop(s, n, 0); }
    } else if s != "" {
      DigitsStop(s, 0, 0);
    }
  }

  // ----- rows that begin with a field -----

  predicate IdFirst(value: string) {
    value != "" && value[0] != '|' && TokenLen(value, '|') <= 127
  }

  lemma IdFirstToken(value: string)
    requires IdFirst(value) && |value| <= RECORD_MAX
    ensures Split(value)[0] == value[..TokenLen(value, '|')]
  {
    assert Cut(value, RECORD_MAX) == value;
  }

  lemma IdFirstIsKeyed(columns: seq<string>, value: string)
    requires IdFirst(value) && |value| <= RECORD_MAX && columns != [] && columns[0] == "id"
    ensures Keyed(columns, value)
  {
    IdFirstToken(value);
    AtoiStops(value, TokenLen(value, '|'));
  }

  // What a page keeps of such a row is such a row, with the same key.
  lemma CutKeepsKey(v: string)
    requires IdFirst(v)
    ensures IdFirst(Cut(v, STORED_MAX)) && Atoi(Cut(v, STORED_MAX)) == Atoi(v)
  {
    var n, c := TokenLen(v, '|'), Cut(v, STORED_MAX);
    assert c[..n] == v[..n];
    TokenLenIs(c, '|', n);
    AtoiStops(v, n);
    AtoiStops(c, n);
  }

  lemma LongFirstField(value: string)
    requires value != "" && value[0] != '|' && TokenLen(value, '|') > FIELD_MAX
    ensures Split(value)[0] == value[..FIELD_MAX]
  {
    var c, n := Cut(value, RECORD_MAX), TokenLen(value, '|');
    var m := if n < RECORD_MAX then n else RECORD_MAX;
    assert |value| > RECORD_MAX ==> c[..m] == value[..n][..m];
    TokenLenIs(c, '|', if m < |c| then m else |c|);
    assert Tokens(c, '|')[0] == c[..TokenLen(c, '|')];
  }

  lemma FirstField(value: string)
    requires IdFirst(value)
    ensures Split(value)[0] == value[..TokenLen(value, '|')]
  {
    var c, n := Cut(value, RECORD_MAX), TokenLen(value, '|');
    assert c[..n] == value[..n];
    TokenLenIs(c, '|', n);
  }

  // With id as the first column, for every row: the key of the record is the id column, unless the
  // first field is empty and the next one takes its place, or it is cut before its number ends.
  lemma KeyedExactly(columns: seq<string>, value: string)
    requires columns != [] && columns[0] == "id"
    ensures Keyed(columns, value) <==>
      if value == "" || IdFirst(value) then true
      else if value[0] == '|' then Atoi(Split(value)[0]) == 0
      else Atoi(value[..127]) == Atoi(value[..TokenLen(value, '|')])
  {
    if value != "" {
      if value[0] == '|' { AtoiStops(value, 0); } else { AtoiStops(value, TokenLen(value, '|')); }
      if IdFirst(value) { FirstField(value); }
      else if value[0] != '|' { LongFirstField(value); }
    }
  }

  // A row whose empty first field makes the keys disagree.
  lemma EmptyFirstField()
    ensures Atoi("|7") == 0 && Split("|7")[0] == "7" && !Keyed(["id"], "|7")
  {
    var s := "|7";
    assert SkipDelims(s, '|') == "7" by { assert s[1..] == "7"; }
    TokenLenIs("7", '|', 1);
    assert "7"[1..] == "" && "7"[..1] == "7";
    assert Tokens(s, '|') == ["7"];
    assert Cut(s, RECORD_MAX) == s;
  }

  lemma {:induction false} JoinBegins(fields: seq<string>)
    requires fields != []
    ensures fields[0] <= RowCodec.Join(fields)
    ensures |RowCodec.Join(fields)| > |fields[0]| ==> RowCodec.Join(fields)[|fields[0]|] == '|'
    decreases |fields|
  {
    if |fields| > 1 { JoinBegins(fields[..|fields| - 1]); }
  }

  lemma BuildBegins(fields: seq<string>, n: nat)
    requires 1 <= n <= |fields| && |fields[0]| <= FIELD_MAX
    ensures fields[0] <= Build(fields, n) && (|Build(fields, n)| > |fields[0]| ==> Build(fields, n)[|fields[0]|] == '|')
  {
    JoinBegins(fields[..n]);
  }

  lemma TokenLenBefore(s: string, n: nat)
    requires n < |s| && s[n] == '|'
    ensures TokenLen(s, '|') <= n
  {
    var m := TokenLen(s, '|');
    assert forall k :: 0 <= k < m ==> s[k] == s[..m][k];
  }

  // A first field that neither is empty nor begins with a bar is the key of the row it is built into.
  lemma BuildKeepsKey(fields: seq<string>, n: nat)
    requires 1 <= n <= |fields| && |fields[0]| <= FIELD_MAX && fields[0] != "" && fields[0][0] != '|'
    ensures IdFirst(Build(fields, n)) && Atoi(Build(fields, n)) == Atoi(fields[0])
  {
    var row := Build(fields, n);
    BuildBegins(fields, n);
    AtoiStops(row, |fields[0]|);
    assert row[..|fields[0]|] == fields[0];
    if |row| > |fields[0]| { TokenLenBefore(row, |fields[0]|); }
  }

  // ----- statements that keep rows so -----

  // An assignment to id gives it something that can begin a row.
  predicate TidyAssignment(a: string) {
    var eq := TokenLen(a, '=');
    eq < |a| && CleanToken(Cut(a[..eq], NAME_MAX)) == "id" ==>
      var v := CleanToken(Cut(a[eq + 1..], FIELD_MAX)); v != "" && v[0] != '|'
  }

  predicate TidySet(assignments: seq<string>) {
    forall i :: 0 <= i < |assignments| ==> TidyAssignment(assignments[i])
  }

  predicate Tidy(s: Stmt) {
    match s
    case Insert(_, v) => IdFirst(v)
    case Update(_, setText, _) => TidySet(Tokens(Cut(setText, RECORD_MAX), ','))
    case _ => true
  }

  predicate GoodFirst(f: string) {
    f != "" && f[0] != '|' && |f| <= FIELD_MAX
  }

  lemma ApplyOneFirst(columns: seq<string>, values: seq<string>, a: string)
    requires columns != [] && columns[0] == "id" && values != [] && GoodFirst(values[0]) && TidyAssignment(a)
    ensures GoodFirst(ApplyOne(columns, values, a)[0])
  {
  }

  lemma {:induction false} ApplyAllFirst(columns: seq<string>, values: seq<string>, assignments: seq<string>)
    requires columns != [] && columns[0] == "id" && values != [] && GoodFirst(values[0]) && TidySet(assignments)
    ensures GoodFirst(ApplyAll(columns, values, assignments)[0])
    decreases |assignments|
  {
    if assignments != [] {
      var n := |assignments| - 1;
      ApplyAllFirst(columns, values, assignments[..n]);
      ApplyOneFirst(columns, ApplyAll(columns, values, assignments[..n]), assignments[n]);
    }
  }

  // The row a tidy UPDATE writes begins with its id, and its key is that id.
  lemma TidyRow(columns: seq<string>, setText: string, value: string)
    requires 1 <= |columns| <= MAX_COLUMNS && columns[0] == "id"
    requires IdFirst(value) && |value| <= STORED_MAX && TidySet(Tokens(Cut(setText, RECORD_MAX), ','))
    ensures var row := Cut(NewRow(columns, setText, value), STORED_MAX);
      IdFirst(row) && Atoi(row) == Atoi(NewFields(columns, setText, value)[0])
  {
    IdFirstToken(value);
    TokenNonEmpty(value);
    var fields := NewFields(columns, setText, value);
    ApplyAllFirst(columns, Split(value), Tokens(Cut(setText, RECORD_MAX), ','));
    BuildKeepsKey(fields, |columns|);
    CutKeepsKey(NewRow(columns, setText, value));
  }

  lemma TokenNonEmpty(value: string)
    requires IdFirst(value)
    ensures GoodFirst(value[..TokenLen(value, '|')])
  {
    assert TokenLen(value, '|') > 0;
  }

  // ----- runs -----

  // id is the first column of table t, and every row begins with it.
  ghost predicate IdFirstTable(d: Db, t: string) {
    && t in d.pages && t in d.columns && d.columns[t] != [] && d.columns[t][0] == "id"
    && (forall i :: 0 <= i < |d.pages[t]| ==> IdFirst(d.pages[t][i].value) && |d.pages[t][i].value| <= STORED_MAX)
  }

  lemma TidyInsert(d: Db, t: string, v: string)
    requires IdFirstTable(d, t) && IdFirst(v)
    ensures StoresKeyed(d, Insert(t, v), t) && StoresItsKey(d, Insert(t, v), t) && IdFirstTable(DoInsert(d, t, v), t)
  {
    CutKeepsKey(v);
    IdFirstIsKeyed(d.columns[t], Cut(v, STORED_MAX));
  }

  lemma TidyReplaces(cols: seq<string>, setText: string, value: string)
    requires 1 <= |cols| <= MAX_COLUMNS && cols[0] == "id"
    requires IdFirst(value) && |value| <= STORED_MAX && TidySet(Tokens(Cut(setText, RECORD_MAX), ','))
    ensures var row := Cut(NewRow(cols, setText, value), STORED_MAX);
      IdFirst(row) && |row| <= STORED_MAX && Keyed(cols, row) && KeepsKey(KeyWritten(cols, setText, value), row)
  {
    TidyRow(cols, setText, value);
    assert IdColumn(cols) == 0;
    IdFirstIsKeyed(cols, Cut(NewRow(cols, setText, value), STORED_MAX));
  }

  lemma TidyUpdate(d: Db, t: string, setText: string, id: int)
    requires Sound(d) && IdFirstTable(d, t) && Tidy(Update(t, setText, id))
    ensures StoresKeyed(d, Update(t, setText, id), t) && StoresItsKey(d, Update(t, setText, id), t)
    ensures IdFirstTable(DoUpdate(d, t, setText, id), t)
  {
    var p := d.pages[t];
    var i := FirstHit(Enter(d).log, Enter(d).snap, p, ByColumn(IdColumn(d.columns[t]), id));
    if i < |p| {
      TidyReplaces(d.columns[t], setText, p[i].value);
      UpdateWrites(d, t, setText, id, i);
      ReplacedIdFirst(d, DoUpdate(d, t, setText, id), t, i, Cut(NewRow(d.columns[t], setText, p[i].value), STORED_MAX));
    }
  }

  lemma ReplacedIdFirst(d: Db, e: Db, t: string, i: nat, row: string)
    requires IdFirstTable(d, t) && i < |d.pages[t]| && IdFirst(row) && |row| <= STORED_MAX && e.columns == d.columns
    requires var p, tx := d.pages[t], Enter(d).tx;
      e.pages == d.pages[t := if |p| >= SLOTS then Kill(p, i, tx) else Kill(p, i, tx) + [Version(tx, 0, row)]]
    ensures IdFirstTable(e, t)
  {
  }

  lemma TidyWrite(d: Db, s: Stmt, t: string)
    requires Sound(d) && IdFirstTable(d, t) && Writes(s, t) && Tidy(s)
    ensures StoresKeyed(d, s, t) && StoresItsKey(d, s, t) && IdFirstTable(Step(d, s), t)
  {
    match s
    case Insert(_, v) => TidyInsert(d, t, v);
    case Update(_, setText, id) => TidyUpdate(d, t, setText, id);
    case Delete(_, id) => assert IdFirstTable(DoDelete(d, t, id), t);
    case DeleteAll(_) => assert IdFirstTable(DoDeleteAll(d, t), t);
  }

  lemma TidyStep(d: Db, s: Stmt, t: string)
    requires Sound(d) && IdFirstTable(d, t) && (Writes(s, t) ==> Tidy(s))
    ensures StoresKeyed(d, s, t) && StoresItsKey(d, s, t) && IdFirstTable(Step(d, s), t)
  {
    if Writes(s, t) { TidyWrite(d, s, t); } else if Inside(s) { LeavesTable(d, s, t); }
  }

  // The statements that write t are tidy.
  predicate AllTidy(ss: seq<Stmt>, t: string) {
    forall s :: s in ss && Writes(s, t) ==> Tidy(s)
  }

  // A run of tidy statements on t, whatever it rolls back and does to other tables, stores keyed rows
  // there and enters their keys.
  lemma {:induction false} TidyRunIsKeyed(d: Db, ss: seq<Stmt>, t: string)
    requires Sound(d) && IdFirstTable(d, t) && AllTidy(ss, t)
    ensures KeyedRun(d, ss, t) && KeysRun(d, ss, t) && Sound(Run(d, ss)) && IdFirstTable(Run(d, ss), t)
    decreases |ss|
  {
    if ss != [] {
      var e, s := Run(d, ss[..|ss| - 1]), ss[|ss| - 1];
      TidyRunIsKeyed(d, ss[..|ss| - 1], t);
      TidyStep(e, s, t);
      StepSound(e, s);
    }
  }

  // The scan shows a row whose id column is id.
  ghost predicate ColumnFinds(d: Db, t: string, id: int)
    requires t in d.pages
  {
    exists r :: r in Visible(Enter(d).log, Enter(d).snap, d.pages[t]) && Atoi(Split(r)[0]) == id
  }

  lemma VisibleIsKeyed(d: Db, t: string, r: string)
    requires IdFirstTable(d, t) && r in Visible(Enter(d).log, Enter(d).snap, d.pages[t])
    ensures Atoi(Split(r)[0]) == Atoi(r)
  {
    VisibleIsSeen(Enter(d).log, Enter(d).snap, d.pages[t], r);
    IdFirstToken(r);
    AtoiStops(r, TokenLen(r, '|'));
  }

  lemma FindsAlike(d: Db, t: string, id: int)
    requires IdFirstTable(d, t)
    ensures ColumnFinds(d, t, id) <==> ScanFinds(d, t, id)
  {
    forall r | r in Visible(Enter(d).log, Enter(d).snap, d.pages[t]) ensures Atoi(Split(r)[0]) == Atoi(r) {
      VisibleIsKeyed(d, t, r);
    }
  }

  // After any run of tidy statements on a table with id first, rollbacks included, a row that the
  // indexed lookup shows has that id column and is one the scan shows, and the lookup shows one whenever
  // the scan does if and only if the newest row with the id was not undone.
  lemma TidyLookupExactly(d: Db, ss: seq<Stmt>, t: string, id: int)
    requires Initial(d) && IdFirstTable(d, t) && AllTidy(ss, t) && id > 0
    ensures t in Run(d, ss).pages
    ensures var e, r := Run(d, ss), LookupId(Run(d, ss), t, id);
      && (r.Shows? ==> Atoi(Split(r.value)[0]) == id && r.value in Visible(Enter(e).log, Enter(e).snap, e.pages[t]))
      && (HasIndex(e, t) ==>
          ((r.Shows? <==> ColumnFinds(e, t, id)) <==>
           (ColumnFinds(e, t, id) ==> NewestLives(e.log, e.cur, e.pages[t], id))))
  {
    var e := Run(d, ss);
    TidyRunIsKeyed(d, ss, t);
    LookupIsSoundInEveryRun(d, ss, t, id);
    LookupInEveryRun(d, ss, t, id);
    FindsAlike(e, t, id);
    if LookupId(e, t, id).Shows? { VisibleIsKeyed(e, t, LookupId(e, t, id).value); }
  }

  // If nothing done to the table is undone, the lookup shows a row exactly when the scan shows one with that id column.
  lemma TidyLookupAgrees(d: Db, ss: seq<Stmt>, t: string, id: int)
    requires Initial(d) && IdFirstTable(d, t) && AllTidy(ss, t) && PlainRunOf(d, ss, t) && id > 0
    ensures t in Run(d, ss).pages
    ensures HasIndex(Run(d, ss), t) ==> (LookupId(Run(d, ss), t, id).Shows? <==> ColumnFinds(Run(d, ss), t, id))
  {
    TidyRunIsKeyed(d, ss, t);
    LookupAgreesWithScan(d, ss, t, id);
    FindsAlike(Run(d, ss), t, id);
  }
}
