// What each statement does to the slots of a page and to what SELECT prints, in terms of keys, texts
// and numbers alone.
module SessionEffects {
  import opened Mvcc
  import opened RowCodec
  import opened Session
  import opened SessionRefinement
  import opened SessionProperties
  import opened SessionTables

  function CutAt(s: string, n: nat): string {
    if |s| <= n then s else s[..n]
  }

  // A statement of d sees slot i, and its key is id.
  predicate KeySeen(d: Db, p: Page, i: nat, id: int)
    requires i < |p|
  {
    Sees(Enter(d).log, p[i].Head(), Enter(d).snap) && Atoi(p[i].value) == id
  }

  // The same for the field in column k.
  predicate FieldSeen(d: Db, p: Page, i: nat, k: nat, id: int)
    requires i < |p|
  {
    Sees(Enter(d).log, p[i].Head(), Enter(d).snap) && k < 16 && Atoi(Split(p[i].value)[k]) == id
  }

  // ----- slots -----

  // INSERT writes one version behind the others while there are fewer than sixteen, and nothing else.
  lemma InsertWrites(d: Db, t: string, value: string)
    requires t in d.pages
    ensures var p, e := d.pages[t], Step(d, Insert(t, value));
      e.pages == d.pages[t := p + if |p| < 16 then [Version(Enter(d).tx, 0, CutAt(value, 239))] else []]
  {
    assert d.pages[t] + [] == d.pages[t] && d.pages[t := d.pages[t]] == d.pages;
  }

  // DELETE WHERE id marks the first visible version with that key, and no other; it writes nothing when
  // there is none.
  lemma DeleteMarks(d: Db, t: string, id: int) returns (i: nat)
    requires t in d.pages
    ensures i <= |d.pages[t]| && (i < |d.pages[t]| ==> KeySeen(d, d.pages[t], i, id))
    ensures forall j :: 0 <= j < i ==> !KeySeen(d, d.pages[t], j, id)
    ensures var p, e := d.pages[t], Step(d, Delete(t, id));
      && e.index == d.index
      && e.pages == d.pages[t := if i < |p| then p[i := Version(p[i].xmin, Enter(d).tx, p[i].value)] else p]
  {
    i := FirstHit(Enter(d).log, Enter(d).snap, d.pages[t], ByRecord(id));
    assert d.pages[t := d.pages[t]] == d.pages;
  }

  // DELETE without WHERE marks every visible version, and no other.
  lemma DeleteAllMarks(d: Db, t: string)
    requires t in d.pages
    ensures var p, e := d.pages[t], Step(d, DeleteAll(t));
      && e.index == d.index && t in e.pages && e.pages == d.pages[t := e.pages[t]] && |e.pages[t]| == |p|
      && forall i :: 0 <= i < |p| ==>
        e.pages[t][i] == if Sees(Enter(d).log, p[i].Head(), Enter(d).snap) then Version(p[i].xmin, Enter(d).tx, p[i].value) else p[i]
  {
  }

  // UPDATE WHERE id goes by the column named id: it marks the first visible version with that field, and
  // writes one version behind the others if there are fewer than sixteen.
  lemma UpdateMarks(d: Db, t: string, setText: string, id: int, k: nat) returns (i: nat)
    requires t in d.pages && t in d.columns
    requires k < |d.columns[t]| <= 16 && d.columns[t][k] == "id" && "id" !in d.columns[t][..k]
    ensures i <= |d.pages[t]| && (i < |d.pages[t]| ==> FieldSeen(d, d.pages[t], i, k, id))
    ensures forall j :: 0 <= j < i ==> !FieldSeen(d, d.pages[t], j, k, id)
    ensures var p, e := d.pages[t], Step(d, Update(t, setText, id));
      if i == |p| then e.pages == d.pages && e.index == d.index
      else
        var q := p[i := Version(p[i].xmin, Enter(d).tx, p[i].value)];
        e.pages == d.pages[t := q + if |p| < 16
          then [Version(Enter(d).tx, 0, CutAt(NewRow(d.columns[t], setText, p[i].value), 239))] else []]
  {
    var p := d.pages[t];
    IdIsAt(d.columns[t], k);
    i := FirstHit(Enter(d).log, Enter(d).snap, p, ByColumn(k, id));
    if i < |p| { assert Kill(p, i, Enter(d).tx) + [] == Kill(p, i, Enter(d).tx); }
  }

  lemma IdIsAt(columns: seq<string>, k: nat)
    requires k < |columns| && columns[k] == "id" && "id" !in columns[..k]
    ensures IdColumn(columns) == k
  {
    var i := IdColumn(columns);
    assert forall j :: 0 <= j < k ==> columns[j] == columns[..k][j];
    assert forall j :: 0 <= j < i ==> columns[j] == columns[..i][j];
  }

  // ----- what SELECT prints -----

  lemma MeaningAt(d: Db, t: string)
    requires t in d.pages
    ensures RefinesAt(d, Meaning(d), t)
  {
    MeaningIs(d);
    assert TableRefines(d, Meaning(d), t);
  }

  // The next SELECT prints what the ordinary table holds after the statement.
  lemma PrintsPlain(d: Db, s: Stmt, t: string)
    requires Sound(d) && t in d.pages && TableGuard(d, s, t)
    ensures var e, a := Step(d, s), Meaning(d);
      && t in e.pages && t in PlainStep(a, d.columns, s).working && t in a.working && t in a.used
      && Printed(e, t) == PlainStep(a, d.columns, s).working[t]
      && a.working[t] == Printed(d, t) && a.used[t] == |d.pages[t]|
  {
    MeaningAt(d, t);
    TableRefinesExactly(d, Meaning(d), s, t);
    StepSound(d, s);
    VisibleIsRows(d, d.pages[t]);
    VisibleIsRows(Step(d, s), Step(d, s).pages[t]);
  }

  lemma InsertPrints(d: Db, t: string, value: string)
    requires Sound(d) && t in d.pages
    ensures var e := Step(d, Insert(t, value));
      t in e.pages && Printed(e, t) == Printed(d, t) + if |d.pages[t]| < 16 then [CutAt(value, 239)] else []
  {
    PrintsPlain(d, Insert(t, value), t);
  }

  // Row k is the first one with this key, or there is none and k is their number.
  predicate FirstWithKey(rows: seq<string>, id: int, k: nat) {
    && k <= |rows| && (k < |rows| ==> Atoi(rows[k]) == id)
    && forall j :: 0 <= j < k ==> Atoi(rows[j]) != id
  }

  predicate FirstWithField(rows: seq<string>, c: nat, id: int, k: nat) {
    && k <= |rows| && c < 16 && (k < |rows| ==> Atoi(Split(rows[k])[c]) == id)
    && forall j :: 0 <= j < k ==> Atoi(Split(rows[j])[c]) != id
  }

  // The open transaction has inserted no row with this key itself.
  ghost predicate NotOwnKey(d: Db, p: Page, id: int) {
    d.cur != 0 ==> forall i :: 0 <= i < |p| && p[i].xmin == d.cur ==> Atoi(p[i].value) != id
  }

  ghost predicate NotOwnField(d: Db, p: Page, c: nat, id: int) {
    d.cur != 0 ==> forall i :: 0 <= i < |p| && p[i].xmin == d.cur ==> c < 16 && Atoi(Split(p[i].value)[c]) != id
  }

  // After DELETE WHERE id the first row with that key is gone, and no other.
  lemma DeletePrints(d: Db, t: string, id: int) returns (k: nat)
    requires Sound(d) && t in d.pages && NotOwnKey(d, d.pages[t], id)
    ensures FirstWithKey(Printed(d, t), id, k)
    ensures var rows, e := Printed(d, t), Step(d, Delete(t, id));
      t in e.pages && Printed(e, t) == if k < |rows| then rows[..k] + rows[k + 1..] else rows
  {
    k := FirstMatch(Printed(d, t), ByRecord(id));
    PrintsPlain(d, Delete(t, id), t);
  }

  lemma UpdatedRows(a: Plain, columns: map<string, seq<string>>, t: string, setText: string, m: Match, k: nat)
    requires t in a.working && t in a.used && t in columns && "id" in columns[t] && a.used[t] < 16
    requires m == ByColumn(IdColumn(columns[t]), m.id) && k == FirstMatch(a.working[t], m)
    ensures var b, rows := PlainStep(a, columns, Update(t, setText, m.id)), a.working[t];
      && t in b.working
      && b.working[t] == if k < |rows| then rows[..k] + rows[k + 1..] + [CutAt(NewRow(columns[t], setText, rows[k]), 239)]
                         else rows
  {
  }

  // After UPDATE WHERE id the first row with that id column is gone, and the changed one comes last.
  lemma UpdatePrints(d: Db, t: string, setText: string, id: int, c: nat) returns (k: nat)
    requires Sound(d) && t in d.pages && |d.pages[t]| < 16 && NotOwnField(d, d.pages[t], c, id)
    requires c < |d.columns[t]| && d.columns[t][c] == "id" && "id" !in d.columns[t][..c]
    ensures FirstWithField(Printed(d, t), c, id, k)
    ensures var rows, e := Printed(d, t), Step(d, Update(t, setText, id));
      && t in e.pages
      && Printed(e, t) == if k < |rows| then rows[..k] + rows[k + 1..] + [CutAt(NewRow(d.columns[t], setText, rows[k]), 239)]
                          else rows
  {
    IdIsAt(d.columns[t], c);
    k := FirstMatch(Printed(d, t), ByColumn(c, id));
    PrintsPlain(d, Update(t, setText, id), t);
    UpdatedRows(Meaning(d), d.columns, t, setText, ByColumn(c, id), k);
  }

  lemma DeleteAllPrints(d: Db, t: string)
    requires Sound(d) && t in d.pages
    requires d.cur != 0 ==> forall i :: 0 <= i < |d.pages[t]| ==> d.pages[t][i].xmin != d.cur
    ensures var e := Step(d, DeleteAll(t)); t in e.pages && Printed(e, t) == []
  {
    PrintsPlain(d, DeleteAll(t), t);
  }

  lemma QuietPlain(a: Plain, columns: map<string, seq<string>>, s: Stmt, t: string)
    requires Inside(s) && !Writes(s, t) && t in a.working
    ensures t in PlainStep(a, columns, s).working && PlainStep(a, columns, s).working[t] == a.working[t]
  {
  }

  // SELECT, JOIN, and statements on other tables change nothing that is printed of a table.
  lemma OthersPrint(d: Db, s: Stmt, t: string)
    requires Sound(d) && t in d.pages && (s.Select? || s.SelectId? || s.Join? || (IsWrite(s) && s.table != t))
    ensures t in Step(d, s).pages && Printed(Step(d, s), t) == Printed(d, t)
  {
    PrintsPlain(d, s, t);
    QuietPlain(Meaning(d), d.columns, s, t);
  }

  // BEGIN outside a transaction changes nothing that is printed, nor does COMMIT of one that has marked no
  // row of its own.
  lemma BoundaryPrints(d: Db, s: Stmt, t: string)
    requires Sound(d) && t in d.pages
    requires (s.Begin? && d.cur == 0) || (s.Commit? && (d.cur != 0 ==>
      forall i :: 0 <= i < |d.pages[t]| ==> !(d.pages[t][i].xmin == d.cur && d.pages[t][i].xmax == d.cur)))
    ensures t in Step(d, s).pages && Printed(Step(d, s), t) == Printed(d, t)
  {
    MeaningAt(d, t);
    PrintsPlain(d, s, t);
  }
}
