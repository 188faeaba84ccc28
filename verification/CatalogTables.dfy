// The static tables of catalog/catalog.c and the functions that change them in place.
module CatalogTables {
  import opened RowCodec
  import opened Catalog

  class Tables {
    const tables: array<Table>
    var tableCount: int
    var current: int          // static in catalog_init
    var file: File            // data/catalog.dat

    ghost predicate Valid()
      reads this, tables
    {
      && tables.Length == MAX_TABLES && AllSized(tables[..])
      && tableCount <= MAX_TABLES && current >= -1
    }

    ghost function StateNow(): State
      requires Valid()
      reads this, tables
      ensures Placed(StateNow())
    {
      State(tables[..], tableCount, current)
    }

    ghost function List(): (ts: seq<Table>)
      requires Valid()
      reads this, tables
      ensures AllSized(ts)
    {
      if tableCount <= 0 then [] else tables[..tableCount]
    }

    // A process starts, with the file another one left.
    constructor (file: File)
      ensures Valid() && fresh(tables) && StateNow() == ProcessStart && List() == [] && this.file == file
    {
      tables := new Table[MAX_TABLES](_ => NoTable);
      tableCount, current, this.file := 0, -1, file;
      new;
      assert tables[..] == ProcessStart.places;
    }

    // catalog_get_table; -1 for NULL.
    method GetTable(name: string) returns (i: int)
      requires Valid()
      ensures i == if Lookup(List(), name) < |List()| then Lookup(List(), name) else -1
    {
      var k := 0;
      while k < tableCount
        invariant 0 <= k <= |List()|
        invariant forall j :: 0 <= j < k ==> tables[j].name != name
      {
        if tables[k].name == name { return k; }
        k := k + 1;
      }
      return -1;
    }

    // catalog_save; opening the file may fail, which nobody is told.
    method Save(openOk: bool)
      requires Valid() && tableCount >= 0
      modifies this`file
      ensures file == if openOk then Text(SaveText(List())) else old(file)
    {
      if !openOk { return; }
      ghost var ts := List();
      var out := Render(CountPieces(tableCount));
      NoTables(ts);
      for i := 0 to tableCount
        invariant out == TextOfFirst(ts, i)
      {
        var line := TableText(tables[i]);
        NextTable(ts, i);
        out := out + line;
      }
      assert ts[..|ts|] == ts;
      file := Text(out);
    }

    // The lines of one table.
    static method TableText(t: Table) returns (out: string)
      requires Sized(t)
      ensures out == Render(TablePieces(t))
    {
      out := Render(HeadPieces(t));
      ghost var cs := InUse(t);
      assert HeadPieces(t) + ColumnsPieces(cs[..0]) == HeadPieces(t);
      var j := 0;
      while j < t.numColumns
        invariant 0 <= j <= |cs|
        invariant out == Render(HeadPieces(t) + ColumnsPieces(cs[..j]))
      {
        NextColumn(HeadPieces(t), cs, j);
        out := out + Render(ColumnPieces(t.columns[j]));
        j := j + 1;
      }
      assert cs[..|cs|] == cs;
      RenderConcat(HeadPieces(t) + ColumnsPieces(cs), [Piece("END_TABLE", '\n')]);
      out := out + Render([Piece("END_TABLE", '\n')]);
    }

    // catalog_create_table_schema; tableFile is what creating the file of the table returns.
    method CreateTableSchema(table: Table, openOk: bool, tableFile: int) returns (rc: int)
      requires Valid() && tableCount >= 0 && Sized(table)
      modifies this`tableCount, this`file, tables
      ensures Valid() && List() == Created(old(List()), table).0
      ensures |List()| > |old(List())| ==> List()[..|old(List())|] == old(List()) && AsGiven(List()[|old(List())|], table)
      ensures rc == if |List()| > |old(List())| then tableFile else Created(old(List()), table).1
      ensures file == if |List()| > |old(List())| && openOk then Text(SaveText(List())) else old(file)
    {
      var i := GetTable(table.name);
      if i != -1 { return 0; }
      if tableCount >= MAX_TABLES { return -1; }
      Add(if table.nextAutoId <= 0 then table.(nextAutoId := 1) else table, openOk);
      return tableFile;
    }

    method Add(table: Table, openOk: bool)
      requires Valid() && 0 <= tableCount < MAX_TABLES && Sized(table)
      modifies this`tableCount, this`file, tables
      ensures Valid() && List() == old(List()) + [table]
      ensures file == if openOk then Text(SaveText(List())) else old(file)
    {
      ghost var was := List();
      tables[tableCount] := table;
      tableCount := tableCount + 1;
      assert List() == was + [table];
      Save(openOk);
    }

    // catalog_create_table.
    method CreateTable(name: string, openOk: bool, tableFile: int) returns (rc: int)
      requires Valid() && tableCount >= 0
      modifies this`tableCount, this`file, tables
      ensures Valid() && List() == CreatedPlain(old(List()), name).0
      ensures rc == if |List()| > |old(List())| then tableFile else CreatedPlain(old(List()), name).1
      ensures file == if |List()| > |old(List())| && openOk then Text(SaveText(List())) else old(file)
    {
      var i := GetTable(name);
      if i != -1 { return 0; }
      if tableCount >= MAX_TABLES { return -1; }
      Add(Plain(name), openOk);
      return tableFile;
    }

    // catalog_remove_table.
    method RemoveTable(name: string, openOk: bool) returns (rc: int)
      requires Valid() && tableCount >= 0
      modifies this`tableCount, this`file, tables
      ensures Valid() && (List(), rc) == Removed(old(List()), name)
      ensures file == if rc == 0 && openOk then Text(SaveText(List())) else old(file)
    {
      var i := GetTable(name);
      if i == -1 { return -1; }
      Close(i);
      Save(openOk);
      return 0;
    }

    // The tables after place i move down by one.
    method Close(i: nat)
      requires Valid() && i < tableCount
      modifies this`tableCount, tables
      ensures Valid() && List() == old(List())[..i] + old(List())[i + 1..] && tableCount == old(tableCount) - 1
    {
      ghost var was := tables[..];
      for j := i to tableCount - 1
        modifies tables
        invariant forall k :: i <= k < j ==> tables[k] == was[k + 1]
        invariant forall k :: 0 <= k < i || j <= k < tables.Length ==> tables[k] == was[k]
      {
        tables[j] := tables[j + 1];
      }
      assert AllSized(tables[..]);
      tableCount := tableCount - 1;
      assert List() == was[..i] + was[i + 1..tableCount + 1];
      assert old(List()) == was[..tableCount + 1];
    }

    // catalog_init.
    method InitFromFile()
      requires Valid()
      modifies this`tableCount, this`current, tables
      ensures Valid() && StateNow() == Init(old(StateNow()), file)
    {
      tableCount := 0;
      if file.Missing? { return; }
      var text, keyword, again := file.text, "", true;
      ghost var goal := ReadFrom(StateNow(), text, keyword);
      while again
        modifies this`tableCount, this`current, tables
        invariant Valid()
        invariant goal == if again then ReadFrom(StateNow(), text, keyword) else StateNow()
        decreases |text|, again
      {
        text, keyword, again := Turn(text, keyword);
      }
    }

    // One turn of its loop.
    method Turn(text: string, keyword: string) returns (text': string, keyword': string, again: bool)
      requires Valid()
      modifies this`tableCount, this`current, tables
      ensures Valid()
      ensures ReadTurn(old(StateNow()), text, keyword) == Catalog.Turn(StateNow(), text', keyword', again)
    {
      var (word, sc) := ScanWord(Scan(text, true), keyword);
      if !sc.going { return text, keyword, false; }
      if word == "TABLE_COUNT" {
        var (n, s1) := ScanInt(sc, tableCount);
        tableCount := if n > MAX_TABLES then MAX_TABLES else n;
        return s1.text, word, true;
      } else if word == "TABLE" {
        current := current + 1;
        if current >= MAX_TABLES { return text, word, false; }
        var t;
        t, text', keyword' := FillTable(tables[current], sc.text, word);
        tables[current] := t;
        return text', keyword', true;
      }
      return sc.text, word, true;
    }

    // The line of a table and its columns.
    static method FillTable(was: Table, text: string, keyword: string) returns (t: Table, text': string, keyword': string)
      requires |was.columns| == MAX_COLUMNS
      ensures (t, text', keyword') == ReadTable(was, text, keyword)
    {
      var (head, rest) := ReadHead(was, text);
      ghost var goal := ReadColumns(head, 0, rest, keyword);
      t, text', keyword' := head, rest, keyword;
      var j := 0;
      while j < t.numColumns
        invariant 0 <= j && Sized(t) && ReadColumns(t, j, text', keyword') == goal
        decreases t.numColumns - j
      {
        t, text', keyword' := FillColumn(t, j, text', keyword');
        j := j + 1;
      }
      AllColumnsRead(t, j, text', keyword');
    }

    static lemma AllColumnsRead(t: Table, j: nat, text: string, keyword: string)
      requires Sized(t) && j >= t.numColumns
      ensures ReadColumns(t, j, text, keyword) == (t, text, keyword)
    {
    }

    static method FillColumn(t: Table, j: nat, text: string, keyword: string)
      returns (t': Table, text': string, keyword': string)
      requires Sized(t) && j < t.numColumns
      ensures Sized(t') && t'.numColumns == t.numColumns
      ensures ReadColumns(t, j, text, keyword) == ReadColumns(t', j + 1, text', keyword')
    {
      var (word, sc) := ScanWord(Scan(text, true), keyword);
      t', text', keyword' := t, sc.text, word;
      if word == "COLUMN" {
        var (c, after) := ReadColumn(t.columns[j], text');
        t' := t.(columns := t.columns[j := c]);
        text' := after;
      }
    }
  }

  // ----- pieces of text -----

  lemma {:induction false} RenderConcat(a: seq<Piece>, b: seq<Piece>)
    ensures Render(a + b) == Render(a) + Render(b)
  {
    if a == [] { assert a + b == b; }
    else {
      assert (a + b)[1..] == a[1..] + b;
      RenderConcat(a[1..], b);
    }
  }

  lemma {:induction false} ColumnsSnoc(cs: seq<Column>, c: Column)
    ensures ColumnsPieces(cs + [c]) == ColumnsPieces(cs) + ColumnPieces(c)
  {
    if cs == [] { assert cs + [c] == [c] && [c][1..] == []; }
    else {
      assert (cs + [c])[1..] == cs[1..] + [c];
      ColumnsSnoc(cs[1..], c);
    }
  }

  lemma TablesCons(t: Table, ts: seq<Table>)
    requires Sized(t) && AllSized(ts)
    ensures AllSized([t] + ts) && TablesPieces([t] + ts) == TablePieces(t) + TablesPieces(ts)
  {
    assert ([t] + ts)[1..] == ts;
  }

  lemma {:induction false} TablesSnoc(ts: seq<Table>, t: Table)
    requires AllSized(ts) && Sized(t)
    ensures AllSized(ts + [t]) && TablesPieces(ts + [t]) == TablesPieces(ts) + TablePieces(t)
  {
    if ts == [] {
      TablesCons(t, []);
      assert ts + [t] == [t] + [];
    } else {
      var head, rest := ts[0], ts[1..];
      TablesSnoc(rest, t);
      TablesCons(head, rest + [t]);
      TablesCons(head, rest);
      assert ts + [t] == [head] + (rest + [t]) && ts == [head] + rest;
      Associates(TablePieces(head), TablesPieces(rest), TablePieces(t));
    }
  }

  lemma RenderNext(head: seq<Piece>, a: seq<Piece>, b: seq<Piece>)
    ensures Render(head + (a + b)) == Render(head + a) + Render(b)
  {
    RenderConcat(head + a, b);
    assert head + a + b == head + (a + b);
  }

  lemma NextColumn(head: seq<Piece>, cs: seq<Column>, j: nat)
    requires j < |cs|
    ensures Render(head + ColumnsPieces(cs[..j + 1])) == Render(head + ColumnsPieces(cs[..j])) + Render(ColumnPieces(cs[j]))
  {
    ColumnsSnoc(cs[..j], cs[j]);
    assert cs[..j + 1] == cs[..j] + [cs[j]];
    RenderNext(head, ColumnsPieces(cs[..j]), ColumnPieces(cs[j]));
  }

  // What catalog_save has written after i tables.
  ghost function TextOfFirst(ts: seq<Table>, i: nat): string
    requires AllSized(ts) && i <= |ts|
  {
    Render(CountPieces(|ts|) + TablesPieces(ts[..i]))
  }

  lemma NoTables(ts: seq<Table>)
    requires AllSized(ts)
    ensures TextOfFirst(ts, 0) == Render(CountPieces(|ts|))
  {
    assert ts[..0] == [];
    assert CountPieces(|ts|) + TablesPieces(ts[..0]) == CountPieces(|ts|);
  }

  lemma NextTable(ts: seq<Table>, i: nat)
    requires AllSized(ts) && i < |ts|
    ensures TextOfFirst(ts, i + 1) == TextOfFirst(ts, i) + Render(TablePieces(ts[i]))
  {
    TablesSnoc(ts[..i], ts[i]);
    assert ts[..i + 1] == ts[..i] + [ts[i]];
    RenderNext(CountPieces(|ts|), TablesPieces(ts[..i]), TablePieces(ts[i]));
  }
}
