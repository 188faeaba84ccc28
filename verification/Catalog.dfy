// catalog/catalog.c: the table of tables, the text it is saved as, and the reader of that text.
module Catalog {
  import opened RowCodec

  const MAX_TABLES := 64
  const VARCHAR := 2            // the third DataType
  const WORD_MAX := 63          // the width in "%63s"

  datatype Column = Column(name: string, kind: int, size: int, primaryKey: int, autoIncrement: int, foreignKey: int,
                           refTable: string, refColumn: string)

  // columns has MAX_COLUMNS places, of which the first numColumns are in use.
  datatype Table = Table(name: string, numColumns: int, columns: seq<Column>, nextAutoId: int)

  const NoColumn := Column("", 0, 0, 0, 0, 0, "", "")
  const NoTable := Table("", 0, seq(MAX_COLUMNS, _ => NoColumn), 0)

  predicate Sized(t: Table) {
    |t.columns| == MAX_COLUMNS && t.numColumns <= MAX_COLUMNS
  }

  // The columns in use.
  function InUse(t: Table): (r: seq<Column>)
    requires Sized(t)
  {
    if t.numColumns <= 0 then [] else t.columns[..t.numColumns]
  }

  // ----- operations on the list of tables -----

  function Names(ts: seq<Table>): (r: seq<string>)
    ensures |r| == |ts|
  {
    seq(|ts|, i requires 0 <= i < |ts| => ts[i].name)
  }

  // The first table of that name; |ts| for none.
  function Lookup(ts: seq<Table>, name: string): (i: nat)
    ensures i <= |ts| && (i < |ts| ==> ts[i].name == name)
    ensures forall j :: 0 <= j < i ==> ts[j].name != name
  {
    if ts == [] || ts[0].name == name then 0
    else
      var i := Lookup(ts[1..], name);
      assert forall j :: 1 <= j < i + 1 ==> ts[j] == ts[1..][j - 1];
      1 + i
  }

  function Numbered(t: Table): Table {
    if t.nextAutoId <= 0 then t.(nextAutoId := 1) else t
  }

  // u is t with every column it was given; its next id is the one it was given, or 1 for none.
  predicate AsGiven(u: Table, t: Table) {
    && u.name == t.name && u.numColumns == t.numColumns && |u.columns| == |t.columns|
    && (forall i :: 0 <= i < |t.columns| ==> u.columns[i] == t.columns[i])
    && u.nextAutoId == if t.nextAutoId > 0 then t.nextAutoId else 1
  }

  // The new list, and the result as far as the catalog decides it.
  function Created(ts: seq<Table>, t: Table): (seq<Table>, int) {
    if Lookup(ts, t.name) < |ts| then (ts, 0)
    else if |ts| >= MAX_TABLES then (ts, -1)
    else (ts + [Numbered(t)], 0)
  }

  // The table catalog_create_table makes of a name, which strncpy cuts.
  function Plain(name: string): Table {
    Table(Cut(name, WORD_MAX), 1, [Column("value", VARCHAR, 255, 0, 0, 0, "", "")] + seq(MAX_COLUMNS - 1, _ => NoColumn), 1)
  }

  // It looks for the name as given.
  function CreatedPlain(ts: seq<Table>, name: string): (seq<Table>, int) {
    if Lookup(ts, name) < |ts| then (ts, 0)
    else if |ts| >= MAX_TABLES then (ts, -1)
    else (ts + [Plain(name)], 0)
  }

  function Removed(ts: seq<Table>, name: string): (seq<Table>, int) {
    var i := Lookup(ts, name);
    if i < |ts| then (ts[..i] + ts[i + 1..], 0) else (ts, -1)
  }

  // ----- the text -----

  function DecimalNat(n: nat): string {
    var digit := [('0' as int + n % 10) as char];
    if n < 10 then digit else DecimalNat(n / 10) + digit
  }

  // "%d"
  function Decimal(n: int): string {
    if n < 0 then "-" + DecimalNat(-n) else DecimalNat(n)
  }

  // A word and the white space printed after it.
  datatype Piece = Piece(word: string, end: char)

  function Render(ps: seq<Piece>): string {
    if ps == [] then "" else ps[0].word + [ps[0].end] + Render(ps[1..])
  }

  function Reference(s: string): string {
    if s == "" then "-" else s
  }

  function ColumnPieces(c: Column): (ps: seq<Piece>)
    ensures |ps| == 9
  {
    [Piece("COLUMN", ' '), Piece(c.name, ' '), Piece(Decimal(c.kind), ' '), Piece(Decimal(c.size), ' '),
     Piece(Decimal(c.primaryKey), ' '), Piece(Decimal(c.autoIncrement), ' '), Piece(Decimal(c.foreignKey), ' '),
     Piece(Reference(c.refTable), ' '), Piece(Reference(c.refColumn), '\n')]
  }

  function ColumnsPieces(cs: seq<Column>): seq<Piece> {
    if cs == [] then [] else ColumnPieces(cs[0]) + ColumnsPieces(cs[1..])
  }

  function HeadPieces(t: Table): (ps: seq<Piece>)
    ensures |ps| == 4
  {
    [Piece("TABLE", ' '), Piece(t.name, ' '), Piece(Decimal(t.numColumns), ' '), Piece(Decimal(t.nextAutoId), '\n')]
  }

  function TablePieces(t: Table): seq<Piece>
    requires Sized(t)
  {
    HeadPieces(t) + ColumnsPieces(InUse(t)) + [Piece("END_TABLE", '\n')]
  }

  predicate AllSized(ts: seq<Table>) {
    forall i :: 0 <= i < |ts| ==> Sized(ts[i])
  }

  function TablesPieces(ts: seq<Table>): seq<Piece>
    requires AllSized(ts)
  {
    if ts == [] then [] else TablePieces(ts[0]) + TablesPieces(ts[1..])
  }

  function CountPieces(n: int): seq<Piece> {
    [Piece("TABLE_COUNT", ' '), Piece(Decimal(n), '\n')]
  }

  lemma Associates<T>(a: seq<T>, b: seq<T>, c: seq<T>)
    ensures (a + b) + c == a + (b + c)
  {
  }

  // catalog_save.
  function SaveText(ts: seq<Table>): string
    requires AllSized(ts)
  {
    Render(CountPieces(|ts|) + TablesPieces(ts))
  }

  // ----- reading -----

  // What is left to read, and whether the call of fscanf is still going.
  datatype Scan = Scan(text: string, going: bool)

  function SkipSpace(s: string): (r: string)
    ensures |r| <= |s| && (r != "" ==> !IsSpace(r[0]))
  {
    if s != "" && IsSpace(s[0]) then SkipSpace(s[1..]) else s
  }

  // The length of the word in front, up to n characters.
  function WordLen(s: string, n: nat): (k: nat)
    ensures k <= |s| && k <= n
  {
    if n == 0 || s == "" || IsSpace(s[0]) then 0 else 1 + WordLen(s[1..], n - 1)
  }

  function DigitsLen(s: string): (k: nat)
    ensures k <= |s|
  {
    if s == "" || !IsDigit(s[0]) then 0 else 1 + DigitsLen(s[1..])
  }

  // "%63s" into a buffer that holds old.
  function ScanWord(sc: Scan, old_: string): (r: (string, Scan))
    ensures |r.1.text| <= |sc.text| && (sc.going && r.1.going ==> |r.1.text| < |sc.text|)
  {
    if !sc.going then (old_, sc)
    else
      var s := SkipSpace(sc.text);
      var k := WordLen(s, WORD_MAX);
      if s == "" then (old_, Scan("", false)) else (s[..k], Scan(s[k..], true))
  }

  // An optional sign and digits: the number, and the text after what was read.
  datatype Number = None(rest: string) | Some(n: int, rest: string)

  function Unsigned(s: string): (r: Number)
    ensures |r.rest| <= |s|
  {
    if DigitsLen(s) == 0 then None(s) else Some(Digits(s, 0), s[DigitsLen(s)..])
  }

  function Signed(s: string): (r: Number)
    ensures |r.rest| <= |s|
  {
    if s != "" && s[0] == '+' then Unsigned(s[1..])
    else if s != "" && s[0] == '-' then
      var r := Unsigned(s[1..]);
      if r.Some? then Some(-r.n, r.rest) else r
    else Unsigned(s)
  }

  // "%d" into a variable that holds old.
  function ScanInt(sc: Scan, old_: int): (r: (int, Scan))
    ensures |r.1.text| <= |sc.text|
  {
    if !sc.going then (old_, sc)
    else
      match Signed(SkipSpace(sc.text))
      case None(rest) => (old_, Scan(rest, false))
      case Some(n, rest) => (n, Scan(rest, true))
  }

  function Unreference(s: string): string {
    if s == "-" then "" else s
  }

  // The eight conversions of a COLUMN line.
  function ReadColumn(c: Column, text: string): (r: (Column, string))
    ensures |r.1| <= |text|
  {
    var (name, s1) := ScanWord(Scan(text, true), c.name);
    var (kind, s2) := ScanInt(s1, c.kind);
    var (size, s3) := ScanInt(s2, c.size);
    var (pk, s4) := ScanInt(s3, c.primaryKey);
    var (ai, s5) := ScanInt(s4, c.autoIncrement);
    var (fk, s6) := ScanInt(s5, c.foreignKey);
    var (rt, s7) := ScanWord(s6, c.refTable);
    var (rc, s8) := ScanWord(s7, c.refColumn);
    (Column(name, kind, size, pk, ai, fk, Unreference(rt), Unreference(rc)), s8.text)
  }

  // The columns from j on; keyword keeps what it held when there is nothing left to read.
  function ReadColumns(t: Table, j: nat, text: string, keyword: string): (r: (Table, string, string))
    requires Sized(t)
    ensures Sized(r.0) && |r.1| <= |text|
    decreases t.numColumns - j
  {
    if j >= t.numColumns then (t, text, keyword)
    else
      var (word, sc) := ScanWord(Scan(text, true), keyword);
      if word != "COLUMN" then ReadColumns(t, j + 1, sc.text, word)
      else
        var (c, rest) := ReadColumn(t.columns[j], sc.text);
        ReadColumns(t.(columns := t.columns[j := c]), j + 1, rest, word)
  }

  // The line of a TABLE, into the place it goes to.
  function ReadHead(t: Table, text: string): (r: (Table, string))
    requires |t.columns| == MAX_COLUMNS
    ensures Sized(r.0) && |r.1| <= |text|
  {
    var (name, s1) := ScanWord(Scan(text, true), t.name);
    var (n, s2) := ScanInt(s1, t.numColumns);
    var (next, s3) := ScanInt(s2, t.nextAutoId);
    (Table(name, if n > MAX_COLUMNS then MAX_COLUMNS else n, t.columns, next), s3.text)
  }

  function ReadTable(t: Table, text: string, keyword: string): (r: (Table, string, string))
    requires |t.columns| == MAX_COLUMNS
    ensures Sized(r.0) && |r.1| <= |text|
  {
    var (u, rest) := ReadHead(t, text);
    ReadColumns(u, 0, rest, keyword)
  }

  // The static variables: the places, how many count, and the place the last TABLE line went to.
  datatype State = State(places: seq<Table>, count: int, current: int)

  predicate Placed(st: State) {
    |st.places| == MAX_TABLES && AllSized(st.places) && st.current >= -1
  }

  // One turn of the loop of catalog_init: what it leaves, and whether there is another.
  datatype Turn = Turn(st: State, text: string, keyword: string, again: bool)

  function ReadTurn(st: State, text: string, keyword: string): (r: Turn)
    requires Placed(st)
    ensures Placed(r.st) && (r.again ==> |r.text| < |text|)
  {
    var (word, sc) := ScanWord(Scan(text, true), keyword);
    if !sc.going then Turn(st, text, keyword, false)
    else if word == "TABLE_COUNT" then
      var (n, s1) := ScanInt(sc, st.count);
      Turn(st.(count := if n > MAX_TABLES then MAX_TABLES else n), s1.text, word, true)
    else if word == "TABLE" then
      var i := st.current + 1;
      if i >= MAX_TABLES then Turn(st.(current := i), text, word, false)
      else
        var (u, rest, kw) := ReadTable(st.places[i], sc.text, word);
        Turn(State(st.places[i := u], st.count, i), rest, kw, true)
    else Turn(st, sc.text, word, true)
  }

  function ReadFrom(st: State, text: string, keyword: string): (r: State)
    requires Placed(st)
    ensures Placed(r)
    decreases |text|
  {
    var t := ReadTurn(st, text, keyword);
    if t.again then ReadFrom(t.st, t.text, t.keyword) else t.st
  }

  datatype File = Missing | Text(text: string)

  // catalog_init.
  function Init(st: State, file: File): State
    requires Placed(st)
  {
    match file
    case Missing => st.(count := 0)
    case Text(text) => ReadFrom(st.(count := 0), text, "")
  }

  const ProcessStart := State(seq(MAX_TABLES, _ => NoTable), 0, -1)
}
