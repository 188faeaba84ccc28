// The catalog survives a restart: what catalog_init makes of the text of catalog_save; and what
// creating and removing tables keeps.
module CatalogProperties {
  import opened RowCodec
  import opened Catalog

  // ----- numbers -----

  predicate AllDigits(s: string) {
    forall i :: 0 <= i < |s| ==> IsDigit(s[i])
  }

  lemma {:induction false} DigitsSnoc(s: string, c: char, rest: string, acc: int)
    requires AllDigits(s) && IsDigit(c) && (rest == "" || !IsDigit(rest[0]))
    ensures Digits(s + [c] + rest, acc) == Digits(s, acc) * 10 + (c as int - '0' as int)
    decreases |s|
  {
    var t := s + [c] + rest;
    if s == "" {
      assert t == [c] + rest && t[1..] == rest;
    } else {
      assert t[1..] == s[1..] + [c] + rest;
      DigitsSnoc(s[1..], c, rest, acc * 10 + (s[0] as int - '0' as int));
    }
  }

  lemma {:induction false} DecimalNatReads(n: nat, rest: string)
    requires rest == "" || !IsDigit(rest[0])
    ensures DecimalNat(n) != "" && AllDigits(DecimalNat(n)) && Digits(DecimalNat(n) + rest, 0) == n
  {
    var c := ('0' as int + n % 10) as char;
    if n < 10 {
      assert DecimalNat(n) + rest == "" + [c] + rest;
      DigitsSnoc("", c, rest, 0);
    } else {
      DecimalNatReads(n / 10, "");
      assert DecimalNat(n / 10) + "" == DecimalNat(n / 10);
      assert DecimalNat(n) + rest == DecimalNat(n / 10) + [c] + rest;
      DigitsSnoc(DecimalNat(n / 10), c, rest, 0);
    }
  }

  lemma {:induction false} DigitsLenIs(s: string, rest: string)
    requires AllDigits(s) && (rest == "" || !IsDigit(rest[0]))
    ensures DigitsLen(s + rest) == |s|
    decreases |s|
  {
    if s == "" { assert s + rest == rest; }
    else {
      assert (s + rest)[1..] == s[1..] + rest;
      DigitsLenIs(s[1..], rest);
    }
  }

  // ----- the lines of the file -----

  // Words with a blank between them, and the end of the line.
  function Line(words: seq<string>): string {
    if words == [] then ""
    else if |words| == 1 then words[0] + "\n"
    else words[0] + " " + Line(words[1..])
  }

  function Lines(ls: seq<seq<string>>): string {
    if ls == [] then "" else Line(ls[0]) + Lines(ls[1..])
  }

  function OrDash(s: string): string {
    if s == "" then "-" else s
  }

  function ColumnLine(c: Column): seq<string> {
    ["COLUMN", c.name, Decimal(c.kind), Decimal(c.size), Decimal(c.primaryKey), Decimal(c.autoIncrement),
     Decimal(c.foreignKey), OrDash(c.refTable), OrDash(c.refColumn)]
  }

  function ColumnLines(cs: seq<Column>): seq<seq<string>> {
    if cs == [] then [] else [ColumnLine(cs[0])] + ColumnLines(cs[1..])
  }

  function TableLines(t: Table): seq<seq<string>>
    requires 0 <= t.numColumns <= |t.columns|
  {
    [["TABLE", t.name, Decimal(t.numColumns), Decimal(t.nextAutoId)]] + ColumnLines(t.columns[..t.numColumns]) + [["END_TABLE"]]
  }

  function AllLines(ts: seq<Table>): seq<seq<string>>
    requires forall i :: 0 <= i < |ts| ==> 0 <= ts[i].numColumns <= |ts[i].columns|
  {
    if ts == [] then [] else TableLines(ts[0]) + AllLines(ts[1..])
  }

  predicate OneLine(ps: seq<Piece>, words: seq<string>) {
    && |ps| == |words| > 0
    && (forall i :: 0 <= i < |ps| ==> ps[i].word == words[i])
    && (forall i :: 0 <= i < |ps| ==> ps[i].end == if i < |ps| - 1 then ' ' else '\n')
  }

  lemma {:induction false} RenderLine(ps: seq<Piece>, words: seq<string>)
    requires OneLine(ps, words)
    ensures Render(ps) == Line(words)
    decreases |ps|
  {
    if |ps| == 1 {
      assert ps[1..] == [];
      assert Render(ps) == ps[0].word + [ps[0].end] + "" == Line(words);
    } else {
      RenderLine(ps[1..], words[1..]);
    }
  }

  lemma {:induction false} RenderAppend(a: seq<Piece>, b: seq<Piece>)
    ensures Render(a + b) == Render(a) + Render(b)
  {
    if a == [] {
      assert a + b == b;
    } else {
      assert (a + b)[1..] == a[1..] + b;
      RenderAppend(a[1..], b);
      Associates(a[0].word + [a[0].end], Render(a[1..]), Render(b));
    }
  }

  lemma {:induction false} LinesAppend(a: seq<seq<string>>, b: seq<seq<string>>)
    ensures Lines(a + b) == Lines(a) + Lines(b)
  {
    if a == [] {
      assert a + b == b;
    } else {
      assert (a + b)[1..] == a[1..] + b;
      LinesAppend(a[1..], b);
      Associates(Line(a[0]), Lines(a[1..]), Lines(b));
    }
  }

  lemma OneOfLines(words: seq<string>)
    ensures Lines([words]) == Line(words)
  {
    assert [words][1..] == [];
  }

  lemma ColumnText(c: Column)
    ensures Render(ColumnPieces(c)) == Line(ColumnLine(c))
  {
    RenderLine(ColumnPieces(c), ColumnLine(c));
  }

  lemma {:induction false} ColumnsText(cs: seq<Column>)
    ensures Render(ColumnsPieces(cs)) == Lines(ColumnLines(cs))
  {
    if cs != [] {
      ColumnsText(cs[1..]);
      RenderAppend(ColumnPieces(cs[0]), ColumnsPieces(cs[1..]));
      ColumnText(cs[0]);
      assert ColumnLines(cs)[1..] == ColumnLines(cs[1..]);
    }
  }

  lemma {:induction false} TableText(t: Table)
    requires Sized(t) && t.numColumns >= 0
    ensures Render(TablePieces(t)) == Lines(TableLines(t))
  {
    var head := ["TABLE", t.name, Decimal(t.numColumns), Decimal(t.nextAutoId)];
    var cs := t.columns[..t.numColumns];
    assert InUse(t) == cs;
    RenderAppend(HeadPieces(t) + ColumnsPieces(cs), [Piece("END_TABLE", '\n')]);
    RenderAppend(HeadPieces(t), ColumnsPieces(cs));
    RenderLine(HeadPieces(t), head);
    RenderLine([Piece("END_TABLE", '\n')], ["END_TABLE"]);
    ColumnsText(cs);
    LinesAppend([head] + ColumnLines(cs), [["END_TABLE"]]);
    LinesAppend([head], ColumnLines(cs));
    OneOfLines(head);
    OneOfLines(["END_TABLE"]);
  }

  lemma {:induction false} TablesText(ts: seq<Table>)
    requires AllSized(ts) && forall i :: 0 <= i < |ts| ==> ts[i].numColumns >= 0
    ensures Render(TablesPieces(ts)) == Lines(AllLines(ts))
  {
    if ts != [] {
      TablesText(ts[1..]);
      TableText(ts[0]);
      RenderAppend(TablePieces(ts[0]), TablesPieces(ts[1..]));
      LinesAppend(TableLines(ts[0]), AllLines(ts[1..]));
    }
  }

  // What catalog_save writes, word by word.
  lemma {:induction false} SaveTextIs(ts: seq<Table>)
    requires AllSized(ts) && forall i :: 0 <= i < |ts| ==> ts[i].numColumns >= 0
    ensures SaveText(ts) == Line(["TABLE_COUNT", Decimal(|ts|)]) + Lines(AllLines(ts))
  {
    RenderAppend(CountPieces(|ts|), TablesPieces(ts));
    RenderLine(CountPieces(|ts|), ["TABLE_COUNT", Decimal(|ts|)]);
    TablesText(ts);
  }

  // ----- words -----

  // What "%63s" takes as one word.
  predicate GoodWord(w: string) {
    0 < |w| <= WORD_MAX && forall i :: 0 <= i < |w| ==> !IsSpace(w[i])
  }

  lemma {:induction false} WordLenIs(w: string, rest: string, n: nat)
    requires |w| <= n && (forall i :: 0 <= i < |w| ==> !IsSpace(w[i])) && (rest == "" || IsSpace(rest[0]))
    ensures WordLen(w + rest, n) == |w|
    decreases |w|
  {
    if w == "" { assert w + rest == rest; }
    else {
      assert (w + rest)[1..] == w[1..] + rest;
      WordLenIs(w[1..], rest, n - 1);
    }
  }

  // The pieces are next in the text, perhaps after one character of white space.
  predicate Ahead(text: string, ps: seq<Piece>) {
    text == Render(ps) || (text != "" && IsSpace(text[0]) && text[1..] == Render(ps))
  }

  lemma SkipsTo(text: string, ps: seq<Piece>)
    requires Ahead(text, ps) && ps != [] && ps[0].word != "" && !IsSpace(ps[0].word[0])
    ensures SkipSpace(text) == ps[0].word + ([ps[0].end] + Render(ps[1..]))
  {
    assert Render(ps) == ps[0].word + ([ps[0].end] + Render(ps[1..]));
    assert Render(ps)[0] == ps[0].word[0];
  }

  // From piece k of all on.
  predicate At(text: string, all: seq<Piece>, k: nat)
    requires k <= |all|
  {
    Ahead(text, all[k..])
  }

  lemma LeftAt(all: seq<Piece>, k: nat)
    requires k < |all| && IsSpace(all[k].end)
    ensures At([all[k].end] + Render(all[k..][1..]), all, k + 1)
  {
    assert all[k..][1..] == all[k + 1..];
    assert ([all[k].end] + Render(all[k + 1..]))[1..] == Render(all[k + 1..]);
  }

  lemma WordAt(text: string, all: seq<Piece>, k: nat, old_: string)
    requires k < |all| && At(text, all, k) && GoodWord(all[k].word) && IsSpace(all[k].end)
    ensures var (w, sc) := ScanWord(Scan(text, true), old_); w == all[k].word && sc.going && At(sc.text, all, k + 1)
  {
    var rest := [all[k].end] + Render(all[k..][1..]);
    SkipsTo(text, all[k..]);
    WordLenIs(all[k].word, rest, WORD_MAX);
    LeftAt(all, k);
    var s := SkipSpace(text);
    assert s[..|all[k].word|] == all[k].word && s[|all[k].word|..] == rest;
  }

  lemma UnsignedReads(n: nat, rest: string)
    requires rest != "" && IsSpace(rest[0])
    ensures Unsigned(DecimalNat(n) + rest) == Some(n, rest) && IsDigit((DecimalNat(n) + rest)[0])
  {
    var digits := DecimalNat(n);
    DecimalNatReads(n, rest);
    DigitsLenIs(digits, rest);
    assert (digits + rest)[|digits|..] == rest && (digits + rest)[0] == digits[0];
  }

  lemma PlainSigned(s: string)
    requires s != "" && IsDigit(s[0])
    ensures Signed(s) == Unsigned(s)
  {
  }

  lemma MinusSigned(s: string, n: int, rest: string)
    requires Unsigned(s) == Some(n, rest)
    ensures Signed("-" + s) == Some(-n, rest)
  {
    assert ("-" + s)[1..] == s;
  }

  lemma SignedReads(n: int, rest: string)
    requires rest != "" && IsSpace(rest[0])
    ensures Signed(Decimal(n) + rest) == Some(n, rest)
  {
    if n < 0 {
      UnsignedReads(-n, rest);
      MinusSigned(DecimalNat(-n) + rest, -n, rest);
      Associates("-", DecimalNat(-n), rest);
    } else {
      UnsignedReads(n, rest);
      PlainSigned(DecimalNat(n) + rest);
    }
  }

  lemma IntAt(text: string, all: seq<Piece>, k: nat, n: int, old_: int)
    requires k < |all| && At(text, all, k) && all[k].word == Decimal(n) && IsSpace(all[k].end)
    ensures var (m, sc) := ScanInt(Scan(text, true), old_); m == n && sc.going && At(sc.text, all, k + 1)
  {
    DecimalBegins(n);
    SkipsTo(text, all[k..]);
    LeftAt(all, k);
    SignedReads(n, [all[k].end] + Render(all[k..][1..]));
  }

  lemma DecimalBegins(n: int)
    ensures Decimal(n) != "" && !IsSpace(Decimal(n)[0])
  {
    DecimalNatReads(if n < 0 then -n else n, "");
  }

  lemma NothingAhead(text: string, old_: string)
    requires Ahead(text, [])
    ensures !ScanWord(Scan(text, true), old_).1.going
  {
    if text != "" { assert SkipSpace(text) == SkipSpace(text[1..]) == ""; }
  }

  // ----- columns -----

  predicate GoodReference(s: string) {
    s == "" || GoodWord(s)
  }

  predicate GoodColumn(c: Column) {
    GoodWord(c.name) && GoodReference(c.refTable) && GoodReference(c.refColumn)
  }

  // What is read back of a column: a reference named "-" is lost.
  function Restored(c: Column): Column {
    c.(refTable := Unreference(c.refTable), refColumn := Unreference(c.refColumn))
  }

  // all begins with the pieces of c.
  predicate Begins(all: seq<Piece>, c: Column) {
    && |all| >= 9 && all[0] == Piece("COLUMN", ' ') && all[1] == Piece(c.name, ' ')
    && all[2] == Piece(Decimal(c.kind), ' ') && all[3] == Piece(Decimal(c.size), ' ')
    && all[4] == Piece(Decimal(c.primaryKey), ' ') && all[5] == Piece(Decimal(c.autoIncrement), ' ')
    && all[6] == Piece(Decimal(c.foreignKey), ' ')
    && all[7] == Piece(Reference(c.refTable), ' ') && all[8] == Piece(Reference(c.refColumn), '\n')
  }

  lemma ReadNumbersAt(s1: Scan, all: seq<Piece>, c: Column, was: Column)
    requires Begins(all, c) && s1.going && At(s1.text, all, 2)
    ensures var (kind, s2) := ScanInt(s1, was.kind);
      var (size, s3) := ScanInt(s2, was.size);
      var (pk, s4) := ScanInt(s3, was.primaryKey);
      var (ai, s5) := ScanInt(s4, was.autoIncrement);
      var (fk, s6) := ScanInt(s5, was.foreignKey);
      && kind == c.kind && size == c.size && pk == c.primaryKey && ai == c.autoIncrement && fk == c.foreignKey
      && s6.going && At(s6.text, all, 7)
  {
    var s2 := ScanInt(s1, was.kind).1;
    IntAt(s1.text, all, 2, c.kind, was.kind);
    var s3 := ScanInt(s2, was.size).1;
    IntAt(s2.text, all, 3, c.size, was.size);
    var s4 := ScanInt(s3, was.primaryKey).1;
    IntAt(s3.text, all, 4, c.primaryKey, was.primaryKey);
    var s5 := ScanInt(s4, was.autoIncrement).1;
    IntAt(s4.text, all, 5, c.autoIncrement, was.autoIncrement);
    IntAt(s5.text, all, 6, c.foreignKey, was.foreignKey);
  }

  lemma ReadColumnAt(text: string, all: seq<Piece>, c: Column, was: Column)
    requires Begins(all, c) && GoodColumn(c) && At(text, all, 1)
    ensures var (r, rest) := ReadColumn(was, text); r == Restored(c) && At(rest, all, 9)
  {
    var s1 := ScanWord(Scan(text, true), was.name).1;
    WordAt(text, all, 1, was.name);
    ReadNumbersAt(s1, all, c, was);
    var s6 := ScanInt(ScanInt(ScanInt(ScanInt(ScanInt(s1, was.kind).1, was.size).1, was.primaryKey).1,
                              was.autoIncrement).1, was.foreignKey).1;
    ReadReferences(s6, all, c, was);
  }

  lemma ReadReferences(s6: Scan, all: seq<Piece>, c: Column, was: Column)
    requires |all| >= 9 && all[7] == Piece(Reference(c.refTable), ' ') && all[8] == Piece(Reference(c.refColumn), '\n')
    requires GoodColumn(c) && s6.going && At(s6.text, all, 7)
    ensures var (rt, s7) := ScanWord(s6, was.refTable); var (rc, s8) := ScanWord(s7, was.refColumn);
      && Unreference(rt) == Unreference(c.refTable) && Unreference(rc) == Unreference(c.refColumn)
      && At(s8.text, all, 9)
  {
    assert GoodWord(Reference(c.refTable)) && GoodWord(Reference(c.refColumn));
    WordAt(s6.text, all, 7, was.refTable);
    var (rt, s7) := ScanWord(s6, was.refTable);
    WordAt(s7.text, all, 8, was.refColumn);
  }

  // One turn of the loop over the columns.
  lemma ReadOneColumn(t: Table, j: nat, c: Column, text: string, keyword: string, more: seq<Piece>) returns (rest: string)
    requires Sized(t) && j < t.numColumns && GoodColumn(c) && Ahead(text, ColumnPieces(c) + more)
    ensures Ahead(rest, more)
    ensures ReadColumns(t, j, text, keyword) == ReadColumns(t.(columns := t.columns[j := Restored(c)]), j + 1, rest, "COLUMN")
  {
    var all := ColumnPieces(c) + more;
    assert all[0..] == all && all[9..] == more && Begins(all, c);
    WordAt(text, all, 0, keyword);
    var (word, sc) := ScanWord(Scan(text, true), keyword);
    ReadColumnAt(sc.text, all, c, t.columns[j]);
    rest := ReadColumn(t.columns[j], sc.text).1;
  }

  lemma NextColumn(cs: seq<Column>, j: nat)
    requires j < |cs|
    ensures ColumnsPieces(cs[j..]) == ColumnPieces(cs[j]) + ColumnsPieces(cs[j + 1..])
  {
    assert cs[j..][1..] == cs[j + 1..] && cs[j..][0] == cs[j];
  }

  lemma FirstColumn(cs: seq<Column>, j: nat, more: seq<Piece>)
    requires j < |cs|
    ensures ColumnsPieces(cs[j..]) + more == ColumnPieces(cs[j]) + (ColumnsPieces(cs[j + 1..]) + more)
  {
    NextColumn(cs, j);
    Associates(ColumnPieces(cs[j]), ColumnsPieces(cs[j + 1..]), more);
  }

  predicate GoodColumns(cs: seq<Column>) {
    forall k :: 0 <= k < |cs| ==> GoodColumn(cs[k])
  }

  lemma {:induction false} ReadColumnsAhead(t: Table, j: nat, cs: seq<Column>, text: string, keyword: string, more: seq<Piece>)
    requires Sized(t) && j <= |cs| && t.numColumns == |cs| && GoodColumns(cs)
    requires Ahead(text, ColumnsPieces(cs[j..]) + more)
    ensures var (u, rest, _) := ReadColumns(t, j, text, keyword);
      && Ahead(rest, more) && u == t.(columns := u.columns)
      && (forall k :: j <= k < |cs| ==> u.columns[k] == Restored(cs[k]))
      && (forall k :: 0 <= k < j ==> u.columns[k] == t.columns[k])
    decreases |cs| - j
  {
    if j == |cs| {
      assert ColumnsPieces(cs[j..]) + more == more;
    } else {
      var after := ColumnsPieces(cs[j + 1..]) + more;
      FirstColumn(cs, j, more);
      var rest := ReadOneColumn(t, j, cs[j], text, keyword, after);
      ReadColumnsAhead(t.(columns := t.columns[j := Restored(cs[j])]), j + 1, cs, rest, "COLUMN", more);
    }
  }

  // ----- tables -----

  predicate GoodTable(t: Table) {
    Sized(t) && GoodWord(t.name) && GoodColumns(InUse(t))
  }

  predicate GoodTables(ts: seq<Table>) {
    forall i :: 0 <= i < |ts| ==> GoodTable(ts[i])
  }

  // u is what is read back of t.
  predicate ReadBack(u: Table, t: Table)
    requires Sized(u) && Sized(t)
  {
    && u.name == t.name && u.numColumns == t.numColumns && u.nextAutoId == t.nextAutoId
    && |InUse(u)| == |InUse(t)| && forall k :: 0 <= k < |InUse(t)| ==> InUse(u)[k] == Restored(InUse(t)[k])
  }

  lemma ReadHeadAt(was: Table, text: string, all: seq<Piece>, t: Table)
    requires |was.columns| == MAX_COLUMNS && GoodTable(t)
    requires |all| >= 4 && all[..4] == HeadPieces(t) && At(text, all, 1)
    ensures ReadHead(was, text).0 == Table(t.name, t.numColumns, was.columns, t.nextAutoId)
    ensures At(ReadHead(was, text).1, all, 4)
  {
    assert forall k :: 0 <= k < 4 ==> all[k] == HeadPieces(t)[k];
    var (name, s1) := ScanWord(Scan(text, true), was.name);
    WordAt(text, all, 1, was.name);
    var (n, s2) := ScanInt(s1, was.numColumns);
    IntAt(s1.text, all, 2, t.numColumns, was.numColumns);
    IntAt(s2.text, all, 3, t.nextAutoId, was.nextAutoId);
  }

  // One table, from its TABLE line to before its END_TABLE.
  lemma ColumnsAhead(h: Table, text: string, t: Table, more: seq<Piece>, word: string)
    requires Sized(h) && GoodTable(t) && h.name == t.name && h.numColumns == t.numColumns && h.nextAutoId == t.nextAutoId
    requires Ahead(text, ColumnsPieces(InUse(t)) + more)
    ensures var (u, rest, _) := ReadColumns(h, 0, text, word); ReadBack(u, t) && Ahead(rest, more)
  {
    var cs := InUse(t);
    if t.numColumns <= 0 {
      assert ColumnsPieces(cs) + more == more;
    } else {
      assert cs[0..] == cs;
      ReadColumnsAhead(h, 0, cs, text, word, more);
      ColumnsReadBack(t, ReadColumns(h, 0, text, word).0);
    }
  }

  lemma ReadTableAhead(was: Table, text: string, t: Table, more: seq<Piece>, word: string)
    requires |was.columns| == MAX_COLUMNS && GoodTable(t)
    requires At(text, HeadPieces(t) + ColumnsPieces(InUse(t)) + more, 1)
    ensures var (u, rest, _) := ReadTable(was, text, word); ReadBack(u, t) && Ahead(rest, more)
  {
    var all := HeadPieces(t) + ColumnsPieces(InUse(t)) + more;
    assert all[..4] == HeadPieces(t) && all[4..] == ColumnsPieces(InUse(t)) + more;
    ReadHeadAt(was, text, all, t);
    var (h, rest) := ReadHead(was, text);
    ColumnsAhead(h, rest, t, more, word);
  }

  lemma ColumnsReadBack(t: Table, u: Table)
    requires Sized(t) && Sized(u) && t.numColumns > 0
    requires u.name == t.name && u.numColumns == t.numColumns && u.nextAutoId == t.nextAutoId
    requires forall k :: 0 <= k < t.numColumns ==> u.columns[k] == Restored(InUse(t)[k])
    ensures ReadBack(u, t)
  {
  }

  // Where the static counter ends: reading stops at the first table there is no place for.
  function EndsAt(current: int, n: nat): int {
    if n == 0 || current + n < MAX_TABLES then current + n
    else if current + 1 < MAX_TABLES then MAX_TABLES
    else current + 1
  }

  // The tables of ts follow the place the last one went to, as far as there are places.
  ghost predicate Follow(r: State, st: State, ts: seq<Table>)
    requires Placed(r) && Placed(st) && AllSized(ts)
  {
    && r.current == EndsAt(st.current, |ts|) && r.count == st.count
    && (forall i :: 0 <= i <= st.current && i < MAX_TABLES ==> r.places[i] == st.places[i])
    && (forall i {:trigger ts[i]} :: 0 <= i < |ts| && st.current + 1 + i < MAX_TABLES ==> ReadBack(r.places[st.current + 1 + i], ts[i]))
  }

  // The turn that reads a table.
  lemma TableKeyword(text: string, keyword: string, all: seq<Piece>)
    requires Ahead(text, all) && all != [] && all[0] == Piece("TABLE", ' ')
    ensures var (word, sc) := ScanWord(Scan(text, true), keyword); word == "TABLE" && sc.going && At(sc.text, all, 1)
  {
    assert all[0..] == all;
    WordAt(text, all, 0, keyword);
  }

  lemma TableTurn(st: State, text: string, keyword: string, after: string, t: Table, rest: string, last: string)
    requires Placed(st) && st.current + 1 < MAX_TABLES
    requires ScanWord(Scan(text, true), keyword) == ("TABLE", Scan(after, true))
    requires ReadTable(st.places[st.current + 1], after, "TABLE") == (t, rest, last)
    ensures ReadTurn(st, text, keyword) == Turn(State(st.places[st.current + 1 := t], st.count, st.current + 1), rest, last, true)
  {
    var read := ScanWord(Scan(text, true), keyword);
    assert read.0 == "TABLE" && read.1.going && read.1.text == after;
  }

  lemma ReadOneTable(st: State, text: string, keyword: string, t: Table, more: seq<Piece>) returns (u: Table)
    requires Placed(st) && st.current + 1 < MAX_TABLES && GoodTable(t)
    requires Ahead(text, HeadPieces(t) + ColumnsPieces(InUse(t)) + more)
    ensures Sized(u) && ReadBack(u, t)
    ensures var r := ReadTurn(st, text, keyword);
      r.again && r.st == State(st.places[st.current + 1 := u], st.count, st.current + 1) && Ahead(r.text, more)
  {
    TableKeyword(text, keyword, HeadPieces(t) + ColumnsPieces(InUse(t)) + more);
    var after := ScanWord(Scan(text, true), keyword).1.text;
    ReadTableAhead(st.places[st.current + 1], after, t, more, "TABLE");
    var r := ReadTable(st.places[st.current + 1], after, "TABLE");
    u := r.0;
    TableTurn(st, text, keyword, after, u, r.1, r.2);
  }

  lemma SkipsEnd(st: State, text: string, keyword: string, rest: seq<Piece>)
    requires Placed(st) && Ahead(text, [Piece("END_TABLE", '\n')] + rest)
    ensures var r := ReadTurn(st, text, keyword); r.again && r.st == st && Ahead(r.text, rest)
  {
    var all := [Piece("END_TABLE", '\n')] + rest;
    assert all[0..] == all && all[1..] == rest;
    WordAt(text, all, 0, keyword);
  }

  lemma ReadOn(st: State, text: string, keyword: string, r: Turn)
    requires Placed(st) && r == ReadTurn(st, text, keyword) && r.again
    ensures ReadFrom(st, text, keyword) == ReadFrom(r.st, r.text, r.keyword)
  {
  }

  // The turns that read a table and its END_TABLE.
  lemma TableTurns(st: State, text: string, keyword: string, t: Table, after: seq<Piece>)
    returns (st': State, text': string, keyword': string)
    requires Placed(st) && st.current + 1 < MAX_TABLES && GoodTable(t) && Ahead(text, TablePieces(t) + after)
    ensures Placed(st') && st'.current == st.current + 1 && st'.count == st.count
    ensures forall i :: 0 <= i <= st.current ==> st'.places[i] == st.places[i]
    ensures ReadBack(st'.places[st.current + 1], t) && Ahead(text', after)
    ensures ReadFrom(st, text, keyword) == ReadFrom(st', text', keyword')
  {
    var more := [Piece("END_TABLE", '\n')] + after;
    assert TablePieces(t) + after == HeadPieces(t) + ColumnsPieces(InUse(t)) + more;
    var u := ReadOneTable(st, text, keyword, t, more);
    var r := ReadTurn(st, text, keyword);
    ReadOn(st, text, keyword, r);
    SkipsEnd(r.st, r.text, r.keyword, after);
    var e := ReadTurn(r.st, r.text, r.keyword);
    ReadOn(r.st, r.text, r.keyword, e);
    st', text', keyword' := e.st, e.text, e.keyword;
  }

  lemma ReadNothing(st: State, text: string, keyword: string)
    requires Placed(st) && Ahead(text, [])
    ensures ReadFrom(st, text, keyword) == st
  {
    NothingAhead(text, keyword);
  }

  // A table there is no place for ends the reading.
  lemma StopsReading(st: State, text: string, keyword: string, t: Table, after: seq<Piece>)
    requires Placed(st) && st.current + 1 >= MAX_TABLES && GoodTable(t) && Ahead(text, TablePieces(t) + after)
    ensures ReadFrom(st, text, keyword) == st.(current := st.current + 1)
  {
    var all := TablePieces(t) + after;
    assert all[0..] == all && all[0] == Piece("TABLE", ' ');
    WordAt(text, all, 0, keyword);
  }

  lemma {:induction false} ReadFromAhead(st: State, text: string, keyword: string, ts: seq<Table>)
    requires Placed(st) && AllSized(ts) && GoodTables(ts) && Ahead(text, TablesPieces(ts))
    ensures Follow(ReadFrom(st, text, keyword), st, ts)
    decreases |ts|
  {
    if ts == [] {
      ReadNothing(st, text, keyword);
    } else if st.current + 1 >= MAX_TABLES {
      StopsReading(st, text, keyword, ts[0], TablesPieces(ts[1..]));
    } else {
      var st', text', keyword' := TableTurns(st, text, keyword, ts[0], TablesPieces(ts[1..]));
      ReadFromAhead(st', text', keyword', ts[1..]);
      FollowOn(ReadFrom(st', text', keyword'), st, st', ts);
    }
  }

  lemma FollowOn(r: State, st: State, st': State, ts: seq<Table>)
    requires Placed(r) && Placed(st) && Placed(st') && AllSized(ts) && ts != [] && st.current + 1 < MAX_TABLES
    requires st'.current == st.current + 1 && st'.count == st.count
    requires forall i :: 0 <= i <= st.current ==> st'.places[i] == st.places[i]
    requires ReadBack(st'.places[st.current + 1], ts[0])
    requires Follow(r, st', ts[1..])
    ensures Follow(r, st, ts)
  {
    forall i | 0 <= i < |ts| && st.current + 1 + i < MAX_TABLES ensures ReadBack(r.places[st.current + 1 + i], ts[i]) {
      if i > 0 { assert ts[i] == ts[1..][i - 1] && ReadBack(r.places[st'.current + 1 + (i - 1)], ts[1..][i - 1]); }
    }
  }

  // ----- the round trip -----

  // Tables catalog_save and catalog_init were made for.
  predicate Savable(ts: seq<Table>) {
    |ts| <= MAX_TABLES && GoodTables(ts)
  }

  // What catalog_init leaves after any earlier ones: the saved tables are put after those.
  lemma InitPlaces(st: State, ts: seq<Table>)
    requires Placed(st) && Savable(ts) && AllSized(ts)
    ensures Follow(Init(st, Text(SaveText(ts))), st.(count := |ts|), ts)
  {
    ReadCount(st.(count := 0), ts);
    var r := ReadTurn(st.(count := 0), SaveText(ts), "");
    ReadOn(st.(count := 0), SaveText(ts), "", r);
    ReadFromAhead(r.st, r.text, r.keyword, ts);
  }

  lemma ReadCount(st: State, ts: seq<Table>)
    requires Placed(st) && AllSized(ts) && |ts| <= MAX_TABLES
    ensures var r := ReadTurn(st, SaveText(ts), ""); r.again && r.st == st.(count := |ts|) && Ahead(r.text, TablesPieces(ts))
  {
    var sc, s1 := CountScans(SaveText(ts), |ts|, TablesPieces(ts), st.count);
    CountTurn(st, SaveText(ts), |ts|, sc, s1);
  }

  lemma CountScans(text: string, n: nat, after: seq<Piece>, old_: int) returns (sc: Scan, s1: Scan)
    requires text == Render(CountPieces(n) + after)
    ensures ScanWord(Scan(text, true), "") == ("TABLE_COUNT", sc) && sc.going
    ensures ScanInt(sc, old_) == (n, s1) && Ahead(s1.text, after)
  {
    var all := CountPieces(n) + after;
    assert all[0..] == all && all[2..] == after;
    WordAt(text, all, 0, "");
    sc := ScanWord(Scan(text, true), "").1;
    IntAt(sc.text, all, 1, n, old_);
    s1 := ScanInt(sc, old_).1;
  }

  lemma CountTurn(st: State, text: string, n: nat, sc: Scan, s1: Scan)
    requires Placed(st) && n <= MAX_TABLES
    requires ScanWord(Scan(text, true), "") == ("TABLE_COUNT", sc) && sc.going && ScanInt(sc, st.count) == (n, s1)
    ensures ReadTurn(st, text, "") == Turn(st.(count := n), s1.text, "TABLE_COUNT", true)
  {
  }

  // The tables a state lists.
  function Listed(st: State): seq<Table>
    requires Placed(st)
  {
    if 0 <= st.count <= MAX_TABLES then st.places[..st.count] else []
  }

  predicate Same(u: Table, t: Table)
    requires Sized(u) && Sized(t)
  {
    u.name == t.name && u.numColumns == t.numColumns && u.nextAutoId == t.nextAutoId && InUse(u) == InUse(t)
  }

  ghost predicate SameTables(us: seq<Table>, ts: seq<Table>)
    requires AllSized(us) && AllSized(ts)
  {
    |us| == |ts| && forall i :: 0 <= i < |ts| ==> Same(us[i], ts[i])
  }

  predicate NoDash(c: Column) {
    c.refTable != "-" && c.refColumn != "-"
  }

  ghost predicate NoDashes(ts: seq<Table>)
    requires AllSized(ts)
  {
    forall i, k :: 0 <= i < |ts| && 0 <= k < |InUse(ts[i])| ==> NoDash(InUse(ts[i])[k])
  }

  lemma SameExactly(u: Table, t: Table)
    requires Sized(u) && Sized(t) && ReadBack(u, t)
    ensures Same(u, t) <==> forall k :: 0 <= k < |InUse(t)| ==> NoDash(InUse(t)[k])
  {
    forall k | 0 <= k < |InUse(t)| ensures InUse(u)[k] == InUse(t)[k] <==> NoDash(InUse(t)[k]) {
      assert InUse(u)[k] == Restored(InUse(t)[k]);
    }
  }

  lemma SameTablesExactly(us: seq<Table>, ts: seq<Table>)
    requires AllSized(us) && AllSized(ts) && |us| == |ts|
    requires forall i :: 0 <= i < |ts| ==> ReadBack(us[i], ts[i])
    ensures SameTables(us, ts) <==> NoDashes(ts)
  {
    forall i | 0 <= i < |ts| ensures Same(us[i], ts[i]) <==> forall k :: 0 <= k < |InUse(ts[i])| ==> NoDash(InUse(ts[i])[k]) {
      SameExactly(us[i], ts[i]);
    }
  }

  // The first catalog_init of a process restores what was saved, table by table and column by
  // column, exactly when no reference is named "-".
  lemma InitUndoesSaveExactly(ts: seq<Table>)
    requires Savable(ts) && AllSized(ts)
    ensures SameTables(Listed(Init(ProcessStart, Text(SaveText(ts)))), ts) <==> NoDashes(ts)
  {
    var r := Init(ProcessStart, Text(SaveText(ts)));
    InitPlaces(ProcessStart, ts);
    forall i | 0 <= i < |ts| ensures ReadBack(Listed(r)[i], ts[i]) {
      assert ReadBack(r.places[-1 + 1 + i], ts[i]);
    }
    SameTablesExactly(Listed(r), ts);
  }

  lemma SameReadBack(x: Table, u: Table, t: Table)
    requires Sized(x) && Sized(u) && Sized(t) && ReadBack(x, t)
    ensures Same(x, u) <==> ReadBack(u, t)
  {
    if ReadBack(u, t) { assert InUse(x) == InUse(u); }
  }

  // Places filled by ts, and then by us, hold the tables of both in order.
  lemma PlacesOfBoth(first: State, second: State, ts: seq<Table>, us: seq<Table>, i: nat)
    requires Placed(first) && Placed(second) && AllSized(ts) && AllSized(us) && |ts| <= MAX_TABLES
    requires first.current == |ts| - 1 && Follow(first, ProcessStart.(count := |ts|), ts) && Follow(second, first.(count := |us|), us)
    requires i < |us| && i < MAX_TABLES
    ensures AllSized(ts + us) && ReadBack(second.places[i], (ts + us)[i])
  {
    if i < |ts| {
      assert ReadBack(first.places[-1 + 1 + i], ts[i]);
    } else {
      assert ReadBack(second.places[first.current + 1 + (i - |ts|)], us[i - |ts|]);
    }
  }

  // A second catalog_init in one process counts the tables saved by then, but what it lists begins with
  // those of the first.
  lemma SecondInitLists(ts: seq<Table>, us: seq<Table>, second: State)
    requires Savable(ts) && AllSized(ts) && Savable(us) && AllSized(us)
    requires second == Init(Init(ProcessStart, Text(SaveText(ts))), Text(SaveText(us)))
    ensures |Listed(second)| == |us|
    ensures AllSized(ts + us) && forall i :: 0 <= i < |us| ==> ReadBack(Listed(second)[i], (ts + us)[i])
  {
    var first := Init(ProcessStart, Text(SaveText(ts)));
    InitPlaces(ProcessStart, ts);
    InitPlaces(first, us);
    forall i | 0 <= i < |us| ensures ReadBack(Listed(second)[i], (ts + us)[i]) {
      PlacesOfBoth(first, second, ts, us, i);
    }
  }

  // For every two saved lists: the second call restores the second list if and only if each of its
  // tables is what is read back of the table at its place in the first list followed by the second.
  lemma SecondInitExactly(ts: seq<Table>, us: seq<Table>)
    requires Savable(ts) && AllSized(ts) && Savable(us) && AllSized(us)
    ensures AllSized(ts + us)
    ensures SameTables(Listed(Init(Init(ProcessStart, Text(SaveText(ts))), Text(SaveText(us)))), us) <==>
            forall i :: 0 <= i < |us| ==> ReadBack(us[i], (ts + us)[i])
  {
    var second := Init(Init(ProcessStart, Text(SaveText(ts))), Text(SaveText(us)));
    SecondInitLists(ts, us, second);
    forall i | 0 <= i < |us| ensures Same(Listed(second)[i], us[i]) <==> ReadBack(us[i], (ts + us)[i]) {
      SameReadBack(Listed(second)[i], us[i], (ts + us)[i]);
    }
  }
}
