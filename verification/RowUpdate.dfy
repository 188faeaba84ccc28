// What a SET clause makes of a row, and why rows that begin with their id are found by it.
module RowUpdate {
  import opened RowCodec
  import opened RowProperties
  import opened Session

  // ----- the assignments of a SET clause -----

  datatype Assignment = Assignment(column: string, value: string)

  // The pieces with an equals sign, cleaned on both sides of the first one.
  function Parsed(pieces: seq<string>): seq<Assignment>
    decreases |pieces|
  {
    if pieces == [] then []
    else
      var front, last := Parsed(pieces[..|pieces| - 1]), pieces[|pieces| - 1];
      var eq := TokenLen(last, '=');
      if eq == |last| then front
      else front + [Assignment(CleanToken(Cut(last[..eq], NAME_MAX)), CleanToken(Cut(last[eq + 1..], FIELD_MAX)))]
  }

  // Of any text: its pieces between commas, as far as the copy of it goes.
  function Assignments(setText: string): seq<Assignment> {
    Parsed(Tokens(Cut(setText, RECORD_MAX), ','))
  }

  // The value the last assignment to a column gives it, or the one it had.
  function LastValue(assignments: seq<Assignment>, column: string, was: string): string
    decreases |assignments|
  {
    if assignments == [] then was
    else
      var last := assignments[|assignments| - 1];
      if last.column == column then last.value else LastValue(assignments[..|assignments| - 1], column, was)
  }

  // Field i is that of the first column with its name.
  predicate Assignable(columns: seq<string>, i: nat) {
    i < |columns| && ColumnIndex(columns, columns[i]) == i
  }

  lemma {:induction false} TrimShortens(s: string)
    ensures |TrimFront(s)| <= |s|
    decreases |s|
  {
    if s != "" && IsBlank(s[0]) { TrimShortens(s[1..]); }
  }

  lemma {:induction false} TrimBackShortens(s: string)
    ensures |TrimBack(s)| <= |s|
    decreases |s|
  {
    if s != "" && Trimmed(s[|s| - 1]) { TrimBackShortens(s[..|s| - 1]); }
  }

  lemma CleanShortens(s: string)
    ensures |CleanToken(s)| <= |s|
  {
    TrimShortens(s);
    TrimBackShortens(TrimFront(s));
  }

  predicate AllShort(assignments: seq<Assignment>) {
    forall j :: 0 <= j < |assignments| ==> |assignments[j].value| <= FIELD_MAX
  }

  lemma {:induction false} ParsedIsShort(pieces: seq<string>)
    ensures AllShort(Parsed(pieces))
    decreases |pieces|
  {
    if pieces != [] {
      var last := pieces[|pieces| - 1];
      ParsedIsShort(pieces[..|pieces| - 1]);
      var eq := TokenLen(last, '=');
      if eq < |last| { CleanShortens(Cut(last[eq + 1..], FIELD_MAX)); }
    }
  }

  lemma SnocLast(assignments: seq<Assignment>, a: Assignment, column: string, was: string)
    ensures LastValue(assignments + [a], column, was) ==
            if a.column == column then a.value else LastValue(assignments, column, was)
  {
    assert (assignments + [a])[..|assignments|] == assignments;
  }

  lemma ColumnAt(columns: seq<string>, column: string, i: nat)
    ensures ColumnIndex(columns, column) == i < |columns| <==> Assignable(columns, i) && columns[i] == column
  {
  }

  lemma AssignedAt(columns: seq<string>, values: seq<string>, column: string, value: string, i: nat)
    requires i < |values| && |value| <= FIELD_MAX
    ensures Assigned(columns, values, column, value)[i] ==
            if Assignable(columns, i) && columns[i] == column then value else values[i]
  {
    ColumnAt(columns, column, i);
  }

  lemma {:induction false} PiecesSay(columns: seq<string>, values: seq<string>, pieces: seq<string>, i: nat)
    requires i < |values|
    ensures ApplyAll(columns, values, pieces)[i] ==
            if Assignable(columns, i) then LastValue(Parsed(pieces), columns[i], values[i]) else values[i]
    decreases |pieces|
  {
    if pieces != [] {
      var front, last := pieces[..|pieces| - 1], pieces[|pieces| - 1];
      PiecesSay(columns, values, front, i);
      var eq := TokenLen(last, '=');
      if eq < |last| {
        var column, value := CleanToken(Cut(last[..eq], NAME_MAX)), CleanToken(Cut(last[eq + 1..], FIELD_MAX));
        CleanShortens(Cut(last[eq + 1..], FIELD_MAX));
        AssignedAt(columns, ApplyAll(columns, values, front), column, value, i);
        if Assignable(columns, i) {
          SnocLast(Parsed(front), Parsed(pieces)[|Parsed(pieces)| - 1], columns[i], values[i]);
        }
      }
    }
  }

  // For every text and every row: a SET clause gives each column it names its last value there, and
  // leaves the others.
  lemma SetTextSays(columns: seq<string>, values: seq<string>, setText: string, i: nat)
    requires i < |values|
    ensures ApplySet(columns, values, setText)[i] ==
            if Assignable(columns, i) then LastValue(Assignments(setText), columns[i], values[i]) else values[i]
  {
    PiecesSay(columns, values, Tokens(Cut(setText, RECORD_MAX), ','), i);
  }

  // ----- clauses as people write them -----

  predicate Blank(c: char) {
    c == ' ' || c == '\t' || c == '\n' || c == '\r'
  }

  predicate Trimmed(c: char) {
    c == ' ' || c == '\t' || c == '\n' || c == '\r' || c == '\'' || c == ';'
  }

  predicate Blanks(s: string) {
    forall i :: 0 <= i < |s| ==> Blank(s[i])
  }

  // What clean_token takes off the end.
  predicate AllTrimmed(s: string) {
    forall i :: 0 <= i < |s| ==> Trimmed(s[i])
  }

  // An assignment with any blanks around its parts, the value in quotes or not.
  datatype Clause = Clause(a: Assignment, lead: string, left: string, right: string, trail: string, quoted: bool)

  function ValueText(c: Clause): string {
    if c.quoted then "'" + c.a.value + "'" else c.a.value
  }

  function LeftText(c: Clause): string {
    c.lead + c.a.column + c.left
  }

  function RightText(c: Clause): string {
    c.right + ValueText(c) + c.trail
  }

  function ClauseText(c: Clause): string {
    LeftText(c) + "=" + RightText(c)
  }

  function SetText(cs: seq<Clause>): string
    decreases |cs|
  {
    if cs == [] then ""
    else if |cs| == 1 then ClauseText(cs[0])
    else SetText(cs[..|cs| - 1]) + [','] + ClauseText(cs[|cs| - 1])
  }

  predicate PlainName(n: string) {
    n != "" && Free(n, ',') && Free(n, '=') && !Blank(n[0]) && n[0] != '\'' && !Trimmed(n[|n| - 1])
  }

  // Text that clean_token does not mistake for blanks, quotes or a semicolon around it.
  predicate PlainValue(v: string, quoted: bool) {
    Free(v, ',') && (v != "" ==> !Trimmed(v[|v| - 1]) && (quoted || (!Blank(v[0]) && v[0] != '\'')))
  }

  predicate PlainClause(c: Clause) {
    && Blanks(c.lead) && Blanks(c.left) && Blanks(c.right) && Blanks(c.trail)
    && PlainName(c.a.column) && PlainValue(c.a.value, c.quoted)
    && |LeftText(c)| <= 63 && |RightText(c)| <= 127
  }

  lemma {:induction false} TrimFrontBlanks(blanks: string, s: string)
    requires Blanks(blanks)
    ensures TrimFront(blanks + s) == TrimFront(s)
    decreases |blanks|
  {
    if blanks == "" {
      assert blanks + s == s;
    } else {
      assert (blanks + s)[1..] == blanks[1..] + s;
      TrimFrontBlanks(blanks[1..], s);
    }
  }

  lemma {:induction false} TrimBackBlanks(s: string, blanks: string)
    requires AllTrimmed(blanks)
    ensures TrimBack(s + blanks) == TrimBack(s)
    decreases |blanks|
  {
    if blanks == "" {
      assert s + blanks == s;
    } else {
      var n := |blanks| - 1;
      assert (s + blanks)[..|s + blanks| - 1] == s + blanks[..n];
      TrimBackBlanks(s, blanks[..n]);
    }
  }

  lemma {:induction false} BlanksClean(blanks: string)
    requires Blanks(blanks)
    ensures TrimFront(blanks) == ""
    decreases |blanks|
  {
    if blanks != "" { BlanksClean(blanks[1..]); }
  }

  lemma TrimBackStops(s: string, c: char)
    requires !Trimmed(c)
    ensures TrimBack(s + [c]) == s + [c]
  {
  }

  // What is left of any text: it is blanks, perhaps a quote, the text between, and blanks, quotes and
  // semicolons.
  lemma CleanTokenIs(before: string, quoted: bool, text: string, after: string)
    requires Blanks(before) && AllTrimmed(after)
    requires text != "" ==> !Trimmed(text[|text| - 1]) && (quoted || (!Blank(text[0]) && text[0] != '\''))
    ensures CleanToken(before + (if quoted then "'" else "") + text + after) == text
  {
    var core := (if quoted then "'" else "") + text;
    assert before + (if quoted then "'" else "") + text + after == before + (core + after);
    TrimFrontBlanks(before, core + after);
    CoreCleans(quoted, text, after, core);
  }

  lemma CoreCleans(quoted: bool, text: string, after: string, core: string)
    requires AllTrimmed(after) && core == (if quoted then "'" else "") + text
    requires text != "" ==> !Trimmed(text[|text| - 1]) && (quoted || (!Blank(text[0]) && text[0] != '\''))
    ensures CleanToken(core + after) == text
  {
    if text == "" {
      var all := core + after;
      forall i | 0 <= i < |all| ensures Trimmed(all[i]) { assert i >= |core| ==> all[i] == after[i - |core|]; }
      TrimmedAway(all);
    } else {
      assert TrimFront(core + after) == core + after;
      TrimBackBlanks(core, after);
      assert core == core[..|core| - 1] + [text[|text| - 1]];
      TrimBackStops(core[..|core| - 1], text[|text| - 1]);
    }
  }

  lemma {:induction false} TrimmedAway(s: string)
    requires AllTrimmed(s)
    ensures CleanToken(s) == ""
    decreases |s|
  {
    if s == "" {
    } else if Blank(s[0]) {
      TrimmedAway(s[1..]);
    } else {
      assert TrimFront(s) == s;
      assert "" + s == s;
      TrimBackBlanks("", s);
    }
  }

  lemma {:induction false} BlanksBefore(s: string) returns (n: nat)
    ensures n <= |s| && Blanks(s[..n]) && (n < |s| ==> !Blank(s[n]))
    decreases |s|
  {
    if s == "" || !Blank(s[0]) {
      n := 0;
    } else {
      n := BlanksBefore(s[1..]);
      n := n + 1;
      assert forall i :: 0 < i < n ==> s[..n][i] == s[1..][..n - 1][i - 1];
    }
  }

  lemma {:induction false} TrimmedBehind(s: string) returns (n: nat)
    ensures n <= |s| && AllTrimmed(s[n..]) && (n > 0 ==> !Trimmed(s[n - 1]))
    decreases |s|
  {
    if s == "" || !Trimmed(s[|s| - 1]) {
      n := |s|;
    } else {
      var m := |s| - 1;
      n := TrimmedBehind(s[..m]);
      assert s[n..] == s[..m][n..] + [s[m]];
    }
  }

  // Every text is such a text.
  lemma EveryTextIsCleaned(s: string) returns (before: string, quoted: bool, text: string, after: string)
    ensures s == before + (if quoted then "'" else "") + text + after
    ensures Blanks(before) && AllTrimmed(after)
    ensures text != "" ==> !Trimmed(text[|text| - 1]) && (quoted || (!Blank(text[0]) && text[0] != '\''))
  {
    var n := BlanksBefore(s);
    var m := TrimmedBehind(s[n..]);
    before, after := s[..n], s[n + m..];
    quoted := m > 0 && s[n] == '\'';
    text := if quoted then s[n + 1..n + m] else s[n..n + m];
    assert s[n..][m..] == after;
    if m > 0 { assert s[n..][m - 1] == s[n + m - 1]; }
  }

  // Blanks around a text that does not begin with one make no difference to clean_token.
  lemma PaddedCleans(before: string, text: string, after: string)
    requires Blanks(before) && Blanks(after) && (text != "" ==> !Blank(text[0]))
    ensures CleanToken(before + text + after) == CleanToken(text)
  {
    assert before + text + after == before + (text + after);
    TrimFrontBlanks(before, text + after);
    if text == "" {
      assert text + after == after;
      BlanksClean(after);
    } else {
      assert TrimFront(text + after) == text + after && TrimFront(text) == text;
      TrimBackBlanks(text, after);
    }
  }

  lemma QuotedCleans(v: string)
    requires v != "" ==> !Trimmed(v[|v| - 1])
    ensures CleanToken("'" + v + "'") == v
  {
    var q := "'" + v + "'";
    assert TrimFront(q) == q;
    assert q[..|q| - 1] == "'" + v;
    assert TrimBack(q) == TrimBack("'" + v);
    if v == "" {
      assert "'" + v == "'" && "'"[..0] == "";
      assert TrimBack("'") == TrimBack("") == "";
    } else {
      assert "'" + v == "'" + v[..|v| - 1] + [v[|v| - 1]];
      TrimBackStops("'" + v[..|v| - 1], v[|v| - 1]);
    }
  }

  lemma BareCleans(v: string)
    requires v != "" ==> !Blank(v[0]) && v[0] != '\'' && !Trimmed(v[|v| - 1])
    ensures CleanToken(v) == v
  {
    if v != "" {
      assert v == v[..|v| - 1] + [v[|v| - 1]];
      TrimBackStops(v[..|v| - 1], v[|v| - 1]);
    }
  }

  lemma PartsClean(c: Clause)
    requires PlainClause(c)
    ensures CleanToken(LeftText(c)) == c.a.column && CleanToken(RightText(c)) == c.a.value
  {
    PaddedCleans(c.lead, c.a.column, c.left);
    BareCleans(c.a.column);
    PaddedCleans(c.right, ValueText(c), c.trail);
    if c.quoted { QuotedCleans(c.a.value); } else { BareCleans(c.a.value); }
  }

  lemma ClauseSplits(c: Clause)
    requires PlainClause(c)
    ensures var s, eq := ClauseText(c), |LeftText(c)|;
      && TokenLen(s, '=') == eq < |s| && s[..eq] == LeftText(c) && s[eq + 1..] == RightText(c)
      && s != "" && Free(s, ',')
  {
    assert Free(LeftText(c), '=') && Free(LeftText(c), ',');
    assert Free(RightText(c), ',');
    Halves(LeftText(c), RightText(c));
  }

  lemma Halves(left: string, right: string)
    requires Free(left, '=')
    ensures var s := left + "=" + right;
      TokenLen(s, '=') == |left| < |s| && s[..|left|] == left && s[|left| + 1..] == right
  {
    var s := left + "=" + right;
    assert s[..|left|] == left && s[|left|] == '=';
    TokenLenIs(s, '=', |left|);
  }

  lemma ParsedSnoc(pieces: seq<string>, c: Clause)
    requires PlainClause(c)
    ensures Parsed(pieces + [ClauseText(c)]) == Parsed(pieces) + [c.a]
  {
    assert (pieces + [ClauseText(c)])[..|pieces|] == pieces;
    ClauseSplits(c);
    PartsClean(c);
  }

  function Said(cs: seq<Clause>): (r: seq<Assignment>)
    ensures |r| == |cs| && forall i :: 0 <= i < |cs| ==> r[i] == cs[i].a
    decreases |cs|
  {
    if cs == [] then [] else Said(cs[..|cs| - 1]) + [cs[|cs| - 1].a]
  }

  lemma LastPiece(text: string, piece: string)
    requires piece != "" && Free(piece, ',')
    ensures Tokens(text + [','] + piece, ',') == Tokens(text, ',') + [piece]
  {
    TokensOfField(piece, ',');
    TokensConcat(text, ',', piece);
  }

  lemma {:induction false} ClausesParse(cs: seq<Clause>)
    requires forall i :: 0 <= i < |cs| ==> PlainClause(cs[i])
    ensures Parsed(Tokens(SetText(cs), ',')) == Said(cs)
    decreases |cs|
  {
    if cs != [] {
      var front, last := cs[..|cs| - 1], cs[|cs| - 1];
      ClauseSplits(last);
      ClausesParse(front);
      ParsedSnoc(Tokens(SetText(front), ','), last);
      SetTextTokens(cs, SetText(front), ClauseText(last));
    }
  }

  lemma SetTextTokens(cs: seq<Clause>, text: string, piece: string)
    requires cs != [] && text == SetText(cs[..|cs| - 1]) && piece == ClauseText(cs[|cs| - 1]) && piece != "" && Free(piece, ',')
    ensures Tokens(SetText(cs), ',') == Tokens(text, ',') + [piece]
  {
    if |cs| == 1 { TokensOfField(piece, ','); } else { LastPiece(text, piece); }
  }

  // A clause written with or without quotes and blanks says the assignments it was written for.
  lemma WrittenClausesSay(cs: seq<Clause>)
    requires |SetText(cs)| <= 511 && forall i :: 0 <= i < |cs| ==> PlainClause(cs[i])
    ensures Assignments(SetText(cs)) == Said(cs)
  {
    ClausesParse(cs);
  }

  lemma OneClause(c: Clause, columns: seq<string>, values: seq<string>)
    requires PlainClause(c)
    ensures ApplyOne(columns, values, ClauseText(c)) == Assigned(columns, values, c.a.column, c.a.value)
  {
    ClauseSplits(c);
    PartsClean(c);
  }

  // So does this one.
  lemma BobIsSet(values: seq<string>)
    requires |values| >= 2
    ensures ApplyOne(["id", "name"], values, "name = 'bob'") == values[1 := "bob"]
  {
    var c := Clause(Assignment("name", "bob"), "", " ", " ", "", true);
    assert ValueText(c) == "'bob'" && LeftText(c) == "name " && RightText(c) == " 'bob'";
    assert ClauseText(c) == "name = 'bob'";
    OneClause(c, ["id", "name"], values);
    assert ColumnIndex(["id", "name"], "name") == 1;
  }

  // Of a SET clause 511 characters count, of the two sides of an assignment 63 and 127.
  lemma LongTexts(columns: seq<string>, values: seq<string>, setText: string, left: string, right: string)
    requires Free(left, '=')
    ensures |setText| > 511 ==> ApplySet(columns, values, setText) == ApplySet(columns, values, setText[..511])
    ensures |left| > 63 ==> ApplyOne(columns, values, left + "=" + right) == ApplyOne(columns, values, left[..63] + "=" + right)
    ensures |right| > 127 ==> ApplyOne(columns, values, left + "=" + right) == ApplyOne(columns, values, left + "=" + right[..127])
  {
    Halves(left, right);
    if |left| > 63 { Halves(left[..63], right); }
    if |right| > 127 { Halves(left, right[..127]); }
  }

  // ----- the row an UPDATE writes -----

  function Changed(columns: seq<string>, fields: seq<string>, assignments: seq<Assignment>): (r: seq<string>)
    requires |columns| == |fields|
    ensures |r| == |fields|
  {
    seq(|fields|, i requires 0 <= i < |fields| =>
      if Assignable(columns, i) then LastValue(assignments, columns[i], fields[i]) else fields[i])
  }

  lemma {:induction false} LastValueFits(assignments: seq<Assignment>, column: string, was: string)
    requires AllShort(assignments)
    ensures |LastValue(assignments, column, was)| <= FIELD_MAX || LastValue(assignments, column, was) == was
    decreases |assignments|
  {
    if assignments != [] { LastValueFits(assignments[..|assignments| - 1], column, was); }
  }

  // An UPDATE of a recoverable row, with any text, writes exactly the row with the named columns
  // changed, and that row can be taken apart again exactly when the changed fields are recoverable.
  lemma UpdateChangesExactly(columns: seq<string>, fields: seq<string>, setText: string)
    requires |columns| == |fields| && Fits(fields) && Recoverable(fields)
    ensures var changed := Changed(columns, fields, Assignments(setText));
      && NewFields(columns, setText, Stored(fields)) == Pad(changed)
      && Cut(NewRow(columns, setText, Stored(fields)), STORED_MAX) == Stored(changed)
      && (Split(Stored(changed)) == Pad(changed) <==> Recoverable(changed))
  {
    var changed := Changed(columns, fields, Assignments(setText));
    SplitUndoesBuildExactly(fields);
    forall i | 0 <= i < MAX_COLUMNS
      ensures NewFields(columns, setText, Stored(fields))[i] == Pad(changed)[i]
    {
      SetTextSays(columns, Pad(fields), setText, i);
    }
    ParsedIsShort(Tokens(Cut(setText, RECORD_MAX), ','));
    forall i | 0 <= i < |changed| ensures |changed[i]| <= FIELD_MAX {
      LastValueFits(Assignments(setText), columns[i], fields[i]);
    }
    SplitUndoesBuildExactly(changed);
  }

  // Empty fields are squeezed out: the later ones move to the left.
  lemma SplitPacks(fields: seq<string>)
    requires Fits(fields) && AllFree(fields, '|') && |RowCodec.Join(fields)| <= STORED_MAX
    ensures Split(Stored(fields)) == Pad(NonEmpty(fields))
  {
    StoredIs(fields);
    TokensOfJoin(fields);
    NonEmptyFits(fields);
    forall i | 0 <= i < MAX_COLUMNS ensures Split(Stored(fields))[i] == Pad(NonEmpty(fields))[i] { SplitShort(Stored(fields), i); }
  }

  lemma {:induction false} NonEmptyFits(fields: seq<string>)
    requires Fits(fields)
    ensures Fits(NonEmpty(fields))
    decreases |fields|
  {
    if fields != [] { NonEmptyFits(fields[..|fields| - 1]); }
  }

  // So an UPDATE that empties the first of two columns leaves the second in its place.
  lemma EmptiedColumn()
    ensures !Recoverable(["", "x"]) && Split(Stored(["", "x"])) == Pad(["x"])
  {
    var fields := ["", "x"];
    assert fields[..1] == [""] && [""][..0] == [];
    assert RowCodec.Join(fields) == "|x";
    assert NonEmpty(fields) == ["x"];
    SplitPacks(fields);
    assert fields[1] != "" && fields[0] == "";
  }
}
