// The loops of query/executor.c over the text of a row, each against its function in RowCodec.
module RowText {
  import opened RowCodec

  method SkipOver(s: string, d: char) returns (r: string)
    ensures r == SkipDelims(s, d)
  {
    r := s;
    while r != "" && r[0] == d
      invariant SkipDelims(r, d) == SkipDelims(s, d)
      decreases |r|
    {
      r := r[1..];
    }
  }

  // strchr; the length of the text for NULL.
  method FindChar(text: string, c: char) returns (i: nat)
    ensures i == TokenLen(text, c)
  {
    i := 0;
    while i < |text| && text[i] != c
      invariant i <= |text| && TokenLen(text, c) == i + TokenLen(text[i..], c)
    {
      assert text[i..][1..] == text[i + 1..];
      i := i + 1;
    }
  }

  // One call of strtok: the next token and what is left, or nothing when only delimiters are left.
  method NextToken(s: string, d: char) returns (found: bool, token: string, rest: string)
    ensures found <==> Tokens(s, d) != []
    ensures found ==> token == Tokens(s, d)[0] && Tokens(rest, d) == Tokens(s, d)[1..]
  {
    var r := SkipOver(s, d);
    if r == "" { return false, "", ""; }
    var n := FindChar(r, d);
    return true, r[..n], r[n..];
  }

  method Clear(values: array<string>)
    modifies values
    ensures forall j :: 0 <= j < values.Length ==> values[j] == ""
  {
    for i := 0 to values.Length
      invariant forall j :: 0 <= j < i ==> values[j] == ""
    {
      values[i] := "";
    }
  }

  lemma RestIs(all: seq<string>, i: nat)
    requires i <= |all|
    ensures all[i..] != [] <==> i < |all|
    ensures i < |all| ==> all[i..][0] == all[i] && all[i..][1..] == all[i + 1..]
  {
  }

  // split_record_values.
  method SplitRecordValues(record: string, values: array<string>)
    requires values.Length == MAX_COLUMNS
    modifies values
    ensures values[..] == Split(record)
  {
    Clear(values);
    var copy := Cut(record, RECORD_MAX);
    ghost var all := Tokens(copy, '|');
    var found, token, rest := NextToken(copy, '|');
    var i := 0;
    while found && i < MAX_COLUMNS
      invariant 0 <= i <= MAX_COLUMNS && i <= |all|
      invariant found <==> i < |all|
      invariant found ==> token == all[i] && Tokens(rest, '|') == all[i + 1..]
      invariant forall j :: 0 <= j < MAX_COLUMNS ==> values[j] == if j < i then Cut(all[j], FIELD_MAX) else ""
    {
      values[i] := Cut(token, FIELD_MAX);
      found, token, rest := NextToken(rest, '|');
      RestIs(all, i + 1);
      i := i + 1;
    }
  }

  // strncat into a buffer with room for n characters in all.
  function Appended(out: string, s: string, n: nat): string
    requires |out| <= n
  {
    out + Cut(s, n - |out|)
  }

  lemma AppendedIsCut(out: string, s: string, n: nat)
    ensures |Cut(out, n)| <= n && Appended(Cut(out, n), s, n) == Cut(out + s, n)
  {
  }

  // build_record_string.
  method BuildRecordString(columns: nat, values: array<string>) returns (out: string)
    requires columns <= values.Length == MAX_COLUMNS
    ensures out == Build(values[..], columns)
  {
    out := "";
    for i := 0 to columns
      invariant out == Cut(Join(values[..i]), RECORD_MAX)
    {
      assert values[..i + 1][..i] == values[..i];
      if i > 0 {
        AppendedIsCut(Join(values[..i]), "|", RECORD_MAX);
        out := Appended(out, "|", RECORD_MAX);
        AppendedIsCut(Join(values[..i]) + "|", values[i], RECORD_MAX);
      }
      out := Appended(out, values[i], RECORD_MAX);
    }
    assert values[..][..columns] == values[..columns];
  }

  // clean_token.
  method CleanText(text: string) returns (s: string)
    ensures s == CleanToken(text)
  {
    s := text;
    while s != "" && IsBlank(s[0])
      invariant TrimFront(s) == TrimFront(text)
      decreases |s|
    {
      s := s[1..];
    }
    var len := |s|;
    assert s[..len] == s;
    while len > 0 && (IsBlank(s[len - 1]) || s[len - 1] == '\'' || s[len - 1] == ';')
      invariant 0 <= len <= |s| && TrimBack(s[..len]) == TrimBack(s)
    {
      assert s[..len][..len - 1] == s[..len - 1];
      len := len - 1;
    }
    s := s[..len];
    if s != "" && s[0] == '\'' {
      s := s[1..];
    }
  }

  // get_column_index; -1 for none.
  method GetColumnIndex(columns: seq<string>, name: string) returns (i: int)
    ensures i == if ColumnIndex(columns, name) < |columns| then ColumnIndex(columns, name) else -1
  {
    for k := 0 to |columns|
      invariant name !in columns[..k]
    {
      if columns[k] == name {
        assert columns[ColumnIndex(columns, name)] == name;
        return k;
      }
    }
    return -1;
  }

  // One turn of apply_set_values.
  method ApplyAssignment(columns: seq<string>, values: array<string>, assignment: string)
    requires |columns| <= values.Length == MAX_COLUMNS
    modifies values
    ensures values[..] == ApplyOne(columns, old(values[..]), assignment)
  {
    var eq := FindChar(assignment, '=');
    if eq < |assignment| {
      var column := CleanText(Cut(assignment[..eq], NAME_MAX));
      var value := CleanText(Cut(assignment[eq + 1..], FIELD_MAX));
      var index := GetColumnIndex(columns, column);
      if index >= 0 {
        values[index] := Cut(value, FIELD_MAX);
      }
    }
  }

  lemma ApplyNext(columns: seq<string>, values: seq<string>, all: seq<string>, k: nat)
    requires k < |all|
    ensures ApplyAll(columns, values, all[..k + 1]) == ApplyOne(columns, ApplyAll(columns, values, all[..k]), all[k])
  {
    assert all[..k + 1][..k] == all[..k];
  }

  // apply_set_values.
  method ApplySetValues(columns: seq<string>, values: array<string>, setText: string)
    requires |columns| <= values.Length == MAX_COLUMNS
    modifies values
    ensures values[..] == ApplySet(columns, old(values[..]), setText)
  {
    var copy := Cut(setText, RECORD_MAX);
    ghost var was, all, k := values[..], Tokens(copy, ','), 0;
    var found, assignment, rest := NextToken(copy, ',');
    while found
      invariant 0 <= k <= |all| && (found <==> k < |all|)
      invariant found ==> assignment == all[k] && Tokens(rest, ',') == all[k + 1..]
      invariant values[..] == ApplyAll(columns, was, all[..k])
      decreases |all| - k
    {
      ApplyAssignment(columns, values, assignment);
      ApplyNext(columns, was, all, k);
      found, assignment, rest := NextToken(rest, ',');
      RestIs(all, k + 1);
      k := k + 1;
    }
    assert all[..k] == all;
  }
}
