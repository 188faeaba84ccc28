// The textual rows of query/executor.c: fields separated by '|', taken apart with strtok and put
// together with strncat, and the SET clause applied in between.  C strings are sequences without
// their terminator.
module RowCodec {

  const MAX_COLUMNS := 16
  const FIELD_MAX := 127        // char values[MAX_COLUMNS][128]
  const RECORD_MAX := 511       // char new_record[512]
  const STORED_MAX := 239       // char value[MVCC_RECORD_VALUE_SIZE]
  const NAME_MAX := 63          // char column[64]

  // strncpy into a buffer with room for n characters.
  function Cut(s: string, n: nat): string {
    if |s| <= n then s else s[..n]
  }

  // ----- atoi -----

  predicate IsSpace(c: char) {
    c == ' ' || '\t' <= c <= '\r'
  }

  predicate IsDigit(c: char) {
    '0' <= c <= '9'
  }

  function Digits(s: string, acc: int): int
    decreases |s|
  {
    if s == "" || !IsDigit(s[0]) then acc else Digits(s[1..], acc * 10 + (s[0] as int - '0' as int))
  }

  function Atoi(s: string): int
    decreases |s|
  {
    if s == "" then 0
    else if IsSpace(s[0]) then Atoi(s[1..])
    else if s[0] == '-' then -Digits(s[1..], 0)
    else if s[0] == '+' then Digits(s[1..], 0)
    else Digits(s, 0)
  }

  // ----- strtok -----

  function SkipDelims(s: string, d: char): (r: string)
    ensures |r| <= |s| && (r != "" ==> r[0] != d)
    decreases |s|
  {
    if s != "" && s[0] == d then SkipDelims(s[1..], d) else s
  }

  function TokenLen(s: string, d: char): (n: nat)
    ensures n <= |s|
    ensures d !in s[..n] && (n < |s| ==> s[n] == d)
    decreases |s|
  {
    if s == "" || s[0] == d then 0
    else
      var n := TokenLen(s[1..], d);
      assert s[..n + 1] == [s[0]] + s[1..][..n];
      n + 1
  }

  // The tokens of repeated calls of strtok.
  function Tokens(s: string, d: char): seq<string>
    decreases |s|
  {
    var r := SkipDelims(s, d);
    if r == "" then [] else
      var n := TokenLen(r, d);
      assert n > 0;
      [r[..n]] + Tokens(r[n..], d)
  }

  // ----- split_record_values and build_record_string -----

  // Field i of a record: the i-th token, cut to the field size, or nothing.
  function Field(tokens: seq<string>, i: nat): string {
    if i < |tokens| then Cut(tokens[i], FIELD_MAX) else ""
  }

  function Split(record: string): (values: seq<string>)
    ensures |values| == MAX_COLUMNS
  {
    var tokens := Tokens(Cut(record, RECORD_MAX), '|');
    seq(MAX_COLUMNS, i requires 0 <= i => Field(tokens, i))
  }

  function Join(fields: seq<string>): string
    decreases |fields|
  {
    if fields == [] then ""
    else if |fields| == 1 then fields[0]
    else Join(fields[..|fields| - 1]) + "|" + fields[|fields| - 1]
  }

  function Build(values: seq<string>, columns: nat): string {
    Cut(Join(if columns <= |values| then values[..columns] else values), RECORD_MAX)
  }

  // ----- apply_set_values -----

  predicate IsBlank(c: char) {
    c == ' ' || c == '\t' || c == '\n' || c == '\r'
  }

  function TrimFront(s: string): string
    decreases |s|
  {
    if s != "" && IsBlank(s[0]) then TrimFront(s[1..]) else s
  }

  function TrimBack(s: string): string
    decreases |s|
  {
    if s != "" && (IsBlank(s[|s| - 1]) || s[|s| - 1] == '\'' || s[|s| - 1] == ';') then TrimBack(s[..|s| - 1]) else s
  }

  function CleanToken(s: string): string {
    var t := TrimBack(TrimFront(s));
    if t != "" && t[0] == '\'' then t[1..] else t
  }

  // get_column_index; |columns| when there is none.
  function ColumnIndex(columns: seq<string>, name: string): (i: nat)
    ensures i <= |columns| && (i < |columns| ==> columns[i] == name) && name !in columns[..i]
    ensures i == |columns| ==> name !in columns
    decreases |columns|
  {
    if columns == [] || columns[0] == name then 0 else 1 + ColumnIndex(columns[1..], name)
  }

  function Assigned(columns: seq<string>, values: seq<string>, column: string, value: string): (r: seq<string>)
    ensures |r| == |values|
  {
    var i := ColumnIndex(columns, column);
    if i < |columns| && i < |values| then values[i := Cut(value, FIELD_MAX)] else values
  }

  // One assignment "column = value"; text without '=' is ignored.
  function ApplyOne(columns: seq<string>, values: seq<string>, assignment: string): (r: seq<string>)
    ensures |r| == |values|
  {
    var eq := TokenLen(assignment, '=');
    if eq == |assignment| then values
    else Assigned(columns, values, CleanToken(Cut(assignment[..eq], NAME_MAX)), CleanToken(Cut(assignment[eq + 1..], FIELD_MAX)))
  }

  function ApplyAll(columns: seq<string>, values: seq<string>, assignments: seq<string>): (r: seq<string>)
    ensures |r| == |values|
    decreases |assignments|
  {
    if assignments == [] then values
    else ApplyOne(columns, ApplyAll(columns, values, assignments[..|assignments| - 1]), assignments[|assignments| - 1])
  }

  function ApplySet(columns: seq<string>, values: seq<string>, setText: string): (r: seq<string>)
    ensures |r| == |values|
  {
    ApplyAll(columns, values, Tokens(Cut(setText, RECORD_MAX), ','))
  }
}
