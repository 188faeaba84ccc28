// When the text of a row says what its fields are: the round trip through build_record_string, the
// page and split_record_values, and what an UPDATE makes of it.
module RowProperties {
  import opened RowCodec

  // ----- tokens -----

  predicate Free(s: string, d: char) {
    d !in s
  }

  predicate OnlyBars(s: string) {
    forall i :: 0 <= i < |s| ==> s[i] == '|'
  }

  lemma TokenLenIs(s: string, d: char, n: nat)
    requires n <= |s| && Free(s[..n], d) && (n < |s| ==> s[n] == d)
    ensures TokenLen(s, d) == n
  {
    var m := TokenLen(s, d);
    assert forall k :: 0 <= k < n ==> s[k] == s[..n][k];
    assert forall k :: 0 <= k < m ==> s[k] == s[..m][k];
  }

  // A delimiter separates: the tokens of the parts are the tokens of the whole.
  lemma {:induction false} TokensConcat(a: string, d: char, b: string)
    ensures Tokens(a + [d] + b, d) == Tokens(a, d) + Tokens(b, d)
    decreases |a|
  {
    var s := a + [d] + b;
    if a == "" {
      assert s[1..] == b;
      assert SkipDelims(s, d) == SkipDelims(b, d);
    } else if a[0] == d {
      assert s[1..] == a[1..] + [d] + b;
      TokensConcat(a[1..], d, b);
    } else {
      var n := TokenLen(a, d);
      assert s[..n] == a[..n] && s[n..] == a[n..] + [d] + b;
      TokenLenIs(s, d, n);
      TokensConcat(a[n..], d, b);
    }
  }

  lemma TokensOfField(f: string, d: char)
    requires Free(f, d)
    ensures Tokens(f, d) == if f == "" then [] else [f]
  {
    if f != "" {
      TokenLenIs(f, d, |f|);
      assert f[..|f|] == f && f[|f|..] == "";
    }
  }

  lemma {:induction false} TokensOfBars(s: string)
    requires OnlyBars(s)
    ensures Tokens(s, '|') == []
  {
    if s != "" { TokensOfBars(s[1..]); }
  }

  lemma TrailingBars(s: string, bars: string)
    requires OnlyBars(bars)
    ensures Tokens(s + bars, '|') == Tokens(s, '|')
  {
    if bars == "" { assert s + bars == s; }
    else {
      assert s + bars == s + "|" + bars[1..];
      TokensConcat(s, '|', bars[1..]);
      TokensOfBars(bars[1..]);
    }
  }

  // No token holds a delimiter, or is empty.
  lemma {:induction false} TokensAreClean(s: string, d: char)
    ensures forall i :: 0 <= i < |Tokens(s, d)| ==> Tokens(s, d)[i] != "" && Free(Tokens(s, d)[i], d)
    decreases |s|
  {
    var r := SkipDelims(s, d);
    if r != "" {
      var n := TokenLen(r, d);
      assert n > 0;
      TokensAreClean(r[n..], d);
    }
  }

  // ----- joined fields -----

  predicate AllFree(fields: seq<string>, d: char) {
    forall i :: 0 <= i < |fields| ==> Free(fields[i], d)
  }

  function NonEmpty(fields: seq<string>): (r: seq<string>)
    ensures |r| <= |fields| && forall i :: 0 <= i < |r| ==> r[i] != ""
    decreases |fields|
  {
    if fields == [] then []
    else NonEmpty(fields[..|fields| - 1]) + (if fields[|fields| - 1] == "" then [] else [fields[|fields| - 1]])
  }

  // Splitting a joined row loses the empty fields and nothing else.
  lemma {:induction false} TokensOfJoin(fields: seq<string>)
    requires AllFree(fields, '|')
    ensures Tokens(Join(fields), '|') == NonEmpty(fields)
    decreases |fields|
  {
    if fields != [] {
      var front, last := fields[..|fields| - 1], fields[|fields| - 1];
      TokensOfField(last, '|');
      if |fields| > 1 {
        TokensOfJoin(front);
        TokensConcat(Join(front), '|', last);
      }
    }
  }

  // No empty field comes before one that is not.
  predicate Packed(fields: seq<string>) {
    forall i, j :: 0 <= i < j < |fields| && fields[j] != "" ==> fields[i] != ""
  }

  lemma {:induction false} PackedFields(fields: seq<string>)
    requires Packed(fields)
    ensures var n := |NonEmpty(fields)|;
      NonEmpty(fields) == fields[..n] && forall i :: n <= i < |fields| ==> fields[i] == ""
    decreases |fields|
  {
    if fields != [] {
      var front := fields[..|fields| - 1];
      assert Packed(front);
      PackedFields(front);
      var n := |NonEmpty(front)|;
      if fields[|fields| - 1] != "" {
        assert forall i :: 0 <= i < |front| ==> front[i] != "";
        assert fields == front + [fields[|fields| - 1]];
      }
    }
  }

  // A packed row is the row of its non-empty fields, followed by bars.
  lemma OneMoreBar(x: string, row: string)
    requires x <= row && OnlyBars(row[|x|..])
    ensures x <= row + "|" && OnlyBars((row + "|")[|x|..])
  {
    assert (row + "|")[|x|..] == row[|x|..] + "|";
  }

  lemma {:induction false} PackedJoin(fields: seq<string>)
    requires Packed(fields)
    ensures Join(NonEmpty(fields)) <= Join(fields) && OnlyBars(Join(fields)[|Join(NonEmpty(fields))|..])
    decreases |fields|
  {
    if fields != [] {
      var front, last := fields[..|fields| - 1], fields[|fields| - 1];
      assert Packed(front);
      if last == "" {
        PackedJoin(front);
        assert NonEmpty(fields) == NonEmpty(front);
        if |fields| > 1 {
          assert Join(fields) == Join(front) + "|";
          OneMoreBar(Join(NonEmpty(front)), Join(front));
        }
      } else {
        PackedFields(fields);
        assert NonEmpty(fields) == fields;
      }
    }
  }

  // ----- counting what is not a bar -----

  function Letters(s: string): nat {
    if s == "" then 0 else (if s[0] == '|' then 0 else 1) + Letters(s[1..])
  }

  lemma {:induction false} LettersConcat(a: string, b: string)
    ensures Letters(a + b) == Letters(a) + Letters(b)
  {
    if a == "" { assert a + b == b; }
    else {
      assert (a + b)[1..] == a[1..] + b;
      LettersConcat(a[1..], b);
    }
  }

  lemma {:induction false} LettersMeaning(s: string)
    ensures Letters(s) <= |s|
    ensures Letters(s) == 0 <==> OnlyBars(s)
    ensures Letters(s) == |s| <==> Free(s, '|')
  {
    if s != "" {
      LettersMeaning(s[1..]);
      assert s == [s[0]] + s[1..];
    }
  }

  function Total(fields: seq<string>): nat
    decreases |fields|
  {
    if fields == [] then 0 else Total(fields[..|fields| - 1]) + |fields[|fields| - 1]|
  }

  lemma {:induction false} TotalConcat(a: seq<string>, b: seq<string>)
    ensures Total(a + b) == Total(a) + Total(b)
    decreases |b|
  {
    if b == [] { assert a + b == a; }
    else {
      assert (a + b)[..|a + b| - 1] == a + b[..|b| - 1];
      TotalConcat(a, b[..|b| - 1]);
    }
  }

  lemma {:induction false} TotalOfTokens(s: string)
    ensures Total(Tokens(s, '|')) == Letters(s)
    decreases |s|
  {
    if s != "" {
      if s[0] == '|' {
        TotalOfTokens(s[1..]);
      } else {
        var n := TokenLen(s, '|');
        TotalOfTokens(s[n..]);
        TotalConcat([s[..n]], Tokens(s[n..], '|'));
        assert [s[..n]][..0] == [];
        LettersMeaning(s[..n]);
        LettersConcat(s[..n], s[n..]);
        assert s == s[..n] + s[n..];
      }
    }
  }

  lemma {:induction false} TotalOfJoin(fields: seq<string>)
    requires AllFree(fields, '|')
    ensures Letters(Join(fields)) == Total(fields)
    decreases |fields|
  {
    if fields != [] {
      var front, last := fields[..|fields| - 1], fields[|fields| - 1];
      LettersMeaning(last);
      if |fields| > 1 {
        TotalOfJoin(front);
        LettersConcat(Join(front) + "|", last);
        LettersConcat(Join(front), "|");
      }
    }
  }

  // ----- the round trip -----

  // values[MAX_COLUMNS], with the fields in the first places.
  function Pad(fields: seq<string>): (r: seq<string>)
    requires |fields| <= MAX_COLUMNS
    ensures |r| == MAX_COLUMNS
  {
    fields + seq(MAX_COLUMNS - |fields|, _ => "")
  }

  predicate Fits(fields: seq<string>) {
    |fields| <= 16 && forall i :: 0 <= i < |fields| ==> |fields[i]| <= 127
  }

  // What a page keeps of a row.
  function Stored(fields: seq<string>): string
    requires |fields| <= MAX_COLUMNS
  {
    Cut(Build(Pad(fields), |fields|), STORED_MAX)
  }

  lemma PadKeeps(fields: seq<string>, n: nat)
    requires |fields| <= MAX_COLUMNS && n == |fields|
    ensures Pad(fields)[..n] == fields
  {
  }

  lemma CutTwice(s: string, m: nat, n: nat)
    requires n <= m
    ensures Cut(Cut(s, m), n) == Cut(s, n)
  {
  }

  lemma StoredIs(fields: seq<string>)
    requires |fields| <= MAX_COLUMNS
    ensures Stored(fields) == Cut(Join(fields), STORED_MAX)
  {
    PadKeeps(fields, |fields|);
    CutTwice(Join(fields), RECORD_MAX, STORED_MAX);
  }

  predicate Recoverable(fields: seq<string>) {
    AllFree(fields, '|') && Packed(fields) && |Join(NonEmpty(fields))| <= 239
  }

  lemma SplitShort(record: string, i: nat)
    requires |record| <= STORED_MAX && i < MAX_COLUMNS
    ensures Split(record)[i] == Field(Tokens(record, '|'), i)
  {
    assert Cut(record, RECORD_MAX) == record;
  }

  lemma TokensOfCore(row: string, core: string, n: nat)
    requires core <= row && OnlyBars(row[|core|..]) && |core| <= n <= |row|
    ensures Tokens(row[..n], '|') == Tokens(core, '|')
  {
    var bars := row[|core|..n];
    assert forall i :: 0 <= i < |bars| ==> bars[i] == row[|core|..][i];
    TrailingBars(core, bars);
    assert row[..n] == core + bars;
  }

  // What is kept of a recoverable row has its non-empty fields as tokens.
  lemma RecoverableTokens(fields: seq<string>)
    requires |fields| <= MAX_COLUMNS && Recoverable(fields)
    ensures Tokens(Stored(fields), '|') == NonEmpty(fields)
  {
    var row, some := Join(fields), NonEmpty(fields);
    StoredIs(fields);
    PackedJoin(fields);
    TokensOfCore(row, Join(some), |Stored(fields)|);
    assert row[..|Stored(fields)|] == Stored(fields);
    PackedFields(fields);
    TokensOfJoin(some);
    AllNonEmpty(some);
  }

  lemma RecoverableSplits(fields: seq<string>)
    requires Fits(fields) && Recoverable(fields)
    ensures Split(Stored(fields)) == Pad(fields)
  {
    StoredIs(fields);
    RecoverableTokens(fields);
    PackedFields(fields);
    forall i | 0 <= i < MAX_COLUMNS ensures Split(Stored(fields))[i] == Pad(fields)[i] { SplitShort(Stored(fields), i); }
  }

  lemma {:induction false} AllNonEmpty(fields: seq<string>)
    requires forall i :: 0 <= i < |fields| ==> fields[i] != ""
    ensures NonEmpty(fields) == fields
    decreases |fields|
  {
    if fields != [] {
      AllNonEmpty(fields[..|fields| - 1]);
      assert fields == fields[..|fields| - 1] + [fields[|fields| - 1]];
    }
  }

  // What does not survive the cut was only bars.
  lemma {:induction false} TotalOfFields(tokens: seq<string>, n: nat)
    ensures Total(seq(n, i requires 0 <= i => Field(tokens, i))) <= Total(if n <= |tokens| then tokens[..n] else tokens)
  {
    if n > 0 {
      var s := seq(n, i requires 0 <= i => Field(tokens, i));
      assert s[..n - 1] == seq(n - 1, i requires 0 <= i => Field(tokens, i));
      TotalOfFields(tokens, n - 1);
      if n <= |tokens| { assert tokens[..n][..n - 1] == tokens[..n - 1]; }
      else { assert tokens[..|tokens|] == tokens; }
    }
  }

  lemma TotalOfPrefix(s: seq<string>, n: nat)
    requires n <= |s|
    ensures Total(s[..n]) <= Total(s)
  {
    TotalConcat(s[..n], s[n..]);
    assert s == s[..n] + s[n..];
  }

  lemma TotalOfSplit(record: string)
    requires |record| <= STORED_MAX
    ensures Total(Split(record)) <= Letters(record)
  {
    var tokens := Tokens(record, '|');
    assert Cut(record, RECORD_MAX) == record;
    assert Split(record) == seq(MAX_COLUMNS, i requires 0 <= i => Field(tokens, i));
    TotalOfFields(tokens, MAX_COLUMNS);
    if MAX_COLUMNS <= |tokens| { TotalOfPrefix(tokens, MAX_COLUMNS); }
    TotalOfTokens(record);
  }

  lemma {:induction false} TotalOfBlanks(n: nat)
    ensures Total(seq(n, _ => "")) == 0
  {
    if n > 0 {
      assert seq(n, _ => "")[..n - 1] == seq(n - 1, _ => "");
      TotalOfBlanks(n - 1);
    }
  }

  lemma SplitIsBarFree(record: string)
    ensures AllFree(Split(record), '|')
  {
    TokensAreClean(Cut(record, RECORD_MAX), '|');
  }

  lemma CutLosesOnlyBars(fields: seq<string>)
    requires Fits(fields) && AllFree(fields, '|') && Split(Stored(fields)) == Pad(fields)
    ensures var row := Join(fields); OnlyBars(row[|Stored(fields)|..]) && Tokens(Stored(fields), '|') == NonEmpty(fields)
  {
    var x, row := Stored(fields), Join(fields);
    StoredIs(fields);
    TotalOfSplit(x);
    TotalConcat(fields, seq(MAX_COLUMNS - |fields|, _ => ""));
    TotalOfBlanks(MAX_COLUMNS - |fields|);
    TotalOfJoin(fields);
    assert row == x + row[|x|..];
    LettersConcat(x, row[|x|..]);
    LettersMeaning(row[|x|..]);
    TrailingBars(x, row[|x|..]);
    TokensOfJoin(fields);
  }

  // The last character of a row of non-empty fields is no bar.
  lemma LastLetter(fields: seq<string>)
    requires fields != [] && AllFree(fields, '|') && fields[|fields| - 1] != ""
    ensures var row := Join(fields); row != "" && row[|row| - 1] != '|'
  {
    var last, row := fields[|fields| - 1], Join(fields);
    assert row[|row| - 1] == last[|last| - 1];
  }

  lemma NoBarAfter(row: string, n: nat, core: string)
    requires n <= |row| && OnlyBars(row[n..]) && core <= row && core != "" && core[|core| - 1] != '|'
    ensures |core| <= n
  {
    assert forall k :: n <= k < |row| ==> row[k] == row[n..][k - n];
  }

  lemma SplitRecovers(fields: seq<string>)
    requires Fits(fields) && Split(Stored(fields)) == Pad(fields)
    ensures Recoverable(fields)
  {
    var x, row, some := Stored(fields), Join(fields), NonEmpty(fields);
    SplitIsBarFree(x);
    assert forall i :: 0 <= i < |fields| ==> fields[i] == Split(x)[i];
    CutLosesOnlyBars(fields);
    StoredIs(fields);
    forall i | 0 <= i < |fields| ensures (fields[i] != "" <==> i < |some|) { SplitShort(x, i); }
    PackedJoin(fields);
    PackedFields(fields);
    if some != [] {
      LastLetter(some);
      NoBarAfter(row, |x|, Join(some));
    }
  }

  // A row split after it was built and stored has its fields back exactly when none holds a bar, no
  // empty one comes before one that is not, and those that are not empty fit into a record.
  lemma SplitUndoesBuildExactly(fields: seq<string>)
    requires Fits(fields)
    ensures Split(Stored(fields)) == Pad(fields) <==> Recoverable(fields)
  {
    if Recoverable(fields) { RecoverableSplits(fields); }
    if Split(Stored(fields)) == Pad(fields) { SplitRecovers(fields); }
  }
}
