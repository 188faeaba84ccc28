// What number a text is to atoi, in terms of its characters.
module RowNumbers {
  import opened RowCodec
  import opened Catalog
  import opened CatalogProperties

  // The six characters isspace takes for blank: space, and codes 9 to 13.
  predicate AllSpace(s: string) {
    forall i :: 0 <= i < |s| ==> s[i] as int in {9, 10, 11, 12, 13, 32}
  }

  predicate DecimalDigit(c: char) {
    c in "0123456789"
  }

  predicate AllDecimal(s: string) {
    forall i :: 0 <= i < |s| ==> DecimalDigit(s[i])
  }

  // The number written with these digits: ten times what precedes the last one, and the last one.
  function Number(digits: string): int
    requires AllDecimal(digits)
  {
    if digits == "" then 0
    else
      var n := |digits| - 1;
      10 * Number(digits[..n]) + (digits[n] as int - 48)
  }

  lemma DigitCodes(c: char)
    ensures DecimalDigit(c) <==> IsDigit(c)
  {
    var all := "0123456789";
    assert all[0] == '0' && all[1] == '1' && all[2] == '2' && all[3] == '3' && all[4] == '4';
    assert all[5] == '5' && all[6] == '6' && all[7] == '7' && all[8] == '8' && all[9] == '9';
    if IsDigit(c) { assert all[c as int - 48] == c; }
  }

  lemma {:induction false} DigitsRead(digits: string, rest: string)
    requires AllDecimal(digits) && (rest == "" || !DecimalDigit(rest[0]))
    ensures Digits(digits + rest, 0) == Number(digits)
    decreases |digits|
  {
    if digits == "" {
      assert digits + rest == rest;
      if rest != "" { DigitCodes(rest[0]); }
    } else {
      var n := |digits| - 1;
      var front, c := digits[..n], digits[n];
      DigitCodes(c);
      forall i | 0 <= i < n ensures IsDigit(front[i]) { DigitCodes(digits[i]); }
      if rest != "" { DigitCodes(rest[0]); }
      assert digits + rest == front + [c] + rest;
      DigitsSnoc(front, c, rest, 0);
      DigitsRead(front, "");
      assert front + "" == front;
    }
  }

  lemma {:induction false} SpacesSkipped(blanks: string, rest: string)
    requires AllSpace(blanks)
    ensures Atoi(blanks + rest) == Atoi(rest)
    decreases |blanks|
  {
    if blanks == "" {
      assert blanks + rest == rest;
    } else {
      assert (blanks + rest)[0] == blanks[0] && (blanks + rest)[1..] == blanks[1..] + rest;
      SpacesSkipped(blanks[1..], rest);
    }
  }

  // The text in front of a number, which atoi skips, does not go on in what follows it.
  predicate Ends(sign: string, digits: string, rest: string) {
    && (rest == "" || !DecimalDigit(rest[0]))
    && (sign == "" && digits == "" && rest != "" ==>
          rest[0] as int !in {9, 10, 11, 12, 13, 32} && rest[0] != '-' && rest[0] != '+')
  }

  lemma {:induction false} SignedNumber(sign: string, digits: string, rest: string)
    requires sign in {"", "-", "+"} && AllDecimal(digits) && Ends(sign, digits, rest)
    ensures Atoi(sign + digits + rest) == if sign == "-" then -Number(digits) else Number(digits)
  {
    DigitsRead(digits, rest);
    if sign == "" {
      assert sign + digits + rest == digits + rest;
      if digits != "" { DigitCodes(digits[0]); }
    } else {
      assert (sign + digits + rest)[1..] == digits + rest;
    }
  }

  // Every text is blanks, a sign or none, digits and a rest, and atoi makes of it the number of the digits.
  lemma AtoiReads(blanks: string, sign: string, digits: string, rest: string)
    requires AllSpace(blanks) && sign in {"", "-", "+"} && AllDecimal(digits) && Ends(sign, digits, rest)
    ensures Atoi(blanks + sign + digits + rest) == if sign == "-" then -Number(digits) else Number(digits)
  {
    assert blanks + sign + digits + rest == blanks + (sign + digits + rest);
    SpacesSkipped(blanks, sign + digits + rest);
    SignedNumber(sign, digits, rest);
  }

  // How much of a text atoi skips, and how many digits follow.
  lemma {:induction false} Leading(s: string, spaces: bool) returns (n: nat)
    ensures n <= |s|
    ensures if spaces then AllSpace(s[..n]) else AllDecimal(s[..n])
    ensures n < |s| ==> if spaces then s[n] as int !in {9, 10, 11, 12, 13, 32} else !DecimalDigit(s[n])
    decreases |s|
  {
    if s == "" || (if spaces then s[0] as int !in {9, 10, 11, 12, 13, 32} else !DecimalDigit(s[0])) {
      n := 0;
    } else {
      n := Leading(s[1..], spaces);
      n := n + 1;
      assert forall i :: 0 < i < n ==> s[..n][i] == s[1..][..n - 1][i - 1];
    }
  }

  function SignOf(t: string): string {
    if t == "" then "" else if t[0] == '-' then "-" else if t[0] == '+' then "+" else ""
  }

  lemma EndsAt(sign: string, digits: string, rest: string, t: string, u: string, k: nat)
    requires k <= |u| && digits == u[..k] && rest == u[k..] && (k < |u| ==> !DecimalDigit(u[k]))
    requires t != "" ==> t[0] as int !in {9, 10, 11, 12, 13, 32}
    requires sign == SignOf(t) && u == t[|sign|..]
    ensures Ends(sign, digits, rest)
  {
  }

  lemma SignAndDigits(t: string) returns (sign: string, digits: string, rest: string)
    requires t != "" ==> t[0] as int !in {9, 10, 11, 12, 13, 32}
    ensures t == sign + digits + rest && sign in {"", "-", "+"} && AllDecimal(digits) && Ends(sign, digits, rest)
  {
    sign := SignOf(t);
    var u := t[|sign|..];
    var k := Leading(u, false);
    digits, rest := u[..k], u[k..];
    EndsAt(sign, digits, rest, t, u, k);
    assert t == sign + u && u == digits + rest;
    Associates(sign, digits, rest);
  }

  lemma EveryTextIsRead(s: string) returns (blanks: string, sign: string, digits: string, rest: string)
    ensures s == blanks + sign + digits + rest
    ensures AllSpace(blanks) && sign in {"", "-", "+"} && AllDecimal(digits) && Ends(sign, digits, rest)
  {
    var n := Leading(s, true);
    blanks := s[..n];
    sign, digits, rest := SignAndDigits(s[n..]);
    Associates(blanks, sign, digits);
    Associates(blanks, sign + digits, rest);
    assert s == blanks + (sign + digits + rest);
  }

  lemma LastDigit(front: string, n: nat)
    requires AllDecimal(front)
    ensures var c := (48 + n % 10) as char; AllDecimal(front + [c]) && Number(front + [c]) == 10 * Number(front) + n % 10
  {
    var c := (48 + n % 10) as char;
    DigitCodes(c);
    assert (front + [c])[..|front|] == front;
  }

  // "%d" writes the number with its digits, without leading zeros.
  lemma {:induction false} DecimalIsNumber(n: nat)
    ensures DecimalNat(n) != "" && AllDecimal(DecimalNat(n)) && Number(DecimalNat(n)) == n
    ensures n > 0 ==> DecimalNat(n)[0] != '0'
  {
    if n >= 10 {
      DecimalIsNumber(n / 10);
      LastDigit(DecimalNat(n / 10), n);
    } else {
      LastDigit("", n);
      assert DecimalNat(n) == "" + DecimalNat(n);
    }
  }

  lemma SignIsRead(sign: string, digits: string, rest: string)
    requires sign in {"", "-"} && AllDecimal(digits) && digits != "" && (rest == "" || !DecimalDigit(rest[0]))
    ensures Atoi(sign + digits + rest) == if sign == "-" then -Number(digits) else Number(digits)
  {
    AtoiReads("", sign, digits, rest);
    assert "" + sign + digits + rest == sign + digits + rest;
  }

  // What "%d" prints, followed by anything but another digit, is the number to atoi.
  lemma DecimalIsRead(n: int, rest: string)
    requires rest == "" || !DecimalDigit(rest[0])
    ensures Atoi(Decimal(n) + rest) == n
  {
    if n < 0 {
      DecimalIsNumber(-n);
      SignIsRead("-", DecimalNat(-n), rest);
    } else {
      DecimalIsNumber(n);
      SignIsRead("", DecimalNat(n), rest);
      assert "" + DecimalNat(n) == DecimalNat(n);
    }
  }
}
