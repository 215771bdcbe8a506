/** Decimal printing, `strconv.Atoi`, and the integer verbs of `fmt.Sscanf`. */
module Decimal {
  import opened Prelude
  import opened GoStrings

  predicate IsDigit(c: char) {
    '0' <= c <= '9'
  }

  predicate AllDigits(s: string) {
    forall i :: 0 <= i < |s| ==> IsDigit(s[i])
  }

  function DigitValue(c: char): nat
    requires IsDigit(c)
  {
    c as int - '0' as int
  }

  function DigitChar(d: nat): (c: char)
    requires d < 10
    ensures IsDigit(c) && DigitValue(c) == d
  {
    ('0' as int + d) as char
  }

  /** `%d` of a non-negative number. */
  function PrintNat(n: nat): (s: string)
    ensures s != "" && AllDigits(s)
  {
    if n < 10 then [DigitChar(n)] else PrintNat(n / 10) + [DigitChar(n % 10)]
  }

  /** `%d` of any number. */
  function PrintInt(n: int): (s: string)
    ensures s != "" && forall i :: 0 <= i < |s| ==> IsDigit(s[i]) || s[i] == '-'
  {
    if n < 0 then "-" + PrintNat(-n) else PrintNat(n)
  }

  function Value(s: string): (n: int)
    requires AllDigits(s)
    ensures n >= 0
  {
    if s == "" then 0 else 10 * Value(s[..|s| - 1]) + DigitValue(s[|s| - 1])
  }

  lemma {:induction false} ValueOfPrint(n: nat)
    ensures Value(PrintNat(n)) == n
  {
    if n < 10 {
    } else {
      ValueOfPrint(n / 10);
      assert PrintNat(n)[..|PrintNat(n)| - 1] == PrintNat(n / 10);
    }
  }

  lemma PrintIntInjective(a: int, b: int)
    requires PrintInt(a) == PrintInt(b)
    ensures a == b
  {
    ValueOfPrint(if a < 0 then -a else a);
    ValueOfPrint(if b < 0 then -b else b);
    assert a < 0 ==> PrintInt(a)[0] == '-' && PrintInt(a)[1..] == PrintNat(-a);
    assert b < 0 ==> PrintInt(b)[0] == '-' && PrintInt(b)[1..] == PrintNat(-b);
    assert a >= 0 ==> IsDigit(PrintInt(a)[0]);
    assert b >= 0 ==> IsDigit(PrintInt(b)[0]);
  }

  /** `strconv.Atoi`: an optional sign, at least one digit, and a 64-bit result. */
  function Atoi(s: string): (r: Option<int>)
    ensures r.Some? ==> InInt64(r.value)
  {
    var negative := s != "" && s[0] == '-';
    var digits := if s != "" && (s[0] == '-' || s[0] == '+') then s[1..] else s;
    if digits == "" || !AllDigits(digits) then None
    else
      var n := if negative then -Value(digits) else Value(digits);
      if InInt64(n) then Some(n) else None
  }

  lemma AtoiOfPrint(n: nat)
    requires InInt64(n)
    ensures Atoi(PrintNat(n)) == Some(n)
  {
    ValueOfPrint(n);
    assert IsDigit(PrintNat(n)[0]);
  }

  // ---- Sscanf

  /** Blanks before a number are skipped; a newline there is an error (None). */
  function SkipSpace(s: string): Option<string> {
    if s == "" || !IsSpace(s[0]) then Some(s)
    else if s[0] == '\n' then None
    else SkipSpace(s[1..])
  }

  function DigitRun(s: string): (n: nat)
    ensures n <= |s| && AllDigits(s[..n])
    ensures n < |s| ==> !IsDigit(s[n])
  {
    if s == "" || !IsDigit(s[0]) then 0
    else
      var n := 1 + DigitRun(s[1..]);
      assert s[..n] == [s[0]] + s[1..][..n - 1];
      n
  }

  /** Literal text of a format: it must be there, and is consumed. */
  function ScanLiteral(s: string, lit: string): Option<string> {
    if HasPrefix(s, lit) then Some(s[|lit|..]) else None
  }

  /** Digits with a value below the bound, at the beginning of the text. */
  function ReadDigits(t: string, bound: nat): (r: Option<(nat, string)>)
    ensures r.Some? ==> r.value.0 < bound
  {
    var n := DigitRun(t);
    if n == 0 || Value(t[..n]) >= bound then None else Some((Value(t[..n]), t[n..]))
  }

  /** `%d` into an unsigned variable of `bits` values (exclusive bound): value and rest of the input. */
  function ScanUint(s: string, bound: nat): (r: Option<(nat, string)>)
    ensures r.Some? ==> r.value.0 < bound
  {
    match SkipSpace(s)
    case None => None
    case Some(t) => ReadDigits(t, bound)
  }

  /** A sign and digits, at the beginning of the text. */
  function ReadSigned(t: string): (r: Option<(int, string)>)
    ensures r.Some? ==> InInt64(r.value.0)
  {
    var signed := t != "" && (t[0] == '-' || t[0] == '+');
    var u := if signed then t[1..] else t;
    var n := DigitRun(u);
    if n == 0 then None
    else
      var v := if signed && t[0] == '-' then -Value(u[..n]) else Value(u[..n]);
      if InInt64(v) then Some((v, u[n..])) else None
  }

  /** `%d` into an `int`: a sign is accepted. */
  function ScanInt(s: string): (r: Option<(int, string)>)
    ensures r.Some? ==> InInt64(r.value.0)
  {
    match SkipSpace(s)
    case None => None
    case Some(t) => ReadSigned(t)
  }

  lemma DigitRunOf(d: string, rest: string)
    requires AllDigits(d)
    requires rest == "" || !IsDigit(rest[0])
    ensures DigitRun(d + rest) == |d|
  {
    var s, n := d + rest, DigitRun(d + rest);
    assert forall k :: 0 <= k < |d| ==> s[k] == d[k];
    assert forall k :: 0 <= k < n ==> s[k] == s[..n][k];
    assert rest != "" ==> s[|d|] == rest[0];
  }

  /** Digits are read as their value, and the scan stops at the first non-digit. */
  lemma ScanOfDigits(d: string, rest: string)
    requires d != "" && AllDigits(d)
    requires rest == "" || !IsDigit(rest[0])
    ensures forall bound: nat :: Value(d) < bound ==> ScanUint(d + rest, bound) == Some((Value(d), rest))
    ensures InInt64(Value(d)) ==> ScanInt(d + rest) == Some((Value(d), rest))
  {
    assert IsDigit(d[0]) && (d + rest)[0] == d[0];
    assert SkipSpace(d + rest) == Some(d + rest);
    DigitRunOf(d, rest);
    assert (d + rest)[..|d|] == d && (d + rest)[|d|..] == rest;
  }

  lemma ScanOfPrint(n: nat, rest: string)
    requires rest == "" || !IsDigit(rest[0])
    ensures forall bound: nat :: n < bound ==> ScanUint(PrintNat(n) + rest, bound) == Some((n, rest))
    ensures InInt64(n) ==> ScanInt(PrintNat(n) + rest) == Some((n, rest))
  {
    ValueOfPrint(n);
    ScanOfDigits(PrintNat(n), rest);
  }

  // ---- The texts that are read as numbers

  /** Leading zeros count nothing. With `ValueOfPrint` this settles the value of every digit string. */
  lemma {:induction false} ValueLeadingZero(s: string)
    requires AllDigits(s)
    ensures AllDigits("0" + s) && Value("0" + s) == Value(s)
  {
    if s == "" {
    } else {
      ValueLeadingZero(s[..|s| - 1]);
      assert ("0" + s)[..|s|] == "0" + s[..|s| - 1];
    }
  }

  /** Printed numbers have no leading zeros. */
  lemma {:induction false} PrintNatLead(n: nat)
    ensures PrintNat(n)[0] == '0' <==> n == 0
  {
    if n < 10 {
      assert DigitValue(DigitChar(n)) == n;
    } else {
      PrintNatLead(n / 10);
    }
  }

  ghost predicate HasValue(sign: string, digits: string, n: int) {
    && (sign == "" || sign == "+" || sign == "-") && digits != "" && AllDigits(digits)
    && n == if sign == "-" then -Value(digits) else Value(digits)
  }

  /** An optional sign and at least one digit, with the value `n`. */
  ghost predicate SignedDigits(s: string, n: int) {
    exists sign: string, digits: string :: s == sign + digits && HasValue(sign, digits, n)
  }

  ghost function SignOf(s: string): string {
    if s != "" && (s[0] == '-' || s[0] == '+') then [s[0]] else ""
  }

  lemma SignSplits(s: string)
    ensures |SignOf(s)| <= |s| && s == SignOf(s) + s[|SignOf(s)|..]
  {
  }

  lemma AtoiReads(s: string)
    requires Atoi(s).Some?
    ensures SignedDigits(s, Atoi(s).value)
  {
    hide Value, AllDigits;
    SignSplits(s);
    assert HasValue(SignOf(s), s[|SignOf(s)|..], Atoi(s).value);
  }

  lemma AtoiOf(sign: string, digits: string, n: int)
    requires InInt64(n) && HasValue(sign, digits, n)
    ensures Atoi(sign + digits) == Some(n)
  {
    assert IsDigit(digits[0]);
    hide Value, AllDigits;
    if sign == "" {
      assert sign + digits == digits;
    } else {
      assert (sign + digits)[0] == sign[0] && (sign + digits)[1..] == digits;
    }
  }

  lemma AtoiExactly(s: string, n: int)
    ensures Atoi(s) == Some(n) <==> InInt64(n) && SignedDigits(s, n)
  {
    if Atoi(s) == Some(n) {
      AtoiReads(s);
    }
    hide Atoi;
    if InInt64(n) && SignedDigits(s, n) {
      var sign: string, digits: string :| s == sign + digits && HasValue(sign, digits, n);
      AtoiOf(sign, digits, n);
    }
  }

  /** White space without a newline. */
  ghost predicate BlankLine(s: string) {
    forall i :: 0 <= i < |s| ==> IsSpace(s[i]) && s[i] != '\n'
  }

  /** What `%d` reads as `n`: blanks, a sign, digits. */
  ghost predicate NumberText(t: string, n: int) {
    InInt64(n) && exists blanks: string, u: string :: t == blanks + u && BlankLine(blanks) && SignedDigits(u, n)
  }

  /** The same without a sign. */
  ghost predicate UnsignedText(t: string, n: nat) {
    exists blanks: string, digits: string :: t == blanks + digits && BlankLine(blanks) && HasValue("", digits, n)
  }

  /** The number ends where its digits end. */
  ghost predicate AfterNumber(rest: string) {
    rest == "" || !IsDigit(rest[0])
  }

  lemma {:induction false} SkipSpaceParts(s: string) returns (blanks: string)
    requires SkipSpace(s).Some?
    ensures BlankLine(blanks) && s == blanks + SkipSpace(s).value
  {
    if s == "" || !IsSpace(s[0]) {
      blanks := "";
    } else {
      var more := SkipSpaceParts(s[1..]);
      blanks := [s[0]] + more;
      assert s == [s[0]] + s[1..];
    }
  }

  lemma {:induction false} SkipSpaceOfBlanks(blanks: string, u: string)
    requires BlankLine(blanks) && u != "" && !IsSpace(u[0])
    ensures SkipSpace(blanks + u) == Some(u)
  {
    if blanks == "" {
      assert blanks + u == u;
    } else {
      assert (blanks + u)[1..] == blanks[1..] + u;
      SkipSpaceOfBlanks(blanks[1..], u);
    }
  }

  lemma ReadDigitsReads(t: string, bound: nat) returns (digits: string)
    requires ReadDigits(t, bound).Some?
    ensures var (n, rest) := ReadDigits(t, bound).value;
            t == digits + rest && HasValue("", digits, n) && AfterNumber(rest)
  {
    digits := t[..DigitRun(t)];
  }

  lemma ScanUintReads(s: string, bound: nat) returns (t: string)
    requires ScanUint(s, bound).Some?
    ensures var (n, rest) := ScanUint(s, bound).value; s == t + rest && UnsignedText(t, n) && AfterNumber(rest)
  {
    hide ReadDigits, HasValue;
    var blanks := SkipSpaceParts(s);
    var digits := ReadDigitsReads(SkipSpace(s).value, bound);
    t := blanks + digits;
  }

  lemma ScanUintOfText(t: string, n: nat, rest: string, bound: nat)
    requires UnsignedText(t, n) && AfterNumber(rest)
    ensures ScanUint(t + rest, bound) == if n < bound then Some((n, rest)) else None
  {
    var blanks: string, u: string :| t == blanks + u && BlankLine(blanks) && HasValue("", u, n);
    assert t + rest == blanks + (u + rest);
    assert (u + rest)[0] == u[0] && IsDigit(u[0]);
    SkipSpaceOfBlanks(blanks, u + rest);
    DigitRunOf(u, rest);
    assert (u + rest)[..|u|] == u && (u + rest)[|u|..] == rest;
  }

  /** What an unsigned `%d` reads, exactly. */
  lemma ScanUintExactly(s: string, bound: nat, n: nat, rest: string)
    ensures ScanUint(s, bound) == Some((n, rest))
       <==> n < bound && AfterNumber(rest) && exists t: string :: s == t + rest && UnsignedText(t, n)
  {
    if ScanUint(s, bound) == Some((n, rest)) {
      var t := ScanUintReads(s, bound);
    }
    forall t: string | s == t + rest && UnsignedText(t, n) && n < bound && AfterNumber(rest)
      ensures ScanUint(s, bound) == Some((n, rest))
    {
      ScanUintOfText(t, n, rest, bound);
    }
  }

  lemma ReadSignedReads(w: string) returns (u: string)
    requires ReadSigned(w).Some?
    ensures var (n, rest) := ReadSigned(w).value; w == u + rest && SignedDigits(u, n) && AfterNumber(rest)
  {
    hide Value;
    SignSplits(w);
    var sign, d := SignOf(w), w[|SignOf(w)|..];
    var k := DigitRun(d);
    assert AllDigits(d[..k]) && AfterNumber(d[k..]);
    hide DigitRun, AllDigits, AfterNumber;
    assert ReadSigned(w).value.1 == d[k..];
    assert HasValue(sign, d[..k], ReadSigned(w).value.0);
    u := sign + d[..k];
    assert d == d[..k] + d[k..];
  }

  lemma ReadSignedOf(sign: string, digits: string, n: int, rest: string)
    requires InInt64(n) && HasValue(sign, digits, n) && AfterNumber(rest)
    ensures ReadSigned(sign + digits + rest) == Some((n, rest))
  {
    var w := sign + digits + rest;
    var u := digits + rest;
    DigitRunOf(digits, rest);
    assert u[..|digits|] == digits && u[|digits|..] == rest;
    assert IsDigit(u[0]) by {
      assert u[0] == digits[0];
    }
    hide DigitRun, Value;
    if sign == "" {
      assert w == u;
    } else {
      assert w[0] == sign[0] && w[1..] == u;
    }
  }

  lemma ReadSignedOfText(u: string, n: int, rest: string)
    requires InInt64(n) && SignedDigits(u, n) && AfterNumber(rest)
    ensures ReadSigned(u + rest) == Some((n, rest)) && u != "" && !IsSpace(u[0])
  {
    hide ReadSigned, Value;
    var sign: string, digits: string :| u == sign + digits && HasValue(sign, digits, n);
    assert IsDigit(digits[0]) && u[0] == if sign == "" then digits[0] else sign[0];
    ReadSignedOf(sign, digits, n, rest);
  }

  lemma ScanIntReads(s: string) returns (t: string)
    requires ScanInt(s).Some?
    ensures var (n, rest) := ScanInt(s).value; s == t + rest && NumberText(t, n) && AfterNumber(rest)
  {
    hide ReadSigned, SignedDigits;
    var blanks := SkipSpaceParts(s);
    var u := ReadSignedReads(SkipSpace(s).value);
    t := blanks + u;
  }

  lemma ScanIntOfText(t: string, n: int, rest: string)
    requires NumberText(t, n) && AfterNumber(rest)
    ensures ScanInt(t + rest) == Some((n, rest))
  {
    hide ReadSigned, SignedDigits, SkipSpace;
    var blanks: string, u: string :| t == blanks + u && BlankLine(blanks) && SignedDigits(u, n);
    ReadSignedOfText(u, n, rest);
    assert t + rest == blanks + (u + rest) && (u + rest)[0] == u[0];
    SkipSpaceOfBlanks(blanks, u + rest);
  }

  /** What a signed `%d` reads, exactly. */
  lemma ScanIntExactly(s: string, n: int, rest: string)
    ensures ScanInt(s) == Some((n, rest))
       <==> AfterNumber(rest) && exists t: string :: s == t + rest && NumberText(t, n)
  {
    if ScanInt(s) == Some((n, rest)) {
      var t := ScanIntReads(s);
    }
    forall t: string | s == t + rest && NumberText(t, n) && AfterNumber(rest) ensures ScanInt(s) == Some((n, rest)) {
      ScanIntOfText(t, n, rest);
    }
  }
}
