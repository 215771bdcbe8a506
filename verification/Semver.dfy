/** kernel/update/semver.go: versions, their order, and their textual form. */
module Semver {
  import opened Prelude
  import opened GoStrings
  import opened Decimal

  datatype Version = Version(major: int, minor: int, patch: int, pre: string)

  const ZERO := Version(0, 0, 0, "")

  // ---- Parsing

  /** One numeric part: `Atoi` that also rejects negative results. */
  function Part(s: string): (r: Option<int>)
    ensures r.Some? ==> 0 <= r.value < TWO_63
  {
    match Atoi(s)
    case Some(n) => if n < 0 then None else Some(n)
    case None => None
  }

  /** What is left of a version text without blanks around it and without its "v". */
  function ParsedRaw(raw: string): Option<Version> {
    if raw == "" then None
    else
      var (body, pre, _) := Cut(raw, '-');
      var parts := SplitOn(body, '.');
      if |parts| != 3 then None
      else
        match (Part(parts[0]), Part(parts[1]), Part(parts[2]))
        case (Some(a), Some(b), Some(c)) => Some(Version(a, b, c, pre))
        case _ => None
  }

  function Parsed(s: string): Option<Version> {
    ParsedRaw(TrimPrefix(TrimSpace(s), "v"))
  }

  method ParseVersion(s: string) returns (r: Option<Version>)
    ensures r == Parsed(s)
  {
    var raw := TrimPrefix(TrimSpace(s), "v");
    if raw == "" {
      return None;
    }
    var (body, pre, _) := Cut(raw, '-');
    var parts := SplitOn(body, '.');
    if |parts| != 3 {
      return None;
    }
    var nums := new int[3];
    for i := 0 to |parts|
      invariant forall k :: 0 <= k < i ==> Part(parts[k]) == Some(nums[k])
    {
      var n := Atoi(parts[i]);
      if n.None? || n.value < 0 {
        assert Part(parts[i]).None?;
        return None;
      }
      nums[i] := n.value;
    }
    r := Some(Version(nums[0], nums[1], nums[2], pre));
  }

  function Numbers(v: Version): string {
    PrintInt(v.major) + "." + PrintInt(v.minor) + "." + PrintInt(v.patch)
  }

  /** `v.String()`. */
  function Show(v: Version): string {
    "v" + (if v.pre != "" then Numbers(v) + "-" + v.pre else Numbers(v))
  }

  /** The versions that parsing can return. */
  ghost predicate Canonical(v: Version) {
    && 0 <= v.major < TWO_63 && 0 <= v.minor < TWO_63 && 0 <= v.patch < TWO_63
    && (v.pre != "" ==> !IsSpace(v.pre[|v.pre| - 1]))
  }

  lemma DigitsAvoid(n: nat, c: char)
    requires !IsDigit(c)
    ensures c !in PrintNat(n)
  {
  }

  lemma PartOfPrint(n: nat)
    requires n < TWO_63
    ensures Part(PrintInt(n)) == Some(n)
  {
    AtoiOfPrint(n);
  }

  lemma JoinNumbers(a: string, b: string, c: string)
    ensures JoinWith([a, b, c], '.') == a + "." + b + "." + c
  {
    calc {
      JoinWith([a, b, c], '.');
      a + "." + JoinWith([b, c], '.');
      a + "." + (b + "." + JoinWith([c], '.'));
      a + "." + (b + "." + c);
      a + "." + b + "." + c;
    }
  }

  /** The three printed numbers split at the dots again. */
  lemma SplitNumbers(a: string, b: string, c: string)
    requires '.' !in a && '.' !in b && '.' !in c
    ensures SplitOn(a + "." + b + "." + c, '.') == [a, b, c]
  {
    JoinNumbers(a, b, c);
    SplitOfJoin([a, b, c], '.');
  }

  lemma NumbersAvoidDash(v: Version)
    requires Canonical(v)
    ensures '-' !in Numbers(v)
  {
    DigitsAvoid(v.major, '-');
    DigitsAvoid(v.minor, '-');
    DigitsAvoid(v.patch, '-');
  }

  /** The first '-' of the printed form separates the numbers from the tag. */
  lemma CutShown(v: Version)
    requires Canonical(v)
    ensures Cut(Show(v)[1..], '-').0 == Numbers(v) && Cut(Show(v)[1..], '-').1 == v.pre
  {
    NumbersAvoidDash(v);
    if v.pre == "" {
      assert Show(v)[1..] == Numbers(v);
    } else {
      assert Show(v)[1..] == Numbers(v) + ['-'] + v.pre;
      CutAt(Numbers(v), '-', v.pre);
    }
  }

  lemma ShownIsTrimmed(v: Version)
    requires Canonical(v)
    ensures Trimmed(Show(v)) && Show(v) != ""
  {
    var s := Show(v);
    assert s[0] == 'v';
    if v.pre == "" {
      var p := PrintInt(v.patch);
      assert s[|s| - 1] == p[|p| - 1];
      assert IsDigit(p[|p| - 1]);
    } else {
      assert s[|s| - 1] == v.pre[|v.pre| - 1];
    }
  }

  lemma RawOfShow(v: Version)
    requires Canonical(v)
    ensures TrimPrefix(TrimSpace(Show(v)), "v") == Show(v)[1..]
    ensures TrimSpace(Show(v) + "\n") == Show(v)
  {
    ShownIsTrimmed(v);
    TrimSpaceOfTrimmed(Show(v));
  }

  lemma ParsedRawOfShow(v: Version)
    requires Canonical(v)
    ensures ParsedRaw(Show(v)[1..]) == Some(v)
  {
    CutShown(v);
    DigitsAvoid(v.major, '.');
    DigitsAvoid(v.minor, '.');
    DigitsAvoid(v.patch, '.');
    SplitNumbers(PrintInt(v.major), PrintInt(v.minor), PrintInt(v.patch));
    PartOfPrint(v.major);
    PartOfPrint(v.minor);
    PartOfPrint(v.patch);
    assert |Show(v)| > 1;
    hide Cut, SplitOn, Part, PrintInt, Show;
  }

  /** Print then parse is the identity, also through the newline that the version file carries. */
  lemma ParseOfShow(v: Version)
    requires Canonical(v)
    ensures Parsed(Show(v)) == Some(v)
    ensures Parsed(TrimSpace(Show(v) + "\n")) == Some(v)
  {
    hide TrimSpace, TrimPrefix, ParsedRaw, Show;
    RawOfShow(v);
    ParsedRawOfShow(v);
  }

  /** The tag ends where the trimmed text ends. */
  lemma TagIsTrimmed(raw: string)
    requires raw != "" && !IsSpace(raw[|raw| - 1])
    ensures var pre := Cut(raw, '-').1; pre != "" ==> !IsSpace(pre[|pre| - 1])
  {
    var (body, pre, found) := Cut(raw, '-');
    if pre != "" {
      assert raw[|raw| - 1] == (body + ['-'] + pre)[|raw| - 1] == pre[|pre| - 1];
    }
  }

  lemma ParsedIsCanonical(s: string)
    ensures Parsed(s).Some? ==> Canonical(Parsed(s).value)
  {
    var t := TrimSpace(s);
    var raw := TrimPrefix(t, "v");
    if raw != "" {
      assert raw[|raw| - 1] == t[|t| - 1];
      TagIsTrimmed(raw);
    }
  }

  /** Parsing returns canonical versions only, and every canonical version is returned for some text. */
  lemma ParsedExactlyCanonical(v: Version)
    ensures Canonical(v) <==> exists s: string :: Parsed(s) == Some(v)
  {
    if Canonical(v) {
      ParseOfShow(v);
    }
    forall s: string | Parsed(s) == Some(v) ensures Canonical(v) {
      ParsedIsCanonical(s);
    }
  }

  // ---- Which texts are versions

  /** A number of a version: digits, perhaps after a plus sign, with a 64-bit value. */
  ghost predicate NumberPart(s: string, n: int) {
    '-' !in s && 0 <= n < TWO_63 && SignedDigits(s, n)
  }

  ghost function Dotted(a: string, b: string, c: string): string {
    a + "." + b + "." + c
  }

  /** The text has these parts, and they are those of `v`. */
  ghost predicate VersionText(text: string, v: Version, lead: string, a: string, b: string, c: string, tail: string) {
    && text == lead + Dotted(a, b, c) + tail
    && (lead == "" || lead == "v")
    && NumberPart(a, v.major) && NumberPart(b, v.minor) && NumberPart(c, v.patch)
    && (tail == "-" + v.pre || (tail == "" && v.pre == ""))
  }

  lemma NumberPartChars(s: string, n: int)
    requires NumberPart(s, n)
    ensures s != "" && s[0] != 'v' && '.' !in s
  {
    hide Value;
    var sign: string, digits: string :| s == sign + digits && HasValue(sign, digits, n);
    assert forall i :: 0 <= i < |s| ==> s[i] == '+' || s[i] == '-' || IsDigit(s[i]);
  }

  lemma NumberPartExactly(s: string, n: int)
    ensures NumberPart(s, n) <==> '-' !in s && Part(s) == Some(n)
    ensures NumberPart(s, n) ==> s != "" && s[0] != 'v' && '.' !in s
  {
    AtoiExactly(s, n);
    if NumberPart(s, n) {
      NumberPartChars(s, n);
    }
    hide Atoi, SignedDigits;
  }

  lemma CutOfParts(body: string, tail: string, pre: string)
    requires '-' !in body && (tail == "-" + pre || (tail == "" && pre == ""))
    ensures Cut(body + tail, '-').0 == body && Cut(body + tail, '-').1 == pre
  {
    if tail == "" {
      assert body + tail == body;
    } else {
      assert body + tail == body + ['-'] + pre;
      CutAt(body, '-', pre);
    }
  }

  lemma DottedFacts(a: string, b: string, c: string)
    ensures '-' in Dotted(a, b, c) <==> '-' in a || '-' in b || '-' in c
    ensures a != "" ==> Dotted(a, b, c) != "" && Dotted(a, b, c)[0] == a[0]
    ensures '.' !in a && '.' !in b && '.' !in c ==> SplitOn(Dotted(a, b, c), '.') == [a, b, c]
    ensures JoinWith([a, b, c], '.') == Dotted(a, b, c)
  {
    if '.' !in a && '.' !in b && '.' !in c {
      SplitNumbers(a, b, c);
    }
    hide SplitOn;
    JoinNumbers(a, b, c);
  }

  lemma WithoutLead(lead: string, raw: string)
    requires (lead == "" || lead == "v") && raw != "" && raw[0] != 'v'
    ensures TrimPrefix(lead + raw, "v") == raw
  {
    assert lead == "" ==> lead + raw == raw;
  }

  /** What parsing finds between the separators. */
  lemma RawExactly(raw: string, v: Version)
    ensures ParsedRaw(raw) == Some(v) <==>
              && raw != "" && Cut(raw, '-').1 == v.pre
              && var parts := SplitOn(Cut(raw, '-').0, '.');
                 |parts| == 3 && Part(parts[0]) == Some(v.major) && Part(parts[1]) == Some(v.minor)
                 && Part(parts[2]) == Some(v.patch)
  {
    hide Cut, SplitOn, Part;
  }

  lemma RawOfParts(v: Version, a: string, b: string, c: string, tail: string)
    requires NumberPart(a, v.major) && NumberPart(b, v.minor) && NumberPart(c, v.patch)
    requires tail == "-" + v.pre || (tail == "" && v.pre == "")
    ensures var raw := Dotted(a, b, c) + tail; ParsedRaw(raw) == Some(v) && raw != "" && raw[0] != 'v'
  {
    hide NumberPart, Part, Cut, SplitOn, ParsedRaw, Dotted, JoinWith;
    NumberPartExactly(a, v.major);
    NumberPartExactly(b, v.minor);
    NumberPartExactly(c, v.patch);
    DottedFacts(a, b, c);
    CutOfParts(Dotted(a, b, c), tail, v.pre);
    RawExactly(Dotted(a, b, c) + tail, v);
  }

  lemma ParsedOfText(text: string, v: Version, lead: string, a: string, b: string, c: string, tail: string)
    requires VersionText(text, v, lead, a, b, c, tail)
    ensures ParsedRaw(TrimPrefix(text, "v")) == Some(v)
  {
    hide NumberPart, ParsedRaw, TrimPrefix, Dotted;
    RawOfParts(v, a, b, c, tail);
    WithoutLead(lead, Dotted(a, b, c) + tail);
    assert text == lead + (Dotted(a, b, c) + tail);
  }

  lemma SplitIsDotted(body: string) returns (a: string, b: string, c: string)
    requires |SplitOn(body, '.')| == 3
    ensures SplitOn(body, '.') == [a, b, c] && body == Dotted(a, b, c)
  {
    var parts := SplitOn(body, '.');
    a, b, c := parts[0], parts[1], parts[2];
    JoinOfSplit(body, '.');
    hide SplitOn, JoinWith, Dotted;
    assert parts == [a, b, c];
    DottedFacts(a, b, c);
  }

  lemma CutJoins(raw: string)
    ensures var (body, pre, found) := Cut(raw, '-');
            && '-' !in body && (raw == body + "-" + pre || (raw == body && pre == ""))
  {
  }

  lemma PartsOfRaw(raw: string, v: Version) returns (a: string, b: string, c: string, tail: string)
    requires ParsedRaw(raw) == Some(v)
    ensures VersionText(raw, v, "", a, b, c, tail)
  {
    RawExactly(raw, v);
    CutJoins(raw);
    hide Cut, SplitOn, ParsedRaw, Dotted, NumberPart, Part;
    var body := Cut(raw, '-').0;
    a, b, c := SplitIsDotted(body);
    DottedFacts(a, b, c);
    NumberPartExactly(a, v.major);
    NumberPartExactly(b, v.minor);
    NumberPartExactly(c, v.patch);
    tail := if raw == body && v.pre == "" then "" else "-" + v.pre;
    assert raw == "" + body + tail;
  }

  /** Which texts parse, and to what: an optional "v", three numbers between dots, and a tag after a dash. */
  lemma ParsedExactly(s: string, v: Version)
    ensures Parsed(s) == Some(v) <==>
              exists lead: string, a: string, b: string, c: string, tail: string ::
                VersionText(TrimSpace(s), v, lead, a, b, c, tail)
  {
    var text := TrimSpace(s);
    hide ParsedRaw, TrimSpace, NumberPart, Dotted;
    if Parsed(s) == Some(v) {
      var a, b, c, tail := PartsOfRaw(TrimPrefix(text, "v"), v);
      var lead := if HasPrefix(text, "v") then "v" else "";
      assert text == lead + TrimPrefix(text, "v");
      assert text == lead + Dotted(a, b, c) + tail by {
        assert lead + ("" + Dotted(a, b, c) + tail) == lead + Dotted(a, b, c) + tail;
      }
      assert VersionText(text, v, lead, a, b, c, tail);
    }
    forall lead: string, a: string, b: string, c: string, tail: string | VersionText(text, v, lead, a, b, c, tail)
      ensures Parsed(s) == Some(v)
    {
      ParsedOfText(text, v, lead, a, b, c, tail);
    }
  }

  // ---- Order

  /** -1, 0 or 1, by the 64-bit differences of the numbers and then by the tags. */
  function Compare(a: Version, b: Version): int {
    var d0, d1, d2 := Wrap64(a.major - b.major), Wrap64(a.minor - b.minor), Wrap64(a.patch - b.patch);
    if d0 < 0 then -1 else if d0 > 0 then 1
    else if d1 < 0 then -1 else if d1 > 0 then 1
    else if d2 < 0 then -1 else if d2 > 0 then 1
    else if a.pre == b.pre then 0
    else if a.pre == "" then 1
    else if b.pre == "" then -1
    else if StrLess(a.pre, b.pre) then -1
    else 1
  }

  /** Rank of a tag: a prerelease comes before the release itself. */
  ghost predicate TagBefore(p: string, q: string) {
    p != "" && (q == "" || StrLess(p, q))
  }

  /** The order that the code promises, without subtraction: numbers first, then the tag. */
  ghost predicate Before(a: Version, b: Version) {
    || a.major < b.major
    || (a.major == b.major && a.minor < b.minor)
    || (a.major == b.major && a.minor == b.minor && a.patch < b.patch)
    || (a.major == b.major && a.minor == b.minor && a.patch == b.patch && TagBefore(a.pre, b.pre))
  }

  /** No subtraction overflows on canonical versions, so the sign says which one comes first. */
  lemma CompareIsBefore(a: Version, b: Version)
    requires Canonical(a) && Canonical(b)
    ensures Compare(a, b) < 0 <==> Before(a, b)
    ensures Compare(a, b) > 0 <==> Before(b, a)
    ensures Compare(a, b) == 0 <==> a == b
  {
    StrLessTrichotomy(a.pre, b.pre);
  }

  /** The order part by part: the first number that differs decides, then the tag; none is above every tag. */
  lemma CompareByParts(a: Version, b: Version)
    requires Canonical(a) && Canonical(b)
    ensures a.major < b.major ==> Compare(a, b) == -1 && Compare(b, a) == 1
    ensures a.major == b.major && a.minor < b.minor ==> Compare(a, b) == -1 && Compare(b, a) == 1
    ensures a.(patch := 0, pre := "") == b.(patch := 0, pre := "") && a.patch < b.patch ==>
              Compare(a, b) == -1 && Compare(b, a) == 1
    ensures a.(pre := "") == b.(pre := "") && a.pre != "" && b.pre == "" ==> Compare(a, b) == -1 && Compare(b, a) == 1
    ensures a.(pre := "") == b.(pre := "") && a.pre != "" && b.pre != "" && StrLess(a.pre, b.pre) ==>
              Compare(a, b) == -1 && Compare(b, a) == 1
    ensures Compare(a, a) == 0
  {
    CompareIsBefore(a, b);
    StrLessTrichotomy(a.pre, b.pre);
  }

  lemma BeforeTransitive(a: Version, b: Version, c: Version)
    requires Before(a, b) && Before(b, c)
    ensures Before(a, c)
  {
    if TagBefore(a.pre, b.pre) && TagBefore(b.pre, c.pre) && c.pre != "" {
      StrLessTransitive(a.pre, b.pre, c.pre);
    }
  }

  lemma CompareTotalOrder(a: Version, b: Version, c: Version)
    requires Canonical(a) && Canonical(b) && Canonical(c)
    ensures Compare(a, b) == -Compare(b, a)
    ensures Compare(a, b) == 0 <==> a == b
    ensures Compare(a, b) <= 0 && Compare(b, c) <= 0 ==> Compare(a, c) <= 0
    ensures Compare(a, b) < 0 && Compare(b, c) <= 0 ==> Compare(a, c) < 0
    ensures Compare(a, b) <= 0 && Compare(b, c) < 0 ==> Compare(a, c) < 0
  {
    CompareIsBefore(a, b);
    CompareIsBefore(b, c);
    CompareIsBefore(a, c);
    StrLessTrichotomy(a.pre, b.pre);
    if Before(a, b) && Before(b, c) {
      BeforeTransitive(a, b, c);
    }
  }

  // ---- Numbers at the end of tags

  /** `n` without its last digits, so that at most `k` are left. */
  ghost function FirstDigits(n: nat, k: nat): nat
    requires k >= 1
  {
    if |PrintNat(n)| <= k then n else FirstDigits(n / 10, k)
  }

  lemma {:induction false} StrLessBehind(t: string, a: string, b: string)
    ensures StrLess(t + a, t + b) <==> StrLess(a, b)
  {
    if t == "" {
      assert t + a == a && t + b == b;
    } else {
      assert (t + a)[1..] == t[1..] + a && (t + b)[1..] == t[1..] + b;
      StrLessBehind(t[1..], a, b);
    }
  }

  /** A last character decides only between texts that agree before it. */
  lemma {:induction false} StrLessOneMore(a: string, b: string, d: char)
    requires |a| <= |b|
    ensures StrLess(a, b + [d]) <==> StrLess(a, b) || a == b
  {
    if a == "" {
    } else {
      assert (b + [d])[1..] == b[1..] + [d];
      assert a == [a[0]] + a[1..] && b == [b[0]] + b[1..];
      StrLessOneMore(a[1..], b[1..], d);
    }
  }

  lemma {:induction false} StrLessLastChars(a: string, c: char, b: string, d: char)
    requires |a| == |b|
    ensures StrLess(a + [c], b + [d]) <==> StrLess(a, b) || (a == b && c < d)
  {
    if a == "" {
      assert a + [c] == [c] && b + [d] == [d];
    } else {
      assert (a + [c])[1..] == a[1..] + [c] && (b + [d])[1..] == b[1..] + [d];
      assert a == [a[0]] + a[1..] && b == [b[0]] + b[1..];
      StrLessLastChars(a[1..], c, b[1..], d);
    }
  }

  lemma {:induction false} LongerPrint(m: nat, n: nat)
    requires m <= n
    ensures |PrintNat(m)| <= |PrintNat(n)|
  {
    if n < 10 {
    } else if m >= 10 {
      LongerPrint(m / 10, n / 10);
    }
  }

  /** Printed numbers of equal length are ordered like the numbers. */
  lemma {:induction false} EqualLengthOrder(m: nat, n: nat)
    requires |PrintNat(m)| == |PrintNat(n)|
    ensures StrLess(PrintNat(m), PrintNat(n)) <==> m < n
  {
    if m < 10 {
      assert DigitValue(DigitChar(m)) == m && DigitValue(DigitChar(n)) == n;
    } else {
      EqualLengthOrder(m / 10, n / 10);
      ValueOfPrint(m / 10);
      ValueOfPrint(n / 10);
      assert DigitValue(DigitChar(m % 10)) == m % 10 && DigitValue(DigitChar(n % 10)) == n % 10;
      StrLessLastChars(PrintNat(m / 10), DigitChar(m % 10), PrintNat(n / 10), DigitChar(n % 10));
    }
  }

  /** A smaller number is also smaller as text exactly when it is at most the first digits of the larger one. */
  lemma {:induction false} TextOrderExactly(m: nat, n: nat)
    requires m < n
    ensures StrLess(PrintNat(m), PrintNat(n)) <==> m <= FirstDigits(n, |PrintNat(m)|)
    decreases n
  {
    LongerPrint(m, n);
    if |PrintNat(m)| == |PrintNat(n)| {
      EqualLengthOrder(m, n);
    } else {
      var front := n / 10;
      StrLessOneMore(PrintNat(m), PrintNat(front), DigitChar(n % 10));
      if m < front {
        TextOrderExactly(m, front);
      } else {
        LongerPrint(front, m);
        EqualLengthOrder(m, front);
        ValueOfPrint(m);
        ValueOfPrint(front);
      }
    }
  }

  lemma TagEnd(tag: string, m: nat, n: nat)
    ensures tag + PrintNat(m) == tag + PrintNat(n) <==> m == n
  {
    assert (tag + PrintNat(m))[|tag|..] == PrintNat(m) && (tag + PrintNat(n))[|tag|..] == PrintNat(n);
    ValueOfPrint(m);
    ValueOfPrint(n);
  }

  /**
   Section 11.4 of Semantic Versioning 2.0.0 orders numeric identifiers by their value. `Compare` does so
   exactly when the smaller number is at most the first digits of the larger one.
   */
  lemma TagNumbersInOrderExactly(v: Version, tag: string, m: nat, n: nat)
    requires m < n
    ensures Compare(v.(pre := tag + PrintNat(m)), v.(pre := tag + PrintNat(n))) < 0
       <==> m <= FirstDigits(n, |PrintNat(m)|)
  {
    hide PrintNat, FirstDigits;
    StrLessBehind(tag, PrintNat(m), PrintNat(n));
    TextOrderExactly(m, n);
    TagEnd(tag, m, n);
  }

  /** The tenth beta comes before the ninth, also with more identifiers behind the number. */
  lemma TenBeforeNine()
    ensures Compare(Version(1, 0, 0, "beta.10"), Version(1, 0, 0, "beta.9")) < 0
    ensures Compare(Version(1, 0, 0, "a.10.x"), Version(1, 0, 0, "a.9.x")) < 0
  {
    StrLessBehind("beta.", "10", "9");
    assert "beta." + "10" == "beta.10" && "beta." + "9" == "beta.9";
    StrLessBehind("a.", "10.x", "9.x");
    assert "a." + "10.x" == "a.10.x" && "a." + "9.x" == "a.9.x";
  }

  lemma SmallNumbers()
    ensures PrintInt(0) == "0" && PrintInt(1) == "1" && PrintInt(2) == "2" && PrintInt(3) == "3"
  {
  }

  lemma ShownInputs()
    ensures Show(Version(1, 2, 3, "")) == "v1.2.3" && Show(Version(1, 2, 0, "beta.1")) == "v1.2.0-beta.1"
  {
    SmallNumbers();
    hide PrintInt;
    assert Numbers(Version(1, 2, 3, "")) == "1.2.3" && Numbers(Version(1, 2, 0, "beta.1")) == "1.2.0";
    assert "1.2.0" + "-" + "beta.1" == "1.2.0-beta.1";
  }

  lemma ParsedOfRaw(s: string, raw: string)
    requires Trimmed(s) && TrimPrefix(s, "v") == raw
    ensures Parsed(s) == ParsedRaw(raw)
  {
    hide ParsedRaw, TrimSpace;
    TrimSpaceOfTrimmed(s);
  }

  lemma WithoutDash(s: string)
    requires '-' !in s
    ensures Cut(s, '-').0 == s
  {
  }

  lemma EmptyRaw()
    ensures ParsedRaw("").None?
  {
  }

  lemma TwoNumbers()
    ensures ParsedRaw("1.2").None?
  {
    WithoutDash("1.2");
    SplitFirst("1", '.', "2");
    SplitNone("2", '.');
    assert "1" + ['.'] + "2" == "1.2";
    hide Part, Cut, SplitOn;
  }

  lemma LetterForNumber()
    ensures ParsedRaw("1.2.x").None?
  {
    WithoutDash("1.2.x");
    SplitNumbers("1", "2", "x");
    assert "1" + "." + "2" + "." + "x" == "1.2.x";
    assert !IsDigit("x"[0]) && Part("x").None?;
    hide Part, Cut, SplitOn;
  }

  lemma DashFirst()
    ensures ParsedRaw("-1.0.0").None?
  {
    CutAt("", '-', "1.0.0");
    assert "" + ['-'] + "1.0.0" == "-1.0.0";
    SplitNone("", '.');
    hide Part, Cut, SplitOn;
  }

  /** The "v" is optional, and these texts are no versions. */
  lemma ParsedInputs()
    ensures Parsed("v1.2.3") == Parsed("1.2.3") == Some(Version(1, 2, 3, ""))
    ensures Parsed("").None? && Parsed("v1.2").None? && Parsed("1.2.x").None? && Parsed("v-1.0.0").None?
  {
    ShownInputs();
    hide ParsedRaw, Parsed, Show;
    ParseOfShow(Version(1, 2, 3, ""));
    ParsedRawOfShow(Version(1, 2, 3, ""));
    assert "v1.2.3"[1..] == "1.2.3";
    ParsedOfRaw("1.2.3", "1.2.3");
    ParsedOfRaw("", "");
    assert ParsedRaw("").None? by {
      EmptyRaw();
    }
    TwoNumbers();
    assert "v1.2"[1..] == "1.2";
    ParsedOfRaw("v1.2", "1.2");
    LetterForNumber();
    ParsedOfRaw("1.2.x", "1.2.x");
    DashFirst();
    assert "v-1.0.0"[1..] == "-1.0.0";
    ParsedOfRaw("v-1.0.0", "-1.0.0");
  }
}
