/**
 The parts of Go's `strings` package that the models use. A Go string holding valid UTF-8 is
 the sequence of its code points; byte order on such strings is code-point order.
 */
module GoStrings {
  // ---- Prefixes, suffixes, lengths

  predicate HasPrefix(s: string, p: string) {
    p <= s
  }

  predicate HasSuffix(s: string, p: string) {
    |p| <= |s| && s[|s| - |p|..] == p
  }

  predicate ContainsAny(s: string, chars: string) {
    exists c :: c in s && c in chars
  }

  function TrimPrefix(s: string, p: string): string {
    if HasPrefix(s, p) then s[|p|..] else s
  }

  function TrimSuffix(s: string, p: string): string {
    if HasSuffix(s, p) then s[..|s| - |p|] else s
  }

  /** Number of bytes of one code point in UTF-8. */
  function RuneLen(c: char): (n: nat)
    ensures 1 <= n <= 4
  {
    if c as int < 0x80 then 1 else if c as int < 0x800 then 2 else if c as int < 0x10000 then 3 else 4
  }

  /** `len(s)`: Go counts bytes. */
  function ByteLen(s: string): (n: nat)
    ensures n >= |s|
  {
    if s == "" then 0 else RuneLen(s[0]) + ByteLen(s[1..])
  }

  lemma {:induction false} ByteLenConcat(a: string, b: string)
    ensures ByteLen(a + b) == ByteLen(a) + ByteLen(b)
  {
    if a == "" {
      assert a + b == b;
    } else {
      assert (a + b)[1..] == a[1..] + b;
      ByteLenConcat(a[1..], b);
    }
  }

  lemma {:induction false} ByteLenGrows(a: string, b: string)
    requires a <= b
    ensures ByteLen(a) <= ByteLen(b) && (|a| < |b| ==> ByteLen(a) < ByteLen(b))
  {
    if a == "" {
    } else {
      assert a[1..] <= b[1..] && a[0] == b[0];
      ByteLenGrows(a[1..], b[1..]);
    }
  }

  /** Of two prefixes of one string, the one with more bytes has more code points. */
  lemma ByteLenOfPrefixes(a: string, b: string, whole: string)
    requires a <= whole && b <= whole
    ensures ByteLen(a) < ByteLen(b) <==> |a| < |b|
    ensures ByteLen(a) == ByteLen(b) <==> a == b
  {
    hide ByteLen;
    assert a == whole[..|a|] && b == whole[..|b|];
    if |a| <= |b| {
      assert a == b[..|a|];
      ByteLenGrows(a, b);
    } else {
      assert b == a[..|b|];
      ByteLenGrows(b, a);
    }
  }

  // ---- White space

  /** `unicode.IsSpace`. */
  predicate IsSpace(c: char) {
    var n := c as int;
    0x09 <= n <= 0x0D || n == 0x20 || n == 0x85 || n == 0xA0 || n == 0x1680 || 0x2000 <= n <= 0x200A
    || n == 0x2028 || n == 0x2029 || n == 0x202F || n == 0x205F || n == 0x3000
  }

  /** The 25 characters of Unicode that count as white space. */
  lemma SpacesExactly(c: char)
    ensures IsSpace(c) <==>
              || c == ' ' || c == '\t' || c == '\n' || c == '\r' || c == '\U{000B}' || c == '\U{000C}'
              || c in "\U{0085}\U{00A0}\U{1680}\U{2000}\U{2001}\U{2002}\U{2003}\U{2004}\U{2005}\U{2006}"
              || c in "\U{2007}\U{2008}\U{2009}\U{200A}\U{2028}\U{2029}\U{202F}\U{205F}\U{3000}"
  {
    assert c as int < 0x4000 ==> c == (c as int) as char;
  }

  function TrimLeft(s: string): (r: string)
    ensures r != "" ==> !IsSpace(r[0])
  {
    if s != "" && IsSpace(s[0]) then TrimLeft(s[1..]) else s
  }

  function TrimRight(s: string): string {
    if s != "" && IsSpace(s[|s| - 1]) then TrimRight(s[..|s| - 1]) else s
  }

  /** Neither the first nor the last character is white space. */
  predicate Trimmed(s: string) {
    s != "" ==> !IsSpace(s[0]) && !IsSpace(s[|s| - 1])
  }

  lemma {:induction false} TrimRightKeepsFirst(s: string)
    requires s != "" ==> !IsSpace(s[0])
    ensures Trimmed(TrimRight(s)) && TrimRight(s) <= s
  {
    if s == "" || !IsSpace(s[|s| - 1]) {
    } else {
      TrimRightKeepsFirst(s[..|s| - 1]);
    }
  }

  function TrimSpace(s: string): (r: string)
    ensures Trimmed(r)
  {
    TrimRightKeepsFirst(TrimLeft(s));
    TrimRight(TrimLeft(s))
  }

  /** Trimming changes nothing in a trimmed string, and removes one newline written after it. */
  lemma TrimSpaceOfTrimmed(s: string)
    requires Trimmed(s)
    ensures TrimSpace(s) == s
    ensures TrimSpace(s + "\n") == s
  {
    if s == "" {
      assert TrimLeft("\n") == TrimLeft("");
      assert s + "\n" == "\n";
    } else {
      assert (s + "\n")[..|s|] == s;
      assert TrimLeft(s + "\n") == s + "\n";
    }
  }

  // ---- Splitting at a separator character

  /** Position of the first `c`, or `|s|` when there is none. */
  function IndexOf(s: string, c: char): (i: nat)
    ensures i <= |s|
    ensures c !in s[..i]
    ensures i < |s| ==> s[i] == c
    ensures i == |s| <==> c !in s
  {
    if s == "" then 0
    else if s[0] == c then 0
    else
      var i := 1 + IndexOf(s[1..], c);
      assert s[..i] == [s[0]] + s[1..][..i - 1];
      assert s == [s[0]] + s[1..];
      i
  }

  lemma {:induction false} IndexOfFirst(a: string, c: char, rest: string)
    requires c !in a
    ensures IndexOf(a + [c] + rest, c) == |a|
  {
    if a == "" {
    } else {
      assert a[0] in a;
      assert (a + [c] + rest)[1..] == a[1..] + [c] + rest;
      IndexOfFirst(a[1..], c, rest);
    }
  }

  /** `strings.Cut`: the text before and after the first `c`, and whether there is one. */
  function Cut(s: string, c: char): (r: (string, string, bool))
    ensures r.2 ==> s == r.0 + [c] + r.1
    ensures !r.2 ==> r.0 == s && r.1 == ""
    ensures c !in r.0 && (r.2 <==> c in s)
  {
    var i := IndexOf(s, c);
    if i == |s| then (s, "", false) else (s[..i], s[i + 1..], true)
  }

  lemma CutAt(a: string, c: char, rest: string)
    requires c !in a
    ensures Cut(a + [c] + rest, c) == (a, rest, true)
  {
    IndexOfFirst(a, c, rest);
    assert (a + [c] + rest)[..|a|] == a;
    assert (a + [c] + rest)[|a| + 1..] == rest;
  }

  /** `strings.Split` at a one-character separator. */
  function SplitOn(s: string, c: char): (parts: seq<string>)
    ensures |parts| > 0
    decreases |s|
  {
    var i := IndexOf(s, c);
    if i == |s| then [s] else [s[..i]] + SplitOn(s[i + 1..], c)
  }

  lemma SplitFirst(a: string, c: char, rest: string)
    requires c !in a
    ensures SplitOn(a + [c] + rest, c) == [a] + SplitOn(rest, c)
  {
    var s := a + [c] + rest;
    IndexOfFirst(a, c, rest);
    assert s[..|a|] == a;
    assert s[|a| + 1..] == rest;
  }

  function JoinWith(parts: seq<string>, c: char): string
    requires |parts| > 0
  {
    if |parts| == 1 then parts[0] else parts[0] + [c] + JoinWith(parts[1..], c)
  }

  /** Splitting a joined list gives the list back when no part contains the separator. */
  lemma {:induction false} SplitOfJoin(parts: seq<string>, c: char)
    requires |parts| > 0
    requires forall p :: p in parts ==> c !in p
    ensures SplitOn(JoinWith(parts, c), c) == parts
  {
    if |parts| == 1 {
      assert c !in parts[0];
    } else {
      SplitOfJoin(parts[1..], c);
      SplitFirst(parts[0], c, JoinWith(parts[1..], c));
      assert parts == [parts[0]] + parts[1..];
    }
  }

  lemma SplitNone(s: string, c: char)
    requires c !in s
    ensures SplitOn(s, c) == [s]
  {
  }

  lemma Regroup(a: string, c: char, b: string, last: string)
    ensures a + [c] + b + [c] + last == a + [c] + (b + [c] + last)
  {
  }

  lemma {:induction false} SplitLast(front: string, c: char, last: string)
    requires c !in last
    ensures SplitOn(front + [c] + last, c) == SplitOn(front, c) + [last]
    decreases |front|
  {
    hide SplitOn;
    var (head, tail, found) := Cut(front, c);
    SplitNone(last, c);
    if !found {
      SplitFirst(front, c, last);
      SplitNone(front, c);
    } else {
      Regroup(head, c, tail, last);
      SplitFirst(head, c, tail);
      SplitFirst(head, c, tail + [c] + last);
      SplitLast(tail, c, last);
    }
  }

  // ---- Order

  /** `a < b` on strings: lexicographic. */
  predicate StrLess(a: string, b: string) {
    b != "" && (a == "" || a[0] < b[0] || (a[0] == b[0] && StrLess(a[1..], b[1..])))
  }

  lemma {:induction false} StrLessTrichotomy(a: string, b: string)
    ensures StrLess(a, b) || a == b || StrLess(b, a)
    ensures !(StrLess(a, b) && StrLess(b, a))
    ensures a == b ==> !StrLess(a, b)
  {
    if a == "" || b == "" {
    } else {
      StrLessTrichotomy(a[1..], b[1..]);
      if a[0] == b[0] && a[1..] == b[1..] {
        assert a == [a[0]] + a[1..] == b;
      }
    }
  }

  lemma {:induction false} StrLessTransitive(a: string, b: string, c: string)
    requires StrLess(a, b) && StrLess(b, c)
    ensures StrLess(a, c)
  {
    if a == "" || a[0] < b[0] || b[0] < c[0] {
    } else {
      StrLessTransitive(a[1..], b[1..], c[1..]);
    }
  }

  ghost predicate FirstDifference(a: string, b: string, k: nat) {
    k <= |a| && k < |b| && a[..k] == b[..k] && (k == |a| || a[k] < b[k])
  }

  lemma {:induction false} StrLessDifference(a: string, b: string) returns (k: nat)
    requires StrLess(a, b)
    ensures FirstDifference(a, b, k)
  {
    if a == "" || a[0] < b[0] {
      k := 0;
    } else {
      var j := StrLessDifference(a[1..], b[1..]);
      k := j + 1;
      assert a[..k] == [a[0]] + a[1..][..j] && b[..k] == [b[0]] + b[1..][..j];
    }
  }

  lemma {:induction false} DifferenceDecides(a: string, b: string, k: nat)
    requires FirstDifference(a, b, k)
    ensures StrLess(a, b)
  {
    if k == 0 {
    } else {
      assert a[0] == a[..k][0] && b[0] == b[..k][0];
      assert a[1..][..k - 1] == a[..k][1..] && b[1..][..k - 1] == b[..k][1..];
      DifferenceDecides(a[1..], b[1..], k - 1);
    }
  }

  /** Lexicographic: at the first difference the smaller character decides, and a beginning comes before the whole. */
  lemma StrLessExactly(a: string, b: string)
    ensures StrLess(a, b) <==> exists k :: FirstDifference(a, b, k)
  {
    if StrLess(a, b) {
      var k := StrLessDifference(a, b);
    }
    forall k | FirstDifference(a, b, k) ensures StrLess(a, b) {
      DifferenceDecides(a, b, k);
    }
  }

  // ---- What trimming and splitting do to any text

  ghost predicate Blank(s: string) {
    forall i :: 0 <= i < |s| ==> IsSpace(s[i])
  }

  lemma {:induction false} TrimLeftParts(s: string) returns (a: string)
    ensures Blank(a) && s == a + TrimLeft(s)
  {
    if s == "" || !IsSpace(s[0]) {
      a := "";
    } else {
      var more := TrimLeftParts(s[1..]);
      a := [s[0]] + more;
      assert s == [s[0]] + s[1..];
    }
  }

  lemma {:induction false} TrimRightParts(s: string) returns (b: string)
    ensures Blank(b) && s == TrimRight(s) + b
  {
    if s == "" || !IsSpace(s[|s| - 1]) {
      b := "";
    } else {
      var more := TrimRightParts(s[..|s| - 1]);
      b := more + [s[|s| - 1]];
      assert s == s[..|s| - 1] + [s[|s| - 1]];
    }
  }

  lemma {:induction false} TrimLeftOfBlank(a: string, s: string)
    requires Blank(a)
    ensures TrimLeft(a + s) == TrimLeft(s)
  {
    if a == "" {
      assert a + s == s;
    } else {
      assert (a + s)[1..] == a[1..] + s;
      TrimLeftOfBlank(a[1..], s);
    }
  }

  lemma {:induction false} TrimRightOfBlank(s: string, b: string)
    requires Blank(b)
    ensures TrimRight(s + b) == TrimRight(s)
  {
    if b == "" {
      assert s + b == s;
    } else {
      assert (s + b)[..|s + b| - 1] == s + b[..|b| - 1];
      TrimRightOfBlank(s, b[..|b| - 1]);
    }
  }

  lemma TrimAround(a: string, t: string, b: string)
    requires Trimmed(t) && Blank(a) && Blank(b)
    ensures TrimSpace(a + t + b) == t
  {
    assert a + t + b == a + (t + b);
    TrimLeftOfBlank(a, t + b);
    TrimSpaceOfTrimmed(t);
    if t == "" {
      TrimLeftOfBlank(b, "");
      assert t + b == b + "";
    } else {
      assert (t + b)[0] == t[0];
      TrimRightOfBlank(t, b);
    }
  }

  /** Trimming removes exactly the white space around a text. */
  lemma TrimSpaceExactly(s: string, t: string)
    ensures TrimSpace(s) == t <==> Trimmed(t) && exists a: string, b: string :: Blank(a) && Blank(b) && s == a + t + b
  {
    var a := TrimLeftParts(s);
    var b := TrimRightParts(TrimLeft(s));
    assert s == a + TrimSpace(s) + b by {
      assert a + (TrimSpace(s) + b) == a + TrimSpace(s) + b;
    }
    forall a: string, b: string | Trimmed(t) && Blank(a) && Blank(b) && s == a + t + b ensures TrimSpace(s) == t {
      TrimAround(a, t, b);
    }
  }

  lemma {:induction false} JoinOfSplit(s: string, c: char)
    ensures JoinWith(SplitOn(s, c), c) == s && forall p :: p in SplitOn(s, c) ==> c !in p
    decreases |s|
  {
    var i := IndexOf(s, c);
    if i < |s| {
      JoinOfSplit(s[i + 1..], c);
      assert SplitOn(s, c)[1..] == SplitOn(s[i + 1..], c);
      assert s == s[..i] + [c] + s[i + 1..];
    }
  }

  /** The parts of a split are the only ones without the separator that join to the text. */
  lemma SplitOnExactly(s: string, c: char, parts: seq<string>)
    ensures SplitOn(s, c) == parts <==>
              parts != [] && (forall p :: p in parts ==> c !in p) && JoinWith(parts, c) == s
  {
    JoinOfSplit(s, c);
    if parts != [] && (forall p :: p in parts ==> c !in p) && JoinWith(parts, c) == s {
      SplitOfJoin(parts, c);
    }
  }

  lemma {:induction false} SplitConcat(a: string, c: char, b: string)
    ensures SplitOn(a + [c] + b, c) == SplitOn(a, c) + SplitOn(b, c)
    decreases |a|
  {
    hide SplitOn;
    var (head, tail, found) := Cut(a, c);
    if !found {
      SplitFirst(a, c, b);
      SplitNone(a, c);
    } else {
      Regroup(head, c, tail, b);
      SplitFirst(head, c, tail);
      SplitFirst(head, c, tail + [c] + b);
      SplitConcat(tail, c, b);
    }
  }
}
