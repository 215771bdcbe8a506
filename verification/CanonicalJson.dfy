/** The text that `encoding/json` writes for strings inside pkg/audit/chain.go, and why it can be taken apart again. */
module CanonicalJson {
  import opened Prelude
  import opened GoStrings
  import opened Decimal

  predicate IsHexDigit(c: char) {
    '0' <= c <= '9' || 'a' <= c <= 'f'
  }

  function HexValue(c: char): (n: nat)
    requires IsHexDigit(c)
    ensures n < 16
  {
    if c <= '9' then c as int - '0' as int else c as int - 'a' as int + 10
  }

  function HexDigit(n: nat): (c: char)
    requires n < 16
    ensures IsHexDigit(c) && HexValue(c) == n
  {
    if n < 10 then ('0' as int + n) as char else ('a' as int + n - 10) as char
  }

  // ---- Strings

  /** One character as it is written between the quotes, with HTML escaping on. */
  function Escape(c: char): (s: string)
    ensures s != "" && s[0] != '"'
  {
    var n := c as int;
    if c == '"' then "\\\"" else if c == '\\' then "\\\\"
    else if n == 0x08 then "\\b" else if n == 0x0C then "\\f"
    else if c == '\n' then "\\n" else if c == '\r' then "\\r" else if c == '\t' then "\\t"
    else if n < 0x20 || c == '<' || c == '>' || c == '&' then "\\u00" + [HexDigit(n / 16), HexDigit(n % 16)]
    else if n == 0x2028 || n == 0x2029 then "\\u202" + [HexDigit(n % 16)]
    else [c]
  }

  function EscapeAll(s: string): string {
    if s == "" then "" else Escape(s[0]) + EscapeAll(s[1..])
  }

  function Quote(s: string): string {
    "\"" + EscapeAll(s) + "\""
  }

  /** Reads one written character back. */
  function ReadChar(s: string): (r: Option<(char, string)>)
    ensures r.Some? ==> |r.value.1| < |s|
  {
    if s == "" then None
    else if s[0] != '\\' then Some((s[0], s[1..]))
    else if |s| < 2 then None
    else
      match s[1]
      case '"' => Some(('"', s[2..]))
      case '\\' => Some(('\\', s[2..]))
      case 'b' => Some((8 as char, s[2..]))
      case 'f' => Some((12 as char, s[2..]))
      case 'n' => Some(('\n', s[2..]))
      case 'r' => Some(('\r', s[2..]))
      case 't' => Some(('\t', s[2..]))
      case _ =>
        if |s| < 6 || !(forall i :: 2 <= i < 6 ==> IsHexDigit(s[i])) then None
        else
          var n := ((HexValue(s[2]) * 16 + HexValue(s[3])) * 16 + HexValue(s[4])) * 16 + HexValue(s[5]);
          if n < 0xD800 then Some((n as char, s[6..])) else None
  }

  lemma ReadOfEscape(c: char, rest: string)
    ensures ReadChar(Escape(c) + rest) == Some((c, rest))
  {
    var s := Escape(c) + rest;
    assert s[|Escape(c)|..] == rest;
    var n := c as int;
    if |Escape(c)| == 6 {
      assert n == n / 16 * 16 + n % 16;
      assert s[..6] == Escape(c);
      assert forall i :: 0 <= i < 6 ==> s[i] == Escape(c)[i];
    }
  }

  /** Reads up to the closing quote. */
  function ReadString(s: string): Option<(string, string)>
    decreases |s|
  {
    if s == "" then None
    else if s[0] == '"' then Some(("", s[1..]))
    else
      match ReadChar(s)
      case None => None
      case Some((c, rest)) =>
        match ReadString(rest)
        case None => None
        case Some((more, after)) => Some(([c] + more, after))
  }

  lemma {:induction false} ReadOfQuoted(s: string, rest: string)
    ensures ReadString(EscapeAll(s) + "\"" + rest) == Some((s, rest))
  {
    if s == "" {
      assert EscapeAll(s) + "\"" + rest == "\"" + rest;
    } else {
      ReadOfQuoted(s[1..], rest);
      var tail := EscapeAll(s[1..]) + "\"" + rest;
      ReadOfEscape(s[0], tail);
      assert (Escape(s[0]) + tail)[0] == Escape(s[0])[0];
      hide Escape, ReadChar;
      ConcatAssoc(Escape(s[0]), EscapeAll(s[1..]), "\"");
      ConcatAssoc(Escape(s[0]), EscapeAll(s[1..]) + "\"", rest);
      assert EscapeAll(s) + "\"" + rest == Escape(s[0]) + tail;
      assert s == [s[0]] + s[1..];
    }
  }

  lemma ReadOfQuote(s: string, rest: string)
    ensures ReadString((Quote(s) + rest)[1..]) == Some((s, rest))
  {
    ReadOfQuoted(s, rest);
    assert (Quote(s) + rest)[1..] == EscapeAll(s) + "\"" + rest;
  }

  /** A written string ends where it ends, whatever follows. */
  lemma QuoteInjective(a: string, x: string, b: string, y: string)
    requires Quote(a) + x == Quote(b) + y
    ensures a == b && x == y
  {
    ReadOfQuote(a, x);
    ReadOfQuote(b, y);
  }

  // ---- Fields

  function StringField(name: string, value: string, rest: string): string {
    name + (Quote(value) + rest)
  }

  lemma SameLead(lead: string, x: string, y: string)
    requires lead + x == lead + y
    ensures x == y
  {
    assert (lead + x)[|lead|..] == x && (lead + y)[|lead|..] == y;
  }

  lemma StringFieldInjective(name: string, a: string, x: string, b: string, y: string)
    requires StringField(name, a, x) == StringField(name, b, y)
    ensures a == b && x == y
  {
    SameLead(name, Quote(a) + x, Quote(b) + y);
    QuoteInjective(a, x, b, y);
  }

  /** A written number ends at the comma that follows it. */
  lemma NumberFieldInjective(a: int, x: string, b: int, y: string)
    requires PrintInt(a) + "," + x == PrintInt(b) + "," + y
    ensures a == b && x == y
  {
    IndexOfFirst(PrintInt(a), ',', x);
    IndexOfFirst(PrintInt(b), ',', y);
    var s := PrintInt(a) + "," + x;
    assert s[..|PrintInt(a)|] == PrintInt(a) && s[..|PrintInt(b)|] == PrintInt(b);
    PrintIntInjective(a, b);
    SameLead(PrintInt(a) + ",", x, y);
  }

  /** The sixteen digits of a hexadecimal text, in order. */
  lemma HexDigitExactly(n: nat)
    requires n < 16
    ensures HexDigit(0) == '0' && HexDigit(10) == 'a'
    ensures 0 < n < 10 || 10 < n ==> HexDigit(n) as int == HexDigit(n - 1) as int + 1
  {
  }

  /** What is written for each character: short escapes, four hexadecimal digits, or the character itself. */
  lemma EscapeExactly(c: char)
    ensures Escape('"') == "\\\"" && Escape('\\') == "\\\\"
    ensures Escape('\n') == "\\n" && Escape('\r') == "\\r" && Escape('\t') == "\\t"
    ensures Escape(8 as char) == "\\b" && Escape(12 as char) == "\\f"
    ensures Escape('<') == "\\u003c" && Escape('>') == "\\u003e" && Escape('&') == "\\u0026"
    ensures Escape(0x2028 as char) == "\\u2028" && Escape(0x2029 as char) == "\\u2029"
    ensures Escape(1 as char) == "\\u0001" && Escape(31 as char) == "\\u001f"
    ensures c as int >= 0x20 && c !in "\"\\<>&" && c as int != 0x2028 && c as int != 0x2029 ==> Escape(c) == [c]
  {
  }

  lemma {:induction false} EscapeAllConcat(a: string, b: string)
    ensures EscapeAll(a + b) == EscapeAll(a) + EscapeAll(b)
  {
    hide Escape;
    if a == "" {
      assert a + b == b;
    } else {
      assert (a + b)[1..] == a[1..] + b && (a + b)[0] == a[0];
      EscapeAllConcat(a[1..], b);
      ConcatAssoc(Escape(a[0]), EscapeAll(a[1..]), EscapeAll(b));
    }
  }

  /** A quoted text is its characters' escapes between quotes. */
  lemma QuoteConcat(a: string, b: string)
    ensures Quote(a + b) == "\"" + (EscapeAll(a) + EscapeAll(b)) + "\"" && Quote("") == "\"\""
    ensures a != "" ==> EscapeAll(a) == Escape(a[0]) + EscapeAll(a[1..])
  {
    EscapeAllConcat(a, b);
  }

  /** A member of a JSON object. */
  ghost function Member(name: string, text: string): string {
    "\"" + name + "\":" + text
  }

  lemma NamedField(lead: string, name: string, value: string, rest: string)
    requires lead == ",\"" + name + "\":"
    ensures StringField(lead, value, rest) == "," + (Member(name, Quote(value)) + rest)
  {
    hide Quote;
  }
}
