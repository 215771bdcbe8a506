/** The four base64 codecs of Go's `encoding/base64` (RFC 4648), and the dispatch of pkg/secrethash. */
module Base64 {
  import opened Prelude
  import opened GoStrings

  /** The standard alphabet (section 4), or the URL-safe one (section 5). */
  function EncodeChar(url: bool, v: nat): char
    requires v < 64
  {
    if v < 26 then ('A' as int + v) as char
    else if v < 52 then ('a' as int + v - 26) as char
    else if v < 62 then ('0' as int + v - 52) as char
    else if v == 62 then if url then '-' else '+'
    else if url then '_' else '/'
  }

  function DecodeChar(url: bool, c: char): (v: Option<nat>)
    ensures v.Some? ==> v.value < 64
  {
    if 'A' <= c <= 'Z' then Some(c as int - 'A' as int)
    else if 'a' <= c <= 'z' then Some(c as int - 'a' as int + 26)
    else if '0' <= c <= '9' then Some(c as int - '0' as int + 52)
    else if c == (if url then '-' else '+') then Some(62)
    else if c == (if url then '_' else '/') then Some(63)
    else None
  }

  // Three bytes as four six-bit numbers, and back

  function Six0(x: byte): (v: nat) ensures v < 64 { x / 4 }

  function Six1(x: byte, y: byte): (v: nat) ensures v < 64 { x % 4 * 16 + y / 16 }

  function Six2(y: byte, z: byte): (v: nat) ensures v < 64 { y % 16 * 4 + z / 64 }

  function Six3(z: byte): (v: nat) ensures v < 64 { z % 64 }

  function Byte0(a: nat, b: nat): byte
    requires a < 64 && b < 64
  {
    a * 4 + b / 16
  }

  function Byte1(b: nat, c: nat): byte
    requires b < 64 && c < 64
  {
    b % 16 * 16 + c / 4
  }

  function Byte2(c: nat, d: nat): byte
    requires c < 64 && d < 64
  {
    c % 4 * 64 + d
  }

  function EncodeOne(url: bool, padded: bool, x: byte): string {
    [EncodeChar(url, Six0(x)), EncodeChar(url, Six1(x, 0))] + (if padded then "==" else "")
  }

  function EncodeTwo(url: bool, padded: bool, x: byte, y: byte): string {
    [EncodeChar(url, Six0(x)), EncodeChar(url, Six1(x, y)), EncodeChar(url, Six2(y, 0))] + (if padded then "=" else "")
  }

  /** Three bytes in four characters. */
  function EncodeBlock(url: bool, x: byte, y: byte, z: byte): (s: string)
    ensures |s| == 4
  {
    [EncodeChar(url, Six0(x)), EncodeChar(url, Six1(x, y)), EncodeChar(url, Six2(y, z)), EncodeChar(url, Six3(z))]
  }

  function Encode(url: bool, padded: bool, x: seq<byte>): string {
    if |x| == 0 then ""
    else if |x| == 1 then EncodeOne(url, padded, x[0])
    else if |x| == 2 then EncodeTwo(url, padded, x[0], x[1])
    else EncodeBlock(url, x[0], x[1], x[2]) + Encode(url, padded, x[3..])
  }

  /** The decoder ignores line breaks wherever they stand. */
  function DropLineBreaks(s: string): string {
    if s == "" then ""
    else if s[0] == '\r' || s[0] == '\n' then DropLineBreaks(s[1..])
    else [s[0]] + DropLineBreaks(s[1..])
  }

  /** Quantum by quantum; leftover low bits of a short last quantum are ignored, as in Go's default mode. */
  function DecodeQuanta(url: bool, padded: bool, s: string): Option<seq<byte>> {
    if |s| == 0 then Some([])
    else if |s| == 1 then None
    else
      match (DecodeChar(url, s[0]), DecodeChar(url, s[1]))
      case (Some(a), Some(b)) =>
        if |s| == 2 then if padded then None else Some([Byte0(a, b)])
        else (
            match DecodeChar(url, s[2])
            case Some(c) =>
              if |s| == 3 then if padded then None else Some([Byte0(a, b), Byte1(b, c)])
              else (
                  match DecodeChar(url, s[3])
                  case Some(d) => (
                    match DecodeQuanta(url, padded, s[4..])
                    case Some(rest) => Some([Byte0(a, b), Byte1(b, c), Byte2(c, d)] + rest)
                    case None => None
                  )
                  case None =>
                    if padded && |s| == 4 && s[3] == '=' then Some([Byte0(a, b), Byte1(b, c)]) else None
                )
            case None =>
              if padded && |s| == 4 && s[2] == '=' && s[3] == '=' then Some([Byte0(a, b)]) else None
          )
      case _ => None
  }

  function Decode(url: bool, padded: bool, s: string): Option<seq<byte>> {
    DecodeQuanta(url, padded, DropLineBreaks(s))
  }

  function B64(x: seq<byte>): string {
    Encode(false, false, x)
  }

  /** Any of the four forms is accepted: the alphabet is told by '-' and '_', the padding by a final '='. */
  function Unb64(s: string): Option<seq<byte>> {
    if ContainsAny(s, "-_") then
      if HasSuffix(s, "=") then Decode(true, true, s) else Decode(true, false, s)
    else if HasSuffix(s, "=") then Decode(false, true, s)
    else Decode(false, false, s)
  }

  // ---- Round trips

  lemma DecodeOfEncodeChar(url: bool, v: nat)
    requires v < 64
    ensures DecodeChar(url, EncodeChar(url, v)) == Some(v)
  {
  }

  predicate Base64Char(c: char) {
    'A' <= c <= 'Z' || 'a' <= c <= 'z' || '0' <= c <= '9' || c in "+/-_="
  }

  lemma CodeChar(url: bool, v: nat)
    requires v < 64
    ensures Base64Char(EncodeChar(url, v)) && EncodeChar(url, v) != '='
    ensures !url ==> EncodeChar(url, v) != '-' && EncodeChar(url, v) != '_'
  {
  }

  ghost predicate CodeText(url: bool, s: string) {
    forall i :: 0 <= i < |s| ==> Base64Char(s[i]) && (!url ==> s[i] != '-' && s[i] != '_')
  }

  lemma BlockChars(url: bool, x: byte, y: byte, z: byte)
    ensures CodeText(url, EncodeBlock(url, x, y, z)) && EncodeBlock(url, x, y, z)[3] != '='
  {
    CodeChar(url, Six0(x));
    CodeChar(url, Six1(x, y));
    CodeChar(url, Six2(y, z));
    CodeChar(url, Six3(z));
    hide EncodeChar;
  }

  lemma OneChars(url: bool, padded: bool, x: byte)
    ensures var s := EncodeOne(url, padded, x); CodeText(url, s) && s != "" && (s[|s| - 1] == '=' <==> padded)
  {
    CodeChar(url, Six0(x));
    CodeChar(url, Six1(x, 0));
    hide EncodeChar, Six0, Six1;
  }

  lemma TwoChars(url: bool, padded: bool, x: byte, y: byte)
    ensures var s := EncodeTwo(url, padded, x, y); CodeText(url, s) && s != "" && (s[|s| - 1] == '=' <==> padded)
  {
    CodeChar(url, Six0(x));
    CodeChar(url, Six1(x, y));
    CodeChar(url, Six2(y, 0));
    hide EncodeChar, Six0, Six1, Six2;
  }

  lemma ShortChars(url: bool, padded: bool, x: seq<byte>)
    requires |x| <= 2
    ensures CodeText(url, Encode(url, padded, x))
    ensures var s := Encode(url, padded, x); s != "" && s[|s| - 1] == '=' <==> padded && |x| != 0
  {
    if |x| == 1 {
      OneChars(url, padded, x[0]);
    } else if |x| == 2 {
      TwoChars(url, padded, x[0], x[1]);
    }
    hide EncodeOne, EncodeTwo, CodeText;
  }

  lemma {:induction false} EncodedChars(url: bool, padded: bool, x: seq<byte>)
    ensures CodeText(url, Encode(url, padded, x))
  {
    hide EncodeBlock;
    if |x| <= 2 {
      ShortChars(url, padded, x);
    } else {
      BlockChars(url, x[0], x[1], x[2]);
      EncodedChars(url, padded, x[3..]);
    }
  }

  lemma {:induction false} NoLineBreaks(s: string)
    requires forall i :: 0 <= i < |s| ==> Base64Char(s[i])
    ensures DropLineBreaks(s) == s
  {
    if s == "" {
    } else {
      NoLineBreaks(s[1..]);
    }
  }

  /** The bytes are put together again from their six-bit parts. */
  lemma FirstByte(x: byte, y: byte)
    ensures Byte0(Six0(x), Six1(x, y)) == x
  {
  }

  lemma SecondByte(x: byte, y: byte, z: byte)
    ensures Byte1(Six1(x, y), Six2(y, z)) == y
  {
    assert Six1(x, y) % 16 == y / 16;
    assert Six2(y, z) / 4 == y % 16;
  }

  lemma ThirdByte(y: byte, z: byte)
    ensures Byte2(Six2(y, z), Six3(z)) == z
  {
    assert Six2(y, z) % 4 == z / 64;
    assert z == z / 64 * 64 + z % 64;
  }

  lemma PadIsNoCode(url: bool)
    ensures DecodeChar(url, '=') == None
  {
  }

  lemma QuantaOfOne(url: bool, padded: bool, p: char, q: char)
    requires DecodeChar(url, p).Some? && DecodeChar(url, q).Some?
    ensures DecodeQuanta(url, padded, [p, q] + (if padded then "==" else ""))
         == Some([Byte0(DecodeChar(url, p).value, DecodeChar(url, q).value)])
  {
    PadIsNoCode(url);
    hide DecodeChar;
  }

  lemma QuantaOfTwo(url: bool, padded: bool, p: char, q: char, r: char)
    requires DecodeChar(url, p).Some? && DecodeChar(url, q).Some? && DecodeChar(url, r).Some?
    ensures var a, b, c := DecodeChar(url, p).value, DecodeChar(url, q).value, DecodeChar(url, r).value;
            DecodeQuanta(url, padded, [p, q, r] + (if padded then "=" else "")) == Some([Byte0(a, b), Byte1(b, c)])
  {
    PadIsNoCode(url);
    hide DecodeChar;
  }

  lemma QuantaOfBlock(url: bool, padded: bool, p: char, q: char, r: char, t: char, rest: string)
    requires DecodeChar(url, p).Some? && DecodeChar(url, q).Some?
    requires DecodeChar(url, r).Some? && DecodeChar(url, t).Some?
    requires DecodeQuanta(url, padded, rest).Some?
    ensures var a, b := DecodeChar(url, p).value, DecodeChar(url, q).value;
            var c, d := DecodeChar(url, r).value, DecodeChar(url, t).value;
            DecodeQuanta(url, padded, [p, q, r, t] + rest)
            == Some([Byte0(a, b), Byte1(b, c), Byte2(c, d)] + DecodeQuanta(url, padded, rest).value)
  {
    hide DecodeChar;
    assert ([p, q, r, t] + rest)[4..] == rest;
  }

  lemma DecodeOne(url: bool, padded: bool, x: byte)
    ensures DecodeQuanta(url, padded, EncodeOne(url, padded, x)) == Some([x])
  {
    hide EncodeChar, DecodeChar, DecodeQuanta, Six0, Six1, Byte0;
    FirstByte(x, 0);
    DecodeOfEncodeChar(url, Six0(x));
    DecodeOfEncodeChar(url, Six1(x, 0));
    QuantaOfOne(url, padded, EncodeChar(url, Six0(x)), EncodeChar(url, Six1(x, 0)));
  }

  lemma DecodeTwo(url: bool, padded: bool, x: byte, y: byte)
    ensures DecodeQuanta(url, padded, EncodeTwo(url, padded, x, y)) == Some([x, y])
  {
    hide EncodeChar, DecodeChar, DecodeQuanta, Six0, Six1, Six2, Byte0, Byte1;
    FirstByte(x, y);
    SecondByte(x, y, 0);
    DecodeOfEncodeChar(url, Six0(x));
    DecodeOfEncodeChar(url, Six1(x, y));
    DecodeOfEncodeChar(url, Six2(y, 0));
    QuantaOfTwo(url, padded, EncodeChar(url, Six0(x)), EncodeChar(url, Six1(x, y)), EncodeChar(url, Six2(y, 0)));
  }

  lemma DecodeBlock(url: bool, padded: bool, x: byte, y: byte, z: byte, rest: string)
    requires DecodeQuanta(url, padded, rest).Some?
    ensures DecodeQuanta(url, padded, EncodeBlock(url, x, y, z) + rest)
         == Some([x, y, z] + DecodeQuanta(url, padded, rest).value)
  {
    hide EncodeChar, DecodeChar, DecodeQuanta, Six0, Six1, Six2, Six3, Byte0, Byte1, Byte2;
    FirstByte(x, y);
    SecondByte(x, y, z);
    ThirdByte(y, z);
    DecodeOfEncodeChar(url, Six0(x));
    DecodeOfEncodeChar(url, Six1(x, y));
    DecodeOfEncodeChar(url, Six2(y, z));
    DecodeOfEncodeChar(url, Six3(z));
    QuantaOfBlock(url, padded, EncodeChar(url, Six0(x)), EncodeChar(url, Six1(x, y)),
                  EncodeChar(url, Six2(y, z)), EncodeChar(url, Six3(z)), rest);
  }

  lemma NothingToDecode(url: bool, padded: bool)
    ensures DecodeQuanta(url, padded, "") == Some([])
  {
  }

  lemma {:induction false} DecodeOfEncode(url: bool, padded: bool, x: seq<byte>)
    ensures DecodeQuanta(url, padded, Encode(url, padded, x)) == Some(x)
  {
    hide EncodeOne, EncodeTwo, EncodeBlock, DecodeQuanta;
    if |x| == 0 {
      NothingToDecode(url, padded);
    } else if |x| == 1 {
      DecodeOne(url, padded, x[0]);
      assert x == [x[0]];
    } else if |x| == 2 {
      DecodeTwo(url, padded, x[0], x[1]);
      assert x == [x[0], x[1]];
    } else {
      DecodeOfEncode(url, padded, x[3..]);
      DecodeBlock(url, padded, x[0], x[1], x[2], Encode(url, padded, x[3..]));
      assert x == [x[0], x[1], x[2]] + x[3..];
    }
  }

  /** Where no '-' or '_' occurs, the two alphabets give the same text. */
  lemma {:induction false} AlphabetsCoincide(padded: bool, x: seq<byte>)
    requires !ContainsAny(Encode(true, padded, x), "-_")
    ensures Encode(false, padded, x) == Encode(true, padded, x)
  {
    var s := Encode(true, padded, x);
    assert forall i :: 0 <= i < |s| ==> s[i] in s;
    assert '-' !in s && '_' !in s by {
      assert '-' in "-_" && '_' in "-_";
    }
    if |x| <= 2 {
    } else {
      assert s[4..] == Encode(true, padded, x[3..]);
      AlphabetsCoincide(padded, x[3..]);
    }
  }

  /** A final '=' shows padding; a text without one is the same padded or not. */
  lemma {:induction false} PaddingShows(url: bool, padded: bool, x: seq<byte>)
    ensures var s := Encode(url, padded, x); s != "" && s[|s| - 1] == '=' <==> padded && |x| % 3 != 0
    ensures |x| % 3 == 0 ==> Encode(url, padded, x) == Encode(url, false, x)
  {
    hide EncodeBlock, EncodeChar;
    if |x| <= 2 {
      ShortChars(url, padded, x);
    } else {
      BlockChars(url, x[0], x[1], x[2]);
      PaddingShows(url, padded, x[3..]);
      var s, t := Encode(url, padded, x), Encode(url, padded, x[3..]);
      assert t != "" ==> s[|s| - 1] == t[|t| - 1];
      assert t == "" ==> s[|s| - 1] == EncodeBlock(url, x[0], x[1], x[2])[3];
      assert (|x| - 3) % 3 == |x| % 3;
    }
  }

  /** Whichever of the four encoders wrote it, `Unb64` reads it back. */
  lemma Unb64OfEncode(url: bool, padded: bool, x: seq<byte>)
    ensures Unb64(Encode(url, padded, x)) == Some(x)
  {
    var s := Encode(url, padded, x);
    EncodedChars(url, padded, x);
    NoLineBreaks(s);
    PaddingShows(url, padded, x);
    var padding := HasSuffix(s, "=");
    assert padding <==> s != "" && s[|s| - 1] == '=';
    assert s == Encode(url, padding, x);
    if url && !ContainsAny(s, "-_") {
      AlphabetsCoincide(padding, x);
    }
    DecodeOfEncode(ContainsAny(s, "-_"), padding, x);
  }

  // ---- What the decoder accepts

  lemma EncodeOfDecodeChar(url: bool, c: char)
    requires DecodeChar(url, c).Some?
    ensures EncodeChar(url, DecodeChar(url, c).value) == c
  {
  }

  lemma FirstTwoSix(a: nat, b: nat, c: nat)
    requires a < 64 && b < 64 && c < 64
    ensures Six0(Byte0(a, b)) == a && Six1(Byte0(a, b), Byte1(b, c)) == b
  {
    assert Byte0(a, b) % 4 == b / 16 && Byte1(b, c) / 16 == b % 16;
  }

  lemma LastTwoSix(b: nat, c: nat, d: nat)
    requires b < 64 && c < 64 && d < 64
    ensures Six2(Byte1(b, c), Byte2(c, d)) == c && Six3(Byte2(c, d)) == d
  {
    assert Byte1(b, c) % 16 == c / 4 && Byte2(c, d) / 64 == c % 4;
  }

  /** The texts agree, except perhaps at the one position whose low bits carry no data. */
  ghost predicate AgreeExceptAt(s: string, t: string, spare: int) {
    |s| == |t| && forall i :: 0 <= i < |s| && i != spare ==> s[i] == t[i]
  }

  /** Position of the last character of a short final quantum; none when the bytes fill whole quanta. */
  function Spare(n: nat): int {
    if n % 3 == 0 then -1 else n / 3 * 4 + n % 3
  }

  lemma AcceptedShort(url: bool, padded: bool, s: string)
    requires DecodeQuanta(url, padded, s).Some? && |DecodeQuanta(url, padded, s).value| <= 2
    ensures var x := DecodeQuanta(url, padded, s).value; AgreeExceptAt(s, Encode(url, padded, x), Spare(|x|))
  {
    if s != "" {
      EncodeOfDecodeChar(url, s[0]);
      var a, b := DecodeChar(url, s[0]).value, DecodeChar(url, s[1]).value;
      FirstTwoSix(a, b, 0);
      if |s| > 2 && DecodeChar(url, s[2]).Some? {
        EncodeOfDecodeChar(url, s[1]);
        FirstTwoSix(a, b, DecodeChar(url, s[2]).value);
      }
    }
    hide EncodeChar, DecodeChar, Six0, Six1, Six2, Byte0, Byte1;
  }

  /** Only a text of four or more characters of the alphabet gives more than two bytes. */
  lemma FewCharacters(url: bool, padded: bool, s: string)
    requires DecodeQuanta(url, padded, s).Some? && (|s| < 4 || exists i :: 0 <= i < 4 && DecodeChar(url, s[i]).None?)
    ensures |DecodeQuanta(url, padded, s).value| <= 2
  {
    hide DecodeChar, Byte0, Byte1, Byte2;
  }

  lemma BlockShape(url: bool, padded: bool, s: string)
    requires DecodeQuanta(url, padded, s).Some? && |s| >= 4 && forall i :: 0 <= i < 4 ==> DecodeChar(url, s[i]).Some?
    ensures DecodeQuanta(url, padded, s[4..]).Some?
    ensures var a, b := DecodeChar(url, s[0]).value, DecodeChar(url, s[1]).value;
            var c, d := DecodeChar(url, s[2]).value, DecodeChar(url, s[3]).value;
            DecodeQuanta(url, padded, s).value
            == [Byte0(a, b), Byte1(b, c), Byte2(c, d)] + DecodeQuanta(url, padded, s[4..]).value
  {
    hide DecodeChar, Byte0, Byte1, Byte2;
  }

  lemma BlockAccepted(url: bool, padded: bool, s: string)
    requires DecodeQuanta(url, padded, s).Some? && |DecodeQuanta(url, padded, s).value| > 2
    ensures var x := DecodeQuanta(url, padded, s).value;
            && |s| >= 4 && s[..4] == EncodeBlock(url, x[0], x[1], x[2])
            && DecodeQuanta(url, padded, s[4..]) == Some(x[3..])
  {
    hide DecodeQuanta, EncodeChar, DecodeChar, Six0, Six1, Six2, Six3, Byte0, Byte1, Byte2;
    if |s| < 4 || exists i :: 0 <= i < 4 && DecodeChar(url, s[i]).None? {
      FewCharacters(url, padded, s);
    }
    BlockShape(url, padded, s);
    var a, b := DecodeChar(url, s[0]).value, DecodeChar(url, s[1]).value;
    var c, d := DecodeChar(url, s[2]).value, DecodeChar(url, s[3]).value;
    FirstTwoSix(a, b, c);
    LastTwoSix(b, c, d);
    EncodeOfDecodeChar(url, s[0]);
    EncodeOfDecodeChar(url, s[1]);
    EncodeOfDecodeChar(url, s[2]);
    EncodeOfDecodeChar(url, s[3]);
    assert s[..4] == [s[0], s[1], s[2], s[3]];
  }

  lemma SpareShifts(n: nat)
    ensures Spare(n + 3) == if n % 3 == 0 then -1 else Spare(n) + 4
  {
  }

  /** A decoded text is the encoding of its value, up to the unused bits of a short last quantum. */
  lemma {:induction false} AcceptedIsEncoding(url: bool, padded: bool, s: string)
    requires DecodeQuanta(url, padded, s).Some?
    ensures var x := DecodeQuanta(url, padded, s).value; AgreeExceptAt(s, Encode(url, padded, x), Spare(|x|))
  {
    var x := DecodeQuanta(url, padded, s).value;
    if |x| <= 2 {
      AcceptedShort(url, padded, s);
    } else {
      BlockAccepted(url, padded, s);
      AcceptedIsEncoding(url, padded, s[4..]);
      hide DecodeQuanta, EncodeBlock;
      var e, t := Encode(url, padded, x), Encode(url, padded, x[3..]);
      assert e == EncodeBlock(url, x[0], x[1], x[2]) + t;
      assert s == s[..4] + s[4..];
      SpareShifts(|x| - 3);
    }
  }

  /** Whatever `Unb64` accepts is, line breaks aside, one of the four encodings of what it returns, up to spare bits. */
  lemma Unb64AcceptsEncodings(s: string)
    requires Unb64(s).Some?
    ensures exists url: bool, padded: bool ::
              var x := Unb64(s).value; AgreeExceptAt(DropLineBreaks(s), Encode(url, padded, x), Spare(|x|))
  {
    var url, padded := ContainsAny(s, "-_"), HasSuffix(s, "=");
    assert Unb64(s) == DecodeQuanta(url, padded, DropLineBreaks(s));
    hide ContainsAny, DecodeQuanta, DropLineBreaks;
    AcceptedIsEncoding(url, padded, DropLineBreaks(s));
  }

  // ---- The codes themselves

  /** The alphabets of sections 4 and 5: three runs of characters and two single ones. */
  lemma AlphabetExactly(url: bool, v: nat)
    requires v < 64
    ensures v < 26 ==>
              EncodeChar(url, 0) == 'A' && (v > 0 ==> EncodeChar(url, v) as int == EncodeChar(url, v - 1) as int + 1)
    ensures 26 <= v < 52 ==>
              EncodeChar(url, 26) == 'a' && (v > 26 ==> EncodeChar(url, v) as int == EncodeChar(url, v - 1) as int + 1)
    ensures 52 <= v < 62 ==>
              EncodeChar(url, 52) == '0' && (v > 52 ==> EncodeChar(url, v) as int == EncodeChar(url, v - 1) as int + 1)
    ensures EncodeChar(false, 62) == '+' && EncodeChar(false, 63) == '/'
    ensures EncodeChar(true, 62) == '-' && EncodeChar(true, 63) == '_'
  {
  }

  /** Three bytes and their four codes are the same 24-bit number. */
  lemma SameNumber(x: byte, y: byte, z: byte)
    ensures ((Six0(x) * 64 + Six1(x, y)) * 64 + Six2(y, z)) * 64 + Six3(z) == (x * 256 + y) * 256 + z
  {
    assert x == x / 4 * 4 + x % 4;
    assert y == y / 16 * 16 + y % 16;
    assert z == z / 64 * 64 + z % 64;
  }

  /** Test vectors of section 10 of RFC 4648: "f", "fo", "foo" and "foobar". */
  lemma Rfc4648Vectors()
    ensures Encode(false, true, [102]) == "Zg=="
    ensures Encode(false, true, [102, 111]) == "Zm8="
    ensures Encode(false, true, [102, 111, 111, 98, 97, 114]) == "Zm9vYmFy"
  {
    assert [102, 111, 111, 98, 97, 114][3..] == [98, 97, 114] && [98, 97, 114][3..] == [];
  }

  lemma ShortText(s: string)
    requires s == "QQ" || s == "QR" || s == "QUI" || s == "QUL"
    ensures Unb64(s) == DecodeQuanta(false, false, s)
  {
    NoLineBreaks(s);
    hide DecodeQuanta, DropLineBreaks;
  }

  lemma DecodesTo65(s: string)
    requires s == "QQ" || s == "QR"
    ensures DecodeQuanta(false, false, s) == Some([65])
  {
    assert DecodeChar(false, 'Q') == Some(16) && DecodeChar(false, 'R') == Some(17);
    hide DecodeChar;
  }

  lemma DecodesTo6566(s: string)
    requires s == "QUI" || s == "QUL"
    ensures DecodeQuanta(false, false, s) == Some([65, 66])
  {
    assert DecodeChar(false, 'Q') == Some(16) && DecodeChar(false, 'U') == Some(20);
    assert DecodeChar(false, 'I') == Some(8) && DecodeChar(false, 'L') == Some(11);
    hide DecodeChar;
  }

  /** The low bits of a short last group may be anything. */
  lemma SpareBitsInputs()
    ensures Unb64("QQ") == Some([65]) && Unb64("QR") == Some([65])
    ensures Unb64("QUI") == Some([65, 66]) && Unb64("QUL") == Some([65, 66])
  {
    ShortText("QQ");
    ShortText("QR");
    ShortText("QUI");
    ShortText("QUL");
    hide Unb64, DecodeQuanta;
    DecodesTo65("QQ");
    DecodesTo65("QR");
    DecodesTo6566("QUI");
    DecodesTo6566("QUL");
  }

  lemma {:induction false} DropLineBreaksConcat(a: string, b: string)
    ensures DropLineBreaks(a + b) == DropLineBreaks(a) + DropLineBreaks(b)
  {
    if a == "" {
      assert a + b == b;
    } else {
      assert (a + b)[1..] == a[1..] + b;
      DropLineBreaksConcat(a[1..], b);
    }
  }

  lemma EndsAlike(a: string, b: string, c: char)
    requires b != ""
    ensures HasSuffix(a + b, [c]) <==> b[|b| - 1] == c
  {
    var s := a + b;
    assert s[|s| - 1] == b[|b| - 1];
    assert s[|s| - 1..] == [s[|s| - 1]];
  }

  /** A line break changes nothing, except after the whole text, where it hides the padding. */
  lemma LineBreaksIgnored(a: string, c: char, b: string)
    requires (c == '\n' || c == '\r') && b != ""
    ensures Unb64(a + [c] + b) == Unb64(a + b)
  {
    var s, t := a + [c] + b, a + b;
    assert DropLineBreaks(s) == DropLineBreaks(t) by {
      DropLineBreaksConcat(a + [c], b);
      DropLineBreaksConcat(a, [c]);
      DropLineBreaksConcat(a, b);
      assert [c][1..] == "";
    }
    EndsAlike(a + [c], b, '=');
    EndsAlike(a, b, '=');
    assert ContainsAny(s, "-_") <==> ContainsAny(t, "-_") by {
      forall ch | ch in "-_" ensures ch in s <==> ch in t {
      }
    }
    hide DecodeQuanta, DropLineBreaks, ContainsAny, HasSuffix;
  }
}
