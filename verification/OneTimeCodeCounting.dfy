/** How many byte strings lead to each code: the sampler prefers no code over another. */
module OneTimeCodeCounting {
  import opened Prelude
  import opened OneTimeCode

  // ---- Counting

  ghost function Pow(b: nat, e: nat): nat {
    if e == 0 then 1 else b * Pow(b, e - 1)
  }

  /** Every string whose first byte is from `heads` and whose rest is from `tails`. */
  ghost function Prepend(heads: set<byte>, tails: set<seq<byte>>): set<seq<byte>> {
    set b, t | b in heads && t in tails :: [b] + t
  }

  lemma PrependMember(heads: set<byte>, tails: set<seq<byte>>, s: seq<byte>)
    ensures s in Prepend(heads, tails) <==> s != [] && s[0] in heads && s[1..] in tails
  {
    if s != [] {
      assert s == [s[0]] + s[1..];
    }
    if s in Prepend(heads, tails) {
      var b, t :| b in heads && t in tails && s == [b] + t;
      assert s[1..] == t;
    }
  }

  lemma {:induction false} PrependOneSize(b: byte, tails: set<seq<byte>>)
    ensures |Prepend({b}, tails)| == |tails|
  {
    if tails == {} {
    } else {
      var t :| t in tails;
      PrependOneSize(b, tails - {t});
      forall s ensures s in Prepend({b}, tails) <==> s in Prepend({b}, tails - {t}) + {[b] + t} {
        PrependMember({b}, tails, s);
        PrependMember({b}, tails - {t}, s);
        assert s != [] && s[0] == b ==> (s[1..] == t <==> s == [b] + t);
      }
      assert Prepend({b}, tails) == Prepend({b}, tails - {t}) + {[b] + t};
      PrependMember({b}, tails - {t}, [b] + t);
    }
  }

  lemma PrependSplit(heads: set<byte>, b: byte, tails: set<seq<byte>>)
    requires b in heads
    ensures Prepend(heads, tails) == Prepend(heads - {b}, tails) + Prepend({b}, tails)
    ensures Prepend(heads - {b}, tails) !! Prepend({b}, tails)
  {
    forall s
      ensures s in Prepend(heads, tails) <==> s in Prepend(heads - {b}, tails) || s in Prepend({b}, tails)
      ensures !(s in Prepend(heads - {b}, tails) && s in Prepend({b}, tails))
    {
      PrependMember(heads, tails, s);
      PrependMember(heads - {b}, tails, s);
      PrependMember({b}, tails, s);
    }
  }

  lemma Distribute(a: nat, b: nat)
    ensures (a + 1) * b == a * b + b
  {
  }

  lemma {:induction false} PrependSize(heads: set<byte>, tails: set<seq<byte>>)
    ensures |Prepend(heads, tails)| == |heads| * |tails|
  {
    if heads == {} {
      assert Prepend(heads, tails) == {};
    } else {
      var b :| b in heads;
      PrependSize(heads - {b}, tails);
      PrependOneSize(b, tails);
      PrependSplit(heads, b, tails);
      calc {
        |Prepend(heads, tails)|;
        |Prepend(heads - {b}, tails)| + |Prepend({b}, tails)|;
        |heads - {b}| * |tails| + |tails|;
        { Distribute(|heads - {b}|, |tails|); }
        (|heads - {b}| + 1) * |tails|;
        { assert |heads - {b}| + 1 == |heads|; }
        |heads| * |tails|;
      }
    }
  }

  predicate Between(b: byte, lo: nat, hi: nat) {
    lo <= b < hi
  }

  ghost function Interval(lo: nat, hi: nat): set<byte> {
    set b: byte | Between(b, lo, hi)
  }

  lemma {:induction false} IntervalSize(lo: nat, hi: nat)
    requires lo <= hi <= 256
    ensures |Interval(lo, hi)| == hi - lo
    decreases hi - lo
  {
    if lo == hi {
      assert Interval(lo, hi) == {};
    } else {
      IntervalSize(lo, hi - 1);
      assert Interval(lo, hi) == Interval(lo, hi - 1) + {hi - 1};
    }
  }

  /** The bytes below `10 * tens` whose last decimal digit is `d`. */
  ghost function Residues(d: nat, tens: nat): set<byte> {
    set b: byte | 0 <= b < 10 * tens && b % 10 == d
  }

  lemma {:induction false} ResiduesSize(d: nat, tens: nat)
    requires d < 10 && tens <= 25
    ensures |Residues(d, tens)| == tens
  {
    if tens == 0 {
      assert Residues(d, tens) == {};
    } else {
      ResiduesSize(d, tens - 1);
      var b: byte := 10 * (tens - 1) + d;
      forall c: byte ensures c in Residues(d, tens) <==> c in Residues(d, tens - 1) || c == b {
        assert c == c / 10 * 10 + c % 10;
      }
      assert Residues(d, tens) == Residues(d, tens - 1) + {b};
    }
  }

  // ---- Byte strings by their code

  ghost predicate IsCode(code: string) {
    forall i :: 0 <= i < |code| ==> '0' <= code[i] <= '9'
  }

  ghost function DigitOf(c: char): nat
    requires '0' <= c <= '9'
  {
    c as int - '0' as int
  }

  lemma DigitAt(k: nat, c: char)
    requires k < 10 && '0' <= c <= '9'
    ensures PAYLOADS[k] == c <==> k == DigitOf(c)
  {
  }

  /** A byte stands for a digit or is rejected. */
  lemma ByteClasses(c: char, b: byte)
    requires '0' <= c <= '9'
    ensures b in Residues(DigitOf(c), 25) <==> b < MAX_VALID && PAYLOADS[b % |PAYLOADS|] == c
    ensures b in Interval(250, 256) <==> b >= MAX_VALID
  {
    DigitAt(b % 10, c);
  }

  ghost function Strings(n: nat): set<seq<byte>> {
    if n == 0 then {[]} else Prepend(Interval(0, 256), Strings(n - 1))
  }

  lemma {:induction false} StringsMember(n: nat, s: seq<byte>)
    ensures s in Strings(n) <==> |s| == n
  {
    if n == 0 {
    } else {
      PrependMember(Interval(0, 256), Strings(n - 1), s);
      if s != [] {
        StringsMember(n - 1, s[1..]);
      }
    }
  }

  lemma {:induction false} StringsSize(n: nat)
    ensures |Strings(n)| == Pow(256, n)
  {
    if n == 0 {
    } else {
      StringsSize(n - 1);
      IntervalSize(0, 256);
      PrependSize(Interval(0, 256), Strings(n - 1));
    }
  }

  /** The byte strings of length `n` from which the sampler reads this code first. */
  ghost function Outcomes(n: nat, code: string): set<seq<byte>> {
    set s | s in Strings(n) && code <= Digits(s)
  }

  /** Their number, computed from the two lengths alone. */
  ghost function Ways(n: nat, length: nat): nat {
    if length == 0 then Pow(256, n)
    else if n == 0 then 0
    else 25 * Ways(n - 1, length - 1) + 6 * Ways(n - 1, length)
  }

  lemma CodeFromTail(code: string, s: seq<byte>)
    requires code != "" && s != []
    ensures s[0] >= MAX_VALID ==> (code <= Digits(s) <==> code <= Digits(s[1..]))
    ensures s[0] < MAX_VALID ==>
              (code <= Digits(s) <==> PAYLOADS[s[0] % |PAYLOADS|] == code[0] && code[1..] <= Digits(s[1..]))
  {
    var t := Digits(s[1..]);
    if s[0] < MAX_VALID {
      var d := Digits(s);
      assert d == [PAYLOADS[s[0] % |PAYLOADS|]] + t;
      assert d[1..] == t;
      if code[0] == d[0] && code[1..] <= t {
        assert code == [code[0]] + code[1..];
      }
    }
  }

  lemma FirstByteDecides(n: nat, code: string, s: seq<byte>)
    requires n > 0 && code != "" && IsCode(code)
    ensures s in Outcomes(n, code)
       <==> s in Prepend(Residues(DigitOf(code[0]), 25), Outcomes(n - 1, code[1..]))
              + Prepend(Interval(250, 256), Outcomes(n - 1, code))
  {
    StringsMember(n, s);
    PrependMember(Residues(DigitOf(code[0]), 25), Outcomes(n - 1, code[1..]), s);
    PrependMember(Interval(250, 256), Outcomes(n - 1, code), s);
    if s != [] {
      StringsMember(n - 1, s[1..]);
      ByteClasses(code[0], s[0]);
      CodeFromTail(code, s);
    }
  }

  lemma PrependDisjoint(a: set<byte>, s: set<seq<byte>>, b: set<byte>, t: set<seq<byte>>)
    requires a !! b
    ensures Prepend(a, s) !! Prepend(b, t)
  {
    forall x ensures !(x in Prepend(a, s) && x in Prepend(b, t)) {
      PrependMember(a, s, x);
      PrependMember(b, t, x);
    }
  }

  lemma OutcomesSplit(n: nat, code: string)
    requires n > 0 && code != "" && IsCode(code)
    ensures var hit := Prepend(Residues(DigitOf(code[0]), 25), Outcomes(n - 1, code[1..]));
            var miss := Prepend(Interval(250, 256), Outcomes(n - 1, code));
            Outcomes(n, code) == hit + miss && hit !! miss
  {
    forall s
      ensures s in Outcomes(n, code)
         <==> s in Prepend(Residues(DigitOf(code[0]), 25), Outcomes(n - 1, code[1..]))
                 + Prepend(Interval(250, 256), Outcomes(n - 1, code))
    {
      FirstByteDecides(n, code, s);
    }
    PrependDisjoint(Residues(DigitOf(code[0]), 25), Outcomes(n - 1, code[1..]),
                    Interval(250, 256), Outcomes(n - 1, code));
  }

  lemma OutcomesStep(n: nat, code: string)
    requires n > 0 && code != "" && IsCode(code)
    ensures |Outcomes(n, code)| == 25 * |Outcomes(n - 1, code[1..])| + 6 * |Outcomes(n - 1, code)|
  {
    hide Outcomes, Prepend, Residues, Interval;
    OutcomesSplit(n, code);
    PrependSize(Residues(DigitOf(code[0]), 25), Outcomes(n - 1, code[1..]));
    PrependSize(Interval(250, 256), Outcomes(n - 1, code));
    ResiduesSize(DigitOf(code[0]), 25);
    IntervalSize(250, 256);
  }

  lemma {:induction false} OutcomesSize(n: nat, code: string)
    requires IsCode(code)
    ensures |Outcomes(n, code)| == Ways(n, |code|)
    decreases n
  {
    if code == "" {
      assert Outcomes(n, code) == Strings(n);
      StringsSize(n);
    } else if n == 0 {
      assert Outcomes(n, code) == {};
    } else {
      hide Outcomes;
      OutcomesStep(n, code);
      OutcomesSize(n - 1, code[1..]);
      OutcomesSize(n - 1, code);
    }
  }

  /** The sampler answers `code` exactly when what the random source delivers is one of the code's outcomes. */
  lemma OutcomesAreTheSamplers(code: string, stream: nat -> byte, horizon: nat)
    requires |Digits(Take(stream, horizon))| >= |code|
    ensures Digits(Take(stream, horizon))[..|code|] == code <==> Take(stream, horizon) in Outcomes(horizon, code)
  {
    StringsMember(horizon, Take(stream, horizon));
    var d := Digits(Take(stream, horizon));
    assert code <= d <==> d[..|code|] == code;
  }

  /** Unbiased: among the byte strings of any length, every code of one length is equally frequent. */
  lemma EveryCodeEquallyLikely(n: nat, a: string, b: string)
    requires IsCode(a) && IsCode(b) && |a| == |b|
    ensures |Outcomes(n, a)| == |Outcomes(n, b)|
  {
    OutcomesSize(n, a);
    OutcomesSize(n, b);
  }

  lemma {:induction false} WaysExact(n: nat, length: nat)
    requires n <= length
    ensures Ways(n, length) == if n == length then Pow(25, n) else 0
  {
    if length == 0 || n == 0 {
    } else {
      WaysExact(n - 1, length - 1);
      WaysExact(n - 1, length);
    }
  }

  /** No byte of the string is rejected. */
  ghost predicate AllBelow(s: seq<byte>) {
    forall i :: 0 <= i < |s| ==> s[i] < MAX_VALID
  }

  lemma AllBelowFirst(s: seq<byte>)
    requires s != []
    ensures AllBelow(s) <==> s[0] < MAX_VALID && AllBelow(s[1..])
  {
    if s[0] < MAX_VALID && AllBelow(s[1..]) {
      forall i | 0 < i < |s| ensures s[i] < MAX_VALID {
        assert s[i] == s[1..][i - 1];
      }
    }
  }

  lemma DigitsOfFirst(s: seq<byte>)
    requires s != []
    ensures s[0] < MAX_VALID ==> Digits(s) == [PAYLOADS[s[0] % |PAYLOADS|]] + Digits(s[1..])
    ensures s[0] >= MAX_VALID ==> Digits(s) == Digits(s[1..])
  {
  }

  lemma {:induction false} AllUsable(s: seq<byte>, code: string)
    requires |s| == |code|
    ensures code <= Digits(s) <==> Digits(s) == code && AllBelow(s)
  {
    if s == [] {
    } else {
      CodeFromTail(code, s);
      AllUsable(s[1..], code[1..]);
      DigitsOfFirst(s);
      AllBelowFirst(s);
      hide Digits, AllBelow;
      assert code == [code[0]] + code[1..];
    }
  }

  /** Exactly 25 to the n strings of n usable bytes map to each code of n digits. */
  lemma PreimagesOfCode(code: string)
    requires IsCode(code)
    ensures |Outcomes(|code|, code)| == Pow(25, |code|)
    ensures forall s :: s in Outcomes(|code|, code)
                   <==> |s| == |code| && Digits(s) == code && AllBelow(s)
  {
    OutcomesSize(|code|, code);
    WaysExact(|code|, |code|);
    forall s ensures s in Outcomes(|code|, code)
                <==> |s| == |code| && Digits(s) == code && AllBelow(s)
    {
      StringsMember(|code|, s);
      if |s| == |code| {
        AllUsable(s, code);
      }
    }
  }
}
