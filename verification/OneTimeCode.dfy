/** pkg/helpers/helper_otp_code_generator.go: digits from random bytes by batched rejection sampling. */
module OneTimeCode {
  import opened Prelude
  import opened Decimal

  const PAYLOADS := "0123456789"
  /** Largest multiple of the number of digits that fits a byte. */
  const MAX_VALID := 256 - 256 % |PAYLOADS|

  datatype Error = RandomFailed

  lemma PayloadsInOrder(d: nat)
    requires d < 10
    ensures PAYLOADS[d] == DigitChar(d)
  {
    assert d == 0 || d == 1 || d == 2 || d == 3 || d == 4 || d == 5 || d == 6 || d == 7 || d == 8 || d == 9;
  }

  /** The simple form: every byte below the bound gives one digit, the others none. */
  function Digits(s: seq<byte>): (d: string)
    ensures |d| <= |s|
  {
    if s == [] then ""
    else (if s[0] < MAX_VALID then [PAYLOADS[s[0] % |PAYLOADS|]] else "") + Digits(s[1..])
  }

  /** The first `n` bytes that the random source delivers. */
  function Take(stream: nat -> byte, n: nat): (s: seq<byte>)
    ensures |s| == n
  {
    seq(n, i requires 0 <= i => stream(i))
  }

  lemma {:induction false} DigitsConcat(a: seq<byte>, b: seq<byte>)
    ensures Digits(a + b) == Digits(a) + Digits(b)
  {
    if a == [] {
      assert a + b == b;
    } else {
      assert (a + b)[1..] == a[1..] + b;
      DigitsConcat(a[1..], b);
    }
  }

  lemma TakeAt(stream: nat -> byte, n: nat, i: nat)
    requires i < n
    ensures Take(stream, n)[i] == stream(i)
  {
  }

  /** One byte: below 250 its last decimal digit, otherwise nothing. */
  lemma DigitsOfByte(b: byte)
    ensures Digits([b]) == if b < 250 then [DigitChar(b % 10)] else ""
  {
    assert [b][1..] == [] && Digits([]) == "";
    PayloadsInOrder(b % 10);
  }

  lemma TakeMore(stream: nat -> byte, m: nat, n: nat)
    requires m <= n
    ensures Digits(Take(stream, m)) <= Digits(Take(stream, n))
  {
    var s := Take(stream, n);
    assert s == Take(stream, m) + s[m..];
    DigitsConcat(Take(stream, m), s[m..]);
  }

  lemma OneByteMore(s: seq<byte>, i: nat)
    requires i < |s|
    ensures Digits(s[..i + 1]) == Digits(s[..i]) + (if s[i] < MAX_VALID then [PAYLOADS[s[i] % |PAYLOADS|]] else "")
  {
    assert s[..i + 1] == s[..i] + [s[i]];
    DigitsConcat(s[..i], [s[i]]);
    assert Digits([s[i]][1..]) == "";
  }

  /** How much of the stream that many full buffers take up. */
  ghost function Consumed(length: nat, batches: nat): nat {
    if batches == 0 then 0 else Consumed(length, batches - 1) + length + 10
  }

  lemma {:induction false} ConsumedIs(length: nat, batches: nat)
    ensures Consumed(length, batches) == batches * (length + 10)
  {
    if batches == 0 {
    } else {
      ConsumedIs(length, batches - 1);
    }
  }

  ghost predicate Enough(length: nat, stream: nat -> byte, batches: nat) {
    |Digits(Take(stream, Consumed(length, batches)))| >= length
  }

  /** The first `filled` cells hold the first digits found; more cells are free only if no digit was left out. */
  ghost predicate Filled(cells: seq<char>, filled: nat, found: string) {
    && filled <= |cells| && filled <= |found|
    && cells[..filled] == found[..filled]
    && (filled < |cells| ==> filled == |found|)
  }

  lemma NothingFilled(cells: seq<char>)
    ensures Filled(cells, 0, "")
  {
  }

  lemma FilledMeans(cells: seq<char>, filled: nat, found: string)
    requires Filled(cells, filled, found)
    ensures if filled < |cells| then |found| == filled else |cells| <= |found| && cells == found[..|cells|]
  {
    assert filled == |cells| ==> cells[..filled] == cells;
  }

  /** One byte of the buffer, on a code that is not complete. */
  lemma OneDigitMore(cells: seq<char>, filled: nat, found: string, s: seq<byte>, i: nat)
    requires i < |s| && Filled(cells, filled, found + Digits(s[..i])) && filled < |cells|
    ensures var digit := PAYLOADS[s[i] % |PAYLOADS|];
            if s[i] < MAX_VALID then Filled(cells[filled := digit], filled + 1, found + Digits(s[..i + 1]))
            else Filled(cells, filled, found + Digits(s[..i + 1]))
  {
    OneByteMore(s, i);
    var digit := PAYLOADS[s[i] % |PAYLOADS|];
    if s[i] < MAX_VALID {
      assert found + Digits(s[..i + 1]) == found + Digits(s[..i]) + [digit];
      assert cells[filled := digit][..filled + 1] == cells[..filled] + [digit];
    }
  }

  lemma FullStaysFull(cells: seq<char>, found: string, more: string)
    requires Filled(cells, |cells|, found) && found <= more
    ensures Filled(cells, |cells|, more)
  {
    assert more[..|cells|] == found[..|cells|];
  }

  lemma RestIgnored(cells: seq<char>, found: string, s: seq<byte>, i: nat)
    requires i <= |s| && Filled(cells, |cells|, found + Digits(s[..i]))
    ensures Filled(cells, |cells|, found + Digits(s))
  {
    assert s == s[..i] + s[i..];
    DigitsConcat(s[..i], s[i..]);
    FullStaysFull(cells, found + Digits(s[..i]), found + Digits(s));
  }

  /** The inner loop: one buffer, from the first byte on, until the code is complete. */
  method UseBuffer(result: array<char>, filled: nat, buf: array<byte>, ghost found: string) returns (filled': nat)
    requires Filled(result[..], filled, found)
    modifies result
    ensures filled' <= result.Length && Filled(result[..], filled', found + Digits(buf[..]))
  {
    filled' := filled;
    assert found + Digits(buf[..][..0]) == found;
    for i := 0 to buf.Length
      invariant Filled(result[..], filled', found + Digits(buf[..][..i]))
    {
      if filled' >= result.Length {
        RestIgnored(result[..], found, buf[..], i);
        return;
      }
      OneDigitMore(result[..], filled', found, buf[..], i);
      if buf[i] < MAX_VALID {
        result[filled'] := PAYLOADS[buf[i] % |PAYLOADS|];
        filled' := filled' + 1;
      }
    }
    assert buf[..][..buf.Length] == buf[..];
  }

  /** How many full buffers it takes, counted down from some number that is enough. */
  ghost function Needed(length: nat, stream: nat -> byte, enough: nat): nat {
    if enough > 0 && Enough(length, stream, enough - 1) then Needed(length, stream, enough - 1) else enough
  }

  lemma {:induction false} ConsumedGrows(length: nat, a: nat, b: nat)
    requires a <= b
    ensures Consumed(length, a) <= Consumed(length, b)
    decreases b
  {
    if a == b {
    } else {
      ConsumedGrows(length, a, b - 1);
    }
  }

  lemma EnoughStays(length: nat, stream: nat -> byte, a: nat, b: nat)
    requires a <= b && Enough(length, stream, a)
    ensures Enough(length, stream, b)
  {
    ConsumedGrows(length, a, b);
    TakeMore(stream, Consumed(length, a), Consumed(length, b));
  }

  /** The count is the least number of buffers that is enough. */
  lemma {:induction false} NeededIsLeast(length: nat, stream: nat -> byte, enough: nat, n: nat)
    requires Enough(length, stream, enough)
    ensures Enough(length, stream, n) <==> Needed(length, stream, enough) <= n
  {
    hide Enough;
    if enough > 0 && Enough(length, stream, enough - 1) {
      NeededIsLeast(length, stream, enough - 1, n);
    } else if n >= enough {
      EnoughStays(length, stream, enough, n);
    } else if Enough(length, stream, n) {
      EnoughStays(length, stream, n, enough - 1);
    }
  }

  lemma HorizonIsEnough(length: nat, stream: nat -> byte, horizon: nat)
    requires |Digits(Take(stream, horizon))| >= length
    ensures Enough(length, stream, horizon)
  {
    ConsumedIs(length, horizon);
    assert horizon * (length + 10) >= horizon;
    TakeMore(stream, horizon, Consumed(length, horizon));
  }

  /** The `k` full buffers before read `k` hold too few digits. */
  ghost predicate TooFewBefore(length: nat, stream: nat -> byte, k: nat) {
    |Digits(Take(stream, k * (length + 10)))| < length
  }

  /** Read `k` is needed exactly then. */
  lemma NeededExactly(length: nat, stream: nat -> byte, horizon: nat, k: nat)
    requires |Digits(Take(stream, horizon))| >= length
    ensures k < Needed(length, stream, horizon) <==> TooFewBefore(length, stream, k)
  {
    HorizonIsEnough(length, stream, horizon);
    hide Digits, Take, Needed;
    ConsumedIs(length, k);
    NeededIsLeast(length, stream, horizon, k);
  }

  lemma NothingTaken(stream: nat -> byte)
    ensures Digits(Take(stream, 0)) == ""
  {
  }

  lemma TakeBatch(stream: nat -> byte, pos: nat, batch: seq<byte>)
    requires forall i :: 0 <= i < |batch| ==> batch[i] == stream(pos + i)
    ensures Digits(Take(stream, pos + |batch|)) == Digits(Take(stream, pos)) + Digits(batch)
  {
    assert Take(stream, pos + |batch|) == Take(stream, pos) + batch;
    DigitsConcat(Take(stream, pos), batch);
  }

  lemma NowEnough(length: nat, stream: nat -> byte, n: nat)
    requires |Digits(Take(stream, Consumed(length, n)))| >= length
    ensures Enough(length, stream, n)
  {
  }

  lemma SamePrefix(stream: nat -> byte, m: nat, n: nat, length: nat)
    requires |Digits(Take(stream, m))| >= length && |Digits(Take(stream, n))| >= length
    ensures Digits(Take(stream, m))[..length] == Digits(Take(stream, n))[..length]
  {
    if m <= n {
      TakeMore(stream, m, n);
    } else {
      TakeMore(stream, n, m);
    }
  }

  /** After `n` needed buffers, that is after `pos` bytes, the cells hold the first digits. */
  ghost predicate Progress(length: nat, stream: nat -> byte, horizon: nat,
                           cells: seq<char>, filled: nat, n: nat, pos: nat)
  {
    && |cells| == length && filled <= length && pos == Consumed(length, n) && n <= Needed(length, stream, horizon)
    && Filled(cells, filled, Digits(Take(stream, pos)))
  }

  lemma AtStart(length: nat, stream: nat -> byte, horizon: nat, cells: seq<char>)
    requires |cells| == length
    ensures Progress(length, stream, horizon, cells, 0, 0, 0)
  {
    NothingTaken(stream);
  }

  /** While digits are missing, one more buffer is needed. */
  lemma OneMoreNeeded(length: nat, stream: nat -> byte, horizon: nat, cells: seq<char>, filled: nat, n: nat, pos: nat)
    requires |Digits(Take(stream, horizon))| >= length
    requires Progress(length, stream, horizon, cells, filled, n, pos) && filled < length
    ensures n < Needed(length, stream, horizon) && pos < horizon
    ensures pos == Consumed(length, n) && Filled(cells, filled, Digits(Take(stream, pos)))
  {
    hide Digits, Take, Needed, Consumed;
    FilledMeans(cells, filled, Digits(Take(stream, pos)));
    HorizonIsEnough(length, stream, horizon);
    if horizon <= pos {
      TakeMore(stream, horizon, pos);
    }
    NeededIsLeast(length, stream, horizon, n);
  }

  lemma NextBuffer(length: nat, stream: nat -> byte, horizon: nat, n: nat, pos: nat,
                   batch: seq<byte>, cells: seq<char>, filled: nat)
    requires pos == Consumed(length, n) && n < Needed(length, stream, horizon)
    requires |batch| == length + 10 && forall i :: 0 <= i < |batch| ==> batch[i] == stream(pos + i)
    requires |cells| == length && filled <= length && Filled(cells, filled, Digits(Take(stream, pos)) + Digits(batch))
    ensures Progress(length, stream, horizon, cells, filled, n + 1, pos + |batch|)
  {
    hide Digits, Take, Needed, Filled;
    TakeBatch(stream, pos, batch);
  }

  /** A full code consists of the first digits of the stream. */
  lemma AtEnd(length: nat, stream: nat -> byte, horizon: nat, cells: seq<char>, filled: nat, n: nat, pos: nat)
    requires |Digits(Take(stream, horizon))| >= length
    requires Progress(length, stream, horizon, cells, filled, n, pos) && filled >= length
    ensures cells == Digits(Take(stream, horizon))[..length] && n == Needed(length, stream, horizon)
  {
    hide Digits, Take, Needed, Consumed;
    FilledMeans(cells, filled, Digits(Take(stream, pos)));
    HorizonIsEnough(length, stream, horizon);
    NowEnough(length, stream, n);
    NeededIsLeast(length, stream, horizon, n);
    SamePrefix(stream, pos, horizon, length);
  }

  /** `rand.Read`: fills the whole buffer with the next bytes. */
  method ReadFull(buf: array<byte>, stream: nat -> byte, pos: nat)
    modifies buf
    ensures forall i :: 0 <= i < buf.Length ==> buf[i] == stream(pos + i)
  {
    forall i | 0 <= i < buf.Length {
      buf[i] := stream(pos + i);
    }
  }

  /**
   `GenerateOTPCode`: whatever the buffer boundaries, the code is the first `length` digits of the
   stream; an error comes exactly when one of the needed reads fails. `fails(k)` is the answer of read
   number k. `horizon` bounds where the stream has delivered `length` usable bytes; on a stream that
   never does, the loop does not end.
   */
  method GenerateOTPCode(length: nat, stream: nat -> byte, fails: nat -> bool, ghost horizon: nat)
    returns (r: Result<string, Error>)
    requires |Digits(Take(stream, horizon))| >= length
    ensures r.Ok? ==> r.value == Digits(Take(stream, horizon))[..length]
    ensures r.Err? <==> exists k :: 0 <= k < Needed(length, stream, horizon) && fails(k)
  {
    hide Digits, Take, Needed, Filled, Progress;
    var result := new char[length];
    var buf := new byte[length + 10];
    var filled: nat := 0;
    var n: nat, pos: nat := 0, 0;
    AtStart(length, stream, horizon, result[..]);
    while filled < length
      invariant Progress(length, stream, horizon, result[..], filled, n, pos)
      invariant forall k :: 0 <= k < n ==> !fails(k)
      decreases horizon - pos
    {
      OneMoreNeeded(length, stream, horizon, result[..], filled, n, pos);
      if fails(n) {
        return Err(RandomFailed);
      }
      ReadFull(buf, stream, pos);
      filled := UseBuffer(result, filled, buf, Digits(Take(stream, pos)));
      NextBuffer(length, stream, horizon, n, pos, buf[..], result[..], filled);
      n, pos := n + 1, pos + buf.Length;
    }
    AtEnd(length, stream, horizon, result[..], filled, n, pos);
    return Ok(result[..]);
  }
}
