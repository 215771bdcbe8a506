/** pkg/audit/chain.go, and the append and verify operations of its Postgres repository. */
module AuditChain {
  import opened Prelude
  import opened GoStrings
  import opened Decimal
  import opened CanonicalJson

  /**
   One audit event. `at` is its time in nanoseconds since 1970; `metadata` is the JSON text of the
   metadata map, None when it holds something that cannot be written as JSON.
   */
  datatype Entry = Entry(
    at: int,
    actorUserId: string,
    action: string,
    category: string,
    target: string,
    requestId: string,
    metadata: Option<string>)

  datatype Error = NotSerializable | TimeMissing | StorageFailed

  // ---- Canonical form

  /** Truncation to a full microsecond. */
  function Truncate(at: int): (t: int)
    ensures t <= at < t + 1000 && t % 1000 == 0
  {
    at - at % 1000
  }

  /** `UnixNano` of the truncated time: a 64-bit number. */
  function OccurredAtNs(at: int): int {
    Wrap64(Truncate(at))
  }

  function CanonicalText(ns: int, actor: string, action: string, category: string, target: string,
                         requestId: string, metadata: string): string
  {
    "{\"occurred_at_ns\":" + (PrintInt(ns) + "," +
    StringField("\"actor_user_id\":", actor,
    StringField(",\"action\":", action,
    StringField(",\"category\":", category,
    StringField(",\"target\":", target,
    StringField(",\"request_id\":", requestId,
    ",\"metadata\":" + (metadata + "}")))))))
  }

  function Canonical(e: Entry): (r: Result<string, Error>)
    ensures r.Ok? ==> r.value != "" && r.value[0] == '{'
  {
    match e.metadata
    case None => Err(NotSerializable)
    case Some(m) =>
      Ok(CanonicalText(OccurredAtNs(e.at), e.actorUserId, e.action, e.category, e.target, e.requestId, m))
  }

  lemma BraceInside(m: string, rest: string)
    ensures m + "," + rest + "}" == m + ("," + (rest + "}"))
  {
  }

  /** The JSON object with these members, from left to right. */
  lemma ObjectOf(a: string, b: string, c: string, d: string, e: string, f: string, g: string)
    ensures "{" + JoinWith([a, b, c, d, e, f, g], ',') + "}"
         == "{" + (a + ("," + (b + ("," + (c + ("," + (d + ("," + (e + ("," + (f + ("," + (g + "}")))))))))))))
  {
    var g1 := JoinWith([g], ',');
    var f1 := JoinWith([f, g], ',');
    var e1 := JoinWith([e, f, g], ',');
    var d1 := JoinWith([d, e, f, g], ',');
    var c1 := JoinWith([c, d, e, f, g], ',');
    var b1 := JoinWith([b, c, d, e, f, g], ',');
    var a1 := JoinWith([a, b, c, d, e, f, g], ',');
    assert f1 == f + "," + g1 && e1 == e + "," + f1 && d1 == d + "," + e1;
    assert c1 == c + "," + d1 && b1 == b + "," + c1 && a1 == a + "," + b1;
    hide JoinWith;
    BraceInside(f, g1);
    BraceInside(e, f1);
    BraceInside(d, e1);
    BraceInside(c, d1);
    BraceInside(b, c1);
    BraceInside(a, b1);
    ConcatAssoc("{", a1, "}");
  }

  lemma FirstMembers(ns: string, actor: string, rest: string)
    ensures "{\"occurred_at_ns\":" + (ns + "," + StringField("\"actor_user_id\":", actor, rest))
         == "{" + (Member("occurred_at_ns", ns) + ("," + (Member("actor_user_id", Quote(actor)) + rest)))
  {
    hide Quote;
    var q := Quote(actor);
    assert StringField("\"actor_user_id\":", actor, rest) == Member("actor_user_id", q) + rest;
    var tail := Member("actor_user_id", q) + rest;
    hide StringField;
    assert "{\"occurred_at_ns\":" + (ns + "," + tail) == "{" + ("\"" + "occurred_at_ns" + "\":" + ns + ("," + tail));
  }

  /** The canonical text is a JSON object with these members in this order, whose time is cut to the microsecond. */
  lemma CanonicalLayout(e: Entry)
    ensures Canonical(e).Ok? <==> e.metadata.Some?
    ensures e.metadata.Some? ==>
              Canonical(e) == Ok(
                "{" + JoinWith(
                  [Member("occurred_at_ns", PrintInt(Wrap64(e.at - e.at % 1000))),
                   Member("actor_user_id", Quote(e.actorUserId)),
                   Member("action", Quote(e.action)),
                   Member("category", Quote(e.category)),
                   Member("target", Quote(e.target)),
                   Member("request_id", Quote(e.requestId)),
                   Member("metadata", e.metadata.value)], ',') + "}")
  {
    if e.metadata.Some? {
      var m := e.metadata.value;
      var ns := PrintInt(OccurredAtNs(e.at));
      var x5 := ",\"metadata\":" + (m + "}");
      var x4 := StringField(",\"request_id\":", e.requestId, x5);
      var x3 := StringField(",\"target\":", e.target, x4);
      var x2 := StringField(",\"category\":", e.category, x3);
      var x1 := StringField(",\"action\":", e.action, x2);
      var x0 := StringField("\"actor_user_id\":", e.actorUserId, x1);
      assert Canonical(e) == Ok("{\"occurred_at_ns\":" + (ns + "," + x0));
      assert x5 == "," + (Member("metadata", m) + "}");
      hide Quote, PrintInt, JoinWith, StringField, Member, Canonical, CanonicalText;
      NamedField(",\"request_id\":", "request_id", e.requestId, x5);
      NamedField(",\"target\":", "target", e.target, x4);
      NamedField(",\"category\":", "category", e.category, x3);
      NamedField(",\"action\":", "action", e.action, x2);
      FirstMembers(ns, e.actorUserId, x1);
      ObjectOf(Member("occurred_at_ns", ns), Member("actor_user_id", Quote(e.actorUserId)),
               Member("action", Quote(e.action)), Member("category", Quote(e.category)),
               Member("target", Quote(e.target)), Member("request_id", Quote(e.requestId)), Member("metadata", m));
    }
  }

  /** Two entries that differ at most below the microsecond (and by multiples of 2^64 ns). */
  ghost predicate SameEvent(a: Entry, b: Entry) {
    a.(at := 0) == b.(at := 0) && OccurredAtNs(a.at) == OccurredAtNs(b.at)
  }

  /** Within the range of a 64-bit nanosecond clock, that is agreement on the microsecond. */
  lemma SameEventMicrosecond(a: Entry, b: Entry)
    requires InInt64(Truncate(a.at)) && InInt64(Truncate(b.at))
    ensures SameEvent(a, b) <==> a.(at := Truncate(a.at)) == b.(at := Truncate(b.at))
  {
  }

  lemma SameEnd(x: string, y: string, end: string)
    requires x + end == y + end
    ensures x == y
  {
    assert |x| == |y|;
    assert (x + end)[..|x|] == x && (y + end)[..|y|] == y;
  }

  lemma CanonicalTextInjective(
    ns: int, actor: string, action: string, category: string, target: string, requestId: string, metadata: string,
    ns': int, actor': string, action': string, category': string, target': string, requestId': string,
    metadata': string)
    requires CanonicalText(ns, actor, action, category, target, requestId, metadata)
          == CanonicalText(ns', actor', action', category', target', requestId', metadata')
    ensures ns == ns' && actor == actor' && action == action' && category == category'
    ensures target == target' && requestId == requestId' && metadata == metadata'
  {
    var x5, y5 := ",\"metadata\":" + (metadata + "}"), ",\"metadata\":" + (metadata' + "}");
    var x4, y4 := StringField(",\"request_id\":", requestId, x5), StringField(",\"request_id\":", requestId', y5);
    var x3, y3 := StringField(",\"target\":", target, x4), StringField(",\"target\":", target', y4);
    var x2, y2 := StringField(",\"category\":", category, x3), StringField(",\"category\":", category', y3);
    var x1, y1 := StringField(",\"action\":", action, x2), StringField(",\"action\":", action', y2);
    var x0, y0 := StringField("\"actor_user_id\":", actor, x1), StringField("\"actor_user_id\":", actor', y1);
    SameLead("{\"occurred_at_ns\":", PrintInt(ns) + "," + x0, PrintInt(ns') + "," + y0);
    NumberFieldInjective(ns, x0, ns', y0);
    StringFieldInjective("\"actor_user_id\":", actor, x1, actor', y1);
    StringFieldInjective(",\"action\":", action, x2, action', y2);
    StringFieldInjective(",\"category\":", category, x3, category', y3);
    StringFieldInjective(",\"target\":", target, x4, target', y4);
    StringFieldInjective(",\"request_id\":", requestId, x5, requestId', y5);
    SameLead(",\"metadata\":", metadata + "}", metadata' + "}");
    SameEnd(metadata, metadata', "}");
  }

  /** The canonical text determines the event. */
  lemma CanonicalInjective(a: Entry, b: Entry)
    requires Canonical(a).Ok? && Canonical(b).Ok?
    ensures Canonical(a) == Canonical(b) <==> SameEvent(a, b)
  {
    if Canonical(a) == Canonical(b) {
      CanonicalTextInjective(
        OccurredAtNs(a.at), a.actorUserId, a.action, a.category, a.target, a.requestId, a.metadata.value,
        OccurredAtNs(b.at), b.actorUserId, b.action, b.category, b.target, b.requestId, b.metadata.value);
    }
  }

  // ---- Hashes

  /** The 32 bytes of a SHA-256 value. */
  type Digest = d: seq<byte> | |d| == 32 witness seq(32, _ => 0)

  type Sha256 = string -> Digest

  function HexEncode(d: seq<byte>): (s: string)
    ensures |s| == 2 * |d| && forall i :: 0 <= i < |s| ==> IsHexDigit(s[i])
  {
    if d == [] then "" else [HexDigit(d[0] / 16), HexDigit(d[0] % 16)] + HexEncode(d[1..])
  }

  lemma {:induction false} HexEncodeInjective(a: seq<byte>, b: seq<byte>)
    requires HexEncode(a) == HexEncode(b)
    ensures a == b
  {
    if a == [] {
    } else {
      var s, t := HexEncode(a), HexEncode(b);
      assert |a| == |b|;
      assert s[2..] == HexEncode(a[1..]) && t[2..] == HexEncode(b[1..]);
      assert HexValue(s[0]) == a[0] / 16 && HexValue(t[0]) == b[0] / 16;
      assert HexValue(s[1]) == a[0] % 16 && HexValue(t[1]) == b[0] % 16;
      HexEncodeInjective(a[1..], b[1..]);
      assert a == [a[0]] + a[1..] && b == [b[0]] + b[1..];
    }
  }

  /** What goes into the hash: the previous hash's text directly followed by the canonical text. */
  function Preimage(prevHash: string, e: Entry): Result<string, Error> {
    match Canonical(e)
    case Err(err) => Err(err)
    case Ok(text) => Ok(prevHash + text)
  }

  ghost predicate IsHashText(s: string) {
    |s| == 64 && forall i :: 0 <= i < |s| ==> IsHexDigit(s[i])
  }

  function ComputeChainHash(prevHash: string, e: Entry, sha: Sha256): (r: Result<string, Error>)
    ensures r.Ok? <==> Canonical(e).Ok?
    ensures r.Ok? ==> r.value == HexEncode(sha(prevHash + Canonical(e).value))
    ensures r.Ok? ==> IsHashText(r.value)
  {
    match Preimage(prevHash, e)
    case Err(err) => Err(err)
    case Ok(text) => Ok(HexEncode(sha(text)))
  }

  /** Two different texts with one hash. */
  ghost predicate TextsCollide(x: Result<string, Error>, y: Result<string, Error>, sha: Sha256) {
    x.Ok? && y.Ok? && x.value != y.value && sha(x.value) == sha(y.value)
  }

  /** Genesis, or an earlier hash. */
  ghost predicate IsPrevHash(s: string) {
    s == "" || IsHashText(s)
  }

  lemma SplitAtBrace(a: string, x: string, b: string, y: string)
    requires IsPrevHash(a) && IsPrevHash(b) && a + x == b + y
    requires x != "" && x[0] == '{' && y != "" && y[0] == '{'
    ensures a == b && x == y
  {
    var s := a + x;
    assert a == "" ==> s[0] == '{';
    assert b == "" ==> s[0] == '{';
    assert a != "" ==> s[0] == a[0] && IsHexDigit(a[0]);
    assert b != "" ==> s[0] == b[0] && IsHexDigit(b[0]);
    assert |a| == |b|;
    assert s[..|a|] == a && s[..|b|] == b && s[|a|..] == x && s[|b|..] == y;
  }

  /** What is hashed: the previous hash, then from its first brace on the canonical text. */
  lemma HashedTextLayout(prevHash: string, e: Entry)
    requires IsPrevHash(prevHash) && Canonical(e).Ok?
    ensures Preimage(prevHash, e).Ok?
    ensures var t := Preimage(prevHash, e).value;
            && |prevHash| < |t| && t[..|prevHash|] == prevHash && t[|prevHash|..] == Canonical(e).value
            && t[|prevHash|] == '{' && (|prevHash| == 0 || |prevHash| == 64)
  {
  }

  /** Two lower-case hexadecimal digits for each byte, in order, the high half first. */
  lemma {:induction false} HexEncodeAt(d: seq<byte>, i: nat)
    requires i < |d|
    ensures HexEncode(d)[2 * i] == HexDigit(d[i] / 16) && HexEncode(d)[2 * i + 1] == HexDigit(d[i] % 16)
  {
    if i == 0 {
    } else {
      HexEncodeAt(d[1..], i - 1);
      assert HexEncode(d)[2..] == HexEncode(d[1..]);
      assert HexEncode(d)[2 * i] == HexEncode(d)[2..][2 * (i - 1)];
      assert HexEncode(d)[2 * i + 1] == HexEncode(d)[2..][2 * (i - 1) + 1];
    }
  }

  /** The layout without a separator is unambiguous. */
  lemma PreimageUnambiguous(prev: string, e: Entry, prev': string, e': Entry)
    requires IsPrevHash(prev) && IsPrevHash(prev')
    requires Preimage(prev, e).Ok? && Preimage(prev, e) == Preimage(prev', e')
    ensures prev == prev' && SameEvent(e, e')
  {
    var c, c' := Canonical(e).value, Canonical(e').value;
    assert prev + c == prev' + c';
    SplitAtBrace(prev, c, prev', c');
    CanonicalInjective(e, e');
  }

  // ---- The stored log

  datatype Row = Row(entry: Entry, prevHash: string, chainHash: string)

  ghost function LastHash(rows: seq<Row>): string {
    if rows == [] then "" else rows[|rows| - 1].chainHash
  }

  ghost predicate RowIntact(rows: seq<Row>, i: nat, sha: Sha256)
    requires i < |rows|
  {
    && rows[i].prevHash == LastHash(rows[..i])
    && ComputeChainHash(rows[i].prevHash, rows[i].entry, sha) == Ok(rows[i].chainHash)
  }

  /** Every row links to the one before it and recomputes. */
  ghost predicate Intact(rows: seq<Row>, sha: Sha256) {
    forall i :: 0 <= i < |rows| ==> RowIntact(rows, i, sha)
  }

  /**
   How the transaction of an append ends: nothing can be read, nothing is kept of the insert, it is
   committed although an error is reported, or it is committed.
   */
  datatype Transaction = Unreadable | NotKept | Unconfirmed | Committed

  /** One append: the entry as given, the same entry as the database gives it back later, and the transaction. */
  datatype Request = Request(entry: Entry, stored: Entry, tx: Transaction)

  /** A row is added, unless the transaction loses it, there is no time, or no canonical text. */
  ghost predicate Adds(req: Request) {
    (req.tx == Unconfirmed || req.tx == Committed) && req.entry.at != ZERO_TIME && Canonical(req.entry).Ok?
  }

  /** The row that an append adds: hashed from the entry as given. */
  ghost function RowOf(prevHash: string, req: Request, sha: Sha256): Row
    requires Canonical(req.entry).Ok?
  {
    Row(req.stored, prevHash, ComputeChainHash(prevHash, req.entry, sha).value)
  }

  ghost function AfterAppend(rows: seq<Row>, req: Request, sha: Sha256): seq<Row> {
    if Adds(req) then rows + [RowOf(LastHash(rows), req, sha)] else rows
  }

  ghost function AfterAppends(rows: seq<Row>, reqs: seq<Request>, sha: Sha256): seq<Row>
    decreases reqs
  {
    if reqs == [] then rows else AfterAppends(AfterAppend(rows, reqs[0], sha), reqs[1..], sha)
  }

  /** The event comes back from storage as it was hashed, or as one whose text collides with it. */
  ghost predicate ComesBack(prevHash: string, req: Request, sha: Sha256) {
    || SameEvent(req.entry, req.stored)
    || TextsCollide(Preimage(prevHash, req.entry), Preimage(prevHash, req.stored), sha)
  }

  /** Every added row of a run comes back. */
  ghost predicate AllComeBack(rows: seq<Row>, reqs: seq<Request>, sha: Sha256)
    decreases reqs
  {
    reqs == []
    || ((Adds(reqs[0]) ==> ComesBack(LastHash(rows), reqs[0], sha))
        && AllComeBack(AfterAppend(rows, reqs[0], sha), reqs[1..], sha))
  }

  /** Midnight of 1 January of the year 1, Go's zero time. */
  const ZERO_TIME: int := -62_135_596_800 * 1_000_000_000

  datatype Verdict = Valid | BrokenAt(index: nat) | Failed(error: Error)

  /** What comes back recomputes, and nothing else does. */
  lemma RecomputesExactly(prevHash: string, req: Request, sha: Sha256)
    requires Canonical(req.entry).Ok?
    ensures ComputeChainHash(prevHash, req.stored, sha) == ComputeChainHash(prevHash, req.entry, sha)
       <==> ComesBack(prevHash, req, sha)
  {
    var e, s := Canonical(req.entry), Canonical(req.stored);
    if s.Ok? {
      CanonicalInjective(req.entry, req.stored);
      if e != s {
        assert prevHash + e.value != prevHash + s.value by {
          assert (prevHash + e.value)[|prevHash|..] == e.value && (prevHash + s.value)[|prevHash|..] == s.value;
        }
      }
      if ComputeChainHash(prevHash, req.stored, sha) == ComputeChainHash(prevHash, req.entry, sha) {
        HexEncodeInjective(sha(prevHash + e.value), sha(prevHash + s.value));
      }
    }
  }

  /** A row's integrity depends only on the rows up to it. */
  lemma RowIntactLocal(a: seq<Row>, b: seq<Row>, k: nat, sha: Sha256)
    requires k < |a| && k < |b| && a[..k + 1] == b[..k + 1]
    ensures RowIntact(a, k, sha) <==> RowIntact(b, k, sha)
  {
    hide ComputeChainHash;
    assert a[k] == a[..k + 1][k] && b[k] == b[..k + 1][k];
    assert a[..k] == a[..k + 1][..k] && b[..k] == b[..k + 1][..k];
  }

  lemma IntactParts(rows: seq<Row>, n: nat, sha: Sha256)
    requires n <= |rows| && forall k :: 0 <= k < n ==> RowIntact(rows, k, sha)
    ensures Intact(rows[..n], sha)
  {
    hide RowIntact;
    forall k | 0 <= k < n ensures RowIntact(rows[..n], k, sha) {
      assert rows[..n][..k + 1] == rows[..k + 1];
      RowIntactLocal(rows, rows[..n], k, sha);
    }
  }

  /** One more row: the rows before it and the row itself. */
  lemma IntactOneMore(rows: seq<Row>, row: Row, sha: Sha256)
    ensures Intact(rows + [row], sha) <==> Intact(rows, sha) && RowIntact(rows + [row], |rows|, sha)
  {
    hide RowIntact;
    var more := rows + [row];
    assert more[..|rows|] == rows;
    if Intact(more, sha) {
      IntactParts(more, |rows|, sha);
    }
    if Intact(rows, sha) {
      forall k | 0 <= k < |rows| ensures RowIntact(more, k, sha) {
        assert more[..k + 1] == rows[..k + 1];
        RowIntactLocal(rows, more, k, sha);
      }
    }
  }

  /** An append keeps the log intact exactly when its event comes back from storage. */
  lemma AppendKeepsIntactExactly(rows: seq<Row>, req: Request, sha: Sha256)
    requires Adds(req)
    ensures Intact(AfterAppend(rows, req, sha), sha) <==> Intact(rows, sha) && ComesBack(LastHash(rows), req, sha)
  {
    hide Canonical, Preimage, Intact, ComesBack;
    var row := RowOf(LastHash(rows), req, sha);
    RecomputesExactly(LastHash(rows), req, sha);
    IntactOneMore(rows, row, sha);
    assert (rows + [row])[..|rows|] == rows;
  }

  lemma IntactGrows(rows: seq<Row>, i: nat, sha: Sha256)
    requires i < |rows| && Intact(rows[..i], sha) && RowIntact(rows, i, sha)
    ensures Intact(rows[..i + 1], sha) && LastHash(rows[..i + 1]) == rows[i].chainHash
  {
    hide RowIntact;
    var front := rows[..i + 1];
    assert front[..i] == rows[..i];
    forall k | 0 <= k <= i ensures RowIntact(front, k, sha) {
      assert front[..k + 1] == rows[..k + 1];
      if k < i {
        assert rows[..i][..k + 1] == rows[..k + 1];
        assert RowIntact(rows[..i], k, sha);
        RowIntactLocal(rows[..i], front, k, sha);
      } else {
        RowIntactLocal(rows, front, k, sha);
      }
    }
  }

  class Log {
    var rows: seq<Row>

    constructor ()
      ensures rows == []
    {
      rows := [];
    }

    /** `Append`: the hash is computed from the entry as given, the row keeps it as stored. */
    method Append(req: Request, sha: Sha256) returns (r: Result<string, Error>)
      modifies this
      ensures rows == AfterAppend(old(rows), req, sha)
      ensures Adds(req) ==>
                && |rows| == |old(rows)| + 1 && rows[..|old(rows)|] == old(rows)
                && rows[|old(rows)|].entry == req.stored
                && rows[|old(rows)|].prevHash == (if old(rows) == [] then "" else old(rows)[|old(rows)| - 1].chainHash)
                && rows[|old(rows)|].chainHash
                == HexEncode(sha(rows[|old(rows)|].prevHash + Canonical(req.entry).value))
      ensures !Adds(req) ==> rows == old(rows)
      ensures r.Ok? <==> Adds(req) && req.tx == Committed
      ensures r.Ok? ==> r == ComputeChainHash(LastHash(old(rows)), req.entry, sha) && r.value == LastHash(rows)
      ensures r == Err(TimeMissing) <==> req.tx != Unreadable && req.entry.at == ZERO_TIME
      ensures r == Err(NotSerializable) <==>
                req.tx != Unreadable && req.entry.at != ZERO_TIME && Canonical(req.entry).Err?
      ensures Intact(rows, sha) <==>
                old(Intact(rows, sha)) && (Adds(req) ==> ComesBack(LastHash(old(rows)), req, sha))
    {
      if req.tx == Unreadable {
        return Err(StorageFailed);
      }
      var prevHash := if rows == [] then "" else rows[|rows| - 1].chainHash;
      if req.entry.at == ZERO_TIME {
        return Err(TimeMissing);
      }
      r := ComputeChainHash(prevHash, req.entry, sha);
      if r.Err? {
        return r;
      }
      if req.tx == NotKept {
        return Err(StorageFailed);
      }
      AppendKeepsIntactExactly(rows, req, sha);
      rows := rows + [Row(req.stored, prevHash, r.value)];
      if req.tx == Unconfirmed {
        return Err(StorageFailed);
      }
    }

    /** `VerifyChain`: recomputes from genesis and names the first row that does not hold. */
    method VerifyChain(sha: Sha256) returns (v: Verdict)
      ensures v == Valid <==> Intact(rows, sha)
      ensures v.BrokenAt? ==> v.index < |rows| && Intact(rows[..v.index], sha) && !RowIntact(rows, v.index, sha)
      ensures v.Failed? ==> exists i :: 0 <= i < |rows| && Intact(rows[..i], sha) && rows[i].entry.metadata.None?
                                        && rows[i].prevHash == LastHash(rows[..i])
    {
      var prev := "";
      for i := 0 to |rows|
        invariant prev == LastHash(rows[..i]) && Intact(rows[..i], sha)
      {
        var row := rows[i];
        if row.prevHash != prev {
          assert !RowIntact(rows, i, sha);
          return BrokenAt(i);
        }
        var computed := ComputeChainHash(prev, row.entry, sha);
        if computed.Err? {
          assert !RowIntact(rows, i, sha);
          return Failed(computed.error);
        }
        if computed.value != row.chainHash {
          assert !RowIntact(rows, i, sha);
          return BrokenAt(i);
        }
        IntactGrows(rows, i, sha);
        prev := row.chainHash;
      }
      assert rows[..|rows|] == rows;
      return Valid;
    }
  }

  /** A log that was only ever appended to verifies exactly when every event came back from storage. */
  lemma {:induction false} HonestLogVerifiesExactly(rows: seq<Row>, reqs: seq<Request>, sha: Sha256)
    ensures Intact(AfterAppends(rows, reqs, sha), sha) <==> Intact(rows, sha) && AllComeBack(rows, reqs, sha)
    decreases reqs
  {
    hide Canonical, Intact, ComesBack;
    if reqs == [] {
    } else {
      if Adds(reqs[0]) {
        AppendKeepsIntactExactly(rows, reqs[0], sha);
      }
      HonestLogVerifiesExactly(AfterAppend(rows, reqs[0], sha), reqs[1..], sha);
    }
  }

  /** What the code prepares for: storage that only cuts the time to the microsecond. */
  ghost predicate OnlyCutsTime(req: Request) {
    req.stored == req.entry.(at := Truncate(req.entry.at))
  }

  lemma {:induction false} CutTimesComeBack(rows: seq<Row>, reqs: seq<Request>, sha: Sha256)
    requires forall req :: req in reqs ==> OnlyCutsTime(req)
    ensures AllComeBack(rows, reqs, sha)
    decreases reqs
  {
    hide Canonical, Preimage;
    if reqs == [] {
    } else {
      assert OnlyCutsTime(reqs[0]);
      assert Truncate(reqs[0].stored.at) == Truncate(reqs[0].entry.at);
      CutTimesComeBack(AfterAppend(rows, reqs[0], sha), reqs[1..], sha);
    }
  }

  /** On such storage every appended log verifies. */
  lemma CutTimesVerify(reqs: seq<Request>, sha: Sha256)
    requires forall req :: req in reqs ==> OnlyCutsTime(req)
    ensures Intact(AfterAppends([], reqs, sha), sha)
  {
    CutTimesComeBack([], reqs, sha);
    HonestLogVerifiesExactly([], reqs, sha);
  }

  /** Storage may do more: an actor ID given in upper case comes back in lower case, and the row no longer verifies. */
  lemma UpperCaseActorBreaks(sha: Sha256)
    ensures var e := Entry(0, "0F000000-0000-0000-0000-000000000000", "login", "", "", "", Some("null"));
            var s := e.(actorUserId := "0f000000-0000-0000-0000-000000000000");
            || !Intact(AfterAppend([], Request(e, s, Committed), sha), sha)
            || TextsCollide(Preimage("", e), Preimage("", s), sha)
  {
    var e := Entry(0, "0F000000-0000-0000-0000-000000000000", "login", "", "", "", Some("null"));
    var s := e.(actorUserId := "0f000000-0000-0000-0000-000000000000");
    assert e.actorUserId[1] != s.actorUserId[1];
    AppendKeepsIntactExactly([], Request(e, s, Committed), sha);
  }

  /** Metadata numbers come back as floating point, in which 2^53 + 1 is 2^53. */
  lemma LargeNumberBreaks(sha: Sha256)
    ensures var e := Entry(0, "", "payment", "", "", "", Some("{\"n\":9007199254740993}"));
            var s := e.(metadata := Some("{\"n\":9007199254740992}"));
            || !Intact(AfterAppend([], Request(e, s, Committed), sha), sha)
            || TextsCollide(Preimage("", e), Preimage("", s), sha)
  {
    var e := Entry(0, "", "payment", "", "", "", Some("{\"n\":9007199254740993}"));
    var s := e.(metadata := Some("{\"n\":9007199254740992}"));
    assert e.metadata.value[20] != s.metadata.value[20];
    AppendKeepsIntactExactly([], Request(e, s, Committed), sha);
  }

  // ---- Tamper evidence

  /** Rows of the two logs with different hashed texts of one hash. */
  ghost predicate RowsCollide(a: Row, b: Row, sha: Sha256) {
    TextsCollide(Preimage(a.prevHash, a.entry), Preimage(b.prevHash, b.entry), sha)
  }

  /** Two different texts with one hash, each hashed for one of the two logs. */
  ghost predicate Collision(a: seq<Row>, b: seq<Row>, sha: Sha256) {
    exists i, j :: 0 <= i < |a| && 0 <= j < |b| && RowsCollide(a[i], b[j], sha)
  }

  /** The same history: as many rows, and row by row the same event and the same hash. */
  ghost predicate SameHistory(a: seq<Row>, b: seq<Row>) {
    && |a| == |b|
    && forall i :: 0 <= i < |a| ==> SameEvent(a[i].entry, b[i].entry) && a[i].chainHash == b[i].chainHash
  }

  lemma RowLinks(rows: seq<Row>, sha: Sha256)
    requires rows != [] && Intact(rows, sha)
    ensures var n := |rows| - 1;
            && Intact(rows[..n], sha) && LastHash(rows[..n]) == rows[n].prevHash && IsPrevHash(rows[n].prevHash)
            && Preimage(rows[n].prevHash, rows[n].entry).Ok?
            && LastHash(rows) == HexEncode(sha(Preimage(rows[n].prevHash, rows[n].entry).value))
  {
    hide Preimage;
    var n := |rows| - 1;
    IntactParts(rows, n, sha);
    assert RowIntact(rows, n, sha);
    if n > 0 {
      assert RowIntact(rows, n - 1, sha);
      assert rows[..n][n - 1] == rows[n - 1];
    }
  }

  lemma ExtendHistory(a: seq<Row>, b: seq<Row>, sha: Sha256)
    requires a != [] && b != [] && LastHash(a) == LastHash(b)
    requires SameEvent(a[|a| - 1].entry, b[|b| - 1].entry)
    requires SameHistory(a[..|a| - 1], b[..|b| - 1]) || Collision(a[..|a| - 1], b[..|b| - 1], sha)
    ensures SameHistory(a, b) || Collision(a, b, sha)
  {
    hide SameEvent, RowsCollide;
    var p, q := a[..|a| - 1], b[..|b| - 1];
    if SameHistory(p, q) {
      forall i | 0 <= i < |a| ensures SameEvent(a[i].entry, b[i].entry) && a[i].chainHash == b[i].chainHash {
        if i < |p| {
          assert p[i] == a[i] && q[i] == b[i];
        }
      }
    } else {
      var i, j :| 0 <= i < |p| && 0 <= j < |q| && RowsCollide(p[i], q[j], sha);
      assert p[i] == a[i] && q[j] == b[j];
    }
  }

  /** Two logs that verify and end in the same hash tell the same history, or they exhibit a SHA-256 collision. */
  lemma {:induction false} TamperEvident(a: seq<Row>, b: seq<Row>, sha: Sha256)
    requires Intact(a, sha) && Intact(b, sha) && LastHash(a) == LastHash(b)
    ensures SameHistory(a, b) || Collision(a, b, sha)
    decreases |a|
  {
    if a != [] {
      RowLinks(a, sha);
    }
    if b != [] {
      RowLinks(b, sha);
    }
    if a != [] && b != [] {
      var m, n := |a| - 1, |b| - 1;
      var x, y := Preimage(a[m].prevHash, a[m].entry).value, Preimage(b[n].prevHash, b[n].entry).value;
      HexEncodeInjective(sha(x), sha(y));
      if x == y {
        PreimageUnambiguous(a[m].prevHash, a[m].entry, b[n].prevHash, b[n].entry);
        TamperEvident(a[..m], b[..n], sha);
        ExtendHistory(a, b, sha);
      } else {
        assert RowsCollide(a[m], b[n], sha);
      }
    }
  }

  /** The limit of it: a log whose last rows are cut off still verifies, so the last hash must be kept elsewhere. */
  lemma CutLogStillVerifies(rows: seq<Row>, n: nat, sha: Sha256)
    requires Intact(rows, sha) && n <= |rows|
    ensures Intact(rows[..n], sha)
    ensures n < |rows| ==> LastHash(rows[..n]) != LastHash(rows) || Collision(rows[..n], rows, sha)
  {
    IntactParts(rows, n, sha);
    if n < |rows| && LastHash(rows[..n]) == LastHash(rows) {
      TamperEvident(rows[..n], rows, sha);
    }
  }

  /** Positions of rows that are kept, in their order. */
  ghost predicate Positions(keep: seq<nat>, n: nat) {
    (forall i :: 0 <= i < |keep| ==> keep[i] < n) && forall i, j :: 0 <= i < j < |keep| ==> keep[i] < keep[j]
  }

  /** No row before a kept one is missing. */
  ghost predicate Leading(keep: seq<nat>) {
    forall i :: 0 <= i < |keep| ==> keep[i] == i
  }

  ghost function Kept(rows: seq<Row>, keep: seq<nat>): (kept: seq<Row>)
    requires Positions(keep, |rows|)
  {
    seq(|keep|, i requires 0 <= i < |keep| => rows[keep[i]])
  }

  lemma LeadingFits(keep: seq<nat>, n: nat)
    requires Positions(keep, n) && Leading(keep)
    ensures |keep| <= n
  {
    assert keep != [] ==> keep[|keep| - 1] == |keep| - 1;
  }

  /** As many increasing positions as there are places leave none out. */
  lemma {:induction false} FullPositions(keep: seq<nat>, n: nat)
    requires Positions(keep, n)
    ensures |keep| <= n
    ensures |keep| == n ==> Leading(keep)
  {
    if keep == [] {
    } else {
      var last := |keep| - 1;
      FullPositions(keep[..last], keep[last]);
      assert |keep| == n ==> Leading(keep[..last]);
    }
  }

  lemma LargerCollision(a: seq<Row>, front: seq<Row>, rows: seq<Row>, sha: Sha256)
    requires front <= rows && Collision(a, front, sha)
    ensures Collision(a, rows, sha)
  {
    var i, j :| 0 <= i < |a| && 0 <= j < |front| && RowsCollide(a[i], front[j], sha);
    assert rows[j] == front[j];
  }

  /** Which deletions pass: those at the end of the log, or there is a collision. */
  lemma DeletionPassesExactly(rows: seq<Row>, keep: seq<nat>, sha: Sha256)
    requires Intact(rows, sha) && Positions(keep, |rows|)
    ensures Leading(keep) ==> Intact(Kept(rows, keep), sha)
    ensures Intact(Kept(rows, keep), sha) ==> Leading(keep) || Collision(Kept(rows, keep), rows, sha)
  {
    hide RowIntact, SameEvent, Collision;
    var kept := Kept(rows, keep);
    if Leading(keep) {
      LeadingFits(keep, |rows|);
      assert kept == rows[..|keep|];
      IntactParts(rows, |keep|, sha);
    }
    if Intact(kept, sha) && keep != [] {
      var m := keep[|keep| - 1];
      var front := rows[..m + 1];
      IntactParts(rows, m + 1, sha);
      TamperEvident(kept, front, sha);
      if SameHistory(kept, front) {
        FullPositions(keep, m + 1);
      } else {
        LargerCollision(kept, front, rows, sha);
      }
    }
  }
}
