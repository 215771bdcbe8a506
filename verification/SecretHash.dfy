/** pkg/secrethash/secrethash.go: printing and checking stored client-secret hashes. */
module SecretHash {
  import opened Prelude
  import opened GoStrings
  import opened Decimal
  import opened Base64

  const ARGON_MEMORY := 64 * 1024
  const ARGON_TIME := 3
  const ARGON_THREADS := 4
  const ARGON_KEY_LEN := 32
  const ARGON_VERSION := 19
  const SALT_LEN := 16
  const MIN_KEY_LEN := 16
  const MAX_KEY_LEN := 64
  const MAX_ITERATIONS := 1_000_000
  const TWO_32: nat := 0x1_0000_0000

  datatype Error = UnknownFormat | RandomFailed

  /** `argon2.IDKey(secret, salt, time, memory, threads, keyLen)`. */
  type Argon2 = (string, seq<byte>, nat, nat, nat, nat) -> seq<byte>

  /** `pbkdf2.Key(secret, salt, iter, keyLen)` over SHA-256. */
  type Pbkdf2 = (string, seq<byte>, nat, nat) -> seq<byte>

  // ---- Printing

  function VersionText(): string {
    "v=" + PrintNat(ARGON_VERSION)
  }

  function CostText(memory: nat, time: nat, threads: nat): string {
    "m=" + (PrintNat(memory) + (",t=" + (PrintNat(time) + (",p=" + PrintNat(threads)))))
  }

  function ArgonText(memory: nat, time: nat, threads: nat, salt: seq<byte>, key: seq<byte>): string {
    "$argon2id$" + VersionText() + "$" + CostText(memory, time, threads) + "$" + B64(salt) + "$" + B64(key)
  }

  /** `Hash`: `random` is the answer of the random source to a request for 16 bytes. */
  function Hash(secret: string, random: Option<seq<byte>>, argon: Argon2): Result<string, Error> {
    match random
    case None => Err(RandomFailed)
    case Some(salt) =>
      Ok(ArgonText(ARGON_MEMORY, ARGON_TIME, ARGON_THREADS, salt,
                   argon(secret, salt, ARGON_TIME, ARGON_MEMORY, ARGON_THREADS, ARGON_KEY_LEN)))
  }

  // ---- Checking

  /** `Sscanf(s, "v=%d")`. */
  function ScanVersion(s: string): Option<int> {
    match ScanLiteral(s, "v=")
    case None => None
    case Some(t) =>
      match ScanInt(t)
      case None => None
      case Some((v, _)) => Some(v)
  }

  function ScanField(s: string, lit: string, bound: nat): Option<(nat, string)> {
    match ScanLiteral(s, lit)
    case None => None
    case Some(t) => ScanUint(t, bound)
  }

  /** `Sscanf(s, "m=%d,t=%d,p=%d")` into two 32-bit and one 8-bit unsigned variables. */
  function ScanCosts(s: string): Option<(nat, nat, nat)> {
    match ScanField(s, "m=", TWO_32)
    case None => None
    case Some((m, s1)) =>
      match ScanField(s1, ",t=", TWO_32)
      case None => None
      case Some((t, s2)) =>
        match ScanField(s2, ",p=", 256)
        case None => None
        case Some((p, _)) => Some((m, t, p))
  }

  function VerifyArgon2id(encoded: string, secret: string, argon: Argon2): Result<bool, Error> {
    var parts := SplitOn(encoded, '$');
    if |parts| != 6 then Err(UnknownFormat)
    else if ScanVersion(parts[2]) != Some(ARGON_VERSION) then Err(UnknownFormat)
    else
      match ScanCosts(parts[3])
      case None => Err(UnknownFormat)
      case Some((memory, time, threads)) =>
        if memory == 0 || time == 0 || threads == 0 then Err(UnknownFormat)
        else
          match (Unb64(parts[4]), Unb64(parts[5]))
          case (Some(salt), Some(want)) =>
            if |want| < MIN_KEY_LEN || |want| > MAX_KEY_LEN then Err(UnknownFormat)
            else Ok(argon(secret, salt, time, memory, threads, |want|) == want)
          case _ => Err(UnknownFormat)
  }

  /** One `key=value` item with a positive value. */
  predicate GoodItem(kv: string) {
    var (_, v, found) := Cut(kv, '=');
    found && Atoi(v).Some? && Atoi(v).value > 0
  }

  /** The value of the last item with this key, 0 when there is none. */
  function LastValue(items: seq<string>, key: string): nat
    requires forall kv :: kv in items ==> GoodItem(kv)
  {
    if items == [] then 0
    else
      var last := items[|items| - 1];
      assert GoodItem(last);
      if Cut(last, '=').0 == key then Atoi(Cut(last, '=').1).value else LastValue(items[..|items| - 1], key)
  }

  /** Iterations and key length: every item is checked, the last one of each key counts, the bounds hold. */
  function Params(s: string): Option<(nat, nat)> {
    var items := SplitOn(s, ',');
    if exists kv :: kv in items && !GoodItem(kv) then None
    else
      var (iter, keyLen) := (LastValue(items, "i"), LastValue(items, "l"));
      if iter == 0 || keyLen == 0 || iter > MAX_ITERATIONS then None else Some((iter, keyLen))
  }

  /** One more item: it replaces the value of its own key. */
  lemma LastValueStep(items: seq<string>, n: nat, key: string)
    requires n < |items| && forall kv :: kv in items[..n + 1] ==> GoodItem(kv)
    ensures (forall kv :: kv in items[..n] ==> GoodItem(kv)) && GoodItem(items[n])
    ensures LastValue(items[..n + 1], key)
         == if Cut(items[n], '=').0 == key then Atoi(Cut(items[n], '=').1).value else LastValue(items[..n], key)
  {
    assert items[..n + 1] == items[..n] + [items[n]];
    assert items[..n + 1][..n] == items[..n];
  }

  lemma NoItems()
    ensures LastValue([], "i") == 0 && LastValue([], "l") == 0
  {
  }

  method ParsePBKDF2Params(s: string) returns (r: Result<(nat, nat), Error>)
    ensures match Params(s) case Some(p) => r == Ok(p) case None => r == Err(UnknownFormat)
  {
    hide LastValue, Cut, Atoi, SplitOn;
    var iter: nat, keyLen: nat := 0, 0;
    var items := SplitOn(s, ',');
    NoItems();
    for n := 0 to |items|
      invariant forall kv :: kv in items[..n] ==> GoodItem(kv)
      invariant iter == LastValue(items[..n], "i") && keyLen == LastValue(items[..n], "l")
    {
      var (k, v, ok) := Cut(items[n], '=');
      assert items[n] in items;
      if !ok {
        return Err(UnknownFormat);
      }
      var value := Atoi(v);
      if value.None? || value.value <= 0 {
        return Err(UnknownFormat);
      }
      assert items[..n + 1] == items[..n] + [items[n]];
      LastValueStep(items, n, "i");
      LastValueStep(items, n, "l");
      if k == "i" {
        iter := value.value;
      } else if k == "l" {
        keyLen := value.value;
      }
    }
    assert items[..|items|] == items;
    if iter == 0 || keyLen == 0 || iter > MAX_ITERATIONS {
      return Err(UnknownFormat);
    }
    return Ok((iter, keyLen));
  }

  function VerifyPBKDF2(encoded: string, secret: string, pbkdf2: Pbkdf2): Result<bool, Error> {
    var parts := SplitOn(encoded, '$');
    if |parts| != 5 then Err(UnknownFormat)
    else
      match (Params(parts[2]), Unb64(parts[3]), Unb64(parts[4]))
      case (Some((iter, keyLen)), Some(salt), Some(want)) =>
        if keyLen != |want| || keyLen < MIN_KEY_LEN || keyLen > MAX_KEY_LEN then Err(UnknownFormat)
        else Ok(pbkdf2(secret, salt, iter, keyLen) == want)
      case _ => Err(UnknownFormat)
  }

  function Verify(encoded: string, secret: string, argon: Argon2, pbkdf2: Pbkdf2): Result<bool, Error> {
    if HasPrefix(encoded, "$argon2id$") then VerifyArgon2id(encoded, secret, argon)
    else if HasPrefix(encoded, "$pbkdf2-sha256$") then VerifyPBKDF2(encoded, secret, pbkdf2)
    else Err(UnknownFormat)
  }

  predicate NeedsRehash(encoded: string) {
    !HasPrefix(encoded, "$argon2id$")
  }

  // ---- What is printed is read back

  lemma EncodedAvoidsDollar(url: bool, padded: bool, x: seq<byte>)
    ensures '$' !in Encode(url, padded, x)
  {
    EncodedChars(url, padded, x);
    hide Encode;
  }

  lemma NumbersAvoidDollar(memory: nat, time: nat, threads: nat)
    ensures '$' !in VersionText() && '$' !in CostText(memory, time, threads)
  {
    assert AllDigits(PrintNat(ARGON_VERSION)) && AllDigits(PrintNat(memory));
    assert AllDigits(PrintNat(time)) && AllDigits(PrintNat(threads));
  }

  lemma ScanFieldOfText(lit: string, n: nat, rest: string, bound: nat)
    requires n < bound && (rest == "" || !IsDigit(rest[0]))
    ensures ScanField(lit + (PrintNat(n) + rest), lit, bound) == Some((n, rest))
  {
    ScanOfPrint(n, rest);
    assert (lit + (PrintNat(n) + rest))[|lit|..] == PrintNat(n) + rest;
  }

  lemma ScanCostsOfText(memory: nat, time: nat, threads: nat)
    requires memory < TWO_32 && time < TWO_32 && threads < 256
    ensures ScanCosts(CostText(memory, time, threads)) == Some((memory, time, threads))
  {
    hide ScanField;
    var s2 := ",p=" + PrintNat(threads);
    var s1 := ",t=" + (PrintNat(time) + s2);
    assert PrintNat(threads) + "" == PrintNat(threads);
    ScanFieldOfText("m=", memory, s1, TWO_32);
    ScanFieldOfText(",t=", time, s2, TWO_32);
    ScanFieldOfText(",p=", threads, "", 256);
  }

  lemma ScanVersionOfText()
    ensures ScanVersion(VersionText()) == Some(ARGON_VERSION)
  {
    ScanOfPrint(ARGON_VERSION, "");
    assert PrintNat(ARGON_VERSION) + "" == PrintNat(ARGON_VERSION);
  }

  lemma SplitLead(lead: string, name: string, a: string)
    requires '$' !in name && '$' !in a && lead == "" + ['$'] + name + ['$']
    ensures SplitOn(lead + a, '$') == ["", name, a]
  {
    SplitNone("", '$');
    hide SplitOn;
    SplitLast("", '$', name);
    SplitLast("" + ['$'] + name, '$', a);
  }

  lemma SplitTwoMore(front: string, b: string, c: string)
    requires '$' !in b && '$' !in c
    ensures SplitOn(front + ['$'] + b + ['$'] + c, '$') == SplitOn(front, '$') + [b] + [c]
  {
    hide SplitOn;
    SplitLast(front, '$', b);
    SplitLast(front + ['$'] + b, '$', c);
  }

  /** A stored hash "$name$a$b$c" splits into its fields, after an empty one. */
  lemma SplitFields(lead: string, name: string, a: string, b: string, c: string)
    requires '$' !in name && '$' !in a && '$' !in b && '$' !in c && lead == "" + ['$'] + name + ['$']
    ensures SplitOn(lead + a + ['$'] + b + ['$'] + c, '$') == ["", name, a, b, c]
  {
    SplitLead(lead, name, a);
    SplitTwoMore(lead + a, b, c);
  }

  /** The printed hash splits at '$' into the six parts that were printed. */
  lemma SplitArgonText(memory: nat, time: nat, threads: nat, salt: seq<byte>, key: seq<byte>)
    ensures SplitOn(ArgonText(memory, time, threads, salt, key), '$')
         == ["", "argon2id", VersionText(), CostText(memory, time, threads), B64(salt), B64(key)]
  {
    var v, c, s, k := VersionText(), CostText(memory, time, threads), B64(salt), B64(key);
    EncodedAvoidsDollar(false, false, salt);
    EncodedAvoidsDollar(false, false, key);
    NumbersAvoidDollar(memory, time, threads);
    var lead := "$argon2id$";
    SplitFields(lead, "argon2id", v, c, s);
    SplitLast(lead + v + ['$'] + c + ['$'] + s, '$', k);
  }

  lemma ArgonLead(memory: nat, time: nat, threads: nat, salt: seq<byte>, key: seq<byte>)
    ensures HasPrefix(ArgonText(memory, time, threads, salt, key), "$argon2id$")
  {
    hide VersionText, CostText, Encode;
  }

  lemma VerifyArgonParts(text: string, v: string, c: string, s: string, k: string, secret: string, argon: Argon2)
    requires SplitOn(text, '$') == ["", "argon2id", v, c, s, k]
    requires ScanVersion(v) == Some(ARGON_VERSION) && ScanCosts(c).Some?
    requires ScanCosts(c).value.0 > 0 && ScanCosts(c).value.1 > 0 && ScanCosts(c).value.2 > 0
    requires Unb64(s).Some? && Unb64(k).Some? && MIN_KEY_LEN <= |Unb64(k).value| <= MAX_KEY_LEN
    ensures VerifyArgon2id(text, secret, argon)
         == Ok(argon(secret, Unb64(s).value, ScanCosts(c).value.1, ScanCosts(c).value.0, ScanCosts(c).value.2,
                     |Unb64(k).value|) == Unb64(k).value)
  {
    hide SplitOn, ScanVersion, ScanCosts, Unb64;
  }

  /** Any stored Argon2id hash with admissible parameters: no error, and the KDF output decides. */
  lemma VerifyArgonText(memory: nat, time: nat, threads: nat, salt: seq<byte>, key: seq<byte>,
                        secret: string, argon: Argon2, pbkdf2: Pbkdf2)
    requires 0 < memory < TWO_32 && 0 < time < TWO_32 && 0 < threads < 256
    requires MIN_KEY_LEN <= |key| <= MAX_KEY_LEN
    ensures Verify(ArgonText(memory, time, threads, salt, key), secret, argon, pbkdf2)
         == Ok(argon(secret, salt, time, memory, threads, |key|) == key)
  {
    var text := ArgonText(memory, time, threads, salt, key);
    ArgonLead(memory, time, threads, salt, key);
    SplitArgonText(memory, time, threads, salt, key);
    hide ArgonText, SplitOn, VerifyArgon2id, ScanVersion, ScanCosts, Unb64, VersionText, CostText, Encode;
    ScanVersionOfText();
    ScanCostsOfText(memory, time, threads);
    Unb64OfEncode(false, false, salt);
    Unb64OfEncode(false, false, key);
    VerifyArgonParts(text, VersionText(), CostText(memory, time, threads), B64(salt), B64(key), secret, argon);
  }

  /** `Verify(Hash(s), s')` never errors, and accepts exactly the secrets with the same KDF output. */
  lemma VerifyOfHash(secret: string, candidate: string, salt: seq<byte>, argon: Argon2, pbkdf2: Pbkdf2)
    requires |salt| == SALT_LEN
    requires |argon(secret, salt, ARGON_TIME, ARGON_MEMORY, ARGON_THREADS, ARGON_KEY_LEN)| == ARGON_KEY_LEN
    ensures Hash(secret, Some(salt), argon).Ok?
    ensures var encoded := Hash(secret, Some(salt), argon).value;
            && !NeedsRehash(encoded)
            && Verify(encoded, candidate, argon, pbkdf2)
            == Ok(argon(candidate, salt, ARGON_TIME, ARGON_MEMORY, ARGON_THREADS, ARGON_KEY_LEN)
                  == argon(secret, salt, ARGON_TIME, ARGON_MEMORY, ARGON_THREADS, ARGON_KEY_LEN))
  {
    var key := argon(secret, salt, ARGON_TIME, ARGON_MEMORY, ARGON_THREADS, ARGON_KEY_LEN);
    VerifyArgonText(ARGON_MEMORY, ARGON_TIME, ARGON_THREADS, salt, key, candidate, argon, pbkdf2);
    ArgonLead(ARGON_MEMORY, ARGON_TIME, ARGON_THREADS, salt, key);
  }

  // ---- Hashes taken over from the earlier server

  function ParamText(iter: nat, keyLen: nat): string {
    "i=" + PrintNat(iter) + ",l=" + PrintNat(keyLen)
  }

  /** The form of the migrated hashes, whichever of the four base64 variants wrote salt and key. */
  function Pbkdf2Text(iter: nat, salt: seq<byte>, key: seq<byte>, url: bool, padded: bool): string {
    "$pbkdf2-sha256$" + ParamText(iter, |key|) + "$" + Encode(url, padded, salt) + "$" + Encode(url, padded, key)
  }

  lemma ItemOfText(key: string, n: nat)
    requires '=' !in key && 0 < n < TWO_63
    ensures Cut(key + "=" + PrintNat(n), '=') == (key, PrintNat(n), true)
    ensures Atoi(PrintNat(n)) == Some(n) && GoodItem(key + "=" + PrintNat(n))
  {
    CutAt(key, '=', PrintNat(n));
    AtoiOfPrint(n);
  }

  lemma SplitParamText(iter: nat, keyLen: nat)
    ensures SplitOn(ParamText(iter, keyLen), ',') == ["i" + "=" + PrintNat(iter), "l" + "=" + PrintNat(keyLen)]
    ensures '$' !in ParamText(iter, keyLen)
  {
    var a, b := "i" + "=" + PrintNat(iter), "l" + "=" + PrintNat(keyLen);
    assert AllDigits(PrintNat(iter)) && AllDigits(PrintNat(keyLen));
    assert ParamText(iter, keyLen) == a + [','] + b;
    SplitFirst(a, ',', b);
  }

  lemma LastOfTwo(a: string, b: string, iter: nat, keyLen: nat)
    requires GoodItem(a) && GoodItem(b)
    requires Cut(a, '=').0 == "i" && Atoi(Cut(a, '=').1) == Some(iter)
    requires Cut(b, '=').0 == "l" && Atoi(Cut(b, '=').1) == Some(keyLen)
    ensures LastValue([a, b], "i") == iter && LastValue([a, b], "l") == keyLen
  {
    assert [a, b][..1] == [a];
    assert "i" != "l";
  }

  lemma ParamsOfText(iter: nat, keyLen: nat)
    requires 0 < iter <= MAX_ITERATIONS && 0 < keyLen < TWO_63
    ensures Params(ParamText(iter, keyLen)) == Some((iter, keyLen))
  {
    hide SplitOn, LastValue, Cut, Atoi, ParamText, PrintNat, GoodItem;
    ItemOfText("i", iter);
    ItemOfText("l", keyLen);
    SplitParamText(iter, keyLen);
    LastOfTwo("i" + "=" + PrintNat(iter), "l" + "=" + PrintNat(keyLen), iter, keyLen);
  }

  lemma SplitPbkdf2Fields(p: string, s: string, k: string)
    requires '$' !in p && '$' !in s && '$' !in k
    ensures SplitOn("$pbkdf2-sha256$" + p + ['$'] + s + ['$'] + k, '$') == ["", "pbkdf2-sha256", p, s, k]
  {
    var lead, name := "$pbkdf2-sha256$", "pbkdf2-sha256";
    assert lead == "" + ['$'] + name + ['$'];
    hide SplitOn;
    SplitFields(lead, name, p, s, k);
  }

  lemma SplitPbkdf2Text(iter: nat, salt: seq<byte>, key: seq<byte>, url: bool, padded: bool)
    ensures SplitOn(Pbkdf2Text(iter, salt, key, url, padded), '$')
         == ["", "pbkdf2-sha256", ParamText(iter, |key|), Encode(url, padded, salt), Encode(url, padded, key)]
  {
    var p, s, k := ParamText(iter, |key|), Encode(url, padded, salt), Encode(url, padded, key);
    hide SplitOn, Encode, ParamText;
    EncodedAvoidsDollar(url, padded, salt);
    EncodedAvoidsDollar(url, padded, key);
    SplitParamText(iter, |key|);
    SplitPbkdf2Fields(p, s, k);
  }

  lemma Pbkdf2Lead(text: string)
    requires "$pbkdf2-sha256$" <= text
    ensures HasPrefix(text, "$pbkdf2-sha256$") && !HasPrefix(text, "$argon2id$")
  {
    assert text[1] == "$pbkdf2-sha256$"[1] == 'p' && "$argon2id$"[1] == 'a';
  }

  lemma VerifyPbkdf2Parts(text: string, p: string, s: string, k: string, secret: string, pbkdf2: Pbkdf2)
    requires SplitOn(text, '$') == ["", "pbkdf2-sha256", p, s, k]
    requires Params(p).Some? && Unb64(s).Some? && Unb64(k).Some? && Params(p).value.1 == |Unb64(k).value|
    ensures VerifyPBKDF2(text, secret, pbkdf2)
         == if MIN_KEY_LEN <= |Unb64(k).value| <= MAX_KEY_LEN
            then Ok(pbkdf2(secret, Unb64(s).value, Params(p).value.0, |Unb64(k).value|) == Unb64(k).value)
            else Err(UnknownFormat)
  {
  }

  lemma MigratedNeedsRehash(iter: nat, salt: seq<byte>, key: seq<byte>, url: bool, padded: bool)
    ensures HasPrefix(Pbkdf2Text(iter, salt, key, url, padded), "$pbkdf2-sha256$")
    ensures NeedsRehash(Pbkdf2Text(iter, salt, key, url, padded))
  {
    hide ParamText, Encode;
    Pbkdf2Lead(Pbkdf2Text(iter, salt, key, url, padded));
  }

  /** A migrated hash is checked with its own parameters; it errors exactly outside the accepted bounds. */
  lemma VerifyPbkdf2Text(iter: nat, salt: seq<byte>, key: seq<byte>, url: bool, padded: bool,
                         secret: string, argon: Argon2, pbkdf2: Pbkdf2)
    requires 0 < iter <= MAX_ITERATIONS && 0 < |key| < TWO_63
    ensures Verify(Pbkdf2Text(iter, salt, key, url, padded), secret, argon, pbkdf2)
         == if MIN_KEY_LEN <= |key| <= MAX_KEY_LEN then Ok(pbkdf2(secret, salt, iter, |key|) == key)
            else Err(UnknownFormat)
  {
    var text := Pbkdf2Text(iter, salt, key, url, padded);
    var p, s, k := ParamText(iter, |key|), Encode(url, padded, salt), Encode(url, padded, key);
    MigratedNeedsRehash(iter, salt, key, url, padded);
    hide Pbkdf2Text, ParamText, SplitOn, Params, Unb64, Encode;
    SplitPbkdf2Text(iter, salt, key, url, padded);
    ParamsOfText(iter, |key|);
    Unb64OfEncode(url, padded, salt);
    Unb64OfEncode(url, padded, key);
    VerifyPbkdf2Parts(text, p, s, k, secret, pbkdf2);
    hide VerifyPBKDF2;
  }

  // ---- Which stored texts are accepted at all

  /** What `v=%d` reads. */
  ghost predicate ReadsVersion(s: string, version: int) {
    exists t: string, rest: string :: s == "v=" + (t + rest) && NumberText(t, version) && AfterNumber(rest)
  }

  ghost predicate CostTexts(s: string, a: string, b: string, c: string, rest: string) {
    s == "m=" + (a + (",t=" + (b + (",p=" + (c + rest))))) && AfterNumber(rest)
  }

  /** What `m=%d,t=%d,p=%d` reads into two 32-bit numbers and one of 8 bits. */
  ghost predicate ReadsCosts(s: string, memory: nat, time: nat, threads: nat) {
    && memory < 0x1_0000_0000 && time < 0x1_0000_0000 && threads < 256
    && exists a: string, b: string, c: string, rest: string ::
         CostTexts(s, a, b, c, rest) && UnsignedText(a, memory) && UnsignedText(b, time) && UnsignedText(c, threads)
  }

  lemma ScanVersionExactly(s: string, version: int)
    ensures ScanVersion(s) == Some(version) <==> ReadsVersion(s, version)
  {
    hide ScanInt, NumberText;
    if ScanVersion(s) == Some(version) {
      var rest := ScanInt(s[2..]).value.1;
      ScanIntExactly(s[2..], version, rest);
      var t: string :| s[2..] == t + rest && NumberText(t, version);
      assert s == "v=" + (t + rest);
    }
    forall t: string, rest: string | s == "v=" + (t + rest) && NumberText(t, version) && AfterNumber(rest)
      ensures ScanVersion(s) == Some(version)
    {
      ScanIntExactly(t + rest, version, rest);
      assert s[2..] == t + rest;
    }
  }

  lemma ScanFieldExactly(s: string, lit: string, bound: nat, n: nat, rest: string)
    ensures ScanField(s, lit, bound) == Some((n, rest))
       <==> n < bound && AfterNumber(rest) && exists t: string :: s == lit + (t + rest) && UnsignedText(t, n)
  {
    hide ScanUint, UnsignedText;
    if ScanField(s, lit, bound) == Some((n, rest)) {
      ScanUintExactly(s[|lit|..], bound, n, rest);
      var t: string :| s[|lit|..] == t + rest && UnsignedText(t, n);
      assert s == lit + (t + rest);
    }
    forall t: string | s == lit + (t + rest) && UnsignedText(t, n) && n < bound && AfterNumber(rest)
      ensures ScanField(s, lit, bound) == Some((n, rest))
    {
      ScanUintExactly(t + rest, bound, n, rest);
      assert s[|lit|..] == t + rest;
    }
  }

  lemma ScanCostsExactly(s: string, memory: nat, time: nat, threads: nat)
    ensures ScanCosts(s) == Some((memory, time, threads)) <==> ReadsCosts(s, memory, time, threads)
  {
    hide ScanField, UnsignedText;
    if ScanCosts(s) == Some((memory, time, threads)) {
      var s1 := ScanField(s, "m=", TWO_32).value.1;
      var s2 := ScanField(s1, ",t=", TWO_32).value.1;
      var rest := ScanField(s2, ",p=", 256).value.1;
      ScanFieldExactly(s, "m=", TWO_32, memory, s1);
      ScanFieldExactly(s1, ",t=", TWO_32, time, s2);
      ScanFieldExactly(s2, ",p=", 256, threads, rest);
      var a: string :| s == "m=" + (a + s1) && UnsignedText(a, memory);
      var b: string :| s1 == ",t=" + (b + s2) && UnsignedText(b, time);
      var c: string :| s2 == ",p=" + (c + rest) && UnsignedText(c, threads);
      assert CostTexts(s, a, b, c, rest);
    }
    if ReadsCosts(s, memory, time, threads) {
      var a: string, b: string, c: string, rest: string :|
        CostTexts(s, a, b, c, rest) && UnsignedText(a, memory) && UnsignedText(b, time) && UnsignedText(c, threads);
      var s2 := ",p=" + (c + rest);
      var s1 := ",t=" + (b + s2);
      ScanFieldExactly(s, "m=", TWO_32, memory, s1);
      ScanFieldExactly(s1, ",t=", TWO_32, time, s2);
      ScanFieldExactly(s2, ",p=", 256, threads, rest);
    }
  }

  /** The item sets `key` to the positive number `n`. */
  ghost predicate ItemSets(kv: string, key: string, n: int) {
    exists v: string :: '=' !in key && kv == key + "=" + v && SignedDigits(v, n) && 0 < n < TWO_63
  }

  lemma ItemExactly(kv: string, key: string, n: int)
    ensures ItemSets(kv, key, n)
       <==> GoodItem(kv) && Cut(kv, '=').0 == key && Atoi(Cut(kv, '=').1) == Some(n)
  {
    hide SignedDigits, Atoi;
    if GoodItem(kv) && Cut(kv, '=').0 == key && Atoi(Cut(kv, '=').1) == Some(n) {
      AtoiExactly(Cut(kv, '=').1, n);
    }
    forall v: string | '=' !in key && kv == key + "=" + v && SignedDigits(v, n) && 0 < n < TWO_63
      ensures GoodItem(kv) && Cut(kv, '=').0 == key && Atoi(Cut(kv, '=').1) == Some(n)
    {
      CutAt(key, '=', v);
      AtoiExactly(v, n);
    }
  }

  /** The last item for the key sets it to `n`. */
  ghost predicate LastSets(items: seq<string>, key: string, n: int) {
    exists j :: 0 <= j < |items| && ItemSets(items[j], key, n)
                && forall k, m :: j < k < |items| ==> !ItemSets(items[k], key, m)
  }

  lemma LastSetsStep(items: seq<string>, key: string, n: int)
    requires items != []
    ensures var last, front := items[|items| - 1], items[..|items| - 1];
            LastSets(items, key, n) <==>
              ItemSets(last, key, n) || ((forall m :: !ItemSets(last, key, m)) && LastSets(front, key, n))
  {
    hide ItemSets;
    var last, front := items[|items| - 1], items[..|items| - 1];
    if ItemSets(last, key, n) {
      assert ItemSets(items[|items| - 1], key, n);
    } else if (forall m :: !ItemSets(last, key, m)) && LastSets(front, key, n) {
      var j :| 0 <= j < |front| && ItemSets(front[j], key, n)
               && forall k, m :: j < k < |front| ==> !ItemSets(front[k], key, m);
      assert items[j] == front[j];
      forall k, m | j < k < |items| ensures !ItemSets(items[k], key, m) {
        assert k < |front| ==> items[k] == front[k];
      }
    }
    if LastSets(items, key, n) && !ItemSets(last, key, n) {
      var j :| 0 <= j < |items| && ItemSets(items[j], key, n)
               && forall k, m :: j < k < |items| ==> !ItemSets(items[k], key, m);
      assert front[j] == items[j];
      forall k, m | j < k < |front| ensures !ItemSets(front[k], key, m) {
        assert items[k] == front[k];
      }
    }
  }

  lemma {:induction false} LastValueExactly(items: seq<string>, key: string, n: int)
    requires forall kv :: kv in items ==> GoodItem(kv)
    ensures n > 0 ==> (LastValue(items, key) == n <==> LastSets(items, key, n))
  {
    hide ItemSets, Cut, Atoi;
    if items == [] {
    } else {
      var last, front := items[|items| - 1], items[..|items| - 1];
      forall m ensures ItemSets(last, key, m) <==> Cut(last, '=').0 == key && Atoi(Cut(last, '=').1) == Some(m) {
        ItemExactly(last, key, m);
      }
      LastValueExactly(front, key, n);
      LastSetsStep(items, key, n);
      assert GoodItem(last);
    }
  }

  /** What `i=..,l=..` reads: every item is a key with a positive number, the last of each key counts. */
  ghost predicate ReadsParams(s: string, iter: int, keyLen: int) {
    && (forall kv :: kv in SplitOn(s, ',') ==> exists key, n :: ItemSets(kv, key, n))
    && LastSets(SplitOn(s, ','), "i", iter) && LastSets(SplitOn(s, ','), "l", keyLen)
    && iter <= 1_000_000
  }

  lemma GoodItemExactly(kv: string)
    ensures GoodItem(kv) <==> exists key, n :: ItemSets(kv, key, n)
  {
    if GoodItem(kv) {
      ItemExactly(kv, Cut(kv, '=').0, Atoi(Cut(kv, '=').1).value);
    }
    forall key, n | ItemSets(kv, key, n) ensures GoodItem(kv) {
      ItemExactly(kv, key, n);
    }
  }

  lemma LastSetsPositive(items: seq<string>, key: string, n: int)
    requires LastSets(items, key, n)
    ensures n > 0
  {
    var j :| 0 <= j < |items| && ItemSets(items[j], key, n);
  }

  lemma ParamsByLastValue(s: string, iter: nat, keyLen: nat)
    ensures Params(s) == Some((iter, keyLen)) <==>
              var items := SplitOn(s, ',');
              && (forall kv :: kv in items ==> GoodItem(kv))
              && LastValue(items, "i") == iter && LastValue(items, "l") == keyLen
              && iter > 0 && keyLen > 0 && iter <= 1_000_000
  {
    hide SplitOn, GoodItem, LastValue;
  }

  lemma ParamsExactly(s: string, iter: nat, keyLen: nat)
    ensures Params(s) == Some((iter, keyLen)) <==> ReadsParams(s, iter, keyLen)
  {
    var items := SplitOn(s, ',');
    ParamsByLastValue(s, iter, keyLen);
    forall kv ensures GoodItem(kv) <==> exists key, n :: ItemSets(kv, key, n) {
      GoodItemExactly(kv);
    }
    hide Params, SplitOn, GoodItem, ItemSets, LastSets, LastValue;
    if forall kv :: kv in items ==> GoodItem(kv) {
      LastValueExactly(items, "i", iter);
      LastValueExactly(items, "l", keyLen);
    }
    if LastSets(items, "i", iter) && LastSets(items, "l", keyLen) {
      LastSetsPositive(items, "i", iter);
      LastSetsPositive(items, "l", keyLen);
    }
  }

  ghost predicate ArgonTexts(encoded: string, v: string, c: string, s: string, k: string) {
    && encoded == "$argon2id$" + (v + "$" + (c + "$" + (s + "$" + k)))
    && '$' !in v && '$' !in c && '$' !in s && '$' !in k
  }

  /** An Argon2id hash that can be checked: version 19, positive costs, and a key of 16 to 64 bytes. */
  ghost predicate ArgonStored(encoded: string, memory: nat, time: nat, threads: nat, salt: seq<byte>, want: seq<byte>) {
    && memory > 0 && time > 0 && threads > 0 && 16 <= |want| <= 64
    && exists v: string, c: string, s: string, k: string ::
         && ArgonTexts(encoded, v, c, s, k) && ReadsVersion(v, 19) && ReadsCosts(c, memory, time, threads)
         && Unb64(s) == Some(salt) && Unb64(k) == Some(want)
  }

  ghost predicate Pbkdf2Texts(encoded: string, p: string, s: string, k: string) {
    && encoded == "$pbkdf2-sha256$" + (p + "$" + (s + "$" + k))
    && '$' !in p && '$' !in s && '$' !in k
  }

  /** A migrated hash that can be checked: at most a million iterations, and the key is as long as it says. */
  ghost predicate Pbkdf2Stored(encoded: string, iter: nat, salt: seq<byte>, want: seq<byte>) {
    && 16 <= |want| <= 64
    && exists p: string, s: string, k: string ::
         && Pbkdf2Texts(encoded, p, s, k) && ReadsParams(p, iter, |want|)
         && Unb64(s) == Some(salt) && Unb64(k) == Some(want)
  }

  lemma SplitRest(lead: string, name: string, rest: string)
    requires '$' !in name && lead == "" + ['$'] + name + ['$']
    ensures SplitOn(lead + rest, '$') == ["", name] + SplitOn(rest, '$')
  {
    hide SplitOn;
    assert lead + rest == "" + ['$'] + (name + ['$'] + rest);
    SplitFirst("", '$', name + ['$'] + rest);
    SplitFirst(name, '$', rest);
  }

  lemma SplitThree(a: string, b: string, c: string)
    requires '$' !in a && '$' !in b && '$' !in c
    ensures SplitOn(a + "$" + (b + "$" + c), '$') == [a, b, c]
  {
    hide SplitOn;
    SplitFirst(a, '$', b + "$" + c);
    SplitFirst(b, '$', c);
    SplitNone(c, '$');
  }

  lemma SplitFour(a: string, b: string, c: string, d: string)
    requires '$' !in a && '$' !in b && '$' !in c && '$' !in d
    ensures SplitOn(a + "$" + (b + "$" + (c + "$" + d)), '$') == [a, b, c, d]
  {
    hide SplitOn;
    SplitFirst(a, '$', b + "$" + (c + "$" + d));
    SplitThree(b, c, d);
  }

  lemma JoinThree(parts: seq<string>)
    requires |parts| == 3
    ensures JoinWith(parts, '$') == parts[0] + "$" + (parts[1] + "$" + parts[2])
  {
    var tail := parts[1..];
    assert tail[0] == parts[1] && tail[1..] == [parts[2]];
    assert JoinWith(tail, '$') == parts[1] + "$" + JoinWith([parts[2]], '$');
  }

  lemma JoinFour(parts: seq<string>)
    requires |parts| == 4
    ensures JoinWith(parts, '$') == parts[0] + "$" + (parts[1] + "$" + (parts[2] + "$" + parts[3]))
  {
    JoinThree(parts[1..]);
  }

  lemma ArgonPieces(encoded: string) returns (v: string, c: string, s: string, k: string)
    requires HasPrefix(encoded, "$argon2id$") && |SplitOn(encoded, '$')| == 6
    ensures SplitOn(encoded, '$') == ["", "argon2id", v, c, s, k] && ArgonTexts(encoded, v, c, s, k)
  {
    hide SplitOn, JoinWith;
    var lead := "$argon2id$";
    var rest := encoded[|lead|..];
    assert encoded == lead + rest && lead == "" + ['$'] + "argon2id" + ['$'];
    SplitRest(lead, "argon2id", rest);
    var parts := SplitOn(rest, '$');
    v, c, s, k := parts[0], parts[1], parts[2], parts[3];
    JoinOfSplit(rest, '$');
    JoinFour(parts);
    assert parts == [v, c, s, k];
  }

  lemma SplitArgonTexts(encoded: string, v: string, c: string, s: string, k: string)
    requires ArgonTexts(encoded, v, c, s, k)
    ensures SplitOn(encoded, '$') == ["", "argon2id", v, c, s, k] && HasPrefix(encoded, "$argon2id$")
  {
    hide SplitOn;
    var lead := "$argon2id$";
    assert lead == "" + ['$'] + "argon2id" + ['$'];
    SplitFour(v, c, s, k);
    SplitRest(lead, "argon2id", v + "$" + (c + "$" + (s + "$" + k)));
  }

  lemma Pbkdf2Pieces(encoded: string) returns (p: string, s: string, k: string)
    requires HasPrefix(encoded, "$pbkdf2-sha256$") && |SplitOn(encoded, '$')| == 5
    ensures SplitOn(encoded, '$') == ["", "pbkdf2-sha256", p, s, k] && Pbkdf2Texts(encoded, p, s, k)
  {
    hide SplitOn, JoinWith;
    var lead := "$pbkdf2-sha256$";
    var rest := encoded[|lead|..];
    assert encoded == lead + rest && lead == "" + ['$'] + "pbkdf2-sha256" + ['$'];
    SplitRest(lead, "pbkdf2-sha256", rest);
    var parts := SplitOn(rest, '$');
    p, s, k := parts[0], parts[1], parts[2];
    JoinOfSplit(rest, '$');
    JoinThree(parts);
    assert parts == [p, s, k];
  }

  lemma SplitPbkdf2Texts(encoded: string, p: string, s: string, k: string)
    requires Pbkdf2Texts(encoded, p, s, k)
    ensures SplitOn(encoded, '$') == ["", "pbkdf2-sha256", p, s, k]
    ensures HasPrefix(encoded, "$pbkdf2-sha256$") && !HasPrefix(encoded, "$argon2id$")
  {
    hide SplitOn;
    var lead := "$pbkdf2-sha256$";
    assert lead == "" + ['$'] + "pbkdf2-sha256" + ['$'];
    SplitThree(p, s, k);
    SplitRest(lead, "pbkdf2-sha256", p + "$" + (s + "$" + k));
    Pbkdf2Lead(encoded);
  }

  lemma ArgonReads(encoded: string, secret: string, argon: Argon2)
    returns (memory: nat, time: nat, threads: nat, salt: seq<byte>, want: seq<byte>)
    requires HasPrefix(encoded, "$argon2id$") && VerifyArgon2id(encoded, secret, argon).Ok?
    ensures ArgonStored(encoded, memory, time, threads, salt, want)
    ensures VerifyArgon2id(encoded, secret, argon) == Ok(argon(secret, salt, time, memory, threads, |want|) == want)
  {
    hide SplitOn, ScanVersion, ScanCosts, Unb64, ReadsVersion, ReadsCosts, ArgonTexts;
    var v, c, s, k := ArgonPieces(encoded);
    ScanVersionExactly(v, 19);
    var costs := ScanCosts(c).value;
    memory, time, threads := costs.0, costs.1, costs.2;
    ScanCostsExactly(c, memory, time, threads);
    salt, want := Unb64(s).value, Unb64(k).value;
  }

  lemma ArgonOfStored(encoded: string, secret: string, argon: Argon2, pbkdf2: Pbkdf2,
                      memory: nat, time: nat, threads: nat, salt: seq<byte>, want: seq<byte>)
    requires ArgonStored(encoded, memory, time, threads, salt, want)
    ensures Verify(encoded, secret, argon, pbkdf2) == Ok(argon(secret, salt, time, memory, threads, |want|) == want)
  {
    hide SplitOn, ScanVersion, ScanCosts, Unb64, ReadsVersion, ReadsCosts, ArgonTexts;
    var v: string, c: string, s: string, k: string :|
      && ArgonTexts(encoded, v, c, s, k) && ReadsVersion(v, 19) && ReadsCosts(c, memory, time, threads)
      && Unb64(s) == Some(salt) && Unb64(k) == Some(want);
    SplitArgonTexts(encoded, v, c, s, k);
    ScanVersionExactly(v, 19);
    ScanCostsExactly(c, memory, time, threads);
    hide VerifyArgon2id;
    VerifyArgonParts(encoded, v, c, s, k, secret, argon);
  }

  lemma Pbkdf2Reads(encoded: string, secret: string, pbkdf2: Pbkdf2)
    returns (iter: nat, salt: seq<byte>, want: seq<byte>)
    requires HasPrefix(encoded, "$pbkdf2-sha256$") && VerifyPBKDF2(encoded, secret, pbkdf2).Ok?
    ensures Pbkdf2Stored(encoded, iter, salt, want)
    ensures VerifyPBKDF2(encoded, secret, pbkdf2) == Ok(pbkdf2(secret, salt, iter, |want|) == want)
  {
    hide SplitOn, Params, Unb64, ReadsParams, Pbkdf2Texts;
    var p, s, k := Pbkdf2Pieces(encoded);
    salt, want := Unb64(s).value, Unb64(k).value;
    iter := Params(p).value.0;
    ParamsExactly(p, iter, |want|);
  }

  lemma Pbkdf2OfStored(encoded: string, secret: string, argon: Argon2, pbkdf2: Pbkdf2,
                       iter: nat, salt: seq<byte>, want: seq<byte>)
    requires Pbkdf2Stored(encoded, iter, salt, want)
    ensures Verify(encoded, secret, argon, pbkdf2) == Ok(pbkdf2(secret, salt, iter, |want|) == want)
  {
    hide SplitOn, Params, Unb64, ReadsParams, Pbkdf2Texts;
    var p: string, s: string, k: string :|
      && Pbkdf2Texts(encoded, p, s, k) && ReadsParams(p, iter, |want|)
      && Unb64(s) == Some(salt) && Unb64(k) == Some(want);
    SplitPbkdf2Texts(encoded, p, s, k);
    ParamsExactly(p, iter, |want|);
    hide VerifyPBKDF2;
    VerifyPbkdf2Parts(encoded, p, s, k, secret, pbkdf2);
  }

  lemma OneError(encoded: string, secret: string, argon: Argon2, pbkdf2: Pbkdf2)
    ensures Verify(encoded, secret, argon, pbkdf2).Err? ==>
              Verify(encoded, secret, argon, pbkdf2) == Err(UnknownFormat)
  {
    hide SplitOn, ScanVersion, ScanCosts, Params, Unb64;
  }

  /**
   Fail closed, over every stored text and every secret: an answer comes exactly from a text of one of
   the two forms whose own salt, costs and key decide it through the KDF. Every other text is an error.
   */
  lemma VerifyExactly(encoded: string, secret: string, argon: Argon2, pbkdf2: Pbkdf2, answer: bool)
    ensures Verify(encoded, secret, argon, pbkdf2) == Ok(answer) <==>
              || (exists memory, time, threads, salt, want ::
                    && ArgonStored(encoded, memory, time, threads, salt, want)
                    && answer == (argon(secret, salt, time, memory, threads, |want|) == want))
              || (exists iter, salt, want ::
                    && Pbkdf2Stored(encoded, iter, salt, want)
                    && answer == (pbkdf2(secret, salt, iter, |want|) == want))
    ensures Verify(encoded, secret, argon, pbkdf2).Err? ==>
              Verify(encoded, secret, argon, pbkdf2) == Err(UnknownFormat)
  {
    hide VerifyArgon2id, VerifyPBKDF2, ArgonStored, Pbkdf2Stored;
    if Verify(encoded, secret, argon, pbkdf2) == Ok(answer) {
      if HasPrefix(encoded, "$argon2id$") {
        var memory, time, threads, salt, want := ArgonReads(encoded, secret, argon);
      } else {
        var iter, salt, want := Pbkdf2Reads(encoded, secret, pbkdf2);
      }
    }
    forall memory, time, threads, salt, want | ArgonStored(encoded, memory, time, threads, salt, want)
      ensures Verify(encoded, secret, argon, pbkdf2) == Ok(argon(secret, salt, time, memory, threads, |want|) == want)
    {
      ArgonOfStored(encoded, secret, argon, pbkdf2, memory, time, threads, salt, want);
    }
    forall iter, salt, want | Pbkdf2Stored(encoded, iter, salt, want)
      ensures Verify(encoded, secret, argon, pbkdf2) == Ok(pbkdf2(secret, salt, iter, |want|) == want)
    {
      Pbkdf2OfStored(encoded, secret, argon, pbkdf2, iter, salt, want);
    }
    OneError(encoded, secret, argon, pbkdf2);
  }

  /** The form of Argon2id hashes with any numbers in it. */
  ghost function AnyArgonText(version: nat, memory: nat, time: nat, threads: nat,
                              salt: seq<byte>, key: seq<byte>): string
  {
    "$argon2id$"
    + ("v=" + PrintNat(version) + "$" + (CostText(memory, time, threads) + "$" + (B64(salt) + "$" + B64(key))))
  }

  lemma PrintIsUnsigned(n: nat)
    ensures UnsignedText(PrintNat(n), n)
  {
    ValueOfPrint(n);
    assert PrintNat(n) == "" + PrintNat(n);
  }

  lemma ScanFieldOfPrint(lit: string, n: nat, rest: string, bound: nat)
    requires AfterNumber(rest)
    ensures ScanField(lit + (PrintNat(n) + rest), lit, bound) == if n < bound then Some((n, rest)) else None
  {
    PrintIsUnsigned(n);
    hide PrintNat, ScanUint;
    ScanUintOfText(PrintNat(n), n, rest, bound);
    assert (lit + (PrintNat(n) + rest))[|lit|..] == PrintNat(n) + rest;
  }

  lemma ScanCostsOfAnyText(memory: nat, time: nat, threads: nat)
    ensures ScanCosts(CostText(memory, time, threads))
         == if memory < TWO_32 && time < TWO_32 && threads < 256 then Some((memory, time, threads)) else None
  {
    hide ScanField;
    var s2 := ",p=" + PrintNat(threads);
    var s1 := ",t=" + (PrintNat(time) + s2);
    assert PrintNat(threads) + "" == PrintNat(threads);
    ScanFieldOfPrint("m=", memory, s1, TWO_32);
    ScanFieldOfPrint(",t=", time, s2, TWO_32);
    ScanFieldOfPrint(",p=", threads, "", 256);
  }

  lemma ScanVersionOfPrint(version: nat)
    ensures ScanVersion("v=" + PrintNat(version)) == Some(19) <==> version == 19
  {
    ValueOfPrint(version);
    ScanOfDigits(PrintNat(version), "");
    DigitRunOf(PrintNat(version), "");
    assert PrintNat(version) + "" == PrintNat(version);
    assert ("v=" + PrintNat(version))[2..] == PrintNat(version);
    assert IsDigit(PrintNat(version)[0]);
    assert PrintNat(version)[..|PrintNat(version)|] == PrintNat(version);
  }

  lemma VerifyAnyParts(text: string, v: string, c: string, s: string, k: string, secret: string, argon: Argon2)
    requires SplitOn(text, '$') == ["", "argon2id", v, c, s, k] && Unb64(s).Some? && Unb64(k).Some?
    ensures VerifyArgon2id(text, secret, argon)
         == if ScanVersion(v) == Some(19) && ScanCosts(c).Some?
               && ScanCosts(c).value.0 > 0 && ScanCosts(c).value.1 > 0 && ScanCosts(c).value.2 > 0
               && 16 <= |Unb64(k).value| <= 64
            then Ok(argon(secret, Unb64(s).value, ScanCosts(c).value.1, ScanCosts(c).value.0, ScanCosts(c).value.2,
                          |Unb64(k).value|) == Unb64(k).value)
            else Err(UnknownFormat)
  {
    hide SplitOn, ScanVersion, ScanCosts, Unb64;
  }

  /**
   Which printed Argon2id hashes are checked: exactly version 19 with positive costs of their widths
   and a key of 16 to 64 bytes. Anything else is an error, whatever the secret.
   */
  lemma VerifyAnyArgonText(version: nat, memory: nat, time: nat, threads: nat, salt: seq<byte>, key: seq<byte>,
                           secret: string, argon: Argon2, pbkdf2: Pbkdf2)
    ensures Verify(AnyArgonText(version, memory, time, threads, salt, key), secret, argon, pbkdf2)
         == if version == 19 && 0 < memory < 0x1_0000_0000 && 0 < time < 0x1_0000_0000 && 0 < threads < 256
               && 16 <= |key| <= 64
            then Ok(argon(secret, salt, time, memory, threads, |key|) == key)
            else Err(UnknownFormat)
  {
    var text := AnyArgonText(version, memory, time, threads, salt, key);
    var v, c := "v=" + PrintNat(version), CostText(memory, time, threads);
    EncodedAvoidsDollar(false, false, salt);
    EncodedAvoidsDollar(false, false, key);
    NumbersAvoidDollar(memory, time, threads);
    assert AllDigits(PrintNat(version)) && '$' !in v;
    Unb64OfEncode(false, false, salt);
    Unb64OfEncode(false, false, key);
    assert ArgonTexts(text, v, c, B64(salt), B64(key));
    SplitArgonTexts(text, v, c, B64(salt), B64(key));
    ScanVersionOfPrint(version);
    ScanCostsOfAnyText(memory, time, threads);
    hide AnyArgonText, SplitOn, VerifyArgon2id, ScanVersion, ScanCosts, Unb64, CostText, Encode, PrintNat;
    VerifyAnyParts(text, v, c, B64(salt), B64(key), secret, argon);
  }

  /** A text of neither form is an error for every secret. */
  lemma UnknownFormatRejected(encoded: string, secret: string, argon: Argon2, pbkdf2: Pbkdf2)
    requires !("$argon2id$" <= encoded) && !("$pbkdf2-sha256$" <= encoded)
    ensures Verify(encoded, secret, argon, pbkdf2) == Err(UnknownFormat)
    ensures NeedsRehash(encoded)
  {
  }

  lemma SmallNumbers()
    ensures PrintNat(19) == "19" && PrintNat(3) == "3" && PrintNat(4) == "4"
    ensures PrintNat(65536) == "65536"
  {
    assert PrintNat(6) == "6" && PrintNat(65) == "65" && PrintNat(655) == "655" && PrintNat(6553) == "6553";
  }

  lemma FixedTexts()
    ensures VersionText() == "v=19" && CostText(65536, 3, 4) == "m=65536,t=3,p=4"
  {
    SmallNumbers();
    hide PrintNat;
  }

  lemma HashedLead(salt: seq<byte>, key: seq<byte>)
    ensures "$argon2id$v=19$m=65536,t=3,p=4$" <= ArgonText(65536, 3, 4, salt, key)
  {
    FixedTexts();
    hide VersionText, CostText, B64, PrintNat;
    var lead := "$argon2id$" + "v=19" + "$" + "m=65536,t=3,p=4" + "$";
    assert lead == "$argon2id$v=19$m=65536,t=3,p=4$";
    assert ArgonText(65536, 3, 4, salt, key) == lead + B64(salt) + "$" + B64(key);
  }

  /** New hashes carry the parameters of this package; without random bytes there is none. */
  lemma HashedText(secret: string, salt: seq<byte>, argon: Argon2)
    ensures Hash(secret, None, argon) == Err(RandomFailed)
    ensures var hash := Hash(secret, Some(salt), argon);
            hash.Ok? && "$argon2id$v=19$m=65536,t=3,p=4$" <= hash.value
  {
    var key := argon(secret, salt, ARGON_TIME, ARGON_MEMORY, ARGON_THREADS, ARGON_KEY_LEN);
    hide ArgonText;
    assert Hash(secret, Some(salt), argon) == Ok(ArgonText(65536, 3, 4, salt, key));
    HashedLead(salt, key);
  }
}
