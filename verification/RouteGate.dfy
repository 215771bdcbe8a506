/** kernel/module/gate.go: which module owns a path, and which paths the gate lets through. */
module RouteGate {
  import opened Prelude
  import opened GoStrings
  import opened DependencyGraph
  import opened Lifecycle

  // ---- Prefixes

  predicate PrefixMatches(prefix: string, path: string) {
    if HasSuffix(prefix, "/") then HasPrefix(path, prefix) || path == TrimSuffix(prefix, "/")
    else path == prefix || HasPrefix(path, prefix + "/")
  }

  /** The prefix with its final slash. */
  ghost function Stem(prefix: string): string {
    TrimSuffix(prefix, "/") + "/"
  }

  /** The two spellings, with and without the final slash, mean the same sub-tree. */
  lemma MatchesStem(prefix: string, path: string)
    ensures PrefixMatches(prefix, path) <==> Stem(prefix) <= path + "/"
  {
    var stem := TrimSuffix(prefix, "/");
    if HasSuffix(prefix, "/") {
      assert prefix == stem + "/";
    }
    if stem + "/" <= path + "/" {
      assert |stem| == |path| ==> stem == (stem + "/")[..|stem|] == (path + "/")[..|path|] == path;
      assert |stem| < |path| ==> stem + "/" == (path + "/")[..|stem| + 1] == path[..|stem| + 1];
    }
  }

  lemma PrefixOfSlashed(prefix: string, path: string)
    requires PrefixMatches(prefix, path)
    ensures prefix <= path + "/"
  {
    MatchesStem(prefix, path);
    var stem := TrimSuffix(prefix, "/");
    assert HasSuffix(prefix, "/") ==> prefix == stem + "/";
    assert !HasSuffix(prefix, "/") ==> prefix == (stem + "/")[..|stem|];
  }

  /** Two prefixes of equal length never match the same path, unless they are the same. */
  lemma EqualLengthsDisjoint(p: string, q: string, path: string)
    requires PrefixMatches(p, path) && PrefixMatches(q, path)
    ensures ByteLen(p) == ByteLen(q) <==> p == q
    ensures ByteLen(p) < ByteLen(q) <==> |p| < |q|
  {
    PrefixOfSlashed(p, path);
    PrefixOfSlashed(q, path);
    ByteLenOfPrefixes(p, q, path + "/");
  }

  lemma StemsNest(longer: string, shorter: string, common: string)
    requires ByteLen(longer) >= ByteLen(shorter)
    requires PrefixMatches(longer, common) && PrefixMatches(shorter, common)
    ensures Stem(shorter) <= Stem(longer)
  {
    MatchesStem(longer, common);
    MatchesStem(shorter, common);
    EqualLengthsDisjoint(longer, shorter, common);
    var a, b := Stem(shorter), Stem(longer);
    assert a == (common + "/")[..|a|] && b == (common + "/")[..|b|];
    assert HasSuffix(shorter, "/") ==> shorter == a;
    assert HasSuffix(longer, "/") ==> longer == b;
  }

  /** Laminar: two path sets are disjoint, or the longer prefix's set lies inside the shorter one's. */
  lemma PrefixesLaminar(longer: string, shorter: string)
    requires ByteLen(longer) >= ByteLen(shorter)
    ensures || (forall path :: !(PrefixMatches(longer, path) && PrefixMatches(shorter, path)))
            || (forall path :: PrefixMatches(longer, path) ==> PrefixMatches(shorter, path))
  {
    if common :| PrefixMatches(longer, common) && PrefixMatches(shorter, common) {
      forall path | PrefixMatches(longer, path) ensures PrefixMatches(shorter, path) {
        StemsNest(longer, shorter, common);
        MatchesStem(longer, path);
        MatchesStem(shorter, path);
      }
    }
  }

  lemma CommonPath(inner: string, outer: string)
    requires Stem(outer) <= Stem(inner)
    ensures PrefixMatches(inner, TrimSuffix(inner, "/")) && PrefixMatches(outer, TrimSuffix(inner, "/"))
  {
    MatchesStem(inner, TrimSuffix(inner, "/"));
    MatchesStem(outer, TrimSuffix(inner, "/"));
  }

  /** Two prefixes have a path in common exactly when one stem begins the other. */
  lemma PrefixesOverlapExactly(p: string, q: string)
    ensures (exists path :: PrefixMatches(p, path) && PrefixMatches(q, path))
       <==> Stem(p) <= Stem(q) || Stem(q) <= Stem(p)
  {
    forall path | PrefixMatches(p, path) && PrefixMatches(q, path) ensures Stem(p) <= Stem(q) || Stem(q) <= Stem(p) {
      if ByteLen(p) >= ByteLen(q) {
        StemsNest(p, q, path);
      } else {
        StemsNest(q, p, path);
      }
    }
    if Stem(p) <= Stem(q) {
      CommonPath(q, p);
    } else if Stem(q) <= Stem(p) {
      CommonPath(p, q);
    }
  }

  // ---- Ownership

  /** Route prefix to owner. */
  type Table = map<string, string>

  ghost predicate Longest(table: Table, path: string, p: string) {
    && p in table && PrefixMatches(p, path)
    && forall q :: q in table && PrefixMatches(q, path) && q != p ==> ByteLen(q) < ByteLen(p)
  }

  /** The owner of the longest matching prefix. */
  ghost function OwnerOf(table: Table, path: string): Option<string> {
    if p :| Longest(table, path, p) then Some(table[p]) else None
  }

  lemma LongestUnique(table: Table, path: string, p: string, q: string)
    requires Longest(table, path, p) && Longest(table, path, q)
    ensures p == q
  {
  }

  lemma OwnerOfLongest(table: Table, path: string, p: string)
    requires Longest(table, path, p)
    ensures OwnerOf(table, path) == Some(table[p])
  {
    var q :| Longest(table, path, q) && OwnerOf(table, path) == Some(table[q]);
    LongestUnique(table, path, p, q);
  }

  /** A matching prefix, and no matching prefix has more characters. */
  ghost predicate MostSpecific(table: Table, path: string, p: string) {
    && p in table && PrefixMatches(p, path)
    && forall q :: q in table && PrefixMatches(q, path) ==> |q| <= |p|
  }

  /** A path belongs to a module exactly when one of its prefixes matches and no matching prefix is longer. */
  lemma OwnerExactly(table: Table, path: string, id: string)
    ensures OwnerOf(table, path) == Some(id) <==> exists p :: MostSpecific(table, path, p) && table[p] == id
  {
    if OwnerOf(table, path) == Some(id) {
      var p :| Longest(table, path, p) && OwnerOf(table, path) == Some(table[p]);
      forall q | q in table && PrefixMatches(q, path) ensures |q| <= |p| {
        EqualLengthsDisjoint(p, q, path);
        EqualLengthsDisjoint(q, p, path);
      }
      assert MostSpecific(table, path, p);
    }
    if p :| MostSpecific(table, path, p) && table[p] == id {
      forall q | q in table && PrefixMatches(q, path) && q != p ensures ByteLen(q) < ByteLen(p) {
        EqualLengthsDisjoint(q, p, path);
        EqualLengthsDisjoint(p, q, path);
      }
      OwnerOfLongest(table, path, p);
    }
  }

  /** The rule that the documentation states: no path belongs to the prefixes of two modules. */
  ghost predicate ModulesDisjoint(table: Table) {
    forall p, q, path :: p in table && q in table && PrefixMatches(p, path) && PrefixMatches(q, path) ==>
                           table[p] == table[q]
  }

  /** It holds exactly for tables in which no stem of one module begins a stem of another. */
  lemma ModulesDisjointExactly(table: Table)
    ensures ModulesDisjoint(table)
       <==> forall p, q :: p in table && q in table && Stem(p) <= Stem(q) ==> table[p] == table[q]
  {
    forall p, q | p in table && q in table && Stem(p) <= Stem(q) && ModulesDisjoint(table)
      ensures table[p] == table[q]
    {
      CommonPath(q, p);
    }
    forall p, q, path | p in table && q in table && PrefixMatches(p, path) && PrefixMatches(q, path)
      ensures Stem(p) <= Stem(q) || Stem(q) <= Stem(p)
    {
      PrefixesOverlapExactly(p, q);
    }
  }

  /** `New` accepts a prefix with and without its final slash; then the one without never wins a path. */
  lemma SlashTwinNeverWins(table: Table, p: string, path: string)
    requires p in table && p + "/" in table && !HasSuffix(p, "/")
    ensures !Longest(table, path, p)
  {
    MatchesStem(p, path);
    MatchesStem(p + "/", path);
    assert TrimSuffix(p + "/", "/") == p;
    ByteLenConcat(p, "/");
  }

  ghost function LongestKey(keys: set<string>): (n: nat)
    ensures forall q :: q in keys ==> |q| <= n
  {
    if keys == {} then 0
    else
      var q :| q in keys;
      var n := LongestKey(keys - {q});
      if |q| <= n then n else |q|
  }

  lemma NoSlashBelow(p: string, x: string, k: nat)
    requires k < |p + x| && '/' !in x
    ensures (p + x)[k] == '/' ==> k < |p|
  {
    assert |p| <= k ==> (p + x)[k] in x;
  }

  /** Below `p`, inside one long path element, only prefixes of `p` match. */
  lemma DeepPath(p: string, q: string, x: string)
    requires HasSuffix(p, "/") && '/' !in x && |q| < |x| && PrefixMatches(q, p + x)
    ensures q <= p
  {
    MatchesStem(q, p + x);
    PrefixOfSlashed(q, p + x);
    var stem, whole := Stem(q), p + x + "/";
    assert |stem| <= |q| + 1 && |q| <= |stem|;
    assert (p + x)[|stem| - 1] == whole[|stem| - 1] == stem[|stem| - 1] == '/';
    NoSlashBelow(p, x, |stem| - 1);
    assert q == whole[..|q|] == p[..|q|];
  }

  lemma SlashWinsBelow(p: string, x: string)
    requires HasSuffix(p, "/")
    ensures PrefixMatches(p, p + x)
  {
  }

  lemma ShorterKeysLose(table: Table, path: string, p: string)
    requires p in table && PrefixMatches(p, path)
    requires forall q :: q in table && PrefixMatches(q, path) ==> q <= p
    ensures Longest(table, path, p)
  {
    forall q | q in table && PrefixMatches(q, path) && q != p ensures ByteLen(q) < ByteLen(p) {
      ByteLenGrows(q, p);
    }
  }

  lemma WithoutSlash(q: string, p: string)
    requires q <= p + "/"
    ensures q <= p || q == p + "/"
  {
    assert |q| <= |p| ==> q == (p + "/")[..|q|] == p[..|q|];
  }

  /** A declared prefix wins some path exactly when it ends in a slash or its twin with one is not declared. */
  lemma OwnsSomePathExactly(table: Table, p: string)
    requires p in table
    ensures (exists path :: Longest(table, path, p)) <==> HasSuffix(p, "/") || p + "/" !in table
  {
    if HasSuffix(p, "/") {
      var x := seq(LongestKey(table.Keys) + 1, _ => 'x');
      forall q | q in table && PrefixMatches(q, p + x) ensures q <= p {
        DeepPath(p, q, x);
      }
      SlashWinsBelow(p, x);
      ShorterKeysLose(table, p + x, p);
    } else if p + "/" !in table {
      forall q | q in table && PrefixMatches(q, p) ensures q <= p {
        PrefixOfSlashed(q, p);
        WithoutSlash(q, p);
      }
      ShorterKeysLose(table, p, p);
    } else {
      forall path ensures !Longest(table, path, p) {
        SlashTwinNeverWins(table, p, path);
      }
    }
  }

  /** `ModuleForPath`: whatever order the map is walked in, the result is the same. */
  method FindOwner(table: Table, path: string) returns (owner: Option<string>)
    ensures owner == OwnerOf(table, path)
    ensures owner.None? <==> forall p :: p in table ==> !PrefixMatches(p, path)
  {
    var bestId := "";
    var bestLen: int := -1;
    ghost var best := "";
    var rest := table.Keys;
    while rest != {}
      invariant rest <= table.Keys
      invariant bestLen < 0 ==> forall q :: q in table.Keys - rest ==> !PrefixMatches(q, path)
      invariant bestLen >= 0 ==>
                  && best in table.Keys - rest && PrefixMatches(best, path)
                  && bestId == table[best] && bestLen == ByteLen(best)
                  && forall q :: q in table.Keys - rest && PrefixMatches(q, path) && q != best ==> ByteLen(q) < bestLen
      decreases |rest|
    {
      var prefix :| prefix in rest;
      rest := rest - {prefix};
      if PrefixMatches(prefix, path) && bestLen >= 0 {
        EqualLengthsDisjoint(prefix, best, path);
      }
      if ByteLen(prefix) <= bestLen || !PrefixMatches(prefix, path) {
        continue;
      }
      bestId, bestLen, best := table[prefix], ByteLen(prefix), prefix;
    }
    if bestLen >= 0 {
      OwnerOfLongest(table, path, best);
      return Some(bestId);
    }
    return None;
  }

  // ---- The gate

  /** Only a path whose owner is off is answered with 404. */
  ghost predicate Passes(table: Table, e: set<string>, path: string) {
    OwnerOf(table, path).Some? ==> OwnerOf(table, path).value in e
  }

  /** A successful `Disable` of an enabled module blocks that module's paths and changes nothing else. */
  lemma DisableBlocksExactly(table: Table, ms: Catalogue, e: set<string>, id: string, path: string)
    requires id in e && DisableError(ms, e, id).None?
    ensures var after := AfterOp(ms, e, Disable(id));
            && (OwnerOf(table, path) == Some(id) <==> Passes(table, e, path) != Passes(table, after, path))
            && (OwnerOf(table, path) == Some(id) ==> Passes(table, e, path) && !Passes(table, after, path))
  {
  }

  /** A successful `Enable` of a disabled module opens that module's paths and changes nothing else. */
  lemma EnableOpensExactly(table: Table, ms: Catalogue, e: set<string>, id: string, path: string)
    requires id !in e && EnableError(ms, e, id).None?
    ensures var after := AfterOp(ms, e, Enable(id));
            && (OwnerOf(table, path) == Some(id) <==> Passes(table, e, path) != Passes(table, after, path))
            && (OwnerOf(table, path) == Some(id) ==> !Passes(table, e, path) && Passes(table, after, path))
  {
  }

  /** A walk from a core module to `id`. */
  ghost predicate CoreWalk(ms: Catalogue, w: seq<string>, id: string) {
    Walk(Dependencies(ms), w) && w != [] && IsCore(ms, w[0]) && w[|w| - 1] == id
  }

  /** A core module, or one that a core module needs, however indirectly. */
  ghost predicate NeededByCore(ms: Catalogue, id: string) {
    exists w :: CoreWalk(ms, w, id)
  }

  ghost function CoreClosure(ms: Catalogue): set<string> {
    set id | id in ms && NeededByCore(ms, id)
  }

  lemma CoreIsNeeded(ms: Catalogue, id: string)
    requires IsCore(ms, id)
    ensures NeededByCore(ms, id)
  {
    assert CoreWalk(ms, [id], id);
  }

  lemma NeededTransitively(ms: Catalogue, id: string, dep: string)
    requires Sound(ms) && NeededByCore(ms, id) && Needs(ms, id, dep)
    ensures dep in ms && NeededByCore(ms, dep)
  {
    var w :| CoreWalk(ms, w, id);
    assert Edge(Dependencies(ms), id, dep);
    WalkAppend(Dependencies(ms), w, dep);
    assert CoreWalk(ms, w + [dep], dep);
  }

  /** Everything else can be off at once. */
  lemma CoreClosureIsLegal(ms: Catalogue)
    requires Sound(ms)
    ensures Legal(ms, CoreClosure(ms))
  {
    forall id | IsCore(ms, id) ensures NeededByCore(ms, id) {
      CoreIsNeeded(ms, id);
    }
    forall id, dep | id in CoreClosure(ms) && Needs(ms, id, dep) ensures dep in CoreClosure(ms) {
      NeededTransitively(ms, id, dep);
    }
  }

  /** The modules that are on in every reachable state are the core and what it needs. */
  lemma AlwaysOnExactly(ms: Catalogue, id: string)
    requires Sound(ms)
    ensures (forall ops :: id in AfterOps(ms, ms.Keys, ops)) <==> NeededByCore(ms, id)
  {
    if NeededByCore(ms, id) {
      var w :| CoreWalk(ms, w, id);
      forall ops ensures id in AfterOps(ms, ms.Keys, ops) {
        AllOnIsLegal(ms);
        RunKeepsLegal(ms, ms.Keys, ops);
        CoreNeedsAreOn(ms, AfterOps(ms, ms.Keys, ops), w);
      }
    } else {
      CoreClosureIsLegal(ms);
      ReachableExactlyLegal(ms, CoreClosure(ms));
      var ops :| AfterOps(ms, ms.Keys, ops) == CoreClosure(ms);
      assert id !in AfterOps(ms, ms.Keys, ops);
    }
  }

  /** Exactly the unowned paths, and those of modules that the core needs, pass in every reachable state. */
  lemma AlwaysPassesExactly(table: Table, ms: Catalogue, path: string)
    requires Sound(ms)
    ensures (forall ops :: Passes(table, AfterOps(ms, ms.Keys, ops), path))
       <==> (OwnerOf(table, path).Some? ==> NeededByCore(ms, OwnerOf(table, path).value))
  {
    if OwnerOf(table, path).Some? {
      var id := OwnerOf(table, path).value;
      AlwaysOnExactly(ms, id);
      if !NeededByCore(ms, id) {
        var ops :| id !in AfterOps(ms, ms.Keys, ops);
        assert !Passes(table, AfterOps(ms, ms.Keys, ops), path);
      } else {
        forall ops ensures Passes(table, AfterOps(ms, ms.Keys, ops), path) {
          assert id in AfterOps(ms, ms.Keys, ops);
        }
      }
    }
  }
}
