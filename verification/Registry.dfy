/** kernel/module/registry.go and gate.go: the registry object, its construction and its guarded updates. */
module ModuleRegistry {
  import opened Prelude
  import opened GoStrings
  import opened DependencyGraph
  import opened Modules
  import opened CycleCheck
  import opened Lifecycle
  import opened RouteGate

  // ---- What `New` accepts

  ghost predicate DistinctIds(list: seq<Manifest>) {
    forall i, j :: 0 <= i < j < |list| ==> list[i].id != list[j].id
  }

  /** The manifests by ID; in a list with distinct IDs each manifest is found under its own. */
  function CatalogueOf(list: seq<Manifest>): Catalogue {
    if list == [] then map[]
    else CatalogueOf(list[..|list| - 1])[list[|list| - 1].id := list[|list| - 1]]
  }

  /** No prefix is declared twice, by one module or by two. */
  ghost predicate DistinctPrefixes(ms: Catalogue) {
    && (forall id :: id in ms ==> Distinct(ms[id].routePrefixes))
    && (forall a, b, p :: a in ms && b in ms && p in ms[a].routePrefixes && p in ms[b].routePrefixes ==> a == b)
  }

  ghost predicate Acceptable(list: seq<Manifest>, toLower: string -> string) {
    && (forall m :: m in list ==> WellFormed(m, toLower))
    && DistinctIds(list)
    && Closed(Dependencies(CatalogueOf(list)))
    && DistinctPrefixes(CatalogueOf(list))
    && Acyclic(Dependencies(CatalogueOf(list)))
  }

  /** `byPrefix` holds exactly the declared prefixes, each with its declaring module. */
  ghost predicate TableOf(ms: Catalogue, table: Table) {
    && (forall p :: p in table ==> table[p] in ms && p in ms[table[p]].routePrefixes)
    && (forall id, p :: id in ms && p in ms[id].routePrefixes ==> p in table && table[p] == id)
  }

  lemma {:induction false} CatalogueEntries(list: seq<Manifest>)
    ensures forall id :: id in CatalogueOf(list) ==> CatalogueOf(list)[id] in list && CatalogueOf(list)[id].id == id
    ensures forall m :: m in list ==> m.id in CatalogueOf(list)
  {
    if list == [] {
    } else {
      CatalogueEntries(list[..|list| - 1]);
      assert list == list[..|list| - 1] + [list[|list| - 1]];
    }
  }

  ghost predicate WellNamed(m: Manifest, toLower: string -> string) {
    && m.id != "" && toLower(m.id) == m.id && ' ' !in m.id && '/' !in m.id && '\\' !in m.id
    && (m.kind == "core" || m.kind == "business")
    && forall p :: p in m.routePrefixes ==> p != "" && p[0] == '/'
  }

  /** All dependencies of the list are IDs of the list with a lower rank. */
  ghost predicate RankedList(list: seq<Manifest>, rank: map<string, nat>) {
    forall m, dep :: m in list && dep in m.dependsOn ==>
                       (exists n :: n in list && n.id == dep)
                       && m.id in rank && dep in rank && rank[dep] < rank[m.id]
  }

  lemma WellFormedIsWellNamed(toLower: string -> string)
    ensures forall m: Manifest :: WellFormed(m, toLower) <==> WellNamed(m, toLower)
  {
    forall m: Manifest ensures WellFormed(m, toLower) <==> WellNamed(m, toLower) {
      assert ' ' in " /\\" && '/' in " /\\" && '\\' in " /\\";
      assert KIND_CORE == "core" && KIND_BUSINESS == "business";
      assert forall p: string :: HasPrefix(p, "/") <==> p != "" && p[0] == '/';
    }
  }

  lemma SameIdSamePlace(list: seq<Manifest>, i: nat, j: nat)
    requires DistinctIds(list) && i < |list| && j < |list|
    ensures list[i].id == list[j].id ==> i == j
  {
  }

  /** With distinct IDs the catalogue holds each manifest of the list under its ID. */
  lemma ManifestsById(list: seq<Manifest>)
    requires DistinctIds(list)
    ensures forall m :: m in list ==> m.id in CatalogueOf(list) && CatalogueOf(list)[m.id] == m
    ensures forall id :: id in CatalogueOf(list) ==> CatalogueOf(list)[id] in list && CatalogueOf(list)[id].id == id
  {
    CatalogueEntries(list);
    forall m | m in list ensures CatalogueOf(list)[m.id] == m {
      var n := CatalogueOf(list)[m.id];
      var i :| 0 <= i < |list| && list[i] == m;
      var j :| 0 <= j < |list| && list[j] == n;
      SameIdSamePlace(list, i, j);
    }
  }

  lemma PrefixesOfList(list: seq<Manifest>)
    requires DistinctIds(list)
    ensures DistinctPrefixes(CatalogueOf(list)) <==>
              && (forall m :: m in list ==> Distinct(m.routePrefixes))
              && (forall i, j, p :: 0 <= i < j < |list| && p in list[i].routePrefixes ==> p !in list[j].routePrefixes)
  {
    ManifestsById(list);
    var ms := CatalogueOf(list);
    hide CatalogueOf, Distinct;
    if DistinctPrefixes(ms) {
      forall i, j, p | 0 <= i < j < |list| && p in list[i].routePrefixes ensures p !in list[j].routePrefixes {
        assert list[i] in list && list[j] in list;
      }
    }
    if forall i, j, p :: 0 <= i < j < |list| && p in list[i].routePrefixes ==> p !in list[j].routePrefixes {
      forall a, b, p | a in ms && b in ms && p in ms[a].routePrefixes && p in ms[b].routePrefixes ensures a == b {
        var i :| 0 <= i < |list| && list[i] == ms[a];
        var j :| 0 <= j < |list| && list[j] == ms[b];
        assert i == j;
      }
    }
  }

  lemma RankedExactly(list: seq<Manifest>)
    requires DistinctIds(list)
    ensures var g := Dependencies(CatalogueOf(list));
            Closed(g) && Acyclic(g) <==> exists rank :: RankedList(list, rank)
  {
    ManifestsById(list);
    var ms := CatalogueOf(list);
    var g := Dependencies(ms);
    hide CatalogueOf, Acyclic;
    if Closed(g) && Acyclic(g) {
      AcyclicExactlyRanked(g);
      var rank :| Ranks(g, rank);
      forall m, dep | m in list && dep in m.dependsOn
        ensures (exists n :: n in list && n.id == dep) && m.id in rank && dep in rank && rank[dep] < rank[m.id]
      {
        assert Edge(g, m.id, dep);
        assert ms[dep] in list && ms[dep].id == dep;
      }
      assert RankedList(list, rank);
    }
    if rank :| RankedList(list, rank) {
      forall a, b | Edge(g, a, b) ensures b in g && a in rank && b in rank && rank[b] < rank[a] {
        assert ms[a] in list && b in ms[a].dependsOn;
        var n :| n in list && n.id == b;
      }
      assert Ranks(g, rank);
      AcyclicExactlyRanked(g);
    }
  }

  /** What `New` accepts, in terms of the manifests alone. */
  lemma AcceptableExactly(list: seq<Manifest>, toLower: string -> string)
    ensures Acceptable(list, toLower) <==>
              && (forall m :: m in list ==> WellNamed(m, toLower))
              && (forall i, j :: 0 <= i < j < |list| ==> list[i].id != list[j].id)
              && (exists rank :: RankedList(list, rank))
              && (forall m :: m in list ==> Distinct(m.routePrefixes))
              && (forall i, j, p :: 0 <= i < j < |list| && p in list[i].routePrefixes ==> p !in list[j].routePrefixes)
  {
    WellFormedIsWellNamed(toLower);
    if DistinctIds(list) {
      ManifestsById(list);
      PrefixesOfList(list);
      RankedExactly(list);
    }
    hide WellFormed, WellNamed, CatalogueOf, Closed, Acyclic, DistinctPrefixes, RankedList, Distinct;
  }

  lemma TwinsOverlap(table: Table)
    requires table == map["/x" := "a", "/x/" := "b"]
    ensures !ModulesDisjoint(table) && forall path :: OwnerOf(table, path) != Some("a")
  {
    assert PrefixMatches("/x", "/x") && PrefixMatches("/x/", "/x");
    forall path ensures OwnerOf(table, path) != Some("a") {
      assert "/x" + "/" == "/x/";
      SlashTwinNeverWins(table, "/x", path);
    }
  }

  lemma TwinsLink(ms: Catalogue, table: Table)
    requires ms.Keys == {"a", "b"} && table == map["/x" := "a", "/x/" := "b"]
    requires ms["a"].dependsOn == ms["b"].dependsOn == []
    requires ms["a"].routePrefixes == ["/x"] && ms["b"].routePrefixes == ["/x/"]
    ensures Closed(Dependencies(ms)) && Acyclic(Dependencies(ms)) && DistinctPrefixes(ms) && TableOf(ms, table)
  {
    forall w ensures !ClosedWalk(Dependencies(ms), w) {
      assert |w| > 1 ==> !Step(Dependencies(ms), w, 0);
    }
  }

  lemma TwoManifests(a: Manifest, b: Manifest)
    requires a.id != b.id
    ensures CatalogueOf([a, b]) == map[a.id := a, b.id := b] && DistinctIds([a, b])
  {
    assert [a, b][..1] == [a] && [a][..0] == [];
    assert CatalogueOf([]) == map[];
    assert CatalogueOf([a]) == map[a.id := a];
  }

  lemma TwinWellFormed(m: Manifest)
    requires m.id == "a" || m.id == "b"
    requires m.kind == KIND_BUSINESS && (m.routePrefixes == ["/x"] || m.routePrefixes == ["/x/"])
    ensures WellFormed(m, s => s)
  {
    assert forall c :: c in m.id ==> c == 'a' || c == 'b';
  }

  /** `New` accepts the same prefix with and without its final slash from two modules, whose paths then overlap. */
  lemma TwinsAccepted()
    ensures var a := Manifest("a", "A", KIND_BUSINESS, [], ["/x"], []);
            var b := Manifest("b", "B", KIND_BUSINESS, [], ["/x/"], []);
            var list, table := [a, b], map["/x" := "a", "/x/" := "b"];
            && Acceptable(list, s => s) && TableOf(CatalogueOf(list), table)
            && !ModulesDisjoint(table)
            && forall path :: OwnerOf(table, path) != Some("a")
  {
    var a := Manifest("a", "A", KIND_BUSINESS, [], ["/x"], []);
    var b := Manifest("b", "B", KIND_BUSINESS, [], ["/x/"], []);
    var ms, table: Table := map["a" := a, "b" := b], map["/x" := "a", "/x/" := "b"];
    TwinsOverlap(table);
    TwinsLink(ms, table);
    TwoManifests(a, b);
    TwinWellFormed(a);
    TwinWellFormed(b);
    hide Closed, Acyclic, DistinctPrefixes, TableOf, ModulesDisjoint, OwnerOf, WellFormed, CatalogueOf, DistinctIds;
  }

  // ---- Support for the updates

  lemma FirstInOrder(ids: seq<string>, ms: Catalogue, e: set<string>, id: string, i: nat)
    requires Ascending(ids) && Elements(ids) == ms.Keys && i < |ids| && e <= ms.Keys
    requires ids[i] in Dependents(ms, e, id)
    requires forall k :: 0 <= k < i ==> ids[k] !in Dependents(ms, e, id)
    ensures Least(Dependents(ms, e, id)) == ids[i]
  {
    var s := Dependents(ms, e, id);
    forall y | y in s ensures y == ids[i] || StrLess(ids[i], y) {
      assert y in Elements(ids);
      var k :| 0 <= k < |ids| && ids[k] == y;
    }
    LeastUnique(s, ids[i], Least(s));
  }

  /** Only listed business modules have been switched off. */
  ghost predicate Shrunk(ms: Catalogue, before: set<string>, after: set<string>, ids: seq<string>) {
    after <= before && forall id :: id in before - after ==> id in ids && IsBusiness(ms, id)
  }

  /** Inside a round, after `i` occurrences. */
  ghost predicate Round(ms: Catalogue, start: set<string>, e: set<string>,
                        pending: seq<string>, i: nat, next: seq<string>, errs: seq<Error>)
    requires i <= |pending|
  {
    && Shrunk(ms, start, e, pending[..i])
    && |next| <= i && FailAlike(ms, e, pending, next + pending[i..])
    && (forall id :: id in pending[..i] ==> id in next || id !in e)
    && (forall id :: id in next ==> id in pending[..i])
    && (|next| == i ==>
          && next == pending[..i] && e == start
          && Failing(ms, start, next) == next && Errors(ms, start, next) == errs)
  }

  lemma RoundStart(ms: Catalogue, e: set<string>, pending: seq<string>)
    ensures Round(ms, e, e, pending, 0, [], [])
  {
    assert [] + pending[0..] == pending;
  }

  lemma RoundKeep(ms: Catalogue, start: set<string>, e: set<string>,
                  pending: seq<string>, i: nat, next: seq<string>, errs: seq<Error>)
    requires i < |pending| && Round(ms, start, e, pending, i, next, errs)
    requires DisableError(ms, e, pending[i]).Some?
    ensures Round(ms, start, e, pending, i + 1, next + [pending[i]], errs + [DisableError(ms, e, pending[i]).value])
  {
    var id := pending[i];
    assert pending[..i + 1] == pending[..i] + [id];
    assert next + [id] + pending[i + 1..] == next + pending[i..];
    FailingConcat(ms, e, next, [id]);
  }

  lemma RoundDrop(ms: Catalogue, start: set<string>, e: set<string>,
                  pending: seq<string>, i: nat, next: seq<string>, errs: seq<Error>)
    requires i < |pending| && Round(ms, start, e, pending, i, next, errs)
    requires DisableError(ms, e, pending[i]).None?
    ensures Round(ms, start, AfterOp(ms, e, Disable(pending[i])), pending, i + 1, next, errs)
  {
    var id := pending[i];
    assert pending[..i + 1] == pending[..i] + [id];
    assert next + [id] + pending[i + 1..] == next + pending[i..];
    DroppedStaysOff(ms, e - {id}, next, id, pending[i + 1..]);
  }

  /** Between rounds: every listed module is pending or off, and what is pending fails like the whole list. */
  ghost predicate Retrying(ms: Catalogue, start: set<string>, e: set<string>, ids: seq<string>, pending: seq<string>) {
    && Shrunk(ms, start, e, ids)
    && FailAlike(ms, e, ids, pending)
    && (forall id :: id in pending ==> id in ids)
    && (forall id :: id in ids ==> id in pending || id !in e)
  }

  lemma RetryStart(ms: Catalogue, e: set<string>, ids: seq<string>)
    ensures Retrying(ms, e, e, ids, ids)
  {
  }

  lemma RetryStep(ms: Catalogue, start: set<string>, e: set<string>, after: set<string>,
                  ids: seq<string>, pending: seq<string>, next: seq<string>)
    requires Retrying(ms, start, e, ids, pending)
    requires Shrunk(ms, e, after, pending) && FailAlike(ms, after, pending, next)
    requires forall id :: id in pending ==> id in next || id !in after
    requires forall id :: id in next ==> id in pending
    ensures Retrying(ms, start, after, ids, next)
  {
  }

  /** When nothing pending can be switched off, the final state is the greatest one the list allows. */
  lemma RetryEnd(ms: Catalogue, start: set<string>, e: set<string>, ids: seq<string>, pending: seq<string>)
    requires Sound(ms) && Legal(ms, start) && Legal(ms, e)
    requires Retrying(ms, start, e, ids, pending)
    requires pending == [] || Failing(ms, e, pending) == pending
    ensures GreatestWithin(ms, ListBound(ms, start, ids), ms.Keys - e)
    ensures Errors(ms, e, ids) == Errors(ms, e, pending)
    ensures pending == [] <==> SelfContained(ms, start, ids)
    ensures pending == [] ==> forall id :: id in ids ==> id !in e
    ensures Shrunk(ms, start, e, ids) && (ids == [] ==> pending == [] && e == start)
  {
    FailingMembers(ms, e, pending);
    StuckIsGreatest(ms, start, e, ids);
    CompleteIffSelfContained(ms, start, e, ids);
    assert Failing(ms, e, ids) == pending;
    ErrorsOfFailing(ms, e, ids);
  }

  // ---- The comma-separated list

  function NonBlank(raws: seq<string>): seq<string> {
    if raws == [] then []
    else (if TrimSpace(raws[0]) != "" then [TrimSpace(raws[0])] else []) + NonBlank(raws[1..])
  }

  /** The IDs that a comma-separated list names. */
  function ListedIds(csv: string): seq<string> {
    NonBlank(SplitOn(csv, ','))
  }

  /** The reading part of `ApplyDisabledList`. */
  method ReadList(csv: string) returns (ids: seq<string>)
    ensures ids == ListedIds(csv)
  {
    var raws := SplitOn(csv, ',');
    ids := [];
    for i := 0 to |raws|
      invariant ids + NonBlank(raws[i..]) == ListedIds(csv)
    {
      var id := TrimSpace(raws[i]);
      assert raws[i..][0] == raws[i] && raws[i..][1..] == raws[i + 1..];
      if id != "" {
        ids := ids + [id];
      }
    }
  }

  lemma {:induction false} NonBlankKeeps(ids: seq<string>)
    requires forall id :: id in ids ==> id != "" && Trimmed(id)
    ensures NonBlank(ids) == ids
  {
    if ids == [] {
    } else {
      TrimSpaceOfTrimmed(ids[0]);
      assert forall id :: id in ids[1..] ==> id in ids;
      NonBlankKeeps(ids[1..]);
      assert ids == [ids[0]] + ids[1..];
    }
  }

  /** A joined list of IDs is read back, so the strict and the lenient form can be given the same modules. */
  lemma ListedIdsOfJoin(ids: seq<string>)
    requires ids != [] && forall id :: id in ids ==> id != "" && Trimmed(id) && ',' !in id
    ensures ListedIds(JoinWith(ids, ',')) == ids
  {
    SplitOfJoin(ids, ',');
    NonBlankKeeps(ids);
  }

  lemma {:induction false} NonBlankConcat(a: seq<string>, b: seq<string>)
    ensures NonBlank(a + b) == NonBlank(a) + NonBlank(b)
  {
    if a == [] {
      assert a + b == b;
    } else {
      assert (a + b)[1..] == a[1..] + b;
      NonBlankConcat(a[1..], b);
    }
  }

  /** The list names what its two sides name, in this order and with repetition. */
  lemma ListedIdsConcat(a: string, b: string)
    ensures ListedIds(a + "," + b) == ListedIds(a) + ListedIds(b)
  {
    SplitConcat(a, ',', b);
    NonBlankConcat(SplitOn(a, ','), SplitOn(b, ','));
  }

  /** One item names what is left of it without the white space around it, if anything. */
  lemma ListedIdsOfItem(before: string, id: string, after: string)
    requires Blank(before) && Blank(after) && Trimmed(id) && ',' !in id
    ensures ListedIds(before + id + after) == if id == "" then [] else [id]
  {
    var item := before + id + after;
    TrimAround(before, id, after);
    assert ',' !in item;
    SplitNone(item, ',');
    assert [item][1..] == [] && NonBlank([]) == [];
  }

  lemma {:induction false} NonBlankMembers(raws: seq<string>, id: string)
    ensures id in NonBlank(raws) <==> id != "" && exists raw :: raw in raws && TrimSpace(raw) == id
  {
    if raws == [] {
    } else {
      NonBlankMembers(raws[1..], id);
      assert raws == [raws[0]] + raws[1..];
    }
  }

  /** A listed ID is never blank, and is what some item is trimmed to. */
  lemma ListedIdsMembers(csv: string, id: string)
    ensures id in ListedIds(csv) <==> id != "" && exists raw :: raw in SplitOn(csv, ',') && TrimSpace(raw) == id
  {
    NonBlankMembers(SplitOn(csv, ','), id);
  }

  lemma ListedNothing(csv: string)
    ensures (forall raw :: raw in SplitOn(csv, ',') ==> TrimSpace(raw) == "") ==> ListedIds(csv) == []
  {
    if ListedIds(csv) != [] {
      ListedIdsMembers(csv, ListedIds(csv)[0]);
    }
  }

  lemma BlankItems()
    ensures ListedIds("") == [] && ListedIds(" ") == []
  {
    hide ListedIds, TrimSpace;
    assert "" + "" + "" == "" && " " + "" + "" == " ";
    ListedIdsOfItem("", "", "");
    ListedIdsOfItem(" ", "", "");
  }

  lemma PaddedItem(item: string, id: string)
    requires Trimmed(id) && id != "" && ',' !in id && item == " " + id + " "
    ensures ListedIds(item) == [id]
  {
    hide ListedIds, TrimSpace;
    ListedIdsOfItem(" ", id, " ");
  }

  /** An empty or blank list names nothing, and blanks around IDs do not matter. */
  lemma ListedIdsInputs()
    ensures ListedIds("") == [] && ListedIds(" , ") == []
    ensures ListedIds(" sign , relay ") == ["sign", "relay"]
  {
    hide ListedIds, TrimSpace;
    BlankItems();
    ListedIdsConcat(" ", " ");
    assert " " + "," + " " == " , ";
    PaddedItem(" sign ", "sign");
    PaddedItem(" relay ", "relay");
    ListedIdsConcat(" sign ", " relay ");
    assert " sign " + "," + " relay " == " sign , relay ";
  }

  /** Confluence: the final state depends only on the state before and on which modules are listed. */
  lemma ListOrderIrrelevant(ms: Catalogue, before: set<string>, a: seq<string>, b: seq<string>,
                            e: set<string>, f: set<string>)
    requires Elements(a) == Elements(b) && e <= ms.Keys && f <= ms.Keys
    requires GreatestWithin(ms, ListBound(ms, before, a), ms.Keys - e)
    requires GreatestWithin(ms, ListBound(ms, before, b), ms.Keys - f)
    ensures e == f
  {
    forall id ensures id in a <==> id in b {
      assert id in Elements(a) <==> id in Elements(b);
    }
    assert ListBound(ms, before, a) == ListBound(ms, before, b);
    GreatestUnique(ms, ListBound(ms, before, a), ms.Keys - e, ms.Keys - f);
    assert e == ms.Keys - (ms.Keys - e) && f == ms.Keys - (ms.Keys - f);
  }

  // ---- The object

  class Registry {
    var manifests: Catalogue
    var enabled: map<string, bool>
    var byPrefix: Table

    ghost predicate Valid()
      reads this
    {
      && Sound(manifests)
      && TableOf(manifests, byPrefix)
      && enabled.Keys == manifests.Keys
      && Legal(manifests, EnabledSet())
    }

    ghost function EnabledSet(): set<string>
      reads this
    {
      set id | id in enabled && enabled[id]
    }

    constructor Init(manifests: Catalogue, byPrefix: Table)
      requires Sound(manifests) && TableOf(manifests, byPrefix)
      ensures Valid() && this.manifests == manifests && this.byPrefix == byPrefix
      ensures EnabledSet() == manifests.Keys
    {
      this.manifests := manifests;
      this.byPrefix := byPrefix;
      enabled := map id | id in manifests :: true;
      new;
      assert EnabledSet() == manifests.Keys;
      AllOnIsLegal(manifests);
    }

    /** `Enabled`: an unregistered ID is off. */
    method Enabled(id: string) returns (on: bool)
      requires Valid()
      ensures on <==> id in EnabledSet()
    {
      on := id in enabled && enabled[id];
    }

    method DisableModule(id: string) returns (err: Option<Error>)
      requires Valid()
      modifies this`enabled
      ensures Valid()
      ensures err == DisableError(manifests, old(EnabledSet()), id)
      ensures EnabledSet() == AfterOp(manifests, old(EnabledSet()), Disable(id))
      ensures DisablesOnly(manifests, old(EnabledSet()), id, err, EnabledSet())
    {
      hide DisablesOnly;
      DisableStep(manifests, EnabledSet(), id);
      if id !in manifests {
        return Some(NotRegistered(id));
      }
      if manifests[id].kind == KIND_CORE {
        return Some(CoreModule(id));
      }
      if !enabled[id] {
        return None;
      }
      ghost var e := EnabledSet();
      var ids := SortedIds(manifests.Keys);
      for i := 0 to |ids|
        invariant forall k :: 0 <= k < i ==> ids[k] !in Dependents(manifests, e, id)
      {
        assert ids[i] in Elements(ids);
        if ids[i] == id || !enabled[ids[i]] {
          continue;
        }
        var deps := manifests[ids[i]].dependsOn;
        for j := 0 to |deps|
          invariant forall k :: 0 <= k < j ==> deps[k] != id
        {
          if deps[j] == id {
            FirstInOrder(ids, manifests, e, id, i);
            return Some(NeededBy(id, ids[i]));
          }
        }
      }
      forall other | other in e ensures other !in Dependents(manifests, e, id) {
        assert other in Elements(ids);
      }
      assert Dependents(manifests, e, id) == {};
      StepKeepsLegal(manifests, e, Disable(id));
      enabled := enabled[id := false];
      assert EnabledSet() == e - {id};
      return None;
    }

    method EnableModule(id: string) returns (err: Option<Error>)
      requires Valid()
      modifies this`enabled
      ensures Valid()
      ensures err == EnableError(manifests, old(EnabledSet()), id)
      ensures EnabledSet() == AfterOp(manifests, old(EnabledSet()), Enable(id))
      ensures EnablesOnly(manifests, old(EnabledSet()), id, err, EnabledSet())
    {
      hide EnablesOnly;
      EnableStep(manifests, EnabledSet(), id);
      if id !in manifests {
        return Some(NotRegistered(id));
      }
      ghost var e := EnabledSet();
      var deps := manifests[id].dependsOn;
      for i := 0 to |deps|
        invariant FirstMissing(deps, e) == FirstMissing(deps[i..], e)
      {
        assert Edge(Dependencies(manifests), id, deps[i]);
        assert deps[i..][0] == deps[i] && deps[i..][1..] == deps[i + 1..];
        if !enabled[deps[i]] {
          return Some(NeedsFirst(id, deps[i]));
        }
      }
      assert deps[|deps|..] == [];
      StepKeepsLegal(manifests, e, Enable(id));
      enabled := enabled[id := true];
      assert EnabledSet() == e + {id};
      return None;
    }

    /** One round over the pending list: what failed, with its errors. */
    method DisableEach(pending: seq<string>) returns (next: seq<string>, errs: seq<Error>)
      requires Valid()
      modifies this`enabled
      ensures Valid()
      ensures Shrunk(manifests, old(EnabledSet()), EnabledSet(), pending)
      ensures |next| <= |pending| && FailAlike(manifests, EnabledSet(), pending, next)
      ensures forall id :: id in pending ==> id in next || id !in EnabledSet()
      ensures forall id :: id in next ==> id in pending
      ensures |next| == |pending| ==>
                && next == pending && EnabledSet() == old(EnabledSet())
                && Failing(manifests, EnabledSet(), pending) == pending
                && Errors(manifests, EnabledSet(), pending) == errs
    {
      next, errs := [], [];
      ghost var start := EnabledSet();
      RoundStart(manifests, start, pending);
      for i := 0 to |pending|
        invariant Valid() && manifests == old(manifests)
        invariant Round(manifests, start, EnabledSet(), pending, i, next, errs)
      {
        ghost var e := EnabledSet();
        var err := DisableModule(pending[i]);
        if err.Some? {
          RoundKeep(manifests, start, e, pending, i, next, errs);
          next := next + [pending[i]];
          errs := errs + [err.value];
        } else {
          RoundDrop(manifests, start, e, pending, i, next, errs);
        }
      }
      assert next + pending[|pending|..] == next;
      assert pending[..|pending|] == pending;
    }

    /** Lenient: retries until a round makes no progress, and returns the errors of what is left. */
    method RestoreDisabled(ids: seq<string>) returns (errs: seq<Error>)
      requires Valid()
      modifies this`enabled
      ensures Valid()
      ensures GreatestWithin(manifests, ListBound(manifests, old(EnabledSet()), ids), manifests.Keys - EnabledSet())
      ensures errs == Errors(manifests, EnabledSet(), ids)
      ensures errs == [] <==> SelfContained(manifests, old(EnabledSet()), ids)
      ensures errs == [] ==> forall id :: id in ids ==> id !in EnabledSet()
      ensures Shrunk(manifests, old(EnabledSet()), EnabledSet(), ids)
      ensures ids == [] ==> errs == [] && EnabledSet() == old(EnabledSet())
    {
      hide Retrying, Shrunk, FailAlike, GreatestWithin, SelfContained;
      var pending := ids;
      ghost var start := EnabledSet();
      RetryStart(manifests, start, ids);
      while |pending| > 0
        invariant Valid() && manifests == old(manifests)
        invariant Retrying(manifests, start, EnabledSet(), ids, pending)
        decreases |pending|
      {
        ghost var e := EnabledSet();
        var next;
        next, errs := DisableEach(pending);
        RetryStep(manifests, start, e, EnabledSet(), ids, pending, next);
        if |next| == |pending| {
          RetryEnd(manifests, start, EnabledSet(), ids, pending);
          return errs;
        }
        pending := next;
      }
      RetryEnd(manifests, start, EnabledSet(), ids, pending);
      return [];
    }

    /** Strict: the same rounds over the IDs of a comma-separated list, reporting the last error. */
    method ApplyDisabledList(csv: string) returns (err: Option<Error>)
      requires Valid()
      modifies this`enabled
      ensures Valid()
      ensures GreatestWithin(manifests, ListBound(manifests, old(EnabledSet()), ListedIds(csv)),
                             manifests.Keys - EnabledSet())
      ensures err.None? <==> SelfContained(manifests, old(EnabledSet()), ListedIds(csv))
      ensures err.Some? ==>
                var errs := Errors(manifests, EnabledSet(), ListedIds(csv)); errs != [] && err.value == errs[|errs| - 1]
      ensures err.None? ==> forall id :: id in ListedIds(csv) ==> id !in EnabledSet()
      ensures Shrunk(manifests, old(EnabledSet()), EnabledSet(), ListedIds(csv))
      ensures (forall raw :: raw in SplitOn(csv, ',') ==> TrimSpace(raw) == "") ==>
                err.None? && EnabledSet() == old(EnabledSet())
    {
      ListedNothing(csv);
      var ids := ReadList(csv);
      hide Retrying, Shrunk, FailAlike, GreatestWithin, SelfContained, ListedIds;
      ghost var start := EnabledSet();
      RetryStart(manifests, start, ids);
      var pending := ids;
      while |pending| > 0
        invariant Valid() && manifests == old(manifests)
        invariant Retrying(manifests, start, EnabledSet(), ids, pending)
        decreases |pending|
      {
        ghost var e := EnabledSet();
        var next, errs := DisableEach(pending);
        RetryStep(manifests, start, e, EnabledSet(), ids, pending, next);
        if |next| == |pending| {
          RetryEnd(manifests, start, EnabledSet(), ids, pending);
          return Some(errs[|errs| - 1]);
        }
        pending := next;
      }
      RetryEnd(manifests, start, EnabledSet(), ids, pending);
      return None;
    }

    method ModuleForPath(path: string) returns (owner: Option<string>)
      requires Valid()
      ensures owner == OwnerOf(byPrefix, path)
      ensures owner.None? <==> forall p :: p in byPrefix ==> !PrefixMatches(p, path)
      ensures forall p :: MostSpecific(byPrefix, path, p) ==> owner == Some(byPrefix[p])
    {
      forall id {
        OwnerExactly(byPrefix, path, id);
      }
      owner := FindOwner(byPrefix, path);
    }

    /** The middleware's decision: false is the 404 answer. */
    method Gate(path: string) returns (pass: bool)
      requires Valid()
      ensures pass <==> Passes(byPrefix, EnabledSet(), path)
      ensures (forall p :: p in byPrefix ==> !PrefixMatches(p, path)) ==> pass
      ensures forall p :: MostSpecific(byPrefix, path, p) ==> (pass <==> byPrefix[p] in EnabledSet())
    {
      var owner := ModuleForPath(path);
      if owner.Some? {
        var on := Enabled(owner.value);
        return on;
      }
      return true;
    }
  }

  // ---- Construction

  /** The prefix `p` of `m` is declared by `owner` too, or by `m` twice. */
  ghost predicate Shares(ms: Catalogue, m: Manifest, p: string, owner: string) {
    && owner in ms && p in m.routePrefixes && p in ms[owner].routePrefixes
    && (owner == m.id ==> !Distinct(m.routePrefixes))
  }

  /** A dependency that is missing, or a prefix that is declared twice. */
  ghost predicate LinkError(ms: Catalogue, err: Error) {
    match err
    case UnknownDependency(id, dep) => Needs(ms, id, dep) && dep !in ms
    case SharedPrefix(p, owner, id) => id in ms && Shares(ms, ms[id], p, owner)
    case _ => false
  }

  /** Every error of `New` points at something that is really there. */
  ghost predicate Explains(list: seq<Manifest>, toLower: string -> string, err: Error) {
    var ms := CatalogueOf(list);
    match err
    case DuplicateId(id) => exists i, j :: 0 <= i < j < |list| && list[i].id == id && list[j].id == id
    case UnknownDependency(id, dep) => LinkError(ms, err)
    case SharedPrefix(p, owner, id) => LinkError(ms, err)
    case DependencyCycle(w) => RepeatingWalk(Dependencies(ms), w)
    case _ => exists m :: m in list && Rejects(m, toLower, err)
  }

  /** What the first loop of `New` checks. */
  ghost predicate Collectable(list: seq<Manifest>, toLower: string -> string) {
    (forall m :: m in list ==> WellFormed(m, toLower)) && DistinctIds(list)
  }

  /** Manifest `i` is the first that the first loop rejects, for its own sake before a repeated ID. */
  ghost predicate FirstRejected(list: seq<Manifest>, toLower: string -> string, i: nat, err: Error) {
    && i < |list| && Collectable(list[..i], toLower)
    && if err.DuplicateId? then
         err.id == list[i].id && WellFormed(list[i], toLower) && exists k :: 0 <= k < i && list[k].id == err.id
       else Rejects(list[i], toLower, err)
  }

  /** The manifests seen so far tell whether the next ID is new. */
  lemma KnownIds(list: seq<Manifest>, i: nat)
    requires i < |list|
    ensures list[i].id in CatalogueOf(list[..i]) <==> exists k :: 0 <= k < i && list[k].id == list[i].id
  {
    var front, m := list[..i], list[i];
    CatalogueEntries(front);
    if m.id in CatalogueOf(front) {
      var k :| 0 <= k < |front| && front[k] == CatalogueOf(front)[m.id];
      assert list[k].id == m.id;
    }
    forall k | 0 <= k < i && list[k].id == m.id ensures m.id in CatalogueOf(front) {
      assert front[k] in front;
    }
  }

  lemma CollectStep(list: seq<Manifest>, i: nat, toLower: string -> string)
    requires i < |list| && Collectable(list[..i], toLower)
    ensures CatalogueOf(list[..i + 1]) == CatalogueOf(list[..i])[list[i].id := list[i]]
    ensures Collectable(list[..i + 1], toLower)
       <==> WellFormed(list[i], toLower) && list[i].id !in CatalogueOf(list[..i])
    ensures !Collectable(list[..i + 1], toLower) ==> !Collectable(list, toLower)
  {
    hide WellFormed;
    KnownIds(list, i);
    var front, more := list[..i], list[..i + 1];
    assert more[..i] == front && more == front + [list[i]];
    assert forall k :: 0 <= k < i ==> front[k] == list[k] && more[k] == list[k];
    forall m | m in more ensures m in list {
    }
    assert DistinctIds(list) ==> DistinctIds(more);
  }

  /** The first loop of `New`: valid manifests with distinct IDs. */
  method Collect(list: seq<Manifest>, toLower: string -> string) returns (ms: Catalogue, err: Option<Error>)
    ensures err.None? <==> Collectable(list, toLower)
    ensures err.None? ==> ms == CatalogueOf(list)
    ensures err.Some? ==> Explains(list, toLower, err.value)
    ensures err.Some? ==> exists i :: FirstRejected(list, toLower, i, err.value)
  {
    ms := map[];
    for i := 0 to |list|
      invariant ms == CatalogueOf(list[..i]) && Collectable(list[..i], toLower)
    {
      KnownIds(list, i);
      CollectStep(list, i, toLower);
      hide CatalogueOf, WellFormed, Rejects, Collectable, LinkError;
      var m := list[i];
      err := Validate(m, toLower);
      if err.Some? {
        assert m in list && FirstRejected(list, toLower, i, err.value);
        return ms, err;
      }
      if m.id in ms {
        assert FirstRejected(list, toLower, i, DuplicateId(m.id));
        return ms, Some(DuplicateId(m.id));
      }
      ms := ms[m.id := m];
    }
    assert list[..|list|] == list;
    return ms, None;
  }

  lemma SharingIsAnError(ms: Catalogue, m: Manifest, p: string, owner: string)
    requires m.id in ms && ms[m.id] == m && Shares(ms, m, p, owner)
    ensures !DistinctPrefixes(ms)
  {
  }

  /** `m` with only its first `j` prefixes, beside the modules in `part`. */
  ghost function WithSome(part: Catalogue, m: Manifest, j: nat): Catalogue
    requires j <= |m.routePrefixes|
  {
    part[m.id := m.(routePrefixes := m.routePrefixes[..j])]
  }

  lemma TakenIsShared(part: Catalogue, m: Manifest, j: nat, table: Table)
    requires j < |m.routePrefixes| && m.routePrefixes[j] in table && TableOf(WithSome(part, m, j), table)
    ensures Shares(part[m.id := m], m, m.routePrefixes[j], table[m.routePrefixes[j]])
  {
    var p := m.routePrefixes[j];
    if table[p] == m.id {
      var k :| 0 <= k < j && m.routePrefixes[..j][k] == p;
      assert m.routePrefixes[k] == p;
    }
  }

  lemma AddOne(ms: Catalogue, id: string, p: string, table: Table)
    requires TableOf(ms, table) && DistinctPrefixes(ms) && id in ms && p !in table
    ensures var more := ms[id := ms[id].(routePrefixes := ms[id].routePrefixes + [p])];
            TableOf(more, table[p := id]) && DistinctPrefixes(more)
  {
  }

  lemma WithOneMore(part: Catalogue, m: Manifest, j: nat, table: Table)
    requires j < |m.routePrefixes| && m.routePrefixes[j] !in table
    requires TableOf(WithSome(part, m, j), table) && DistinctPrefixes(WithSome(part, m, j))
    ensures TableOf(WithSome(part, m, j + 1), table[m.routePrefixes[j] := m.id])
    ensures DistinctPrefixes(WithSome(part, m, j + 1))
  {
    var now := WithSome(part, m, j);
    AddOne(now, m.id, m.routePrefixes[j], table);
    assert m.routePrefixes[..j + 1] == m.routePrefixes[..j] + [m.routePrefixes[j]];
    assert now[m.id := now[m.id].(routePrefixes := m.routePrefixes[..j + 1])] == WithSome(part, m, j + 1);
  }

  lemma WithNone(part: Catalogue, m: Manifest, table: Table)
    requires TableOf(part, table) && DistinctPrefixes(part) && m.id !in part
    ensures TableOf(WithSome(part, m, 0), table) && DistinctPrefixes(WithSome(part, m, 0))
    ensures WithSome(part, m, |m.routePrefixes|) == part[m.id := m]
  {
    assert m.(routePrefixes := m.routePrefixes[..|m.routePrefixes|]) == m;
  }

  /** One module's prefixes enter the table, unless one of them is taken. */
  method AddPrefixes(ghost part: Catalogue, m: Manifest, table: Table) returns (grown: Table, err: Option<Error>)
    requires TableOf(part, table) && DistinctPrefixes(part) && m.id !in part
    ensures err.None? <==> DistinctPrefixes(part[m.id := m])
    ensures err.None? ==> TableOf(part[m.id := m], grown)
    ensures err.Some? ==>
              && err.value.SharedPrefix? && err.value.id == m.id
              && Shares(part[m.id := m], m, err.value.prefix, err.value.owner)
  {
    hide TableOf, DistinctPrefixes, WithSome, Shares;
    WithNone(part, m, table);
    grown := table;
    for j := 0 to |m.routePrefixes|
      invariant TableOf(WithSome(part, m, j), grown) && DistinctPrefixes(WithSome(part, m, j))
    {
      var p := m.routePrefixes[j];
      if p in grown {
        TakenIsShared(part, m, j, grown);
        SharingIsAnError(part[m.id := m], m, p, grown[p]);
        return grown, Some(SharedPrefix(p, grown[p], m.id));
      }
      WithOneMore(part, m, j, grown);
      grown := grown[p := m.id];
    }
    return grown, None;
  }

  /** What the second loop of `New` has checked so far. */
  ghost function Restrict(ms: Catalogue, ids: seq<string>): Catalogue {
    map id | id in ms && id in ids :: ms[id]
  }

  lemma SharesInWhole(ms: Catalogue, part: Catalogue, m: Manifest, p: string, owner: string)
    requires part.Keys <= ms.Keys && forall id :: id in part ==> part[id] == ms[id]
    requires m.id in ms && ms[m.id] == m && Shares(part, m, p, owner)
    ensures Shares(ms, m, p, owner) && !DistinctPrefixes(ms)
  {
  }

  lemma NothingLinked(ms: Catalogue)
    ensures TableOf(Restrict(ms, []), map[]) && DistinctPrefixes(Restrict(ms, []))
  {
  }

  /** The dependencies of the modules checked so far are registered. */
  ghost predicate DepsKnown(ms: Catalogue, ids: seq<string>) {
    forall id, dep :: id in ids && Needs(ms, id, dep) ==> dep in ms
  }

  lemma AllLinked(ms: Catalogue, ids: seq<string>)
    requires Elements(ids) == ms.Keys && DepsKnown(ms, ids)
    ensures Closed(Dependencies(ms)) && Restrict(ms, ids) == ms
  {
    forall id | id in ms ensures id in ids {
      assert id in Elements(ids);
    }
    forall id, dep | Edge(Dependencies(ms), id, dep) ensures dep in ms {
      assert Needs(ms, id, dep);
    }
  }

  /**
   Module `ids[i]` is the first in ascending order that cannot be linked: for its first missing
   dependency, or else for a prefix that it shares with itself or with a module before it.
   */
  ghost predicate FirstUnlinked(ms: Catalogue, ids: seq<string>, i: nat, err: Error) {
    && Ascending(ids) && Elements(ids) == ms.Keys && i < |ids|
    && DepsKnown(ms, ids[..i]) && DistinctPrefixes(Restrict(ms, ids[..i]))
    && match err
       case UnknownDependency(id, dep) =>
         && id == ids[i] && id in ms
         && exists k :: 0 <= k < |ms[id].dependsOn| && ms[id].dependsOn[k] == dep && dep !in ms
                        && forall j :: 0 <= j < k ==> ms[id].dependsOn[j] in ms
       case SharedPrefix(p, owner, id) =>
         && id == ids[i] && id in ms && (forall dep :: dep in ms[id].dependsOn ==> dep in ms)
         && Shares(Restrict(ms, ids[..i + 1]), ms[id], p, owner)
       case _ => false
  }

  lemma MissingIsAnError(ms: Catalogue, id: string, dep: string)
    requires Needs(ms, id, dep) && dep !in ms
    ensures !Closed(Dependencies(ms))
  {
    assert Edge(Dependencies(ms), id, dep);
  }

  lemma RestrictOneMore(ms: Catalogue, ids: seq<string>, i: nat)
    requires Ascending(ids) && i < |ids| && ids[i] in ms
    ensures ids[i] !in Restrict(ms, ids[..i])
    ensures Restrict(ms, ids[..i + 1]) == Restrict(ms, ids[..i])[ids[i] := ms[ids[i]]]
    ensures Restrict(ms, ids[..i + 1]).Keys <= ms.Keys
    ensures forall id :: id in Restrict(ms, ids[..i + 1]) ==> Restrict(ms, ids[..i + 1])[id] == ms[id]
  {
    assert ids[..i + 1] == ids[..i] + [ids[i]];
    forall k | 0 <= k < i ensures ids[k] != ids[i] {
      StrLessTrichotomy(ids[k], ids[i]);
    }
  }

  /** The second loop of `New`: registered dependencies and unshared prefixes. */
  method Link(ms: Catalogue) returns (table: Table, err: Option<Error>)
    requires forall id :: id in ms ==> ms[id].id == id
    ensures err.None? <==> Closed(Dependencies(ms)) && DistinctPrefixes(ms)
    ensures err.None? ==> TableOf(ms, table)
    ensures err.Some? ==> LinkError(ms, err.value)
    ensures err.Some? ==> exists ids, i :: FirstUnlinked(ms, ids, i, err.value)
  {
    hide TableOf, DistinctPrefixes, Restrict, Closed, Shares;
    table := map[];
    var ids := SortedIds(ms.Keys);
    NothingLinked(ms);
    for i := 0 to |ids|
      invariant TableOf(Restrict(ms, ids[..i]), table) && DistinctPrefixes(Restrict(ms, ids[..i]))
      invariant DepsKnown(ms, ids[..i])
    {
      assert ids[i] in Elements(ids);
      var m := ms[ids[i]];
      for j := 0 to |m.dependsOn|
        invariant forall k :: 0 <= k < j ==> m.dependsOn[k] in ms
      {
        if m.dependsOn[j] !in ms {
          MissingIsAnError(ms, ids[i], m.dependsOn[j]);
          assert FirstUnlinked(ms, ids, i, UnknownDependency(ids[i], m.dependsOn[j]));
          return table, Some(UnknownDependency(ids[i], m.dependsOn[j]));
        }
      }
      assert ids[..i + 1] == ids[..i] + [ids[i]];
      ghost var part := Restrict(ms, ids[..i]);
      RestrictOneMore(ms, ids, i);
      table, err := AddPrefixes(part, m, table);
      if err.Some? {
        SharesInWhole(ms, part[m.id := m], m, err.value.prefix, err.value.owner);
        assert FirstUnlinked(ms, ids, i, err.value);
        return table, err;
      }
    }
    assert ids[..|ids|] == ids;
    AllLinked(ms, ids);
    return table, None;
  }

  /** `New`: succeeds exactly on acceptable manifests, with everything switched on. */
  method New(list: seq<Manifest>, toLower: string -> string) returns (r: Registry?, err: Option<Error>)
    ensures r != null <==> err.None?
    ensures err.None? <==> Acceptable(list, toLower)
    ensures err.Some? ==> Explains(list, toLower, err.value)
    ensures err.Some? ==>
              || (exists i :: FirstRejected(list, toLower, i, err.value))
              || (Collectable(list, toLower) && exists ids, i :: FirstUnlinked(CatalogueOf(list), ids, i, err.value))
              || (Collectable(list, toLower) && err.value.DependencyCycle?
                  && Closed(Dependencies(CatalogueOf(list))) && DistinctPrefixes(CatalogueOf(list)))
    ensures r != null ==>
              && fresh(r) && r.Valid() && r.manifests == CatalogueOf(list)
              && r.EnabledSet() == CatalogueOf(list).Keys
  {
    var ms;
    ms, err := Collect(list, toLower);
    if err.Some? {
      return null, err;
    }
    CatalogueEntries(list);
    var table;
    table, err := Link(ms);
    if err.Some? {
      return null, err;
    }
    var cycle := CheckCycles(Dependencies(ms));
    if cycle.Some? {
      RepeatingWalkIsCyclic(Dependencies(ms), cycle.value);
      return null, Some(DependencyCycle(cycle.value));
    }
    r := new Registry.Init(ms, table);
    return r, None;
  }
}
