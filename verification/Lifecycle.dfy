/**
 The on/off state of the modules as a value: the set of enabled IDs, the guarded steps of
 kernel/module/registry.go on it, and what every run of those steps can and cannot reach.
 */
module Lifecycle {
  import opened Prelude
  import opened GoStrings
  import opened DependencyGraph
  import opened Modules

  type Catalogue = map<string, Manifest>

  function Dependencies(ms: Catalogue): Graph {
    map id | id in ms :: ms[id].dependsOn
  }

  /** The relation of the cycle check is `DependsOn`, no more and no less. */
  lemma DependenciesExactly(ms: Catalogue, id: string, dep: string)
    ensures Edge(Dependencies(ms), id, dep) <==> id in ms && dep in ms[id].dependsOn
    ensures Dependencies(ms).Keys == ms.Keys
  {
  }

  /** What a constructed registry knows about its manifests. */
  ghost predicate Sound(ms: Catalogue) {
    && (forall id :: id in ms ==> ms[id].id == id && (ms[id].kind == KIND_CORE || ms[id].kind == KIND_BUSINESS))
    && Closed(Dependencies(ms))
    && Acyclic(Dependencies(ms))
  }

  predicate IsCore(ms: Catalogue, id: string) {
    id in ms && ms[id].kind == KIND_CORE
  }

  predicate IsBusiness(ms: Catalogue, id: string) {
    id in ms && ms[id].kind != KIND_CORE
  }

  predicate Needs(ms: Catalogue, id: string, dep: string) {
    id in ms && dep in ms[id].dependsOn
  }

  // ---- Single steps

  /** The other enabled modules that need `id`. */
  function Dependents(ms: Catalogue, e: set<string>, id: string): set<string> {
    set other | other in e && other != id && Needs(ms, other, id)
  }

  ghost predicate IsLeast(s: set<string>, x: string) {
    x in s && forall y :: y in s ==> y == x || StrLess(x, y)
  }

  lemma LeastOfTwo(s: set<string>, x: string, z: string)
    requires x in s && IsLeast(s - {x}, z)
    ensures IsLeast(s, x) || IsLeast(s, z)
  {
    StrLessTrichotomy(x, z);
    if StrLess(x, z) {
      forall y | y in s ensures y == x || StrLess(x, y) {
        if y != x && y != z {
          StrLessTransitive(x, z, y);
        }
      }
    }
  }

  lemma {:induction false} LeastExists(s: set<string>)
    requires s != {}
    ensures exists x :: IsLeast(s, x)
  {
    var x :| x in s;
    if s == {x} {
      assert IsLeast(s, x);
    } else {
      LeastExists(s - {x});
      var z :| IsLeast(s - {x}, z);
      LeastOfTwo(s, x, z);
    }
  }

  /** First of a non-empty set in string order. */
  ghost function Least(s: set<string>): (x: string)
    requires s != {}
    ensures IsLeast(s, x)
  {
    LeastExists(s);
    var x :| IsLeast(s, x);
    x
  }

  lemma LeastUnique(s: set<string>, x: string, y: string)
    requires IsLeast(s, x) && IsLeast(s, y)
    ensures x == y
  {
    StrLessTrichotomy(x, y);
  }

  ghost function DisableError(ms: Catalogue, e: set<string>, id: string): Option<Error> {
    if id !in ms then Some(NotRegistered(id))
    else if IsCore(ms, id) then Some(CoreModule(id))
    else if id !in e || Dependents(ms, e, id) == {} then None
    else Some(NeededBy(id, Least(Dependents(ms, e, id))))
  }

  function FirstMissing(deps: seq<string>, e: set<string>): Option<string> {
    if deps == [] then None else if deps[0] !in e then Some(deps[0]) else FirstMissing(deps[1..], e)
  }

  function EnableError(ms: Catalogue, e: set<string>, id: string): Option<Error> {
    if id !in ms then Some(NotRegistered(id))
    else
      match FirstMissing(ms[id].dependsOn, e)
      case Some(dep) => Some(NeedsFirst(id, dep))
      case None => None
  }

  lemma {:induction false} FirstMissingNone(deps: seq<string>, e: set<string>)
    ensures FirstMissing(deps, e).None? <==> forall d :: d in deps ==> d in e
  {
    if deps == [] {
    } else {
      FirstMissingNone(deps[1..], e);
      assert deps == [deps[0]] + deps[1..];
    }
  }

  /** Why and with which error `Disable` refuses, in terms of the manifests alone. */
  lemma DisableErrorExactly(ms: Catalogue, e: set<string>, id: string)
    requires e <= ms.Keys
    ensures var err := DisableError(ms, e, id);
            && (err == Some(NotRegistered(id)) <==> id !in ms)
            && (err == Some(CoreModule(id)) <==> id in ms && ms[id].kind == KIND_CORE)
            && (err.None? <==>
                  && id in ms && ms[id].kind != KIND_CORE
                  && forall other :: other in e && id in e && other != id ==> id !in ms[other].dependsOn)
    ensures forall user :: DisableError(ms, e, id) == Some(NeededBy(id, user)) <==>
                             && id in e && ms[id].kind != KIND_CORE
                             && user in e && user != id && id in ms[user].dependsOn
                             && forall other :: other in e && other != id && id in ms[other].dependsOn ==>
                                                  other == user || StrLess(user, other)
  {
    var s := Dependents(ms, e, id);
    forall user | IsLeast(s, user) && s != {} ensures user == Least(s) {
      LeastUnique(s, user, Least(s));
    }
    assert forall other :: other in s <==> other in e && other != id && id in ms[other].dependsOn;
    forall user | user in s ensures IsLeast(s, user) <==>
                                      forall other :: other in e && other != id && id in ms[other].dependsOn ==>
                                                        other == user || StrLess(user, other)
    {
    }
  }

  lemma {:induction false} FirstMissingExactly(deps: seq<string>, e: set<string>, dep: string)
    ensures FirstMissing(deps, e) == Some(dep)
       <==> exists k :: 0 <= k < |deps| && deps[k] == dep && dep !in e && forall j :: 0 <= j < k ==> deps[j] in e
  {
    if deps == [] {
    } else {
      FirstMissingExactly(deps[1..], e, dep);
      if k :| 0 <= k < |deps[1..]| && deps[1..][k] == dep && dep !in e && forall j :: 0 <= j < k ==> deps[1..][j] in e {
        assert deps[k + 1] == dep;
        if deps[0] in e {
          assert forall j :: 0 <= j < k + 1 ==> deps[j] in e by {
            assert forall j :: 0 < j < k + 1 ==> deps[j] == deps[1..][j - 1];
          }
        }
      }
      if k :| 0 < k < |deps| && deps[k] == dep && dep !in e && forall j :: 0 <= j < k ==> deps[j] in e {
        assert deps[1..][k - 1] == dep;
        assert forall j :: 0 <= j < k - 1 ==> deps[1..][j] == deps[j + 1];
      }
    }
  }

  /** Why and with which error `Enable` refuses, in terms of the manifests alone. */
  lemma EnableErrorExactly(ms: Catalogue, e: set<string>, id: string)
    ensures var err := EnableError(ms, e, id);
            && (err == Some(NotRegistered(id)) <==> id !in ms)
            && (err.None? <==> id in ms && forall dep :: dep in ms[id].dependsOn ==> dep in e)
    ensures forall dep :: EnableError(ms, e, id) == Some(NeedsFirst(id, dep)) <==>
                            && id in ms
                            && exists k :: 0 <= k < |ms[id].dependsOn| && ms[id].dependsOn[k] == dep && dep !in e
                                           && forall j :: 0 <= j < k ==> ms[id].dependsOn[j] in e
  {
    if id in ms {
      FirstMissingNone(ms[id].dependsOn, e);
      forall dep ensures FirstMissing(ms[id].dependsOn, e) == Some(dep) <==>
                           exists k :: 0 <= k < |ms[id].dependsOn| && ms[id].dependsOn[k] == dep && dep !in e
                                       && forall j :: 0 <= j < k ==> ms[id].dependsOn[j] in e
      {
        FirstMissingExactly(ms[id].dependsOn, e, dep);
      }
    }
  }

  datatype Op = Disable(id: string) | Enable(id: string)

  ghost function OpError(ms: Catalogue, e: set<string>, op: Op): Option<Error> {
    match op
    case Disable(id) => DisableError(ms, e, id)
    case Enable(id) => EnableError(ms, e, id)
  }

  ghost function AfterOp(ms: Catalogue, e: set<string>, op: Op): set<string> {
    if OpError(ms, e, op).Some? then e
    else match op
         case Disable(id) => e - {id}
         case Enable(id) => e + {id}
  }

  /** What one call of `Disable` does, in terms of the manifests and the enabled set alone. */
  ghost predicate DisablesOnly(ms: Catalogue, before: set<string>, id: string, err: Option<Error>, after: set<string>) {
    && (err == Some(NotRegistered(id)) <==> id !in ms)
    && (err == Some(CoreModule(id)) <==> id in ms && ms[id].kind == KIND_CORE)
    && (err.None? <==>
          && id in ms && ms[id].kind != KIND_CORE
          && forall other :: other in before && id in before && other != id ==>
                               other !in ms || id !in ms[other].dependsOn)
    && (err.None? ==> id !in after)
    && forall other :: other != id || err.Some? ==> (other in after <==> other in before)
  }

  lemma DisableStep(ms: Catalogue, e: set<string>, id: string)
    requires e <= ms.Keys
    ensures DisablesOnly(ms, e, id, DisableError(ms, e, id), AfterOp(ms, e, Disable(id)))
  {
    DisableErrorExactly(ms, e, id);
    hide DisableError;
  }

  /** What one call of `Enable` does. */
  ghost predicate EnablesOnly(ms: Catalogue, before: set<string>, id: string, err: Option<Error>, after: set<string>) {
    && (err == Some(NotRegistered(id)) <==> id !in ms)
    && (err.None? <==> id in ms && forall dep :: dep in ms[id].dependsOn ==> dep in before)
    && (err.None? ==> id in after)
    && forall other :: other != id || err.Some? ==> (other in after <==> other in before)
  }

  lemma EnableStep(ms: Catalogue, e: set<string>, id: string)
    ensures EnablesOnly(ms, e, id, EnableError(ms, e, id), AfterOp(ms, e, Enable(id)))
  {
    EnableErrorExactly(ms, e, id);
    hide EnableError;
  }

  // ---- Runs

  ghost function AfterOps(ms: Catalogue, e: set<string>, ops: seq<Op>): set<string>
    decreases ops
  {
    if ops == [] then e else AfterOps(ms, AfterOp(ms, e, ops[0]), ops[1..])
  }

  ghost predicate AllSucceed(ms: Catalogue, e: set<string>, ops: seq<Op>)
    decreases ops
  {
    ops == [] || (OpError(ms, e, ops[0]).None? && AllSucceed(ms, AfterOp(ms, e, ops[0]), ops[1..]))
  }

  lemma {:induction false} AfterOpsConcat(ms: Catalogue, e: set<string>, a: seq<Op>, b: seq<Op>)
    ensures AfterOps(ms, e, a + b) == AfterOps(ms, AfterOps(ms, e, a), b)
    ensures AllSucceed(ms, e, a) && AllSucceed(ms, AfterOps(ms, e, a), b) ==> AllSucceed(ms, e, a + b)
    decreases a
  {
    if a == [] {
      assert a + b == b;
    } else {
      assert (a + b)[1..] == a[1..] + b;
      AfterOpsConcat(ms, AfterOp(ms, e, a[0]), a[1..], b);
    }
  }

  /** Closed under `DependsOn`, and no core module is off. */
  ghost predicate Legal(ms: Catalogue, e: set<string>) {
    && e <= ms.Keys
    && (forall id :: IsCore(ms, id) ==> id in e)
    && (forall id, dep :: id in e && Needs(ms, id, dep) ==> dep in e)
  }

  lemma AllOnIsLegal(ms: Catalogue)
    requires Sound(ms)
    ensures Legal(ms, ms.Keys)
  {
    forall id, dep | id in ms.Keys && Needs(ms, id, dep) ensures dep in ms.Keys {
      assert Edge(Dependencies(ms), id, dep);
    }
  }

  lemma StepKeepsLegal(ms: Catalogue, e: set<string>, op: Op)
    requires Legal(ms, e)
    ensures Legal(ms, AfterOp(ms, e, op))
  {
    if OpError(ms, e, op).None? {
      match op
      case Disable(id) =>
        forall other | other in e - {id} ensures !Needs(ms, other, id) || id !in e {
          assert id in e ==> other !in Dependents(ms, e, id);
        }
      case Enable(id) =>
        FirstMissingNone(ms[id].dependsOn, e);
    }
  }

  lemma {:induction false} RunKeepsLegal(ms: Catalogue, e: set<string>, ops: seq<Op>)
    requires Legal(ms, e)
    ensures Legal(ms, AfterOps(ms, e, ops))
    decreases ops
  {
    if ops == [] {
    } else {
      StepKeepsLegal(ms, e, ops[0]);
      RunKeepsLegal(ms, AfterOp(ms, e, ops[0]), ops[1..]);
    }
  }

  /** Everything that a core module needs, however indirectly, is on in every legal state. */
  lemma {:induction false} CoreNeedsAreOn(ms: Catalogue, e: set<string>, w: seq<string>)
    requires Legal(ms, e) && Walk(Dependencies(ms), w) && w != [] && w[0] in e
    ensures w[|w| - 1] in e
    decreases |w|
  {
    if |w| <= 1 {
    } else {
      assert Step(Dependencies(ms), w, 0);
      WalkParts(Dependencies(ms), w, 1, |w|);
      CoreNeedsAreOn(ms, e, w[1..|w|]);
    }
  }

  /** From any legal state, everything can be switched on again, one successful call at a time. */
  lemma {:induction false} WayUp(ms: Catalogue, e: set<string>) returns (ops: seq<Op>)
    requires Sound(ms) && Legal(ms, e)
    ensures AllSucceed(ms, e, ops) && AfterOps(ms, e, ops) == ms.Keys
    decreases |ms.Keys - e|
  {
    var off := ms.Keys - e;
    if off == {} {
      ops := [];
    } else {
      var g := Dependencies(ms);
      var id := SinkExists(g, off);
      forall d | d in ms[id].dependsOn ensures d in e {
        assert Edge(g, id, d);
      }
      FirstMissingNone(ms[id].dependsOn, e);
      StepKeepsLegal(ms, e, Enable(id));
      assert ms.Keys - (e + {id}) == off - {id};
      var more := WayUp(ms, e + {id});
      ops := [Enable(id)] + more;
      assert ops[1..] == more;
    }
  }

  /** From any legal state every legal part of it can be reached by switching modules off. */
  lemma {:induction false} WayDown(ms: Catalogue, e: set<string>, target: set<string>) returns (ops: seq<Op>)
    requires Sound(ms) && Legal(ms, e) && Legal(ms, target) && target <= e
    ensures AllSucceed(ms, e, ops) && AfterOps(ms, e, ops) == target
    decreases |e - target|
  {
    var extra := e - target;
    if extra == {} {
      assert e == target;
      ops := [];
    } else {
      var id := SourceExists(Dependencies(ms), extra);
      forall other | other in e && other != id ensures !Needs(ms, other, id) {
        assert other in extra ==> !Edge(Dependencies(ms), other, id);
      }
      assert Dependents(ms, e, id) == {};
      StepKeepsLegal(ms, e, Disable(id));
      assert (e - {id}) - target == extra - {id};
      var more := WayDown(ms, e - {id}, target);
      ops := [Disable(id)] + more;
      assert ops[1..] == more;
    }
  }

  /** Any legal state can be reached from any other by a sequence of successful calls. */
  lemma LegalStatesConnected(ms: Catalogue, e: set<string>, target: set<string>)
    requires Sound(ms) && Legal(ms, e) && Legal(ms, target)
    ensures exists ops :: AllSucceed(ms, e, ops) && AfterOps(ms, e, ops) == target
  {
    AllOnIsLegal(ms);
    var up := WayUp(ms, e);
    var down := WayDown(ms, ms.Keys, target);
    AfterOpsConcat(ms, e, up, down);
  }

  /** The states that a fresh registry can get into are exactly the legal ones. */
  lemma ReachableExactlyLegal(ms: Catalogue, e: set<string>)
    requires Sound(ms)
    ensures Legal(ms, e) <==> exists ops :: AfterOps(ms, ms.Keys, ops) == e
  {
    AllOnIsLegal(ms);
    if Legal(ms, e) {
      LegalStatesConnected(ms, ms.Keys, e);
    }
    forall ops | AfterOps(ms, ms.Keys, ops) == e ensures Legal(ms, e) {
      RunKeepsLegal(ms, ms.Keys, ops);
    }
  }

  // ---- Switching off a list

  /** Whoever needs a member is a member. */
  ghost predicate TakesDependents(ms: Catalogue, x: set<string>) {
    forall id, dep :: dep in x && Needs(ms, id, dep) ==> id in x
  }

  ghost predicate GreatestWithin(ms: Catalogue, bound: set<string>, x: set<string>) {
    && x <= bound && TakesDependents(ms, x)
    && forall y :: y <= bound && TakesDependents(ms, y) ==> y <= x
  }

  /** What a list may switch off at most: what is off already, and the business modules it names. */
  function ListBound(ms: Catalogue, e: set<string>, ids: seq<string>): set<string> {
    (ms.Keys - e) + (set id | id in ids && IsBusiness(ms, id))
  }

  lemma GreatestUnique(ms: Catalogue, bound: set<string>, x: set<string>, y: set<string>)
    requires GreatestWithin(ms, bound, x) && GreatestWithin(ms, bound, y)
    ensures x == y
  {
  }

  /** No module of the list that is still on can be switched off. */
  ghost predicate Stuck(ms: Catalogue, e: set<string>, ids: seq<string>) {
    forall id :: id in ids && id in e ==> DisableError(ms, e, id).Some?
  }

  /** If a set with all its dependents is not off yet, some member of it that is on is needed by nobody on. */
  lemma FreeMember(ms: Catalogue, e: set<string>, y: set<string>) returns (id: string)
    requires Sound(ms) && e <= ms.Keys && TakesDependents(ms, y) && y * e != {}
    ensures id in y * e && Dependents(ms, e, id) == {}
  {
    id := SourceExists(Dependencies(ms), y * e);
    forall other | other in e && other != id ensures !Needs(ms, other, id) {
      assert other in y * e ==> !Edge(Dependencies(ms), other, id);
    }
  }

  /** Once stuck, the disabled set is the greatest one that the list allows. */
  lemma StuckIsGreatest(ms: Catalogue, before: set<string>, e: set<string>, ids: seq<string>)
    requires Sound(ms) && Legal(ms, e) && e <= before <= ms.Keys
    requires forall id :: id in before - e ==> id in ids && IsBusiness(ms, id)
    requires Stuck(ms, e, ids)
    ensures GreatestWithin(ms, ListBound(ms, before, ids), ms.Keys - e)
  {
    var bound := ListBound(ms, before, ids);
    forall id, dep | dep in ms.Keys - e && Needs(ms, id, dep) ensures id in ms.Keys - e {
    }
    forall y | y <= bound && TakesDependents(ms, y) ensures y <= ms.Keys - e {
      if y * e != {} {
        var id := FreeMember(ms, e, y);
      }
    }
  }

  /** The occurrences of the list that `Disable` rejects, in list order. */
  ghost function Failing(ms: Catalogue, e: set<string>, ids: seq<string>): seq<string> {
    if ids == [] then []
    else (if DisableError(ms, e, ids[0]).Some? then [ids[0]] else []) + Failing(ms, e, ids[1..])
  }

  /** One error for each of them. */
  ghost function Errors(ms: Catalogue, e: set<string>, ids: seq<string>): (errs: seq<Error>)
    ensures |errs| == |Failing(ms, e, ids)|
  {
    if ids == [] then []
    else (match DisableError(ms, e, ids[0]) case Some(err) => [err] case None => []) + Errors(ms, e, ids[1..])
  }

  lemma {:induction false} FailingConcat(ms: Catalogue, e: set<string>, a: seq<string>, b: seq<string>)
    ensures Failing(ms, e, a + b) == Failing(ms, e, a) + Failing(ms, e, b)
    ensures Errors(ms, e, a + b) == Errors(ms, e, a) + Errors(ms, e, b)
  {
    hide DisableError;
    if a == [] {
      assert a + b == b;
    } else {
      assert (a + b)[1..] == a[1..] + b && (a + b)[0] == a[0];
      FailingConcat(ms, e, a[1..], b);
      var f := if DisableError(ms, e, a[0]).Some? then [a[0]] else [];
      var g := match DisableError(ms, e, a[0]) case Some(err) => [err] case None => [];
      ConcatAssoc(f, Failing(ms, e, a[1..]), Failing(ms, e, b));
      ConcatAssoc(g, Errors(ms, e, a[1..]), Errors(ms, e, b));
    }
  }

  lemma {:induction false} FailingMembers(ms: Catalogue, e: set<string>, ids: seq<string>)
    ensures forall id :: id in Failing(ms, e, ids) <==> id in ids && DisableError(ms, e, id).Some?
  {
    if ids == [] {
    } else {
      FailingMembers(ms, e, ids[1..]);
      assert ids == [ids[0]] + ids[1..];
    }
  }

  lemma {:induction false} NothingFails(ms: Catalogue, e: set<string>, ids: seq<string>)
    ensures Failing(ms, e, ids) == [] <==> forall id :: id in ids ==> DisableError(ms, e, id).None?
  {
    if ids == [] {
    } else {
      NothingFails(ms, e, ids[1..]);
      assert ids == [ids[0]] + ids[1..];
    }
  }

  lemma {:induction false} ErrorsOfFailing(ms: Catalogue, e: set<string>, ids: seq<string>)
    ensures Errors(ms, e, ids) == Errors(ms, e, Failing(ms, e, ids))
    ensures Failing(ms, e, Failing(ms, e, ids)) == Failing(ms, e, ids)
  {
    if ids == [] {
    } else {
      ErrorsOfFailing(ms, e, ids[1..]);
      var head := if DisableError(ms, e, ids[0]).Some? then [ids[0]] else [];
      FailingConcat(ms, e, head, Failing(ms, e, ids[1..]));
    }
  }

  /** The two lists fail alike now and in every later, smaller state. */
  ghost predicate FailAlike(ms: Catalogue, e: set<string>, a: seq<string>, b: seq<string>) {
    forall later :: later <= e ==> Failing(ms, later, a) == Failing(ms, later, b)
  }

  /** Dropping an occurrence that has been switched off makes no difference later. */
  lemma DroppedStaysOff(ms: Catalogue, e: set<string>, a: seq<string>, id: string, b: seq<string>)
    requires IsBusiness(ms, id) && id !in e
    ensures FailAlike(ms, e, a + [id] + b, a + b)
  {
    forall later | later <= e ensures Failing(ms, later, a + [id] + b) == Failing(ms, later, a + b) {
      FailingConcat(ms, later, a, b);
      FailingConcat(ms, later, a, [id]);
      FailingConcat(ms, later, a + [id], b);
    }
  }

  /** The list is self-contained: business modules only, with everything that is on and needs them. */
  ghost predicate SelfContained(ms: Catalogue, e: set<string>, ids: seq<string>) {
    forall id :: id in ids ==>
                   IsBusiness(ms, id) && forall other :: Needs(ms, other, id) ==> other in ids || other !in e
  }

  /** A list is switched off completely if and only if it is self-contained. */
  lemma CompleteIffSelfContained(ms: Catalogue, before: set<string>, e: set<string>, ids: seq<string>)
    requires Sound(ms) && Legal(ms, before) && e <= before
    requires GreatestWithin(ms, ListBound(ms, before, ids), ms.Keys - e)
    requires Stuck(ms, e, ids)
    ensures Failing(ms, e, ids) == [] <==> SelfContained(ms, before, ids)
  {
    NothingFails(ms, e, ids);
    var bound := ListBound(ms, before, ids);
    if Failing(ms, e, ids) == [] {
      forall id | id in ids ensures IsBusiness(ms, id) && id in ms.Keys - e {
        assert DisableError(ms, e, id).None?;
      }
    }
    if SelfContained(ms, before, ids) {
      forall id, dep | dep in bound && Needs(ms, id, dep) ensures id in bound {
        assert dep in ids || dep in ms.Keys - before;
      }
      assert bound <= ms.Keys - e;
      forall id | id in ids ensures DisableError(ms, e, id).None? {
        assert id in bound;
      }
    }
  }
}
