/** kernel/module/module.go: what a module declares about itself. */
module Modules {
  import opened Prelude
  import opened GoStrings

  const KIND_CORE := "core"
  const KIND_BUSINESS := "business"

  datatype Manifest = Manifest(
    id: string,
    name: string,
    kind: string,
    dependsOn: seq<string>,
    routePrefixes: seq<string>,
    uiPrefixes: seq<string>)

  datatype Error =
    | EmptyId
    | BadId(id: string)
    | BadKind(id: string)
    | BadPrefix(id: string, prefix: string)
    | DuplicateId(id: string)
    | UnknownDependency(id: string, dep: string)
    | SharedPrefix(prefix: string, owner: string, id: string)
    | DependencyCycle(walk: seq<string>)
    | NotRegistered(id: string)
    | CoreModule(id: string)
    | NeededBy(id: string, other: string)
    | NeedsFirst(id: string, dep: string)

  /** The well-formedness that `validate` promises. `toLower` stands for `strings.ToLower`. */
  ghost predicate WellFormed(m: Manifest, toLower: string -> string) {
    && m.id != ""
    && toLower(m.id) == m.id
    && (forall c :: c in " /\\" ==> c !in m.id)
    && (m.kind == KIND_CORE || m.kind == KIND_BUSINESS)
    && (forall p :: p in m.routePrefixes ==> HasPrefix(p, "/"))
  }

  /** An upper-case letter, a space, a slash or a backslash in the ID. */
  ghost predicate BadlyNamed(m: Manifest, toLower: string -> string) {
    toLower(m.id) != m.id || ' ' in m.id || '/' in m.id || '\\' in m.id
  }

  /** The error names a rule that the manifest breaks. */
  ghost predicate Rejects(m: Manifest, toLower: string -> string, err: Error) {
    match err
    case EmptyId => m.id == ""
    case BadId(id) => id == m.id && (toLower(id) != id || exists c :: c in " /\\" && c in id)
    case BadKind(id) => id == m.id && m.kind != KIND_CORE && m.kind != KIND_BUSINESS
    case BadPrefix(id, p) => id == m.id && p in m.routePrefixes && !HasPrefix(p, "/")
    case _ => false
  }

  method Validate(m: Manifest, toLower: string -> string) returns (err: Option<Error>)
    ensures err.None? <==> WellFormed(m, toLower)
    ensures err.Some? ==> Rejects(m, toLower, err.value)
    ensures err == Some(EmptyId) <==> m.id == ""
    ensures err == Some(BadId(m.id)) <==> m.id != "" && BadlyNamed(m, toLower)
    ensures err == Some(BadKind(m.id)) <==>
              m.id != "" && !BadlyNamed(m, toLower) && m.kind != "core" && m.kind != "business"
    ensures err.Some? && err.value.BadPrefix? ==>
              exists k :: 0 <= k < |m.routePrefixes| && m.routePrefixes[k] == err.value.prefix
                          && forall j :: 0 <= j < k ==> HasPrefix(m.routePrefixes[j], "/")
  {
    if m.id == "" {
      return Some(EmptyId);
    }
    if toLower(m.id) != m.id || ContainsAny(m.id, " /\\") {
      return Some(BadId(m.id));
    }
    if m.kind != KIND_CORE && m.kind != KIND_BUSINESS {
      return Some(BadKind(m.id));
    }
    for i := 0 to |m.routePrefixes|
      invariant forall k :: 0 <= k < i ==> HasPrefix(m.routePrefixes[k], "/")
    {
      if !HasPrefix(m.routePrefixes[i], "/") {
        return Some(BadPrefix(m.id, m.routePrefixes[i]));
      }
    }
    return None;
  }

  // ---- Keys in a stable order

  ghost predicate Ascending(ids: seq<string>) {
    forall i, j :: 0 <= i < j < |ids| ==> StrLess(ids[i], ids[j])
  }

  ghost function Elements(ids: seq<string>): set<string> {
    set id | id in ids
  }

  /** Where `id` belongs in an ascending list. */
  function InsertAt(ids: seq<string>, id: string): (k: nat)
    ensures k <= |ids|
    ensures forall i :: 0 <= i < k ==> StrLess(ids[i], id)
    ensures k < |ids| ==> !StrLess(ids[k], id)
  {
    if ids == [] || !StrLess(ids[0], id) then 0 else 1 + InsertAt(ids[1..], id)
  }

  lemma InsertKeepsAscending(ids: seq<string>, id: string)
    requires Ascending(ids) && id !in ids
    ensures var k := InsertAt(ids, id); Ascending(ids[..k] + [id] + ids[k..])
  {
    var k := InsertAt(ids, id);
    forall j | k <= j < |ids| ensures StrLess(id, ids[j]) {
      StrLessTrichotomy(id, ids[k]);
      if k < j {
        StrLessTransitive(id, ids[k], ids[j]);
      }
    }
  }

  /** `sortedIDs`: the keys, whichever order the map yields them in, come out ascending. */
  method SortedIds(keys: set<string>) returns (ids: seq<string>)
    ensures Ascending(ids) && Elements(ids) == keys
  {
    ids := [];
    var rest := keys;
    while rest != {}
      invariant rest <= keys && Ascending(ids) && Elements(ids) == keys - rest
      decreases |rest|
    {
      var id :| id in rest;
      InsertKeepsAscending(ids, id);
      var k := InsertAt(ids, id);
      ghost var before := ids;
      ids := ids[..k] + [id] + ids[k..];
      assert before == before[..k] + before[k..];
      assert Elements(ids) == Elements(before) + {id};
      rest := rest - {id};
    }
  }

  lemma NoElements(a: seq<string>)
    ensures Elements(a) == {} <==> a == []
  {
    assert a != [] ==> a[0] in Elements(a);
  }

  lemma FirstIsLeast(a: seq<string>, b: seq<string>)
    requires Ascending(a) && a != [] && b != [] && Elements(a) == Elements(b)
    ensures a[0] == b[0] || StrLess(a[0], b[0])
  {
    assert b[0] in Elements(a);
  }

  lemma TailElements(a: seq<string>)
    requires Ascending(a) && a != []
    ensures Elements(a[1..]) == Elements(a) - {a[0]}
  {
    forall i | 0 < i < |a| ensures a[i] != a[0] {
      StrLessTrichotomy(a[0], a[i]);
    }
    assert a == [a[0]] + a[1..];
  }

  /** There is only one ascending list of the same keys, so the map's own order never shows. */
  lemma {:induction false} AscendingUnique(a: seq<string>, b: seq<string>)
    requires Ascending(a) && Ascending(b) && Elements(a) == Elements(b)
    ensures a == b
  {
    NoElements(a);
    NoElements(b);
    if a == [] {
    } else {
      FirstIsLeast(a, b);
      FirstIsLeast(b, a);
      StrLessTrichotomy(a[0], b[0]);
      TailElements(a);
      TailElements(b);
      AscendingUnique(a[1..], b[1..]);
    }
  }
}
