/**
  Approval fingerprints (crates/patchhive-product-core/src/approvals.rs). The hash is ideal: an
  injective function of what is hashed.
 */
module Approvals {
  import opened Wrappers
  import opened Ordering
  import opened CanonicalJson

  datatype Dispatch = Dispatch(payload: Json, pathParams: map<string, string>, query: map<string, string>)

  ghost function StringFields(keys: seq<string>, values: map<string, string>): Fields
    requires forall k :: k in keys ==> k in values
  {
    if keys == [] then NoFields
    else
      assert keys[0] in keys;
      assert forall k :: k in keys[1..] ==> k in keys;
      Field(keys[0], Str(values[keys[0]]), StringFields(keys[1..], values))
  }

  /** `canonical_string_map`: the map's entries in key order. */
  ghost function CanonicalStringMap(values: map<string, string>): Json {
    Obj(StringFields(Sorted(values.Keys), values))
  }

  /** The object whose text is hashed; its three keys are in order as written. */
  ghost function CanonicalDispatch(dispatch: Dispatch): Json {
    Obj(Field("path_params", CanonicalStringMap(dispatch.pathParams),
        Field("payload", Canonical(dispatch.payload),
        Field("query", CanonicalStringMap(dispatch.query), NoFields))))
  }

  ghost predicate Injective<T(!new)>(hash: T -> string) {
    forall a, b :: hash(a) == hash(b) ==> a == b
  }

  ghost function DispatchInputHash(hash: Json -> string, dispatch: Dispatch): string {
    hash(CanonicalDispatch(dispatch))
  }

  ghost predicate SameInput(a: Dispatch, b: Dispatch) {
    MeaningOf(a.payload) == MeaningOf(b.payload) && a.pathParams == b.pathParams && a.query == b.query
  }

  lemma {:induction false} StringMembers(keys: seq<string>, values: map<string, string>)
    requires forall k :: k in keys ==> k in values
    ensures Members(StringFields(keys, values)) == map k | k in keys :: StrMeaning(values[k])
  {
    if keys == [] {
    } else {
      assert forall k :: k in keys <==> k == keys[0] || k in keys[1..];
      StringMembers(keys[1..], values);
    }
  }

  lemma StringMapInjective(a: map<string, string>, b: map<string, string>)
    requires CanonicalStringMap(a) == CanonicalStringMap(b)
    ensures a == b
  {
    hide Sorted;
    StringMembers(Sorted(a.Keys), a);
    StringMembers(Sorted(b.Keys), b);
    var m := Members(StringFields(Sorted(a.Keys), a));
    assert forall k :: k in m <==> k in a.Keys;
    assert forall k :: k in m <==> k in b.Keys;
    forall k | k in a
      ensures a[k] == b[k]
    {
      assert m[k] == StrMeaning(a[k]) == StrMeaning(b[k]);
    }
  }

  /** Two dispatches hash alike exactly when their parameters agree and their payloads mean the same. */
  lemma InputHashExactlyWhenSameInput(hash: Json -> string, a: Dispatch, b: Dispatch)
    requires Injective(hash)
    ensures DispatchInputHash(hash, a) == DispatchInputHash(hash, b) <==> SameInput(a, b)
  {
    CanonicalExactlyWhenSameMeaning(a.payload, b.payload);
    if DispatchInputHash(hash, a) == DispatchInputHash(hash, b) {
      assert CanonicalDispatch(a) == CanonicalDispatch(b);
      StringMapInjective(a.pathParams, b.pathParams);
      StringMapInjective(a.query, b.query);
    }
  }

  // ---------------------------------------------------------------------------------------
  // Scopes: sorted and without repetition, in place.

  function InsertInOrder(sorted: seq<string>, x: string): seq<string> {
    if sorted == [] || !Less(sorted[0], x) then [x] + sorted else [sorted[0]] + InsertInOrder(sorted[1..], x)
  }

  ghost predicate NonDescending(s: seq<string>) {
    forall i, j :: 0 <= i < j < |s| ==> s[i] == s[j] || Less(s[i], s[j])
  }

  lemma {:induction false} InsertKeepsOrder(sorted: seq<string>, x: string)
    requires NonDescending(sorted)
    ensures NonDescending(InsertInOrder(sorted, x))
    ensures forall y :: y in InsertInOrder(sorted, x) <==> y in sorted || y == x
  {
    var r := InsertInOrder(sorted, x);
    if sorted == [] {
    } else {
      assert sorted == [sorted[0]] + sorted[1..];
      if Less(sorted[0], x) {
        var rest := InsertInOrder(sorted[1..], x);
        InsertKeepsOrder(sorted[1..], x);
        forall j | 0 < j < |r|
          ensures r[0] == r[j] || Less(r[0], r[j])
        {
          assert r[j] in rest;
        }
      } else {
        if x != sorted[0] {
          LessTotal(x, sorted[0]);
        }
        forall j | 0 < j < |r|
          ensures r[0] == r[j] || Less(r[0], r[j])
        {
          if x != sorted[0] && sorted[j - 1] != sorted[0] {
            LessTransitive(x, sorted[0], sorted[j - 1]);
          }
        }
      }
    }
  }

  /** `sort` then `dedup`: the scopes as an ordered set. */
  method SortAndDedup(scopes: seq<string>) returns (required: seq<string>)
    ensures required == Sorted(set s | s in scopes)
  {
    var sorted: seq<string> := [];
    for i := 0 to |scopes|
      invariant NonDescending(sorted)
      invariant forall y :: y in sorted <==> y in scopes[..i]
    {
      InsertKeepsOrder(sorted, scopes[i]);
      assert scopes[..i + 1] == scopes[..i] + [scopes[i]];
      sorted := InsertInOrder(sorted, scopes[i]);
    }
    assert scopes[..|scopes|] == scopes;
    required := [];
    for i := 0 to |sorted|
      invariant Ascending(required)
      invariant forall y :: y in required <==> y in sorted[..i]
      invariant i > 0 ==> required != [] && required[|required| - 1] == sorted[i - 1]
    {
      assert sorted[..i + 1] == sorted[..i] + [sorted[i]];
      if required == [] || required[|required| - 1] != sorted[i] {
        forall j | 0 <= j < |required|
          ensures Less(required[j], sorted[i])
        {
          assert required[j] in sorted[..i];
          if j < |required| - 1 {
            LessTransitive(required[j], required[|required| - 1], sorted[i]);
          }
        }
        required := required + [sorted[i]];
      }
    }
    assert sorted[..|sorted|] == sorted;
    AscendingUnique(required, Sorted(set s | s in scopes));
  }

  // ---------------------------------------------------------------------------------------
  // Fingerprints.

  datatype Origin = OperatorDispatch | SuiteRun(runId: string) | WorkItem(workItemId: string)

  datatype Action = Action(id: string, caption: string, effect: string, requiredScopes: seq<string>)

  datatype Request = Request(
    product: string, action: Action, dispatch: Dispatch, repository: Option<string>, runId: Option<string>,
    origin: Origin)

  datatype Material = Material(
    product: string, actionId: string, actionLabel: string, repository: Option<string>, runId: Option<string>,
    inputHash: string, effect: string, requiredScopes: seq<string>, origin: Origin)

  ghost function ScopeSet(request: Request): set<string> {
    set s | s in request.action.requiredScopes
  }

  ghost function MaterialOf(hash: Json -> string, request: Request): Material {
    Material(
      request.product, request.action.id, request.action.caption, request.repository, request.runId,
      DispatchInputHash(hash, request.dispatch), request.action.effect, Sorted(ScopeSet(request)), request.origin)
  }

  ghost function Fingerprint(hash: Json -> string, seal: Material -> string, request: Request): string {
    seal(MaterialOf(hash, request))
  }

  /**
    An approval granted for one request fits another exactly when they are the same request: same
    product, action, target, origin, effect and set of scopes, and inputs with the same meaning.
   */
  lemma FingerprintExactlyWhenSameRequest(hash: Json -> string, seal: Material -> string, a: Request, b: Request)
    requires Injective(hash) && Injective(seal)
    ensures Fingerprint(hash, seal, a) == Fingerprint(hash, seal, b) <==>
      (&& a.product == b.product && a.action.id == b.action.id && a.action.caption == b.action.caption
       && a.action.effect == b.action.effect && ScopeSet(a) == ScopeSet(b)
       && a.repository == b.repository && a.runId == b.runId && a.origin == b.origin
       && SameInput(a.dispatch, b.dispatch))
  {
    InputHashExactlyWhenSameInput(hash, a.dispatch, b.dispatch);
    if Sorted(ScopeSet(a)) == Sorted(ScopeSet(b)) {
      assert forall s :: s in ScopeSet(a) <==> s in Sorted(ScopeSet(a));
      assert forall s :: s in ScopeSet(b) <==> s in Sorted(ScopeSet(b));
      assert ScopeSet(a) == ScopeSet(b);
    }
    if Fingerprint(hash, seal, a) == Fingerprint(hash, seal, b) {
      assert MaterialOf(hash, a) == MaterialOf(hash, b);
    }
  }
}
