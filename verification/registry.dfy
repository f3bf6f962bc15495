/** Metadata attached to codes by full path and inherited from ancestors, and
    its one use: HTTP status codes, with the four predefined root codes. */
module Registry {
  import opened Wrappers
  import opened DotPath
  import opened Codes

  /** `i` is the first position on the chain of `c` whose full path is a key of `m`. */
  ghost predicate NearestRegistered<V>(c: Code, m: map<string, V>, i: int)
  {
    && 0 <= i < |Chain(c)|
    && CodeStr(Chain(c)[i]) in m
    && forall j :: 0 <= j < i ==> CodeStr(Chain(c)[j]) !in m
  }

  /** No code on the chain of `c`, `c` included, has its full path in `m`. */
  ghost predicate Unregistered<V>(c: Code, m: map<string, V>)
  {
    forall i :: 0 <= i < |Chain(c)| ==> CodeStr(Chain(c)[i]) !in m
  }

  /** MetaDataFromAncestors: the value stored under the full path of the
      nearest code on the chain from `c` up to its root; None when none has one. */
  function MetaDataFromAncestors<V>(c: Code, m: map<string, V>): (r: Option<V>)
    ensures r.None? <==> Unregistered(c, m)
    ensures forall i :: NearestRegistered(c, m, i) ==> r == Some(m[CodeStr(Chain(c)[i])])
  {
    if CodeStr(c) in m then
      assert CodeStr(Chain(c)[0]) in m;
      Some(m[CodeStr(c)])
    else match c
      case Root(_) => None
      case Node(_, p) =>
        assert forall j :: 0 <= j < |Chain(p)| ==> Chain(p)[j] == Chain(c)[j + 1];
        assert forall i :: NearestRegistered(c, m, i) ==> i >= 1 && NearestRegistered(p, m, i - 1);
        MetaDataFromAncestors(p, m)
  }

  /** HTTP status codes of RFC 9110: Bad Request (section 15.5.1),
      Not Found (section 15.5.5) and Internal Server Error (section 15.6.1). */
  const StatusBadRequest: int := 400
  const StatusNotFound: int := 404
  const StatusInternalServerError: int := 500

  /** The panic of a second HTTP registration for the same full path: the
      status already registered and the code being registered again. */
  datatype DuplicateHTTP = DuplicateHTTP(existing: int, duplicate: Code)

  /** What a successful SetHTTP gives back: the code, and the registry with the new entry. */
  datatype Registered = Registered(code: Code, registry: map<string, int>)

  /** SetHTTP: registers `httpCode` under the code's full path. A path that is
      already a key is refused, reporting the status it already has; the
      caller's registry is then left as it was. */
  function SetHTTP(registry: map<string, int>, code: Code, httpCode: int): (r: Result<Registered, DuplicateHTTP>)
    ensures r.Failure? <==> CodeStr(code) in registry
    ensures r.Failure? ==> r.error == DuplicateHTTP(registry[CodeStr(code)], code)
    ensures r.Success? ==> r.value.code == code
    ensures r.Success? ==> r.value.registry.Keys == registry.Keys + {CodeStr(code)}
    ensures r.Success? ==> r.value.registry[CodeStr(code)] == httpCode
    ensures r.Success? ==> forall k :: k in registry ==> r.value.registry[k] == registry[k]
  {
    var path := CodeStr(code);
    if path in registry then Failure(DuplicateHTTP(registry[path], code))
    else Success(Registered(code, registry[path := httpCode]))
  }

  /** HTTPCode: the status inherited from the nearest registered code on the
      chain, or Bad Request when nothing on the chain is registered. */
  function HTTPCode(registry: map<string, int>, code: Code): (r: int)
    ensures Unregistered(code, registry) ==> r == StatusBadRequest
    ensures forall i :: NearestRegistered(code, registry, i) ==> r == registry[CodeStr(Chain(code)[i])]
  {
    match MetaDataFromAncestors(code, registry)
    case None => StatusBadRequest
    case Some(httpCode) => httpCode
  }

  /** The predefined root codes. */
  const InternalCode: Code := Root("internal")
  const InvalidInputCode: Code := Root("input")
  const NotFoundCode: Code := Root("missing")
  const StateCode: Code := Root("state")

  /** The package initialisation of the HTTP registry: the four predefined
      roots registered in order, starting from an empty registry. */
  function RegisterPredefined(): Result<map<string, int>, DuplicateHTTP>
  {
    match SetHTTP(map[], InternalCode, StatusInternalServerError)
    case Failure(e) => Failure(e)
    case Success(internal) =>
      match SetHTTP(internal.registry, InvalidInputCode, StatusBadRequest)
      case Failure(e) => Failure(e)
      case Success(input) =>
        match SetHTTP(input.registry, NotFoundCode, StatusNotFound)
        case Failure(e) => Failure(e)
        case Success(missing) =>
          match SetHTTP(missing.registry, StateCode, StatusBadRequest)
          case Failure(e) => Failure(e)
          case Success(state) => Success(state.registry)
  }

  /** The registry after package initialisation. */
  const PredefinedHTTP: map<string, int> :=
    map["internal" := 500, "input" := 400, "missing" := 404, "state" := 400]

  /** The status a code of the predefined registry gets from its root's segment. */
  function RootStatus(segment: string): int
  {
    if segment == "internal" then StatusInternalServerError
    else if segment == "missing" then StatusNotFound
    else StatusBadRequest
  }

  // ---------------------------------------------------------------------------
  // Properties of the registry

  /** A code with no registration of its own, nor on the chain below the
      ancestor `Chain(c)[k]`, inherits that ancestor's metadata. */
  lemma {:induction false} InheritsFromAncestor<V>(c: Code, m: map<string, V>, k: nat)
    requires k < |Chain(c)|
    requires forall j :: 0 <= j < k ==> CodeStr(Chain(c)[j]) !in m
    ensures MetaDataFromAncestors(c, m) == MetaDataFromAncestors(Chain(c)[k], m)
  {
    if k > 0 {
      var p := c.parent;
      assert Chain(c) == [c] + Chain(p);
      assert CodeStr(Chain(c)[0]) !in m;
      forall j | 0 <= j < k - 1
        ensures CodeStr(Chain(p)[j]) !in m
      {
        assert Chain(p)[j] == Chain(c)[j + 1];
      }
      InheritsFromAncestor(p, m, k - 1);
    }
  }

  /** The full paths along the chain of `c`, nearest first. */
  ghost function ChainPaths(c: Code): seq<string>
  {
    match c
    case Root(_) => [CodeStr(c)]
    case Node(_, p) => [CodeStr(c)] + ChainPaths(p)
  }

  /** ChainPaths is the full path of each code on the chain, position by position. */
  lemma {:induction false} ChainPathsIsChain(c: Code)
    ensures |ChainPaths(c)| == |Chain(c)|
    ensures forall i :: 0 <= i < |Chain(c)| ==> ChainPaths(c)[i] == CodeStr(Chain(c)[i])
  {
    match c
    case Root(_) =>
    case Node(_, p) =>
      ChainPathsIsChain(p);
  }

  /** Adding an entry for a path that is not on the chain of `c` does not change its lookup. */
  lemma {:induction false} MetaDataUnaffected<V>(c: Code, m: map<string, V>, key: string, v: V)
    requires key !in ChainPaths(c)
    ensures MetaDataFromAncestors(c, m[key := v]) == MetaDataFromAncestors(c, m)
  {
    match c
    case Root(_) =>
    case Node(_, p) =>
      MetaDataUnaffected(p, m, key, v);
  }

  /** After a successful SetHTTP the code has the registered status, and every
      code whose chain does not pass through that path keeps its status. */
  lemma SetHTTPEffect(registry: map<string, int>, code: Code, httpCode: int, other: Code)
    requires CodeStr(code) !in registry
    ensures SetHTTP(registry, code, httpCode).Success?
    ensures HTTPCode(SetHTTP(registry, code, httpCode).value.registry, code) == httpCode
    ensures CodeStr(code) !in ChainPaths(other) ==>
      HTTPCode(SetHTTP(registry, code, httpCode).value.registry, other) == HTTPCode(registry, other)
  {
    if CodeStr(code) !in ChainPaths(other) {
      MetaDataUnaffected(other, registry, CodeStr(code), httpCode);
    }
  }

  /** The four predefined roots are valid codes: their construction cannot panic. */
  lemma PredefinedCodes()
    ensures NewCode("internal") == Success(InternalCode)
    ensures NewCode("input") == Success(InvalidInputCode)
    ensures NewCode("missing") == Success(NotFoundCode)
    ensures NewCode("state") == Success(StateCode)
  {
    assert forall s: string | s in ["internal", "input", "missing", "state"] :: Sep !in s;
  }

  /** Package initialisation cannot panic: the four registrations do not
      collide, and they give the predefined registry. */
  lemma PredefinedRegistration()
    ensures RegisterPredefined() == Success(PredefinedHTTP)
  {
  }

  /** In the predefined registry every code gets the status of its root:
      500 under internal, 404 under missing, 400 otherwise. */
  lemma {:induction false} PredefinedStatusByRoot(c: Code)
    ensures HTTPCode(PredefinedHTTP, c) == RootStatus(Top(c).segment)
  {
    match c
    case Root(s) =>
    case Node(_, p) =>
      NodePathHasSep(c);
      assert CodeStr(c) !in PredefinedHTTP;
      PredefinedStatusByRoot(p);
  }
}
