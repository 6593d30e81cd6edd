/** An in-memory stand-in for the remote AWS Systems Manager parameter service
    that the shell talks to through its per-region clients. The service keeps a
    flat set of names per region, each with a non-empty history of versions; it
    lists names under a prefix page by page, deletes in batches of at most ten
    and records every write request it receives. */
module Remote {
  import opened Wrappers
  import opened Strings
  import opened Paths

  /** `parameterstore.ParameterPath`: a parameter name and the region holding it. */
  datatype ParameterPath = ParameterPath(Name: string, Region: string)

  /** One entry of a parameter's history (`ssm.ParameterHistory`). */
  datatype ParameterVersion = ParameterVersion(
    Type: string,
    Value: string,
    KeyId: Option<string>,
    Description: Option<string>,
    AllowedPattern: Option<string>,
    Tier: Option<string>,
    Policies: Option<string>,
    Version: nat)

  /** A parameter as `GetParameters` returns it: its name and latest version. */
  datatype Parameter = Parameter(Name: string, Latest: ParameterVersion)

  /** `ssm.PutParameterInput`; a nil pointer field is `None`. */
  datatype PutParameterInput = PutParameterInput(
    Name: Option<string>,
    Type: Option<string>,
    Value: Option<string>,
    KeyId: Option<string>,
    Description: Option<string>,
    AllowedPattern: Option<string>,
    Overwrite: Option<bool>,
    Tier: Option<string>,
    Policies: Option<string>)

  /** `ssm.PutParameterInput{}`. */
  const EmptyInput: PutParameterInput :=
    PutParameterInput(None, None, None, None, None, None, None, None, None)

  /** The errors the service answers with. */
  datatype ServiceError =
    | Unavailable(region: string)      // endpoint, credential or network failure
    | Throttled                        // too many write requests
    | ParameterNotFound(name: string)
    | ParameterAlreadyExists(name: string)
    | ValidationError                  // malformed request

  /** A write request as the service receives it. */
  datatype Call =
    | DeleteParametersCall(region: string, names: seq<string>)
    | PutParameterCall(region: string, input: PutParameterInput)

  /** One page of a paginated answer and the token of the next page, if any. */
  datatype Page<T> = Page(items: seq<T>, next: Option<nat>)

  /** `GetParametersByPath`'s default and maximum page size. */
  const PageSize: nat := 10
  /** `GetParameterHistory`'s maximum page size. */
  const HistoryPageSize: nat := 50
  /** `DeleteParameters` accepts at most this many names. */
  const MaxDeleteBatch: nat := 10

  /** Page `token` of `all` when cut into pages of `size`; the last page has no
      next token, and an empty answer is one empty page. */
  function PageOf<T>(all: seq<T>, token: nat, size: nat): (p: Page<T>)
    requires size > 0
    ensures p.next.Some? ==> p.next.value == token + 1 && (token + 1) * size < |all|
    ensures p.next.None? ==> (token + 1) * size >= |all|
    ensures p.next.Some? ==> |p.items| == size
    ensures forall i :: 0 <= i < |p.items| ==> p.items[i] in all
    ensures forall x :: x in p.items ==> x in all
  {
    var lo := if token * size <= |all| then token * size else |all|;
    var hi := if lo + size <= |all| then lo + size else |all|;
    Page(all[lo..hi], if hi < |all| then Some(token + 1) else None)
  }

  /** The items before page `token` followed by that page are the items up to
      the next page, or all of them on the last page. */
  lemma PageExtends<T>(all: seq<T>, token: nat, size: nat)
    requires size > 0 && token * size <= |all|
    ensures var p := PageOf(all, token, size);
            all[..token * size] + p.items == if p.next.None? then all else all[..(token + 1) * size]
  {
    var lo := token * size;
    var hi := if lo + size <= |all| then lo + size else |all|;
    assert all[..lo] + all[lo..hi] == all[..hi];
    assert all[..|all|] == all;
  }

  /** Number of pages a paginated answer of `n` items takes (at least one). */
  function PageCount(n: nat, size: nat): nat
    requires size > 0
  {
    if n <= size then 1 else 1 + PageCount(n - size, size)
  }

  /** Page `t` is the last page exactly when the items run out within it. */
  lemma {:induction false} PageCountBound(n: nat, size: nat, t: nat)
    requires size > 0 && t * size <= n && (t == 0 || t * size < n)
    ensures t < PageCount(n, size)
    ensures n <= (t + 1) * size ==> PageCount(n, size) == t + 1
  {
    if t > 0 {
      assert (t - 1) * size == t * size - size;
      assert t * size >= size;
      PageCountBound(n - size, size, t - 1);
    }
  }

  /** Whether `name` lies below the prefix `path` in the hierarchy; at the root
      every name does, including top-level names without a leading separator. */
  predicate Under(name: string, path: string)
  {
    path == [Delimiter] || HasPrefix(name, path + [Delimiter])
  }

  /** The names of `order` that are in `region` and below `path`, in order. */
  function Below(order: seq<ParameterPath>, region: string, path: string): (names: seq<string>)
    ensures |names| <= |order|
    ensures forall n :: n in names <==> ParameterPath(n, region) in order && Under(n, path)
  {
    if order == [] then []
    else
      (if order[0].Region == region && Under(order[0].Name, path) then [order[0].Name] else [])
      + Below(order[1..], region, path)
  }

  /** The abstract state of the service. */
  datatype Store = Store(
    order: seq<ParameterPath>,                          // the order listings follow
    history: map<ParameterPath, seq<ParameterVersion>>, // oldest version first
    down: set<string>,                                  // regions whose every call fails
    budget: nat,                                        // write calls accepted before throttling
    log: seq<Call>)                                     // every write call received
  {
    ghost predicate Valid()
    {
      && (forall p :: p in history <==> p in order)
      && (forall i, j :: 0 <= i < j < |order| ==> order[i] != order[j])
      && (forall p :: p in history ==> |history[p]| > 0 && p.Name != "")
    }

    predicate Exists(p: ParameterPath)
    {
      p in history
    }

    /** Every name of `region` below `path`, in listing order. */
    function Listing(region: string, path: string): seq<string>
    {
      Below(order, region, path)
    }

    /** `GetParameter`. */
    function GetParameter(p: ParameterPath): Result<ParameterVersion, ServiceError>
      requires Valid()
    {
      if p.Region in down then Err(Unavailable(p.Region))
      else if p !in history then Err(ParameterNotFound(p.Name))
      else Ok(history[p][|history[p]| - 1])
    }

    /** `GetParametersByPath` with `Recursive` set: page `token` of the listing. */
    function GetParametersByPath(region: string, path: string, token: nat): Result<Page<string>, ServiceError>
    {
      if region in down then Err(Unavailable(region))
      else Ok(PageOf(Listing(region, path), token, PageSize))
    }

    /** `GetParameters`: the parameters among `names` that exist, in request order. */
    function GetParameters(names: seq<string>, region: string): Result<seq<Parameter>, ServiceError>
      requires Valid()
    {
      if region in down then Err(Unavailable(region))
      else Ok(Found(names, region))
    }

    function Found(names: seq<string>, region: string): (r: seq<Parameter>)
      requires Valid()
      ensures |r| <= |names|
      ensures forall q :: q in r ==> ParameterPath(q.Name, region) in history
    {
      if names == [] then []
      else
        var p := ParameterPath(names[0], region);
        (if p in history then [Parameter(names[0], history[p][|history[p]| - 1])] else [])
        + Found(names[1..], region)
    }

    lemma FoundSingle(p: ParameterPath)
      requires Valid()
      ensures Found([p.Name], p.Region) ==
              if p in history then [Parameter(p.Name, history[p][|history[p]| - 1])] else []
    {
      assert [p.Name][1..] == [];
    }

    /** `GetParameterHistory`: page `token` of the history, oldest first. */
    function GetParameterHistory(p: ParameterPath, token: nat): Result<Page<ParameterVersion>, ServiceError>
    {
      if p.Region in down then Err(Unavailable(p.Region))
      else if p !in history then Err(ParameterNotFound(p.Name))
      else Ok(PageOf(history[p], token, HistoryPageSize))
    }

    /** The service after it received a write call that it could not serve. */
    function Reject(c: Call): Store
    {
      this.(log := log + [c])
    }

    /** `DeleteParameters`: the names that exist are deleted, the others are
        answered as invalid, in request order. */
    function DeleteParameters(region: string, names: seq<string>): (r: (Store, Result<seq<string>, ServiceError>))
      requires Valid()
      ensures r.0.Valid()
      ensures r.0.log == log + [DeleteParametersCall(region, names)]
      ensures r.0.down == down
      ensures r.1.Ok? ==> forall n :: n in r.1.value <==> n in names && ParameterPath(n, region) !in history
      ensures r.1.Ok? ==> forall n :: n in names ==> ParameterPath(n, region) !in r.0.history
      ensures r.1.Ok? ==> forall p :: p in r.0.history <==> p in history && !(p.Region == region && p.Name in names)
      ensures r.1.Err? ==> r.0 == Reject(DeleteParametersCall(region, names))
      ensures r.1.Ok? ==> r.0.budget == budget - 1
    {
      var c := DeleteParametersCall(region, names);
      if region in down then (Reject(c), Err(Unavailable(region)))
      else if budget == 0 then (Reject(c), Err(Throttled))
      else if |names| == 0 || |names| > MaxDeleteBatch then (Reject(c), Err(ValidationError))
      else
        var gone := set n | n in names :: ParameterPath(n, region);
        var kept := RemoveAll(order, gone);
        var st := Store(kept, map p | p in history && p !in gone :: history[p], down, budget - 1, log + [c]);
        (st, Ok(Missing(names, region)))
    }

    function Missing(names: seq<string>, region: string): (r: seq<string>)
      ensures forall n :: n in r <==> n in names && ParameterPath(n, region) !in history
    {
      if names == [] then []
      else (if ParameterPath(names[0], region) in history then [] else [names[0]]) + Missing(names[1..], region)
    }

    /** `PutParameter`: a new version for an existing name when `Overwrite` is
        set, or a new parameter with its first version; answers the version. */
    function PutParameter(input: PutParameterInput, region: string): (r: (Store, Result<nat, ServiceError>))
      requires Valid()
      ensures r.0.Valid()
      ensures r.0.log == log + [PutParameterCall(region, input)]
      ensures r.0.down == down
      ensures r.1.Err? ==> r.0 == Reject(PutParameterCall(region, input))
      ensures r.1.Ok? ==> r.0.budget == budget - 1
      ensures r.1.Ok? ==> input.Name.Some? && input.Type.Some? && input.Value.Some?
      ensures r.1.Ok? ==>
                var p := ParameterPath(input.Name.value, region);
                && p in r.0.history
                && r.0.history[p] == (if p in history then history[p] else []) +
                     [ParameterVersion(input.Type.value, input.Value.value, input.KeyId, input.Description,
                                       input.AllowedPattern, input.Tier, input.Policies, r.1.value)]
                && r.0.order == (if p in history then order else order + [p])
                && (forall q :: q != p ==> (q in r.0.history <==> q in history))
                && (forall q :: q != p && q in history ==> r.0.history[q] == history[q])
      ensures region !in down && budget > 0 && input.Name.Some? && input.Type.Some? && input.Value.Some?
              && input.Name.value != "" ==>
                var p := ParameterPath(input.Name.value, region);
                (r.1.Err? <==> p in history && input.Overwrite != Some(true))
    {
      var c := PutParameterCall(region, input);
      if region in down then (Reject(c), Err(Unavailable(region)))
      else if budget == 0 then (Reject(c), Err(Throttled))
      else if input.Name.None? || input.Type.None? || input.Value.None? || input.Name.value == "" then
        (Reject(c), Err(ValidationError))
      else
        var p := ParameterPath(input.Name.value, region);
        if p in history && input.Overwrite != Some(true) then (Reject(c), Err(ParameterAlreadyExists(p.Name)))
        else
          var prior := if p in history then history[p] else [];
          var v := ParameterVersion(input.Type.value, input.Value.value, input.KeyId, input.Description,
                                    input.AllowedPattern, input.Tier, input.Policies, |prior| + 1);
          (Stored(p, v, c), Ok(|prior| + 1))
    }

    /** The service after it appended version `v` to the history of `p` (a new
        parameter goes last in the listing order) and consumed budget. */
    function Stored(p: ParameterPath, v: ParameterVersion, c: Call): (st: Store)
      requires Valid() && p.Name != "" && budget > 0
      ensures st.Valid() && st.down == down && st.log == log + [c] && st.budget == budget - 1
      ensures st.history == history[p := (if p in history then history[p] else []) + [v]]
      ensures st.order == if p in history then order else order + [p]
      ensures p in st.history && st.history[p] == (if p in history then history[p] else []) + [v]
      ensures forall q :: q != p ==> (q in st.history <==> q in history)
      ensures forall q :: q != p && q in history ==> st.history[q] == history[q]
    {
      var st := Store(if p in history then order else order + [p],
                      history[p := (if p in history then history[p] else []) + [v]],
                      down, budget - 1, log + [c]);
      assert st.Valid() by {
        if p !in history {
          assert forall i :: 0 <= i < |order| ==> order[i] in history;
        }
      }
      st
    }
  }

  /** `order` without the members of `gone`, in order. */
  function RemoveAll(order: seq<ParameterPath>, gone: set<ParameterPath>): (r: seq<ParameterPath>)
    ensures forall p :: p in r <==> p in order && p !in gone
    ensures (forall i, j :: 0 <= i < j < |order| ==> order[i] != order[j]) ==>
            (forall i, j :: 0 <= i < j < |r| ==> r[i] != r[j])
  {
    if order == [] then []
    else
      var rest := RemoveAll(order[1..], gone);
      if order[0] in gone then rest else [order[0]] + rest
  }
}
