/** The shell's session state and the tree operations it performs on the flat
    remote parameter store: listing one level of the hierarchy, removing
    parameters and whole prefixes in batches, copying and moving parameters and
    prefixes. Every remote call goes to the client of the region it names; the
    service itself is the value `Remote.Store`, threaded through each operation. */
module ParameterStore {
  import opened Wrappers
  import opened Strings
  import opened Paths
  import opened Remote

  /** A per-region service client, made for a region with a profile's credentials. */
  datatype Client = Client(region: string, profile: string)

  /** The errors the session's operations return. */
  datatype Error =
    | Service(cause: ServiceError)
    | NoSuchPath
    | RecursionNotRequested(path: string)
    | NoPathOrParameter(name: string)
    | InvalidParameters(names: seq<string>)
    | SourceNotParameter(name: string)
    | PathToParameter(src: ParameterPath, dst: ParameterPath)
    | PathsWithoutRecursion(src: ParameterPath, dst: ParameterPath)
    | NotPathOrParameter(src: ParameterPath)

  /** `ListResult`: what `List` sends to its caller. */
  datatype ListResult = Listed(names: seq<string>) | ListFailed(cause: ServiceError)

  /** Whether `List` sent a result, or returned on a quit request without sending one. */
  datatype ListOutcome = Quitted | Sent(result: ListResult)

  /** `p` names a parameter that the service reports. */
  predicate IsParameterIn(st: Store, p: ParameterPath)
  {
    p.Region !in st.down && st.Exists(p)
  }

  /** `p` names a prefix with at least one parameter below it. */
  predicate IsPathIn(st: Store, p: ParameterPath)
  {
    p.Region !in st.down && st.Listing(p.Region, p.Name) != []
  }

  /** Every path of `paths` resolved against `cwd`. */
  function FqpAll(paths: seq<string>, cwd: string): (r: seq<string>)
    ensures |r| == |paths|
    ensures forall i :: 0 <= i < |paths| ==> r[i] == Fqp(paths[i], cwd)
  {
    seq(|paths|, i requires 0 <= i < |paths| => Fqp(paths[i], cwd))
  }

  /** A sequence that agrees with `before` outside `lo..hi` and holds the
      resolved names inside it. */
  lemma ResolvedSlice(a: seq<string>, before: seq<string>, lo: nat, hi: nat, cwd: string)
    requires |a| == |before| && lo <= hi <= |a|
    requires forall k :: 0 <= k < |a| ==> a[k] == if lo <= k < hi then Fqp(before[k], cwd) else before[k]
    ensures a[lo..hi] == FqpAll(before[lo..hi], cwd)
    ensures a == before[..lo] + FqpAll(before[lo..hi], cwd) + before[hi..]
  {
    var mid := FqpAll(before[lo..hi], cwd);
    forall k | 0 <= k < |a|
      ensures a[k] == if lo <= k < hi then mid[k - lo] else before[k]
    {
      if lo <= k < hi {
        assert before[lo..hi][k - lo] == before[k];
      }
    }
    Splice(a, before, mid, lo, hi);
  }

  /** A sequence that agrees with `before` outside `lo..hi` and with `mid`
      inside it is `before` with that slice replaced by `mid`. */
  lemma Splice<T>(a: seq<T>, before: seq<T>, mid: seq<T>, lo: nat, hi: nat)
    requires |a| == |before| && lo <= hi <= |a| && |mid| == hi - lo
    requires forall k :: 0 <= k < |a| ==> a[k] == if lo <= k < hi then mid[k - lo] else before[k]
    ensures a[lo..hi] == mid
    ensures a == before[..lo] + mid + before[hi..]
  {
    assert a == a[..lo] + a[lo..hi] + a[hi..];
  }

  /** A parameter's whole history, oldest first, as the pages of
      `GetParameterHistory` deliver it one after the other. */
  function HistoryOf(st: Store, p: ParameterPath): (r: Result<seq<ParameterVersion>, ServiceError>)
    requires st.Valid()
    ensures r.Ok? ==> |r.value| > 0
  {
    if p.Region in st.down then Err(Unavailable(p.Region))
    else if p !in st.history then Err(ParameterNotFound(p.Name))
    else Ok(st.history[p])
  }

  predicate NoDuplicates(s: seq<string>)
  {
    forall i, j :: 0 <= i < j < |s| ==> s[i] != s[j]
  }

  /** `uniq`'s meaning: the first occurrence of each element, in order. */
  function Dedup(xs: seq<string>): (d: seq<string>)
    ensures forall x :: x in d <==> x in xs
    ensures NoDuplicates(d)
  {
    if xs == [] then []
    else
      var rest := Dedup(xs[..|xs| - 1]);
      if xs[|xs| - 1] in rest then rest else rest + [xs[|xs| - 1]]
  }

  /** What `cull` demands of each name: at the root a non-empty name, below it
      a name longer than the prefix and its separator. */
  predicate Cullable(p: string, relative: string)
  {
    if relative == [Delimiter] then p != [] else |p| >= |relative| + 1
  }

  /** The part of `p` below `relative`: at the root only a leading separator is
      dropped (top-level names may lack one), otherwise the prefix and the
      separator after it. */
  function Relative(p: string, relative: string): string
    requires Cullable(p, relative)
  {
    if relative == [Delimiter] then (if p[0] == Delimiter then p[1..] else p)
    else p[|relative| + 1..]
  }

  /** `cull`'s entry for one name: its first segment below `relative`, with a
      trailing separator when more segments follow. */
  function Entry(p: string, relative: string): string
    requires Cullable(p, relative)
  {
    var r := Split(Relative(p, relative), Delimiter);
    if |r| > 1 then r[0] + [Delimiter] else r[0]
  }

  function Entries(paths: seq<string>, relative: string): (r: seq<string>)
    requires forall i :: 0 <= i < |paths| ==> Cullable(paths[i], relative)
    ensures |r| == |paths|
    ensures forall i :: 0 <= i < |paths| ==> r[i] == Entry(paths[i], relative)
  {
    seq(|paths|, i requires 0 <= i < |paths| && Cullable(paths[i], relative) => Entry(paths[i], relative))
  }

  /** One level of a listing below `relative`, without repetitions. */
  function CullOf(paths: seq<string>, relative: string): seq<string>
    requires forall i :: 0 <= i < |paths| ==> Cullable(paths[i], relative)
  {
    Dedup(Entries(paths, relative))
  }

  /** What `List` sends when it is not asked to quit: the listing (one level of
      it unless `recurse`), then the path itself when it is also a parameter. */
  function ListingOf(st: Store, path: ParameterPath, recurse: bool): ListResult
    requires st.Valid()
    requires IsAbsolute(path.Name)
  {
    if path.Region in st.down then ListFailed(Unavailable(path.Region))
    else
      var names := st.Listing(path.Region, path.Name);
      ListingCullable(st, path);
      Listed((if recurse then names else CullOf(names, path.Name))
             + (if path in st.history then [path.Name] else []))
  }

  lemma ListingCullable(st: Store, path: ParameterPath)
    requires st.Valid()
    ensures forall i :: 0 <= i < |st.Listing(path.Region, path.Name)| ==>
              Cullable(st.Listing(path.Region, path.Name)[i], path.Name)
    ensures forall n :: n in st.Listing(path.Region, path.Name) ==> Cullable(n, path.Name)
  {
    var names := st.Listing(path.Region, path.Name);
    forall i | 0 <= i < |names|
      ensures Cullable(names[i], path.Name)
    {
      assert names[i] in names;
      assert ParameterPath(names[i], path.Region) in st.order;
    }
  }

  /** How many pages `List` requests: one per page of the listing, and a
      single failing request when the region is unreachable. */
  function ListRequests(st: Store, path: ParameterPath): nat
  {
    if path.Region in st.down then 1 else PageCount(|st.Listing(path.Region, path.Name)|, PageSize)
  }

  /** The batches `delete` sends: consecutive chunks of at most
      `MaxDeleteBatch` names, in order. */
  function Chunks(names: seq<string>): seq<seq<string>>
    decreases |names|
  {
    if names == [] then []
    else
      var n := if |names| < MaxDeleteBatch then |names| else MaxDeleteBatch;
      [names[..n]] + Chunks(names[n..])
  }

  function Flatten(chunks: seq<seq<string>>): seq<string>
  {
    if chunks == [] then [] else chunks[0] + Flatten(chunks[1..])
  }

  /** The requests the chunks become, each name resolved against `cwd`. */
  function DeleteCalls(chunks: seq<seq<string>>, region: string, cwd: string): (calls: seq<Call>)
    ensures |calls| == |chunks|
  {
    if chunks == [] then []
    else [DeleteParametersCall(region, FqpAll(chunks[0], cwd))] + DeleteCalls(chunks[1..], region, cwd)
  }

  /** The service after the chunks were sent one after the other, stopping at
      the first failing request, and the invalid names collected so far. */
  function DeleteChunks(st: Store, chunks: seq<seq<string>>, region: string, cwd: string, invalid: seq<string>)
    : (r: (Store, Result<seq<string>, ServiceError>))
    requires st.Valid()
    ensures r.0.Valid() && r.0.down == st.down
    decreases |chunks|
  {
    if chunks == [] then (st, Ok(invalid))
    else
      var answer := st.DeleteParameters(region, FqpAll(chunks[0], cwd));
      match answer.1
      case Err(e) => (answer.0, Err(e))
      case Ok(inv) => DeleteChunks(answer.0, chunks[1..], region, cwd, invalid + inv)
  }

  /** What `delete` leaves behind: the service after its requests, and the
      first failure or else the invalid names of all chunks together. */
  function DeleteOutcome(st: Store, names: seq<string>, region: string, cwd: string): (r: (Store, Option<Error>))
    requires st.Valid()
    ensures r.0.Valid() && r.0.down == st.down
  {
    var answer := DeleteChunks(st, Chunks(names), region, cwd, []);
    (answer.0,
     match answer.1
     case Err(e) => Some(Service(e))
     case Ok(inv) => if |inv| > 0 then Some(InvalidParameters(inv)) else None)
  }

  /** `deleteByRegion`'s grouping: for each region, the names in it, in order. */
  function GroupByRegion(params: seq<ParameterPath>): map<string, seq<string>>
  {
    if params == [] then map[]
    else
      var g := GroupByRegion(params[..|params| - 1]);
      var p := params[|params| - 1];
      g[p.Region := (if p.Region in g then g[p.Region] else []) + [p.Name]]
  }

  /** The names of `params` in `region`, in order. */
  function NamesIn(params: seq<ParameterPath>, region: string): seq<string>
  {
    if params == [] then []
    else NamesIn(params[..|params| - 1], region)
         + (if params[|params| - 1].Region == region then [params[|params| - 1].Name] else [])
  }

  predicate Distinct(s: seq<string>)
  {
    forall i, j :: 0 <= i < j < |s| ==> s[i] != s[j]
  }

  /** The regions' groups deleted in the order `order` that the map iteration
      happened to take, stopping at the first error. */
  function DeleteRegions(st: Store, groups: map<string, seq<string>>, order: seq<string>, cwd: string)
    : (r: (Store, Option<Error>))
    requires st.Valid() && forall i :: 0 <= i < |order| ==> order[i] in groups
    ensures r.0.Valid() && r.0.down == st.down
    decreases |order|
  {
    if order == [] then (st, None)
    else
      var first := DeleteOutcome(st, groups[order[0]], order[0], cwd);
      if first.1.Some? then first else DeleteRegions(first.0, groups, order[1..], cwd)
  }

  /** `recursiveDelete` of `path`: every name below it, deleted in batches. */
  function RecursiveDeleteOutcome(st: Store, path: ParameterPath, cwd: string): (r: (Store, Option<Error>))
    requires st.Valid()
    ensures r.0.Valid() && r.0.down == st.down
  {
    if path.Region in st.down then (st, Some(Service(Unavailable(path.Region))))
    else
      var names := st.Listing(path.Region, path.Name);
      if names == [] then (st, None) else DeleteOutcome(st, names, path.Region, cwd)
  }

  /** `Remove`'s scan of its arguments: parameters are queued, prefixes are
      deleted at once when `recurse` is set; the first error ends the scan. */
  function RemoveScan(st: Store, params: seq<ParameterPath>, recurse: bool, cwd: string, queued: seq<ParameterPath>)
    : (r: (Store, Result<seq<ParameterPath>, Error>))
    requires st.Valid()
    ensures r.0.Valid() && r.0.down == st.down
    decreases |params|
  {
    if params == [] then (st, Ok(queued))
    else
      var param := ParameterPath(Fqp(params[0].Name, cwd), params[0].Region);
      if IsParameterIn(st, param) then RemoveScan(st, params[1..], recurse, cwd, queued + [param])
      else if IsPathIn(st, param) then
        if recurse then
          var deleted := RecursiveDeleteOutcome(st, param, cwd);
          match deleted.1
          case Some(e) => (deleted.0, Err(e))
          case None => RemoveScan(deleted.0, params[1..], recurse, cwd, queued)
        else (st, Err(RecursionNotRequested(param.Name)))
      else (st, Err(NoPathOrParameter(param.Name)))
  }

  /** `RemoveScan`'s first step, one case at a time. */
  lemma RemoveScanFirst(st: Store, params: seq<ParameterPath>, recurse: bool, cwd: string, queued: seq<ParameterPath>)
    requires st.Valid() && params != []
    ensures var param := ParameterPath(Fqp(params[0].Name, cwd), params[0].Region);
            var r := RemoveScan(st, params, recurse, cwd, queued);
            && (IsParameterIn(st, param) ==> r == RemoveScan(st, params[1..], recurse, cwd, queued + [param]))
            && (!IsParameterIn(st, param) && !IsPathIn(st, param) ==> r == (st, Err(NoPathOrParameter(param.Name))))
            && (!IsParameterIn(st, param) && IsPathIn(st, param) && !recurse ==>
                  r == (st, Err(RecursionNotRequested(param.Name))))
            && (!IsParameterIn(st, param) && IsPathIn(st, param) && recurse ==>
                  var deleted := RecursiveDeleteOutcome(st, param, cwd);
                  r == if deleted.1.Some? then (deleted.0, Err(deleted.1.value))
                       else RemoveScan(deleted.0, params[1..], recurse, cwd, queued))
  {
  }

  /** How a `deleteByRegion` run may go: the regions taken in `order`, each at
      most once, all of them unless one failed. */
  ghost predicate DeletedByRegion(st: Store, params: seq<ParameterPath>, cwd: string, order: seq<string>,
                                  st': Store, err: Option<Error>)
    requires st.Valid()
  {
    DeletedGroups(st, GroupByRegion(params), cwd, order, st', err)
  }

  ghost predicate DeletedGroups(st: Store, groups: map<string, seq<string>>, cwd: string, order: seq<string>,
                                st': Store, err: Option<Error>)
    requires st.Valid()
  {
    && Distinct(order)
    && (forall i :: 0 <= i < |order| ==> order[i] in groups)
    && (err.None? ==> forall r :: r in groups ==> r in order)
    && (err.Some? ==> |order| > 0)
    && (st', err) == DeleteRegions(st, groups, order, cwd)
  }

  /** The request `copyParameter` sends: the latest version's type, value,
      key, description and pattern under the new name, overwriting. */
  function CopyInput(latest: ParameterVersion, name: string): PutParameterInput
  {
    PutParameterInput(Some(name), Some(latest.Type), Some(latest.Value), latest.KeyId,
                      latest.Description, latest.AllowedPattern, Some(true), None, None)
  }

  /** `copyParameter`'s destination name: the root stands for the source's own name. */
  function CopyName(src: ParameterPath, dst: ParameterPath): string
  {
    if dst.Name == [Delimiter] then src.Name else dst.Name
  }

  /** A write that a copy makes: an overwriting put into `region`. */
  predicate IsCopyCall(c: Call, region: string)
  {
    c.PutParameterCall? && c.region == region && c.input.Overwrite == Some(true)
  }

  /** `after` extends `before` with copy writes into `region` only. */
  predicate CopyLog(before: seq<Call>, after: seq<Call>, region: string)
  {
    IsPrefix(before, after) && forall i :: |before| <= i < |after| ==> IsCopyCall(after[i], region)
  }

  /** `copyParameter` of `src` to `dst`. */
  function CopyParameterOutcome(st: Store, src: ParameterPath, dst: ParameterPath, cwd: string): (r: (Store, Option<Error>))
    requires st.Valid()
    ensures r.0.Valid() && r.0.down == st.down
    ensures CopyLog(st.log, r.0.log, dst.Region) && |r.0.log| <= |st.log| + 1
    ensures r.1.None? ==> r.0.budget < st.budget
  {
    if !IsParameterIn(st, src) then (st, Some(SourceNotParameter(src.Name)))
    else
      match HistoryOf(st, ParameterPath(Fqp(src.Name, cwd), src.Region))
      case Err(e) => (st, Some(Service(e)))
      case Ok(h) =>
        var answer := st.PutParameter(CopyInput(h[|h| - 1], CopyName(src, dst)), dst.Region);
        (answer.0, match answer.1 case Err(e) => Some(Service(e)) case Ok(_) => None)
  }

  /** The last segment of a name. */
  function LastSegment(name: string): (seg: string)
    ensures Delimiter !in seg
  {
    var parts := Split(name, Delimiter);
    parts[|parts| - 1]
  }

  /** `copyParameterToPath`'s destination as written: the path, a separator
      and the source's last segment, also when the path is the root. */
  function ToPathNameAsWritten(src: string, dst: string): string
  {
    dst + [Delimiter] + LastSegment(src)
  }

  /** `copyParameterToPath`'s destination: the source's last segment placed
      below the path, with no doubled separator below the root. */
  function ToPathName(src: string, dst: string): string
  {
    (if dst == [Delimiter] then [] else dst) + [Delimiter] + LastSegment(src)
  }

  /** `makeParameterMap`'s destination for a listed name as written: the
      name loses as many characters as the source path has, plus one. */
  function DestinationNameAsWritten(name: string, newPath: bool, src: string, dst: string): string
    requires |name| >= |src| + 1
  {
    var dstName := if dst == [Delimiter] then "" else dst;
    var rel := name[|src| + 1..];
    if newPath then Join([dstName, rel], Delimiter)
    else Join([dstName, LastSegment(src), rel], Delimiter)
  }

  /** `makeParameterMap`'s destination for a listed name: the part of the name
      below the source, placed below the destination (and below the source's
      last segment when the destination exists already). Below the root only
      its separator is cut, as `cull` does, and the root adds no segment. */
  function DestinationName(name: string, newPath: bool, src: string, dst: string): string
    requires Cullable(name, src)
  {
    var dstName := if dst == [Delimiter] then "" else dst;
    var rel := Relative(name, src);
    if newPath || src == [Delimiter] then Join([dstName, rel], Delimiter)
    else Join([dstName, LastSegment(src), rel], Delimiter)
  }

  /** Where `copyParameter` of `src` to `dst` writes. */
  function CopyTarget(src: ParameterPath, dst: ParameterPath): ParameterPath
  {
    ParameterPath(CopyName(src, dst), dst.Region)
  }

  /** `v` carries the type, value, key, description and pattern of `w`. */
  predicate SameContents(v: ParameterVersion, w: ParameterVersion)
  {
    && v.Type == w.Type && v.Value == w.Value && v.KeyId == w.KeyId
    && v.Description == w.Description && v.AllowedPattern == w.AllowedPattern
  }

  /** `st'` holds at `target` a latest version with the contents of the latest
      version of `source` in `st`. */
  ghost predicate HoldsCopy(st: Store, source: ParameterPath, st': Store, target: ParameterPath)
  {
    && source in st.history && target in st'.history
    && |st.history[source]| > 0 && |st'.history[target]| > 0
    && SameContents(st'.history[target][|st'.history[target]| - 1], st.history[source][|st.history[source]| - 1])
  }

  /** `st'` differs from `st` at most at the parameters of `targets`: any other
      parameter exists in both or in neither, with the same history, and the
      listing order only gains parameters of `targets` at its end. */
  ghost predicate WroteOnly(st: Store, st': Store, targets: set<ParameterPath>)
  {
    && |st.order| <= |st'.order| && st'.order[..|st.order|] == st.order
    && (forall i :: |st.order| <= i < |st'.order| ==> st'.order[i] in targets)
    && (forall q :: q !in targets ==>
          (q in st'.history <==> q in st.history) && (q in st.history ==> st'.history[q] == st.history[q]))
  }

  /** The places `copyParameter` writes for the pairs of `m`. */
  ghost function MapTargets(m: map<ParameterPath, ParameterPath>): set<ParameterPath>
  {
    set p | p in m :: CopyTarget(p, m[p])
  }

  /** Pairs that can be copied one after the other without disturbing each
      other: the sources have canonical names, no write lands on a source, and
      distinct sources are written to distinct places. */
  ghost predicate PairsSeparate(m: map<ParameterPath, ParameterPath>)
  {
    && (forall p :: p in m ==> IsCleanAbsolute(p.Name) && p !in MapTargets(m))
    && (forall p, q :: p in m && q in m && CopyTarget(p, m[p]) == CopyTarget(q, m[q]) ==> p == q)
  }

  /** Where `copyPathToPath` writes the listed name `n`: its `makeParameterMap`
      destination, as `copyParameter` names it. */
  function PathTarget(n: string, newPath: bool, src: ParameterPath, dst: ParameterPath): ParameterPath
    requires Cullable(n, src.Name)
  {
    CopyTarget(ParameterPath(n, src.Region), ParameterPath(DestinationName(n, newPath, src.Name, dst.Name), dst.Region))
  }

  ghost function PathTargets(names: seq<string>, newPath: bool, src: ParameterPath, dst: ParameterPath): set<ParameterPath>
    requires forall n :: n in names ==> Cullable(n, src.Name)
  {
    set n | n in names :: PathTarget(n, newPath, src, dst)
  }

  /** Names that a path copy can copy without disturbing each other: each is
      canonical and lies below the source, and none is written back below the
      source in the source's own region. */
  ghost predicate NamesSeparate(names: seq<string>, newPath: bool, src: ParameterPath, dst: ParameterPath)
  {
    forall n :: n in names ==>
      && IsCleanAbsolute(n) && Under(n, src.Name)
      && !(dst.Region == src.Region && Under(PathTarget(n, newPath, src, dst).Name, src.Name))
  }

  /** Every name of `names` in the source region of `st` has its copy in `st'`
      at its path-copy destination. */
  ghost predicate CopiedNames(st: Store, names: seq<string>, newPath: bool, src: ParameterPath, dst: ParameterPath, st': Store)
    requires forall n :: n in names ==> Cullable(n, src.Name)
  {
    forall n :: n in names ==> HoldsCopy(st, ParameterPath(n, src.Region), st', PathTarget(n, newPath, src, dst))
  }

  /** What `copyPathToPath` is held to: the service stays consistent, only
      overwriting puts into the destination region are sent, and an
      unreachable source region fails before anything is written. When the
      listed names are canonical and no destination lies below the source in
      its own region, only the destinations of the listed names change, and on
      success each holds the latest contents of its source. */
  ghost predicate CopiedPath(st: Store, src: ParameterPath, dst: ParameterPath, newPath: bool, st': Store, err: Option<Error>)
  {
    && st'.Valid() && st'.down == st.down
    && CopyLog(st.log, st'.log, dst.Region)
    && (src.Region in st.down ==> st' == st && err == Some(Service(Unavailable(src.Region))))
    && var names := st.Listing(src.Region, src.Name);
       NamesSeparate(names, newPath, src, dst) ==>
         && WroteOnly(st, st', PathTargets(names, newPath, src, dst))
         && (err.None? ==> CopiedNames(st, names, newPath, src, dst, st'))
  }

  /** The pairs of `m` copied one after the other in `order` by
      `copyParameter`, up to the first failure; an entry that is not a pair of
      the map is passed over. */
  function CopySeq(st: Store, m: map<ParameterPath, ParameterPath>, order: seq<ParameterPath>, cwd: string)
    : (r: (Store, Option<Error>))
    requires st.Valid()
    ensures r.0.Valid() && r.0.down == st.down
    ensures order == [] ==> r == (st, None)
    decreases |order|
  {
    if order == [] then (st, None)
    else
      var prev := CopySeq(st, m, order[..|order| - 1], cwd);
      var p := order[|order| - 1];
      if prev.1.Some? || p !in m then prev else CopyParameterOutcome(prev.0, p, m[p], cwd)
  }

  /** `order` is an order in which the `range` over `m` visits its pairs, as
      far as the copy went: pairs of the map, each once, all of them when the
      copy succeeded, and ending at the failing one when it did not. */
  ghost predicate CopyOrder(st: Store, m: map<ParameterPath, ParameterPath>, order: seq<ParameterPath>, cwd: string)
    requires st.Valid()
  {
    && (forall i :: 0 <= i < |order| ==> order[i] in m)
    && (forall i, j :: 0 <= i < j < |order| ==> order[i] != order[j])
    && (CopySeq(st, m, order, cwd).1.None? ==> forall p :: p in m ==> p in order)
    && (CopySeq(st, m, order, cwd).1.Some? ==> order != [] && CopySeq(st, m, order[..|order| - 1], cwd).1.None?)
  }

  /** `makeParameterMap` of a page: each listed name, in the source region,
      paired with its destination in the destination region. */
  function PageMapOf(items: seq<string>, newPath: bool, src: ParameterPath, dst: ParameterPath)
    : (m: map<ParameterPath, ParameterPath>)
    requires forall n :: n in items ==> Cullable(n, src.Name)
  {
    map n | n in items :: ParameterPath(n, src.Region) := ParameterPath(DestinationName(n, newPath, src.Name, dst.Name), dst.Region)
  }

  /** Where `copyPathToPath` is after a page: at the token of the next page,
      or stopped with its answer. */
  datatype PathCopyStatus = NextPage(token: nat) | Stopped(err: Option<Error>)

  /** One page of `copyPathToPath`: the page at `token` requested, then its
      pairs copied in `order`; the copy goes on to the next page unless the
      request failed, a copy failed or the page was the last. */
  function PageCopy(cur: Store, token: nat, newPath: bool, src: ParameterPath, dst: ParameterPath,
                    order: seq<ParameterPath>, cwd: string): (r: (Store, PathCopyStatus))
    requires cur.Valid()
    ensures r.0.Valid() && r.0.down == cur.down
  {
    match cur.GetParametersByPath(src.Region, src.Name, token)
    case Err(e) => (cur, Stopped(Some(Service(e))))
    case Ok(page) =>
      ListingCullable(cur, src);
      var r := CopySeq(cur, PageMapOf(page.items, newPath, src, dst), order, cwd);
      if r.1.Some? || page.next.None? then (r.0, Stopped(r.1)) else (r.0, NextPage(page.next.value))
  }

  /** `copyPathToPath` after the pages whose pairs were visited in the orders
      of `orders`, one order per page. */
  function PathCopyRun(st: Store, newPath: bool, src: ParameterPath, dst: ParameterPath,
                       orders: seq<seq<ParameterPath>>, cwd: string): (r: (Store, PathCopyStatus))
    requires st.Valid()
    ensures r.0.Valid() && r.0.down == st.down
    ensures orders == [] ==> r == (st, NextPage(0))
    decreases |orders|
  {
    if orders == [] then (st, NextPage(0))
    else
      var prev := PathCopyRun(st, newPath, src, dst, orders[..|orders| - 1], cwd);
      match prev.1
      case Stopped(_) => prev
      case NextPage(token) => PageCopy(prev.0, token, newPath, src, dst, orders[|orders| - 1], cwd)
  }

  /** `order` is a visiting order of the pairs of the page at `token`, and
      empty when that page could not be had. */
  ghost predicate PageOrder(cur: Store, token: nat, newPath: bool, src: ParameterPath, dst: ParameterPath,
                            order: seq<ParameterPath>, cwd: string)
    requires cur.Valid()
  {
    match cur.GetParametersByPath(src.Region, src.Name, token)
    case Err(_) => order == []
    case Ok(page) =>
      ListingCullable(cur, src);
      CopyOrder(cur, PageMapOf(page.items, newPath, src, dst), order, cwd)
  }

  /** Each order of `orders` visits the pairs of the page it was used for, and
      every page but the last is followed by another. */
  ghost predicate PathCopyOrders(st: Store, newPath: bool, src: ParameterPath, dst: ParameterPath,
                                 orders: seq<seq<ParameterPath>>, cwd: string)
    requires st.Valid()
    decreases |orders|
  {
    orders == [] ||
    (&& PathCopyOrders(st, newPath, src, dst, orders[..|orders| - 1], cwd)
     && PageFits(st, newPath, src, dst, orders[..|orders| - 1], orders[|orders| - 1], cwd))
  }

  /** After the pages of `before` the copy goes on, and `order` visits the
      pairs of the next page. */
  ghost predicate PageFits(st: Store, newPath: bool, src: ParameterPath, dst: ParameterPath,
                           before: seq<seq<ParameterPath>>, order: seq<ParameterPath>, cwd: string)
    requires st.Valid()
  {
    var prev := PathCopyRun(st, newPath, src, dst, before, cwd);
    prev.1.NextPage? && PageOrder(prev.0, prev.1.token, newPath, src, dst, order, cwd)
  }

  /** `copyPathToPath` ended in `st'` with `err` for some visiting order of
      each page's pairs: an error is the answer of the first request that
      failed, and the copies made before it stay. */
  ghost predicate PathCopied(st: Store, src: ParameterPath, dst: ParameterPath, newPath: bool, cwd: string,
                             st': Store, err: Option<Error>)
    requires st.Valid()
  {
    exists orders :: PathCopyOrders(st, newPath, src, dst, orders, cwd)
                     && PathCopyRun(st, newPath, src, dst, orders, cwd) == (st', Stopped(err))
  }

  /** `Copy`'s dispatch on what the resolved source and destination are. */
  ghost predicate CopyAllowed(st: Store, src: ParameterPath, dst: ParameterPath, recurse: bool, cwd: string,
                              st': Store, err: Option<Error>)
    requires st.Valid()
  {
    var s := ParameterPath(Fqp(src.Name, cwd), src.Region);
    var d := ParameterPath(Fqp(dst.Name, cwd), dst.Region);
    var srcIsParameter := IsParameterIn(st, s);
    var srcIsPath := !srcIsParameter && IsPathIn(st, s);
    var dstIsParameter := IsParameterIn(st, d);
    var dstIsPath := !dstIsParameter && IsPathIn(st, d);
    if srcIsParameter && !dstIsPath then (st', err) == CopyParameterOutcome(st, s, d, cwd)
    else if srcIsParameter then
      (st', err) == CopyParameterOutcome(st, s, ParameterPath(ToPathName(s.Name, d.Name), d.Region), cwd)
    else if srcIsPath && dstIsParameter then st' == st && err == Some(PathToParameter(s, d))
    else if srcIsPath && !recurse then st' == st && err == Some(PathsWithoutRecursion(s, d))
    else if srcIsPath then CopiedPath(st, s, d, !dstIsPath, st', err) && PathCopied(st, s, d, !dstIsPath, cwd, st', err)
    else st' == st && err == Some(NotPathOrParameter(s))
  }

  /** Every way a copy may go leaves a valid store. */
  lemma CopyAllowedValid(st: Store, src: ParameterPath, dst: ParameterPath, recurse: bool, cwd: string,
                         st': Store, err: Option<Error>)
    requires st.Valid() && CopyAllowed(st, src, dst, recurse, cwd, st', err)
    ensures st'.Valid() && st'.down == st.down
  {
  }

  /** How a `Remove` run may go: the scan, then the queued parameters
      deleted by region unless the scan failed. */
  ghost predicate Removed(st: Store, params: seq<ParameterPath>, recurse: bool, cwd: string, order: seq<string>,
                          st': Store, err: Option<Error>)
    requires st.Valid()
  {
    var scan := RemoveScan(st, params, recurse, cwd, []);
    match scan.1
    case Err(e) => st' == scan.0 && err == Some(e) && order == []
    case Ok(queued) => DeletedByRegion(scan.0, queued, cwd, order, st', err)
  }

  class ParameterStore {
    var Confirm: bool                 // prompt before deleting or overwriting (unused)
    var Cwd: string                   // the current working directory in the hierarchy
    var Decrypt: bool                 // decrypt values that reads return
    var Key: string                   // the KMS key for SecureString parameters
    var Region: string                // the region operated on by default
    var Profile: string               // the credentials profile
    var Clients: map<string, Client>  // the per-region clients made so far

    predicate Valid()
      reads this
    {
      IsCleanAbsolute(Cwd)
    }

    /** `NewParameterStore`, without its credential probe. */
    constructor (region: string, profile: string)
      ensures Valid()
      ensures !Confirm && Cwd == [Delimiter] && !Decrypt && Key == "" && Region == region
      ensures Profile == (if profile == "" then "default" else profile)
      ensures Clients == map[region := Client(region, Profile)]
    {
      Confirm := false;
      Cwd := [Delimiter];
      Decrypt := false;
      Key := "";
      Region := region;
      Profile := if profile == "" then "default" else profile;
      Clients := map[region := Client(region, if profile == "" then "default" else profile)];
    }

    /** `InitClient`: a client for `region` unless one exists already. */
    method InitClient(region: string)
      modifies this
      ensures region in Clients
      ensures old(region in Clients) ==> Clients == old(Clients)
      ensures !old(region in Clients) ==> Clients == old(Clients)[region := Client(region, Profile)]
      ensures Confirm == old(Confirm) && Cwd == old(Cwd) && Decrypt == old(Decrypt)
      ensures Key == old(Key) && Region == old(Region) && Profile == old(Profile)
    {
      if region !in Clients {
        Clients := Clients[region := Client(region, Profile)];
      }
    }

    /** `isParameter`: asks the service for the parameter. */
    method IsParameter(param: ParameterPath, st: Store) returns (b: bool)
      requires st.Valid() && param.Region in Clients
      ensures b == IsParameterIn(st, param)
    {
      var r := st.GetParameter(param);
      b := r.Ok?;
    }

    /** `isPath`: asks for the first page of the parameters below the path. */
    method IsPath(path: ParameterPath, st: Store) returns (b: bool)
      requires path.Region in Clients
      ensures b == IsPathIn(st, path)
    {
      var resp := st.GetParametersByPath(path.Region, path.Name, 0);
      match resp {
        case Err(_) =>
          b := false;
        case Ok(page) =>
          b := |page.items| > 0;
          assert b <==> st.Listing(path.Region, path.Name) != [];
      }
    }

    /** `SetCwd`. */
    method SetCwd(path: ParameterPath, st: Store) returns (err: Option<Error>)
      modifies this
      requires Valid()
      requires path.Name != [Delimiter] ==> path.Region in Clients
      ensures Valid()
      ensures path.Name == [Delimiter] ==> Cwd == [Delimiter] && err == None
      ensures path.Name != [Delimiter] ==>
                var full := ParameterPath(Fqp(path.Name, old(Cwd)), path.Region);
                if IsPathIn(st, full) then Cwd == full.Name && err == None
                else Cwd == old(Cwd) && err == Some(NoSuchPath)
      ensures Confirm == old(Confirm) && Decrypt == old(Decrypt) && Key == old(Key)
      ensures Region == old(Region) && Profile == old(Profile) && Clients == old(Clients)
    {
      if path.Name == [Delimiter] {
        Cwd := [Delimiter];
        assert Valid();
        return None;
      }
      var full := ParameterPath(Fqp(path.Name, Cwd), path.Region);
      FqpIsCanonical(path.Name, Cwd);
      var b := IsPath(full, st);
      if b {
        Cwd := full.Name;
        err := None;
      } else {
        err := Some(NoSuchPath);
      }
    }

    /** `inputPaths`: resolves `paths[lo..hi]` in place against the current
        directory and answers the resolved names. */
    method InputPaths(paths: array<string>, lo: nat, hi: nat) returns (names: seq<string>)
      modifies paths
      requires lo <= hi <= paths.Length
      ensures paths[..] == old(paths[..lo]) + FqpAll(old(paths[lo..hi]), Cwd) + old(paths[hi..])
      ensures names == FqpAll(old(paths[lo..hi]), Cwd)
    {
      ghost var before := paths[..];
      for i := lo to hi
        invariant forall k :: 0 <= k < paths.Length ==>
                    paths[k] == if lo <= k < i then Fqp(before[k], Cwd) else before[k]
      {
        paths[i] := Fqp(paths[i], Cwd);
      }
      ResolvedSlice(paths[..], before, lo, hi, Cwd);
      names := paths[lo..hi];
    }

    /** `Get`: the parameters among `params` (resolved) that exist, in order. */
    method Get(params: seq<string>, region: string, st: Store) returns (r: Result<seq<Parameter>, ServiceError>)
      requires st.Valid() && region in Clients
      ensures r == st.GetParameters(FqpAll(params, Cwd), region)
    {
      var input := new string[|params|](i requires 0 <= i < |params| => params[i]);
      assert input[0..input.Length] == params;
      var names := InputPaths(input, 0, input.Length);
      r := st.GetParameters(names, region);
    }

    /** `Put`: forwards the request to the region's client. */
    method Put(param: PutParameterInput, region: string, st: Store) returns (st': Store, r: Result<nat, ServiceError>)
      requires st.Valid() && region in Clients
      ensures (st', r) == st.PutParameter(param, region)
      ensures st'.Valid()
    {
      var answer := st.PutParameter(param, region);
      st', r := answer.0, answer.1;
    }

    /** `GetHistory`: collects the parameter's history page by page. */
    method GetHistory(param: ParameterPath, st: Store) returns (r: Result<seq<ParameterVersion>, ServiceError>)
      requires st.Valid() && param.Region in Clients
      ensures r == HistoryOf(st, ParameterPath(Fqp(param.Name, Cwd), param.Region))
    {
      var p := ParameterPath(Fqp(param.Name, Cwd), param.Region);
      var collected: seq<ParameterVersion> := [];
      var token: nat := 0;
      while true
        invariant p in st.history ==> token * HistoryPageSize <= |st.history[p]|
        invariant p in st.history ==> collected == st.history[p][..token * HistoryPageSize]
        decreases if p in st.history then |st.history[p]| - token * HistoryPageSize else 0
      {
        var resp := st.GetParameterHistory(p, token);
        match resp {
          case Err(e) =>
            return Err(e);
          case Ok(page) =>
            collected := collected + page.items;
            match page.next {
              case None =>
                assert collected == st.history[p];
                return Ok(collected);
              case Some(next) =>
                token := next;
            }
        }
      }
    }

    /** The pagination loop of `List` and `recursiveDelete`: every name below
        `path`, page by page, or the first error; with `quitAt == Some(k)` a
        quit request is seen before page `k` is requested. */
    method Paginate(path: ParameterPath, quitAt: Option<nat>, st: Store) returns (quit: bool, r: Result<seq<string>, ServiceError>)
      requires path.Region in Clients
      ensures quit <==> quitAt.Some? && quitAt.value < ListRequests(st, path)
      ensures !quit ==> r == if path.Region in st.down then Err(Unavailable(path.Region))
                             else Ok(st.Listing(path.Region, path.Name))
    {
      ghost var all := st.Listing(path.Region, path.Name);
      var results: seq<string> := [];
      var token: nat := 0;
      while true
        invariant path.Region !in st.down ==> token * PageSize <= |all| && (token == 0 || token * PageSize < |all|)
        invariant path.Region !in st.down ==> results == all[..token * PageSize]
        invariant path.Region in st.down ==> token == 0
        invariant !(quitAt.Some? && quitAt.value < token)
        decreases |all| - token * PageSize
      {
        if path.Region !in st.down {
          PageCountBound(|all|, PageSize, token);
        }
        if quitAt == Some(token) {
          return true, Ok([]);
        }
        var resp := st.GetParametersByPath(path.Region, path.Name, token);
        match resp {
          case Err(e) =>
            return false, Err(e);
          case Ok(page) =>
            PageExtends(all, token, PageSize);
            results := results + page.items;
            match page.next {
              case None =>
                return false, Ok(results);
              case Some(next) =>
                token := next;
            }
        }
      }
    }

    /** `List`: the listing below `ppath`; a quit request seen before the
        page numbered `quitAt` ends it without a result. */
    method List(ppath: ParameterPath, recurse: bool, quitAt: Option<nat>, st: Store) returns (outcome: ListOutcome)
      requires Valid() && st.Valid() && ppath.Region in Clients
      ensures var path := ParameterPath(Fqp(ppath.Name, Cwd), ppath.Region);
              IsAbsolute(path.Name) &&
              if quitAt.Some? && quitAt.value < ListRequests(st, path) then outcome == Quitted
              else outcome == Sent(ListingOf(st, path, recurse))
    {
      var path := ParameterPath(Fqp(ppath.Name, Cwd), ppath.Region);
      FqpIsCanonical(ppath.Name, Cwd);
      var quit, listing := Paginate(path, quitAt, st);
      if quit {
        return Quitted;
      }
      if listing.Err? {
        return Sent(ListFailed(listing.error));
      }
      var results := listing.value;
      ListingCullable(st, path);
      if !recurse {
        results := Cull(results, path.Name);
      }
      var self := ListSelf(ppath.Name, ppath.Region, st);
      match self {
        case Err(e) =>
          outcome := Sent(ListFailed(e));
        case Ok(own) =>
          outcome := Sent(Listed(results + own));
      }
    }

    /** `List`'s request for the path itself: its name when it is also a
        parameter, nothing when it is not. */
    method ListSelf(name: string, region: string, st: Store) returns (r: Result<seq<string>, ServiceError>)
      requires Valid() && st.Valid() && region in Clients
      ensures var path := ParameterPath(Fqp(name, Cwd), region);
              r == if region in st.down then Err(Unavailable(region))
                   else Ok(if path in st.history then [path.Name] else [])
    {
      var path := ParameterPath(Fqp(name, Cwd), region);
      FqpIdempotent(name, Cwd);
      var param := Get([path.Name], region, st);
      assert FqpAll([path.Name], Cwd) == [path.Name];
      st.FoundSingle(path);
      r := Ok([]);
      match param {
        case Err(e) =>
          r := Err(e);
        case Ok(found) =>
          if |found| == 1 {
            r := Ok([found[0].Name]);
          }
      }
    }

    /** `delete`: the names in chunks of at most ten, each chunk resolved
        and sent in one request; stops at the first failure. */
    method Delete(params: seq<string>, region: string, st: Store) returns (st': Store, err: Option<Error>)
      requires st.Valid() && region in Clients
      ensures (st', err) == DeleteOutcome(st, params, region, Cwd)
    {
      var invalid: seq<string> := [];
      st' := st;
      var i := 0;
      while i < |params|
        invariant 0 <= i <= |params|
        invariant st'.Valid()
        invariant DeleteChunks(st, Chunks(params), region, Cwd, []) ==
                  DeleteChunks(st', Chunks(params[i..]), region, Cwd, invalid)
        decreases |params| - i
      {
        var arrayEnd := if |params| - i < MaxDeleteBatch then |params| else i + MaxDeleteBatch;
        ChunksFrom(params, i, arrayEnd);
        DeleteChunksCons(st', params[i..arrayEnd], Chunks(params[arrayEnd..]), region, Cwd, invalid);
        var answer := DeleteBatch(params[i..arrayEnd], region, st');
        st' := answer.0;
        match answer.1 {
          case Err(e) =>
            return st', Some(Service(e));
          case Ok(inv) =>
            invalid := invalid + inv;
        }
        i := arrayEnd;
      }
      assert params[i..] == [];
      err := if |invalid| > 0 then Some(InvalidParameters(invalid)) else None;
    }

    /** One request of `delete`: the batch copied out, resolved and sent. */
    method DeleteBatch(batchNames: seq<string>, region: string, st: Store)
      returns (answer: (Store, Result<seq<string>, ServiceError>))
      requires st.Valid()
      ensures answer == st.DeleteParameters(region, FqpAll(batchNames, Cwd))
    {
      var batch := new string[|batchNames|](k requires 0 <= k < |batchNames| => batchNames[k]);
      assert batch[0..batch.Length] == batchNames;
      var names := InputPaths(batch, 0, batch.Length);
      answer := st.DeleteParameters(region, names);
    }

    /** `deleteByRegion`: groups the names by region and deletes each group
        with `delete`, the regions in an unspecified order. */
    method DeleteByRegion(params: seq<ParameterPath>, st: Store) returns (st': Store, err: Option<Error>, ghost order: seq<string>)
      requires st.Valid()
      requires forall i :: 0 <= i < |params| ==> params[i].Region in Clients
      ensures DeletedByRegion(st, params, Cwd, order, st', err)
    {
      GroupByRegionKeys(params);
      var groups := GroupNames(params);
      st', err, order := DeleteGroups(groups, st);
    }

    /** The region loop of `deleteByRegion`. */
    method DeleteGroups(groups: map<string, seq<string>>, st: Store) returns (st': Store, err: Option<Error>, ghost order: seq<string>)
      requires st.Valid()
      requires forall r :: r in groups ==> r in Clients
      ensures DeletedGroups(st, groups, Cwd, order, st', err)
    {
      var remaining := groups.Keys;
      st', err, order := st, None, [];
      while remaining != {}
        invariant remaining <= groups.Keys
        invariant Distinct(order)
        invariant forall i :: 0 <= i < |order| ==> order[i] in groups && order[i] !in remaining
        invariant forall r :: r in groups ==> r in remaining || r in order
        invariant (st', None) == DeleteRegions(st, groups, order, Cwd)
        decreases |remaining|
      {
        var region :| region in remaining;
        var e;
        DeleteRegionsSnoc(st, groups, order, region, Cwd);
        VisitRegion(groups, remaining, order, region);
        st', e := Delete(groups[region], region, st');
        order := order + [region];
        if e.Some? {
          return st', e, order;
        }
        remaining := remaining - {region};
      }
    }

    /** `recursiveDelete`: every name below `path`, deleted by region. */
    method RecursiveDelete(path: ParameterPath, st: Store) returns (st': Store, err: Option<Error>)
      requires st.Valid() && path.Region in Clients
      ensures (st', err) == RecursiveDeleteOutcome(st, path, Cwd)
    {
      var _, listing := Paginate(path, None, st);
      match listing {
        case Err(e) =>
          return st, Some(Service(e));
        case Ok(names) =>
          var toDelete := seq(|names|, i requires 0 <= i < |names| => ParameterPath(names[i], path.Region));
          ghost var order;
          st', err, order := DeleteByRegion(toDelete, st);
          SingleRegionDeleted(st, path, names, toDelete, Cwd, order, st', err);
      }
    }

    /** `Remove`: parameters are queued and deleted together at the end;
        prefixes are deleted at once when `recurse` is set, and are an error
        otherwise, as is a name that is neither. */
    method Remove(params: seq<ParameterPath>, recurse: bool, st: Store) returns (st': Store, err: Option<Error>, ghost order: seq<string>)
      requires st.Valid()
      requires forall i :: 0 <= i < |params| ==> params[i].Region in Clients
      ensures Removed(st, params, recurse, Cwd, order, st', err)
    {
      var cur, scanned := RemoveArguments(params, recurse, st);
      match scanned {
        case Err(e) =>
          return cur, Some(e), [];
        case Ok(parametersToDelete) =>
          st', err, order := DeleteByRegion(parametersToDelete, cur);
      }
    }

    /** The loop of `Remove` over its arguments: parameters are queued,
        prefixes deleted at once; the first error ends it. */
    method RemoveArguments(params: seq<ParameterPath>, recurse: bool, st: Store)
      returns (cur: Store, scanned: Result<seq<ParameterPath>, Error>)
      requires st.Valid()
      requires forall i :: 0 <= i < |params| ==> params[i].Region in Clients
      ensures (cur, scanned) == RemoveScan(st, params, recurse, Cwd, [])
      ensures scanned.Ok? ==> forall k :: 0 <= k < |scanned.value| ==> scanned.value[k].Region in Clients
    {
      var parametersToDelete: seq<ParameterPath> := [];
      cur := st;
      for i := 0 to |params|
        invariant cur.Valid()
        invariant forall p :: p in parametersToDelete ==> p.Region in Clients
        invariant RemoveScan(st, params, recurse, Cwd, []) == RemoveScan(cur, params[i..], recurse, Cwd, parametersToDelete)
      {
        assert params[i..][0] == params[i] && params[i..][1..] == params[i + 1..];
        RemoveScanFirst(cur, params[i..], recurse, Cwd, parametersToDelete);
        var param := ParameterPath(Fqp(params[i].Name, Cwd), params[i].Region);
        var isParameter := IsParameter(param, cur);
        if isParameter {
          parametersToDelete := parametersToDelete + [param];
        } else {
          var isPath := IsPath(param, cur);
          if isPath {
            if recurse {
              var e;
              cur, e := RecursiveDelete(param, cur);
              if e.Some? {
                return cur, Err(e.value);
              }
            } else {
              return cur, Err(RecursionNotRequested(param.Name));
            }
          } else {
            return cur, Err(NoPathOrParameter(param.Name));
          }
        }
      }
      scanned := Ok(parametersToDelete);
    }

    /** `copyParameter`: the source's latest version written to `dst`. */
    method CopyParameter(src: ParameterPath, dst: ParameterPath, st: Store) returns (st': Store, err: Option<Error>)
      requires st.Valid() && src.Region in Clients && dst.Region in Clients
      ensures (st', err) == CopyParameterOutcome(st, src, dst, Cwd)
    {
      var isParameter := IsParameter(src, st);
      if !isParameter {
        return st, Some(SourceNotParameter(src.Name));
      }
      var pHist := GetHistory(src, st);
      match pHist {
        case Err(e) =>
          return st, Some(Service(e));
        case Ok(h) =>
          var pLatest := h[|h| - 1];
          var name := if dst.Name == [Delimiter] then src.Name else dst.Name;
          var r;
          st', r := Put(CopyInput(pLatest, name), dst.Region, st);
          match r {
            case Err(e) =>
              err := Some(Service(e));
            case Ok(_) =>
              err := None;
          }
      }
    }

    /** `copyParameterToPath`: the parameter copied below the path `dstPath`. */
    method CopyParameterToPath(srcParam: ParameterPath, dstPath: ParameterPath, st: Store) returns (st': Store, err: Option<Error>)
      requires st.Valid() && srcParam.Region in Clients && dstPath.Region in Clients
      ensures (st', err) == CopyParameterOutcome(st, srcParam, ParameterPath(ToPathName(srcParam.Name, dstPath.Name), dstPath.Region), Cwd)
    {
      var name := ToPathName(srcParam.Name, dstPath.Name);
      st', err := CopyParameter(srcParam, ParameterPath(name, dstPath.Region), st);
    }

    /** `copyPathToPath`: every parameter below `srcPath`, page by page, copied
        to its destination under `dstPath`; the pairs of a page are copied in an
        unspecified order, and the first failure ends the copy. */
    method CopyPathToPath(newPath: bool, srcPath: ParameterPath, dstPath: ParameterPath, st: Store)
      returns (st': Store, err: Option<Error>, ghost orders: seq<seq<ParameterPath>>)
      requires st.Valid() && srcPath.Region in Clients && dstPath.Region in Clients
      ensures CopiedPath(st, srcPath, dstPath, newPath, st', err)
      ensures (st', Stopped(err)) == PathCopyRun(st, newPath, srcPath, dstPath, orders, Cwd)
      ensures PathCopyOrders(st, newPath, srcPath, dstPath, orders, Cwd)
    {
      ghost var done: seq<string> := [];
      orders := [];
      st' := st;
      var token: nat := 0;
      while true
        invariant PathWriteLoop(st, st', token, done, newPath, srcPath, dstPath)
        invariant PathRunAt(st, newPath, srcPath, dstPath, orders, Cwd, st', token)
        decreases st'.budget
      {
        var status;
        ghost var items, order;
        ghost var cur := st';
        st', status, items, order := CopyNextPage(newPath, srcPath, dstPath, st, st', token, done);
        PathRunStep(st, newPath, srcPath, dstPath, orders, Cwd, cur, token, order);
        done := done + items;
        orders := orders + [order];
        match status {
          case Stopped(e) =>
            return st', e, orders;
          case NextPage(next) =>
            token := next;
        }
      }
    }

    /** One round of `copyPathToPath`'s loop: the page at `token` requested
        and, when it came, its pairs copied; the copy stops or goes on to the
        next page with less budget left. */
    method CopyNextPage(newPath: bool, srcPath: ParameterPath, dstPath: ParameterPath, ghost st: Store, cur: Store,
                        token: nat, ghost done: seq<string>)
      returns (next: Store, status: PathCopyStatus, ghost items: seq<string>, ghost order: seq<ParameterPath>)
      requires st.Valid() && srcPath.Region in Clients && dstPath.Region in Clients
      requires PathWriteLoop(st, cur, token, done, newPath, srcPath, dstPath)
      ensures (next, status) == PageCopy(cur, token, newPath, srcPath, dstPath, order, Cwd)
      ensures PageOrder(cur, token, newPath, srcPath, dstPath, order, Cwd)
      ensures status.Stopped? ==> CopiedPath(st, srcPath, dstPath, newPath, next, status.err)
      ensures status.NextPage? ==>
                next.budget < cur.budget && PathWriteLoop(st, next, status.token, done + items, newPath, srcPath, dstPath)
    {
      var resp := cur.GetParametersByPath(srcPath.Region, srcPath.Name, token);
      match resp {
        case Err(e) =>
          PathCopyStops(st, cur, token, done, newPath, srcPath, dstPath, Some(Service(e)));
          return cur, Stopped(Some(Service(e))), [], [];
        case Ok(page) =>
          ghost var names := cur.Listing(srcPath.Region, srcPath.Name);
          ListingCullable(cur, srcPath);
          assert forall i :: 0 <= i < |page.items| ==> page.items[i] in names;
          var err;
          next, err, order := CopyPage(page.items, newPath, srcPath, dstPath, cur);
          PathWriteStep(st, cur, next, err, token, done, page, newPath, srcPath, dstPath);
          items := page.items;
          if err.Some? || page.next.None? {
            status := Stopped(err);
          } else {
            status := NextPage(page.next.value);
          }
      }
    }

    /** One page of `copyPathToPath`: the page's names mapped to their
        destinations and the pairs copied; a copied non-empty page uses up
        write budget. */
    method CopyPage(items: seq<string>, newPath: bool, srcPath: ParameterPath, dstPath: ParameterPath, st: Store)
      returns (st': Store, err: Option<Error>, ghost order: seq<ParameterPath>)
      requires st.Valid() && srcPath.Region in Clients && dstPath.Region in Clients
      requires forall i :: 0 <= i < |items| ==> Cullable(items[i], srcPath.Name)
      ensures st'.Valid() && st'.down == st.down
      ensures CopyLog(st.log, st'.log, dstPath.Region)
      ensures err.None? && items != [] ==> st'.budget < st.budget
      ensures forall n :: n in items ==> Cullable(n, srcPath.Name)
      ensures WroteOnly(st, st', PathTargets(items, newPath, srcPath, dstPath))
      ensures err.None? && NamesSeparate(items, newPath, srcPath, dstPath) ==>
                CopiedNames(st, items, newPath, srcPath, dstPath, st')
      ensures (st', err) == CopySeq(st, PageMapOf(items, newPath, srcPath, dstPath), order, Cwd)
      ensures CopyOrder(st, PageMapOf(items, newPath, srcPath, dstPath), order, Cwd)
    {
      var paramMap := MakeParameterMap(items, newPath, srcPath, dstPath);
      st', err, order := CopyPairs(paramMap, dstPath.Region, st);
      if items != [] {
        assert ParameterPath(items[0], srcPath.Region) in paramMap.Keys;
      }
      PageMap(items, newPath, srcPath, dstPath, paramMap);
    }

    /** The inner loop of `copyPathToPath`: `copyParameter` for each pair of
        the map, in an unspecified order, up to the first failure. Only the
        pairs' destinations change, and on success each holds the latest
        contents of its source, provided the pairs do not disturb each other. */
    method CopyPairs(paramMap: map<ParameterPath, ParameterPath>, region: string, st: Store)
      returns (st': Store, err: Option<Error>, ghost order: seq<ParameterPath>)
      requires st.Valid()
      requires forall p :: p in paramMap ==> p.Region in Clients && paramMap[p].Region == region && region in Clients
      ensures st'.Valid() && st'.down == st.down
      ensures CopyLog(st.log, st'.log, region)
      ensures err.None? ==> st'.budget + |paramMap.Keys| <= st.budget
      ensures WroteOnly(st, st', MapTargets(paramMap))
      ensures err.None? && PairsSeparate(paramMap) ==>
                forall p :: p in paramMap ==> HoldsCopy(st, p, st', CopyTarget(p, paramMap[p]))
      ensures (st', err) == CopySeq(st, paramMap, order, Cwd) && CopyOrder(st, paramMap, order, Cwd)
    {
      st', err := st, None;
      order := [];
      var remaining := paramMap.Keys;
      while remaining != {}
        invariant PairsCopyProgress(st, st', paramMap, remaining, region)
        invariant PairsOrderProgress(st, st', paramMap, remaining, order, Cwd)
        decreases |remaining|
      {
        var src :| src in remaining;
        var e;
        ghost var before := st';
        st', e := CopyParameter(src, paramMap[src], st');
        PairsCopyStep(st, before, paramMap, src, remaining, region, Cwd);
        PairsOrderStep(st, before, paramMap, remaining, order, src, Cwd);
        order := order + [src];
        if e.Some? {
          return st', e, order;
        }
        remaining := remaining - {src};
      }
    }

    /** `Copy`: dispatches on whether source and destination are parameters or
        prefixes, with decryption forced on for the duration of the call. */
    method Copy(src: ParameterPath, dst: ParameterPath, recurse: bool, st: Store) returns (st': Store, err: Option<Error>)
      modifies this
      requires st.Valid() && src.Region in Clients && dst.Region in Clients
      ensures CopyAllowed(st, src, dst, recurse, Cwd, st', err)
      ensures Confirm == old(Confirm) && Cwd == old(Cwd) && Decrypt == old(Decrypt) && Key == old(Key)
      ensures Region == old(Region) && Profile == old(Profile) && Clients == old(Clients)
    {
      var restore := false;
      if !Decrypt {
        Decrypt := true;
        restore := true;
      }
      st', err := CopyDispatch(src, dst, recurse, st);
      if restore {
        Decrypt := false;
      }
    }

    /** The dispatch of `Copy` between its four cases. */
    method CopyDispatch(src: ParameterPath, dst: ParameterPath, recurse: bool, st: Store) returns (st': Store, err: Option<Error>)
      requires st.Valid() && src.Region in Clients && dst.Region in Clients
      ensures CopyAllowed(st, src, dst, recurse, Cwd, st', err)
    {
      var s := ParameterPath(Fqp(src.Name, Cwd), src.Region);
      var d := ParameterPath(Fqp(dst.Name, Cwd), dst.Region);
      var srcIsParameter, dstIsParameter, srcIsPath, dstIsPath := false, false, false, false;
      srcIsParameter := IsParameter(s, st);
      if !srcIsParameter {
        srcIsPath := IsPath(s, st);
      }
      dstIsParameter := IsParameter(d, st);
      if !dstIsParameter {
        dstIsPath := IsPath(d, st);
      }
      if srcIsParameter && !dstIsPath {
        st', err := CopyParameter(s, d, st);
      } else if srcIsParameter && dstIsPath {
        st', err := CopyParameterToPath(s, d, st);
      } else if srcIsPath && dstIsParameter {
        st', err := st, Some(PathToParameter(s, d));
      } else if srcIsPath {
        if !recurse {
          st', err := st, Some(PathsWithoutRecursion(s, d));
        } else {
          ghost var orders;
          st', err, orders := CopyPathToPath(!dstIsPath, s, d, st);
        }
      } else {
        st', err := st, Some(NotPathOrParameter(s));
      }
    }

    /** `Move`: `Copy` with recursion, then `Remove` of the source with
        recursion, only when the copy succeeded. */
    method Move(src: ParameterPath, dst: ParameterPath, st: Store)
      returns (st': Store, err: Option<Error>, ghost copied: Store, ghost copyErr: Option<Error>, ghost order: seq<string>)
      modifies this
      requires st.Valid() && src.Region in Clients && dst.Region in Clients
      ensures copied.Valid()
      ensures CopyAllowed(st, src, dst, true, Cwd, copied, copyErr)
      ensures copyErr.Some? ==> st' == copied && err == copyErr && order == []
      ensures copyErr.None? ==> Removed(copied, [src], true, Cwd, order, st', err)
      ensures Confirm == old(Confirm) && Cwd == old(Cwd) && Decrypt == old(Decrypt) && Key == old(Key)
      ensures Region == old(Region) && Profile == old(Profile) && Clients == old(Clients)
    {
      st', err := Copy(src, dst, true, st);
      copied, copyErr := st', err;
      CopyAllowedValid(st, src, dst, true, Cwd, copied, copyErr);
      order := [];
      if err.None? {
        st', err, order := Remove([src], true, st');
      }
    }
  }

  /** The grouping loop of `deleteByRegion`. */
  method GroupNames(params: seq<ParameterPath>) returns (groups: map<string, seq<string>>)
    ensures groups == GroupByRegion(params)
  {
    groups := map[];
    for i := 0 to |params|
      invariant groups == GroupByRegion(params[..i])
    {
      assert params[..i + 1][..i] == params[..i];
      var p := params[i];
      groups := groups[p.Region := (if p.Region in groups then groups[p.Region] else []) + [p.Name]];
    }
    assert params[..|params|] == params;
  }

  /** `makeParameterMap`: each listed name, in the source region, paired
      with its destination in the destination region. */
  method MakeParameterMap(params: seq<string>, newPath: bool, srcPath: ParameterPath, dstPath: ParameterPath)
    returns (sourceToDst: map<ParameterPath, ParameterPath>)
    requires forall i :: 0 <= i < |params| ==> Cullable(params[i], srcPath.Name)
    ensures forall p :: p in sourceToDst <==> p.Region == srcPath.Region && p.Name in params
    ensures forall p :: p in sourceToDst ==>
              sourceToDst[p] == ParameterPath(DestinationName(p.Name, newPath, srcPath.Name, dstPath.Name), dstPath.Region)
    ensures forall n :: n in params ==> Cullable(n, srcPath.Name)
    ensures sourceToDst == PageMapOf(params, newPath, srcPath, dstPath)
  {
    sourceToDst := map[];
    var dstPathName := dstPath.Name;
    for i := 0 to |params|
      invariant dstPathName == dstPath.Name || (dstPath.Name == [Delimiter] && dstPathName == "")
      invariant forall p :: p in sourceToDst <==> p.Region == srcPath.Region && p.Name in params[..i]
      invariant forall p :: p in sourceToDst ==>
                  sourceToDst[p] == ParameterPath(DestinationName(p.Name, newPath, srcPath.Name, dstPath.Name), dstPath.Region)
    {
      assert params[..i + 1] == params[..i] + [params[i]];
      var srcParam := ParameterPath(params[i], srcPath.Region);
      var srcPathElements := Split(srcPath.Name, Delimiter);
      var srcBasePath := srcPathElements[|srcPathElements| - 1];
      var dstParamName := Relative(srcParam.Name, srcPath.Name);
      if dstPathName == [Delimiter] {
        dstPathName := "";
      }
      var name;
      if newPath || srcPath.Name == [Delimiter] {
        name := Join([dstPathName, dstParamName], Delimiter);
      } else {
        name := Join([dstPathName, srcBasePath, dstParamName], Delimiter);
      }
      sourceToDst := sourceToDst[srcParam := ParameterPath(name, dstPath.Region)];
    }
    assert params[..|params|] == params;
    PageMapOfIs(params, newPath, srcPath, dstPath, sourceToDst);
  }

  /** `uniq`: keeps the first occurrence of each name, remembering those seen. */
  method Uniq(input: seq<string>) returns (uniques: seq<string>)
    ensures uniques == Dedup(input)
  {
    var seen: set<string> := {};
    uniques := [];
    for i := 0 to |input|
      invariant uniques == Dedup(input[..i])
      invariant seen == set x | x in input[..i]
    {
      assert input[..i + 1][..i] == input[..i];
      if input[i] !in seen {
        seen := seen + {input[i]};
        uniques := uniques + [input[i]];
      }
    }
    assert input[..|input|] == input;
  }

  /** `cull`: one level of `paths` below `relative`. */
  method Cull(paths: seq<string>, relative: string) returns (culled: seq<string>)
    requires forall i :: 0 <= i < |paths| ==> Cullable(paths[i], relative)
    ensures culled == CullOf(paths, relative)
  {
    var entries: seq<string> := [];
    for i := 0 to |paths|
      invariant entries == Entries(paths[..i], relative)
    {
      var p := paths[i];
      if relative == [Delimiter] {
        if p[0] == Delimiter {
          p := p[1..];
        }
      } else {
        p := p[|relative| + 1..];
      }
      var r := Split(p, Delimiter);
      var first := r[0];
      if |r| > 1 {
        first := first + [Delimiter];
      }
      entries := entries + [first];
    }
    assert paths[..|paths|] == paths;
    culled := Uniq(entries);
  }

  lemma {:induction false} GroupByRegionKeys(params: seq<ParameterPath>)
    ensures forall r :: r in GroupByRegion(params) <==> exists i :: 0 <= i < |params| && params[i].Region == r
  {
    if params != [] {
      var init := params[..|params| - 1];
      GroupByRegionKeys(init);
      forall r | r in GroupByRegion(params)
        ensures exists i :: 0 <= i < |params| && params[i].Region == r
      {
        if r != params[|params| - 1].Region {
          assert r in GroupByRegion(init);
          var i :| 0 <= i < |init| && init[i].Region == r;
          assert params[i].Region == r;
        }
      }
      forall r | exists i :: 0 <= i < |params| && params[i].Region == r
        ensures r in GroupByRegion(params)
      {
        var i :| 0 <= i < |params| && params[i].Region == r;
        if i < |init| {
          assert init[i].Region == r;
        }
      }
    }
  }

  /** Each region's group holds exactly that region's names, in input order. */
  lemma {:induction false} GroupByRegionNames(params: seq<ParameterPath>)
    ensures forall r :: r in GroupByRegion(params) ==> GroupByRegion(params)[r] == NamesIn(params, r)
  {
    if params != [] {
      var init := params[..|params| - 1];
      GroupByRegionNames(init);
      GroupByRegionKeys(init);
      forall r | r in GroupByRegion(params)
        ensures GroupByRegion(params)[r] == NamesIn(params, r)
      {
        if r !in GroupByRegion(init) {
          NamesInAbsent(init, r);
        }
      }
    }
  }

  lemma {:induction false} NamesInAbsent(params: seq<ParameterPath>, r: string)
    requires forall i :: 0 <= i < |params| ==> params[i].Region != r
    ensures NamesIn(params, r) == []
  {
    if params != [] {
      NamesInAbsent(params[..|params| - 1], r);
    }
  }

  lemma GroupSingleRegion(params: seq<ParameterPath>, region: string)
    requires forall i :: 0 <= i < |params| ==> params[i].Region == region
    ensures params == [] ==> GroupByRegion(params) == map[]
    ensures params != [] ==> GroupByRegion(params) == map[region := NamesIn(params, region)]
  {
    GroupByRegionKeys(params);
    GroupByRegionNames(params);
    if params != [] {
      assert params[0].Region == region;
      assert GroupByRegion(params).Keys == {region};
    }
  }

  lemma {:induction false} NamesOfRegion(names: seq<string>, region: string)
    ensures NamesIn(seq(|names|, i requires 0 <= i < |names| => ParameterPath(names[i], region)), region) == names
  {
    var ps := seq(|names|, i requires 0 <= i < |names| => ParameterPath(names[i], region));
    if names != [] {
      var init := names[..|names| - 1];
      NamesOfRegion(init, region);
      assert ps[..|ps| - 1] == seq(|init|, i requires 0 <= i < |init| => ParameterPath(init[i], region));
    }
  }

  lemma {:induction false} DeleteRegionsSnoc(st: Store, groups: map<string, seq<string>>, order: seq<string>,
                                             region: string, cwd: string)
    requires st.Valid() && region in groups
    requires forall i :: 0 <= i < |order| ==> order[i] in groups
    ensures var before := DeleteRegions(st, groups, order, cwd);
            DeleteRegions(st, groups, order + [region], cwd) ==
            if before.1.Some? then before else DeleteOutcome(before.0, groups[region], region, cwd)
    decreases |order|
  {
    if order == [] {
      assert DeleteRegions(DeleteOutcome(st, groups[region], region, cwd).0, groups, [], cwd).0
             == DeleteOutcome(st, groups[region], region, cwd).0;
    } else {
      assert (order + [region])[1..] == order[1..] + [region];
      var first := DeleteOutcome(st, groups[order[0]], order[0], cwd);
      if first.1.None? {
        DeleteRegionsSnoc(first.0, groups, order[1..], region, cwd);
      }
    }
  }

  /** Moving one region from the regions still to visit to the visited ones. */
  lemma VisitRegion(groups: map<string, seq<string>>, remaining: set<string>, order: seq<string>, region: string)
    requires region in remaining && remaining <= groups.Keys && Distinct(order)
    requires forall i :: 0 <= i < |order| ==> order[i] in groups && order[i] !in remaining
    requires forall r :: r in groups ==> r in remaining || r in order
    ensures Distinct(order + [region])
    ensures forall i :: 0 <= i < |order + [region]| ==>
              (order + [region])[i] in groups && (order + [region])[i] !in remaining - {region}
    ensures forall r :: r in groups ==> r in remaining - {region} || r in order + [region]
  {
    var next := order + [region];
    forall i, j | 0 <= i < j < |next|
      ensures next[i] != next[j]
    {
      if j == |order| {
        assert next[i] == order[i] && order[i] !in remaining;
      }
    }
  }

  /** Deleting by region the names listed below a prefix is deleting them in
      the prefix's one region. */
  lemma SingleRegionDeleted(st: Store, path: ParameterPath, names: seq<string>, toDelete: seq<ParameterPath>, cwd: string,
                            order: seq<string>, st': Store, err: Option<Error>)
    requires st.Valid() && path.Region !in st.down && names == st.Listing(path.Region, path.Name)
    requires toDelete == seq(|names|, i requires 0 <= i < |names| => ParameterPath(names[i], path.Region))
    requires DeletedByRegion(st, toDelete, cwd, order, st', err)
    ensures (st', err) == RecursiveDeleteOutcome(st, path, cwd)
  {
    GroupSingleRegion(toDelete, path.Region);
    assert NamesIn(toDelete, path.Region) == names by {
      NamesOfRegion(names, path.Region);
    }
    SingleGroupOrder(order, GroupByRegion(toDelete), path.Region);
    if names != [] {
      assert toDelete != [] && path.Region in GroupByRegion(toDelete);
      assert order == [path.Region];
      DeleteSingleGroup(st, path.Region, names, cwd);
    }
  }

  lemma SingleGroupOrder(order: seq<string>, groups: map<string, seq<string>>, region: string)
    requires groups.Keys <= {region}
    requires Distinct(order) && forall i :: 0 <= i < |order| ==> order[i] in groups
    ensures order == [] || order == [region]
  {
    DistinctPair(order);
  }

  lemma DistinctPair(s: seq<string>)
    ensures Distinct(s) && |s| > 1 ==> s[0] != s[1]
  {
  }

  lemma DeleteSingleGroup(st: Store, region: string, names: seq<string>, cwd: string)
    requires st.Valid()
    ensures DeleteRegions(st, map[region := names], [region], cwd) == DeleteOutcome(st, names, region, cwd)
  {
    var first := DeleteOutcome(st, names, region, cwd);
    assert [region][1..] == [];
    assert DeleteRegions(first.0, map[region := names], [], cwd) == (first.0, None);
  }

  /** The chunks from position `i` on: the next chunk, then the rest. */
  lemma ChunksFrom(params: seq<string>, i: nat, end: nat)
    requires i < |params| && end == (if |params| - i < MaxDeleteBatch then |params| else i + MaxDeleteBatch)
    ensures Chunks(params[i..]) == [params[i..end]] + Chunks(params[end..])
  {
    assert params[i..][..end - i] == params[i..end];
    assert params[i..][end - i..] == params[end..];
  }

  /** Sending a first chunk, then the others unless it failed. */
  lemma DeleteChunksCons(st: Store, chunk: seq<string>, rest: seq<seq<string>>, region: string, cwd: string,
                         invalid: seq<string>)
    requires st.Valid()
    ensures var answer := st.DeleteParameters(region, FqpAll(chunk, cwd));
            DeleteChunks(st, [chunk] + rest, region, cwd, invalid) ==
            if answer.1.Err? then (answer.0, Err(answer.1.error))
            else DeleteChunks(answer.0, rest, region, cwd, invalid + answer.1.value)
  {
    assert ([chunk] + rest)[0] == chunk && ([chunk] + rest)[1..] == rest;
  }

  /** `n` names take ceil(n / 10) requests; no names take none. */
  lemma {:induction false} ChunksCount(names: seq<string>)
    ensures |Chunks(names)| == (|names| + MaxDeleteBatch - 1) / MaxDeleteBatch
    decreases |names|
  {
    if names != [] {
      var n := if |names| < MaxDeleteBatch then |names| else MaxDeleteBatch;
      ChunksCount(names[n..]);
    }
  }

  /** The chunks are non-empty, hold at most ten names each, and together
      are the names in their original order. */
  lemma {:induction false} ChunksPartition(names: seq<string>)
    ensures forall i :: 0 <= i < |Chunks(names)| ==> 0 < |Chunks(names)[i]| <= MaxDeleteBatch
    ensures Flatten(Chunks(names)) == names
    decreases |names|
  {
    if names != [] {
      var n := if |names| < MaxDeleteBatch then |names| else MaxDeleteBatch;
      ChunksPartition(names[n..]);
      assert Chunks(names)[1..] == Chunks(names[n..]);
      assert names[..n] + names[n..] == names;
    }
  }

  predicate IsPrefix(a: seq<Call>, b: seq<Call>)
  {
    |a| <= |b| && a == b[..|a|]
  }

  /** The requests reach the service in chunk order and stop after the first
      failing one; without a failure every chunk is sent. */
  lemma {:induction false} DeleteChunksLog(st: Store, chunks: seq<seq<string>>, region: string, cwd: string, invalid: seq<string>)
    requires st.Valid()
    ensures var r := DeleteChunks(st, chunks, region, cwd, invalid);
            && IsPrefix(r.0.log, st.log + DeleteCalls(chunks, region, cwd))
            && (r.1.Ok? ==> r.0.log == st.log + DeleteCalls(chunks, region, cwd))
            && (r.1.Err? ==> |r.0.log| > |st.log|)
    decreases |chunks|
  {
    if chunks != [] {
      var c := DeleteParametersCall(region, FqpAll(chunks[0], cwd));
      var answer := st.DeleteParameters(region, FqpAll(chunks[0], cwd));
      var rest := DeleteCalls(chunks[1..], region, cwd);
      assert st.log + DeleteCalls(chunks, region, cwd) == answer.0.log + rest;
      if answer.1.Ok? {
        DeleteChunksLog(answer.0, chunks[1..], region, cwd, invalid + answer.1.value);
      }
    }
  }

  /** Once every request succeeded, no name of any chunk remains in the region. */
  lemma {:induction false} DeleteChunksRemoves(st: Store, chunks: seq<seq<string>>, region: string, cwd: string, invalid: seq<string>)
    requires st.Valid()
    ensures var r := DeleteChunks(st, chunks, region, cwd, invalid);
            r.1.Ok? ==> forall i, n :: 0 <= i < |chunks| && n in chunks[i] ==>
                          ParameterPath(Fqp(n, cwd), region) !in r.0.history
    decreases |chunks|
  {
    if chunks != [] {
      var names := FqpAll(chunks[0], cwd);
      var answer := st.DeleteParameters(region, names);
      if answer.1.Ok? {
        DeleteChunksRemoves(answer.0, chunks[1..], region, cwd, invalid + answer.1.value);
        var r := DeleteChunks(answer.0, chunks[1..], region, cwd, invalid + answer.1.value);
        if r.1.Ok? {
          DeleteChunksShrinks(answer.0, chunks[1..], region, cwd, invalid + answer.1.value);
          forall i, n | 0 <= i < |chunks| && n in chunks[i]
            ensures ParameterPath(Fqp(n, cwd), region) !in r.0.history
          {
            if i == 0 {
              var k :| 0 <= k < |chunks[0]| && chunks[0][k] == n;
              assert names[k] == Fqp(n, cwd);
            } else {
              assert chunks[1..][i - 1] == chunks[i];
            }
          }
        }
      }
    }
  }

  /** Deleting never adds a parameter. */
  lemma {:induction false} DeleteChunksShrinks(st: Store, chunks: seq<seq<string>>, region: string, cwd: string, invalid: seq<string>)
    requires st.Valid()
    ensures DeleteChunks(st, chunks, region, cwd, invalid).0.history.Keys <= st.history.Keys
    decreases |chunks|
  {
    if chunks != [] {
      var answer := st.DeleteParameters(region, FqpAll(chunks[0], cwd));
      if answer.1.Ok? {
        DeleteChunksShrinks(answer.0, chunks[1..], region, cwd, invalid + answer.1.value);
      }
    }
  }

  /** Without `recurse` the scan itself changes nothing in the service. */
  lemma {:induction false} RemoveScanWithoutRecursion(st: Store, params: seq<ParameterPath>, cwd: string, queued: seq<ParameterPath>)
    requires st.Valid()
    ensures RemoveScan(st, params, false, cwd, queued).0 == st
    decreases |params|
  {
    if params != [] {
      RemoveScanWithoutRecursion(st, params[1..], cwd, queued + [ParameterPath(Fqp(params[0].Name, cwd), params[0].Region)]);
      RemoveScanWithoutRecursion(st, params[1..], cwd, queued);
    }
  }

  /** A parameter is queued on its own, even when names lie below it too. */
  lemma RemoveParameterAlone(st: Store, param: ParameterPath, recurse: bool, cwd: string)
    requires st.Valid()
    requires IsParameterIn(st, ParameterPath(Fqp(param.Name, cwd), param.Region))
    ensures RemoveScan(st, [param], recurse, cwd, []) == (st, Ok([ParameterPath(Fqp(param.Name, cwd), param.Region)]))
  {
    var full := ParameterPath(Fqp(param.Name, cwd), param.Region);
    assert [param][1..] == [];
    assert [] + [full] == [full];
  }

  /** A prefix that is not also a parameter needs `recurse`; without it the
      scan fails at once and nothing is deleted. */
  lemma RemovePrefixNeedsRecursion(st: Store, param: ParameterPath, rest: seq<ParameterPath>, cwd: string, queued: seq<ParameterPath>)
    requires st.Valid()
    requires var full := ParameterPath(Fqp(param.Name, cwd), param.Region);
             !IsParameterIn(st, full) && IsPathIn(st, full)
    ensures RemoveScan(st, [param] + rest, false, cwd, queued) ==
            (st, Err(RecursionNotRequested(Fqp(param.Name, cwd))))
  {
    assert ([param] + rest)[0] == param;
  }

  lemma CopyLogTrans(a: seq<Call>, b: seq<Call>, c: seq<Call>, region: string)
    requires CopyLog(a, b, region) && CopyLog(b, c, region)
    ensures CopyLog(a, c, region)
  {
    assert c[..|a|] == c[..|b|][..|a|];
  }

  /** A successful `copyParameter` leaves the destination's latest version
      with the type, value, key, description and pattern of the source's
      latest version, written by one overwriting put. */
  lemma CopyParameterCopiesLatest(st: Store, src: ParameterPath, dst: ParameterPath, cwd: string)
    requires st.Valid() && CopyParameterOutcome(st, src, dst, cwd).1 == None
    ensures IsParameterIn(st, src)
    ensures HistoryOf(st, ParameterPath(Fqp(src.Name, cwd), src.Region)).Ok?
    ensures var h := HistoryOf(st, ParameterPath(Fqp(src.Name, cwd), src.Region)).value;
            var latest := h[|h| - 1];
            var p := ParameterPath(CopyName(src, dst), dst.Region);
            var r := CopyParameterOutcome(st, src, dst, cwd).0;
            && r.log == st.log + [PutParameterCall(dst.Region, CopyInput(latest, CopyName(src, dst)))]
            && p in r.history && |r.history[p]| > 0
            && var v := r.history[p][|r.history[p]| - 1];
               v.Type == latest.Type && v.Value == latest.Value && v.KeyId == latest.KeyId
               && v.Description == latest.Description && v.AllowedPattern == latest.AllowedPattern
  {
  }

  /** `copyParameter` writes at most its own destination, and on success of a
      canonically named source that destination holds the source's latest
      contents. */
  lemma CopyParameterWrites(st: Store, src: ParameterPath, dst: ParameterPath, cwd: string)
    requires st.Valid()
    ensures var r := CopyParameterOutcome(st, src, dst, cwd);
            && WroteOnly(st, r.0, {CopyTarget(src, dst)})
            && (r.1.None? && Fqp(src.Name, cwd) == src.Name ==> HoldsCopy(st, src, r.0, CopyTarget(src, dst)))
  {
    CopyParameterFrame(st, src, dst, cwd);
    if CopyParameterOutcome(st, src, dst, cwd).1.None? && Fqp(src.Name, cwd) == src.Name {
      CopyParameterHolds(st, src, dst, cwd);
    }
  }

  /** A successful copy of a canonically named source holds its latest contents. */
  lemma CopyParameterHolds(st: Store, src: ParameterPath, dst: ParameterPath, cwd: string)
    requires st.Valid() && CopyParameterOutcome(st, src, dst, cwd).1 == None && Fqp(src.Name, cwd) == src.Name
    ensures HoldsCopy(st, src, CopyParameterOutcome(st, src, dst, cwd).0, CopyTarget(src, dst))
  {
    CopyParameterCopiesLatest(st, src, dst, cwd);
    HoldsFromLatest(st, src, ParameterPath(Fqp(src.Name, cwd), src.Region),
                    CopyParameterOutcome(st, src, dst, cwd).0, CopyTarget(src, dst));
  }

  /** A target whose newest version has the contents of the newest version
      that a source's history answers holds a copy of that source. */
  lemma HoldsFromLatest(st: Store, src: ParameterPath, resolved: ParameterPath, r: Store, t: ParameterPath)
    requires st.Valid() && resolved == src && HistoryOf(st, resolved).Ok?
    requires var h := HistoryOf(st, resolved).value;
             var latest := h[|h| - 1];
             && t in r.history && |r.history[t]| > 0
             && var v := r.history[t][|r.history[t]| - 1];
                v.Type == latest.Type && v.Value == latest.Value && v.KeyId == latest.KeyId
                && v.Description == latest.Description && v.AllowedPattern == latest.AllowedPattern
    ensures HoldsCopy(st, src, r, t)
  {
  }

  /** `copyParameter` changes nothing but its destination. */
  lemma CopyParameterFrame(st: Store, src: ParameterPath, dst: ParameterPath, cwd: string)
    requires st.Valid()
    ensures WroteOnly(st, CopyParameterOutcome(st, src, dst, cwd).0, {CopyTarget(src, dst)})
  {
    if IsParameterIn(st, src) {
      var h := HistoryOf(st, ParameterPath(Fqp(src.Name, cwd), src.Region));
      if h.Ok? {
        var answer := st.PutParameter(CopyInput(h.value[|h.value| - 1], CopyName(src, dst)), dst.Region);
        if answer.1.Ok? {
          assert answer.0.order[..|st.order|] == st.order;
        }
      }
    }
  }

  /** Writes confined to `t1` followed by writes confined to `t2` are confined
      to any set holding both. */
  lemma WroteOnlyTrans(a: Store, b: Store, c: Store, t1: set<ParameterPath>, t2: set<ParameterPath>, t: set<ParameterPath>)
    requires WroteOnly(a, b, t1) && WroteOnly(b, c, t2) && t1 <= t && t2 <= t
    ensures WroteOnly(a, c, t)
  {
    assert c.order[..|a.order|] == c.order[..|b.order|][..|a.order|];
    forall i | |a.order| <= i < |c.order|
      ensures c.order[i] in t
    {
      if i < |b.order| {
        assert c.order[..|b.order|][i] == b.order[i];
      }
    }
  }

  /** What `CopyPairs` keeps while `remaining` is left to copy: every write so
      far went into `region` and to a destination of the map, one write for
      each pair copied, and those pairs hold their copies. */
  ghost predicate PairsCopyProgress(st: Store, cur: Store, m: map<ParameterPath, ParameterPath>,
                                    remaining: set<ParameterPath>, region: string)
  {
    && remaining <= m.Keys
    && cur.Valid() && cur.down == st.down
    && CopyLog(st.log, cur.log, region)
    && cur.budget + |m.Keys| <= st.budget + |remaining|
    && WroteOnly(st, cur, MapTargets(m))
    && (PairsSeparate(m) ==> forall p :: p in m && p !in remaining ==> HoldsCopy(st, p, cur, CopyTarget(p, m[p])))
  }

  /** One pair of `CopyPairs` keeps its progress, and a failing pair still
      writes only into `region` and to a destination of the map. */
  lemma PairsCopyStep(st: Store, cur: Store, m: map<ParameterPath, ParameterPath>, src: ParameterPath,
                      remaining: set<ParameterPath>, region: string, cwd: string)
    requires PairsCopyProgress(st, cur, m, remaining, region) && src in remaining && m[src].Region == region
    ensures var r := CopyParameterOutcome(cur, src, m[src], cwd);
            && r.0.Valid() && r.0.down == st.down
            && CopyLog(st.log, r.0.log, region)
            && WroteOnly(st, r.0, MapTargets(m))
            && (r.1.None? ==> PairsCopyProgress(st, r.0, m, remaining - {src}, region))
  {
    var r := CopyParameterOutcome(cur, src, m[src], cwd);
    CopyLogTrans(st.log, cur.log, r.0.log, region);
    CopyPairStep(st, cur, m, src, remaining, cwd);
    assert |remaining - {src}| == |remaining| - 1;
  }

  /** One pair of `CopyPairs`: the writes stay within the map's destinations,
      and the pairs copied so far keep their copies. */
  lemma CopyPairStep(st: Store, cur: Store, m: map<ParameterPath, ParameterPath>, src: ParameterPath,
                     remaining: set<ParameterPath>, cwd: string)
    requires cur.Valid() && src in remaining && remaining <= m.Keys
    requires WroteOnly(st, cur, MapTargets(m))
    requires PairsSeparate(m) ==> forall p :: p in m && p !in remaining ==> HoldsCopy(st, p, cur, CopyTarget(p, m[p]))
    ensures var r := CopyParameterOutcome(cur, src, m[src], cwd);
            && WroteOnly(st, r.0, MapTargets(m))
            && (r.1.None? && PairsSeparate(m) ==>
                  forall p :: p in m && p !in remaining - {src} ==> HoldsCopy(st, p, r.0, CopyTarget(p, m[p])))
  {
    var r := CopyParameterOutcome(cur, src, m[src], cwd);
    var next := r.0;
    var t := CopyTarget(src, m[src]);
    CopyParameterWrites(cur, src, m[src], cwd);
    assert t in MapTargets(m);
    WroteOnlyTrans(st, cur, next, MapTargets(m), {t}, MapTargets(m));
    if r.1.None? && PairsSeparate(m) {
      FqpFixesCanonical(src.Name, cwd);
      CopiesKept(st, cur, next, m, src, remaining);
    }
  }

  /** The copy of `src` joins the copies made before it without spoiling them:
      it reads a source nothing has written, and writes where no earlier copy
      lies. */
  lemma CopiesKept(st: Store, cur: Store, next: Store, m: map<ParameterPath, ParameterPath>, src: ParameterPath,
                   remaining: set<ParameterPath>)
    requires PairsSeparate(m) && src in remaining && remaining <= m.Keys
    requires WroteOnly(st, cur, MapTargets(m))
    requires forall p :: p in m && p !in remaining ==> HoldsCopy(st, p, cur, CopyTarget(p, m[p]))
    requires WroteOnly(cur, next, {CopyTarget(src, m[src])})
    requires HoldsCopy(cur, src, next, CopyTarget(src, m[src]))
    ensures forall p :: p in m && p !in remaining - {src} ==> HoldsCopy(st, p, next, CopyTarget(p, m[p]))
  {
    var t := CopyTarget(src, m[src]);
    assert src !in MapTargets(m);
    CopyReadsUnwritten(st, cur, next, src, t, MapTargets(m));
    forall p | p in m && p !in remaining - {src}
      ensures HoldsCopy(st, p, next, CopyTarget(p, m[p]))
    {
      if p != src {
        assert CopyTarget(p, m[p]) != t;
        CopyElsewhereKept(st, p, cur, next, CopyTarget(p, m[p]), t);
      }
    }
  }

  /** A copy from a source that earlier writes left alone is a copy of its
      original contents. */
  lemma CopyReadsUnwritten(st: Store, cur: Store, next: Store, src: ParameterPath, t: ParameterPath,
                           targets: set<ParameterPath>)
    requires src !in targets && WroteOnly(st, cur, targets) && HoldsCopy(cur, src, next, t)
    ensures HoldsCopy(st, src, next, t)
  {
    assert src in st.history && st.history[src] == cur.history[src];
  }

  /** A copy survives a later write somewhere else. */
  lemma CopyElsewhereKept(st: Store, p: ParameterPath, cur: Store, next: Store, tp: ParameterPath, t: ParameterPath)
    requires HoldsCopy(st, p, cur, tp) && WroteOnly(cur, next, {t}) && tp != t
    ensures HoldsCopy(st, p, next, tp)
  {
    CopyOutsideKept(st, p, cur, next, tp, {t});
  }

  /** A copy survives later writes confined to places other than its own. */
  lemma CopyOutsideKept(st: Store, p: ParameterPath, cur: Store, next: Store, tp: ParameterPath,
                        targets: set<ParameterPath>)
    requires HoldsCopy(st, p, cur, tp) && WroteOnly(cur, next, targets) && tp !in targets
    ensures HoldsCopy(st, p, next, tp)
  {
    assert next.history[tp] == cur.history[tp];
  }

  /** A map with the keys and values that `makeParameterMap` gives a page is
      that page's map. */
  lemma PageMapOfIs(items: seq<string>, newPath: bool, src: ParameterPath, dst: ParameterPath,
                    m: map<ParameterPath, ParameterPath>)
    requires forall i :: 0 <= i < |items| ==> Cullable(items[i], src.Name)
    requires forall p :: p in m <==> p.Region == src.Region && p.Name in items
    requires forall p :: p in m ==> m[p] == ParameterPath(DestinationName(p.Name, newPath, src.Name, dst.Name), dst.Region)
    ensures forall n :: n in items ==> Cullable(n, src.Name)
    ensures m == PageMapOf(items, newPath, src, dst)
  {
    assert forall n :: n in items ==> Cullable(n, src.Name) by {
      forall n | n in items
        ensures Cullable(n, src.Name)
      {
        var i :| 0 <= i < |items| && items[i] == n;
      }
    }
    var pm := PageMapOf(items, newPath, src, dst);
    forall p | p in m
      ensures p in pm && pm[p] == m[p]
    {
      assert p == ParameterPath(p.Name, src.Region);
    }
    forall p | p in pm
      ensures p in m
    {
      var n :| n in items && p == ParameterPath(n, src.Region);
    }
    assert m.Keys == pm.Keys;
  }

  /** What `CopyPairs` keeps of its visiting order while `remaining` is left:
      the pairs copied so far, each once, with no failure among them. */
  ghost predicate PairsOrderProgress(st: Store, cur: Store, m: map<ParameterPath, ParameterPath>,
                                     remaining: set<ParameterPath>, order: seq<ParameterPath>, cwd: string)
    requires st.Valid()
  {
    && (forall i :: 0 <= i < |order| ==> order[i] in m && order[i] !in remaining)
    && (forall i, j :: 0 <= i < j < |order| ==> order[i] != order[j])
    && (forall p :: p in m && p !in remaining ==> p in order)
    && (cur, None) == CopySeq(st, m, order, cwd)
  }

  /** Copying one more pair extends the visiting order by that pair. */
  lemma PairsOrderStep(st: Store, cur: Store, m: map<ParameterPath, ParameterPath>,
                       remaining: set<ParameterPath>, order: seq<ParameterPath>, src: ParameterPath, cwd: string)
    requires st.Valid() && cur.Valid() && remaining <= m.Keys && src in remaining
    requires PairsOrderProgress(st, cur, m, remaining, order, cwd)
    ensures var r := CopyParameterOutcome(cur, src, m[src], cwd);
            && CopySeq(st, m, order + [src], cwd) == r
            && (r.1.None? ==> PairsOrderProgress(st, r.0, m, remaining - {src}, order + [src], cwd))
            && (r.1.Some? ==> CopyOrder(st, m, order + [src], cwd))
  {
    var o := order + [src];
    assert o[..|o| - 1] == order;
  }

  /** `makeParameterMap`'s pairs write to the path-copy destinations of the
      page's names, and names that do not disturb each other give pairs that
      do not either. */
  lemma PageMap(items: seq<string>, newPath: bool, src: ParameterPath, dst: ParameterPath, m: map<ParameterPath, ParameterPath>)
    requires forall i :: 0 <= i < |items| ==> Cullable(items[i], src.Name)
    requires forall p :: p in m <==> p.Region == src.Region && p.Name in items
    requires forall p :: p in m ==> m[p] == ParameterPath(DestinationName(p.Name, newPath, src.Name, dst.Name), dst.Region)
    ensures forall n :: n in items ==> Cullable(n, src.Name)
    ensures MapTargets(m) <= PathTargets(items, newPath, src, dst)
    ensures forall n :: n in items ==>
              && ParameterPath(n, src.Region) in m
              && CopyTarget(ParameterPath(n, src.Region), m[ParameterPath(n, src.Region)]) == PathTarget(n, newPath, src, dst)
    ensures NamesSeparate(items, newPath, src, dst) ==> PairsSeparate(m)
  {
    assert forall n :: n in items ==> Cullable(n, src.Name) by {
      forall n | n in items
        ensures Cullable(n, src.Name)
      {
        var i :| 0 <= i < |items| && items[i] == n;
      }
    }
    forall t | t in MapTargets(m)
      ensures t in PathTargets(items, newPath, src, dst)
    {
      var p :| p in m && t == CopyTarget(p, m[p]);
      assert t == PathTarget(p.Name, newPath, src, dst);
    }
    if NamesSeparate(items, newPath, src, dst) {
      forall p, q | p in m && q in m && CopyTarget(p, m[p]) == CopyTarget(q, m[q])
        ensures p == q
      {
        PathTargetInjective(p.Name, q.Name, newPath, src, dst);
      }
    }
  }

  /** Only the root itself is copied onto the root: any other canonical name
      below the source has a destination with a segment. */
  lemma RootDestination(n: string, newPath: bool, src: string, dst: string)
    requires IsCleanAbsolute(n) && Under(n, src)
    requires DestinationName(n, newPath, src, dst) == [Delimiter]
    ensures n == [Delimiter]
  {
    var d := if dst == [Delimiter] then "" else dst;
    var rel := Relative(n, src);
    JoinPair(d, rel, Delimiter);
    JoinTriple(d, LastSegment(src), rel, Delimiter);
    assert rel == "";
    if src != [Delimiter] && |n| > 1 {
      assert n == src + [Delimiter];
      CleanHasNoTrailingSeparator(n);
    }
  }

  /** Distinct canonical names below the source are written to distinct
      places by a path copy. */
  lemma PathTargetInjective(n1: string, n2: string, newPath: bool, src: ParameterPath, dst: ParameterPath)
    requires IsCleanAbsolute(n1) && Under(n1, src.Name) && IsCleanAbsolute(n2) && Under(n2, src.Name)
    requires PathTarget(n1, newPath, src, dst) == PathTarget(n2, newPath, src, dst)
    ensures n1 == n2
  {
    var d1 := DestinationName(n1, newPath, src.Name, dst.Name);
    var d2 := DestinationName(n2, newPath, src.Name, dst.Name);
    if d1 == [Delimiter] {
      RootDestination(n1, newPath, src.Name, dst.Name);
    }
    if d2 == [Delimiter] {
      RootDestination(n2, newPath, src.Name, dst.Name);
    }
    if d1 != [Delimiter] && d2 != [Delimiter] {
      DestinationNameInjective(n1, n2, newPath, src.Name, dst.Name);
    }
  }

  lemma {:induction false} BelowAppend(a: seq<ParameterPath>, b: seq<ParameterPath>, region: string, path: string)
    ensures Below(a + b, region, path) == Below(a, region, path) + Below(b, region, path)
    decreases |a|
  {
    if a == [] {
      assert a + b == b;
    } else {
      assert (a + b)[1..] == a[1..] + b;
      BelowAppend(a[1..], b, region, path);
    }
  }

  lemma {:induction false} BelowNone(order: seq<ParameterPath>, region: string, path: string)
    requires forall i :: 0 <= i < |order| ==> !(order[i].Region == region && Under(order[i].Name, path))
    ensures Below(order, region, path) == []
    decreases |order|
  {
    if order != [] {
      BelowNone(order[1..], region, path);
    }
  }

  /** Writes that land outside the listed prefix leave the listing as it was. */
  lemma ListingKept(st: Store, st': Store, targets: set<ParameterPath>, region: string, path: string)
    requires WroteOnly(st, st', targets)
    requires forall t :: t in targets ==> !(t.Region == region && Under(t.Name, path))
    ensures st'.Listing(region, path) == st.Listing(region, path)
  {
    var tail := st'.order[|st.order|..];
    assert st'.order == st.order + tail;
    BelowAppend(st.order, tail, region, path);
    BelowNone(tail, region, path);
  }

  /** What `copyPathToPath` keeps of its writes from page to page: the log
      and, over names that do not disturb each other, its progress. */
  ghost predicate PathWriteLoop(st: Store, cur: Store, token: nat, done: seq<string>,
                                newPath: bool, src: ParameterPath, dst: ParameterPath)
  {
    && cur.Valid() && cur.down == st.down
    && CopyLog(st.log, cur.log, dst.Region)
    && (src.Region in st.down ==> cur == st)
    && PathCopyProgress(st, cur, token, done, newPath, src, dst)
  }

  /** One page of `copyPathToPath`, copied by `CopyPage`: the copy ends with
      its promise kept, or goes on to the next page with less budget left. */
  lemma PathWriteStep(st: Store, cur: Store, next: Store, err: Option<Error>, token: nat, done: seq<string>,
                      page: Page<string>, newPath: bool, src: ParameterPath, dst: ParameterPath)
    requires st.Valid() && PathWriteLoop(st, cur, token, done, newPath, src, dst)
    requires cur.GetParametersByPath(src.Region, src.Name, token) == Ok(page)
    requires forall n :: n in page.items ==> Cullable(n, src.Name)
    requires next.Valid() && next.down == cur.down && CopyLog(cur.log, next.log, dst.Region)
    requires err.None? && page.items != [] ==> next.budget < cur.budget
    requires WroteOnly(cur, next, PathTargets(page.items, newPath, src, dst))
    requires err.None? && NamesSeparate(page.items, newPath, src, dst) ==> CopiedNames(cur, page.items, newPath, src, dst, next)
    ensures err.Some? || page.next.None? ==> CopiedPath(st, src, dst, newPath, next, err)
    ensures err.None? && page.next.Some? ==>
              next.budget < cur.budget && PathWriteLoop(st, next, page.next.value, done + page.items, newPath, src, dst)
  {
    CopyLogTrans(st.log, cur.log, next.log, dst.Region);
    PathCopyStep(st, cur, next, err, token, done, newPath, src, dst);
  }

  /** `copyPathToPath` has gone through the pages of `orders` to `cur` and
      goes on at `token`. */
  ghost predicate PathRunAt(st: Store, newPath: bool, src: ParameterPath, dst: ParameterPath,
                            orders: seq<seq<ParameterPath>>, cwd: string, cur: Store, token: nat)
    requires st.Valid()
  {
    && (cur, NextPage(token)) == PathCopyRun(st, newPath, src, dst, orders, cwd)
    && PathCopyOrders(st, newPath, src, dst, orders, cwd)
  }

  /** One more page, copied in `order`, extends the run by that page. */
  lemma PathRunStep(st: Store, newPath: bool, src: ParameterPath, dst: ParameterPath,
                    orders: seq<seq<ParameterPath>>, cwd: string, cur: Store, token: nat, order: seq<ParameterPath>)
    requires st.Valid() && PathRunAt(st, newPath, src, dst, orders, cwd, cur, token)
    requires PageOrder(cur, token, newPath, src, dst, order, cwd)
    ensures PathCopyRun(st, newPath, src, dst, orders + [order], cwd) == PageCopy(cur, token, newPath, src, dst, order, cwd)
    ensures PathCopyOrders(st, newPath, src, dst, orders + [order], cwd)
  {
    PathCopyOrdersSnoc(st, newPath, src, dst, orders, order, cwd);
  }

  /** One more page extends the run of `copyPathToPath` by that page. */
  lemma {:induction false} PathCopyOrdersSnoc(st: Store, newPath: bool, src: ParameterPath, dst: ParameterPath,
                           orders: seq<seq<ParameterPath>>, order: seq<ParameterPath>, cwd: string)
    requires st.Valid() && PathCopyOrders(st, newPath, src, dst, orders, cwd)
    requires PageFits(st, newPath, src, dst, orders, order, cwd)
    ensures var prev := PathCopyRun(st, newPath, src, dst, orders, cwd);
            PathCopyRun(st, newPath, src, dst, orders + [order], cwd) == PageCopy(prev.0, prev.1.token, newPath, src, dst, order, cwd)
    ensures PathCopyOrders(st, newPath, src, dst, orders + [order], cwd)
  {
    var o := orders + [order];
    assert o[..|orders|] == orders;
    assert o[|orders|] == order;
  }

  /** How far `copyPathToPath` has got over names that do not disturb each
      other: the pages before `token` are copied, the listing is as it was, and
      only the destinations of listed names were written. */
  ghost predicate PathCopyProgress(st: Store, cur: Store, token: nat, done: seq<string>,
                                   newPath: bool, src: ParameterPath, dst: ParameterPath)
  {
    var all := st.Listing(src.Region, src.Name);
    NamesSeparate(all, newPath, src, dst) ==>
      && token * PageSize <= |all| && done == all[..token * PageSize]
      && (forall n :: n in done ==> n in all)
      && cur.Listing(src.Region, src.Name) == all
      && WroteOnly(st, cur, PathTargets(all, newPath, src, dst))
      && CopiedNames(st, done, newPath, src, dst, cur)
  }

  /** `copyPathToPath` stopping at a failure keeps its promise. */
  lemma PathCopyStops(st: Store, cur: Store, token: nat, done: seq<string>,
                      newPath: bool, src: ParameterPath, dst: ParameterPath, err: Option<Error>)
    requires cur.Valid() && cur.down == st.down && CopyLog(st.log, cur.log, dst.Region)
    requires src.Region in st.down ==> cur == st && err == Some(Service(Unavailable(src.Region)))
    requires PathCopyProgress(st, cur, token, done, newPath, src, dst) && err.Some?
    ensures CopiedPath(st, src, dst, newPath, cur, err)
  {
  }

  /** One page of `copyPathToPath` keeps its promise when it fails or is the
      last, and otherwise moves the progress on to the next page. */
  lemma PathCopyStep(st: Store, cur: Store, next: Store, err: Option<Error>, token: nat, done: seq<string>,
                     newPath: bool, src: ParameterPath, dst: ParameterPath)
    requires st.Valid() && src.Region !in st.down
    requires next.Valid() && next.down == st.down && CopyLog(st.log, next.log, dst.Region)
    requires PathCopyProgress(st, cur, token, done, newPath, src, dst)
    requires var items := PageOf(cur.Listing(src.Region, src.Name), token, PageSize).items;
             && (forall n :: n in items ==> Cullable(n, src.Name))
             && WroteOnly(cur, next, PathTargets(items, newPath, src, dst))
             && (err.None? && NamesSeparate(items, newPath, src, dst) ==> CopiedNames(cur, items, newPath, src, dst, next))
    ensures var page := PageOf(cur.Listing(src.Region, src.Name), token, PageSize);
            && (err.Some? || page.next.None? ==> CopiedPath(st, src, dst, newPath, next, err))
            && (err.None? && page.next.Some? ==> PathCopyProgress(st, next, token + 1, done + page.items, newPath, src, dst))
  {
    var all := st.Listing(src.Region, src.Name);
    if NamesSeparate(all, newPath, src, dst) {
      PageOfSeparate(st, cur, next, err, token, done, newPath, src, dst);
    }
  }

  /** One page of `copyPathToPath` over names that do not disturb each other:
      the listing stays as it was, the writes stay within the destinations,
      and the names copied so far keep their copies. */
  lemma PageOfSeparate(st: Store, cur: Store, next: Store, err: Option<Error>, token: nat, done: seq<string>,
                       newPath: bool, src: ParameterPath, dst: ParameterPath)
    requires st.Valid()
    requires NamesSeparate(st.Listing(src.Region, src.Name), newPath, src, dst)
    requires var all := st.Listing(src.Region, src.Name);
             && token * PageSize <= |all| && done == all[..token * PageSize]
             && cur.Listing(src.Region, src.Name) == all
             && WroteOnly(st, cur, PathTargets(all, newPath, src, dst))
             && CopiedNames(st, done, newPath, src, dst, cur)
    requires var items := PageOf(st.Listing(src.Region, src.Name), token, PageSize).items;
             && (forall n :: n in items ==> Cullable(n, src.Name))
             && WroteOnly(cur, next, PathTargets(items, newPath, src, dst))
             && (err.None? && NamesSeparate(items, newPath, src, dst) ==> CopiedNames(cur, items, newPath, src, dst, next))
    ensures var all := st.Listing(src.Region, src.Name);
            var page := PageOf(all, token, PageSize);
            && next.Listing(src.Region, src.Name) == all
            && WroteOnly(st, next, PathTargets(all, newPath, src, dst))
            && done + page.items == (if page.next.None? then all else all[..(token + 1) * PageSize])
            && (err.None? ==> CopiedNames(st, done + page.items, newPath, src, dst, next))
  {
    var all := st.Listing(src.Region, src.Name);
    var page := PageOf(all, token, PageSize);
    var items := page.items;
    var targets := PathTargets(items, newPath, src, dst);
    var allTargets := PathTargets(all, newPath, src, dst);
    assert targets <= allTargets;
    WroteOnlyTrans(st, cur, next, allTargets, targets, allTargets);
    ListingKept(cur, next, targets, src.Region, src.Name);
    PageExtends(all, token, PageSize);
    if err.None? {
      assert forall n :: n in done ==> n in all;
      NamesSeparateWithin(all, items, newPath, src, dst);
      assert CopiedNames(cur, items, newPath, src, dst, next);
      NamesKept(st, cur, next, all, done, items, newPath, src, dst);
    }
  }

  /** Names taken from names that do not disturb each other do not either. */
  lemma NamesSeparateWithin(all: seq<string>, items: seq<string>, newPath: bool, src: ParameterPath, dst: ParameterPath)
    requires NamesSeparate(all, newPath, src, dst) && forall n :: n in items ==> n in all
    ensures NamesSeparate(items, newPath, src, dst)
  {
  }

  /** The copies of a page join the copies made before it without spoiling
      them: they read sources nothing has written, and write where no earlier
      copy lies. */
  lemma NamesKept(st: Store, cur: Store, next: Store, all: seq<string>, done: seq<string>, items: seq<string>,
                  newPath: bool, src: ParameterPath, dst: ParameterPath)
    requires NamesSeparate(all, newPath, src, dst)
    requires forall n :: n in done ==> n in all
    requires forall n :: n in items ==> n in all
    requires WroteOnly(st, cur, PathTargets(all, newPath, src, dst))
    requires CopiedNames(st, done, newPath, src, dst, cur)
    requires WroteOnly(cur, next, PathTargets(items, newPath, src, dst))
    requires CopiedNames(cur, items, newPath, src, dst, next)
    ensures CopiedNames(st, done + items, newPath, src, dst, next)
  {
    forall n | n in done + items
      ensures HoldsCopy(st, ParameterPath(n, src.Region), next, PathTarget(n, newPath, src, dst))
    {
      if n in items {
        FreshCopyKept(st, cur, next, all, n, newPath, src, dst);
      } else {
        EarlierCopyKept(st, cur, next, all, items, n, newPath, src, dst);
      }
    }
  }

  /** A copy made from `cur` reads a source that no write since `st` touched. */
  lemma FreshCopyKept(st: Store, cur: Store, next: Store, all: seq<string>, n: string,
                      newPath: bool, src: ParameterPath, dst: ParameterPath)
    requires NamesSeparate(all, newPath, src, dst) && n in all
    requires WroteOnly(st, cur, PathTargets(all, newPath, src, dst))
    requires HoldsCopy(cur, ParameterPath(n, src.Region), next, PathTarget(n, newPath, src, dst))
    ensures HoldsCopy(st, ParameterPath(n, src.Region), next, PathTarget(n, newPath, src, dst))
  {
    assert ParameterPath(n, src.Region) !in PathTargets(all, newPath, src, dst);
  }

  /** A copy made before the page is not written over by the page. */
  lemma EarlierCopyKept(st: Store, cur: Store, next: Store, all: seq<string>, items: seq<string>, n: string,
                        newPath: bool, src: ParameterPath, dst: ParameterPath)
    requires NamesSeparate(all, newPath, src, dst) && n in all && n !in items
    requires forall m :: m in items ==> m in all
    requires WroteOnly(cur, next, PathTargets(items, newPath, src, dst))
    requires HoldsCopy(st, ParameterPath(n, src.Region), cur, PathTarget(n, newPath, src, dst))
    ensures HoldsCopy(st, ParameterPath(n, src.Region), next, PathTarget(n, newPath, src, dst))
  {
    forall m | m in items
      ensures PathTarget(m, newPath, src, dst) != PathTarget(n, newPath, src, dst)
    {
      if PathTarget(m, newPath, src, dst) == PathTarget(n, newPath, src, dst) {
        PathTargetInjective(m, n, newPath, src, dst);
      }
    }
    assert PathTarget(n, newPath, src, dst) !in PathTargets(items, newPath, src, dst);
    CopyOutsideKept(st, ParameterPath(n, src.Region), cur, next, PathTarget(n, newPath, src, dst),
                    PathTargets(items, newPath, src, dst));
  }

  lemma LastSegmentOf(prefix: string, seg: string)
    requires Delimiter !in seg
    ensures LastSegment(prefix + [Delimiter] + seg) == seg
  {
    SplitAppend(prefix, seg, Delimiter);
    SplitNoSeparator(seg, Delimiter);
  }

  /** As written, a parameter copied into the root is named with a doubled
      leading separator, which is not a canonical name. */
  lemma ToPathNameAsWrittenAtRoot(src: string)
    ensures !IsCleanAbsolute(ToPathNameAsWritten(src, [Delimiter]))
  {
    var p := ToPathNameAsWritten(src, [Delimiter]);
    assert p[1..] == [] + [Delimiter] + LastSegment(src);
    SplitAppend([], LastSegment(src), Delimiter);
    assert Split(p[1..], Delimiter)[0] == "";
  }

  /** The destination below a canonical path is canonical and ends in the
      source's last segment. */
  lemma ToPathNameCanonical(src: string, dst: string)
    requires IsCleanAbsolute(dst) && GoodSegment(LastSegment(src))
    ensures IsCleanAbsolute(ToPathName(src, dst))
    ensures LastSegment(ToPathName(src, dst)) == LastSegment(src)
  {
    var seg := LastSegment(src);
    var p := ToPathName(src, dst);
    if dst == [Delimiter] {
      assert p == [] + [Delimiter] + seg;
      SplitNoSeparator(seg, Delimiter);
      assert p[1..] == seg;
    } else {
      assert p[1..] == dst[1..] + [Delimiter] + seg;
      SplitAppend(dst[1..], seg, Delimiter);
      SplitNoSeparator(seg, Delimiter);
    }
    LastSegmentOf(if dst == [Delimiter] then [] else dst, seg);
  }

  /** As written, copying the root drops the first character of each name's
      first segment, so parameters in different top-level paths collide, on a
      name with a doubled separator. */
  lemma RootCopyCollidesAsWritten(a: string, b: string)
    requires a == "/a/x" && b == "/b/x"
    ensures DestinationNameAsWritten(a, true, [Delimiter], "/backup") == DestinationNameAsWritten(b, true, [Delimiter], "/backup")
    ensures DestinationNameAsWritten(a, true, [Delimiter], "/backup") == "/backup//x"
  {
    assert a[2..] == "/x" == b[2..];
    JoinPair("/backup", "/x", Delimiter);
  }

  /** As written, copying the root into an existing path adds the root's empty
      last segment, so the destination holds a run of separators. */
  lemma RootCopyIntoPathAsWritten(a: string)
    requires a == "/a/x"
    ensures DestinationNameAsWritten(a, false, [Delimiter], "/backup") == "/backup///x"
  {
    assert Split([Delimiter], Delimiter) == ["", ""];
    assert LastSegment([Delimiter]) == "";
    assert a[2..] == "/x";
    JoinTriple("/backup", "", "/x", Delimiter);
  }

  /** A name below a source path is renamed to the part below the source,
      placed below the destination, or below the destination and the
      source's last segment when the destination exists already. */
  lemma DestinationOfChild(src: string, rel: string, newPath: bool, dst: string)
    requires src != [Delimiter]
    ensures var d := if dst == [Delimiter] then "" else dst;
            DestinationName(src + [Delimiter] + rel, newPath, src, dst) ==
            if newPath then d + [Delimiter] + rel else d + [Delimiter] + LastSegment(src) + [Delimiter] + rel
  {
    var name := src + [Delimiter] + rel;
    var d := if dst == [Delimiter] then "" else dst;
    assert Relative(name, src) == rel;
    JoinPair(d, rel, Delimiter);
    JoinTriple(d, LastSegment(src), rel, Delimiter);
  }

  /** Copying the root renames a name to itself below the destination: the
      root adds no segment, whether or not the destination exists, so a
      canonical name other than the root stays canonical below a canonical
      destination. */
  lemma DestinationOfRootChild(rel: string, newPath: bool, dst: string)
    ensures var d := if dst == [Delimiter] then "" else dst;
            DestinationName([Delimiter] + rel, newPath, [Delimiter], dst) == d + [Delimiter] + rel
    ensures IsCleanAbsolute(dst) && IsCleanAbsolute([Delimiter] + rel) && rel != "" ==>
              IsCleanAbsolute(DestinationName([Delimiter] + rel, newPath, [Delimiter], dst))
  {
    var name := [Delimiter] + rel;
    var d := if dst == [Delimiter] then "" else dst;
    assert Relative(name, [Delimiter]) == rel;
    JoinPair(d, rel, Delimiter);
    if IsCleanAbsolute(dst) && IsCleanAbsolute(name) && rel != "" && dst != [Delimiter] {
      var p := d + [Delimiter] + rel;
      assert p[1..] == dst[1..] + [Delimiter] + rel;
      assert name[1..] == rel;
      SplitAppend(dst[1..], rel, Delimiter);
      var segs := Split(dst[1..], Delimiter) + Split(rel, Delimiter);
      assert AllGood(segs) by {
        forall i | 0 <= i < |segs|
          ensures GoodSegment(segs[i])
        {
          if i >= |Split(dst[1..], Delimiter)| {
            assert segs[i] == Split(rel, Delimiter)[i - |Split(dst[1..], Delimiter)|];
          }
        }
      }
    }
  }

  /** Off the root the corrected renaming is the one written. */
  lemma DestinationNameAgreesOffRoot(name: string, newPath: bool, src: string, dst: string)
    requires src != [Delimiter] && |name| >= |src| + 1
    ensures DestinationName(name, newPath, src, dst) == DestinationNameAsWritten(name, newPath, src, dst)
  {
  }

  /** Below any destination but the root the corrected name is the one written. */
  lemma ToPathNameAgreesOffRoot(src: string, dst: string)
    requires dst != [Delimiter]
    ensures ToPathName(src, dst) == ToPathNameAsWritten(src, dst)
  {
  }

  /** Distinct names below the source get distinct destinations (below the
      root, names that begin with the separator). */
  lemma DestinationNameInjective(n1: string, n2: string, newPath: bool, src: string, dst: string)
    requires src == [Delimiter] ==> IsAbsolute(n1) && IsAbsolute(n2)
    requires src != [Delimiter] ==> HasPrefix(n1, src + [Delimiter]) && HasPrefix(n2, src + [Delimiter])
    requires Cullable(n1, src) && Cullable(n2, src)
    requires DestinationName(n1, newPath, src, dst) == DestinationName(n2, newPath, src, dst)
    ensures n1 == n2
  {
    var d := if dst == [Delimiter] then "" else dst;
    var r1, r2 := Relative(n1, src), Relative(n2, src);
    var head := if newPath || src == [Delimiter] then d + [Delimiter] else d + [Delimiter] + LastSegment(src) + [Delimiter];
    JoinPair(d, r1, Delimiter);
    JoinPair(d, r2, Delimiter);
    JoinTriple(d, LastSegment(src), r1, Delimiter);
    JoinTriple(d, LastSegment(src), r2, Delimiter);
    assert DestinationName(n1, newPath, src, dst) == head + r1;
    assert DestinationName(n2, newPath, src, dst) == head + r2;
    assert r1 == (head + r1)[|head|..];
    assert r2 == (head + r2)[|head|..];
    if src == [Delimiter] {
      assert n1 == [Delimiter] + r1;
      assert n2 == [Delimiter] + r2;
    } else {
      assert n1 == n1[..|src| + 1] + r1;
      assert n2 == n2[..|src| + 1] + r2;
    }
  }

  /** Earlier first occurrences come first: extending the input only appends
      to the result. */
  lemma {:induction false} DedupPrefix(xs: seq<string>, ys: seq<string>)
    ensures Dedup(xs) <= Dedup(xs + ys)
    decreases |ys|
  {
    if ys == [] {
      assert xs + ys == xs;
    } else {
      var init := ys[..|ys| - 1];
      DedupPrefix(xs, init);
      assert (xs + ys)[..|xs + ys| - 1] == xs + init;
    }
  }

  /** A listing without repetitions passes unchanged. */
  lemma {:induction false} DedupOfDistinct(xs: seq<string>)
    requires NoDuplicates(xs)
    ensures Dedup(xs) == xs
  {
    if xs != [] {
      var init := xs[..|xs| - 1];
      assert NoDuplicates(init);
      DedupOfDistinct(init);
      assert xs[|xs| - 1] !in init;
    }
  }

  lemma RelativeOfChild(relative: string, s: string)
    requires relative != [Delimiter]
    ensures Cullable(relative + [Delimiter] + s, relative)
    ensures Relative(relative + [Delimiter] + s, relative) == s
  {
    assert (relative + [Delimiter] + s)[|relative| + 1..] == s;
  }

  /** Below the root, a leading separator is dropped and a top-level name
      without one is kept whole. */
  lemma RelativeAtRoot(s: string)
    ensures Relative([Delimiter] + s, [Delimiter]) == s
    ensures s != [] && s[0] != Delimiter ==> Relative(s, [Delimiter]) == s
  {
  }

  /** A name with no further separator below the prefix is its own entry. */
  lemma EntryLeaf(p: string, relative: string)
    requires Cullable(p, relative) && Delimiter !in Relative(p, relative)
    ensures Entry(p, relative) == Relative(p, relative)
  {
    SplitNoSeparator(Relative(p, relative), Delimiter);
  }

  /** A deeper name's entry is its first segment and a separator. */
  lemma EntryBranch(p: string, relative: string, seg: string, rest: string)
    requires Cullable(p, relative) && Relative(p, relative) == seg + [Delimiter] + rest && Delimiter !in seg
    ensures Entry(p, relative) == seg + [Delimiter]
  {
    SplitAppend(seg, rest, Delimiter);
    SplitNoSeparator(seg, Delimiter);
  }

  lemma EntryOfLeafChild(relative: string, seg: string)
    requires relative != [Delimiter] && Delimiter !in seg
    ensures Cullable(relative + [Delimiter] + seg, relative)
    ensures Entry(relative + [Delimiter] + seg, relative) == seg
  {
    RelativeOfChild(relative, seg);
    EntryLeaf(relative + [Delimiter] + seg, relative);
  }

  lemma EntryOfDeeperChild(relative: string, seg: string, rest: string)
    requires relative != [Delimiter] && Delimiter !in seg
    ensures Cullable(relative + [Delimiter] + seg + [Delimiter] + rest, relative)
    ensures Entry(relative + [Delimiter] + seg + [Delimiter] + rest, relative) == seg + [Delimiter]
  {
    var p := relative + [Delimiter] + seg + [Delimiter] + rest;
    assert p == relative + [Delimiter] + (seg + [Delimiter] + rest);
    RelativeOfChild(relative, seg + [Delimiter] + rest);
    EntryBranch(p, relative, seg, rest);
  }

  /** Entries of four children of `relative`, the last of them a sub-path. */
  lemma EntriesOfChildren(relative: string, a: string, b: string, c: string, d: string, rest: string)
    requires relative != [Delimiter]
    requires Delimiter !in a && Delimiter !in b && Delimiter !in c && Delimiter !in d
    ensures var paths := [relative + [Delimiter] + a, relative + [Delimiter] + b,
                          relative + [Delimiter] + c, relative + [Delimiter] + d + [Delimiter] + rest];
            (forall i :: 0 <= i < |paths| ==> Cullable(paths[i], relative)) &&
            Entries(paths, relative) == [a, b, c, d + [Delimiter]]
  {
    EntryOfLeafChild(relative, a);
    EntryOfLeafChild(relative, b);
    EntryOfLeafChild(relative, c);
    EntryOfDeeperChild(relative, d, rest);
  }

  lemma EntriesExample(paths: seq<string>, relative: string)
    requires relative == "/dev/db"
    requires paths == ["/dev/db/name", "/dev/db/username", "/dev/db/password", "/dev/db/test/port"]
    ensures forall i :: 0 <= i < |paths| ==> Cullable(paths[i], relative)
    ensures Entries(paths, relative) == ["name", "username", "password", "test/"]
  {
    assert paths == [relative + [Delimiter] + "name", relative + [Delimiter] + "username",
                     relative + [Delimiter] + "password", relative + [Delimiter] + "test" + [Delimiter] + "port"] by {
      assert paths[0] == relative + [Delimiter] + "name";
      assert paths[1] == relative + [Delimiter] + "username";
      assert paths[2] == relative + [Delimiter] + "password";
      assert paths[3] == relative + [Delimiter] + "test" + [Delimiter] + "port";
    }
    assert Delimiter !in "name" && Delimiter !in "username" && Delimiter !in "password" && Delimiter !in "test";
    EntriesOfChildren(relative, "name", "username", "password", "test", "port");
    assert "test" + [Delimiter] == "test/";
  }

  lemma DedupExample(xs: seq<string>)
    requires xs == ["name", "username", "password", "test/"]
    ensures Dedup(xs) == xs
  {
    assert NoDuplicates(xs) by {
      forall i, j | 0 <= i < j < |xs|
        ensures xs[i] != xs[j]
      {
        assert xs[i][0] != xs[j][0] || |xs[i]| != |xs[j]|;
      }
    }
    DedupOfDistinct(xs);
  }

  /** The one-level listing of `/dev/db` from the shell's own test data. */
  lemma CullExample(paths: seq<string>, relative: string)
    requires relative == "/dev/db"
    requires paths == ["/dev/db/name", "/dev/db/username", "/dev/db/password", "/dev/db/test/port"]
    ensures forall i :: 0 <= i < |paths| ==> Cullable(paths[i], relative)
    ensures CullOf(paths, relative) == ["name", "username", "password", "test/"]
  {
    EntriesExample(paths, relative);
    DedupExample(Entries(paths, relative));
  }

  /** With only `/prod/db/username` in the service, `/prod` is a path that
      `SetCwd` may enter (when its region answers) and `/nodir` is not. */
  lemma CwdTestPaths(st: Store, region: string)
    requires st.Valid() && st.order == [ParameterPath("/prod/db/username", region)]
    ensures IsPathIn(st, ParameterPath("/prod", region)) <==> region !in st.down
    ensures !IsPathIn(st, ParameterPath("/nodir", region))
  {
    var only := ParameterPath("/prod/db/username", region);
    assert only.Name[..6] == "/prod/";
    assert only.Name[..7] == "/prod/d" != "/nodir/";
    assert st.order[1..] == [];
  }
}
