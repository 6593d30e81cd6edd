/** The shell's argument helpers (commands/commands.go): taking the recursion
    flag out of an argument list, splitting a `region:name` argument, grouping
    parameters by region and trimming arguments. Go slices that the helpers
    edit in place are arrays here. */
module Commands {
  import opened Wrappers
  import opened Strings
  import opened Remote
  import ParameterStore

  /** The flag asking for recursion; it matches ignoring case, so `-R` too. */
  const RecursionFlag: string := "-r"

  /** The separator between a region and a name in an argument. */
  const RegionSeparator: char := ':'

  /** `s` without its element at `i`, the others keeping their order. */
  function Without<T>(s: seq<T>, i: nat): (r: seq<T>)
    requires i < |s|
    ensures |r| == |s| - 1
    ensures forall k :: 0 <= k < i ==> r[k] == s[k]
    ensures forall k :: i <= k < |r| ==> r[k] == s[k + 1]
  {
    s[..i] + s[i + 1..]
  }

  /** Dropping one element loses exactly that element. */
  lemma WithoutMultiset<T>(s: seq<T>, i: nat)
    requires i < |s|
    ensures multiset(Without(s, i)) + multiset{s[i]} == multiset(s)
  {
    assert s == s[..i] + [s[i]] + s[i + 1..];
  }

  /** `remove`: `append(slice[:i], slice[i+1:]...)` moves the elements after `i`
      one place down in the slice's own backing array and returns the slice
      one shorter; the old last slot keeps its value. */
  method Remove(slice: array<string>, i: nat) returns (n: nat)
    requires i < slice.Length
    modifies slice
    ensures n == slice.Length - 1
    ensures slice[..n] == Without(old(slice[..]), i)
    ensures slice[n] == old(slice[n])
  {
    var k := i;
    while k < slice.Length - 1
      invariant i <= k <= slice.Length - 1
      invariant forall j :: 0 <= j < i ==> slice[j] == old(slice[j])
      invariant forall j :: i <= j < k ==> slice[j] == old(slice[j + 1])
      invariant forall j :: k <= j < slice.Length ==> slice[j] == old(slice[j])
    {
      slice[k] := slice[k + 1];
      k := k + 1;
    }
    n := slice.Length - 1;
  }

  /** The index of the first recursion flag in `s`, if there is one. */
  function FirstFlag(s: seq<string>): (r: Option<nat>)
    ensures r.Some? ==> r.value < |s| && EqualFold(s[r.value], RecursionFlag)
    ensures r.Some? ==> forall k :: 0 <= k < r.value ==> !EqualFold(s[k], RecursionFlag)
    ensures r.None? <==> forall k :: 0 <= k < |s| ==> !EqualFold(s[k], RecursionFlag)
  {
    if s == [] then None
    else if EqualFold(s[0], RecursionFlag) then Some(0)
    else match FirstFlag(s[1..])
      case None => None
      case Some(k) => Some(k + 1)
  }

  /** `checkRecursion`: the first argument equal to `-r` ignoring case is removed
      (in place) and recursion is reported; with no such argument, the
      arguments stay as they are and no recursion is reported. */
  method CheckRecursion(paths: array<string>) returns (n: nat, recurse: bool)
    modifies paths
    ensures recurse <==> FirstFlag(old(paths[..])).Some?
    ensures !recurse ==> n == paths.Length && paths[..] == old(paths[..])
    ensures recurse ==> n == paths.Length - 1
    ensures recurse ==> paths[..n] == Without(old(paths[..]), FirstFlag(old(paths[..])).value)
  {
    for i := 0 to paths.Length
      invariant forall k :: 0 <= k < i ==> !EqualFold(paths[k], RecursionFlag)
    {
      if EqualFold(paths[i], RecursionFlag) {
        assert FirstFlag(paths[..]) == Some(i);
        n := Remove(paths, i);
        recurse := true;
        return;
      }
    }
    n, recurse := paths.Length, false;
  }

  /** `parsePath`'s split: with no separator the whole argument is the name, in
      `defaultRegion`; with one separator the text before it is the region and
      the text after it the name; with more, both are empty. */
  function SplitRegion(path: string, defaultRegion: string): ParameterPath
  {
    var parts := Split(path, RegionSeparator);
    if |parts| == 1 then ParameterPath(parts[0], defaultRegion)
    else if |parts| == 2 then ParameterPath(parts[1], parts[0])
    else ParameterPath("", "")
  }

  lemma {:induction false} CountZero(s: string, c: char)
    ensures Count(s, c) == 0 <==> c !in s
  {
    if s != [] {
      CountZero(s[1..], c);
      assert s == [s[0]] + s[1..];
    }
  }

  /** An argument without a separator names a parameter in the default region. */
  lemma SplitRegionPlain(path: string, defaultRegion: string)
    requires RegionSeparator !in path
    ensures SplitRegion(path, defaultRegion) == ParameterPath(path, defaultRegion)
  {
    SplitNoSeparator(path, RegionSeparator);
  }

  /** `region:name` names `name` in `region`, whatever `name` looks like: nothing
      demands that it start with the path delimiter. */
  lemma SplitRegionQualified(region: string, name: string, defaultRegion: string)
    requires RegionSeparator !in region && RegionSeparator !in name
    ensures SplitRegion(region + [RegionSeparator] + name, defaultRegion) == ParameterPath(name, region)
  {
    SplitAppend(region, name, RegionSeparator);
    SplitNoSeparator(region, RegionSeparator);
    SplitNoSeparator(name, RegionSeparator);
  }

  /** Two or more separators give an empty name and an empty region. */
  lemma SplitRegionAmbiguous(path: string, defaultRegion: string)
    requires Count(path, RegionSeparator) >= 2
    ensures SplitRegion(path, defaultRegion) == ParameterPath("", "")
  {
  }

  /** The three cases together: the result depends only on how many separators
      the argument holds. */
  lemma SplitRegionCases(path: string, defaultRegion: string)
    ensures RegionSeparator !in path ==> SplitRegion(path, defaultRegion) == ParameterPath(path, defaultRegion)
    ensures Count(path, RegionSeparator) == 1 ==>
              var pp := SplitRegion(path, defaultRegion);
              RegionSeparator !in pp.Name && RegionSeparator !in pp.Region && path == pp.Region + [RegionSeparator] + pp.Name
    ensures Count(path, RegionSeparator) >= 2 ==> SplitRegion(path, defaultRegion) == ParameterPath("", "")
  {
    CountZero(path, RegionSeparator);
    if RegionSeparator !in path {
      SplitRegionPlain(path, defaultRegion);
    }
    JoinSplit(path, RegionSeparator);
    var parts := Split(path, RegionSeparator);
    if |parts| == 2 {
      JoinPair(parts[0], parts[1], RegionSeparator);
    }
  }

  /** `parsePath`: splits the argument, then makes sure a client exists for the
      region it names (a client already there is kept). */
  method ParsePath(ps: ParameterStore.ParameterStore, path: string) returns (parameterPath: ParameterPath)
    modifies ps
    ensures parameterPath == SplitRegion(path, old(ps.Region))
    ensures parameterPath.Region in ps.Clients
    ensures old(parameterPath.Region in ps.Clients) ==> ps.Clients == old(ps.Clients)
    ensures !old(parameterPath.Region in ps.Clients) ==>
              ps.Clients == old(ps.Clients)[parameterPath.Region := ParameterStore.Client(parameterPath.Region, ps.Profile)]
    ensures ps.Confirm == old(ps.Confirm) && ps.Cwd == old(ps.Cwd) && ps.Decrypt == old(ps.Decrypt)
    ensures ps.Key == old(ps.Key) && ps.Region == old(ps.Region) && ps.Profile == old(ps.Profile)
  {
    var pathParts := Split(path, RegionSeparator);
    parameterPath := ParameterPath("", "");
    if |pathParts| == 1 {
      parameterPath := ParameterPath(pathParts[0], ps.Region);
    } else if |pathParts| == 2 {
      parameterPath := ParameterPath(pathParts[1], pathParts[0]);
    }
    ps.InitClient(parameterPath.Region);
  }

  /** `groupByRegion`: the regions present in `params` are exactly the keys, and
      each region holds the names of its parameters in input order. */
  method GroupByRegion(params: seq<ParameterPath>) returns (paramsByRegion: map<string, seq<string>>)
    ensures forall r :: r in paramsByRegion <==> exists i :: 0 <= i < |params| && params[i].Region == r
    ensures forall r :: r in paramsByRegion ==> paramsByRegion[r] == ParameterStore.NamesIn(params, r)
  {
    paramsByRegion := map[];
    for i := 0 to |params|
      invariant GroupedUpTo(params, i, paramsByRegion)
    {
      var p := params[i];
      var before := paramsByRegion;
      paramsByRegion := paramsByRegion[p.Region := (if p.Region in paramsByRegion then paramsByRegion[p.Region] else []) + [p.Name]];
      GroupStep(params, i, before, paramsByRegion);
    }
    assert params[..|params|] == params;
  }

  /** The loop invariant of `groupByRegion` after `i` parameters. */
  ghost predicate GroupedUpTo(params: seq<ParameterPath>, i: nat, m: map<string, seq<string>>)
    requires i <= |params|
  {
    (forall r :: r in m <==> exists k :: 0 <= k < i && params[k].Region == r) &&
    (forall r :: r in m ==> m[r] == ParameterStore.NamesIn(params[..i], r)) &&
    (forall r :: r !in m ==> ParameterStore.NamesIn(params[..i], r) == [])
  }

  lemma GroupStep(params: seq<ParameterPath>, i: nat, before: map<string, seq<string>>, after: map<string, seq<string>>)
    requires i < |params| && GroupedUpTo(params, i, before)
    requires after == before[params[i].Region := (if params[i].Region in before then before[params[i].Region] else []) + [params[i].Name]]
    ensures GroupedUpTo(params, i + 1, after)
  {
    forall r
      ensures ParameterStore.NamesIn(params[..i + 1], r)
              == ParameterStore.NamesIn(params[..i], r) + (if params[i].Region == r then [params[i].Name] else [])
    {
      NamesInSnoc(params, i, r);
    }
  }

  lemma NamesInSnoc(params: seq<ParameterPath>, i: nat, r: string)
    requires i < |params|
    ensures ParameterStore.NamesIn(params[..i + 1], r)
            == ParameterStore.NamesIn(params[..i], r) + (if params[i].Region == r then [params[i].Name] else [])
  {
    assert params[..i + 1][..i] == params[..i];
  }

  /** Every element of `xs` without its surrounding white space. */
  function TrimAll(xs: seq<string>): (r: seq<string>)
    ensures |r| == |xs|
    ensures forall i :: 0 <= i < |xs| ==> r[i] == TrimSpace(xs[i])
  {
    seq(|xs|, i requires 0 <= i < |xs| => TrimSpace(xs[i]))
  }

  /** `trim`: one element per argument, each without its surrounding white space. */
  method Trim(with: seq<string>) returns (without: seq<string>)
    ensures without == TrimAll(with)
  {
    without := [];
    for i := 0 to |with|
      invariant |without| == i
      invariant forall k :: 0 <= k < i ==> without[k] == TrimSpace(with[k])
    {
      without := without + [TrimSpace(with[i])];
    }
    assert without == TrimAll(with);
  }

  /** Trimming trimmed arguments changes nothing. */
  lemma TrimTwice(with: seq<string>)
    ensures TrimAll(TrimAll(with)) == TrimAll(with)
  {
    forall i | 0 <= i < |with|
      ensures TrimSpace(TrimSpace(with[i])) == TrimSpace(with[i])
    {
      TrimSpaceIdempotent(with[i]);
    }
  }
}
