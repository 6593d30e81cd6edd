/** Path resolution (parameterstore.go `fqp`): a user-supplied name is made
    absolute against the current working directory and then cleaned lexically,
    as Go's `filepath.Clean` does on Unix. */
module Paths {
  import opened Strings

  /** `parameterstore.Delimiter`, the separator of the parameter hierarchy. */
  const Delimiter: char := '/'

  predicate IsAbsolute(p: string)
  {
    |p| > 0 && p[0] == Delimiter
  }

  /** A segment a clean path may hold: not empty, no separator, not `.` or `..`. */
  predicate GoodSegment(seg: string)
  {
    seg != "" && seg != "." && seg != ".." && Delimiter !in seg
  }

  predicate AllGood(segs: seq<string>)
  {
    forall i :: 0 <= i < |segs| ==> GoodSegment(segs[i])
  }

  /** The canonical form of an absolute path: `/` itself, or `/` followed by good
      segments joined by single separators (so no `//`, no `.`, no `..` and no
      trailing separator). */
  predicate IsCleanAbsolute(p: string)
  {
    IsAbsolute(p) && (p == [Delimiter] || AllGood(Split(p[1..], Delimiter)))
  }

  /** One step of `filepath.Clean`'s scan: empty and `.` segments vanish, `..`
      removes the previous real segment, and is dropped at the root of a rooted
      path or kept at the front of a relative one. */
  function Step(stack: seq<string>, seg: string, rooted: bool): seq<string>
  {
    if seg == "" || seg == "." then stack
    else if seg == ".." then
      if |stack| > 0 && stack[|stack| - 1] != ".." then stack[..|stack| - 1]
      else if rooted then stack
      else stack + [".."]
    else stack + [seg]
  }

  function Resolve(segs: seq<string>, stack: seq<string>, rooted: bool): seq<string>
    decreases |segs|
  {
    if segs == [] then stack else Resolve(segs[1..], Step(stack, segs[0], rooted), rooted)
  }

  /** Go's `filepath.Clean` with Unix semantics. */
  function Clean(p: string): string
  {
    if p == "" then "."
    else
      var rooted := p[0] == Delimiter;
      var segs := Resolve(Split(p, Delimiter), [], rooted);
      if rooted then [Delimiter] + Join(segs, Delimiter)
      else if segs == [] then "."
      else Join(segs, Delimiter)
  }

  /** `fqp`: a name beginning with the separator is taken as it is, any other is
      appended to `cwd`; the result is cleaned. */
  function Fqp(path: string, cwd: string): string
  {
    if HasPrefix(path, [Delimiter]) then Clean(path)
    else Clean(cwd + [Delimiter] + path)
  }

  lemma {:induction false} ResolveRootedGood(segs: seq<string>, stack: seq<string>)
    requires AllGood(stack)
    requires forall i :: 0 <= i < |segs| ==> Delimiter !in segs[i]
    ensures AllGood(Resolve(segs, stack, true))
    decreases |segs|
  {
    if segs != [] {
      ResolveRootedGood(segs[1..], Step(stack, segs[0], true));
    }
  }

  lemma {:induction false} ResolveGoodSegments(segs: seq<string>, stack: seq<string>, rooted: bool)
    requires AllGood(segs)
    ensures Resolve(segs, stack, rooted) == stack + segs
    decreases |segs|
  {
    if segs != [] {
      ResolveGoodSegments(segs[1..], stack + [segs[0]], rooted);
      assert stack + [segs[0]] + segs[1..] == stack + segs;
    }
  }

  /** A separator followed by good segments is a clean absolute path. */
  lemma CleanAbsoluteOfSegments(segs: seq<string>)
    requires AllGood(segs)
    ensures IsCleanAbsolute([Delimiter] + Join(segs, Delimiter))
  {
    var p := [Delimiter] + Join(segs, Delimiter);
    if segs != [] {
      assert p[1..] == Join(segs, Delimiter);
      SplitJoin(segs, Delimiter);
      if p == [Delimiter] {
        assert Join(segs, Delimiter) == "";
        assert Split("", Delimiter) == [""];
      }
    }
  }

  /** Cleaning a rooted path always yields a clean absolute path. */
  lemma CleanIsCanonical(p: string)
    requires IsAbsolute(p)
    ensures IsCleanAbsolute(Clean(p))
  {
    ResolveRootedGood(Split(p, Delimiter), []);
    CleanAbsoluteOfSegments(Resolve(Split(p, Delimiter), [], true));
  }

  /** A clean absolute path is left alone by `Clean`. */
  lemma CleanFixesCanonical(p: string)
    requires IsCleanAbsolute(p)
    ensures Clean(p) == p
  {
    if p == [Delimiter] {
      assert Split(p, Delimiter) == ["", ""];
      assert Resolve(["", ""], [], true) == Resolve([""], [], true) == [];
    } else {
      var q := p[1..];
      var segs := Split(q, Delimiter);
      assert p == [] + [Delimiter] + q;
      SplitAppend([], q, Delimiter);
      assert Split(p, Delimiter) == [""] + segs;
      assert Resolve([""] + segs, [], true) == Resolve(segs, [], true);
      ResolveGoodSegments(segs, [], true);
      assert [] + segs == segs;
      JoinSplit(q, Delimiter);
    }
  }

  /** `Clean` is idempotent on rooted paths. */
  lemma CleanIdempotent(p: string)
    requires IsAbsolute(p)
    ensures Clean(Clean(p)) == Clean(p)
  {
    CleanIsCanonical(p);
    CleanFixesCanonical(Clean(p));
  }

  /** With an absolute working directory, `fqp` always yields a clean absolute
      path: it starts with the separator, has no empty, `.` or `..` segment, and
      has no trailing separator unless it is the root. */
  lemma FqpIsCanonical(path: string, cwd: string)
    requires IsAbsolute(cwd)
    ensures IsCleanAbsolute(Fqp(path, cwd))
  {
    if HasPrefix(path, [Delimiter]) {
      CleanIsCanonical(path);
    } else {
      assert (cwd + [Delimiter] + path)[0] == cwd[0];
      CleanIsCanonical(cwd + [Delimiter] + path);
    }
  }

  /** A path already in canonical form resolves to itself whatever the working
      directory. */
  lemma FqpFixesCanonical(path: string, cwd: string)
    requires IsCleanAbsolute(path)
    ensures Fqp(path, cwd) == path
  {
    assert HasPrefix(path, [Delimiter]);
    CleanFixesCanonical(path);
  }

  /** A name ending in the separator splits into a last piece that is empty. */
  lemma SplitTrailingSeparator(x: string)
    requires |x| > 0
    ensures x[|x| - 1] == Delimiter ==> Split(x, Delimiter)[|Split(x, Delimiter)| - 1] == ""
  {
    if x[|x| - 1] == Delimiter {
      assert x == x[..|x| - 1] + [Delimiter] + [];
      SplitAppend(x[..|x| - 1], [], Delimiter);
    }
  }

  /** A canonical path other than the root does not end in the separator. */
  lemma CleanHasNoTrailingSeparator(p: string)
    requires IsCleanAbsolute(p) && |p| > 1
    ensures p[|p| - 1] != Delimiter
  {
    var segs := Split(p[1..], Delimiter);
    assert GoodSegment(segs[|segs| - 1]);
    SplitTrailingSeparator(p[1..]);
    assert p[1..][|p| - 2] == p[|p| - 1];
  }

  /** Resolving a resolved path again with the same working directory changes
      nothing. */
  lemma FqpIdempotent(path: string, cwd: string)
    requires IsAbsolute(cwd)
    ensures Fqp(Fqp(path, cwd), cwd) == Fqp(path, cwd)
  {
    FqpIsCanonical(path, cwd);
    FqpFixesCanonical(Fqp(path, cwd), cwd);
  }

  lemma ExampleSegments()
    ensures Split("/dev/db/../..//prod", Delimiter) == ["", "dev", "db", "..", "..", "", "prod"]
  {
    var parts := ["", "dev", "db", "..", "..", "", "prod"];
    ExampleJoin();
    assert forall i :: 0 <= i < |parts| ==> Delimiter !in parts[i] by {
      assert Delimiter !in "dev" && Delimiter !in "db" && Delimiter !in ".." && Delimiter !in "prod";
    }
    SplitJoin(parts, Delimiter);
  }

  lemma ExampleJoin()
    ensures Join(["", "dev", "db", "..", "..", "", "prod"], Delimiter) == "/dev/db/../..//prod"
  {
    var middle := ["db", "..", "..", "", "prod"];
    var tail := ["dev"] + middle;
    ExampleJoinMiddle();
    JoinCons("dev", middle, Delimiter);
    assert Join(tail, Delimiter) == "dev/db/../..//prod";
    JoinCons("", tail, Delimiter);
    assert [""] + tail == ["", "dev", "db", "..", "..", "", "prod"];
  }

  lemma ExampleJoinMiddle()
    ensures Join(["db", "..", "..", "", "prod"], Delimiter) == "db/../..//prod"
  {
    ExampleJoinTail();
    JoinCons("db", ["..", "..", "", "prod"], Delimiter);
  }

  lemma ExampleJoinTail()
    ensures Join(["..", "..", "", "prod"], Delimiter) == "../..//prod"
  {
    JoinCons("..", ["..", "", "prod"], Delimiter);
    JoinCons("..", ["", "prod"], Delimiter);
    JoinPair("", "prod", Delimiter);
  }

  lemma ExampleResolve()
    ensures Resolve(["", "dev", "db", "..", "..", "", "prod"], [], true) == ["prod"]
  {
    var parts := ["", "dev", "db", "..", "..", "", "prod"];
    assert Resolve(parts, [], true) == Resolve(parts[1..], [], true);
    assert Resolve(parts[1..], [], true) == Resolve(parts[2..], ["dev"], true);
    assert Resolve(parts[2..], ["dev"], true) == Resolve(parts[3..], ["dev", "db"], true);
    assert Resolve(parts[3..], ["dev", "db"], true) == Resolve(parts[4..], ["dev"], true);
    assert Resolve(parts[4..], ["dev"], true) == Resolve(parts[5..], [], true);
    assert Resolve(parts[5..], [], true) == Resolve(parts[6..], [], true);
    assert Resolve(parts[6..], [], true) == ["prod"];
  }

  lemma ExampleCleanSegments(p: string)
    requires p == "/dev/db/../..//prod"
    ensures Resolve(Split(p, Delimiter), [], true) == ["prod"]
  {
    ExampleSegments();
    ExampleResolve();
  }

  lemma CleanToProd(p: string)
    requires IsAbsolute(p) && Resolve(Split(p, Delimiter), [], true) == ["prod"]
    ensures Clean(p) == "/prod"
  {
  }

  /** The working-directory case of the shell's tests: `..` climbs, `..` at the
      root stays at the root, and `//` collapses. */
  lemma FqpExample(p: string, cwd: string)
    requires p == "/dev/db/../..//prod" && cwd == "/"
    ensures Fqp(p, cwd) == "/prod"
  {
    assert HasPrefix(p, [Delimiter]);
    ExampleCleanSegments(p);
    CleanToProd(p);
  }
}
