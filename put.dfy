/** The `put` command (commands/put.go): `field=value` options are parsed one by
    one and each validated field is written into the request being built
    (`putParamInput`) or the region it goes to (`putParamRegion`); a failing
    validator empties the request. When every option is accepted and the
    request names a parameter, a type and a value, it is sent. */
module Put {
  import opened Wrappers
  import opened Strings
  import opened Paths
  import opened Remote
  import ParameterStore
  import Commands
  import Policy

  const StandardTier: string := "Standard"
  const AdvancedTier: string := "Advanced"
  /** The parameter types, in the order `validateType` tries them. */
  const ValidTypes: seq<string> := ["String", "StringList", "SecureString"]
  /** The fields `validate` knows a validator for. */
  const Fields: set<string> :=
    {"type", "name", "value", "description", "key", "pattern", "overwrite", "region", "tier", "policies"}

  datatype PutError =
    | InvalidType(text: string)
    | InvalidOverwrite(text: string)
    | InvalidTier
    | PoliciesUnvalidated(text: string)
    | NoSuchPolicy(name: string)

  /** The request being built and the region it is for. */
  datatype PutState = PutState(input: PutParameterInput, region: string)

  // ---------------------------------------------------------------------------
  // What each validator accepts and stores.

  /** `validateType`'s choice: the first valid type equal to `s` ignoring case. */
  function TypeOf(s: string): (r: Option<string>)
    ensures r.Some? <==> exists t :: t in ValidTypes && EqualFold(s, t)
    ensures r.Some? ==> r.value in ValidTypes && EqualFold(s, r.value)
  {
    if EqualFold(s, ValidTypes[0]) then Some(ValidTypes[0])
    else if EqualFold(s, ValidTypes[1]) then Some(ValidTypes[1])
    else if EqualFold(s, ValidTypes[2]) then Some(ValidTypes[2])
    else None
  }

  lemma ToLowerIdempotent(s: string)
    ensures ToLower(ToLower(s)) == ToLower(s)
  {
  }

  /** The stored type is accepted again and is stored as itself: the canonical
      spelling is a fixed point. */
  lemma TypeOfCanonical(s: string)
    requires TypeOf(s).Some?
    ensures TypeOf(TypeOf(s).value) == TypeOf(s)
  {
    var t := TypeOf(s).value;
    ToLowerIdempotent(s);
    assert EqualFold(t, s);
  }

  /** The lines of a multi-line value, the last one untouched and every other
      one without its final character. */
  function DropLastChars(lines: seq<string>): (r: seq<string>)
    requires forall i :: 0 <= i < |lines| - 1 ==> lines[i] != []
    ensures |r| == |lines|
    ensures forall i :: 0 <= i < |lines| - 1 ==> r[i] == lines[i][..|lines[i]| - 1]
    ensures |lines| > 0 ==> r[|lines| - 1] == lines[|lines| - 1]
  {
    seq(|lines|, i requires 0 <= i < |lines| && (forall j :: 0 <= j < |lines| - 1 ==> lines[j] != []) =>
      if i < |lines| - 1 then lines[i][..|lines[i]| - 1] else lines[i])
  }

  /** No line but the last is empty (the source cuts a character off each). */
  predicate Trimmable(s: string)
  {
    var lines := Split(s, '\n');
    forall i :: 0 <= i < |lines| - 1 ==> lines[i] != []
  }

  /** What `trimSpaces` returns. */
  function TrimSpacesOf(s: string): string
    requires Trimmable(s)
  {
    Join(DropLastChars(Split(s, '\n')), '\n')
  }

  /** `trimSpaces` keeps the number of lines, cuts the final character off
      every line but the last, and leaves the last line as it is. */
  lemma TrimSpacesLines(s: string)
    requires Trimmable(s)
    ensures Split(TrimSpacesOf(s), '\n') == DropLastChars(Split(s, '\n'))
  {
    var lines := Split(s, '\n');
    var cut := DropLastChars(lines);
    forall i | 0 <= i < |cut|
      ensures '\n' !in cut[i]
    {
      if i < |lines| - 1 {
        assert forall k :: 0 <= k < |cut[i]| ==> cut[i][k] == lines[i][k];
      }
    }
    SplitJoin(cut, '\n');
  }

  /** The lines as the shell hands them over: a space after every line but the last. */
  function Padded(lines: seq<string>): (r: seq<string>)
    ensures |r| == |lines|
    ensures forall i :: 0 <= i < |lines| - 1 ==> r[i] == lines[i] + " "
    ensures |lines| > 0 ==> r[|lines| - 1] == lines[|lines| - 1]
  {
    seq(|lines|, i requires 0 <= i < |lines| => if i < |lines| - 1 then lines[i] + " " else lines[i])
  }

  /** Padding adds no line break. */
  lemma PaddedLines(lines: seq<string>)
    requires forall i :: 0 <= i < |lines| ==> '\n' !in lines[i]
    ensures forall i :: 0 <= i < |lines| ==> '\n' !in Padded(lines)[i]
  {
    var padded := Padded(lines);
    forall i | 0 <= i < |padded|
      ensures '\n' !in padded[i]
    {
      if i < |lines| - 1 {
        assert padded[i] == lines[i] + " ";
      }
    }
  }

  /** Cutting the final character off every padded line but the last gives
      the lines back. */
  lemma DropPadding(lines: seq<string>)
    ensures forall i :: 0 <= i < |lines| - 1 ==> Padded(lines)[i] != []
    ensures DropLastChars(Padded(lines)) == lines
  {
    var padded := Padded(lines);
    assert forall i :: 0 <= i < |lines| - 1 ==> |padded[i]| == |lines[i]| + 1;
    var cut := DropLastChars(padded);
    forall i | 0 <= i < |lines|
      ensures cut[i] == lines[i]
    {
      if i < |lines| - 1 {
        assert padded[i][..|padded[i]| - 1] == lines[i];
      }
    }
  }

  /** `trimSpaces` undoes the padding the shell adds to a multi-line value. */
  lemma TrimSpacesUndoesPadding(lines: seq<string>)
    requires |lines| > 0 && forall i :: 0 <= i < |lines| ==> '\n' !in lines[i]
    ensures Trimmable(Join(Padded(lines), '\n'))
    ensures TrimSpacesOf(Join(Padded(lines), '\n')) == Join(lines, '\n')
  {
    PaddedLines(lines);
    SplitJoin(Padded(lines), '\n');
    DropPadding(lines);
  }

  /** `validateName`'s name: kept as it is when it starts with the delimiter,
      otherwise appended to `cwd` with one delimiter and not cleaned. */
  function NameOf(s: string, cwd: string): (r: string)
    ensures HasPrefix(s, [Delimiter]) ==> r == s
    ensures !HasPrefix(s, [Delimiter]) ==> r == cwd + [Delimiter] + s
  {
    if HasPrefix(s, [Delimiter]) then s else cwd + [Delimiter] + s
  }

  /** The stored name differs from what the tree operations resolve (`fqp`)
      only in not being cleaned. */
  lemma NameOfResolvesLikeFqp(s: string, cwd: string)
    requires IsAbsolute(cwd)
    ensures Fqp(NameOf(s, cwd), cwd) == Fqp(s, cwd)
  {
    if !HasPrefix(s, [Delimiter]) {
      assert HasPrefix(cwd + [Delimiter] + s, [Delimiter]);
    }
  }

  /** At the root, a relative name is stored with a doubled delimiter. */
  lemma NameOfAtRoot(s: string)
    requires !HasPrefix(s, [Delimiter])
    ensures NameOf(s, [Delimiter]) == [Delimiter, Delimiter] + s
  {
  }

  /** `strings.Title` on ASCII text: a letter that follows a separator (or
      starts the text) is upper-cased. */
  function Title(s: string, afterSeparator: bool): (r: string)
    ensures |r| == |s|
    decreases |s|
  {
    if s == [] then []
    else
      var c := s[0];
      var upper := if afterSeparator && 'a' <= c <= 'z' then (c as int - 32) as char else c;
      var separator := !('a' <= c <= 'z' || 'A' <= c <= 'Z' || '0' <= c <= '9' || c == '_');
      [upper] + Title(s[1..], separator)
  }

  /** `validateTier` as written: the lower-cased input is compared with the
      capitalised tier names. */
  function TierAsWritten(s: string): Option<string>
  {
    if ToLower(s) == StandardTier || ToLower(s) == AdvancedTier then Some(Title(s, true)) else None
  }

  /** A lower-cased text never starts with a capital, so `validateTier` as
      written rejects every input, `standard` and `advanced` included. */
  lemma TierAsWrittenRejectsAll(s: string)
    ensures TierAsWritten(s) == None
  {
    if s != [] {
      assert ToLower(s)[0] == LowerChar(s[0]);
      assert ToLower(s)[0] != 'S' && ToLower(s)[0] != 'A';
    }
  }

  /** The tier names in lower case. */
  lemma LowerTiers()
    ensures ToLower(StandardTier) == "standard" && ToLower(AdvancedTier) == "advanced"
  {
    assert ToLower(StandardTier) == "standard";
  }

  /** `validateTier` as intended: either tier name in any case, stored with its
      canonical spelling. */
  function TierOf(s: string): (r: Option<string>)
    ensures r.Some? <==> EqualFold(s, StandardTier) || EqualFold(s, AdvancedTier)
    ensures r.Some? ==> r.value in {StandardTier, AdvancedTier} && EqualFold(s, r.value)
  {
    LowerTiers();
    if ToLower(s) == "standard" then Some(StandardTier)
    else if ToLower(s) == "advanced" then Some(AdvancedTier)
    else None
  }

  /** The usage's `tier=advanced` is accepted. */
  lemma TierOfAdvanced()
    ensures TierOf("advanced") == Some(AdvancedTier)
  {
    assert ToLower("advanced") == "advanced";
  }

  // ---------------------------------------------------------------------------
  // `validatePolicies`: the shape `^\[([\w\s,]+)\]` and the named policies.

  /** The class `[\w\s,]`: letters, digits, `_`, the white space `\t \n \f \r`
      and space, and `,`. */
  predicate IsNameListChar(c: char)
  {
    'A' <= c <= 'Z' || 'a' <= c <= 'z' || '0' <= c <= '9' || c == '_'
    || c == '\t' || c == '\n' || c == 12 as char || c == '\r' || c == ' ' || c == ','
  }

  predicate AllNameListChars(s: string)
  {
    forall k :: 0 <= k < |s| ==> IsNameListChar(s[k])
  }

  function NameListRun(s: string): (n: nat)
    ensures n <= |s| && AllNameListChars(s[..n])
    ensures n < |s| ==> !IsNameListChar(s[n])
  {
    if s != [] && IsNameListChar(s[0]) then
      var n := 1 + NameListRun(s[1..]);
      assert s[..n] == [s[0]] + s[1..][..n - 1];
      n
    else 0
  }

  /** The bracketed list at the start of `s`; text after `]` is ignored. */
  function MatchNameList(s: string): (r: Option<string>)
    ensures r.Some? ==> r.value != [] && AllNameListChars(r.value) && HasPrefix(s, "[" + r.value + "]")
  {
    if s == [] || s[0] != '[' then None
    else
      var rest := s[1..];
      var m := NameListRun(rest);
      if m == 0 || m >= |rest| || rest[m] != ']' then None
      else
        assert s[..m + 2] == "[" + rest[..m] + "]";
        Some(rest[..m])
  }

  lemma {:induction false} NameListRunOf(a: string, b: string)
    requires AllNameListChars(a) && (b == [] || !IsNameListChar(b[0]))
    ensures NameListRun(a + b) == |a|
    decreases |a|
  {
    if a != [] {
      assert (a + b)[1..] == a[1..] + b;
      NameListRunOf(a[1..], b);
    } else {
      assert a + b == b;
    }
  }

  /** Every bracketed list of the class matches, whatever follows it. */
  lemma MatchNameListOf(names: string, tail: string)
    requires names != [] && AllNameListChars(names)
    ensures MatchNameList("[" + names + "]" + tail) == Some(names)
  {
    var s := "[" + names + "]" + tail;
    assert s[1..] == names + ("]" + tail);
    NameListRunOf(names, "]" + tail);
  }

  /** The policies one named policy contributes, in order: its expiration when
      it has one, then its expiration notifications, then its no-change
      notifications. */
  function PoliciesIn(p: Policy.ParameterPolicies): (r: seq<Policy.Policy>)
    ensures |r| == (if p.expiration != Policy.ZeroExpiration then 1 else 0)
                   + |p.expirationNotification| + |p.noChangeNotification|
  {
    (if p.expiration != Policy.ZeroExpiration then [Policy.ExpirationKind(p.expiration)] else [])
    + seq(|p.expirationNotification|, i requires 0 <= i < |p.expirationNotification| =>
            Policy.ExpirationNotificationKind(p.expirationNotification[i]))
    + seq(|p.noChangeNotification|, i requires 0 <= i < |p.noChangeNotification| =>
            Policy.NoChangeNotificationKind(p.noChangeNotification[i]))
  }

  /** The policies of all the names, in name order; the first name missing from
      the table is an error. */
  function Collect(names: seq<string>, table: map<string, Policy.ParameterPolicies>): (r: Result<seq<Policy.Policy>, PutError>)
    ensures r.Ok? <==> forall i :: 0 <= i < |names| ==> names[i] in table
    decreases |names|
  {
    if names == [] then Ok([])
    else if names[0] !in table then Err(NoSuchPolicy(names[0]))
    else
      match Collect(names[1..], table)
      case Err(e) => Err(e)
      case Ok(rest) => Ok(PoliciesIn(table[names[0]]) + rest)
  }

  /** The first name missing from the table is the one reported. */
  lemma {:induction false} CollectFirstMissing(names: seq<string>, table: map<string, Policy.ParameterPolicies>, k: nat)
    requires k < |names| && names[k] !in table && forall i :: 0 <= i < k ==> names[i] in table
    ensures Collect(names, table) == Err(NoSuchPolicy(names[k]))
    decreases k
  {
    if k > 0 {
      CollectFirstMissing(names[1..], table, k - 1);
    }
  }

  /** `acc` put in front of a successful collection. */
  function Prepend(acc: seq<Policy.Policy>, r: Result<seq<Policy.Policy>, PutError>): Result<seq<Policy.Policy>, PutError>
  {
    match r
    case Err(e) => Err(e)
    case Ok(rest) => Ok(acc + rest)
  }

  lemma PrependNothing(r: Result<seq<Policy.Policy>, PutError>)
    ensures Prepend([], r) == r
  {
    if r.Ok? {
      assert [] + r.value == r.value;
    }
  }

  /** One name of the collection loop: its policies move from the rest to the
      accumulated prefix. */
  lemma CollectStep(names: seq<string>, table: map<string, Policy.ParameterPolicies>, i: nat, acc: seq<Policy.Policy>)
    requires i < |names| && names[i] in table
    ensures Prepend(acc, Collect(names[i..], table))
            == Prepend(acc + PoliciesIn(table[names[i]]), Collect(names[i + 1..], table))
  {
    assert names[i..][0] == names[i] && names[i..][1..] == names[i + 1..];
    match Collect(names[i + 1..], table)
    case Err(e) =>
    case Ok(rest) =>
      assert acc + (PoliciesIn(table[names[i]]) + rest) == acc + PoliciesIn(table[names[i]]) + rest;
  }

  /** What `validatePolicies` accepts: the policies of the listed names. */
  function PoliciesOf(s: string, table: map<string, Policy.ParameterPolicies>): Result<seq<Policy.Policy>, PutError>
  {
    match MatchNameList(s)
    case None => Err(PoliciesUnvalidated(s))
    case Some(list) => Collect(Commands.TrimAll(Split(list, ',')), table)
  }

  /** A list of names yields the policies of its first part followed by those
      of the rest; a missing name in the first part is reported first. */
  lemma {:induction false} CollectAppend(a: seq<string>, b: seq<string>, table: map<string, Policy.ParameterPolicies>)
    ensures Collect(a + b, table) == (match Collect(a, table)
                                      case Err(e) => Err(e)
                                      case Ok(x) => Prepend(x, Collect(b, table)))
    decreases |a|
  {
    if a == [] {
      assert a + b == b;
      PrependNothing(Collect(b, table));
    } else {
      assert (a + b)[0] == a[0] && (a + b)[1..] == a[1..] + b;
      if a[0] in table {
        CollectAppend(a[1..], b, table);
        match Collect(a[1..], table)
        case Err(e) =>
        case Ok(x) =>
          match Collect(b, table)
          case Err(e) =>
          case Ok(y) =>
            assert PoliciesIn(table[a[0]]) + (x + y) == (PoliciesIn(table[a[0]]) + x) + y;
      }
    }
  }

  /** `\w`, the word characters. */
  predicate IsWordChar(c: char)
  {
    'A' <= c <= 'Z' || 'a' <= c <= 'z' || '0' <= c <= '9' || c == '_'
  }

  /** `[name]` for a policy created under `name` yields that policy's contents;
      for a name the table lacks, the error names it. */
  lemma PoliciesOfNamed(name: string, table: map<string, Policy.ParameterPolicies>)
    requires name != [] && forall k :: 0 <= k < |name| ==> IsWordChar(name[k])
    ensures name in table ==> PoliciesOf("[" + name + "]", table) == Ok(PoliciesIn(table[name]))
    ensures name !in table ==> PoliciesOf("[" + name + "]", table) == Err(NoSuchPolicy(name))
  {
    assert AllNameListChars(name);
    MatchNameListOf(name, "");
    assert "[" + name + "]" + "" == "[" + name + "]";
    assert ',' !in name by {
      forall k | 0 <= k < |name|
        ensures name[k] != ','
      {
        assert IsWordChar(name[k]);
      }
    }
    SplitNoSeparator(name, ',');
    assert !IsSpace(name[0]) && !IsSpace(name[|name| - 1]) by {
      assert IsWordChar(name[0]) && IsWordChar(name[|name| - 1]);
    }
    TrimSpaceUnchanged(name);
    assert Commands.TrimAll([name]) == [name];
    assert PoliciesOf("[" + name + "]", table) == Collect([name], table);
    if name in table {
      assert [name][1..] == [];
      assert Collect([name][1..], table) == Ok([]);
      assert PoliciesIn(table[name]) + [] == PoliciesIn(table[name]);
    }
  }

  // ---------------------------------------------------------------------------
  // `validate`, `putOptions` and `inlinePut` on values.

  datatype Outcome = Ignored | Applied(state: PutState) | Failed(error: PutError)

  /** No option that reaches `trimSpaces` has an empty line before its last. */
  predicate Safe(field: string, v: string)
  {
    ToLower(field) == "value" ==> Trimmable(v)
  }

  /** The validator `validate` selects for `field`, applied to `st`. */
  function Apply(field: string, v: string, st: PutState, cwd: string,
                 table: map<string, Policy.ParameterPolicies>, marshal: seq<Policy.Policy> -> string): (r: Outcome)
    requires Safe(field, v)
    ensures r.Ignored? <==> ToLower(field) !in Fields
    ensures r.Applied? && ToLower(field) != "region" ==> r.state.region == st.region
    ensures r.Failed? ==> ToLower(field) in {"type", "overwrite", "tier", "policies"}
  {
    var f := ToLower(field);
    var input := st.input;
    if f == "type" then
      match TypeOf(v)
      case None => Failed(InvalidType(v))
      case Some(t) => Applied(st.(input := input.(Type := Some(t))))
    else if f == "name" then Applied(st.(input := input.(Name := Some(NameOf(v, cwd)))))
    else if f == "value" then Applied(st.(input := input.(Value := Some(TrimSpacesOf(v)))))
    else if f == "description" then Applied(st.(input := input.(Description := Some(v))))
    else if f == "key" then Applied(st.(input := input.(KeyId := Some(v))))
    else if f == "pattern" then Applied(st.(input := input.(AllowedPattern := Some(v))))
    else if f == "overwrite" then
      match ParseBool(v)
      case None => Failed(InvalidOverwrite(v))
      case Some(b) => Applied(st.(input := input.(Overwrite := Some(b))))
    else if f == "region" then Applied(st.(region := v))
    else if f == "tier" then
      match TierOf(v)
      case None => Failed(InvalidTier)
      case Some(t) => Applied(st.(input := input.(Tier := Some(t))))
    else if f == "policies" then
      match PoliciesOf(v, table)
      case Err(e) => Failed(e)
      case Ok(ps) => Applied(st.(input := input.(Policies := Some(marshal(ps)), Tier := Some(AdvancedTier))))
    else Ignored
  }

  /** `validate`: an unknown field changes nothing; a failing validator empties
      the request (the region stays) and reports its error. */
  function ValidateOf(field: string, v: string, st: PutState, cwd: string,
                      table: map<string, Policy.ParameterPolicies>, marshal: seq<Policy.Policy> -> string)
    : (PutState, Option<PutError>)
    requires Safe(field, v)
  {
    match Apply(field, v, st, cwd, table, marshal)
    case Ignored => (st, None)
    case Applied(st') => (st', None)
    case Failed(e) => (st.(input := EmptyInput), Some(e))
  }

  /** An unknown field is ignored without an error. */
  lemma ValidateUnknownField(field: string, v: string, st: PutState, cwd: string,
                             table: map<string, Policy.ParameterPolicies>, marshal: seq<Policy.Policy> -> string)
    requires ToLower(field) !in Fields
    ensures ValidateOf(field, v, st, cwd, table, marshal) == (st, None)
  {
  }

  /** A failing validator leaves an empty request behind and keeps the region. */
  lemma ValidateFailureResets(field: string, v: string, st: PutState, cwd: string,
                              table: map<string, Policy.ParameterPolicies>, marshal: seq<Policy.Policy> -> string)
    requires Safe(field, v)
    requires ValidateOf(field, v, st, cwd, table, marshal).1.Some?
    ensures ValidateOf(field, v, st, cwd, table, marshal).0 == PutState(EmptyInput, st.region)
  {
  }

  /** A policies option sets the marshalled policies and forces the advanced tier. */
  lemma ValidatePoliciesForcesAdvanced(v: string, st: PutState, cwd: string,
                                       table: map<string, Policy.ParameterPolicies>, marshal: seq<Policy.Policy> -> string)
    requires PoliciesOf(v, table).Ok?
    ensures ValidateOf("policies", v, st, cwd, table, marshal).0
            == st.(input := st.input.(Policies := Some(marshal(PoliciesOf(v, table).value)), Tier := Some(AdvancedTier)))
  {
    assert ToLower("policies") == "policies";
  }

  /** The field and the value `putOptions` splits an option into, if it can:
      the field is the text before the first `=`, the value everything after it. */
  function SplitOption(s: string): (r: Option<(string, string)>)
  {
    if s == [] then None
    else
      var paramOption := Split(s, '=');
      if |paramOption| < 2 then None
      else Some((ToLower(paramOption[0]), Join(paramOption[1..], '=')))
  }

  /** An option without `=` (the empty one included) is refused. */
  lemma SplitOptionRefuses(s: string)
    requires '=' !in s
    ensures SplitOption(s) == None
  {
    if s != [] {
      SplitNoSeparator(s, '=');
    }
  }

  /** `field=value` with no `=` in `field` splits into the lower-cased field and
      the whole of `value`, its own `=` characters included. */
  lemma SplitOptionOf(field: string, value: string)
    requires '=' !in field
    ensures SplitOption(field + "=" + value) == Some((ToLower(field), value))
  {
    SplitAppend(field, value, '=');
    SplitNoSeparator(field, '=');
    var parts := Split(field + "=" + value, '=');
    assert parts[1..] == Split(value, '=');
    JoinSplit(value, '=');
  }

  predicate OptionSafe(s: string)
  {
    SplitOption(s).Some? ==> Safe(SplitOption(s).value.0, SplitOption(s).value.1)
  }

  /** `putOptions`: a refused option changes nothing and stops; otherwise the
      option is validated, and stops on a validator's failure. */
  function PutOptionOf(s: string, st: PutState, cwd: string,
                       table: map<string, Policy.ParameterPolicies>, marshal: seq<Policy.Policy> -> string): (PutState, bool)
    requires OptionSafe(s)
  {
    match SplitOption(s)
    case None => (st, false)
    case Some(fv) =>
      var (st', err) := ValidateOf(fv.0, fv.1, st, cwd, table, marshal);
      (st', err.None?)
  }

  /** Every option up to the first one that fails is safe to validate. */
  predicate InlineSafe(options: seq<string>, st: PutState, cwd: string,
                       table: map<string, Policy.ParameterPolicies>, marshal: seq<Policy.Policy> -> string)
    decreases |options|
  {
    options == [] ||
    (OptionSafe(options[0]) &&
     var (st', ok) := PutOptionOf(options[0], st, cwd, table, marshal);
     ok ==> InlineSafe(options[1..], st', cwd, table, marshal))
  }

  /** `inlinePut`: the options in order, stopping at the first that fails. */
  function InlinePutOf(options: seq<string>, st: PutState, cwd: string,
                       table: map<string, Policy.ParameterPolicies>, marshal: seq<Policy.Policy> -> string): (PutState, bool)
    requires InlineSafe(options, st, cwd, table, marshal)
    decreases |options|
  {
    if options == [] then (st, true)
    else
      var (st', ok) := PutOptionOf(options[0], st, cwd, table, marshal);
      if !ok then (st', false) else InlinePutOf(options[1..], st', cwd, table, marshal)
  }

  /** Nothing after the first failing option is looked at: the outcome is that
      of the accepted options followed by the failing one. */
  lemma {:induction false} InlinePutStops(accepted: seq<string>, bad: string, rest: seq<string>, st: PutState, cwd: string,
                                          table: map<string, Policy.ParameterPolicies>, marshal: seq<Policy.Policy> -> string)
    requires InlineSafe(accepted, st, cwd, table, marshal)
    requires InlinePutOf(accepted, st, cwd, table, marshal).1
    requires var mid := InlinePutOf(accepted, st, cwd, table, marshal).0;
             OptionSafe(bad) && !PutOptionOf(bad, mid, cwd, table, marshal).1
    ensures InlineSafe(accepted + [bad] + rest, st, cwd, table, marshal)
    ensures var mid := InlinePutOf(accepted, st, cwd, table, marshal).0;
            InlinePutOf(accepted + [bad] + rest, st, cwd, table, marshal) == (PutOptionOf(bad, mid, cwd, table, marshal).0, false)
    decreases |accepted|
  {
    var all := accepted + [bad] + rest;
    if accepted == [] {
      assert all[0] == bad;
    } else {
      assert all[0] == accepted[0];
      assert all[1..] == accepted[1..] + [bad] + rest;
      var st' := PutOptionOf(accepted[0], st, cwd, table, marshal).0;
      InlinePutStops(accepted[1..], bad, rest, st', cwd, table, marshal);
    }
  }

  /** A one-line value is stored as it is. */
  lemma TrimSpacesSingleLine(v: string)
    requires '\n' !in v
    ensures Trimmable(v) && TrimSpacesOf(v) == v
  {
    SplitNoSeparator(v, '\n');
    assert DropLastChars([v]) == [v];
  }

  /** `field=value` is validated as the lower-cased field with the whole value. */
  lemma PutOptionOfPair(field: string, value: string, st: PutState, cwd: string,
                        table: map<string, Policy.ParameterPolicies>, marshal: seq<Policy.Policy> -> string)
    requires '=' !in field && Safe(field, value)
    ensures OptionSafe(field + "=" + value)
    ensures var (st', err) := ValidateOf(ToLower(field), value, st, cwd, table, marshal);
            PutOptionOf(field + "=" + value, st, cwd, table, marshal) == (st', err.None?)
  {
    SplitOptionOf(field, value);
    ToLowerIdempotent(field);
  }

  /** Three accepted options in a row are the whole of `inlinePut`. */
  lemma InlineThree(o: seq<string>, st: PutState, st1: PutState, st2: PutState, st3: PutState, cwd: string,
                    table: map<string, Policy.ParameterPolicies>, marshal: seq<Policy.Policy> -> string)
    requires |o| == 3 && OptionSafe(o[0]) && OptionSafe(o[1]) && OptionSafe(o[2])
    requires PutOptionOf(o[0], st, cwd, table, marshal) == (st1, true)
    requires PutOptionOf(o[1], st1, cwd, table, marshal) == (st2, true)
    requires PutOptionOf(o[2], st2, cwd, table, marshal) == (st3, true)
    ensures InlineSafe(o, st, cwd, table, marshal) && InlinePutOf(o, st, cwd, table, marshal) == (st3, true)
  {
    var o1, o2 := o[1..], o[2..];
    assert o1[0] == o[1] && o1[1..] == o2 && o2[0] == o[2] && o2[1..] == [];
    assert InlineSafe(o2, st2, cwd, table, marshal) && InlinePutOf(o2, st2, cwd, table, marshal) == (st3, true);
    assert InlineSafe(o1, st1, cwd, table, marshal) && InlinePutOf(o1, st1, cwd, table, marshal) == (st3, true);
  }

  lemma NameOption(n: string, st: PutState, cwd: string,
                   table: map<string, Policy.ParameterPolicies>, marshal: seq<Policy.Policy> -> string)
    ensures OptionSafe("name=" + n)
    ensures PutOptionOf("name=" + n, st, cwd, table, marshal) == (st.(input := st.input.(Name := Some(NameOf(n, cwd)))), true)
  {
    assert ToLower("name") == "name";
    assert "name=" + n == "name" + "=" + n;
    PutOptionOfPair("name", n, st, cwd, table, marshal);
    assert ValidateOf("name", n, st, cwd, table, marshal).1.None?;
  }

  lemma ValueOption(v: string, st: PutState, cwd: string,
                    table: map<string, Policy.ParameterPolicies>, marshal: seq<Policy.Policy> -> string)
    requires '\n' !in v
    ensures OptionSafe("value=" + v)
    ensures PutOptionOf("value=" + v, st, cwd, table, marshal) == (st.(input := st.input.(Value := Some(v))), true)
  {
    assert ToLower("value") == "value";
    TrimSpacesSingleLine(v);
    assert "value=" + v == "value" + "=" + v;
    PutOptionOfPair("value", v, st, cwd, table, marshal);
    assert ValidateOf("value", v, st, cwd, table, marshal).1.None?;
  }

  lemma TypeOption(t: string, st: PutState, cwd: string,
                   table: map<string, Policy.ParameterPolicies>, marshal: seq<Policy.Policy> -> string)
    requires TypeOf(t).Some?
    ensures OptionSafe("type=" + t)
    ensures PutOptionOf("type=" + t, st, cwd, table, marshal) == (st.(input := st.input.(Type := TypeOf(t))), true)
  {
    assert ToLower("type") == "type";
    assert "type=" + t == "type" + "=" + t;
    PutOptionOfPair("type", t, st, cwd, table, marshal);
    assert ValidateOf("type", t, st, cwd, table, marshal).1.None?;
  }

  /** The inline example of the usage text: `name=<n> value=<v> type=<t>` gives a
      complete request for `n` (resolved against `cwd`), holding `v` and the
      canonical spelling of `t`, in the region the command started with. */
  lemma InlineNameValueType(n: string, v: string, t: string, st: PutState, cwd: string,
                            table: map<string, Policy.ParameterPolicies>, marshal: seq<Policy.Policy> -> string)
    requires '\n' !in v && TypeOf(t).Some?
    ensures InlineSafe(["name=" + n, "value=" + v, "type=" + t], st, cwd, table, marshal)
    ensures var (after, ok) := InlinePutOf(["name=" + n, "value=" + v, "type=" + t], st, cwd, table, marshal);
            ok && Complete(after.input) && after.region == st.region &&
            after.input.Name == Some(NameOf(n, cwd)) && after.input.Value == Some(v) && after.input.Type == TypeOf(t)
  {
    var st1 := st.(input := st.input.(Name := Some(NameOf(n, cwd))));
    var st2 := st1.(input := st1.input.(Value := Some(v)));
    var st3 := st2.(input := st2.input.(Type := TypeOf(t)));
    NameOption(n, st, cwd, table, marshal);
    ValueOption(v, st1, cwd, table, marshal);
    TypeOption(t, st2, cwd, table, marshal);
    InlineThree(["name=" + n, "value=" + v, "type=" + t], st, st1, st2, st3, cwd, table, marshal);
  }

  /** The request `put` sends only when it names a parameter, a type and a value. */
  predicate Complete(input: PutParameterInput)
  {
    input.Name.Some? && input.Value.Some? && input.Type.Some?
  }

  datatype PutOutcome =
    | OptionRefused                          // an option failed; nothing is sent
    | Incomplete                             // name, type or value is missing; nothing is sent
    | Sent(result: Result<nat, ServiceError>)

  // ---------------------------------------------------------------------------
  // The command's state and its validators.

  /** `putParamInput` and `putParamRegion`. */
  class PutCommand {
    var Input: PutParameterInput
    var Region: string

    constructor ()
      ensures Input == EmptyInput && Region == ""
    {
      Input := EmptyInput;
      Region := "";
    }

    function State(): PutState
      reads this
    {
      PutState(Input, Region)
    }

    /** Stores the outcome of a validator: on success its new state, otherwise nothing. */
    predicate Stored(r: Outcome, prior: PutState, err: Option<PutError>)
      reads this
    {
      match r
      case Applied(st) => State() == st && err.None?
      case Failed(e) => State() == prior && err == Some(e)
      case Ignored => State() == prior && err.None?
    }

    method ValidateType(s: string) returns (err: Option<PutError>)
      modifies this
      ensures TypeOf(s).Some? ==> err.None? && Input == old(Input).(Type := TypeOf(s)) && Region == old(Region)
      ensures TypeOf(s).None? ==> err == Some(InvalidType(s)) && Input == old(Input) && Region == old(Region)
    {
      var validTypes := ValidTypes;
      for i := 0 to |validTypes|
        invariant forall k :: 0 <= k < i ==> !EqualFold(s, validTypes[k])
        invariant Input == old(Input)
      {
        if EqualFold(s, validTypes[i]) {
          Input := Input.(Type := Some(validTypes[i]));
          return None;
        }
      }
      return Some(InvalidType(s));
    }

    /** `trimSpaces`. */
    static method TrimSpaces(s: string) returns (r: string)
      requires Trimmable(s)
      ensures r == TrimSpacesOf(s)
    {
      var parts := Split(s, '\n');
      ghost var lines := parts;
      for i := 0 to |parts| - 1
        invariant |parts| == |lines|
        invariant forall k :: 0 <= k < i ==> parts[k] == lines[k][..|lines[k]| - 1]
        invariant forall k :: i <= k < |parts| ==> parts[k] == lines[k]
      {
        var size := |parts[i]|;
        parts := parts[i := parts[i][..size - 1]];
      }
      assert parts == DropLastChars(lines);
      r := Join(parts, '\n');
    }

    method ValidateValue(s: string) returns (err: Option<PutError>)
      requires Trimmable(s)
      modifies this
      ensures err.None? && Input == old(Input).(Value := Some(TrimSpacesOf(s))) && Region == old(Region)
    {
      var t := TrimSpaces(s);
      Input := Input.(Value := Some(t));
      err := None;
    }

    method ValidateName(s: string, cwd: string) returns (err: Option<PutError>)
      modifies this
      ensures err.None? && Input == old(Input).(Name := Some(NameOf(s, cwd))) && Region == old(Region)
    {
      if HasPrefix(s, [Delimiter]) {
        Input := Input.(Name := Some(s));
      } else {
        Input := Input.(Name := Some(cwd + [Delimiter] + s));
      }
      err := None;
    }

    method ValidateOverwrite(s: string) returns (err: Option<PutError>)
      modifies this
      ensures ParseBool(s).Some? ==> err.None? && Input == old(Input).(Overwrite := ParseBool(s)) && Region == old(Region)
      ensures ParseBool(s).None? ==> err == Some(InvalidOverwrite(s)) && Input == old(Input) && Region == old(Region)
    {
      var overwrite := ParseBool(s);
      if overwrite.None? {
        return Some(InvalidOverwrite(s));
      }
      Input := Input.(Overwrite := overwrite);
      err := None;
    }

    method ValidateTier(s: string) returns (err: Option<PutError>)
      modifies this
      ensures TierOf(s).Some? ==> err.None? && Input == old(Input).(Tier := TierOf(s)) && Region == old(Region)
      ensures TierOf(s).None? ==> err == Some(InvalidTier) && Input == old(Input) && Region == old(Region)
    {
      var lower := ToLower(s);
      if lower == "standard" {
        Input := Input.(Tier := Some(StandardTier));
        return None;
      } else if lower == "advanced" {
        Input := Input.(Tier := Some(AdvancedTier));
        return None;
      }
      return Some(InvalidTier);
    }

    /** The policies one named policy contributes, appended in order. */
    static method AppendPolicies(policySet: seq<Policy.Policy>, policy: Policy.ParameterPolicies)
      returns (r: seq<Policy.Policy>)
      ensures r == policySet + PoliciesIn(policy)
    {
      r := policySet;
      if policy.expiration != Policy.ZeroExpiration {
        r := r + [Policy.ExpirationKind(policy.expiration)];
      }
      ghost var base := r;
      for i := 0 to |policy.expirationNotification|
        invariant r == base + seq(i, k requires 0 <= k < i =>
                                  Policy.ExpirationNotificationKind(policy.expirationNotification[k]))
      {
        r := r + [Policy.ExpirationNotificationKind(policy.expirationNotification[i])];
      }
      base := r;
      for i := 0 to |policy.noChangeNotification|
        invariant r == base + seq(i, k requires 0 <= k < i =>
                                  Policy.NoChangeNotificationKind(policy.noChangeNotification[k]))
      {
        r := r + [Policy.NoChangeNotificationKind(policy.noChangeNotification[i])];
      }
    }

    /** The loop of `validatePolicies` over the listed names. */
    static method CollectPolicies(namedPolicies: seq<string>, table: map<string, Policy.ParameterPolicies>)
      returns (r: Result<seq<Policy.Policy>, PutError>)
      ensures r == Collect(namedPolicies, table)
    {
      var policySet: seq<Policy.Policy> := [];
      assert namedPolicies[0..] == namedPolicies;
      PrependNothing(Collect(namedPolicies, table));
      for i := 0 to |namedPolicies|
        invariant forall k :: 0 <= k < i ==> namedPolicies[k] in table
        invariant Collect(namedPolicies, table) == Prepend(policySet, Collect(namedPolicies[i..], table))
      {
        var p := namedPolicies[i];
        if p !in table {
          CollectFirstMissing(namedPolicies, table, i);
          return Err(NoSuchPolicy(p));
        }
        CollectStep(namedPolicies, table, i, policySet);
        policySet := AppendPolicies(policySet, table[p]);
      }
      assert namedPolicies[|namedPolicies|..] == [];
      assert policySet + [] == policySet;
      r := Ok(policySet);
    }

    method ValidatePolicies(s: string, table: map<string, Policy.ParameterPolicies>, marshal: seq<Policy.Policy> -> string)
      returns (err: Option<PutError>)
      modifies this
      ensures PoliciesOf(s, table).Ok? ==>
                err.None? && Region == old(Region) &&
                Input == old(Input).(Policies := Some(marshal(PoliciesOf(s, table).value)), Tier := Some(AdvancedTier))
      ensures PoliciesOf(s, table).Err? ==>
                err == Some(PoliciesOf(s, table).error) && Input == old(Input) && Region == old(Region)
    {
      var p := MatchNameList(s);
      if p.None? {
        return Some(PoliciesUnvalidated(s));
      }
      var namedPolicies := Commands.Trim(Split(p.value, ','));
      var policySet := CollectPolicies(namedPolicies, table);
      if policySet.Err? {
        return Some(policySet.error);
      }
      Input := Input.(Policies := Some(marshal(policySet.value)), Tier := Some(AdvancedTier));
      err := None;
    }

    /** `validate`: `(State(), err)` is `ValidateOf` of the state before. */
    method Validate(f: string, v: string, cwd: string,
                    table: map<string, Policy.ParameterPolicies>, marshal: seq<Policy.Policy> -> string)
      returns (err: Option<PutError>)
      requires Safe(f, v)
      modifies this
      ensures (State(), err) == ValidateOf(f, v, old(State()), cwd, table, marshal)
    {
      err := Dispatch(ToLower(f), v, cwd, table, marshal);
      if err.Some? {
        Input := EmptyInput;
      }
    }

    /** The validator map of `validate`. */
    method Dispatch(f: string, v: string, cwd: string,
                    table: map<string, Policy.ParameterPolicies>, marshal: seq<Policy.Policy> -> string)
      returns (err: Option<PutError>)
      requires f == ToLower(f) && Safe(f, v)
      modifies this
      ensures Stored(Apply(f, v, old(State()), cwd, table, marshal), old(State()), err)
    {
      ToLowerIdempotent(f);
      err := None;
      if f == "type" {
        err := ValidateType(v);
      } else if f == "name" {
        err := ValidateName(v, cwd);
      } else if f == "value" {
        err := ValidateValue(v);
      } else if f == "description" {
        Input := Input.(Description := Some(v));
      } else if f == "key" {
        Input := Input.(KeyId := Some(v));
      } else if f == "pattern" {
        Input := Input.(AllowedPattern := Some(v));
      } else if f == "overwrite" {
        err := ValidateOverwrite(v);
      } else if f == "region" {
        Region := v;
      } else if f == "tier" {
        err := ValidateTier(v);
      } else if f == "policies" {
        err := ValidatePolicies(v, table, marshal);
      }
    }

    /** `putOptions`. */
    method PutOptions(s: string, cwd: string,
                      table: map<string, Policy.ParameterPolicies>, marshal: seq<Policy.Policy> -> string)
      returns (ok: bool)
      requires OptionSafe(s)
      modifies this
      ensures (State(), ok) == PutOptionOf(s, old(State()), cwd, table, marshal)
    {
      if s == [] {
        return false;
      }
      var paramOption := Split(s, '=');
      if |paramOption| < 2 {
        return false;
      }
      var field := ToLower(paramOption[0]);
      var val := Join(paramOption[1..], '=');
      var err := Validate(field, val, cwd, table, marshal);
      ok := err.None?;
    }

    /** `inlinePut`. */
    method InlinePut(options: seq<string>, cwd: string,
                     table: map<string, Policy.ParameterPolicies>, marshal: seq<Policy.Policy> -> string)
      returns (ok: bool)
      requires InlineSafe(options, State(), cwd, table, marshal)
      modifies this
      ensures (State(), ok) == InlinePutOf(options, old(State()), cwd, table, marshal)
    {
      for i := 0 to |options|
        invariant InlineSafe(options[i..], State(), cwd, table, marshal)
        invariant InlinePutOf(options, old(State()), cwd, table, marshal)
                  == InlinePutOf(options[i..], State(), cwd, table, marshal)
      {
        assert options[i..][0] == options[i] && options[i..][1..] == options[i + 1..];
        var accepted := PutOptions(options[i], cwd, table, marshal);
        if !accepted {
          return false;
        }
      }
      assert options[|options|..] == [];
      ok := true;
    }

    /** `put` with its options on the command line: starting from the request
        the session's defaults give, the options are validated in order; the
        request is sent only when every option was accepted and it names a
        parameter, a type and a value. */
    method PutInline(options: seq<string>, defaults: PutState, ps: ParameterStore.ParameterStore,
                     table: map<string, Policy.ParameterPolicies>, marshal: seq<Policy.Policy> -> string, st: Store)
      returns (st': Store, outcome: PutOutcome)
      requires st.Valid()
      requires InlineSafe(options, defaults, ps.Cwd, table, marshal)
      requires var (after, ok) := InlinePutOf(options, defaults, ps.Cwd, table, marshal);
               ok && Complete(after.input) ==> after.region in ps.Clients
      modifies this
      ensures var (after, ok) := InlinePutOf(options, defaults, ps.Cwd, table, marshal);
              State() == after &&
              (!ok ==> outcome == OptionRefused && st' == st) &&
              (ok && !Complete(after.input) ==> outcome == Incomplete && st' == st) &&
              (ok && Complete(after.input) ==>
                 outcome.Sent? && (st', outcome.result) == st.PutParameter(after.input, after.region))
    {
      Input, Region := defaults.input, defaults.region;
      var ok := InlinePut(options, ps.Cwd, table, marshal);
      st' := st;
      if !ok {
        return st', OptionRefused;
      }
      if Input.Name.None? || Input.Value.None? || Input.Type.None? {
        return st', Incomplete;
      }
      var r;
      st', r := ps.Put(Input, Region, st);
      outcome := Sent(r);
    }
  }
}
