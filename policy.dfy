/** The policy mini-language of the shell (commands/policy.go): arguments of the
    form `Name(attr=val,...)` are parsed into parameter policies, which are
    kept in a table of named policies for later `put` commands. */
module Policy {
  import opened Wrappers
  import opened Strings
  import Commands

  const ExpirationPolicy: string := "Expiration"
  const ExpirationNotificationPolicy: string := "ExpirationNotification"
  const NoChangeNotificationPolicy: string := "NoChangeNotification"
  /** The version every parsed policy carries. */
  const PolicyVersion: string := "1.0"

  /** A point in time, as the time library's parser delivers it; `0` stands for
      the zero time. */
  datatype ExpirationAttributes = ExpirationAttributes(Timestamp: int)
  datatype Expiration = Expiration(Type: string, Version: string, Attributes: ExpirationAttributes)
  {
    /** `Expiration.Print`, with the timestamp's formatting as a parameter. */
    function Print(format: int -> string): (s: string)
      ensures HasPrefix(s, ExpirationPolicy + "(Timestamp=")
    {
      ExpirationPolicy + "(" + Join(["Timestamp=" + format(Attributes.Timestamp)], ',') + ")\n"
    }
  }

  datatype ExpirationNotificationAttributes = ExpirationNotificationAttributes(Before: int, Unit: string)
  datatype ExpirationNotification =
    ExpirationNotification(Type: string, Version: string, Attributes: ExpirationNotificationAttributes)
  {
    /** `ExpirationNotification.Print`: `ExpirationNotification(Before=<n>,Unit=<u>)`
        and a newline. */
    function Print(): string
    {
      ExpirationNotificationPolicy + "(" + NotificationAttrs("Before", Attributes.Before, Attributes.Unit) + ")\n"
    }
  }

  datatype NoChangeNotificationAttributes = NoChangeNotificationAttributes(After: int, Unit: string)
  datatype NoChangeNotification =
    NoChangeNotification(Type: string, Version: string, Attributes: NoChangeNotificationAttributes)
  {
    /** `NoChangeNotification.Print`: `NoChangeNotification(After=<n>,Unit=<u>)`
        and a newline. */
    function Print(): string
    {
      NoChangeNotificationPolicy + "(" + NotificationAttrs("After", Attributes.After, Attributes.Unit) + ")\n"
    }
  }

  /** The attribute text the two notification printers produce. */
  function NotificationAttrs(countName: string, count: int, unit: string): string
  {
    countName + "=" + Itoa(count) + "," + "Unit=" + unit
  }

  /** It is the count attribute and the unit attribute joined by a comma, as
      the printers build it. */
  lemma NotificationAttrsJoin(countName: string, count: int, unit: string)
    ensures NotificationAttrs(countName, count, unit) == Join([countName + "=" + Itoa(count), "Unit=" + unit], ',')
  {
    JoinPair(countName + "=" + Itoa(count), "Unit=" + unit, ',');
  }

  /** The `Policies` interface: any one of the three kinds. */
  datatype Policy =
    | ExpirationKind(expiration: Expiration)
    | ExpirationNotificationKind(expirationNotification: ExpirationNotification)
    | NoChangeNotificationKind(noChangeNotification: NoChangeNotification)

  /** `parameterPolicies`: what one named policy holds. */
  datatype ParameterPolicies = ParameterPolicies(
    expiration: Expiration,
    expirationNotification: seq<ExpirationNotification>,
    noChangeNotification: seq<NoChangeNotification>)

  /** `Expiration{}`. */
  const ZeroExpiration: Expiration := Expiration("", "", ExpirationAttributes(0))
  /** `parameterPolicies{}`. */
  const NoPolicies: ParameterPolicies := ParameterPolicies(ZeroExpiration, [], [])

  datatype PolicyError =
    | Unvalidated(arg: string)                       // the argument is not of the form Name(attrs)
    | UnknownType(policyType: string, attrs: string) // Name is not one of the three kinds
    | InvalidAttribute(policyType: string, part: string)
    | BadValue(text: string)                         // a number or a timestamp that does not parse

  // ---------------------------------------------------------------------------
  // The shape `^([A-Za-z]+)\(([A-z0-9-:\.,=]+)\)`, as character classes.

  predicate IsLetter(c: char)
  {
    'A' <= c <= 'Z' || 'a' <= c <= 'z'
  }

  /** The attribute class: the range `A-z` (which also holds `[ \ ] ^ _` and the
      back-quote), the digits, and `-`, `:`, `.`, `,` and `=`. */
  predicate IsAttrChar(c: char)
  {
    'A' <= c <= 'z' || '0' <= c <= '9' || c == '-' || c == ':' || c == '.' || c == ',' || c == '='
  }

  predicate AllLetters(s: string)
  {
    forall k :: 0 <= k < |s| ==> IsLetter(s[k])
  }

  predicate AllAttrChars(s: string)
  {
    forall k :: 0 <= k < |s| ==> IsAttrChar(s[k])
  }

  /** The length of the longest run of letters at the front of `s`. */
  function LetterRun(s: string): (n: nat)
    ensures n <= |s| && AllLetters(s[..n])
    ensures n < |s| ==> !IsLetter(s[n])
  {
    if s != [] && IsLetter(s[0]) then
      var n := 1 + LetterRun(s[1..]);
      assert s[..n] == [s[0]] + s[1..][..n - 1];
      n
    else 0
  }

  /** The length of the longest run of attribute characters at the front of `s`. */
  function AttrRun(s: string): (n: nat)
    ensures n <= |s| && AllAttrChars(s[..n])
    ensures n < |s| ==> !IsAttrChar(s[n])
  {
    if s != [] && IsAttrChar(s[0]) then
      var n := 1 + AttrRun(s[1..]);
      assert s[..n] == [s[0]] + s[1..][..n - 1];
      n
    else 0
  }

  /** The match of the policy shape at the start of `arg`: its type name and its
      attribute text. Neither class holds a parenthesis, so the greedy match is
      the only one; text after the closing parenthesis is ignored. */
  function MatchPolicy(arg: string): (r: Option<(string, string)>)
    ensures r.Some? ==> r.value.0 != [] && AllLetters(r.value.0)
    ensures r.Some? ==> r.value.1 != [] && AllAttrChars(r.value.1)
    ensures r.Some? ==> HasPrefix(arg, r.value.0 + "(" + r.value.1 + ")")
  {
    var n := LetterRun(arg);
    if n == 0 || n >= |arg| || arg[n] != '(' then None
    else
      var rest := arg[n + 1..];
      var m := AttrRun(rest);
      if m == 0 || m >= |rest| || rest[m] != ')' then None
      else
        assert arg[..n + 1 + m + 1] == arg[..n] + "(" + rest[..m] + ")";
        Some((arg[..n], rest[..m]))
  }

  lemma {:induction false} LetterRunOf(a: string, b: string)
    requires AllLetters(a) && (b == [] || !IsLetter(b[0]))
    ensures LetterRun(a + b) == |a|
    decreases |a|
  {
    if a != [] {
      assert (a + b)[1..] == a[1..] + b;
      LetterRunOf(a[1..], b);
    } else {
      assert a + b == b;
    }
  }

  lemma {:induction false} AttrRunOf(a: string, b: string)
    requires AllAttrChars(a) && (b == [] || !IsAttrChar(b[0]))
    ensures AttrRun(a + b) == |a|
    decreases |a|
  {
    if a != [] {
      assert (a + b)[1..] == a[1..] + b;
      AttrRunOf(a[1..], b);
    } else {
      assert a + b == b;
    }
  }

  /** The match read off the two runs. */
  lemma MatchPolicyAt(arg: string, rest: string, n: nat, m: nat)
    requires 0 < n < |arg| && LetterRun(arg) == n && arg[n] == '('
    requires rest == arg[n + 1..] && 0 < m < |rest| && AttrRun(rest) == m && rest[m] == ')'
    ensures MatchPolicy(arg) == Some((arg[..n], rest[..m]))
  {
  }

  /** Every argument of the policy shape matches, with its own type name and
      attributes, whatever follows the closing parenthesis. */
  lemma MatchPolicyOf(name: string, attrs: string, tail: string)
    requires name != [] && AllLetters(name)
    requires attrs != [] && AllAttrChars(attrs)
    ensures MatchPolicy(name + "(" + attrs + ")" + tail) == Some((name, attrs))
  {
    var close := ")" + tail;
    var rest := attrs + close;
    var arg := name + ("(" + rest);
    assert arg == name + "(" + attrs + ")" + tail;
    LetterRunOf(name, "(" + rest);
    assert arg[|name|] == '(' && arg[..|name|] == name && arg[|name| + 1..] == rest;
    AttrRunOf(attrs, close);
    assert rest[|attrs|] == ')' && rest[..|attrs|] == attrs;
    MatchPolicyAt(arg, rest, |name|, |attrs|);
  }

  // ---------------------------------------------------------------------------
  // The attribute scans of `parseExpiration`, `parseExpirationNotification`
  // and `parseNoChangeNotification`.

  /** The trimmed `key=value` pieces of one attribute. */
  function KeyValue(part: string): seq<string>
  {
    Commands.TrimAll(Split(part, '='))
  }

  /** No attribute that the scan reaches lacks the `=` the parser reads its value
      from (the source indexes past the end of the pieces then). */
  predicate Scannable(parts: seq<string>, valueKey: string, hasUnit: bool, parse: string -> Option<int>)
    decreases |parts|
  {
    parts == [] ||
    var kv := KeyValue(parts[0]);
    var key := ToLower(kv[0]);
    if key == valueKey then |kv| >= 2 && (parse(kv[1]).Some? ==> Scannable(parts[1..], valueKey, hasUnit, parse))
    else if hasUnit && key == "unit" then |kv| >= 2 && Scannable(parts[1..], valueKey, hasUnit, parse)
    else true
  }

  /** The scan shared by the three parsers: each attribute's key, lower-cased,
      selects the attribute it sets; the value key's text is read by `parse`;
      a later setting replaces an earlier one; an attribute with any other key
      is an error. */
  function Scan(parts: seq<string>, valueKey: string, hasUnit: bool, parse: string -> Option<int>,
                policyType: string, value: int, unit: string): Result<(int, string), PolicyError>
    requires Scannable(parts, valueKey, hasUnit, parse)
    decreases |parts|
  {
    if parts == [] then Ok((value, unit))
    else
      var kv := KeyValue(parts[0]);
      var key := ToLower(kv[0]);
      if key == valueKey then
        match parse(kv[1])
        case None => Err(BadValue(kv[1]))
        case Some(v) => Scan(parts[1..], valueKey, hasUnit, parse, policyType, v, unit)
      else if hasUnit && key == "unit" then Scan(parts[1..], valueKey, hasUnit, parse, policyType, value, kv[1])
      else Err(InvalidAttribute(policyType, parts[0]))
  }

  /** The trimmed attributes of an attribute text. */
  function Parts(attrArgs: string): seq<string>
  {
    Commands.TrimAll(Split(attrArgs, ','))
  }

  function ExpirationOf(attrArgs: string, parseTime: string -> Option<int>): Result<Expiration, PolicyError>
    requires Scannable(Parts(attrArgs), "timestamp", false, parseTime)
  {
    match Scan(Parts(attrArgs), "timestamp", false, parseTime, ExpirationPolicy, 0, "")
    case Err(e) => Err(e)
    case Ok(a) => Ok(Expiration(ExpirationPolicy, PolicyVersion, ExpirationAttributes(a.0)))
  }

  function ExpirationNotificationOf(attrArgs: string): Result<ExpirationNotification, PolicyError>
    requires Scannable(Parts(attrArgs), "before", true, Atoi)
  {
    match Scan(Parts(attrArgs), "before", true, Atoi, ExpirationNotificationPolicy, 0, "")
    case Err(e) => Err(e)
    case Ok(a) => Ok(ExpirationNotification(ExpirationNotificationPolicy, PolicyVersion,
                                            ExpirationNotificationAttributes(a.0, a.1)))
  }

  function NoChangeNotificationOf(attrArgs: string): Result<NoChangeNotification, PolicyError>
    requires Scannable(Parts(attrArgs), "after", true, Atoi)
  {
    match Scan(Parts(attrArgs), "after", true, Atoi, NoChangeNotificationPolicy, 0, "")
    case Err(e) => Err(e)
    case Ok(a) => Ok(NoChangeNotification(NoChangeNotificationPolicy, PolicyVersion,
                                          NoChangeNotificationAttributes(a.0, a.1)))
  }

  /** The loop the three parsers share, over the trimmed attributes. */
  method ScanAttributes(attrArgs: string, valueKey: string, hasUnit: bool, parse: string -> Option<int>, policyType: string)
    returns (r: Result<(int, string), PolicyError>)
    requires Scannable(Parts(attrArgs), valueKey, hasUnit, parse)
    ensures r == Scan(Parts(attrArgs), valueKey, hasUnit, parse, policyType, 0, "")
  {
    var parts := Commands.Trim(Split(attrArgs, ','));
    var value, unit := 0, "";
    for i := 0 to |parts|
      invariant Scannable(parts[i..], valueKey, hasUnit, parse)
      invariant Scan(parts, valueKey, hasUnit, parse, policyType, 0, "")
                == Scan(parts[i..], valueKey, hasUnit, parse, policyType, value, unit)
    {
      assert parts[i..][0] == parts[i] && parts[i..][1..] == parts[i + 1..];
      var attrArg := Commands.Trim(Split(parts[i], '='));
      var key := ToLower(attrArg[0]);
      if key == valueKey {
        match parse(attrArg[1])
        case None =>
          return Err(BadValue(attrArg[1]));
        case Some(v) =>
          value := v;
      } else if hasUnit && key == "unit" {
        unit := attrArg[1];
      } else {
        return Err(InvalidAttribute(policyType, parts[i]));
      }
    }
    assert parts[|parts|..] == [];
    r := Ok((value, unit));
  }

  /** `parseExpiration`, with the time library's parser as a parameter. */
  method ParseExpiration(attrArgs: string, parseTime: string -> Option<int>) returns (r: Result<Expiration, PolicyError>)
    requires Scannable(Parts(attrArgs), "timestamp", false, parseTime)
    ensures r == ExpirationOf(attrArgs, parseTime)
  {
    var a := ScanAttributes(attrArgs, "timestamp", false, parseTime, ExpirationPolicy);
    match a
    case Err(e) => r := Err(e);
    case Ok(v) => r := Ok(Expiration(ExpirationPolicy, PolicyVersion, ExpirationAttributes(v.0)));
  }

  /** `parseExpirationNotification`. */
  method ParseExpirationNotification(attrArgs: string) returns (r: Result<ExpirationNotification, PolicyError>)
    requires Scannable(Parts(attrArgs), "before", true, Atoi)
    ensures r == ExpirationNotificationOf(attrArgs)
  {
    var a := ScanAttributes(attrArgs, "before", true, Atoi, ExpirationNotificationPolicy);
    match a
    case Err(e) => r := Err(e);
    case Ok(v) =>
      r := Ok(ExpirationNotification(ExpirationNotificationPolicy, PolicyVersion, ExpirationNotificationAttributes(v.0, v.1)));
  }

  /** `parseNoChangeNotification`. */
  method ParseNoChangeNotification(attrArgs: string) returns (r: Result<NoChangeNotification, PolicyError>)
    requires Scannable(Parts(attrArgs), "after", true, Atoi)
    ensures r == NoChangeNotificationOf(attrArgs)
  {
    var a := ScanAttributes(attrArgs, "after", true, Atoi, NoChangeNotificationPolicy);
    match a
    case Err(e) => r := Err(e);
    case Ok(v) =>
      r := Ok(NoChangeNotification(NoChangeNotificationPolicy, PolicyVersion, NoChangeNotificationAttributes(v.0, v.1)));
  }

  // ---------------------------------------------------------------------------
  // `createPolicy`.

  /** No argument that `createPolicy` reaches makes a parser index past the end. */
  predicate ArgParseable(arg: string, parseTime: string -> Option<int>)
  {
    match MatchPolicy(arg)
    case None => true
    case Some(m) =>
      (m.0 == ExpirationPolicy ==> Scannable(Parts(m.1), "timestamp", false, parseTime)) &&
      (m.0 == ExpirationNotificationPolicy ==> Scannable(Parts(m.1), "before", true, Atoi)) &&
      (m.0 == NoChangeNotificationPolicy ==> Scannable(Parts(m.1), "after", true, Atoi))
  }

  /** One argument of `createPolicy`: its shape, then the parser its type selects. */
  function ParseArg(arg: string, parseTime: string -> Option<int>): (r: Result<Policy, PolicyError>)
    requires ArgParseable(arg, parseTime)
    ensures MatchPolicy(arg).None? ==> r == Err(Unvalidated(arg))
    ensures r.Ok? ==> MatchPolicy(arg).Some? && MatchPolicy(arg).value.0 in
                        {ExpirationPolicy, ExpirationNotificationPolicy, NoChangeNotificationPolicy}
  {
    match MatchPolicy(arg)
    case None => Err(Unvalidated(arg))
    case Some(m) =>
      if m.0 == ExpirationPolicy then
        match ExpirationOf(m.1, parseTime)
        case Err(e) => Err(e)
        case Ok(e) => Ok(ExpirationKind(e))
      else if m.0 == ExpirationNotificationPolicy then
        match ExpirationNotificationOf(m.1)
        case Err(e) => Err(e)
        case Ok(n) => Ok(ExpirationNotificationKind(n))
      else if m.0 == NoChangeNotificationPolicy then
        match NoChangeNotificationOf(m.1)
        case Err(e) => Err(e)
        case Ok(n) => Ok(NoChangeNotificationKind(n))
      else Err(UnknownType(m.0, m.1))
  }

  /** Adding one parsed policy: an expiration replaces the one held, a
      notification is appended to its list. */
  function AddPolicy(p: ParameterPolicies, x: Policy): ParameterPolicies
  {
    match x
    case ExpirationKind(e) => p.(expiration := e)
    case ExpirationNotificationKind(n) => p.(expirationNotification := p.expirationNotification + [n])
    case NoChangeNotificationKind(n) => p.(noChangeNotification := p.noChangeNotification + [n])
  }

  /** Every argument up to the first one that fails can be parsed. */
  predicate BuildSafe(args: seq<string>, parseTime: string -> Option<int>)
    decreases |args|
  {
    args == [] || (ArgParseable(args[0], parseTime) && (ParseArg(args[0], parseTime).Ok? ==> BuildSafe(args[1..], parseTime)))
  }

  /** `createPolicy`'s loop from `acc` on: the first failing argument's error, or
      the policies of all arguments added in order. */
  function Build(args: seq<string>, parseTime: string -> Option<int>, acc: ParameterPolicies): Result<ParameterPolicies, PolicyError>
    requires BuildSafe(args, parseTime)
    decreases |args|
  {
    if args == [] then Ok(acc)
    else
      match ParseArg(args[0], parseTime)
      case Err(e) => Err(e)
      case Ok(x) => Build(args[1..], parseTime, AddPolicy(acc, x))
  }

  /** Adding parsed policies one after the other. */
  function AddAll(acc: ParameterPolicies, xs: seq<Policy>): ParameterPolicies
    decreases |xs|
  {
    if xs == [] then acc else AddAll(AddPolicy(acc, xs[0]), xs[1..])
  }

  /** The last expiration among `xs`, or `e` if there is none. */
  function LastExpiration(e: Expiration, xs: seq<Policy>): Expiration
    decreases |xs|
  {
    if xs == [] then e
    else if xs[|xs| - 1].ExpirationKind? then xs[|xs| - 1].expiration
    else LastExpiration(e, xs[..|xs| - 1])
  }

  /** The expiration notifications among `xs`, in order. */
  function ExpirationNotificationsIn(xs: seq<Policy>): seq<ExpirationNotification>
    decreases |xs|
  {
    if xs == [] then []
    else (if xs[0].ExpirationNotificationKind? then [xs[0].expirationNotification] else [])
         + ExpirationNotificationsIn(xs[1..])
  }

  /** The no-change notifications among `xs`, in order. */
  function NoChangeNotificationsIn(xs: seq<Policy>): seq<NoChangeNotification>
    decreases |xs|
  {
    if xs == [] then []
    else (if xs[0].NoChangeNotificationKind? then [xs[0].noChangeNotification] else [])
         + NoChangeNotificationsIn(xs[1..])
  }

  lemma {:induction false} LastExpirationCons(e: Expiration, x: Policy, xs: seq<Policy>)
    ensures LastExpiration(e, [x] + xs) == LastExpiration(if x.ExpirationKind? then x.expiration else e, xs)
    decreases |xs|
  {
    if xs != [] {
      assert ([x] + xs)[..|[x] + xs| - 1] == [x] + xs[..|xs| - 1];
      LastExpirationCons(e, x, xs[..|xs| - 1]);
    }
  }

  lemma {:induction false} AddAllExpiration(acc: ParameterPolicies, xs: seq<Policy>)
    ensures AddAll(acc, xs).expiration == LastExpiration(acc.expiration, xs)
    decreases |xs|
  {
    if xs != [] {
      AddAllExpiration(AddPolicy(acc, xs[0]), xs[1..]);
      assert xs == [xs[0]] + xs[1..];
      LastExpirationCons(acc.expiration, xs[0], xs[1..]);
    }
  }

  lemma {:induction false} AddAllExpirationNotifications(acc: ParameterPolicies, xs: seq<Policy>)
    ensures AddAll(acc, xs).expirationNotification == acc.expirationNotification + ExpirationNotificationsIn(xs)
    decreases |xs|
  {
    if xs != [] {
      var next := AddPolicy(acc, xs[0]);
      AddAllExpirationNotifications(next, xs[1..]);
      assert next.expirationNotification == acc.expirationNotification
        + (if xs[0].ExpirationNotificationKind? then [xs[0].expirationNotification] else []);
    }
  }

  lemma {:induction false} AddAllNoChangeNotifications(acc: ParameterPolicies, xs: seq<Policy>)
    ensures AddAll(acc, xs).noChangeNotification == acc.noChangeNotification + NoChangeNotificationsIn(xs)
    decreases |xs|
  {
    if xs != [] {
      var next := AddPolicy(acc, xs[0]);
      AddAllNoChangeNotifications(next, xs[1..]);
      assert next.noChangeNotification == acc.noChangeNotification
        + (if xs[0].NoChangeNotificationKind? then [xs[0].noChangeNotification] else []);
    }
  }

  /** Within one `createPolicy`, the last expiration wins over earlier ones and
      over the one held before, while both kinds of notification are appended
      in argument order. */
  lemma AddAllCollects(acc: ParameterPolicies, xs: seq<Policy>)
    ensures AddAll(acc, xs) == ParameterPolicies(
              LastExpiration(acc.expiration, xs),
              acc.expirationNotification + ExpirationNotificationsIn(xs),
              acc.noChangeNotification + NoChangeNotificationsIn(xs))
  {
    AddAllExpiration(acc, xs);
    AddAllExpirationNotifications(acc, xs);
    AddAllNoChangeNotifications(acc, xs);
  }

  /** All the arguments parse, and what they give. */
  predicate AllParse(args: seq<string>, parseTime: string -> Option<int>)
  {
    forall i :: 0 <= i < |args| ==> ArgOk(args[i], parseTime)
  }

  function ParsedAll(args: seq<string>, parseTime: string -> Option<int>): (xs: seq<Policy>)
    requires AllParse(args, parseTime)
    ensures |xs| == |args|
    ensures forall i :: 0 <= i < |args| ==> xs[i] == ParseArg(args[i], parseTime).value
  {
    seq(|args|, i requires 0 <= i < |args| && AllParse(args, parseTime) => ParseArg(args[i], parseTime).value)
  }

  /** One argument parses on its own. */
  predicate ArgOk(arg: string, parseTime: string -> Option<int>)
  {
    ArgParseable(arg, parseTime) && ParseArg(arg, parseTime).Ok?
  }

  lemma AllParseCons(args: seq<string>, parseTime: string -> Option<int>)
    requires args != []
    ensures AllParse(args, parseTime) <==> ArgOk(args[0], parseTime) && AllParse(args[1..], parseTime)
  {
    if ArgOk(args[0], parseTime) && AllParse(args[1..], parseTime) {
      forall i | 0 <= i < |args|
        ensures ArgOk(args[i], parseTime)
      {
        if i > 0 {
          assert args[i] == args[1..][i - 1];
        }
      }
    }
    if AllParse(args, parseTime) {
      forall i | 0 <= i < |args| - 1
        ensures ArgOk(args[1..][i], parseTime)
      {
        assert args[1..][i] == args[i + 1];
      }
    }
  }

  lemma ParsedAllCons(args: seq<string>, parseTime: string -> Option<int>)
    requires args != [] && ArgOk(args[0], parseTime) && AllParse(args[1..], parseTime) && AllParse(args, parseTime)
    ensures ParsedAll(args, parseTime) == [ParseArg(args[0], parseTime).value] + ParsedAll(args[1..], parseTime)
  {
  }

  /** `createPolicy` succeeds exactly when every argument parses, and then holds
      the parsed policies added one after the other. */
  lemma {:induction false} BuildOk(args: seq<string>, parseTime: string -> Option<int>, acc: ParameterPolicies)
    requires BuildSafe(args, parseTime)
    ensures Build(args, parseTime, acc).Ok? <==> AllParse(args, parseTime)
    ensures AllParse(args, parseTime) ==> Build(args, parseTime, acc) == Ok(AddAll(acc, ParsedAll(args, parseTime)))
    decreases |args|
  {
    if args != [] {
      AllParseCons(args, parseTime);
      if ParseArg(args[0], parseTime).Ok? {
        BuildOk(args[1..], parseTime, AddPolicy(acc, ParseArg(args[0], parseTime).value));
        if AllParse(args, parseTime) {
          ParsedAllCons(args, parseTime);
        }
      }
    }
  }

  /** One turn of `createPolicy`'s loop: the argument's shape, then the parser
      its type selects, then the update of the policy being built. */
  method AddArg(policy: ParameterPolicies, arg: string, parseTime: string -> Option<int>)
    returns (policy': ParameterPolicies, err: Option<PolicyError>)
    requires ArgParseable(arg, parseTime)
    ensures ParseArg(arg, parseTime).Ok? ==> err.None? && policy' == AddPolicy(policy, ParseArg(arg, parseTime).value)
    ensures ParseArg(arg, parseTime).Err? ==> err == Some(ParseArg(arg, parseTime).error)
  {
    policy' := policy;
    var m := MatchPolicy(arg);
    if m.None? {
      return policy', Some(Unvalidated(arg));
    }
    var policyType, policyAttributes := m.value.0, m.value.1;
    if policyType == ExpirationPolicy {
      var p := ParseExpiration(policyAttributes, parseTime);
      match p
      case Err(e) => err := Some(e);
      case Ok(e) => policy', err := policy.(expiration := e), None;
    } else if policyType == ExpirationNotificationPolicy {
      var p := ParseExpirationNotification(policyAttributes);
      match p
      case Err(e) => err := Some(e);
      case Ok(n) => policy', err := policy.(expirationNotification := policy.expirationNotification + [n]), None;
    } else if policyType == NoChangeNotificationPolicy {
      var p := ParseNoChangeNotification(policyAttributes);
      match p
      case Err(e) => err := Some(e);
      case Ok(n) => policy', err := policy.(noChangeNotification := policy.noChangeNotification + [n]), None;
    } else {
      err := Some(UnknownType(policyType, policyAttributes));
    }
  }

  // ---------------------------------------------------------------------------
  // Printing a notification and parsing it back.

  /** A unit the attribute class can carry that is a single attribute value:
      no `,` and no `=` (and so, being in the class, no white space). */
  predicate UnitText(u: string)
  {
    forall k :: 0 <= k < |u| ==> IsAttrChar(u[k]) && u[k] != ',' && u[k] != '='
  }

  lemma ItoaShape(n: int)
    ensures Itoa(n) != [] && AllAttrChars(Itoa(n)) && ',' !in Itoa(n) && '=' !in Itoa(n)
    ensures TrimSpace(Itoa(n)) == Itoa(n)
  {
    var d := Digits(if n < 0 then -n else n);
    assert AllDigits(d);
    if n < 0 {
      assert Itoa(n) == "-" + d;
      assert forall k :: 0 < k < |Itoa(n)| ==> Itoa(n)[k] == d[k - 1];
    }
    TrimSpaceUnchanged(Itoa(n));
  }

  lemma KeyValueOf(key: string, value: string)
    requires '=' !in key && '=' !in value
    requires TrimSpace(key) == key && TrimSpace(value) == value
    ensures KeyValue(key + "=" + value) == [key, value]
  {
    assert Split(key + "=" + value, '=') == [key, value] by {
      SplitAppend(key, value, '=');
      SplitNoSeparator(key, '=');
      SplitNoSeparator(value, '=');
    }
    TrimPairUnchanged(key, value);
  }

  lemma TrimPairUnchanged(a: string, b: string)
    requires TrimSpace(a) == a && TrimSpace(b) == b
    ensures Commands.TrimAll([a, b]) == [a, b]
  {
    var t := Commands.TrimAll([a, b]);
    assert t[0] == a && t[1] == b;
  }

  lemma PartsOfPair(a: string, b: string)
    requires ',' !in a && ',' !in b
    requires TrimSpace(a) == a && TrimSpace(b) == b
    ensures Parts(a + "," + b) == [a, b]
  {
    assert Split(a + "," + b, ',') == [a, b] by {
      SplitAppend(a, b, ',');
      SplitNoSeparator(a, ',');
      SplitNoSeparator(b, ',');
    }
    TrimPairUnchanged(a, b);
  }

  lemma NotificationAttrsShape(countName: string, count: int, unit: string)
    requires countName != [] && AllLetters(countName) && UnitText(unit)
    ensures var attrs := NotificationAttrs(countName, count, unit);
            attrs != [] && AllAttrChars(attrs)
  {
    ItoaShape(count);
    var i := Itoa(count);
    assert AllAttrChars(countName) && AllAttrChars(unit);
    assert AllAttrChars("=") && AllAttrChars(",") && AllAttrChars("Unit=");
    AttrCharsAppend(countName, "=");
    AttrCharsAppend(countName + "=", i);
    AttrCharsAppend(countName + "=" + i, ",");
    AttrCharsAppend(countName + "=" + i + ",", "Unit=");
    AttrCharsAppend(countName + "=" + i + "," + "Unit=", unit);
  }

  /** Attribute text followed by attribute text is attribute text. */
  lemma AttrCharsAppend(a: string, b: string)
    requires AllAttrChars(a) && AllAttrChars(b)
    ensures AllAttrChars(a + b)
  {
    forall k | 0 <= k < |a + b|
      ensures IsAttrChar((a + b)[k])
    {
      if k >= |a| {
        assert (a + b)[k] == b[k - |a|];
      }
    }
  }

  lemma UnitTrimmed(unit: string)
    requires UnitText(unit)
    ensures TrimSpace(unit) == unit && TrimSpace("Unit=" + unit) == "Unit=" + unit
  {
    TrimSpaceUnchanged(unit);
    var a := "Unit=" + unit;
    assert a[0] == 'U';
    assert a[|a| - 1] == '=' || a[|a| - 1] == unit[|unit| - 1];
    TrimSpaceUnchanged(a);
  }

  lemma CountTrimmed(countName: string, count: int)
    requires countName != [] && AllLetters(countName)
    ensures TrimSpace(countName) == countName
    ensures TrimSpace(countName + "=" + Itoa(count)) == countName + "=" + Itoa(count)
  {
    ItoaShape(count);
    TrimSpaceUnchanged(countName);
    var a := countName + "=" + Itoa(count);
    assert a[0] == countName[0];
    assert a[|a| - 1] == Itoa(count)[|Itoa(count)| - 1];
    TrimSpaceUnchanged(a);
  }

  /** The attribute text a notification printer writes scans back to the same
      number and unit. */
  lemma NotificationScanOf(countName: string, valueKey: string, count: int, unit: string, policyType: string)
    requires ToLower(countName) == valueKey && valueKey != "unit" && ToLower("Unit") == "unit"
    requires countName != [] && AllLetters(countName)
    requires MinInt64 <= count <= MaxInt64 && UnitText(unit)
    ensures Scannable(Parts(NotificationAttrs(countName, count, unit)), valueKey, true, Atoi)
    ensures Scan(Parts(NotificationAttrs(countName, count, unit)), valueKey, true, Atoi, policyType, 0, "") == Ok((count, unit))
  {
    var a := countName + "=" + Itoa(count);
    var b := "Unit=" + unit;
    var parts := [a, b];
    PartsOfNotification(countName, count, unit);
    KeyValueOfCount(countName, count);
    KeyValueOfUnit(unit);
    AtoiItoa(count);
    assert parts[1..] == [b] && [b][1..] == [];
    ScanUnitStep([b], valueKey, Atoi, policyType, count, "");
    ScanValueStep(parts, valueKey, true, Atoi, policyType, 0, "", count);
  }

  lemma LettersHoldNoSeparator(s: string)
    requires AllLetters(s)
    ensures ',' !in s && '=' !in s
  {
    assert forall k :: 0 <= k < |s| ==> IsLetter(s[k]);
  }

  lemma UnitHoldsNoSeparator(unit: string)
    requires UnitText(unit)
    ensures ',' !in unit && '=' !in unit
  {
    assert forall k :: 0 <= k < |unit| ==> unit[k] != ',' && unit[k] != '=';
  }

  lemma PartsOfNotification(countName: string, count: int, unit: string)
    requires countName != [] && AllLetters(countName) && UnitText(unit)
    ensures Parts(NotificationAttrs(countName, count, unit)) == [countName + "=" + Itoa(count), "Unit=" + unit]
  {
    var a := countName + "=" + Itoa(count);
    var b := "Unit=" + unit;
    LettersHoldNoSeparator(countName);
    UnitHoldsNoSeparator(unit);
    ItoaShape(count);
    CountTrimmed(countName, count);
    UnitTrimmed(unit);
    assert NotificationAttrs(countName, count, unit) == a + "," + b;
    assert ',' !in a;
    assert ',' !in b;
    PartsOfPair(a, b);
  }

  lemma KeyValueOfCount(countName: string, count: int)
    requires countName != [] && AllLetters(countName)
    ensures KeyValue(countName + "=" + Itoa(count)) == [countName, Itoa(count)]
  {
    LettersHoldNoSeparator(countName);
    ItoaShape(count);
    CountTrimmed(countName, count);
    KeyValueOf(countName, Itoa(count));
  }

  lemma KeyValueOfUnit(unit: string)
    requires UnitText(unit)
    ensures KeyValue("Unit=" + unit) == ["Unit", unit]
  {
    UnitHoldsNoSeparator(unit);
    UnitTrimmed(unit);
    assert "Unit=" + unit == "Unit" + "=" + unit;
    KeyValueOf("Unit", unit);
  }

  /** An attribute with the value key that parses sets the value. */
  lemma ScanValueStep(parts: seq<string>, valueKey: string, hasUnit: bool, parse: string -> Option<int>,
                      policyType: string, value: int, unit: string, v: int)
    requires parts != [] && |KeyValue(parts[0])| >= 2 && ToLower(KeyValue(parts[0])[0]) == valueKey
    requires parse(KeyValue(parts[0])[1]) == Some(v) && Scannable(parts[1..], valueKey, hasUnit, parse)
    ensures Scannable(parts, valueKey, hasUnit, parse)
    ensures Scan(parts, valueKey, hasUnit, parse, policyType, value, unit)
            == Scan(parts[1..], valueKey, hasUnit, parse, policyType, v, unit)
  {
  }

  /** A unit attribute sets the unit. */
  lemma ScanUnitStep(parts: seq<string>, valueKey: string, parse: string -> Option<int>,
                     policyType: string, value: int, unit: string)
    requires parts != [] && |KeyValue(parts[0])| >= 2 && ToLower(KeyValue(parts[0])[0]) == "unit" != valueKey
    requires Scannable(parts[1..], valueKey, true, parse)
    ensures Scannable(parts, valueKey, true, parse)
    ensures Scan(parts, valueKey, true, parse, policyType, value, unit)
            == Scan(parts[1..], valueKey, true, parse, policyType, value, KeyValue(parts[0])[1])
  {
  }

  /** A unit attribute on its own leaves the count at zero. */
  lemma NotificationUnitOnly(valueKey: string, unit: string, policyType: string)
    requires valueKey != "unit" && UnitText(unit)
    ensures Scannable(Parts("Unit=" + unit), valueKey, true, Atoi)
    ensures Scan(Parts("Unit=" + unit), valueKey, true, Atoi, policyType, 0, "") == Ok((0, unit))
  {
    var b := "Unit=" + unit;
    UnitHoldsNoSeparator(unit);
    assert ',' !in b;
    SplitNoSeparator(b, ',');
    UnitTrimmed(unit);
    assert Parts(b) == [b];
    KeyValueOfUnit(unit);
    LowerBefore();
    assert [b][1..] == [];
    ScanUnitStep([b], valueKey, Atoi, policyType, 0, "");
  }

  /** `ExpirationNotification(Unit=<u>)` is accepted with `Before` left at zero. */
  lemma ExpirationNotificationWithoutBefore(unit: string)
    requires UnitText(unit)
    ensures Scannable(Parts("Unit=" + unit), "before", true, Atoi)
    ensures ExpirationNotificationOf("Unit=" + unit)
            == Ok(ExpirationNotification(ExpirationNotificationPolicy, PolicyVersion, ExpirationNotificationAttributes(0, unit)))
  {
    NotificationUnitOnly("before", unit, ExpirationNotificationPolicy);
  }

  lemma LowerBefore()
    ensures ToLower("Before") == "before" && ToLower("After") == "after" && ToLower("Unit") == "unit"
  {
  }

  lemma PolicyNamesAreLetters()
    ensures AllLetters(ExpirationNotificationPolicy) && AllLetters(NoChangeNotificationPolicy)
  {
  }

  /** An argument whose shape names an expiration notification is parsed by
      `parseExpirationNotification`. */
  lemma ParseArgExpirationNotification(arg: string, attrs: string, parseTime: string -> Option<int>)
    requires MatchPolicy(arg) == Some((ExpirationNotificationPolicy, attrs))
    requires Scannable(Parts(attrs), "before", true, Atoi)
    ensures ArgParseable(arg, parseTime)
    ensures ExpirationNotificationOf(attrs).Ok? ==>
              ParseArg(arg, parseTime) == Ok(ExpirationNotificationKind(ExpirationNotificationOf(attrs).value))
  {
  }

  /** An argument whose shape names a no-change notification is parsed by
      `parseNoChangeNotification`. */
  lemma ParseArgNoChangeNotification(arg: string, attrs: string, parseTime: string -> Option<int>)
    requires MatchPolicy(arg) == Some((NoChangeNotificationPolicy, attrs))
    requires Scannable(Parts(attrs), "after", true, Atoi)
    ensures ArgParseable(arg, parseTime)
    ensures NoChangeNotificationOf(attrs).Ok? ==>
              ParseArg(arg, parseTime) == Ok(NoChangeNotificationKind(NoChangeNotificationOf(attrs).value))
  {
  }

  /** Printing an expiration notification and parsing the printed text as a
      `createPolicy` argument gives back the same notification, for every number
      a Go `int` holds and every unit the attribute class can carry. */
  lemma ExpirationNotificationRoundTrip(n: ExpirationNotification, parseTime: string -> Option<int>)
    requires n.Type == ExpirationNotificationPolicy && n.Version == PolicyVersion
    requires MinInt64 <= n.Attributes.Before <= MaxInt64 && UnitText(n.Attributes.Unit)
    ensures ArgParseable(n.Print(), parseTime)
    ensures ParseArg(n.Print(), parseTime) == Ok(ExpirationNotificationKind(n))
  {
    var attrs := NotificationAttrs("Before", n.Attributes.Before, n.Attributes.Unit);
    ExpirationNotificationMatches(n);
    ExpirationNotificationScans(n);
    ParseArgExpirationNotification(n.Print(), attrs, parseTime);
  }

  lemma ExpirationNotificationMatches(n: ExpirationNotification)
    requires n.Type == ExpirationNotificationPolicy
    requires MinInt64 <= n.Attributes.Before <= MaxInt64 && UnitText(n.Attributes.Unit)
    ensures MatchPolicy(n.Print()) == Some((ExpirationNotificationPolicy, NotificationAttrs("Before", n.Attributes.Before, n.Attributes.Unit)))
  {
    var attrs := NotificationAttrs("Before", n.Attributes.Before, n.Attributes.Unit);
    PolicyNamesAreLetters();
    NotificationAttrsShape("Before", n.Attributes.Before, n.Attributes.Unit);
    assert n.Print() == ExpirationNotificationPolicy + "(" + attrs + ")" + "\n";
    MatchPolicyOf(ExpirationNotificationPolicy, attrs, "\n");
  }

  lemma ExpirationNotificationScans(n: ExpirationNotification)
    requires n.Type == ExpirationNotificationPolicy && n.Version == PolicyVersion
    requires MinInt64 <= n.Attributes.Before <= MaxInt64 && UnitText(n.Attributes.Unit)
    ensures Scannable(Parts(NotificationAttrs("Before", n.Attributes.Before, n.Attributes.Unit)), "before", true, Atoi)
    ensures ExpirationNotificationOf(NotificationAttrs("Before", n.Attributes.Before, n.Attributes.Unit)) == Ok(n)
  {
    LowerBefore();
    NotificationScanOf("Before", "before", n.Attributes.Before, n.Attributes.Unit, ExpirationNotificationPolicy);
  }

  /** The same for a no-change notification. */
  lemma NoChangeNotificationRoundTrip(n: NoChangeNotification, parseTime: string -> Option<int>)
    requires n.Type == NoChangeNotificationPolicy && n.Version == PolicyVersion
    requires MinInt64 <= n.Attributes.After <= MaxInt64 && UnitText(n.Attributes.Unit)
    ensures ArgParseable(n.Print(), parseTime)
    ensures ParseArg(n.Print(), parseTime) == Ok(NoChangeNotificationKind(n))
  {
    var attrs := NotificationAttrs("After", n.Attributes.After, n.Attributes.Unit);
    NoChangeNotificationMatches(n);
    NoChangeNotificationScans(n);
    ParseArgNoChangeNotification(n.Print(), attrs, parseTime);
  }

  lemma NoChangeNotificationMatches(n: NoChangeNotification)
    requires n.Type == NoChangeNotificationPolicy
    requires MinInt64 <= n.Attributes.After <= MaxInt64 && UnitText(n.Attributes.Unit)
    ensures MatchPolicy(n.Print()) == Some((NoChangeNotificationPolicy, NotificationAttrs("After", n.Attributes.After, n.Attributes.Unit)))
  {
    var attrs := NotificationAttrs("After", n.Attributes.After, n.Attributes.Unit);
    PolicyNamesAreLetters();
    NotificationAttrsShape("After", n.Attributes.After, n.Attributes.Unit);
    assert n.Print() == NoChangeNotificationPolicy + "(" + attrs + ")" + "\n";
    MatchPolicyOf(NoChangeNotificationPolicy, attrs, "\n");
  }

  lemma NoChangeNotificationScans(n: NoChangeNotification)
    requires n.Type == NoChangeNotificationPolicy && n.Version == PolicyVersion
    requires MinInt64 <= n.Attributes.After <= MaxInt64 && UnitText(n.Attributes.Unit)
    ensures Scannable(Parts(NotificationAttrs("After", n.Attributes.After, n.Attributes.Unit)), "after", true, Atoi)
    ensures NoChangeNotificationOf(NotificationAttrs("After", n.Attributes.After, n.Attributes.Unit)) == Ok(n)
  {
    LowerBefore();
    NotificationScanOf("After", "after", n.Attributes.After, n.Attributes.Unit, NoChangeNotificationPolicy);
  }

  /** A formatted timestamp that the attribute class carries as a single
      attribute value: not empty, no `,` and no `=`. */
  predicate TimeText(s: string)
  {
    s != [] && UnitText(s)
  }

  /** An attribute `key=value` with a letter key and a single value is attribute
      text on its own, is the only part of itself, and splits into its key and
      its value. */
  lemma SingleAttribute(key: string, value: string)
    requires key != [] && AllLetters(key) && UnitText(value)
    ensures AllAttrChars(key + "=" + value)
    ensures Parts(key + "=" + value) == [key + "=" + value]
    ensures KeyValue(key + "=" + value) == [key, value]
  {
    var a := key + "=" + value;
    LettersHoldNoSeparator(key);
    UnitHoldsNoSeparator(value);
    assert AllAttrChars(key) && AllAttrChars(value) && AllAttrChars("=");
    AttrCharsAppend(key, "=");
    AttrCharsAppend(key + "=", value);
    assert ',' !in a;
    SplitNoSeparator(a, ',');
    TrimSpaceUnchanged(key);
    TrimSpaceUnchanged(value);
    assert a[0] == key[0];
    assert a[|a| - 1] == '=' || a[|a| - 1] == value[|value| - 1];
    TrimSpaceUnchanged(a);
    assert Parts(a) == [a];
    KeyValueOf(key, value);
  }

  /** `Timestamp=<t>` scans to the expiration of the time the parser reads
      from `t`. */
  lemma ExpirationScansBack(text: string, parseTime: string -> Option<int>, t: int)
    requires TimeText(text) && parseTime(text) == Some(t)
    ensures Scannable(Parts("Timestamp=" + text), "timestamp", false, parseTime)
    ensures ExpirationOf("Timestamp=" + text, parseTime) == Ok(Expiration(ExpirationPolicy, PolicyVersion, ExpirationAttributes(t)))
  {
    var a := "Timestamp=" + text;
    assert a == "Timestamp" + "=" + text;
    SingleAttribute("Timestamp", text);
    assert ToLower("Timestamp") == "timestamp";
    assert [a][1..] == [];
    ScanValueStep([a], "timestamp", false, parseTime, ExpirationPolicy, 0, "", t);
  }

  /** Printing an expiration and parsing the printed text as a `createPolicy`
      argument gives the expiration, with the current version, of the time
      that the parser reads back from the formatted timestamp; when the parser
      undoes the formatting that is the printed expiration itself. */
  lemma ExpirationRoundTrip(e: Expiration, format: int -> string, parseTime: string -> Option<int>, t: int)
    requires TimeText(format(e.Attributes.Timestamp)) && parseTime(format(e.Attributes.Timestamp)) == Some(t)
    ensures ArgParseable(e.Print(format), parseTime)
    ensures ParseArg(e.Print(format), parseTime) == Ok(ExpirationKind(Expiration(ExpirationPolicy, PolicyVersion, ExpirationAttributes(t))))
    ensures e.Type == ExpirationPolicy && e.Version == PolicyVersion && t == e.Attributes.Timestamp ==>
              ParseArg(e.Print(format), parseTime) == Ok(ExpirationKind(e))
  {
    var text := format(e.Attributes.Timestamp);
    var attrs := "Timestamp=" + text;
    assert attrs == "Timestamp" + "=" + text;
    assert AllLetters(ExpirationPolicy);
    assert e.Print(format) == ExpirationPolicy + "(" + attrs + ")" + "\n";
    SingleAttribute("Timestamp", text);
    MatchPolicyOf(ExpirationPolicy, attrs, "\n");
    ExpirationScansBack(text, parseTime, t);
  }

  /** An expiration attribute whose key is not `timestamp` in any letter case
      (the notifications' `Unit`, say) is refused, naming the attribute. */
  lemma ExpirationRejectsAttribute(key: string, value: string, parseTime: string -> Option<int>)
    requires key != [] && AllLetters(key) && ToLower(key) != "timestamp" && UnitText(value)
    ensures ArgParseable(ExpirationPolicy + "(" + key + "=" + value + ")", parseTime)
    ensures ParseArg(ExpirationPolicy + "(" + key + "=" + value + ")", parseTime)
            == Err(InvalidAttribute(ExpirationPolicy, key + "=" + value))
  {
    var attrs := key + "=" + value;
    var arg := ExpirationPolicy + "(" + key + "=" + value + ")";
    assert AllLetters(ExpirationPolicy);
    assert arg == ExpirationPolicy + "(" + attrs + ")" + "";
    SingleAttribute(key, value);
    ExpirationScanRejects(key, value, parseTime);
    MatchPolicyOf(ExpirationPolicy, attrs, "");
    assert MatchPolicy(arg) == Some((ExpirationPolicy, attrs));
  }

  /** The expiration scan refuses an attribute other than `timestamp`. */
  lemma ExpirationScanRejects(key: string, value: string, parseTime: string -> Option<int>)
    requires key != [] && AllLetters(key) && ToLower(key) != "timestamp" && UnitText(value)
    ensures Scannable(Parts(key + "=" + value), "timestamp", false, parseTime)
    ensures ExpirationOf(key + "=" + value, parseTime) == Err(InvalidAttribute(ExpirationPolicy, key + "=" + value))
  {
    SingleAttribute(key, value);
  }

  /** The printed expiration notifications, one line each, in order. */
  function ExpirationNotificationLines(ns: seq<ExpirationNotification>): (r: seq<string>)
    ensures |r| == |ns|
  {
    seq(|ns|, i requires 0 <= i < |ns| => ns[i].Print())
  }

  /** The printed no-change notifications, one line each, in order. */
  function NoChangeNotificationLines(ns: seq<NoChangeNotification>): (r: seq<string>)
    ensures |r| == |ns|
  {
    seq(|ns|, i requires 0 <= i < |ns| => ns[i].Print())
  }

  /** The first `n` lines, one after the other. */
  function Concat(lines: seq<string>, n: nat): string
    requires n <= |lines|
  {
    if n == 0 then "" else Concat(lines, n - 1) + lines[n - 1]
  }

  /** What `printPolicy` prints for one named policy: the expiration line (also
      for a policy that never set one, which prints the zero time), then the
      expiration notifications, then the no-change notifications. */
  function PolicyText(p: ParameterPolicies, format: int -> string): (s: string)
    ensures HasPrefix(s, ExpirationPolicy + "(Timestamp=" + format(p.expiration.Attributes.Timestamp) + ")\n")
    ensures p.expirationNotification == [] && p.noChangeNotification == [] ==> s == p.expiration.Print(format)
  {
    var e := p.expiration.Print(format);
    var notifications := Concat(ExpirationNotificationLines(p.expirationNotification), |p.expirationNotification|);
    var noChanges := Concat(NoChangeNotificationLines(p.noChangeNotification), |p.noChangeNotification|);
    assert (e + notifications + noChanges)[..|e|] == e;
    e + notifications + noChanges
  }

  /** The table of named policies (`policies`). */
  class PolicyTable {
    var policies: map<string, ParameterPolicies>

    constructor ()
      ensures policies == map[]
    {
      policies := map[];
    }

    /** `createPolicy`: parses every argument in order; on the first failure the
        table is left as it was, otherwise the name's entry is replaced as a
        whole and the other names keep theirs. */
    method CreatePolicy(policyName: string, policyArgs: seq<string>, parseTime: string -> Option<int>)
      returns (err: Option<PolicyError>)
      requires BuildSafe(policyArgs, parseTime)
      modifies this
      ensures Build(policyArgs, parseTime, NoPolicies).Err? ==>
                policies == old(policies) && err == Some(Build(policyArgs, parseTime, NoPolicies).error)
      ensures Build(policyArgs, parseTime, NoPolicies).Ok? ==>
                policies == old(policies)[policyName := Build(policyArgs, parseTime, NoPolicies).value] && err.None?
    {
      var policy := NoPolicies;
      for i := 0 to |policyArgs|
        invariant BuildSafe(policyArgs[i..], parseTime)
        invariant Build(policyArgs, parseTime, NoPolicies) == Build(policyArgs[i..], parseTime, policy)
        invariant policies == old(policies)
      {
        assert policyArgs[i..][0] == policyArgs[i] && policyArgs[i..][1..] == policyArgs[i + 1..];
        var e;
        policy, e := AddArg(policy, policyArgs[i], parseTime);
        if e.Some? {
          return e;
        }
      }
      assert policyArgs[|policyArgs|..] == [];
      policies := policies[policyName := policy];
      err := None;
    }

    /** `printPolicy`: the text of the policy named `policyName`, or nothing
        when there is no such policy. */
    method PrintPolicy(policyName: string, format: int -> string) returns (text: string)
      ensures policyName in policies ==> text == PolicyText(policies[policyName], format)
      ensures policyName !in policies ==> text == ""
    {
      text := "";
      if policyName !in policies {
        return;
      }
      text := Printed(policies[policyName], format);
    }

    /** The loops of `printPolicy` over one policy. */
    static method Printed(policy: ParameterPolicies, format: int -> string) returns (text: string)
      ensures text == PolicyText(policy, format)
    {
      var e := policy.expiration.Print(format);
      var notifications := ExpirationNotificationLines(policy.expirationNotification);
      var noChanges := NoChangeNotificationLines(policy.noChangeNotification);
      text := AppendLines(e, notifications);
      text := AppendLines(text, noChanges);
    }

    /** The lines appended one after the other to `prefix`. */
    static method AppendLines(prefix: string, lines: seq<string>) returns (text: string)
      ensures text == prefix + Concat(lines, |lines|)
    {
      text := prefix;
      for i := 0 to |lines|
        invariant text == prefix + Concat(lines, i)
      {
        text := text + lines[i];
      }
    }
  }
}
