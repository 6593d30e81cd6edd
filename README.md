# ssmsh core, modelled in Dafny

ssmsh is an interactive shell over the AWS Systems Manager Parameter Store.
The store holds a flat set of parameter names per region. The shell shows
those names as a tree of paths separated by `/`, with a current working
directory. This project models the core of the shell:

- the session object `ParameterStore` (`parameterstore/parameterstore.go`):
  - resolving names against the working directory (`fqp`);
  - listing one level of the tree (`List`, `cull`, `uniq`);
  - deleting in chunks of ten, grouped by region, optionally recursively
    (`Remove`, `delete`, `deleteByRegion`, `recursiveDelete`);
  - reading (`Get`, `GetHistory`) and writing (`Put`);
  - copying and moving parameters and whole paths (`Copy`, `copyParameter`,
    `copyParameterToPath`, `copyPathToPath`, `makeParameterMap`, `Move`);
  - changing directory (`SetCwd`, `isPath`, `isParameter`).
- the shared argument helpers of the commands (`commands/commands.go`):
  `remove`, `checkRecursion`, `parsePath`, `groupByRegion` and `trim`.
- the policy mini-language of the `policy` command (`commands/policy.go`):
  arguments like `ExpirationNotification(Before=14,Unit=days)` are parsed
  into a table of named policies, and those policies can be printed.
- the `put` command (`commands/put.go`): `field=value` options are parsed and
  validated into a write request, which is sent to the region's client.

The remote service is a value, `Remote.Store`:

- `order` holds the parameters in listing order;
- `history` maps each parameter to its versions;
- `down` is the set of regions that fail every call;
- `budget` counts the write calls left before throttling;
- `log` records every write call received.

Each session method takes the service state and returns the new one, and is
proved equal to a specification function of the old state. Where the source
iterates over a Go map, the function also takes the order in which the pairs
were visited: the method returns that order as a ghost value, and the contract
admits every order. The path copy is, in addition, held to relational
guarantees about what it writes (`CopiedPath`). The properties that matter are
proved as lemmas about those functions:

- `fqp` yields canonical paths and is idempotent;
- `cull` lists one level without repetitions;
- a successful delete removes every named parameter;
- chunks partition their input;
- a successful copy writes the source's latest contents to its destination,
  and a path copy does so for every name listed below the source while
  writing nowhere else (for canonical names copied outside the source);
- an expiration policy prints and parses again to the time the parser reads
  back, and a wrong attribute is refused;
- the notification policies print and parse again to themselves;
- a failing `put` option stops the option scan and empties the request.

The Go standard library functions that the core uses are models in
`strings.dfy` and `paths.dfy`: `strings.Split`, `strings.Join`,
`strings.TrimSpace`, `strings.ToLower`, `strings.EqualFold`, `strconv.Atoi`,
`strconv.Itoa`, `strconv.ParseBool` and `filepath.Clean`.

## Model

| member | source | states |
|---|---|---|
| Commands.Remove | commands/commands.go:57-59 | The array's first Length-1 slots hold the old contents without the element at `i`, in order; the last slot keeps its old value. |
| Commands.CheckRecursion | commands/commands.go:62-70 | Recursion is reported iff some argument equals `-r` ignoring case. In that case the first such argument is removed in place; otherwise the arguments are left untouched. |
| Commands.FirstFlag | commands/commands.go:62-70 | The index found holds the flag and no earlier argument does; none is found iff no argument is the flag. |
| Commands.SplitRegionCases | commands/commands.go:73-85 | With no `:` the name is the whole argument in the default region. With one `:` the argument is exactly region, `:`, name. With two or more, both are empty. |
| Commands.SplitRegionQualified | commands/commands.go:73-85 | `region:name` gives exactly that region and that name. |
| Commands.ParsePath | commands/commands.go:73-85 | The result is the split argument, and afterwards a client exists for its region; an existing client is kept, any other session field is unchanged. |
| Commands.GroupByRegion | commands/commands.go:87-93 | The keys are exactly the regions present; each key maps to its region's names in input order. |
| Commands.Trim | commands/commands.go:95-100 | One output per argument, each with its surrounding white space removed. |
| Commands.TrimTwice | commands/commands.go:95-100 | Trimming is idempotent. |
| Commands.WithoutMultiset | commands/commands.go:57-59 | Removing one element loses exactly that element. |
| Strings.SplitJoin | commands/commands.go:73-85 | Joining parts that hold no separator and splitting again gives the parts back. |
| Strings.JoinSplit | commands/put.go:126-133 | Splitting on a separator and joining again gives the text back. |
| Strings.TrimSpaceIdempotent | commands/commands.go:95-100 | `TrimSpace` is idempotent. |
| Strings.AtoiItoa | commands/policy.go:203 | A 64-bit integer printed in decimal parses back to itself. |
| Paths.FqpIsCanonical | parameterstore/parameterstore.go:459-469 | With an absolute working directory, every resolved name is a clean absolute path: no empty, `.` or `..` segment and no trailing separator. |
| Paths.FqpFixesCanonical | parameterstore/parameterstore.go:459-469 | A canonical path resolves to itself in any working directory. |
| Paths.FqpIdempotent | parameterstore/parameterstore.go:459-469 | Resolving a resolved name again changes nothing. |
| Paths.CleanIdempotent | parameterstore/parameterstore.go:459-469 | Cleaning a rooted path is idempotent. |
| Paths.FqpExample | parameterstore/parameterstore_test.go:164-177 | In `/`, the name `/dev/db/../..//prod` resolves to `/prod`. |
| Remote.PageCountBound | parameterstore/parameterstore.go:110-127 | Every page that can be requested comes before the page count, and a page is the last exactly when the names run out within it. |
| Remote.Store.DeleteParameters | parameterstore/parameterstore.go:223-236 | A successful call removes exactly the named parameters of the region, answers as invalid exactly the named ones that did not exist, and uses up one write. A failed call only logs the request. |
| Remote.Store.PutParameter | parameterstore/parameterstore.go:279-285 | An accepted write appends a version with the request's type, value and attributes to that name only. It is refused iff the name exists and `Overwrite` is not set. Every call is logged. |
| Remote.Store.FoundSingle | parameterstore/parameterstore.go:263-276 | Asking for one name gives its latest version when the parameter exists, and nothing otherwise. |
| ParameterStore.ParameterStore.constructor | parameterstore/parameterstore.go:45-61 | A new session is at `/`, does not decrypt or confirm, has no key, uses the `default` profile when none is given, and holds one client, for its region. |
| ParameterStore.ParameterStore.InitClient | parameterstore/parameterstore.go:64-68 | Afterwards a client exists for the region; an existing one is kept, and nothing else changes. |
| ParameterStore.ParameterStore.IsParameter | parameterstore/parameterstore.go:472-481 | True iff the service reports the parameter. |
| ParameterStore.ParameterStore.IsPath | parameterstore/parameterstore.go:484-498 | True iff the region answers and at least one parameter lies below the name in it (at the root, any parameter of the region). |
| ParameterStore.ParameterStore.SetCwd | parameterstore/parameterstore.go:77-89 | `/` always becomes the working directory. Another name does so, resolved, iff it is a path; otherwise an error is returned and the directory stays. |
| ParameterStore.CwdTestPaths | parameterstore/parameterstore_test.go:154-204 | With only `/prod/db/username` stored, `/prod` is a path `SetCwd` may enter iff its region answers, and `/nodir` is never one. |
| ParameterStore.ParameterStore.InputPaths | parameterstore/parameterstore.go:447-454 | The arguments are resolved in place against the working directory and returned in order; arguments outside the range are untouched. |
| ParameterStore.FqpAll | parameterstore/parameterstore.go:447-454 | One resolved name per argument, in order. |
| ParameterStore.ParameterStore.Get | parameterstore/parameterstore.go:263-276 | The result is the service's answer for the resolved names, in order; an unavailable region gives its error. |
| ParameterStore.ParameterStore.Put | parameterstore/parameterstore.go:279-285 | The request is forwarded unchanged to the region; the service state and the answer are the service's. |
| ParameterStore.ParameterStore.GetHistory | parameterstore/parameterstore.go:241-260 | The versions of the resolved parameter, oldest first, collected over all pages. The first failing page's error is returned instead. |
| ParameterStore.HistoryOf | parameterstore/parameterstore.go:241-260 | A successful history is never empty. |
| ParameterStore.ParameterStore.Paginate | parameterstore/parameterstore.go:110-127 | A quit iff the quit request arrives before the last page is requested. Otherwise every name below the path, in listing order, or the first page's error. |
| ParameterStore.ParameterStore.List | parameterstore/parameterstore.go:99-144 | A quit request that arrives before the last page stops it without sending. Otherwise it sends the listing below the resolved name (all of it when recursing, else one level), followed by the name itself when it is a parameter; an unavailable region sends its error. |
| ParameterStore.ParameterStore.ListSelf | parameterstore/parameterstore.go:132-141 | The second request of `List` answers the resolved name itself exactly when it is a parameter, nothing when it is not, and the region's error when the region is unreachable. |
| ParameterStore.ListingCullable | parameterstore/parameterstore.go:128-130 | Every listed name lies below the listed path, so `cull` can take it apart. |
| ParameterStore.ParameterStore.Delete | parameterstore/parameterstore.go:211-238 | The names, resolved, are sent in chunks of at most ten, and sending stops at the first error. Otherwise the names the service reports missing give an error naming them all. |
| ParameterStore.ChunksCount | parameterstore/parameterstore.go:216-222 | `n` names take `ceil(n / 10)` requests. |
| ParameterStore.ChunksPartition | parameterstore/parameterstore.go:216-222 | Every chunk holds between one and ten names, and the chunks together are the input in order. |
| ParameterStore.DeleteChunksLog | parameterstore/parameterstore.go:216-229 | The requests reach the service in chunk order, one per chunk, up to and including the first that fails. |
| ParameterStore.DeleteChunksRemoves | parameterstore/parameterstore.go:211-238 | After a successful delete no named parameter remains in the region. |
| ParameterStore.DeleteChunksShrinks | parameterstore/parameterstore.go:211-238 | Deleting never adds a parameter. |
| ParameterStore.ParameterStore.DeleteByRegion | parameterstore/parameterstore.go:196-209 | The names are grouped by region. The groups are deleted one after the other, in some order of the regions, each as `delete` does, stopping at the first error. |
| ParameterStore.ParameterStore.DeleteGroups | parameterstore/parameterstore.go:200-207 | Each region is visited once, in some order, stopping at the first error. |
| ParameterStore.GroupNames | parameterstore/parameterstore.go:196-199 | The grouping of `deleteByRegion` is the region-to-names map. |
| ParameterStore.GroupByRegionKeys | parameterstore/parameterstore.go:196-199 | The grouping's keys are exactly the regions present. |
| ParameterStore.GroupByRegionNames | parameterstore/parameterstore.go:196-199 | Each group holds exactly its region's names, in input order. |
| ParameterStore.DeleteSingleGroup | parameterstore/parameterstore.go:196-209 | With one region, `deleteByRegion` is `delete` on its names. |
| ParameterStore.ParameterStore.RecursiveDelete | parameterstore/parameterstore.go:169-193 | Every name below the path, listed over all pages, is deleted by region; a listing error comes first. |
| ParameterStore.ParameterStore.Remove | parameterstore/parameterstore.go:147-167 | Parameters are queued. A prefix is deleted recursively with `-r` and is an error without it. The queued parameters are deleted together at the end. |
| ParameterStore.ParameterStore.RemoveArguments | parameterstore/parameterstore.go:148-165 | The argument loop queues parameters in order, deletes prefixes on the spot under `-r`, and stops at the first argument that fails; every queued name lies in a region that has a client. |
| ParameterStore.RemoveScanWithoutRecursion | parameterstore/parameterstore.go:147-167 | Without `-r`, a `Remove` deletes nothing before its final delete. |
| ParameterStore.RemoveParameterAlone | parameterstore/parameterstore.go:150-153 | A parameter is queued on its own, even when other names lie below it. |
| ParameterStore.RemovePrefixNeedsRecursion | parameterstore/parameterstore.go:154-161 | A prefix that is not a parameter, without `-r`, stops the scan with an error and deletes nothing. |
| ParameterStore.ParameterStore.CopyParameter | parameterstore/parameterstore.go:339-365 | The source's latest version is written, with overwrite set, under the destination name (the source's own name when the destination is `/`). A source that is not a parameter, or a history error, changes nothing. |
| ParameterStore.CopyParameterOutcome | parameterstore/parameterstore.go:339-365 | A copy writes at most once, only into the destination region, and a successful one uses up one write. |
| ParameterStore.CopyParameterCopiesLatest | parameterstore/parameterstore.go:339-365 | After a successful copy, the destination's newest version has the source's latest type and value. |
| ParameterStore.ParameterStore.CopyParameterToPath | parameterstore/parameterstore.go:367-371 | The parameter is copied to a name below the path that ends in the source's last segment. |
| ParameterStore.ToPathNameCanonical | parameterstore/parameterstore.go:367-371 | Below a canonical path, the destination is canonical and ends in the source's last segment. |
| ParameterStore.ParameterStore.CopyPathToPath | parameterstore/parameterstore.go:373-401 | The outcome is the page loop (`PathCopyRun`): pages are requested from the first on, and each page's pairs are copied one by one in some order of the map. The loop ends after the last page, or at the first failing page request or `copyParameter` call, whose error is returned; the copies made before it stay. Only overwriting puts into the destination region are sent, and an unreachable source region fails before any write. When the listed names are canonical and none is written below the source in its own region: only their destinations change, the listing stays as it was, and on success every listed name's destination holds that name's latest type, value, key, description and pattern. |
| ParameterStore.ParameterStore.CopyPage | parameterstore/parameterstore.go:388-394 | The outcome is the page's pairs copied by `copyParameter` one after the other, in some order, up to the first failing copy, whose error is returned; the copies before it stay, and success means every pair was copied. Only the destinations of the page's names change. On success each holds its source's latest contents, when the names do not disturb each other. A non-empty page copied without error uses up write budget, which bounds the page loop. |
| ParameterStore.ParameterStore.CopyPairs | parameterstore/parameterstore.go:390-398 | The outcome is `copyParameter` applied to each pair once, in some order (`CopySeq`), up to the first failing call, whose error is returned; the copies before it stay, and success means every pair was copied. Only the pairs' destinations change, only through overwriting puts into the destination region. On success each destination holds its source's latest contents, when the sources are canonical, no write lands on a source and no two sources share a destination. |
| ParameterStore.CopyParameterWrites | parameterstore/parameterstore.go:339-365 | `copyParameter` changes no parameter but its destination and only appends it to the listing order; a successful copy of a canonical name leaves its latest contents there. |
| ParameterStore.PathTargetInjective | parameterstore/parameterstore.go:388-394 | Distinct canonical names below the source are written to distinct places, including the root's own copy onto the root. |
| ParameterStore.ListingKept | parameterstore/parameterstore.go:377-400 | Writes outside the listed prefix leave the next page's listing as it was. |
| ParameterStore.MakeParameterMap | parameterstore/parameterstore.go:404-443 | Exactly the listed names, in the source region, are keys. Each maps to its destination name in the destination region. |
| ParameterStore.RootCopyCollidesAsWritten | parameterstore/parameterstore.go:419-423 | As written, copying `/` to a new path sends `/a/x` and `/b/x` to the same destination, `/backup//x`. |
| ParameterStore.RootCopyIntoPathAsWritten | parameterstore/parameterstore.go:417-433 | As written, copying `/` into an existing path names `/a/x` as `/backup///x`. |
| ParameterStore.ToPathNameAsWrittenAtRoot | parameterstore/parameterstore.go:367-371 | As written, a parameter copied into `/` gets a name that is not canonical. |
| ParameterStore.DestinationNameInjective | parameterstore/parameterstore.go:404-443 | Distinct names below the source get distinct destinations. |
| ParameterStore.DestinationOfChild | parameterstore/parameterstore.go:415-428 | A name below the source is renamed to the destination followed by its part below the source. When the destination exists already, the source's last segment is put between them. |
| ParameterStore.DestinationOfRootChild | parameterstore/parameterstore.go:417-433 | As intended, copying `/` renames a name to itself below the destination, whether or not the destination exists, and a canonical name stays canonical below a canonical destination. |
| ParameterStore.DestinationNameAgreesOffRoot | parameterstore/parameterstore.go:415-428 | For every source but `/`, and a name long enough to hold it and a separator, the corrected renaming is the one the source builds. |
| ParameterStore.ToPathNameAgreesOffRoot | parameterstore/parameterstore.go:367-371 | For every destination but `/`, the corrected name below the path is the one the source builds. |
| ParameterStore.ParameterStore.Copy | parameterstore/parameterstore.go:302-337 | A parameter is copied to a parameter or to a new name as `copyParameter` does, and into an existing path below its last segment. A path is copied only with `-r`: into a new path its names keep their part below the source, into an existing path the source's last segment comes first, with the path-copy guarantees above: its outcome is the page loop, so an error comes only from a failing request and the copies before it stay. Any other combination is an error that changes nothing; the session's fields are restored. |
| ParameterStore.ParameterStore.CopyDispatch | parameterstore/parameterstore.go:313-336 | The case taken depends only on what the resolved source and destination are in the service; a path goes to a new path when the destination is not one, and into it when it is, as `CopyAllowed` lays out, with the path copy's outcome given by the page loop. |
| ParameterStore.ParameterStore.Move | parameterstore/parameterstore.go:288-299 | A recursive `Copy` with all its guarantees: on success the destinations hold the sources' latest contents before anything is removed. Then a recursive `Remove` of the source; a copy error, which comes only from a failing request and keeps the copies made before it, is returned and nothing is removed. |
| ParameterStore.Uniq | parameterstore/parameterstore.go:524-533 | The first occurrence of each name, in order. |
| ParameterStore.Dedup | parameterstore/parameterstore.go:524-533 | Holds the same names as its input, each once. |
| ParameterStore.DedupPrefix | parameterstore/parameterstore.go:524-533 | Extending the input only appends to the result. |
| ParameterStore.DedupOfDistinct | parameterstore/parameterstore.go:524-533 | A listing without repetitions passes unchanged. |
| ParameterStore.Cull | parameterstore/parameterstore.go:501-521 | One entry per name's first segment below the prefix (branches with a trailing `/`), without repetitions, in first-seen order. |
| ParameterStore.RelativeAtRoot | parameterstore/parameterstore.go:505-509 | At the root only the leading separator is dropped. |
| ParameterStore.EntryLeaf | parameterstore/parameterstore.go:510-518 | A name with nothing further below the prefix is listed as itself. |
| ParameterStore.EntryBranch | parameterstore/parameterstore.go:510-518 | A deeper name is listed as its first segment and a separator. |
| ParameterStore.CullExample | parameterstore/parameterstore_test.go:344-382 | The test's listing of `/dev/db` culls to `name`, `username`, `password`, `test/`. |
| Policy.ExpirationRoundTrip | commands/policy.go:112-117 | A printed expiration whose formatted timestamp is one attribute value parses, as a `createPolicy` argument, to the expiration of the time the parser reads back; when the parser undoes the formatting, that is the printed expiration itself. |
| Policy.NotificationAttrsJoin | commands/policy.go:119-135 | The notification printers' attributes are the count and the unit joined by a comma. |
| Policy.MatchPolicy | commands/policy.go:140-146 | A match has a non-empty run of letters as type name and a non-empty run of the attribute class, and the argument starts with `type(attributes)`. |
| Policy.MatchPolicyOf | commands/policy.go:140-146 | Every argument of that shape matches, giving its own type name and attributes, whatever follows. |
| Policy.ScanAttributes | commands/policy.go:177-190 | The loop over the trimmed attributes computes the common scan: the value key sets the value, `unit` the unit, and anything else is an error. |
| Policy.ParseExpiration | commands/policy.go:175-193 | The loop computes the expiration scan: the last `timestamp` attribute read by the time parser, the parser's error, or the first other attribute's error. |
| Policy.ExpirationScansBack | commands/policy.go:175-193 | `Timestamp=<t>` gives the expiration, at version `1.0`, of the time the parser reads from `t`. |
| Policy.ExpirationRejectsAttribute | commands/policy.go:187-188 | An expiration attribute whose key is not `timestamp` in any case, `Unit` among them, is refused with an error naming it. |
| Policy.ParseExpirationNotification | commands/policy.go:196-215 | The parse of an expiration notification as specified. |
| Policy.ParseNoChangeNotification | commands/policy.go:218-238 | The parse of a no-change notification as specified. |
| Policy.ExpirationNotificationWithoutBefore | commands/policy.go:196-215 | `ExpirationNotification(Unit=<u>)` is accepted, with `Before` left at zero. |
| Policy.NotificationScanOf | commands/policy.go:196-238 | The printed attribute text scans back to the same count and unit. |
| Policy.ParseArg | commands/policy.go:139-168 | No match gives an error. A parsed policy's type name is among the three kinds and selected its parser. |
| Policy.AddArg | commands/policy.go:139-168 | One argument is added as its kind says, or its error is returned. |
| Policy.BuildOk | commands/policy.go:137-172 | `createPolicy` succeeds iff every argument parses. The expiration is then the last one given, and the notifications are collected in order. |
| Policy.AddAllCollects | commands/policy.go:147-168 | The last expiration wins, and each kind of notification is appended in argument order. |
| Policy.PolicyTable.CreatePolicy | commands/policy.go:137-172 | On success the table maps the name to the built policy, replacing any before it. On failure the first failing argument's error is returned and the table is unchanged. |
| Policy.ExpirationNotificationRoundTrip | commands/policy.go:119-126 | A printed expiration notification with a 64-bit count and a plain unit parses back to itself. |
| Policy.NoChangeNotificationRoundTrip | commands/policy.go:128-135 | The same for a no-change notification. |
| Policy.PolicyText | commands/policy.go:95-110 | The text starts with the expiration line, and is only that line when there are no notifications. |
| Policy.PolicyTable.PrintPolicy | commands/policy.go:95-110 | The named policy's text: its expiration, then its expiration notifications, then its no-change notifications, one line each. An unknown name prints nothing. |
| Policy.PolicyTable.AppendLines | commands/policy.go:100-105 | The lines are appended one after the other, in order. |
| Put.TypeOf | commands/put.go:167-176 | A type is accepted iff it equals a valid type ignoring case; the stored type is that valid spelling. |
| Put.TypeOfCanonical | commands/put.go:167-176 | A stored type is accepted again as itself. |
| Put.PutCommand.ValidateType | commands/put.go:167-176 | An accepted type is stored in its canonical spelling. A rejected one gives an error naming it, and nothing changes. |
| Put.TrimSpacesLines | commands/put.go:186-193 | The number of lines is kept, every line but the last loses its final character, and the last line is kept. |
| Put.TrimSpacesUndoesPadding | commands/put.go:186-193 | It undoes the space after each line but the last that the shell's multi-line input adds. |
| Put.PutCommand.TrimSpaces | commands/put.go:186-193 | The loop over the lines computes the trim above. |
| Put.PutCommand.ValidateValue | commands/put.go:178-182 | The trimmed value is stored and nothing else changes. |
| Put.NameOfResolvesLikeFqp | commands/put.go:195-202 | The stored name resolves like the one given. |
| Put.NameOfAtRoot | commands/put.go:195-202 | At the root, a relative name is stored with a doubled separator. |
| Put.PutCommand.ValidateName | commands/put.go:195-202 | An absolute name is stored as it is; any other, appended to the working directory. |
| Put.PutCommand.ValidateOverwrite | commands/put.go:221-229 | A Go boolean literal sets the overwrite flag. Any other value is an error and changes nothing. |
| Put.TierAsWrittenRejectsAll | commands/put.go:241-247 | As written, no input is accepted as a tier. |
| Put.TierOf | commands/put.go:241-247 | As intended, a tier is accepted iff it is `standard` or `advanced` ignoring case, and is stored in its canonical spelling. |
| Put.TierOfAdvanced | commands/policy.go:26 | The usage's `tier=advanced` is accepted as the advanced tier. |
| Put.PutCommand.ValidateTier | commands/put.go:241-247 | A tier accepted as intended is stored. Any other is an error and changes nothing. |
| Put.MatchNameList | commands/put.go:251-255 | A match is a non-empty run of `[\w\s,]`, and the option starts with it in brackets. |
| Put.MatchNameListOf | commands/put.go:251-255 | Every such bracketed list matches, whatever follows. |
| Put.Collect | commands/put.go:256-271 | It succeeds iff every listed name is in the table. |
| Put.CollectFirstMissing | commands/put.go:258-261 | The first missing name is the one reported. |
| Put.CollectAppend | commands/put.go:257-271 | The policies of two lists in a row are those of the first list followed by those of the second. |
| Put.PoliciesIn | commands/put.go:262-270 | One policy for a set expiration, plus one per notification. |
| Put.PutCommand.AppendPolicies | commands/put.go:262-270 | A named policy's expiration (when set), then its expiration notifications, then its no-change notifications are appended. |
| Put.PutCommand.CollectPolicies | commands/put.go:256-271 | The loop over the names collects their policies in order, or fails at the first missing name. |
| Put.PoliciesOfNamed | commands/put.go:249-277 | `[name]` yields exactly that named policy's contents, or the error naming it. |
| Put.PutCommand.ValidatePolicies | commands/put.go:249-277 | On success the marshalled policies are stored and the tier is forced to advanced. On failure nothing changes. |
| Put.ValidatePoliciesForcesAdvanced | commands/put.go:272-275 | An accepted policies option always sets the advanced tier. |
| Put.Apply | commands/put.go:143-156 | An unknown field is ignored. Only `region` changes the region. Only the type, overwrite, tier and policies validators can fail. |
| Put.ValidateUnknownField | commands/put.go:155 | An unknown field changes nothing and is not an error. |
| Put.ValidateFailureResets | commands/put.go:157-161 | A failing validator leaves the empty request behind and keeps the region. |
| Put.PutCommand.Dispatch | commands/put.go:143-156 | The validator's new state is stored on success; on failure nothing is stored by it. |
| Put.PutCommand.Validate | commands/put.go:142-165 | The new request and region, and the error, are those of the specification of `validate`. |
| Put.SplitOptionRefuses | commands/put.go:123-131 | An option without `=`, the empty one included, is refused. |
| Put.SplitOptionOf | commands/put.go:126-133 | `field=value` splits into the lower-cased field and the whole value, `=` signs in it kept. |
| Put.PutCommand.PutOptions | commands/put.go:122-140 | A refused option changes nothing and stops. Otherwise the option is validated, and the scan goes on iff validation succeeded. |
| Put.PutOptionOfPair | commands/put.go:122-140 | `field=value` is validated as the lower-cased field with the whole value. |
| Put.InlinePutStops | commands/put.go:113-120 | Nothing after the first failing option is looked at. |
| Put.PutCommand.InlinePut | commands/put.go:113-120 | The options are applied in order, stopping at the first that fails. |
| Put.InlineNameValueType | commands/put.go:18-37 | `name=<n> value=<v> type=<t>` gives a complete request, with the name as `validateName` stores it (appended to the working directory without cleaning), the value kept and the type canonical. |
| Put.PutCommand.PutInline | commands/put.go:43-81 | A stopped option scan sends nothing, and so does a request that lacks a name, a type or a value. Otherwise the request is sent to its region and the service answers as `PutParameter` says. |

## Left out

- The AWS sessions, the credential probe of `NewParameterStore` and the SSM clients' own wire protocol are not modelled. The service is the abstract `Remote.Store`, and a client is only a region and its profile.
- `List` sends its result on a channel and stops when a quit channel fires. The model returns the result instead, and the quit is the index of the page during which it arrives (`quitAt`). The concurrency itself is not modelled. In the error branch of `List`'s pagination, the source sends the error but does not return. The model reports the error and does not model the goroutine carrying on.
- Go's map iteration order (in `deleteByRegion`, `copyPathToPath` and `printPolicy`) is unspecified. The model lets any order happen: a ghost out-parameter records the order the method took, and the contract admits every order.
- `time.Parse` with the layout `2006-01-02T15:04:05Z`, RFC 3339 formatting and `json.Marshal` are parameters of the model (`parseTime`, `format`, `marshal`). A timestamp is an integer with `0` as the zero time. Parsing and printing use different layouts that the model does not define. So the expiration round trip is stated through what the parser reads back from the formatted text, not as one time layout undoing the other.
- `strconv.Atoi` accepts exactly the 64-bit range with an optional sign, as on a 64-bit platform.
- `put` with no arguments reads options line by line through the shell (`multiLinePut`). That reading is interactive I/O, and only the per-line `putOptions` it calls is modelled.
- `setDefaults` reads `ps.Overwrite` and `ps.Type`, which the `ParameterStore` type shown does not declare. The request it prepares is taken as the parameter `defaults` of `Put.PutCommand.PutInline`.
- `validateDescription`, `validateKey`, `validatePattern` and `validateRegion` are modelled as branches of `Put.Apply` and `Put.PutCommand.Dispatch`, not as separate members.
- Put.PutCommand.PutInline: requires a client for the request's region. The source accepts any `region=` option and nothing in `put` creates its client, so a region without one makes `ps.Put` call a nil client (parameterstore/parameterstore.go:280) and panic. As with the panics below, the model demands that this does not happen.
- ParameterStore.ParameterStore.CopyPathToPath: what a path copy writes is promised only when the listed names are canonical and no destination lies below the source in the source's region (`NamesSeparate`). When destinations lie below the source, as for `cp -r /a /a/b` in one region, the source's page loop lists names it has just written. The loop is then still shown to end, through the service's finite write budget, but nothing is promised about what it writes.
- ParameterStore.ParameterStore.Copy, ParameterStore.ParameterStore.CopyDispatch, ParameterStore.ParameterStore.Move, ParameterStore.ParameterStore.CopyParameterToPath, ParameterStore.ParameterStore.CopyPathToPath, ParameterStore.ParameterStore.CopyPage and ParameterStore.MakeParameterMap use the corrected destination names of the Findings below (`ToPathName`, `DestinationName`), not the names the source builds. The source copies `/a/x` into `/` as `//x` and copies `/` to `/backup` as `/backup//x`, where these members, and so a recursive copy or move of `/`, write `/x` and `/backup/a/x`. The as-written names are modelled only by the as-written members; `DestinationNameAgreesOffRoot` and `ToPathNameAgreesOffRoot` show that the two differ only at `/`.
- Put.PutCommand.ValidateTier, Put.Apply, Put.PutCommand.Dispatch, Put.PutCommand.Validate, Put.PutCommand.PutOptions, Put.PutCommand.InlinePut and Put.PutCommand.PutInline accept tiers as intended (`TierOf`). The source refuses every `tier=` option (commands/put.go:242), and only `Put.TierAsWrittenRejectsAll` models that.
- Put.PutCommand.TrimSpaces, Put.TrimSpacesLines, Put.TrimSpacesUndoesPadding and Put.PutCommand.ValidateValue (and so every member that stores a trimmed value): a Dafny string is a sequence of characters, so each line but the last loses its last character. The source's `s[:len(s)-1]` loses its last byte, which differs for a line that ends in a character of more than one byte in UTF-8.
- `Decrypt` has no modelled effect. The source sends `WithDecryption: ps.Decrypt` with every read (parameterstore/parameterstore.go:108, 244, 266), and `Copy` forces it on so that `SecureString` values are copied as plain text. In the model every value is plain text and no read carries the flag; `Copy` only sets and restores the field.
- Indexing past the end of a slice panics in Go. The model demands instead that the index stays in range, through the predicates `Scannable`, `ArgParseable`, `Safe`, `OptionSafe` and `InlineSafe`. Each holds exactly when the source would not panic.
- The messages the commands print to the shell and the `put` output line are not modelled; errors are returned values.
- `Strings.ToLower`, `Strings.EqualFold` and `Put.Title` fold ASCII letters only; Unicode case folding is not modelled. `Strings.TrimSpace` uses Go's white-space set.
- The other commands of the shell (`cd`, `ls`, `get`, `history`, `rm`, `cp`, `mv`, `decrypt`, `key`, `profile`, `region`), the configuration file and the output formatting are not part of this model.

## Findings

| source | as written | input that shows it | evidently intended | confidence | as-written member | corrected member |
|---|---|---|---|---|---|---|
| commands/put.go:241-247 | `strings.ToLower(s)` is compared with `"Standard"` and `"Advanced"`, which are capitalised, so no tier is ever accepted | `tier=advanced`, the usage's own example (commands/policy.go:26) | accept `standard` or `advanced` in any case, stored as `Standard` or `Advanced` | not executed | Put.TierAsWrittenRejectsAll | Put.TierOf |
| parameterstore/parameterstore.go:419-423 | for a path copy from `/`, the listed name loses its first `len(src)+1` characters, one more than the root's separator | copying `/` with `-r` to `/backup`: `/a/x` and `/b/x` both become `/backup//x` | the part of the name below `/`, so distinct sources stay distinct | not executed | ParameterStore.RootCopyCollidesAsWritten | ParameterStore.DestinationNameInjective |
| parameterstore/parameterstore.go:417-433 | for a path copy from `/` into an existing path, the root's last segment is the empty text, and it is joined in as a segment | copying `/` with `-r` into the existing path `/backup`: `/a/x` becomes `/backup///x` | no segment for the root, so the name stays canonical | not executed | ParameterStore.RootCopyIntoPathAsWritten | ParameterStore.DestinationOfRootChild |
| parameterstore/parameterstore.go:367-371 | the destination name is `dst + "/" + last segment`, so it is `//name` when `dst` is the root | copying `/a/x` to the path `/` | `/x`, a canonical name below the destination path | not executed | ParameterStore.ToPathNameAsWrittenAtRoot | ParameterStore.ToPathNameCanonical |
