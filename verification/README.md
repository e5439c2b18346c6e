# A model of the Forward SDK's algorithms, with proofs

The SDK is mostly one HTTP request per call. This project models the parts that decide something: the access evaluator, the
collector key codec, the session CSRF token cache, request paths, alias write and read forms, canonical forms, the capability
registry, and some smaller cores. Every file is one component; `dafny verify dfyconfig.toml` checks all of them.

- `Wrappers`, `GoBytes`, `Sorting`, `Json`: optional values, Go strings as bytes, stable sorting, JSON values once lexed.
  `Letters`, `WhiteSpace`, `LetterCase`: letters, white space and letter case by literal alphabets and code points.
- `Varint`, `Base64`, `CollectorKeys`: collector authorization keys. Base64 is section 4 of RFC 4648, the records are the public
  Protocol Buffers encoding. `VarintValue`, `Base64Alphabet`, `CollectorKeyRules`: the same by bytes, symbols and literal texts.
- `Percent`, `DotSegments`, `RequestPaths`, `Routes`: sections 2.1 and 5.2.4 of RFC 3986, which paths are accepted, and routes
  built from IDs. `PercentTable`, `PathScopes`, `PathChecks`, `References`: the same by literal digits, segments and texts.
- `CsrfCache`, `CsrfInvariant`, `CsrfRuns`, `BrowserClients`: the token cache as interleaved atomic steps of any number of calls,
  what every step keeps, what holds over every run, and which clients share one cache. `CsrfCarry`: which calls carry a token.
- `AccessTable`, `RoleInheritance`, `LowestRole`, `AccessDecision`, `AccessTableJson`, `AccessLoading`, `AccessInputs`: role
  inheritance, its compressed form, the three-valued decision, the table's JSON copy, and inputs where a table surprises.
  `AccessLookups`, `RoleScopes`, `AccessVerdicts`, `AccessSources`: the same by literal role, scope and field names.
- `Aliases`, `AliasRoundTrip`, `Canonical`: alias bodies, the conversion back, and drift detection. `AliasRules`, `AliasFields`:
  the same field by field.
- `Capabilities`, `CapabilityRegistry`: evidence about a deployment, over values and as an object.
- `StreamSinks`, `CertificateBundle`, `Patches`, `EndpointPatches`, `ConnectivityWait`, `ErrorDetail`: the smaller cores.

A method that follows the program's loop is tied by its contract to a function, or states the promised property outright; the
lemmas beside it say what that function means. A shared definition is also stated apart from itself: by literal texts and
places in them, by bytes, by positions in a list, or field by field.

## Where the program does not do what one might expect

Each is proved as an exact condition, with an input the program accepts, and the program is modelled as it is.

- A JSON copy of the access table drops roles that hold no operation, so the round trip restores the table exactly when every role
  holds one (`AccessTableJson.RoundTripExactly`). The copy answers a session differently exactly when the table says No and a role
  that counts, not blank, is known to hold nothing; it then answers Unknown (`AccessLoading.CopyDiffersExactly`, with a session in
  `AccessInputs.EmptyRoleIsLost`).
- Adding roles to the access table flips a settled verdict exactly when the table gains a role with an empty name that holds the
  org operation asked about (`AccessDecision.MoreRolesOnlyResolve`, with two documents in `AccessInputs.NamelessRoleFlips`).
- The lowest role of an operation says who holds it exactly when each ladder role holds what the one below it holds
  (`LowestRole.FaithfulExactly`); the parser does not check that (`AccessInputs.LadderMayNotBeCumulative`).
- Printing a V2 collector key and parsing it gives the same pair exactly when the username has the prefix, neither part holds a
  colon, and the password is not empty and does not end in white space (`CollectorKeys.V2RoundTripExactly`, with a key in `CollectorKeys.V2LosesBlank`).
- A canonical list is the same for every order of the input exactly when no two different normal forms share a key
  (`Canonical.OrderIrrelevantExactly`, with two circuits in `Canonical.SameNameKeepsOrder`).
- The names a patch sends as null are the cleared ones exactly when every property set to null is cleared too
  (`Patches.NullsExactly`); a property that refers to a nil list or map is set to null (`Patches.NullWithoutClear`).
- The deadline test of the connectivity wait adds two 64-bit durations. It is right exactly when the sum fits
  (`ConnectivityWait.TestExactly`, with an input in `ConnectivityWait.WrappedTest`), and the deadline ends a call exactly when the
  sum fits at the first round past it (`ConnectivityWait.DeadlineEndsExactly`).
- The words the not-found rule finds in the message are always found in the full text (`ErrorDetail.NarrowSaysLess`), but the
  whole rule can succeed on the message where it fails on the full text: exactly when the full text names a missing child
  (`ErrorDetail.NarrowedRuleExactly`, with an input in `ErrorDetail.NarrowedCanDiffer`).

## Model

| member | source | states |
|---|---|---|
| `GoBytes.TrimSpaceFixed` | collector_auth_key.go:40 | Trimming leaves a text alone exactly when neither end is white space. |
| `GoBytes.TrimSpaceTrimmed` | collector_auth_key.go:40 | Trimmed text has no white space at either end, and trimming it again changes nothing. |
| `WhiteSpace.TrimsExactly` | collector_auth_key.go:40 | Trimming takes away encodings of white-space code points at both ends and nothing else, and leaves none there. |
| `WhiteSpace.StartExactly` | collector_auth_key.go:40 | White space is found at the start of a text exactly when it begins with the UTF-8 of such a code point. |
| `WhiteSpace.EndExactly` | collector_auth_key.go:40 | And at the end exactly when it ends with one. |
| `Varint.Uvarint` | collector_auth_key.go:57-71 | The loop of the varint reader: a positive count comes with the 64-bit value and its length, 0 means exactly cut short, a negative one exactly too large. |
| `Varint.RoundTrip` | collector_auth_key.go:57-71 | Every 64-bit value is read back from its encoding, whatever follows. |
| `Varint.DecodeIgnoresRest` | collector_auth_key.go:57-71 | What follows a varint can be replaced without changing what is read. |
| `Varint.Uvarint64Bound` | collector_auth_key.go:57-71 | No value above 64 bits is ever read. |
| `VarintValue.DecodesExactly` | collector_auth_key.go:57-71 | What every buffer starts with: up to ten bytes, the tenth 0 or 1, of which only the last does not say that another follows, worth the sum of their seven bits. |
| `VarintValue.NoVarintExactly` | collector_auth_key.go:57-71 | Which buffers hold none: those cut short and those too large. |
| `VarintValue.CompletedExactly` | collector_auth_key.go:57-71 | One byte completes a buffer of fewer than ten that is cut short; nothing completes one that is too large. |
| `Base64.RoundTrip` | collector_auth_key.go:51-54 | The encoding of any bytes, with line breaks put anywhere, decodes to them. |
| `Base64.DecodableSymbols` | collector_auth_key.go:51-54 | Text that decodes consists of the alphabet, padding and line breaks. |
| `Base64Alphabet.DecodesExactly` | collector_auth_key.go:51-54 | What every text decodes to, by the places of its symbols in the literal alphabet: four symbols are 24 bits, three and a pad 16, two and two pads 8. |
| `Base64Alphabet.SkipsExactly` | collector_auth_key.go:51-54 | Line feeds and carriage returns are skipped, wherever they stand, and nothing else is. |
| `CollectorKeys.ParseCollectorAuthKey` | collector_auth_key.go:39-85 | The parser as written, with its errors, computes the specified result. |
| `CollectorKeys.ParseRecords` | collector_auth_key.go:56-84 | The loop over the decoded bytes terminates, stays in bounds for any 64-bit length, and yields the key the records spell. |
| `CollectorKeys.ReadField` | collector_auth_key.go:58-71 | One round reads exactly the first field and its length, or refuses it with the error of the first thing wrong. |
| `CollectorKeys.FieldRead` | collector_auth_key.go:66-71 | The slices taken for a value and for the rest are the field and what follows it. |
| `CollectorKeys.FieldsRoundTrip` | collector_auth_key.go:57-80 | Any list of length-delimited fields, known or not, in any order, is read back from its encoding. |
| `CollectorKeys.ParseConcat` | collector_auth_key.go:57-80 | After valid records, further bytes are read, or refused, as if they stood alone. |
| `CollectorKeys.SecondRecordOverrides` | collector_auth_key.go:56-84 | The key of two concatenated records is the first overridden by the second. |
| `CollectorKeys.LastWins` | collector_auth_key.go:72-79 | Each part of the key is the value of the last field with its number. |
| `CollectorKeys.V3RoundTrip` | collector_auth_key.go:39-85 | The base64 of any encoded fields yields the last username, password and URL, and is refused when a username or password is missing. |
| `CollectorKeys.V3PrintedRoundTrip` | collector_auth_key.go:26-85 | As printed, every list of fields with a username and a password comes back. |
| `CollectorKeys.V3StandardRoundTrip` | collector_auth_key.go:26-85 | The appserver's three fields come back for any non-empty username and password. |
| `CollectorKeys.V3Accepted` | collector_auth_key.go:51-84 | Whatever parses without the V2 prefix is the base64 of records whose last values are the result. |
| `CollectorKeys.PrefixIsNotBase64` | collector_auth_key.go:15-54 | The two formats never collide. |
| `CollectorKeys.V2PrintsBack` | collector_auth_key.go:34-50 | A V2 key that parses prints back as the trimmed text it was read from. |
| `CollectorKeys.V2RoundTripExactly` | collector_auth_key.go:34-50 | For which usernames and passwords, of any form, printing and parsing returns the same pair. |
| `CollectorKeys.V2LosesBlank` | collector_auth_key.go:34-50 | A key whose password comes back without its last blank. |
| `CollectorKeyRules.V2Exactly` | collector_auth_key.go:44-50 | A text that begins "collector-" holds a key exactly when one colon stands in it with something on both sides. |
| `CollectorKeyRules.FieldBytes` | collector_auth_key.go:55-80 | The bytes of a short field; the three of a key begin with 0x0A, 0x12 and 0x1A. |
| `CollectorKeyRules.FieldErrors` | collector_auth_key.go:58-71 | Exactly when a field has no tag, another wire type, or fewer bytes than it says. |
| `CollectorKeyRules.KeyErrors` | collector_auth_key.go:39-85 | Which error each text gets. |
| `CollectorKeyRules.OrdinaryKey` | collector_auth_key.go:39-85 | The printed key of collector-ab and pw. |
| `Percent.UnescapeEscape` | classic_devices.go:573-582 | A percent-encoded text decodes to itself, for any set of characters left alone. |
| `Percent.PathEscapeInjective` | classic_devices.go:573-582 | Different IDs have different encodings. |
| `Percent.DecodeUnreservedDecodes` | client.go:590-604 | Normalising the triplets of unreserved characters does not change what a text decodes to. |
| `PercentTable.UnescapesExactly` | client.go:599-603 | What every text decodes to: a percent sign stands before two digits, worth their places in the literal texts of hexadecimal digits of either case, and any other character for itself. |
| `PercentTable.EscapesExactly` | classic_devices.go:573-582 | Encoding goes byte by byte: a safe one is itself, any other a percent sign and two upper-case digits. |
| `PercentTable.SafeExactly` | classic_devices.go:573-582 | Which characters are left alone in a segment, in a path, and as given, by literal texts. |
| `DotSegments.RemoveIsProcess` | client.go:617 | On absolute paths the string algorithm of section 5.2.4 is a stack machine over segments. |
| `DotSegments.FixedExactly` | client.go:590-604 | Dot-segment removal leaves an absolute path alone exactly when it has no dot segment. |
| `DotSegments.RemoveIdempotent` | client.go:617 | Removal is idempotent and leaves no dot segment. |
| `DotSegments.RelativeStart` | client.go:617 | A dot segment in front of a text without a leading slash, or alone, goes. |
| `RequestPaths.ResolveScoped` | client.go:579-618 | The function as written, with its loop over segments and its errors, computes the specified result. |
| `RequestPaths.DotWhenNormalised` | client.go:597-604 | A segment is refused exactly when a server that decodes unreserved triplets would see a dot segment. |
| `RequestPaths.NoDotsExactly` | client.go:590-604 | No segment decodes to a dot segment exactly when the normalised path is a fixed point of removal, and then so is the path. |
| `RequestPaths.AcceptedExactly` | client.go:579-618 | A text is accepted exactly when it parses as a reference in the scope whose normalised form is a fixed point; what is sent is then the parsed path itself, query untouched. |
| `PathChecks.DotTextRefused` | client.go:590-604 | Every segment made of one or two of ".", "%2e" and "%2E" is refused, wherever it stands and in every scope. |
| `PathChecks.EncodedDotsRefused` | client.go:590-604 | "/api/networks/%2e%2e/users" is refused in every scope. |
| `PathScopes.ScopesExactly` | client.go:605-615 | What each scope holds, by the segments of the path. |
| `PathScopes.SplitAtSlash` | client.go:598 | A slash splits a text into the segments before it and those after. |
| `References.ReferenceExactly` | client.go:579-597 | What every trimmed text is parsed to, by its path, query and fragment: the first of a control character, a malformed triplet and another origin is the error. |
| `References.OnlyTheTrimmedCounts` | client.go:580-583 | A blank text is refused, and otherwise only the trimmed text counts. |
| `References.WireFormExactly` | client.go:597 | A path goes on the wire as it is when all its characters may stand in one, and decodes to the same in any case. |
| `Routes.RouteSegments` | classic_devices.go:573-582 | A built route has exactly the segments of its template, and each decodes to what was put there. |
| `Routes.RouteInjective` | aliases.go:193-203 | Two equal routes hold the same IDs at the same places. |
| `Routes.RouteAcceptedExactly` | client.go:579-618 | A built route is accepted, and sent as built, exactly when no ID is "." or "..". |
| `Routes.ClassicDevicePathIsTemplate` | classic_devices.go:569-582 | A device route is the five-segment template of the trimmed IDs; without a usable ID there is none. |
| `Routes.AliasPathIsTemplate` | aliases.go:193-203 | The same for an alias. |
| `Routes.DevicePathInjective` | classic_devices.go:569-582 | Two calls that build one device route name one network and one device. |
| `Routes.GivenNetworkWins` | client.go:376-385 | A device route names the network given, unless it is blank, and else the one the client is bound to; without either, or a device, there is no route. |
| `Routes.AliasPathExactly` | aliases.go:193-203 | The text of an alias route: the trimmed snapshot and the trimmed name, without either of which there is none. |
| `CsrfInvariant.FetchNeedsNoToken` | browser.go:142-159 | The token fetch is not one of the requests that need a token, so it never asks for the lock its caller holds. |
| `CsrfInvariant.StepKeepsInv` | browser_csrf.go:34-90 | Every atomic step of every call keeps the invariant: who holds the lock, how old a cached or carried token may be, how many fetches succeeded. |
| `CsrfInvariant.RunKeepsInv` | browser_csrf.go:34-90 | So does every run. |
| `CsrfRuns.OneFetchInFlight` | browser_csrf.go:61-81 | At any point of any run at most one token fetch is on the wire, and it is the lock holder's. |
| `CsrfRuns.CachedTokenIsFresh` | browser_csrf.go:61-90 | Successful fetches never exceed completed resets plus one; a cached token was fetched after the last completed reset, and is never older than the newest completed sign-in. |
| `CsrfRuns.NoStaleToken` | client.go:415-429 | A request begun after a sign-in's reset completed never carries a token of an earlier principal, nor one fetched before that reset. |
| `CsrfCarry.CarriesExactly` | browser_csrf.go:34-46 | In every run a call that has been sent carries a token exactly when it is in browser mode, posts, puts, patches or deletes, does not skip and brings no token; one that need not never holds the lock before it is sent. |
| `CsrfCarry.RequestStays` | client.go:415-429 | What a call asks for stays what it was begun with. |
| `CsrfCarry.CountsExactly` | browser_csrf.go:61-90 | A session counts the tokens stored and the resets completed, each once. |
| `CsrfCarry.PrincipalChanges` | browser_csrf.go:83-90 | The principal changes when a sign-in is answered and says so, and at no other step. |
| `CsrfCarry.OnlyAFreeLockIsTaken` | browser_csrf.go:61-90 | No step takes a lock that is held, or changes the call of another. |
| `CsrfCarry.SignInsExactly` | browser_csrf.go:28-32 | Which requests sign in; none of them needs a token. |
| `CsrfRuns.NoDeadlock` | browser_csrf.go:61-90 | In every reachable state with an unfinished call, some call can take its next step; the lock holder always can. |
| `CsrfRuns.LockIsReleased` | browser_csrf.go:61-90 | No other call disturbs the lock holder, and each of its steps releases the lock or brings the release nearer. |
| `BrowserClients.BrowserCSRFState.constructor` | browser_csrf.go:15-18 | A new cache is empty. |
| `BrowserClients.BrowserCSRFState.BrowserCSRFToken` | browser_csrf.go:61-81 | A cached token is returned without the fetch; an empty cache is filled only by an answer with a token that is not blank. |
| `BrowserClients.BrowserCSRFState.Reset` | browser_csrf.go:83-90 | The cache is empty afterwards. |
| `BrowserClients.Section` | browser_csrf.go:61-81 | The atomic steps of one critical section do to the cache, and hand to the caller, what the method does and returns. |
| `BrowserClients.AttachedIsNotBlank` | browser_csrf.go:48-59 | A usable token always gives a header with a name and a value. |
| `BrowserClients.AttachedExactly` | browser_csrf.go:48-81 | The trimmed header name, or X-CSRF-TOKEN when it is blank, and the trimmed token; an answer without a token leaves nothing. |
| `BrowserClients.EventKeepsSessions` | client.go:242-254 | A network clone shares its parent's session for good, an impersonated client has a new one of its own, and a step touches one session only. |
| `Sorting.SortSorted` | canonical.go:33 | The result is in order of key. |
| `Sorting.SortContents` | canonical.go:33 | It is a permutation of the input. |
| `Sorting.SortStable` | canonical.go:33 | Elements with one key keep their order. |
| `Sorting.SortOrderIndependent` | canonical.go:33 | When equal keys mean equal elements, the order of the input does not matter. |
| `Sorting.SortAgreesExactly` | canonical.go:33 | Two lists sort to one list exactly when they have, key by key, the same elements in the same order. |
| `Sorting.LessExactly` | canonical.go:33 | The order of texts by places: a proper prefix, or the smaller byte where they first differ. |
| `AccessTable.FindOperationExactly` | access.go:112-132 | Which operation a name finds: the one so qualified, or the only one of that bare name. |
| `AccessTable.BareName` | access.go:112-132 | A bare name finds an operation exactly when one scope alone has it. |
| `AccessLookups.AtLeastExactly` | access.go:61-85 | A role is at least another exactly when both have one of the five literal names and it stands as high. |
| `AccessLookups.FindFailsExactly` | access.go:112-132 | Exactly when a name is ambiguous, and when it is unknown. |
| `LetterCase.ToUpperExactly` | access.go:78 | Upper case letter by letter, by places in the alphabets, with the two other letters by their code points. |
| `RoleInheritance.Parse` | access.go:205-279 | The loops over blocks, operations and parents, in any order, compute the specified pass. |
| `RoleInheritance.HoldsExactlyWhatIsReachable` | access.go:250-277 | A role holds an operation exactly when a chain of inheritance edges of that operation's own scope leads to a block that declares it. |
| `RoleInheritance.ParseFailsExactly` | access.go:205-279 | It fails exactly when there is no block, an owned operation is unknown, a parent is not declared earlier, or a ladder role is missing. |
| `RoleInheritance.LeastFixedPoint` | access.go:250-277 | With distinct names the result is the least fixed point of the declarations. |
| `RoleInheritance.PassWithin` | access.go:250-277 | Roles hold only operations of the tables. |
| `RoleScopes.InheritsByScope` | access.go:258-269 | With distinct names a role holds an org operation exactly when it declares it or a parent in inheritOrg holds it, and a network operation likewise through inheritNet, by the scope the operation was declared in. |
| `RoleScopes.ScopesAreIndependent` | access.go:258-269 | Blocks that differ only in their network parents agree on every org operation. |
| `RoleScopes.ParsesExactly` | access.go:205-279 | The roles parse exactly when there are any, each owns known operations, inherits from roles named before it, and the five ladder roles are among them. |
| `AccessSources.FirstBadBlock` | access.go:250-272 | The first block that cannot be closed decides the error. |
| `AccessSources.OtherErrors` | access.go:205-279 | What else can fail. |
| `LowestRole.FillLowestRoles` | access.go:281-291 | The loops over operations and up the ladder compute the specified table. |
| `LowestRole.LadderComparison` | access.go:65-85 | Comparing two ladder roles compares their places, and nothing is at least the empty name. |
| `LowestRole.FaithfulExactly` | access.go:61-85 | The lowest role says which ladder roles hold an operation exactly when the ladder is cumulative. |
| `LowestRole.LowestExactly` | access.go:281-291 | It is empty exactly when no ladder role holds the operation, else it names the lowest that does. |
| `AccessDecision.Can` | access.go:421-504 | The decision as written equals the declarative one, errors included. |
| `AccessDecision.Judge` | access.go:433-503 | Whatever order the network roles are met in, the verdict is the declarative one. |
| `AccessDecision.JudgeOrg` | access.go:449-463 | The loop over org roles that stops at the first grant. |
| `AccessDecision.OrderOfOrgRolesIsIrrelevant` | access.go:449-463 | The order and number of org roles do not matter. |
| `AccessDecision.MoreRolesOnlyResolve` | access.go:421-504 | Adding roles to the table never changes a Yes or a No, exactly unless it adds a nameless role holding the org operation. |
| `AccessDecision.SettledVerdictIsEnforced` | access.go:23-35 | A Yes or a No is what the described enforcement rule says, even over a table with more roles; Unknown has one of the named reasons. |
| `AccessVerdicts.NotModelled` | access.go:421-448 | Impersonated, support and system sessions, and those without roles, are told Unknown. |
| `AccessVerdicts.OrgRolesGrant` | access.go:449-463 | An org role that folds to ADMIN gives Yes, one that folds to READ_ONLY gives Yes on a read. |
| `AccessVerdicts.NetworkOperations` | access.go:464-503 | A network operation, when no org role decides: the verdict, by the role on that network alone. |
| `AccessVerdicts.OrgOperations` | access.go:464-503 | An org operation, when no org role decides: the verdict, by the roles on all networks. |
| `AccessVerdicts.ReadersNeedANetworkRole` | access.go:449-503 | A session whose org roles only read is told Yes on a write only by a network role that holds it. |
| `AccessVerdicts.CanExactly` | access.go:421-448 | Around the decision: without a table, without such an operation, without a network; and the operation's own data in the answer. |
| `AccessTableJson.WriteJSON` | access.go:301-318 | The document lists the operations in order and each role that holds anything with its operations in order. |
| `AccessTableJson.DocumentUnique` | access.go:301-318 | There is only one such document, whatever order the maps are walked in. |
| `AccessTableJson.LoadJSON` | access.go:321-359 | The loader as written, with its errors, computes the specified result. |
| `AccessTableJson.LoadIsWellFormed` | access.go:321-359 | What it accepts is a well-formed table. |
| `AccessTableJson.LoadOfWritten` | access.go:301-359 | Loading a written table gives the table without its empty roles, or an error when a ladder role is empty. |
| `AccessTableJson.RoundTripExactly` | access.go:301-359 | It restores the table exactly when every role holds at least one operation. |
| `AccessSources.LoadsExactly` | access.go:321-359 | Exactly which documents load, in literal terms, and the order of the errors. |
| `AccessSources.LoadedExactly` | access.go:321-359 | The table has the document's source, each operation under its scope and name, and each role with what it lists. |
| `AccessSources.FirstBadOperation` | access.go:321-359 | The first operation that cannot be taken decides the error. |
| `AccessLoading.LoadAccessTable` | access.go:167-203 | The loops over the lines of the two operation sources, then the roles and the lowest roles, with their errors, give the specified table. |
| `AccessLoading.FilledIsExtracted` | access.go:179-192 | The lines of one scope add exactly their own operations. |
| `AccessSources.ReadsBothScopes` | access.go:167-203 | A checkout without lines of a scope is refused; else the table has the last line of each name, under its own scope. |
| `AccessSources.LastLineWins` | access.go:179-192 | Under each name, the flag and the facet of its last line. |
| `AccessLoading.SourceTableIsWellFormed` | access.go:167-203 | A table read from source is well-formed, has at least one operation of each scope, and its roles hold what inheritance reaches. |
| `AccessLoading.CopyDiffersExactly` | access.go:301-359 | A loaded copy never contradicts the table, and answers a session differently exactly when the table says No and a role that counts, not blank, holds nothing; it then answers Unknown. |
| `AccessInputs.LadderMayNotBeCumulative` | access.go:205-291 | Blocks the parser accepts where a ladder role does not hold an operation, yet compares as high enough for its lowest role. |
| `AccessInputs.EmptyRoleIsLost` | access.go:301-359 | Blocks the parser accepts with a role that holds nothing: the JSON copy loads as another table, and a session's No becomes Unknown. |
| `AccessInputs.NamelessRoleFlips` | access.go:321-359 | Two documents that load, one with a nameless role, and a session whose No becomes Yes. |
| `Aliases.Check` | aliases.go:106-158 | The check as written accepts exactly the writable builders. |
| `Aliases.OwnFieldsExactly` | aliases.go:106-140 | Its comparison of field names refuses exactly the builders that set a field of another type. |
| `Aliases.MarshalJSON` | aliases.go:161-191 | The body filled by assignment is the specified one. |
| `Aliases.ToBuilder` | canonical.go:93-191 | The conversion as written, with its errors, computes the specified result. |
| `Aliases.ConvertHeaders` | canonical.go:166-178 | The loop over header categories. |
| `Aliases.ReadBuilder` | canonical.go:130-183 | The switch over the five types, reading field after field up to the first of the wrong type, gives the specified builder. |
| `AliasRoundTrip.RoundTrip` | canonical.go:93-191 | Every writable builder, marshalled, decoded and converted, comes back with lists sorted, empty ones nil and a false exposure flag dropped; a second trip changes nothing. |
| `AliasRoundTrip.NormalIdempotent` | canonical.go:16-23 | The normal form is a normal form. |
| `AliasRoundTrip.NormalWritable` | aliases.go:106-158 | The normal form of a writable builder is writable. |
| `AliasRoundTrip.NothingLost` | canonical.go:84-191 | A conversion that succeeds drops no field and invents none: every key is known, and writing the builder gives each list, flag and header set of the definition. |
| `AliasRoundTrip.HeadersKept` | canonical.go:166-178 | The same categories with the same values, sorted. |
| `AliasRules.WritableExactly` | aliases.go:106-158 | Exactly which builders can be written, field by field, in literal names. |
| `AliasRules.ServerKeysChangeNothing` | canonical.go:70-72 | A field of the server (name, type, createdAt, creatorId, resolvedValue) changes nothing in a conversion, whatever its value. |
| `AliasRules.UnknownFieldsFail` | canonical.go:110-128 | A conversion fails for unknown fields exactly when a key is neither the type's nor the server's nor ignored, and names all of those. |
| `AliasRules.FailsInOrder` | canonical.go:93-110 | The failures that come first. |
| `AliasFields.WritesExactly` | aliases.go:161-191 | Every list of a builder is written under its own key, whatever the type. |
| `AliasFields.NameAndFlagWritten` | aliases.go:161-191 | And the name, the type and the exposure flag under theirs. |
| `AliasFields.HeadersWritten` | aliases.go:161-191 | The categories of a header alias, each with its strings, or null for a nil slice. |
| `AliasFields.ReadsExactly` | canonical.go:130-183 | Each list is read from the key of its type, sorted, and from nothing for another type. |
| `AliasFields.ReadsInterfaces` | canonical.go:130-183 | The fields of an interface alias. |
| `AliasFields.ReadsNetworks` | canonical.go:130-183 | Those of a logical network. |
| `AliasFields.ReadsHeaders` | canonical.go:166-178 | The categories of a header alias. |
| `AliasFields.UnmarshalExactly` | aliases.go:22-40 | Exactly which objects read as an alias, and to what. |
| `Canonical.CanonicalIdempotent` | canonical.go:8-14 | A canonical form is its own canonical form. |
| `Canonical.OrderIrrelevantExactly` | canonical.go:8-14 | Every order of the same elements has one canonical form exactly when no two different normalised elements share a key. |
| `Canonical.CanonicalOrderIndependent` | canonical.go:8-14 | The direction used most: with different keys, two orders of the same elements have one form. |
| `Canonical.SameFormExactly` | canonical.go:10-14 | Two lists share a canonical form exactly when, key by key, their normalised elements are the same in the same order. |
| `Canonical.SameUpToOrder` | canonical.go:10-14 | For a list whose keys are different: exactly when the normalised elements are the same up to order. |
| `Canonical.IgnoredExactly` | canonical.go:25-61 | Which differences the three forms ignore, and no others: the order of globs and devices, a circuit's source, the case of a colour. |
| `Canonical.SameCopyExactly` | canonical.go:16-23 | Sorted copies agree exactly for permutations; nil and empty are one. |
| `Canonical.OrderOfTwo` | canonical.go:8-14 | Two elements lose their order exactly when their keys differ or they normalise alike. |
| `Canonical.SameNameKeepsOrder` | canonical.go:40-48 | Two circuits of one name keep the order they came in. |
| `Canonical.CanonicalLocations` | canonical.go:27-35 | The loop and the sort compute the canonical list. |
| `Canonical.CanonicalWanCircuits` | canonical.go:40-48 | The same, without the source. |
| `Canonical.CanonicalDeviceTags` | canonical.go:52-61 | The same, devices sorted and the colour in lower case. |
| `Canonical.FormsAreIdempotent` | canonical.go:27-61 | Applied to their own results the three change nothing. |
| `Canonical.ToLowerIdempotent` | canonical.go:57 | Lower-casing is idempotent. |
| `LetterCase.ToLowerExactly` | canonical.go:57 | Lower case letter by letter, by places in the alphabets, with the two other letters by their code points. |
| `Canonical.FormsInOrder` | canonical.go:27-61 | Locations come out in order of their IDs, circuits and tags in order of their names, and each list keeps its length. |
| `Canonical.NormalExactly` | canonical.go:27-61 | What each form is made of. |
| `Canonical.BuildersInOrder` | canonical.go:195-206 | Builders come out in order of their names. |
| `Canonical.CanonicalAliases` | canonical.go:195-206 | All builders sorted by name, or the first alias that does not convert and why. |
| `Canonical.CopiedAliasesAgree` | canonical.go:84-206 | Aliases with different names, converted, written elsewhere and listed there in any order, have the same canonical list. |
| `Capabilities.EntryAfter` | capabilities.go:147-159 | What a run of observations does to one capability: evidence wins exactly where the profile did not decide. |
| `Capabilities.ObservationsCommute` | capabilities.go:147-174 | Only the set of observed capabilities matters to the statuses. |
| `Capabilities.SupportOnlyGrows` | capabilities.go:80-159 | From the profile on, support only moves from unknown to supported. |
| `Capabilities.VerdictNeverChanges` | capabilities.go:135-145 | A capability is refused, at any time, exactly when the profile marks it unsupported. |
| `Capabilities.TwoReadsActAsOne` | capabilities.go:135-145 | The two separate reads act as one made at the second; and as one made at the first exactly when no build was learned in between. |
| `Capabilities.VersionsStick` | capabilities.go:161-174 | The first non-empty build and the first non-empty release stay, each on its own; track and features never change. |
| `Capabilities.ListingUnique` | capabilities.go:120-133 | The listing is determined by the statuses. |
| `Capabilities.ReachableIsKeyed` | capabilities.go:80-159 | After any run from a profile every status is filed under its own name. |
| `Capabilities.ConfiguredReads` | capabilities.go:80-90 | What a profile says of a capability, in literal texts: a stated support reads as stated, an empty one as unknown, each from the configured profile. |
| `Capabilities.SupportExactly` | capabilities.go:80-159 | What is known of a capability after any run: what the profile says when it decides, and else supported once a response showed it. |
| `Capabilities.RefusesExactly` | capabilities.go:135-145 | After any run a request is refused exactly when the profile says "unsupported", with its track and the build known by then. |
| `Capabilities.BuildExactly` | capabilities.go:161-174 | The build after any run, by position. |
| `Capabilities.ReleaseExactly` | capabilities.go:161-174 | And the release. |
| `Capabilities.ListingInOrder` | capabilities.go:120-133 | A listing is in order of the capabilities' names and has exactly the recorded statuses. |
| `CapabilityRegistry.Registry.constructor` | capabilities.go:80-90 | The registry starts from the profile, with a feature map of its own. |
| `CapabilityRegistry.Registry.GetProfile` | capabilities.go:93-103 | The caller gets the profile with a fresh map. |
| `CapabilityRegistry.Registry.Support` | capabilities.go:106-117 | The recorded status, unknown for a capability nobody mentioned. |
| `CapabilityRegistry.Registry.All` | capabilities.go:120-133 | Every status once, in order of name. |
| `CapabilityRegistry.Registry.RequireCapability` | capabilities.go:135-145 | The refusal, with track and build. |
| `CapabilityRegistry.Registry.ObserveCapability` | capabilities.go:147-159 | One observation. |
| `CapabilityRegistry.Registry.RecordVersion` | capabilities.go:161-174 | One version recorded. |
| `CapabilityRegistry.Session` | capabilities.go:80-185 | Heap isolation: after any session in which callers write into every map they hold, the registry is where its events alone lead, and it can be listed. |
| `CapabilityRegistry.SessionThenAll` | capabilities.go:80-185 | What is listed after a session are the statuses its events lead to. |
| `StreamSinks.HeadWriter.Write` | devices.go:233-251 | One write: at most what remains is passed on, and the write fails when not all was. |
| `StreamSinks.CopyHead` | devices.go:227-251 | However the body is cut, the destination holds its first bytes and never more than the maximum; with one that takes everything, exactly min(maximum, length). |
| `StreamSinks.DownloadHead` | devices.go:185-200 | The number of bytes, truncated exactly when the body is longer, failed exactly when it breaks off before. |
| `StreamSinks.LimitedWriter.Write` | cve_index.go:180-187 | One write: refused exactly when it would pass the budget. |
| `StreamSinks.CopyLimited` | cve_index.go:175-187 | The budget is never passed; with a buffer behind it the copy succeeds exactly when the body is whole and fits. |
| `CertificateBundle.Collect` | cloud_cap_credential.go:136-159 | The position index agrees with the list, which holds one certificate per key, the last. |
| `CertificateBundle.KeptIsLast` | cloud_cap_credential.go:152-158 | What is kept for a key is its last certificate. |
| `CertificateBundle.ParsesExactly` | cloud_cap_credential.go:136-151 | A block adds its certificate, in place, when it is one that parses, and nothing otherwise. |
| `CertificateBundle.Window` | cloud_cap_credential.go:160-169 | The latest start and the earliest end. |
| `CertificateBundle.BundleValidity` | cloud_cap_credential.go:124-170 | The count is the number of different subjects; an instant is in the window exactly when the last certificate of every subject is valid at it. |
| `Patches.FailsExactly` | classic_devices.go:524-535 | Encoding fails exactly when a name is not clearable or is also set. |
| `Patches.ClearOrderIsIrrelevant` | classic_devices.go:511-537 | The order and repetition of the names to clear do not matter. |
| `Patches.AppliedExactly` | classic_devices.go:511-537 | Every patch that encodes sets exactly the properties it gives a value, unsets exactly the cleared ones and those it sets to null, and leaves the rest. |
| `Patches.NullsExactly` | collectors.go:164-203 | The nulls sent are the cleared names and the properties set to null: the cleared names alone exactly when every property set to null is also cleared. |
| `Patches.SameBodyExactly` | classic_devices.go:511-537 | Two patches have one body exactly when they set the same values and unset the same names. |
| `Patches.PatchesCompose` | classic_devices.go:511-537 | Two encoded patches sent in turn do what one patch does, which also encodes; one sent twice does what it does once. |
| `Patches.NullWithoutClear` | collectors.go:164-203 | A patch that encodes and sends a null that Clear does not name. |
| `Patches.MarshalClassicDevice` | classic_devices.go:512-537 | The loop with its set of cleared names. |
| `Patches.MarshalCollectionSettings` | collectors.go:180-203 | The loop that lets a null be cleared. |
| `Patches.NameAndHostStay` | classic_devices.go:471-483 | A patch that clears the name or the host is refused. |
| `Patches.ClearableExactly` | classic_devices.go:404-509 | Every property a device patch can set can be cleared but the name and the host; every one a settings patch can set but the disabled commands, and four it cannot set. |
| `Patches.RefusesExactly` | collectors.go:180-203 | A device patch is refused when a name to clear is not clearable or is set at all; a settings patch only when it is set to a value. |
| `Patches.FirstBadName` | classic_devices.go:524-535 | The error names the first name that cannot be cleared, and why. |
| `EndpointPatches.BeforeDashExactly` | endpoints.go:692-696 | The type is the text before the first dash. |
| `EndpointPatches.KindExactly` | endpoints.go:692-696 | An ID names a type exactly when it begins "CLI-", "SNMP-" or "HTTP-". |
| `EndpointPatches.AllowedExactly` | endpoints.go:627-634 | Which types have a field, by field. |
| `EndpointPatches.ClearsExactly` | endpoints.go:704-715 | Which names may be cleared. |
| `EndpointPatches.ErrorExactly` | endpoints.go:691-719 | Which error a patch gets. |
| `EndpointPatches.GeneralFields` | endpoints.go:637-688 | Setting a field changes what is sent under its own name and under no other: the general fields. |
| `EndpointPatches.DetectionFields` | endpoints.go:637-688 | The same of the detection fields. |
| `EndpointPatches.PagingFields` | endpoints.go:637-688 | The same of the paging fields. |
| `EndpointPatches.CommandFields` | endpoints.go:637-688 | The same of the command fields. |
| `EndpointPatches.SnmpFields` | endpoints.go:637-688 | The same of the SNMP fields. |
| `EndpointPatches.HttpFields` | endpoints.go:637-688 | The same of the HTTP fields. |
| `EndpointPatches.Body` | endpoints.go:691-719 | Encoding fails exactly when the ID names no type, a field does not fit it, a name may not be cleared, is set or cleared twice, or nothing is stated; the error is a field that does not fit, else that of the first name that cannot be cleared, else that nothing is stated. |
| `EndpointPatches.Fields` | endpoints.go:637-688 | Only the fields that are set are sent, each under its own wire name. |
| `EndpointPatches.Update` | endpoints.go:637-719 | A patch is sent exactly when its Go fields and the names to clear fit the type; each wire name carries its own field, or null when cleared. |
| `EndpointPatches.AppliedExactly` | endpoints.go:570-586 | The stated fields are set, the cleared ones unset, all others kept; clearing never unsets the name or the HTTPS flag. |
| `EndpointPatches.ClearOrderIsIrrelevant` | endpoints.go:704-715 | The order of the names to clear does not matter. |
| `ConnectivityWait.Wait` | diffs_connectivity.go:137-172 | The first round that does not continue decides; a partial result is never a success. |
| `ConnectivityWait.TestExactly` | diffs_connectivity.go:160 | The deadline test is right exactly when the sum of the durations fits 64 bits. |
| `ConnectivityWait.DeadlineEndsExactly` | diffs_connectivity.go:150-171 | While the result stays partial, the deadline ends the call at the first round past it exactly when that sum fits 64 bits; otherwise no later round does. |
| `ConnectivityWait.WrappedTest` | diffs_connectivity.go:160 | An input where a wait is started although the timeout is over. |
| `ConnectivityWait.SumsExactly` | diffs_connectivity.go:160 | A sum of durations is the one equal to it modulo 2^64; the time passed stops at the largest duration. |
| `ConnectivityWait.DefaultsExactly` | diffs_connectivity.go:109-150 | An option that is not positive stands for five minutes, or two seconds. |
| `ConnectivityWait.RoundExactly` | diffs_connectivity.go:150-171 | How one round ends the call, or does not. |
| `ConnectivityWait.WaitsAreBounded` | diffs_connectivity.go:150-171 | If completed waits last their interval and no sum wraps, no wait would end past the timeout, and at most timeout/interval of them are started. |
| `ConnectivityWait.BoundedWait` | diffs_connectivity.go:137-172 | The call then makes at most timeout/interval + 1 reads, has returned by then, and reports a timeout only when the next wait would pass it. |
| `ConnectivityWait.BoundIsMet` | diffs_connectivity.go:150-171 | With instant reads and exact timers that many are started. |
| `ErrorDetail.NormalizedErrorDetail` | errors.go:479-491 | The loop over code points computes the specified text. |
| `ErrorDetail.DetailIdempotent` | errors.go:479-491 | Normalising a normalised text changes nothing. |
| `ErrorDetail.DetailWords` | errors.go:479-491 | The words of the text are the words of its parts, in order. |
| `ErrorDetail.DetailIsPrefix` | errors.go:315 | The text of fewer parts is a prefix of the text of more, and the missing words are those of the missing parts. |
| `ErrorDetail.ContainsWords` | errors.go:493-500 | All the words occur. |
| `LetterCase.CleanRuneExactly` | errors.go:479-491 | What each code point becomes: itself, its small letter, or a blank. |
| `ErrorDetail.RuleExactly` | errors.go:402-419 | The rule in literal words. |
| `ErrorDetail.WordsRead` | errors.go:401-405 | Which parts the words are read from: the body only when there is no message. |
| `ErrorDetail.NarrowSaysLess` | errors.go:402-419 | Words found in the narrowed text are found in the full one. |
| `ErrorDetail.NarrowedRuleExactly` | errors.go:402-419 | Where the narrowed rule succeeds, the full one does exactly when the full text names no missing child. |
| `ErrorDetail.NarrowedCanDiffer` | errors.go:402-419 | A message and the JSON body it is read from where only the narrowed rule succeeds. |
| `ErrorDetail.BodyKeepsPhrase` | errors.go:315 | Words that stand together in the body, set off by blanks, stand together in the full text. |

## Left out

- HTTP itself: requests, TLS, redirects, cookies, hooks and the wrappers that build one path and call `Do`.
- The retry loop, the shared cooldown, the poller and the collection operation.
- Extraction of blocks and tables from Java source, of tokens from HTML and of SAML forms: the model starts from the pieces.
- JSON text: values are a datatype, numbers keep their text, and a struct key matches by its exact spelling only.
- X.509, PEM and the base64 of certificate bundles; gzip and digests.
- Reason texts of answers and message texts of errors; errors are constructors.
- Unicode case mapping beyond ASCII and the two other letters whose lower case is ASCII: other bytes are left as they are.
- AccessDecision.Can: the order in which network roles are met decides only the reason text, which is not modelled.
- CsrfRuns.NoDeadlock: says that a step is possible, not that a scheduler takes it; the server is a counter of principals.
- BrowserClients.EventKeepsSessions: the session that `ImpersonatedClient` signs in with and then discards is not followed, and a client without a CSRF state is not modelled.
- RequestPaths.ResolveScoped: URL parsing is written out for references; the query is kept as given, and an opaque reference is not told apart from one with a colon in its first segment.
- RequestPaths.AcceptedExactly: the base URL's own path is always "/", as `normalizeBaseURL` leaves it.
- Canonical.CanonicalLocations: slices are values, so that a caller's slice is not changed holds by construction; the fields a form leaves alone are one opaque field.
- Canonical.CanonicalDeviceTags: the colour's lower case is that of the letters named above.
- CapabilityRegistry.Registry.RequireCapability: one goroutine; the steps of others between its two reads are in `Capabilities.TwoReadsActAsOne`. A nil client or registry is not modelled.
- StreamSinks.CopyHead: a destination that writes short without an error, against the contract of `io.Writer`, can be reported as a truncation; the exact lengths are stated for one that takes everything.
- CertificateBundle.BundleValidity: the key of a subject is any function, the program's is its lower case; instants are integers and 0 stands for the zero time.
- Patches.AppliedExactly: what the server does with a body is the reading the comments give: null unsets, a value replaces.
- EndpointPatches.Fields: wire names are constructors, and the value of a field is taken encoded.
- ConnectivityWait.BoundedWait: the request, the clock and the timer are the rounds the method is given; what happens when a sum wraps is in `ConnectivityWait.DeadlineEndsExactly`.
- ErrorDetail.NarrowedRuleExactly: how the message is read from the body is not modelled, since JSON text is not; whether the path alone names a network resource is a parameter, and the rules that come before it in the classification are not modelled.
