# agent-suite: a verified model of its decision procedures

The repository installs, checks and gates a suite of agent components. Most of it calls other programs. What this project
models is the part that decides: whether a repository without a publication declaration may be skipped, whether a text
names a forbidden identifier, whether a protected operation has two principals behind it, whether an installed tree is
the released one, whether a bearer token is accepted, whether two connection strings name one database, whether an
environment overlay is up to date, whether the first write to a store may be admitted, and whether a host is healthy.

Each Dafny module models one source file or one part of it. What the source does in loops and on fields is written as
methods and classes here, each proved to compute a function of its input or its old state; what the source promises is
then proved of those functions as lemmas.

| modules | part of the system |
|---|---|
| `BatchStream`, `History`, `Absence` | the verdict on an absent publication declaration, over a whole commit history |
| `Lines`, `Phrases`, `Scanner` | the scan of a text for words and for phrases with flexible separators |
| `DualControl`, `DualControlStore`, `Protocol` | two-principal approval: the checks, the file-backed store, and all runs of concurrent clients |
| `TokenCache`, `Entra` | the cache of validated tokens, and validation with it |
| `Conninfo`, `Database`, `DatabaseTarget` | the connection string scanner, database identity, and the fingerprint |
| `Overlay`, `OverlayReading` | reading, merging and writing the per-user environment file |
| `Coverage`, `Attestation`, `AttestationOutcome`, `HostAttestation` | the attestation of installed wheels against a release manifest |
| `GenesisGate`, `GateSpec`, `OpenGate` | the fail-closed gate over probe reports, its order-free specification, and what a report must say to open it |
| `Collector`, `Doctor` | collecting concurrent health reports under a deadline, and the verdict on them |
| `PyText`, `PyNumber`, `Sorting`, `StableSort`, `Bags` | the few operations of the host language the others rely on |

## How the world enters the model

- A clock reading is a `real` passed in wherever the source reads the clock, one parameter per reading; the lemmas over
  runs ask that readings do not go backwards.
- Every locked block of the store is one atomic step. `evaluate_approval` reads the clock and locks twice, so it is three
  steps with anything in between; a caller may also give it the time. A ghost `trace` records every state of the disk within a step, which is where a crash can strike.
- Hashes and token decoding are functions passed in, assumed injective or stable only in the lemmas that say so.
- A file tree is a record of functions (`Coverage.Host`): where a path resolves to, what its digest is, what a walk meets.
- Output of git is a list of rows, a list of checked entries and a byte stream; JSON and TOML arrive as parsed values.
- Exceptions are results: `Option`, `Result`, or a named outcome such as `Raised`.

## What was found where the code and its documentation part

Each comes with its exact condition, and with an input on which it shows.

- `write_overlay` says that running it again rewrites identical content and reports ALREADY_DONE. That holds exactly
  for starting files whose entries, those the suite does not own, are in normal form (`Overlay.SecondRunIsDoneIffNormal`);
  a value in two layers of quotes needs another run (`Overlay.QuotesInQuotesTakeAnotherRun`). Repeated runs always settle.
- `scan_text` says a phrase is reported on the line its match starts on. It counts newlines but splits lines at other
  breaks too, so this holds exactly when each break before the match ends in a newline (`Scanner.ReportedLine`,
  `Scanner.BareReturnMisplaces`).
- The collector of `aggregate` says nothing about repeated idents. With one, an unfinished component can go unreported
  and the verdict be green (`Collector.SharedIdentLosesAReport`); unique idents are exactly what rules it out
  (`Collector.OneReportEachIffUnique`).
- `postgres_database_fingerprint` joins its parts with NUL, so strings with a NUL can collide (`Database.NulHostsCollide`).
  Two strings of one fingerprint name one database exactly when their hosts hold equally many NULs
  (`Database.SameFingerprintIffSameNuls`); keyword strings without NUL, and URIs with neither NUL nor escapes, never
  collide (`Database.FingerprintIdentifiesPlainStrings`).
- A cached token is checked for expiry at the lookup, so a call can answer from the cache where the later check would
  find the token expired (`Entra.ExpiryBetweenReadings`); a negative cache limit makes `put` raise.
  `Entra.CacheIsTransparent` says exactly when. The cache is handed to a validator, and validators of two tenants on one
  cache accept each other's tokens (`Entra.TenantsOnOneCache`, `Entra.TransparentIffInterchangeable`).
- Principals, ids, digests and hashes that are not ASCII make `hmac.compare_digest` raise
  (`DualControl.NonAsciiNameRaises`): `DualControl.CheckApproval` approves exactly the comparable approvals under dual
  control.
- Dual control rests on request ids never being used twice; `Protocol.ReusedIdentifierIsUnsafe` is a run that shows why.
  Its write tests no expiry, so an approval can be stored late (`Protocol.ApprovalCanComeLate`); an execution cannot.
- A component can bind to the release, and a host pass under required binding, on the hash its installer recorded, with
  no file verified (`Attestation.BindsWithoutFiles`); `HostAttestation.RequiredBindingMeaning` says what the verdict covers.

## Model

| member | source | states |
|---|---|---|
| `Absence.AbsentDeclarationVerdict` | scripts/check_committed_identifiers.py:719-830 | The gate, from the printed walk, rows and batch stream. An unresolved HEAD is a skip only when the object store holds no commit. Otherwise, whatever repository the output shows: absence is skipped exactly when HEAD and every tip are safe on all paths of that repository, all parents counted, and refused if not. |
| `History.ReadWalk` | scripts/check_committed_identifiers.py:766-778 | Reading the walk line by line gives the graph (a repeated commit keeps its last parents) and the order. |
| `History.ReadEntries` | scripts/check_committed_identifiers.py:792-800 | Each row of the batch check gives its commit no entry, an irregular one, or a regular blob. |
| `History.ReadPrivateBlobs` | scripts/check_committed_identifiers.py:801-814 | The position-driven loop pairs each blob with its own contents as the stream frames them, and raises exactly when some frame cannot be read. |
| `History.FillSafe` | scripts/check_committed_identifiers.py:815-821 | The backwards loop computes the recursive filling of the `safe` map. |
| `History.History.SafeDeclared` | scripts/check_committed_identifiers.py:722-739 | With a declaration of its own, a commit is safe in the path sense exactly when the declaration is clean private. |
| `History.History.SafeUndeclared` | scripts/check_committed_identifiers.py:722-739 | Without one, a commit is safe in the path sense exactly when all its parents are. |
| `History.SafeFromMeaning` | scripts/check_committed_identifiers.py:815-821 | For every parent-closed topological listing the loop's answer is the statement about all paths below the commit, and it does not depend on the default for unseen parents: `safe.get(p, True)` could as well be False. |
| `History.AcceptsMeaning` | scripts/check_committed_identifiers.py:776-822 | HEAD and every tip safe, as the loop computes it, is: every path from HEAD or a tip down to a tainted commit passes a clean private declaration strictly above that commit. |
| `Absence.AbsenceAcceptedIffShielded` | scripts/check_committed_identifiers.py:766-830 | About a repository given on its own, its graph, entries and blobs: when the walk lists each commit once with its parents, each row is what git prints for the commit's entry, and the batch stream frames the blobs, absence is skipped exactly when every path from HEAD or a tip down to a tainted commit passes a clean private declaration strictly above it, and is refused otherwise. |
| `Absence.RowReads` | scripts/check_committed_identifiers.py:792-800 | A row "100644 blob" or "100755 blob" with an oid reads as a regular blob, "... missing" as no entry, and any other object as an irregular one. |
| `Absence.CleanDeclaration` | scripts/check_committed_identifiers.py:617-631 | A document is a clean private declaration exactly when its publication section has the visibility "private-until-review", in any case and with any white space around. |
| `History.VerdictIsOfTheHistory` | scripts/check_committed_identifiers.py:722-739 | Any two topological listings of one history get one verdict, and a further ref at an already walked commit changes nothing. |
| `BatchStream.FrameRoundTrip` | scripts/check_committed_identifiers.py:807-810 | One turn of the loop reads back the data of the object it stands at, whatever surrounds it, and moves just behind it. |
| `BatchStream.StreamRoundTrip` | scripts/check_committed_identifiers.py:803-810 | For any objects whose header line names the size of their data, the loop recovers exactly their contents, with newlines or header look-alikes inside them. |
| `BatchStream.HeaderDescribes` | scripts/check_committed_identifiers.py:808 | A "name kind size" header is such a line for every name and kind without white space and every size. |
| `Scanner.FilterIdentifiers` | scripts/check_committed_identifiers.py:114-125 | No identifier shorter than the minimum survives, so none is empty. |
| `Scanner.FilteredHasWords` | scripts/check_committed_identifiers.py:114-125 | Each surviving identifier still splits into at least one non-empty word. |
| `Scanner.FindWord` | scripts/check_committed_identifiers.py:196 | A found offset is at or behind the start and is an occurrence. |
| `Scanner.FindWordFirst` | scripts/check_committed_identifiers.py:196 | Nothing at or before any occurrence is missed. |
| `Scanner.ScanLine` | scripts/check_committed_identifiers.py:194-205 | The greedy loop terminates for a non-empty identifier and yields one violation per greedy offset. |
| `Scanner.OffsetsDisjoint` | scripts/check_committed_identifiers.py:194-205 | Greedy offsets are occurrences, strictly increasing, and none overlaps the next. |
| `Scanner.OffsetsCover` | scripts/check_committed_identifiers.py:194-205 | Every occurrence shares a character with a reported one. |
| `Scanner.OffsetsAreMost` | scripts/check_committed_identifiers.py:194-205 | No choice of disjoint occurrences is larger than what the loop reports. |
| `Scanner.ReportedIffContained` | scripts/check_committed_identifiers.py:191-205 | A line is reported for a word exactly when the lowered line contains it. |
| `Scanner.WordReportedIffContained` | scripts/check_committed_identifiers.py:191-205 | The same for the reports of the whole text: word, line number and line. |
| `Scanner.ScanLineForWords` | scripts/check_committed_identifiers.py:192-205 | A line is reported for each word as often as its greedy offsets, and for nothing else. |
| `Scanner.ScanForWords` | scripts/check_committed_identifiers.py:190-205 | The same over all lines, each under its own number. |
| `Scanner.ScanForPhrase` | scripts/check_committed_identifiers.py:209-217 | One report per match, each with the line found by counting newlines. |
| `Scanner.ScanForPhrases` | scripts/check_committed_identifiers.py:207-217 | The same over all phrases, whatever order the set is visited in. |
| `Scanner.ScanText` | scripts/check_committed_identifiers.py:172-217 | About each raw entry whose words and single spaces come to at least 4 characters: one word is reported on line n exactly when the line contains it in any case; several words are reported exactly when the text spells them in order with non-empty separator runs; nothing else is reported. And every violation is reported exactly as often as it is found. |
| `Scanner.CompleteMeaning` | scripts/check_committed_identifiers.py:114-217 | That follows from the multiplicities for any list of violations that has them. |
| `Scanner.PhraseReportedIffSpelled` | scripts/check_committed_identifiers.py:161-169 | A filtered phrase is reported at all exactly when its words occur in order with non-empty separator runs between them. |
| `Scanner.ReportedLine` | scripts/check_committed_identifiers.py:207-217 | The reported line number is never too large, and is that of the line the match starts on exactly when only newlines (or CR LF) break lines before it. |
| `Scanner.MisplacedBehindBareBreak` | scripts/check_committed_identifiers.py:207-217 | Behind a bare line break, and no newline, every match is reported on the first line and is on a later one. |
| `Scanner.BareReturnMisplaces` | scripts/check_committed_identifiers.py:207-217 | Such a text: a phrase behind a carriage return. |
| `Phrases.MatcherFinds` | scripts/check_committed_identifiers.py:161-169 | Wherever some spelling of the phrase stands, backtracking over run lengths finds a match. |
| `Phrases.MatcherIsSound` | scripts/check_committed_identifiers.py:161-169 | Whatever the matcher accepts is a spelling with non-empty separator runs, ending where it says. |
| `Phrases.MatchIffSpelled` | scripts/check_committed_identifiers.py:161-169 | The greedy, backtracking matcher succeeds exactly where some spelling starts. |
| `Phrases.ReportedIffSpelled` | scripts/check_committed_identifiers.py:209-217 | The search over the whole text finds a match exactly when a spelling starts anywhere. |
| `Phrases.SeparatorsDoNotHide` | scripts/check_committed_identifiers.py:161-169 | Rewriting the separator runs of an occurrence with any other non-empty runs, line breaks included, does not hide it. |
| `Lines.LocateIsRight` | scripts/check_committed_identifiers.py:190 | A character's row and column put it on the whole line of the text that holds it. |
| `Lines.NewlinesGiveRow` | scripts/check_committed_identifiers.py:211 | Counting newlines before a character gives its row exactly when every line break before it ends in a newline, and never too large a row. |
| `DualControl.EffectiveLevel` | src/agent_suite/dual_control.py:148-197 | The level a request asks for is a hard token for break-glass and whenever one is asked for, and else multi-factor: never below the minimum, never lower than asked. |
| `DualControl.CreateRequest` | src/agent_suite/dual_control.py:166-210 | Granted exactly for a live token that is a hard one where the operation is break-glass or a hard token is asked for, and no single-factor one otherwise; the request carries its requester, digest, lifetime, token and that level. |
| `DualControl.CheckApproval` | src/agent_suite/dual_control.py:268-350 | Approved exactly when request and token are live, the token is strong enough, the principals differ and all four fields agree. |
| `DualControl.EvaluateRead` | src/agent_suite/dual_control.py:232-350 | With a store, the stored request decides: approved exactly when it is pending and dual control holds of it; anything missing or further along is rejected. |
| `DualControl.NonAsciiNameRaises` | src/agent_suite/dual_control.py:296-343 | A request, an approval and a token by a principal with a non-ASCII name, under dual control, on which the check raises. |
| `DualControl.CreatedApprovalPasses` | src/agent_suite/dual_control.py:366-401 | An approval made by `create_approval`, whatever its three ordered clock readings, passes the checks of `evaluate_approval` exactly as long as request and token live. |
| `DualControlStore.EvaluateApproval` | src/agent_suite/dual_control.py:213-363 | Read, check and write together: the store moves to the approved map exactly on APPROVED, a write the store refuses is REJECTED, every other outcome leaves the file alone. |
| `DualControlStore.MarkExecuted` | src/agent_suite/dual_control.py:404-429 | EXECUTED exactly when the store made the transition; FAILED, and no change, otherwise. |
| `Protocol.RunsAreSafe` | src/agent_suite/dual_control.py:213-429 | Over every interleaving of issue, create, the start, read and write of an evaluation, execute and cleanup: at most one APPROVED and one EXECUTED call per request, and every executed record holds an approval by another principal, for its own id and digest, by a token that met the level it asks for, executed before expiry. |
| `Protocol.ExecutedByStrongTokens` | src/agent_suite/dual_control.py:148-163 | Over every run: an executed break-glass record was approved in a call with a hard token, any other with a multi-factor or hard one, and none by a single factor. |
| `Protocol.RunKeepsInv` | src/agent_suite/dual_control.py:213-429 | The inductive invariant holds in every state of every run. |
| `Protocol.StepKeepsInv` | src/agent_suite/dual_control_store.py:107-207 | Each atomic step keeps it, the start, read and write of an evaluation being three steps. |
| `Protocol.WritersPassedChecks` | src/agent_suite/dual_control.py:232-350 | A call between its read and its write has passed all checks against the one request that ever carries its identifier. |
| `Protocol.InvImpliesSafety` | src/agent_suite/dual_control.py:213-429 | The invariant yields the safety property. |
| `Protocol.RecordsOnlyAdvance` | src/agent_suite/dual_control_store.py:107-207 | Over any run a record keeps its request, only advances, keeps its approval, and goes only when pending and expired. |
| `Protocol.StepIsOperation` | src/agent_suite/dual_control_store.py:107-207 | Every step leaves the records alone or performs one of the store's operations on them. |
| `Protocol.LiveWhenTheCallBegan` | src/agent_suite/dual_control.py:230-282 | Whenever a call that reads the clock itself is approved in a run, request and approver token were live when that call began. |
| `Protocol.ApprovalCanComeLate` | src/agent_suite/dual_control_store.py:125-148 | A run in which that is all: the write tests no expiry, and a request is stored as approved after it has expired. |
| `Protocol.ExecutionIsReachable` | src/agent_suite/dual_control.py:213-429 | A run that ends with an executed record, so the safety property is not empty. |
| `Protocol.ReusedIdentifierIsUnsafe` | src/agent_suite/dual_control.py:201-202 | A run, allowed to issue an identifier twice, that ends in an unsafe state: an approval checked against the first request is written onto the second and its own requester has approved it. |
| `DualControlStore.OperationsKeepProper` | src/agent_suite/dual_control_store.py:107-207 | Every operation on the map keeps records under their own id, stores only PENDING, APPROVED and EXECUTED, gives new records as pending, and deletes only expired pending ones. |
| `DualControlStore.ExpiredCount` | src/agent_suite/dual_control_store.py:193-207 | The count returned by cleanup is the number of records gone, and nothing goes when nothing has expired. |
| `DualControlStore.CleanupKeeps` | src/agent_suite/dual_control_store.py:193-207 | A record is there after cleanup exactly when it was there and, if pending, its time is not up. |
| `DualControlStore.RecordRoundTrip` | src/agent_suite/dual_control_store.py:37-93 | `from_dict` undoes `to_dict` on every record. |
| `DualControlStore.RequestRoundTrip` | src/agent_suite/dual_control_store.py:66-76 | The request part of it. |
| `DualControlStore.ApprovalRoundTrip` | src/agent_suite/dual_control_store.py:77-86 | The approval part of it. |
| `DualControlStore.LoadUndoesEncode` | src/agent_suite/dual_control_store.py:212-232 | Reading the file gives back the map that was written. |
| `DualControlStore.Store.WriteAll` | src/agent_suite/dual_control_store.py:226-232 | The new file is the encoded map; at every point on the way, where a crash may strike, the file is wholly the old or wholly the new one. |
| `DualControlStore.Store.ReadAll` | src/agent_suite/dual_control_store.py:212-224 | Reading gives the abstract map, or the error of an unreadable file. |
| `DualControlStore.Store.Create` | src/agent_suite/dual_control_store.py:107-123 | Refines the map operation, all or nothing, and leaves the file alone on error. |
| `DualControlStore.Store.Approve` | src/agent_suite/dual_control_store.py:125-148 | Refines the map operation, all or nothing, and leaves the file alone on error. |
| `DualControlStore.Store.Get` | src/agent_suite/dual_control_store.py:150-154 | Looks up the abstract map. |
| `DualControlStore.Store.MarkExecuted` | src/agent_suite/dual_control_store.py:156-181 | Refines the map operation, all or nothing, and leaves the file alone on error. |
| `DualControlStore.Store.CleanupExpired` | src/agent_suite/dual_control_store.py:193-207 | The map loses exactly the expired pending records, and the count is returned. |
| `TokenCache.TokenCache.Get` | src/agent_suite/entra.py:62-71 | Returns the live entry and makes it the most recent, drops an expired one, and keeps hashes distinct. |
| `TokenCache.TokenCache.Put` | src/agent_suite/entra.py:73-79 | Keeps the newest of the live entries and the new one, up to the limit; with a negative limit it raises after emptying the cache. |
| `TokenCache.TokenCache.Cleanup` | src/agent_suite/entra.py:81-88 | Leaves exactly the live entries, in order, and returns how many went. |
| `TokenCache.GetLeaves` | src/agent_suite/entra.py:62-71 | After a get, a hit, a miss or a drop, every entry is found that was found before, but for the one asked for when it has expired. |
| `TokenCache.PutLeaves` | src/agent_suite/entra.py:73-79 | After a put with a limit of at least one the token is found; of the others only live ones are, and all of those where there was room. |
| `TokenCache.CleanupLeaves` | src/agent_suite/entra.py:81-88 | After a cleanup exactly the entries are found that were found before and have not expired. |
| `TokenCache.RunInOrderOfUse` | src/agent_suite/entra.py:62-88 | After any run of operations the entries stand in order of last touch. |
| `TokenCache.PutKeepsMostRecent` | src/agent_suite/entra.py:73-79 | Over any run, a put leaves as many candidates as fit, and nothing it evicts was touched later than anything it keeps. |
| `Entra.AcceptedIffClaimsStandFor` | src/agent_suite/entra.py:150-224 | A token text is accepted as a token exactly when there is a key, it decodes, and its claims stand for that token: the principal is oid's text, and sub's only where oid says nothing; exp is its expiry and still to come; nbf is absent, null or past; tid is the tenant; acr names its level, which meets the one required. |
| `Entra.AcceptedStaysAccepted` | src/agent_suite/entra.py:162-224 | A token accepted once is accepted later, as the same token, for every level it reaches and until it expires. |
| `Entra.EntraTokenValidator.Validate` | src/agent_suite/entra.py:135-229 | Whatever is answered is the token the text stands for at the check, or an entry of the cache; answer and new cache are as the specification says. |
| `Entra.EntriesStayGenuine` | src/agent_suite/entra.py:144-148 | Over any run with evictions, every cache entry is what one of the validators accepted some token as, at a time already past. |
| `Entra.CachedAnswerIsRight` | src/agent_suite/entra.py:144-148 | An answer from a cache shared by interchangeable validators agrees with validation at the moment of the lookup. |
| `Entra.CacheIsTransparent` | src/agent_suite/entra.py:135-229 | Over every run of one validator with fixed keys, with a clock that never runs back: each call agrees with validation without a cache, except exactly when a cached token expires between the two clock readings of one call, or when the limit is negative and there is something to store. |
| `Entra.SharedCacheIsTransparent` | src/agent_suite/entra.py:94-106 | The same for any number of validators on one cache, as long as each accepts later what another has accepted. |
| `Entra.TransparentIffInterchangeable` | src/agent_suite/entra.py:94-106 | For a cache with room, that is exactly what it takes: a shared cache answers truly in every run if and only if the validators are interchangeable. |
| `Entra.OneIsInterchangeable` | src/agent_suite/entra.py:162-224 | A validator with fixed keys is interchangeable with itself. |
| `Entra.TenantsOnOneCache` | src/agent_suite/entra.py:144-148 | A run of two calls in which validators of two tenants share a cache and the second accepts what it would refuse by itself. |
| `Entra.ExpiryBetweenReadings` | src/agent_suite/entra.py:144-148 | A run of two calls in which a token expires between the two readings of the second, which the cache answers. |
| `Conninfo.ParseConninfoKeywords` | src/agent_suite/config.py:53-106 | The index-driven scanner ends within bounds and returns what the grammar reads, or None where the grammar fails or reads nothing. |
| `Conninfo.ScanQuoted` | src/agent_suite/config.py:82-99 | The quoted loop reads one quoted value with its escapes, or finds it unterminated. |
| `Conninfo.QuotedReadsBack` | src/agent_suite/config.py:81-99 | A quoted value is read back whichever of its characters are escaped, as long as quotes and backslashes are. |
| `Conninfo.WrittenPairsReadBack` | src/agent_suite/config.py:53-106 | Any pairs, written bare or quoted with any escapes and any white space, are read back as the lower-cased map with later duplicates winning. |
| `Conninfo.AcceptedIffWritten` | src/agent_suite/config.py:53-106 | A string is accepted, with this map, exactly when it is some pairs so written that mean this map, at least one: every malformed string is refused and no other. |
| `Conninfo.KeyCharacters` | src/agent_suite/config.py:50 | The characters a key starts with and consists of, one by one. |
| `Database.MeaningIsLastValue` | src/agent_suite/config.py:105 | That map gives each key the last value written for it. |
| `Database.SameDatabaseIsEquivalence` | src/agent_suite/config.py:172-186 | Reflexive, symmetric and transitive on all strings. |
| `DatabaseTarget.KeywordIdentityMeaning` | src/agent_suite/config.py:109-135 | A keyword string has this identity exactly when it is well-formed pairs whose last values name it: the host from host, from hostaddr where that is missing or empty, or empty; the port from port, or 5432; the database from dbname, not empty; no list of hosts or ports and no nested database. |
| `DatabaseTarget.UriIdentityMeaning` | src/agent_suite/config.py:138-169 | A URI has this identity exactly when its parts name it: the host of the URI or of the query; its port, or the query's, or 5432; the path without the slashes around it, or the query's dbname, not empty. |
| `DatabaseTarget.UriIsKeywords` | src/agent_suite/config.py:172-186 | A URI and a keyword string are the same database exactly when both name one host, port and database. |
| `DatabaseTarget.DefaultPort` | src/agent_suite/config.py:128-160 | A string without a port, in either spelling, is for port 5432. |
| `DatabaseTarget.NormalHostMeaning` | src/agent_suite/config.py:127-157 | Two spellings are one host exactly when they hold the same name in lower case, between white space and with dots behind it. |
| `Database.SpellingDoesNotMatter` | src/agent_suite/config.py:109-135 | Two keyword strings have one identity whenever they agree on the last values of dbname, host, hostaddr and port: quoting, white space, user and password do not count. |
| `Database.OrderDoesNotMatter` | src/agent_suite/config.py:109-135 | Nor does the order of distinct keys. |
| `Database.MaterialIsInjective` | src/agent_suite/config.py:194 | Whenever two hosts hold equally many NULs, what is hashed is equal exactly when the identities are. |
| `Database.FingerprintIdentifies` | src/agent_suite/config.py:189-195 | For an injective hash, over strings whose hosts as given hold equally many NULs, equal fingerprints are exactly equal identities, None included. |
| `Database.SameFingerprintIffSameNuls` | src/agent_suite/config.py:189-195 | The exact condition: two strings of one fingerprint name one database if and only if the hosts they give hold equally many NULs. |
| `Database.IdentityKeepsNuls` | src/agent_suite/config.py:124-127 | Normalising a host keeps its NULs, so they can be counted in the string's own host. |
| `Database.GivenHostNulFree` | src/agent_suite/config.py:53-106 | A string without NUL gives a host without NUL: a keyword string always, a URI when nothing in it is percent-escaped. |
| `Database.FingerprintIdentifiesPlainStrings` | src/agent_suite/config.py:189-195 | So on such strings, which a caller can tell by looking, equal fingerprints are exactly equal identities. |
| `Database.NulHostsCollide` | src/agent_suite/config.py:189-195 | Two connection strings, one with a NUL in its host and one with a NUL in its database, that name different databases and have one fingerprint, whatever the hash. |
| `Overlay.OverlayFile.WriteOverlay` | src/agent_suite/identity.py:210-246 | ALREADY_DONE exactly when a run would write what is there; otherwise dry run, failure and success, with the file changed only on success, to the rendered merge. |
| `Overlay.WrittenEntryReads` | src/agent_suite/config.py:295-308 | How any written entry is read back: by what key and value, or as a comment. |
| `OverlayReading.LineReads` | src/agent_suite/config.py:295-308 | However a line is laid out, with white space, an export in front and one layer of quotes, it sets its key to its value. |
| `OverlayReading.LineIsSkipped` | src/agent_suite/config.py:295-300 | A line says nothing exactly when it is blank, a comment, or has no equals sign. |
| `OverlayReading.LastLineWins` | src/agent_suite/config.py:291-309 | A file gives a key the value of the last line that sets it, and no other value. |
| `OverlayReading.MergeIsReadBack` | src/agent_suite/identity.py:222-224 | What a run writes is read as the merge exactly when every entry of the merge, the suite's own included, is in normal form. |
| `Overlay.NormalIffReadsBack` | src/agent_suite/config.py:295-308 | A written entry comes back as it was exactly when it is in normal form: no white space at either end of key or value, no comment, no export prefix, no quotes around the value. |
| `Overlay.EntryShrinks` | src/agent_suite/config.py:295-308 | Reading a written entry never makes it longer, and equal length means it came back as it was. |
| `Overlay.SplitJoined` | src/agent_suite/identity.py:206-207 | Splitting a rendered file gives its lines. |
| `Overlay.WrittenFileReads` | src/agent_suite/config.py:291-309 | A rendered file is read as its entries in order: the header reads as nothing. |
| `Overlay.ReadBackShrinks` | src/agent_suite/config.py:291-309 | Reading back a whole map gives the same entries the suite does not own exactly when all are normal, and strictly lighter ones otherwise. |
| `Overlay.NextRun` | src/agent_suite/identity.py:222-224 | The next run finds the same merge exactly when every unowned entry is normal, and a lighter one otherwise. |
| `Overlay.RunsSettle` | src/agent_suite/identity.py:210-246 | From any starting file, repeated runs reach one that finds nothing to do, within a number of runs bounded by the unowned entries. |
| `Overlay.SettledStays` | src/agent_suite/identity.py:225-230 | From there on nothing changes. |
| `Overlay.RunsShrinkTheFile` | src/agent_suite/identity.py:210-246 | After the first run, each run that is not already done makes the file strictly shorter. |
| `Overlay.SecondRunIsDoneIffNormal` | src/agent_suite/identity.py:216-221 | The second run is already done exactly when every entry of the starting file that the suite does not own has that form, which can be read off the entries; their values are then kept. This is the condition under which the documented idempotence holds. |
| `Overlay.QuotesInQuotesTakeAnotherRun` | src/agent_suite/identity.py:216-221 | A value in two layers of quotes is a file on which the second run is not already done. |
| `Overlay.OverlayValuesWellFormed` | src/agent_suite/identity.py:188-200 | What the suite writes of its own is well formed whenever principal, project and projects hold no line break. |
| `OverlayReading.OverlayValuesMeaning` | src/agent_suite/identity.py:188-200 | REGISTA_PRINCIPAL_ID holds the principal; AGENT_NOTES_PROJECT the project, and is there only for one that is not empty; DOSSIER_PROJECTS the joined projects, and is there only where there are any; and there is no other key. |
| `OverlayReading.JoinCommasOf` | src/agent_suite/identity.py:199 | The projects are joined in order with one comma between two. |
| `Coverage.VerifyEntries` | src/agent_suite/artifact_attestation.py:444-498 | All rows, in sorted order. |
| `Coverage.VerifyKeys` | src/agent_suite/artifact_attestation.py:454-498 | The loop over sorted rows. |
| `Coverage.VerifiedIffMatches` | src/agent_suite/artifact_attestation.py:454-498 | A row is verified exactly when it is not the record's own, names an in-root file and gives that file's digest. |
| `Coverage.VerifyEntriesConserves` | src/agent_suite/artifact_attestation.py:444-498 | Verified, mismatched and unattested together grow by exactly the rows other than the record itself. |
| `Coverage.AllRowsClean` | src/agent_suite/artifact_attestation.py:444-498 | The account stays clean exactly when every row other than the record matches its file. |
| `Attestation.ScanDirectory` | src/agent_suite/artifact_attestation.py:533-551 | The walk of one directory notes exactly the files without a row. |
| `Attestation.ScanOwnedTree` | src/agent_suite/artifact_attestation.py:520-551 | The walk of all owned directories, in sorted order: it stays clean exactly when every file in every directory that leads a row of the record has a row. |
| `Attestation.CheckConsoleScripts` | src/agent_suite/artifact_attestation.py:613-657 | Every console script present is noted, and one that imports an undeclared target is a mismatch. |
| `Attestation.NoteStartupFiles` | src/agent_suite/artifact_attestation.py:913-914 | Every start-up file of unknown origin is noted. |
| `Attestation.CheckInstall` | src/agent_suite/artifact_attestation.py:859-914 | The rung reached by checking the tree, and the account it leaves; the strength is fixed before the surroundings are noted. |
| `Attestation.FirstFindingsClean` | src/agent_suite/artifact_attestation.py:793-854 | With the right wheel, the first findings are clean exactly when version, file name and recorded archive hash are right. |
| `Attestation.ConcludeBinds` | src/agent_suite/artifact_attestation.py:917-976 | The conclusion binds by the wheel exactly when the tree reached that rung, the account is clean and a recorded hash does not disagree. |
| `Attestation.AttestComponent` | src/agent_suite/artifact_attestation.py:752-976 | The method's result is the specification's, including the terminal cases, and binds by the wheel exactly when the chain holds of the files. |
| `Attestation.InstallClean` | src/agent_suite/artifact_attestation.py:860-892 | With the right wheel, the account stays clean exactly when all rows of both records match and no console script is present. |
| `Attestation.TreeClean` | src/agent_suite/artifact_attestation.py:520-551 | The walk stays clean exactly when every file met has a row. |
| `Attestation.BindsIffChainHolds` | src/agent_suite/artifact_attestation.py:752-976 | A component attests at WHEEL_HASH_CHAIN and binds exactly when: version, name and recorded archive hash agree, the wheel's digest is the manifest's, every row of the wheel record and every install-only row names an in-root file of that digest, and nothing else is there. |
| `Attestation.EveryOwnedFileChecked` | src/agent_suite/artifact_attestation.py:266-274 | Then every file under a directory that leads a row of the record is a record file or was digest-checked, against the wheel's row whenever the wheel has one. |
| `Attestation.OwnedMeaning` | src/agent_suite/artifact_attestation.py:501-517 | The directories walked are exactly those that lead a row of the record, are not empty, ".", or begin with "..", and are there. |
| `Attestation.ScriptRowsMeaning` | src/agent_suite/artifact_attestation.py:581-589 | The console script rows are exactly the "../" rows with a path part "bin" or "Scripts". |
| `Attestation.BindsIffArchiveHolds` | src/agent_suite/artifact_attestation.py:917-933 | A component attests at RECORDED_ARCHIVE_HASH and binds exactly when the installer recorded the manifest's hash, version and name agree, the wheel is not a bad one, and, where there is a tree to check, no right wheel is there, its own record holds of it and nothing else is there. |
| `Attestation.BindsIffChainOrArchive` | src/agent_suite/artifact_attestation.py:266-274 | These are the two ways to bind. |
| `Attestation.BindsWithoutFiles` | src/agent_suite/artifact_attestation.py:917-933 | Without an install record, a component binds on the recorded hash alone, is ok, and has no file verified. |
| `AttestationOutcome.OkIffNothingContradicts` | src/agent_suite/artifact_attestation.py:752-976 | A component is ok exactly when there is nothing to attest, or version, names and hashes agree and no row or script of its tree contradicts. |
| `AttestationOutcome.StrengthIsRung` | src/agent_suite/artifact_attestation.py:752-976 | The rung it reports, for every install, from what is there: mode, source, record, wheel, recorded hash, and whether anything contradicts. |
| `AttestationOutcome.StrayFileIsNamed` | src/agent_suite/artifact_attestation.py:520-551 | Every file without a row in an owned directory is named in the result, byte code as such, and the component does not bind. |
| `AttestationOutcome.BlankRowIsNamed` | src/agent_suite/artifact_attestation.py:444-498 | Every row without a digest for which no wheel speaks is named in the result. |
| `HostAttestation.Weakest` | src/agent_suite/artifact_attestation.py:243-247 | The attained minimum of the ladder; NOT_APPLICABLE for none. |
| `HostAttestation.Fold` | src/agent_suite/artifact_attestation.py:1061-1068 | Who is considered, who does not bind, and whether anything mismatched. |
| `HostAttestation.CheckWheelFiles` | src/agent_suite/artifact_attestation.py:1026-1059 | No mismatch exactly when each hashed constituent not attested here has a wheel file of its digest; the count is of the files read. |
| `HostAttestation.VerifyInstalledArtifacts` | src/agent_suite/artifact_attestation.py:979-1098 | `ok` exactly when nothing mismatched and, where binding is required, something is considered and all of it binds; the reported strength is the attained minimum. |
| `HostAttestation.RequiredBindingMeaning` | src/agent_suite/artifact_attestation.py:1061-1069 | What required binding then says of the host: something is in scope, and each constituent in scope is bound by its files or by the hash its installer recorded. |
| `HostAttestation.VerdictMeaning` | src/agent_suite/artifact_attestation.py:979-1098 | No constituent is contradicted exactly when each is out of scope or everything known of it agrees. |
| `GenesisGate.ProbeContractFindings` | src/agent_suite/genesis_gate.py:512-600 | The loops list exactly the findings of each probe and check in order, given the components and ids taken before it. |
| `GenesisGate.MeasurementFindings` | src/agent_suite/genesis_gate.py:603-751 | Exactly the findings on store, project and the project's row, as far as each can be looked at, with the snapshot of that row; a good measurement always has one. |
| `GenesisGate.RequiredFindings` | src/agent_suite/genesis_gate.py:775-815 | One finding per required check, in order, passed exactly when the check is found at its owner and satisfies it. |
| `GenesisGate.ContractFindingsMeaning` | src/agent_suite/genesis_gate.py:512-600 | The contract findings all pass, there being none, exactly when the probe contract holds in the order read. |
| `GenesisGate.MeasurementListMeaning` | src/agent_suite/genesis_gate.py:603-751 | The measurement findings all pass exactly when the measurement is well formed, bound to the store, and has one row of the project with an empty population. |
| `GenesisGate.EvaluateGenesisGate` | src/agent_suite/genesis_gate.py:754-839 | `ok` is the verdict over all findings and the probes' health. |
| `GateSpec.ProbesOkMeaning` | src/agent_suite/genesis_gate.py:512-600 | The loop with its `seen` maps finds nothing exactly when components are unique and named, their checks well formed and unique, and no id is used by two components. |
| `GateSpec.LookupFinds` | src/agent_suite/genesis_gate.py:495-509 | Where the contract holds, the last-wins indexes are unambiguous: a lookup finds the one check of that owner and id, if there is one. |
| `GateSpec.GateIsItsSpecification` | src/agent_suite/genesis_gate.py:754-839 | The verdict is that of a specification stated on bags of probes, checks and rows, with no order in it. |
| `OpenGate.OpensIff` | src/agent_suite/genesis_gate.py:754-839 | The gate opens exactly for a report that is ok and whose probes all pass, with named components, sound checks and no id twice, a measured store, the seven checks named here passing at their owners, and the boundary check passing with its claim. |
| `OpenGate.MeasurementMeaning` | src/agent_suite/genesis_gate.py:603-751 | What the measurement must say, field by field: measured, no errors, this store, and one row of this project that has a snapshot and counts nothing. |
| `OpenGate.RowMeaning` | src/agent_suite/genesis_gate.py:678-751 | What that row must say, by the name of each of its fields. |
| `OpenGate.BoundaryMeaning` | src/agent_suite/genesis_gate.py:233-265 | What the boundary check must claim: claim, basis, exactly these paths, consumers and exclusions, each once, and a reason that names WI-320. |
| `GateSpec.PermutedSameBag` | src/agent_suite/genesis_gate.py:754-839 | Permuting the probes, the checks of each and the rows of each check, all at once, keeps the bag of a report. |
| `GateSpec.OrderDoesNotMatter` | src/agent_suite/genesis_gate.py:754-839 | So no such permutation changes the verdict. |
| `Doctor.VerdictIffNoFailureListed` | src/agent_suite/doctor.py:580-664 | The profile-scoped verdict is green exactly when both failure lists of the scope are empty. |
| `Doctor.ProfileVerdict` | src/agent_suite/doctor.py:580-615 | With a profile the verdict is green exactly when nothing is unreachable or failed and each component the profile requires, by name, is reported and always ok, degraded or remote. |
| `Doctor.UnscopedVerdict` | src/agent_suite/doctor.py:580-627 | Without one, exactly when nothing is unreachable or failed, no spine component is absent, and something is ok, degraded or remote. |
| `Doctor.ScopeMeaning` | src/agent_suite/doctor.py:630-660 | What each list of the scope names, by status. |
| `Doctor.OutsideListsAreSorted` | src/agent_suite/doctor.py:648-661 | The two lists outside the profile are sorted and name each component once for each of its reports that counts. |
| `Doctor.GreenIffDetected` | src/agent_suite/profiles.py:247-298 | Green at a profile exactly when nothing is broken and the detected profile is that one or a broader one; with repeated components green still implies it. |
| `Doctor.NothingHidden` | src/agent_suite/doctor.py:535-547 | Green at the asserted profile is green at the detected, broader one. |
| `Doctor.ProfileIsStricter` | src/agent_suite/doctor.py:585-630 | Where the profile requires every spine component, its green is green without a profile as well. |
| `Doctor.RequirementsGrow` | src/agent_suite/profiles.py:99-112 | The three requirement sets are strictly nested. |
| `Collector.Collect` | src/agent_suite/doctor.py:872-926 | The three loops and the sort give exactly `Final`; for no component at all the pool is refused. |
| `Collector.TakeCompleted` | src/agent_suite/doctor.py:889-908 | The completion loop appends one report per completed check, raised ones as UNREACHABLE, and collects their idents. |
| `Collector.AddOverdue` | src/agent_suite/doctor.py:911-921 | The second loop adds an UNREACHABLE report for every component whose ident was not collected. |
| `Collector.EveryIdentReported` | src/agent_suite/doctor.py:872-926 | For every completion order and every deadline: no ident is left without a report, every report is the one due for some component, and they are in descriptor order. |
| `Collector.ReportsTell` | src/agent_suite/doctor.py:889-926 | With unique idents, report i tells of component i: the status its check gave, UNREACHABLE with the message where it raised, or UNREACHABLE for being late. |
| `Collector.OneReportEachIffNoneShadowed` | src/agent_suite/doctor.py:889-921 | There is exactly one report per component, as a multiset, exactly when no unfinished check shares its ident with a finished one; there are never more. |
| `Collector.OneReportEachIffUnique` | src/agent_suite/doctor.py:872-926 | Unique idents are exactly what it takes for every order and every cut to leave one report per component in descriptor order. |
| `Collector.SharedIdentLosesAReport` | src/agent_suite/doctor.py:911-912 | A concrete run with a shared ident in which a component has no report and the verdict is green. |
| `Collector.GreenIffAllDelivered` | src/agent_suite/doctor.py:580-630 | With unique idents the verdict is green exactly when every check finished in time with an acceptable status and everything required is there: no deadline and no exception turns a verdict green. |
| `StableSort.InOrderKeepsBuckets` | src/agent_suite/doctor.py:924-926 | The sort is stable. |
| `StableSort.InOrderPermutes` | src/agent_suite/doctor.py:924-926 | The sort loses and adds nothing. |

## Left out

- The git subprocesses, fsck, and the refusals for shallow, grafted and partial clones: the model starts from their output, and `Absence.Shows` says what they print for a repository; nothing is proved of other output but that it is read as the loops read it.
- Reading the walk's bytes into rows: lines are given as commit and parents.
- SHA-256, JWT decoding and signatures, JWKS fetching, zip reading, and the parsing of JSON, TOML, RECORD files and entry points: library code, taken as parameters or parsed values.
- The store's JSON text: a file is unreadable or a map of field trees. Python does not check the kinds of fields in `from_dict`; the model gives an error for a field of another kind.
- Unicode: lower-casing and case folding are those of ASCII letters, and encodings and byte order marks are not modelled. Regular expressions ignore case in the same sense.
- Integers of more than 4300 digits, which Python refuses to read.
- The parsing of a denylist (`parse_identifier_set`, `shlex`): the scan starts from a set of identifiers.
- The staged-file, message and command-line paths of the identifier gate: plumbing around the scan and the verdict.
- Scanner.ScanText: states how often each violation is reported, not in which order, because the source visits sets.
- URI splitting by `urlsplit` and percent-decoding: `Database.Library` stands for them, and the lemmas about keyword strings ask that the library sees no postgres scheme in them. `Database.FingerprintIdentifiesPlainStrings` asks of it that a NUL comes only of a percent escape.
- Backslash escapes in bare values, which libpq processes and the scanner does not: the model follows the scanner.
- The lock itself, loss of power without a flush, and operating system errors while the store writes.
- Clients that call `store.approve` directly: that method does not compare principals. `list_pending` only reads and filters the map.
- Line-ending translation when the overlay is read and written, and keys or values of the suite's own that contain a line break.
- The sharing of start-up file lists between components of one directory, symbolic links to directories, and directories a walk cannot read: such a walk contributes nothing, as in the source.
- Protocol.RunsAreSafe: takes the freshness of request ids as given, and covers clients that go through `evaluate_approval` and `mark_executed`.
- Detail texts, notes, labels and their formatting: reasons are enumerated instead.
- Running the probes and `_parse_probe_result`: the gate starts from reports.
- Overlay removal, onboarding and off-boarding, `cli.py`, `bootstrap.py`, `deploy.py`, `backup.py`, `evidence.py`, `alerting.py`, the codex modules and the feature matrix: pipelines around programs that are not visible, which would add easy members only.
- The further inputs of the suite verdict (lock drift, memory provider, restore check, key rotation): each only turns it red.
- The thread pool: a run is the sequence of checks that completed before the deadline, in any order, and how each ended. Exceptions that are not `Exception`, such as an interrupt, are not modelled.
