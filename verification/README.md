# Isolate Panel: a verified model of its state machines

Isolate Panel administers three proxy cores (Xray, sing-box, Mihomo). This project models, in Dafny, the
parts of its backend where a mistake is hard to see in one function: a one-pass scanner that stands in for a
recursive measure, a compiler into three rule languages, credential stores that evict in the background,
rotation across two stores, double-checked locking, transparent field encryption guided by a heuristic, and the
allocation and sharing of HAProxy ports. Code that changes state step by step is modelled by classes and loops
proved against specification functions; what the code is for is proved about those functions over all inputs,
all runs or all interleavings.

| file | modules | about |
|---|---|---|
| `JsonDepth.dfy` | JsonGrammar, JsonDepth | derivation trees of RFC 8259 (sections 2 to 7), their texts, and the byte scanner that decides their nesting depth |
| `GeoRules.dfy` | Strings, GeoRules | one prioritised rule list, its three translations, and a first-match reader for each target language |
| `TokenBlacklist.dfy` | TokenBlacklist | revoked access tokens: memory, table, two cleanups, reload at start-up, one lock or table statement at a time |
| `SessionStore.dfy` | SessionStore | server-side sessions with lazy and periodic eviction, against a map that never evicts |
| `RefreshRotation.dfy`, `HandlerAnswers.dfy`, `RotationRuns.dfy`, `CrossStore.dfy` | same names | the token handlers over the token table and the session store, what each answers and leaves, and invariants over all their runs |
| `LoginThrottle.dfy` | LoginThrottle | the sliding-window limit on failed logins |
| `Options.dfy` | Options | a value that may be missing |
| `Locks.dfy`, `CoreMutex.dfy`, `CertCache.dfy` | same names | double-checked locking with any number of threads, at lock, unlock, read and write granularity |
| `FieldEncryption.dfy`, `EncryptionPlugin.dfy` | Base64, FieldEncryption, FieldPasses, EncryptionPlugin | base64, boxes, the heuristic that recognises them, and the plugin's two walks over a record |
| `PortPool.dfy`, `HaproxyGenerator.dfy`, `PortValidator.dfy`, `Selection.dfy` | PortPool, Names, HaproxyGenerator, PooledGenerator, ProtocolCompat, PortValidator, Selection | the port pool, the data behind the HAProxy configuration, and the verdict on port conflicts |

## How the world is modelled

Time is an integer that never goes back, and handlers take their clock readings as parameters. A token stands for
its own SHA-256 hash, so hashes are injective; a generated token is a string never seen before. Database tables are
maps or sequences with the statements' own filters. Each HTTP handler over the token table runs as one step
(its lookup and its revocation are separate statements in the source, `backend/internal/api/auth.go` lines 253 and
286), and storage, lookup or generation failures are parameters of the step. AES-GCM is a pair of functions of which only
this is known: `open` inverts `seal`, and a box is longer than its plaintext by a 16-byte tag. Byte strings are
sequences of integers below 256, and Go strings in the encryption modules are byte strings.

## Where the code and its comments or intent part

Each of these is an if-and-only-if over all inputs or all runs, with the failing input where the promise is broken.

- `MaxArrayLen` limits nothing: the counter it is compared with is only ever 0, so a non-negative limit never
  refuses and a negative one refuses every array. A scalar passes even a negative depth limit (`DepthDecided`).
- A deployment never forgets a revocation exactly when it keeps a table, no insertion or reload fails (their errors
  are ignored), and restarts do not shorten the token lifetime; or when no token is ever good (`RememberedExactly`).
  A single cleanup and a single restart forget under conditions of their own, one instant apart
  (`ShortEntryForgottenExactly`, `RestartForgetsExactly`).
- GetSession tests a session under no lock and deletes it under a second one. The deletion goes unnoticed exactly when
  it finds no live session (`LateDeletionExactly`), as it does unless a renewal read its clock before the expiry and
  wrote after the test; such a renewal is lost for as long as it would have counted (`LateDeletionUnnoticed`,
  `RenewalLostExactly`).
- A `SessionRefresh` that reaches the rotation leaves the stores in agreement exactly when it does not fail between
  revoking the old row and storing the new one (`RotationFailureBreaksExactly`).
- A retention job takes away a session's row exactly when the row has expired (`PurgeBreaksExactly`). Live sessions
  keep their rows over all runs exactly when no time passes between stamping the row and stamping the session
  (`LiveSessionsBackedExactly`, with the failing run `LateSession`).
- Failed logins are stamped by the database in whole seconds, while the window is measured with a finer clock. Any
  fifteen minutes hold at most five of them by the recorded times, exactly when no count fails (`WindowKeptExactly`);
  by the moments of writing the bound needs a window shorter by just under one second, and the full window exactly a
  timestamp as fine as the clock (`AtMostFivePerWindow`, `FullSpanExactly`, `BoundsInNanoseconds`).
- The comment over `IsEncrypted` takes 44 characters for the least length of a box; one and two bytes give 40, so
  such values are stored encrypted and not read back (`RecognisedExactly`, `RoundTripExactly`). Encrypting a record
  again changes a value exactly when the first walk reached it once and it has one or two bytes and does not look
  encrypted (`EncryptAgain`). The Go decoder skips line breaks, so a long run of line feeds passes for a box and reads
  back empty (`LineFeedsAreLost`, an instance of `RoundTripExactly`).
- SNI is asked before path, so `GetSharingMechanism("vless", "ws", "vmess", "ws")` is "sni", not "path" as its comment
  has it (`SNIComesFirst`).
- `CanSharePort` means that some conflict can be shared, not that all can; the same goes for the action
  (`ActionExactly`).
- A group's backend references lead to one backend each exactly when no two proxied assignments share core and
  backend port (`ReferencesResolveExactly`); ports held from the pool guarantee it (`PooledReferencesResolve`).

## Model

| member | source | states |
|---|---|---|
| JsonDepth.SafeJSONDecoder.CheckDepth | backend/internal/middleware/safe_json_decoder.go:57-109 | the flags and counters of the loop compute the scanner: it accepts exactly when no byte is objected to, and otherwise reports the first objection |
| JsonDepth.SafeJSONDecoder.PrefixesDecide | backend/internal/middleware/safe_json_decoder.go:58-108 | on arbitrary bytes it accepts exactly when no prefix's net bracket count outside strings exceeds MaxDepth |
| JsonDepth.SafeJSONDecoder.ConcatScan | backend/internal/middleware/safe_json_decoder.go:58-108 | scanning a concatenation is scanning the second part from the state the first leaves, limits included |
| JsonDepth.SafeJSONDecoder.PartScan | backend/internal/middleware/safe_json_decoder.go:66-80 | any character of a JSON string, escapes included, stays inside the string and counts for nothing |
| JsonDepth.SafeJSONDecoder.ValueScan | backend/internal/middleware/safe_json_decoder.go:84-106 | over every rendering of every value the scan returns to its state, and objects exactly when level plus depth passes the limit |
| JsonDepth.SafeJSONDecoder.DepthDecided | backend/internal/middleware/safe_json_decoder.go:57-109 | for every JSON text the one-pass scan decides the recursive nesting depth, with both edge cases of the limits |
| JsonDepth.SafeJSONDecoder.CheckDocument | backend/internal/middleware/safe_json_decoder.go:57-109 | checkDepth on a JSON text accepts exactly up to MaxDepth and otherwise reports MaxDepth + 1 |
| JsonDepth.DepthIsOfTheText | backend/internal/middleware/safe_json_decoder.go:57-109 | two derivations of one text have the same depth, so the limit is a property of the text |
| GeoRules.DecisionIsHighestPriority | backend/internal/cores/geo_integration.go:16-28 | first match over the loaded list is the decision of a matching enabled rule of highest priority, whatever order the table had |
| GeoRules.SingboxGeoRouteRules | backend/internal/cores/geo_integration.go:52-68 | one route per rule, in order, with its mapped outbound and at most one rule-set tag |
| GeoRules.SingboxGeoRuleSets | backend/internal/cores/geo_integration.go:72-103 | the list defines exactly the categories used, each once |
| GeoRules.TagsDiffer | backend/internal/cores/geo_integration.go:80-86 | different categories never share a rule-set tag |
| GeoRules.ReadURLInverts | backend/internal/cores/geo_integration.go:80-97 | a rule-set address names its database and code and no other |
| GeoRules.ResolveDefined | backend/internal/cores/geo_integration.go:72-103 | following a defined tag through the list leads to its own category |
| GeoRules.TagsDefinedOnce | backend/internal/cores/geo_integration.go:52-103 | every tag a route uses is defined exactly once |
| GeoRules.XrayGeoRoutingRules | backend/internal/cores/geo_integration.go:110-126 | one field rule per rule, in order, matching on ip or domain by its type |
| GeoRules.MihomoGeoRules | backend/internal/cores/geo_integration.go:133-154 | one line per rule of a known type, in order, with DIRECT and REJECT for the built-in outbounds |
| GeoRules.MihomoAligned | backend/internal/cores/geo_integration.go:133-154 | lines and rules stay in step exactly when every type is known |
| GeoRules.ReadLineInverts | backend/internal/cores/geo_integration.go:147-150 | a line reads back as its rule exactly when the code has no comma |
| GeoRules.TagsMeanActions | backend/internal/cores/geo_integration.go:32-45 | every tag, DIRECT and REJECT included, reads back as the outbound the action means; unknown actions mean direct |
| GeoRules.SingboxAgrees | backend/internal/cores/geo_integration.go:52-103 | for every destination the sing-box output, tags resolved through its rule-sets, decides as the source rules do |
| GeoRules.XrayAgrees | backend/internal/cores/geo_integration.go:110-126 | for every destination the Xray output decides as the source rules do |
| GeoRules.MihomoAgrees | backend/internal/cores/geo_integration.go:133-154 | for every destination the Mihomo lines, parsed back, decide as the source rules do |
| GeoRules.CompileForAllCores | backend/internal/cores/geo_integration.go:52-154 | one list compiled for all three cores sends every destination to the same outbound on each |
| TokenBlacklist.TokenService.constructor | backend/internal/auth/jwt.go:52-63 | a new service starts from what the reload delivers of the table, or from nothing without one |
| TokenBlacklist.TokenService.NewTokenService | backend/internal/auth/jwt.go:44-66 | no service is made with a secret under 64 bytes, and otherwise one that starts from the table |
| TokenBlacklist.TokenService.LoadBlacklistFromDB | backend/internal/auth/jwt.go:96-110 | the unexpired rows that the query delivers are laid over the map; its error is ignored |
| TokenBlacklist.TokenService.CleanupTick | backend/internal/auth/jwt.go:68-89 | the map keeps exactly the entries that have not expired, whatever the walk's order, and so does the table unless the deletion fails |
| TokenBlacklist.TokenService.BlacklistAccessToken | backend/internal/auth/jwt.go:171-182 | the map's entry is rewritten; the table gains a row unless there is one, which keeps its expiry, or the insertion fails |
| TokenBlacklist.TokenService.ValidateAccessToken | backend/internal/auth/jwt.go:190-229 | claims are returned exactly when the token is not blacklisted, parses, is before exp and its administrator is not refused; they are the parsed ones but for the two flags, which are the validator's |
| TokenBlacklist.StepKeepsInv | backend/internal/auth/jwt.go:68-182 | every statement of every thread keeps: each record of a token outlives it, and returned revocations of live tokens are recorded |
| TokenBlacklist.RunKeepsInv | backend/internal/auth/jwt.go:68-182 | so does every run of issuing, blacklisting, cleanups and steady restarts |
| TokenBlacklist.RevocationIsNeverForgotten | backend/internal/auth/jwt.go:68-229 | once BlacklistAccessToken has returned, no later validation succeeds, over every such run |
| TokenBlacklist.RevokedGrows | backend/internal/auth/jwt.go:171-182 | having been revoked is a property of the past that no run undoes |
| TokenBlacklist.RestartWithoutTableForgets | backend/internal/auth/jwt.go:96-99 | without a table a restart accepts a token exactly when it has not expired |
| TokenBlacklist.ShortEntryForgottenExactly | backend/internal/auth/jwt.go:73-80 | a cleanup forgets a revocation exactly when an instant lies strictly between the entry's expiry and the token's exp |
| TokenBlacklist.RestartForgetsExactly | backend/internal/auth/jwt.go:96-110 | a restart can forget a revocation exactly when the row does not last as long as the token |
| TokenBlacklist.RememberedExactly | backend/internal/auth/jwt.go:68-229 | over all runs of a deployment no revocation is forgotten exactly when it keeps a table that is always written and read and its restarts do not shorten the lifetime, or no token is ever good |
| TokenBlacklist.UninterruptedCall | backend/internal/auth/jwt.go:171-182 | two statements with nothing between them do what BlacklistAccessToken ensures |
| TokenBlacklist.UninterruptedTick | backend/internal/auth/jwt.go:73-83 | the two cleanups with nothing between them keep exactly the entries and rows that have not expired |
| TokenBlacklist.RestartLoads | backend/internal/auth/jwt.go:96-110 | a restart begins with exactly the unexpired rows that the query delivers |
| SessionStore.BFFSessionManager.CreateSession | backend/internal/auth/bff_session.go:67-96 | the session is filed under the fresh identifier with both expiries, or nothing changes when the random source fails |
| SessionStore.BFFSessionManager.GetSession | backend/internal/auth/bff_session.go:100-122 | run as one step: the live object of an unexpired session, touched; an expired one is dropped |
| SessionStore.BFFSessionManager.DeleteSession | backend/internal/auth/bff_session.go:125-129 | exactly that session goes |
| SessionStore.BFFSessionManager.UpdateAccessToken | backend/internal/auth/bff_session.go:133-151 | renews the access token of an unexpired session only, with the source's three clock readings |
| SessionStore.BFFSessionManager.UpdateRefreshToken | backend/internal/auth/bff_session.go:154-175 | renews both tokens and both expiries of an unexpired session only |
| SessionStore.BFFSessionManager.Cleanup | backend/internal/auth/bff_session.go:200-210 | exactly the expired sessions go, whatever the walk's order |
| SessionStore.FoundExactly | backend/internal/auth/bff_session.go:100-122 | a session is found up to and at its RefreshExpiry, with nothing but its time of access changed, and otherwise removed; no other is concerned |
| SessionStore.RenewedExactly | backend/internal/auth/bff_session.go:154-175 | a renewal succeeds up to and at RefreshExpiry and puts in exactly the two tokens, the two expiries and the time of access |
| SessionStore.AccessRenewedExactly | backend/internal/auth/bff_session.go:133-151 | renewing the access token leaves the refresh token and its expiry alone |
| SessionStore.SweptExactly | backend/internal/auth/bff_session.go:200-210 | a sweep keeps exactly the sessions up to their RefreshExpiry, unchanged |
| SessionStore.StepRefines | backend/internal/auth/bff_session.go:100-210 | one operation, run as one step, answers as the never-evicting map does, and the two stay related |
| SessionStore.StoreRefinesReference | backend/internal/auth/bff_session.go:100-210 | over every run of such steps the store answers exactly as the never-evicting map, wherever evictions fall |
| SessionStore.SweepsDoNotMatter | backend/internal/auth/bff_session.go:185-210 | runs that differ only in their sweeps answer alike |
| SessionStore.ExpiryIsFinal | backend/internal/auth/bff_session.go:110-118 | a session past RefreshExpiry is never found or revived by any later run |
| SessionStore.LateDeletionExactly | backend/internal/auth/bff_session.go:101-115 | a deletion after the lock was released in between keeps the refinement exactly when it finds no live session |
| SessionStore.LateDeletionUnnoticed | backend/internal/auth/bff_session.go:109-115 | it does so after any run of calls that read their clocks after the test and do not recreate the session |
| SessionStore.RenewalLostExactly | backend/internal/auth/bff_session.go:154-175 | a renewal that read its clock before the expiry and wrote after the test is lost exactly as long as it would have counted |
| SessionStore.CountSeesSweeps | backend/internal/auth/bff_session.go:178-182 | Count is the one call that shows eviction, exactly when something has expired |
| RefreshRotation.FindFinds | backend/internal/api/auth.go:252-258 | the lookup finds a row exactly when a matching one exists, and then the one of least key |
| RefreshRotation.FindExactly | backend/internal/api/auth.go:252-258 | the lookup finds a row exactly for tokens with an unrevoked, unexpired row of an active administrator |
| RefreshRotation.AuthHandler.FindRow | backend/internal/api/auth.go:252-258 | the query returns the unrevoked, unexpired row of an active administrator with the least key |
| RefreshRotation.AuthHandler.Login | backend/internal/api/auth.go:169-199 | the tail of a login stores one unrevoked row and hands out its token, or changes nothing |
| RefreshRotation.AuthHandler.Refresh | backend/internal/api/auth.go:239-322 | the whole table after each way the handler can end: refused, lookup failed, failed half-way, rotated |
| RefreshRotation.AuthHandler.Logout | backend/internal/api/auth.go:334-353 | every row of the presented token is revoked and no other, or none when the update fails |
| RefreshRotation.AuthHandler.SessionLogin | backend/internal/api/auth.go:633-679 | row first, then the session with its administrator's and client's data, and what remains when a step fails |
| RefreshRotation.AuthHandler.SessionLogout | backend/internal/api/auth.go:718-722 | the session goes, the table stays |
| RefreshRotation.AuthHandler.SessionRefresh | backend/internal/api/auth.go:741-851 | both stores after each way the handler can end, each clock reading for itself |
| RefreshRotation.AuthHandler.RotateSession | backend/internal/api/auth.go:800-846 | revoke, store, and move the session to the new token |
| HandlerAnswers.LoginAnswers | backend/internal/api/auth.go:169-199 | a token is handed out exactly when nothing fails, and its row is the administrator's, unrevoked, with the full lifetime |
| HandlerAnswers.RefreshAnswers | backend/internal/api/auth.go:239-322 | 401 exactly for unusable tokens or a failed lookup, a fresh token exactly when nothing fails, and the table after each |
| HandlerAnswers.SessionLoginAnswers | backend/internal/api/auth.go:633-679 | the session holds its administrator's, client's and tokens' data field by field |
| HandlerAnswers.SessionLogoutAnswers | backend/internal/api/auth.go:718-722 | exactly the session of the cookie ends |
| HandlerAnswers.NoSessionAnswers | backend/internal/api/auth.go:742-763 | without a live session 401, and an expired one goes |
| HandlerAnswers.YoungSessionAnswers | backend/internal/api/auth.go:765-769 | with a good access token 200 and the table untouched |
| HandlerAnswers.RefusedSessionAnswers | backend/internal/api/auth.go:774-798 | when the refresh token is not usable or the lookup fails, 401 and exactly that session ends |
| HandlerAnswers.RotatedSessionAnswers | backend/internal/api/auth.go:800-850 | otherwise 200 exactly when nothing fails and the session has not run out when it is written, and what it then holds |
| HandlerAnswers.RetentionKeepsUse | backend/internal/scheduler/log_retention_scheduler.go:71-77 | a retention job takes no token that could still be used, and leaves no expired row, nor at night a revoked one |
| RotationRuns.RotationKeeps | backend/internal/api/auth.go:286-315 | a rotation consumes its token once and leaves its login with at most one live row, wherever it fails |
| RotationRuns.StepKeepsTables | backend/internal/api/auth.go:169-851 | every handler, retention job and sweep keeps the invariant of table and history |
| RotationRuns.RunKeepsTables | backend/internal/api/auth.go:169-851 | so does every run |
| RotationRuns.RotationIsSingleUse | backend/internal/api/auth.go:251-311 | over every run no refresh token is consumed twice and no login has two unrevoked descendants |
| RotationRuns.RefreshSwapsTokens | backend/internal/api/auth.go:252-321 | Refresh accepts exactly live tokens; afterwards the presented one is refused for good, the fresh one works until it expires, all others fare as before |
| RotationRuns.LogoutEndsOneToken | backend/internal/api/auth.go:347-353 | after a Logout that succeeds the presented token is refused, and every other fares as before |
| CrossStore.SessionRefreshKeepsAgreement | backend/internal/api/auth.go:771-846 | a SessionRefresh that does not fail between its two writes keeps every session backed |
| CrossStore.StepKeepsAgreement | backend/internal/api/auth.go:169-851 | every handler keeps it, when clients present only tokens they were given |
| CrossStore.RunKeepsAgreement | backend/internal/api/auth.go:169-851 | so does every run |
| CrossStore.CrossStoreAgreement | backend/internal/api/auth.go:650-846 | through any number of rotations each session's refresh token has an unrevoked row with its administrator, unless retention removed it after it expired |
| CrossStore.RotationFailureBreaksExactly | backend/internal/api/auth.go:813-840 | a rotation leaves the stores in agreement exactly when it does not fail between revoking and storing |
| CrossStore.PurgeBreaksExactly | backend/internal/scheduler/log_retention_scheduler.go:71-77 | a retention job leaves a session without its row exactly when the row has expired |
| CrossStore.InstantRunsAgree | backend/internal/auth/bff_session.go:154-175 | when row and session are stamped at one time, unexpired sessions are backed whatever retention does |
| CrossStore.LiveSessionsBackedExactly | backend/internal/auth/bff_session.go:154-175 | over all runs live sessions stay backed exactly when no time may pass between the two stamps, or no session is ever live |
| LoginThrottle.AuthHandler.Login | backend/internal/api/auth.go:88-212 | the request's fields decide the reply, and the reply the row: five recent failures or more turn a counted request away, LoggedIn needs administrator, password, code and stored tokens, and a row has success exactly for LoggedIn (SessionLogin at 575-690 runs the same branches) |
| LoginThrottle.AnsweredExactly | backend/internal/api/auth.go:103-212 | the same of the two functions behind it |
| LoginThrottle.BlockedExactly | backend/internal/api/auth.go:88-93 | a request is turned away exactly when its count works and the table holds five failures of its address in the window |
| LoginThrottle.TableCount | backend/internal/api/auth.go:910-917 | rows that retention has deleted are never ones the window would count |
| LoginThrottle.TalliesExactly | backend/internal/api/auth.go:910-917 | the tallies of a window are the numbers of unsuccessful rows of the address in it |
| LoginThrottle.WindowInView | backend/internal/api/auth.go:912-914 | the guard sees every row of a full window that ends with the row about to be written |
| LoginThrottle.RecordKeepsWindow | backend/internal/api/auth.go:88-155 | a recorded refusal takes at most the fifth place of any window of recorded times |
| LoginThrottle.RecordKeepsSpan | backend/internal/api/auth.go:88-155 | and of any window of moments that is shorter by one timestamp step |
| LoginThrottle.RunKeepsInv | backend/internal/api/auth.go:88-212 | over every run of the handlers and of retention with working counts both bounds hold |
| LoginThrottle.AtMostFivePerWindow | backend/internal/api/auth.go:88-93 | for each address any window holds at most five recorded failures, and any window shorter by one timestamp step at most five written ones |
| LoginThrottle.WindowKeptExactly | backend/internal/api/auth.go:88 | over all runs the bound holds exactly when no count fails; rows that fail to be recorded do no harm |
| LoginThrottle.FullSpanExactly | backend/internal/api/auth.go:910-917 | by the moments of writing, the full window is kept exactly when timestamps are as fine as the clock |
| LoginThrottle.BoundsInNanoseconds | backend/internal/api/auth.go:88-93 | the same in the source's units: fifteen minutes, whole seconds, ninety days |
| CoreMutex.CoreManager.GetCoreMutex | backend/internal/cores/manager.go:58-74 | the mutex filed under the name; the map is as the last look-up saw it, or has gained just this name with a new mutex, whatever other threads added before |
| CoreMutex.StepKeepsInv | backend/internal/cores/manager.go:58-74 | each step of each thread keeps lock, map and answers consistent, and the map only gains entries |
| CoreMutex.OneMutexPerName | backend/internal/cores/manager.go:58-74 | over every interleaving one name gives one mutex, different names different ones, and no entry is overwritten |
| CoreMutex.OneReloadPerCore | backend/internal/cores/manager.go:401-447 | at most one thread per core is inside the write-and-reload section |
| CoreMutex.OwnedExactly | backend/internal/cores/manager.go:401-403 | over every interleaving a mutex is owned exactly while a thread is inside its section, and by that thread |
| CoreMutex.UninterruptedSection | backend/internal/cores/manager.go:401-403 | a thread that finds its mutex free is inside after one step and has given it back after the next |
| CoreMutex.WaitsExactly | backend/internal/cores/manager.go:58-74 | a step changes nothing exactly when its thread waits for the lock or for an owned mutex |
| CoreMutex.MapIsNeverRaced | backend/internal/cores/manager.go:58-74 | no thread reads or writes the map while another is about to write it |
| CoreMutex.StepRefinesAtomic | backend/internal/cores/manager.go:58-74 | every step leaves the map alone or is one atomic look-up-or-create, and calls return what that form would |
| CoreMutex.UninterruptedCall | backend/internal/cores/manager.go:58-74 | a call that is not interrupted, beside any readers if the mutex exists, is one look-up-or-create and leaves the lock as it was |
| CertCache.Cache.GetCachedCertificate | backend/internal/app/sub_listener.go:104-135 | a young pair is returned and kept, a missing or old one replaced by what was loaded, and after a failed load both variables are as the last check saw them |
| CertCache.Cache.InvalidateCertCache | backend/internal/app/sub_listener.go:138-143 | no pair is left, and the time is reset |
| CertCache.StepKeepsInv | backend/internal/app/sub_listener.go:104-143 | each step of each thread, each renewal and each tick keeps lock, stamps and answers consistent |
| CertCache.RunKeepsInv | backend/internal/app/sub_listener.go:104-143 | so does every interleaving |
| CertCache.ReadsAreYoungAndCurrent | backend/internal/app/sub_listener.go:104-143 | a cached certificate was under 60 seconds old when checked, and a call that starts after an invalidation returned never yields a pair loaded before it |
| CertCache.UninterruptedHit | backend/internal/app/sub_listener.go:105-110 | a read of a pair stored under 60 seconds ago, beside any readers, takes it and changes nothing |
| CertCache.SecondCheckHits | backend/internal/app/sub_listener.go:113-118 | a young pair found only at the second check is taken, and none is loaded |
| CertCache.FailedLoad | backend/internal/app/sub_listener.go:120-130 | a failed load leaves the cache and gives the lock back |
| CertCache.WaitsExactly | backend/internal/app/sub_listener.go:104-143 | a step changes nothing exactly when its thread has no call or waits for the lock |
| CertCache.UninterruptedReload | backend/internal/app/sub_listener.go:105-135 | a read alone without one loads the current files and stores them with the time |
| CertCache.UninterruptedInvalidation | backend/internal/app/sub_listener.go:138-143 | an invalidation alone leaves no pair and counts as returned |
| Base64.DecodeInvertsEncode | backend/internal/crypto/field_encryption.go:157-170 | decoding inverts encoding on every byte string, whatever the padding |
| Base64.EncodeShape | backend/internal/crypto/field_encryption.go:157 | the length RFC 4648 section 4 gives, and no line breaks |
| Base64.DecodeShrinks | backend/internal/crypto/field_encryption.go:170 | decoded data is at most three quarters as long, line breaks or not |
| Base64.SymbolsAreTheAlphabet | backend/internal/crypto/field_encryption.go:157 | the alphabet of RFC 4648, table 1 |
| Base64.GroupIsNumber | backend/internal/crypto/field_encryption.go:157 | three bytes and their four symbols are one number |
| Base64.EncodeAppends | backend/internal/crypto/field_encryption.go:157 | groups are encoded one after the other |
| Base64.PaddingExactly | backend/internal/crypto/field_encryption.go:157 | one or two bytes are encoded as if zeros followed, with a pad for each |
| Base64.DecodesExactly | backend/internal/crypto/field_encryption.go:170 | exactly symbols in groups of four with at most two pads at the end decode |
| Base64.DecodedAgrees | backend/internal/crypto/field_encryption.go:170 | whatever decodes is the encoding of its result, but for the bits that padding cuts off |
| Base64.BreaksDoNotMatter | backend/internal/crypto/field_encryption.go:170 | line breaks may stand anywhere |
| FieldEncryption.FieldEncrypter.DecryptInvertsEncrypt | backend/internal/crypto/field_encryption.go:149-236 | Decrypt(Encrypt(p)) == p for every p and nonce |
| FieldEncryption.FieldEncrypter.RecognisedExactly | backend/internal/crypto/field_encryption.go:239-249 | an encrypted value is recognised exactly when its plaintext has at least three bytes; its length is 4 * ceil((28 + n) / 3) |
| FieldEncryption.FieldEncrypter.LooksEncryptedExactly | backend/internal/crypto/field_encryption.go:239-275 | what looks encrypted, by its characters, unpadded text of uneven length included |
| FieldEncryption.FieldEncrypter.EncryptsToABox | backend/internal/crypto/field_encryption.go:149-206 | an encrypted value is the nonce followed by the sealed bytes, in base64 |
| FieldEncryption.FieldEncrypter.DecryptExactly | backend/internal/crypto/field_encryption.go:161-236 | what comes back as it is, what is an error, and what the cipher opens, for every text |
| FieldEncryption.FieldEncrypter.DecryptShortensBoxes | backend/internal/crypto/field_encryption.go:161-180 | on anything that looks encrypted, decryption changes exactly the boxes, and shortens those |
| FieldPasses.EncryptingIsIdempotentExactly | backend/internal/database/encryption_plugin.go:189-203 | a second pass over one value changes nothing exactly for empty, encrypted-looking or at least three-byte values |
| FieldPasses.PassingAgainExactly | backend/internal/database/encryption_plugin.go:181-227 | as many passes again change nothing exactly when there was none, or more than one, or the value is such |
| FieldPasses.RepetitionIsOncePassedExactly | backend/internal/database/encryption_plugin.go:41-52 | a field registered several times is as if registered once exactly for such values |
| FieldPasses.PassesAreOnePass | backend/internal/database/encryption_plugin.go:181-227 | for such values any number of passes is one pass |
| FieldPasses.RoundTripExactly | backend/internal/database/encryption_plugin.go:173-286 | any number of encrypting and of decrypting passes restores a value exactly when it is empty, looks encrypted and is no box, or has at least three bytes |
| FieldPasses.ShortValuesAreLost | backend/internal/crypto/field_encryption.go:243-247 | one- and two-byte values never come back |
| FieldPasses.LineFeedsAreLost | backend/internal/crypto/field_encryption.go:252-267 | forty-four line feeds look encrypted and read back empty |
| EncryptionPlugin.Plugin.RegisterFields | backend/internal/database/encryption_plugin.go:48-52 | names are appended, repetitions included |
| EncryptionPlugin.Plugin.EncryptFields | backend/internal/database/encryption_plugin.go:173-228 | every settable string, and every pointed-to string, has had one pass for each time it was reached; nothing else changed |
| EncryptionPlugin.Plugin.DecryptFields | backend/internal/database/encryption_plugin.go:231-286 | the same for decryption |
| EncryptionPlugin.Plugin.EncryptAgain | backend/internal/database/encryption_plugin.go:173-228 | encrypting an encrypted record again leaves a value, and the whole record, alone exactly when each value was reached not at all or more than once, or is such |
| EncryptionPlugin.Plugin.StoreAndLoad | backend/internal/database/encryption_plugin.go:173-286 | a record written and read back keeps exactly its unregistered and its restorable values, shared pointers and repeated names included |
| PortPool.LeastFreeExactly | backend/internal/haproxy/port_pool.go:30-37 | the scan gives the least unused port, and none exactly when all are used |
| PortPool.PortPool.AllocatePort | backend/internal/haproxy/port_pool.go:26-38 | the least free port is marked and returned, or nothing changes |
| PortPool.PortPool.ReleasePort | backend/internal/haproxy/port_pool.go:40-44 | exactly that port becomes free |
| PortPool.PortPool.SyncWithDB | backend/internal/haproxy/port_pool.go:52-83 | the active ports in range are added, those of the first query even when the second fails |
| PortPool.PortPool.GetUsedCount | backend/internal/haproxy/port_pool.go:85-89 | the number of ports of the range that are used |
| PortPool.PortPool.GetAvailableCount | backend/internal/haproxy/port_pool.go:91-96 | used plus available is the size of the range, and available counts the unused ports of it |
| PortPool.RunKeepsInv | backend/internal/haproxy/port_pool.go:26-83 | over every run used ports stay in range, held ports are distinct and used, synced ports are used, and restored ports are none of those handed out |
| PortPool.SyncedPortsAreKept | backend/internal/haproxy/port_pool.go:52-83 | a port of the range that a synchronisation found active is not handed out by any later run before it is released |
| PortPool.AllocationIsSafe | backend/internal/haproxy/port_pool.go:26-83 | after every run the next port is the least unused one, held by nobody and not synced as active; none exactly when the range is full |
| HaproxyGenerator.GroupByPort | backend/internal/haproxy/generator.go:26-32 | one group per listen port, its proxied assignments in input order |
| HaproxyGenerator.BuildGroup | backend/internal/haproxy/generator.go:36-82 | flags are the disjunctions over the members, and the mode is http exactly when some member has a path |
| HaproxyGenerator.GroupsSay | backend/internal/haproxy/generator.go:26-82 | which ports have groups, and their flags and mode, in terms of the assignments alone |
| HaproxyGenerator.EntriesSay | backend/internal/haproxy/generator.go:48-108 | what a group's entry and a backend say of an assignment, that both name one backend, and that none has both the PROXY protocol and a forwarding header |
| HaproxyGenerator.Generate | backend/internal/haproxy/generator.go:24-118 | groups and backends as described, whatever order the groups are visited in |
| HaproxyGenerator.AssignmentsAreConserved | backend/internal/haproxy/generator.go:26-111 | each proxied assignment stands exactly once, in order, in its port's group and once in the backends; all others nowhere |
| HaproxyGenerator.NamesDetermine | backend/internal/haproxy/generator.go:50 | a backend name determines core and port, whatever characters the core's name has |
| Names.ReadInvertsDecimal | backend/internal/haproxy/generator.go:49-55 | printed numbers read back |
| HaproxyGenerator.ReferencesResolveExactly | backend/internal/haproxy/generator.go:47-110 | every group reference leads to exactly one backend exactly when no two proxied assignments share core and port |
| PooledGenerator.PooledReferencesResolve | backend/internal/haproxy/generator.go:47-110 | assignments that hold ports of the pool, by its allocations or since before it was started, always resolve, after any run |
| ProtocolCompat.SharingIsSymmetric | backend/internal/haproxy/protocol_compat.go:143-156 | the mechanism does not depend on who asks |
| ProtocolCompat.TablesExactly | backend/internal/haproxy/protocol_compat.go:25-99 | what the three tables hold, whatever case a name is written in |
| ProtocolCompat.PathTransportsAreTCP | backend/internal/haproxy/protocol_compat.go:25-50 | no transport is in both the UDP and the path table |
| ProtocolCompat.SNIComesFirst | backend/internal/haproxy/protocol_compat.go:138-156 | the mechanism is path exactly when both transports support it and not both protocols support SNI, against the example in the comment |
| PortValidator.ValidatePortConflict | backend/internal/haproxy/validator.go:64-192 | out-of-range ports block; otherwise the conflicts are the overlapping inbounds in order, each with the mechanism GetSharingMechanism gives, and the reported one is that of the last conflict that has one |
| PortValidator.ConflictsExactly | backend/internal/haproxy/validator.go:90-131 | an inbound is among the conflicts exactly when it overlaps |
| PortValidator.OverlapExactly | backend/internal/haproxy/validator.go:194-204 | two inbounds overlap exactly when some host and port is listened at by both |
| PortValidator.ConflictsShareSockets | backend/internal/haproxy/validator.go:90-131 | an inbound is among the conflicts exactly when it shares a host and port with the new one; what its entry says of sharing, mechanism and confirmation |
| PortValidator.OutOfRangeBlocks | backend/internal/haproxy/validator.go:80-88 | ports outside 1 to 65535 are refused; availability in terms of the conflicts |
| PortValidator.MechanismReported | backend/internal/haproxy/validator.go:115-121 | a mechanism is reported exactly when some shareable overlap has one |
| PortValidator.ActionExactly | backend/internal/haproxy/validator.go:133-189 | blocked exactly when out of range or overlapping with none shareable; allowed exactly when free or some shareable overlap has a mechanism |
| PortValidator.OrderDoesNotMatter | backend/internal/haproxy/validator.go:133-189 | order and repetition of the inbounds have no say in the action |
| PortValidator.VerdictIsMutual | backend/internal/haproxy/validator.go:111-204 | two inbounds judge each other alike, whichever came first |
| Selection.SelectExactly | backend/internal/haproxy/generator.go:27-32 | a filtered append picks each qualifying place once, in order |

## Left out

- Handlers interleaved with each other: the token handlers and the throttle run one at a time, so single use and the
  throttle's bounds are claimed for such runs only; the blacklist is modelled at statement granularity.
- SessionStore.BFFSessionManager.GetSession: runs as one step, where the source looks up under one lock, tests under none,
  and deletes or touches under another; what the late deletion can do is stated apart (`LateDeletionExactly`).
- SessionStore.StepRefines: compares calls that run as one step each, GetSession's included.
- SessionStore.StoreRefinesReference: the same.
- PooledGenerator.PooledReferencesResolve: takes it that stored assignments the pool did not hand out itself were stored
  with different ports.
- CoreMutex.OneReloadPerCore: says nothing of which configuration wins, because the source generates it before it takes
  the mutex; what the section does (files, supervisord, hot reload, restart) is one step.
- GeoRules.MihomoAgrees: asks for known rule types and comma-free codes; `MihomoAligned` and `ReadLineInverts` say
  exactly what happens to a single rule otherwise, and a rule of unknown type has no agreed meaning on the other targets.
- LoginThrottle.AuthHandler.Login: the notification for repeated failures and the rehash of old passwords.
- HaproxyGenerator.BuildGroup: does not relate a group's mode to the modes of its backends, which the source decides
  separately; the statistics password and the template text are left out.
- PortValidator.ValidatePortConflict: message texts, and the substring search that extracts transport and core type from
  an inbound's configuration; the extracted values are inputs.
- ProtocolCompat.SharingIsSymmetric: lower case is modelled for ASCII letters and the two other characters whose lower case
  is an ASCII letter; no other character can bring a string into one of the tables.
- EncryptionPlugin.Plugin.EncryptFields: reflection beyond settable strings and string pointers, pointers into the
  record itself, slices of records in the callbacks, and a random source or cipher that fails.
- The size limit of the JSON decoder and the decoding that follows the scan.
- AES-256-GCM, SHA-256, Argon2, HMAC and JWT parsing: abstracted as described above; key files and environment.
- GORM and SQLite, including how timestamps compare as text; tables are values with the statements' filters.
- WebAuthn login, password change, administrator deletion with its cascade, WebSocket tickets, permissions.
- Fairness and progress under contention: locks may starve a thread; what a thread does alone is proved.
- The certificate query and key-pair loading: their outcome is a parameter, and file changes are steps of their own.
- Geo rule injection into full configurations, WARP routes, the YAML decoder, rate limiting, the Ristretto cache,
  ACME, supervisord, the command line, the frontend and the API documentation: outside the modelled core.
