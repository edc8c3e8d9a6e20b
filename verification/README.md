# GoAnalyze platform: a verified model

A Dafny 4.11 model of the parts of the GoAnalyze platform whose correctness rests on more than one
function: the concurrent hash-chained audit log and its paginated listing, the Redis rate limiter, the
download header and token text codecs, the signing-key cache, document storage with a backend that can
change under it, the database search fallback and the pipeline that routes a document to a queue.
`dafny verify dfyconfig.toml` checks the whole project.

| module | what it models |
|---|---|
| `AuditChain` | events, stamping, the atomic log, re-verification of a list against a head, the shape of a chain |
| `AppendProtocol` | concurrent appends on PostgreSQL as interleaved steps with row locks, aborts and unique ids |
| `AuditRepository` | the append method itself, with its branch that takes no lock |
| `AuditPages` | the listing sorted by (timestamp, id) and cut into pages |
| `RateLimit`, `RateLimitProperties`, `RateLimiter` | INCR, EXPIRE and TTL steps of concurrent requests; what runs keep; the sequential methods |
| `Utf8`, `Percent`, `ContentDisposition`, `Base64Url`, `JwtPayload` | the text codecs, printing and reading |
| `JwksCache` | the key cache, for one caller and for overlapping callers |
| `ObjectStorage` | uploads and downloads over two object stores |
| `DocumentSearch` | the ILIKE fallback, its pattern matcher and its scores |
| `Ingestion` | classification, review, risk score and queue |
| `Options`, `Counting`, `Text` | small shared helpers |

How the pieces are represented:

- The keyed hash of the audit log, the SHA-256 digest and the provider's key rotation are arbitrary
  functions given as parameters. None is assumed injective: tamper evidence is stated as "equal, or here
  are two different payloads with one hash".
- A concurrent protocol is a state, a set of labelled steps and `Run`, which executes any sequence of
  labels and is `None` when a label was not enabled. A theorem about every run quantifies over traces.
- The database is what its documentation promises: the locking read sees the latest committed row,
  commit publishes event and head together and releases the row, an uncommitted insert blocks other
  inserters of that key, event ids are unique. The tables start empty.
- Redis calls succeed, and its clock ticks in whole seconds. Fields of the rate limiter's state that only
  record history (`lives`, `current`, `log`) are read by no step.
- Characters are Unicode scalar values, bytes are integers below 256, the monotonic clock is a real
  number. Letter case is folded over ASCII in search; the pipeline receives text already lower-cased.
- Classes stand for what the source changes in place: the audit event whose hashes are filled in, the
  audit tables, the Redis counters, the key cache, the in-memory object store and its audit trail, the processing result.
  Each method's contract ties its result and the new state to a specification function or predicate, and
  the lemmas are proved about those. Where the same code is also modelled as concurrent steps, a lemma
  shows that the steps taken in a row do what the method does (`AppendProtocol.UninterruptedAppend`,
  `RateLimiter.UninterruptedCheck`, `JwksCache.UninterruptedVerify`).

Findings where the code does less than its documentation suggests:

- Events are chained in commit order, but timestamps are taken before the lock, so two appends may commit
  against their timestamps (`AuditPages.CommitsAgainstTimestampsFail` gives the run). `list_for_tenant`
  orders by timestamp alone: its result re-verifies, whichever way the database breaks ties, exactly when
  timestamps strictly increase along the chain (`AuditPages.ListingVerifiesExactlyWhenIncreasing`). The
  pages are ordered by (timestamp, id): they re-verify exactly when the chain is in that order
  (`AuditPages.PagesVerifyExactlyWhenInOrder`).
- The branch without a lock continues the chain for sure exactly when the last event appended is
  strictly the newest by timestamp (`AuditRepository.BranchesAgreeExactly`). Three appends with the newest
  first already give two events one previous hash (`AuditRepository.LockFreeLogCanFork`).
- The Retry-After of a rejected request is long enough exactly when the counter had its TTL when it was
  read; in the gap between INCR and EXPIRE the answer is one second
  (`RateLimitProperties.RetryAfterIsExact`). Two clients and two INCRs reach that gap
  (`RateLimitProperties.GapAnswersOneSecond`).
- The fallback is a substring search exactly when the query has no `%`, `_` or backslash
  (`DocumentSearch.SubstringSearchIsExact`).
- The engine never recommends a senior review: with no document missing the score is 25.6
  (`Ingestion.MoreDocumentsHelp`). The queue names end in `-review-review`, because the skill name already ends in `-review`.

## Model

| member | source | states |
|---|---|---|
| `AuditChain.TenantChainIsIsolated` | gov_platform/db/repositories.py:171-173 | in the atomic log a tenant's rows are the chain of its own requests, whatever other tenants did in between |
| `AuditChain.ChainVerifies` | gov_platform/db/repositories.py:201-206 | every chain built by stamping re-verifies: hashes recompute, links name the predecessor, the first is null |
| `AuditChain.TamperEvidence` | gov_platform/audit.py:52-57 | two lists that both re-verify to one head are equal event for event, or hold two different inputs of the keyed hash, links included, with one value |
| `AuditChain.HashCoversLink` | gov_platform/audit.py:52-57 | the previous hash is part of what is hashed: one event chained after two different hashes gets two different hashes, absent a collision |
| `AuditChain.NoForks` | gov_platform/db/repositories.py:169-173 | no two events of a chain share a previous hash and only the first has none, absent a collision |
| `AuditChain.WalkIsForced` | gov_platform/db/repositories.py:195-206 | any walk by hash from the head is a prefix of the reversed chain, whatever the physical order of rows |
| `AppendProtocol.RowsVisibleStep` | gov_platform/db/repositories.py:186-194 | once its insert has returned, an append always has a row to lock, committed or its own, so the locking read never comes back empty |
| `AppendProtocol.PendingOkStep` | gov_platform/db/repositories.py:191-206 | the head an append has read stays the stored head under every other append's steps |
| `AppendProtocol.Serializable` | gov_platform/db/repositories.py:182-208 | under any interleaving with aborts, the table is the atomic log of the committed appends in commit order and each tenant's rows and head are its own chain |
| `AppendProtocol.OnlyOwnCommitsShow` | gov_platform/db/repositories.py:182-208 | aborted appends and other tenants leave no trace in a tenant's rows or head |
| `AppendProtocol.StoredChainIsTamperEvident` | gov_platform/audit.py:15-17 | in every reachable state the stored chain re-verifies to the stored head, and any other list that does exhibits a collision |
| `AppendProtocol.StoredChainIsALine` | gov_platform/db/repositories.py:191-207 | in every reachable state a tenant's chain has one root and no shared link, absent a collision |
| `AppendProtocol.WalkFromHeadCoversTenant` | gov_platform/db/repositories.py:191-207 | walking back from the stored head reaches the root having visited each committed event of the tenant once, and no other walk exists |
| `AppendProtocol.UninterruptedAppend` | gov_platform/db/repositories.py:186-207 | an append that finds its row free can take its five steps in a row, with the effect of the sequential method |
| `AppendProtocol.EveryLogIsReachable` | gov_platform/db/repositories.py:182-208 | the converse: with distinct ids, any sequence of requests is the atomic log of some run, whatever their timestamps |
| `AppendProtocol.RunsAreBounded` | gov_platform/db/repositories.py:182-207 | every step lowers a measure, so a run takes at most five steps an append |
| `AppendProtocol.NoDeadlock` | gov_platform/db/repositories.py:182-207 | from any unfinished append the waits-for links lead to one that can step without aborting |
| `AppendProtocol.MaximalRunsFinish` | gov_platform/db/repositories.py:182-207 | a run that cannot go on has finished every append and holds no lock or half-inserted row |
| `AppendProtocol.MaximalRunsCommitAll` | gov_platform/db/repositories.py:182-208 | with distinct ids and no failures, a run that cannot go on has committed every append, and the table is the atomic log of their commit order |
| `AuditRepository.BranchesAgreeExactly` | gov_platform/db/repositories.py:196-199 | the branch without a lock is sure to use the chain head exactly when the last event appended is strictly the newest |
| `AuditRepository.LockFreeLogCanFork` | gov_platform/db/repositories.py:196-206 | the failing case: after two events older than the first, two rows share a previous hash and the table does not verify unless two hashes collide |
| `AuditRepository.LockFreeBuildsSameChain` | gov_platform/db/repositories.py:196-206 | with timestamps strictly increasing per tenant, sequential appends without the lock build the atomic log, however ties in the query are broken |
| `AuditRepository.AuditRepository.LatestForTenant` | gov_platform/db/repositories.py:266-276 | returns a tenant row of maximal timestamp, or none exactly when the tenant has no rows |
| `AuditRepository.AuditRepository.AppendWithChainLock` | gov_platform/db/repositories.py:180-208 | both branches: the previous hash used, the hash of the event with that link and a blank own hash, the new rows and head, nothing stored when the id is taken, heads kept equal to the chain ends |
| `AuditPages.SortedIsUnique` | gov_platform/db/repositories.py:243-245 | rows with distinct ids have one order by (timestamp, id) |
| `AuditPages.RefusedExactlyOutsideBounds` | gov_platform/main.py:507-510 | a listing is refused exactly when the page is below 1 or the size outside 1..100, with the detail of the first failing check |
| `AuditPages.ListedByTimestampThenId` | gov_platform/db/repositories.py:256-264 | within a page and from page to page timestamps rise, equal ones by rising id, and every item is a stored row of the tenant |
| `AuditPages.ListingIgnoresStorageOrder` | gov_platform/db/repositories.py:256-264 | the listing depends on which rows are stored, not on their physical order |
| `AuditPages.PagesTile` | gov_platform/main.py:507-513 | pages 1..total_pages concatenate to the sorted events; all but the last are full, the last is not empty, later ones are |
| `AuditPages.FullPagesAreStable` | gov_platform/db/repositories.py:256-264 | appending events that sort last leaves every full page identical |
| `AuditPages.PagesVerifyExactlyWhenInOrder` | gov_platform/db/repositories.py:256-264 | the concatenated pages re-verify to the head exactly when the chain is in (timestamp, id) order, absent a collision |
| `AuditPages.ListingVerifiesExactlyWhenIncreasing` | gov_platform/db/repositories.py:227-234 | every list ordered by timestamp alone re-verifies to the head exactly when timestamps strictly increase along the chain, absent a collision |
| `AuditPages.CommitsAgainstTimestampsFail` | gov_platform/db/repositories.py:227-234 | the failing case: a run of two appends that commits the later timestamp first, after which neither listing re-verifies |
| `RateLimit.InvStep` | gov_platform/rate_limit.py:39-46 | every INCR, EXPIRE, TTL and clock step keeps the invariants of counters, lifetimes and pending EXPIREs |
| `RateLimitProperties.NoTtlMeansOnePendingExpire` | gov_platform/rate_limit.py:40-42 | a counter has no TTL exactly while one EXPIRE for it is pending, and never two |
| `RateLimitProperties.LifetimeAdmitsExactly` | gov_platform/rate_limit.py:40-46 | each counter lifetime admits exactly min(arrivals, limit) |
| `RateLimitProperties.SpanAdmitsAtMostTwice` | gov_platform/rate_limit.py:39-46 | any half-open span of one window admits at most twice the limit |
| `RateLimitProperties.RunKeepsLives` | gov_platform/rate_limit.py:41-45 | once set, the end of a lifetime never moves, and an ended one never returns |
| `RateLimitProperties.RetryAfterIsExact` | gov_platform/rate_limit.py:43-45 | waiting the Retry-After is sure to leave the lifetime behind exactly when it had its TTL or had ended when the TTL was read |
| `RateLimitProperties.GapAnswersOneSecond` | gov_platform/rate_limit.py:40-46 | the failing case: two INCRs in a row leave the second client one second to wait, and a second later the same lifetime is still current |
| `RateLimitProperties.RejectedClientWaits` | gov_platform/rate_limit.py:43-56 | the same for the rejecting check of any request in any run; the wait is between one second and the window |
| `RateLimitProperties.PassesExactlyWhenAllAdmit` | gov_platform/rate_limit.py:49-56 | a finished request passed exactly when each of its counters admitted it; a blocked one touched no counter after the one that refused |
| `RateLimitProperties.KeysAreDisjoint` | gov_platform/rate_limit.py:66-80 | counters of addresses, users and tenants never share a key |
| `RateLimitProperties.SubjectShareIsBounded` | gov_platform/rate_limit.py:73-84 | in any span of one window a subject uses at most twice the per-user limit of its tenant's counters |
| `RateLimiter.Check` | gov_platform/rate_limit.py:39-46 | the count, its expiry and the other counters after the check, whether it admits, and the seconds to wait |
| `RateLimiter.UninterruptedCheck` | gov_platform/rate_limit.py:39-46 | a check's steps taken in a row leave the counters and the answer of the sequential method |
| `RateLimiter.EnforceIdentityRateLimits` | gov_platform/rate_limit.py:73-84 | user before tenant: a refusal by the user counter leaves the tenant counter as it was |
| `RateLimiter.EnforceIpRateLimit` | gov_platform/rate_limit.py:59-70 | every request is counted and judged under its client's address |
| `Utf8.DecodeIsInverse` | gov_platform/main.py:57 | strict reading accepts exactly the encoding of what it returns |
| `Utf8.ScalarLayout` | gov_platform/main.py:57 | the length, leading bits and value of each range of code points, as section 3 of RFC 3629 tabulates them |
| `ContentDisposition.SanitizeKeepsTheRest` | gov_platform/main.py:55 | the three replacements keep, in order, exactly the other characters |
| `ContentDisposition.FilenameRoundTrip` | gov_platform/main.py:46-58 | the text after the last two quotes is an RFC 5987 value and reads back as the filename without CR, LF and quotes |
| `ContentDisposition.QuotesByteByByte` | gov_platform/main.py:57 | each byte stands for itself or is an upper-case escape, by a fixed list of unreserved characters |
| `ContentDisposition.PlainParameterReadsBack` | gov_platform/main.py:55-58 | a reader finds the type attachment and, as the quoted parameter, the kept characters with ? for each beyond ASCII |
| `ContentDisposition.HeaderCannotBeBroken` | gov_platform/main.py:46-58 | the header has no CR or LF, exactly two double quotes, and only ASCII characters |
| `Base64Url.Base64UrlEncode` | frontend/lib/auth.ts:43-47 | the loop, btoa and replacements give the URL-safe text, which reads back as the bytes |
| `Base64Url.PrintThenRead` | frontend/lib/auth.ts:43-47 | every byte string reads back from its URL-safe text |
| `Base64Url.ReadThenPrint` | frontend/lib/auth.ts:43-47 | the printed texts are exactly the canonical ones, and a canonical text read and printed is unchanged |
| `Base64Url.UrlTextIsCanonical` | frontend/lib/auth.ts:46 | the printed text has URL digits only, no padding and no dot |
| `Base64Url.AlphabetByPosition` | frontend/lib/auth.ts:46 | the alphabet of RFC 4648 by position |
| `Base64Url.UrlTextByPosition` | frontend/lib/auth.ts:46 | the text is the sextets in the URL alphabet, one digit each |
| `Base64Url.SextetsRegroup` | frontend/lib/auth.ts:43-46 | the sextets of a byte string are as few as hold it and have its 24-bit groups |
| `Base64Url.JoinRegroups` | frontend/lib/auth.ts:100 | the bytes read from sextets have their 24-bit groups, less the bits of an unfinished byte |
| `Base64Url.AtobReadsExactly` | frontend/lib/auth.ts:100 | atob reads exactly the texts of alphabet digits with at most the padding that completes a group of four, as the bytes of the digits |
| `Base64Url.SpaceIsIgnored` | frontend/lib/auth.ts:100 | white space anywhere in the text makes no difference |
| `JwtPayload.EscapedBytesDecode` | frontend/lib/auth.ts:99-104 | decodeURIComponent on fully escaped bytes is strict UTF-8 decoding, for well-formed and malformed bytes alike |
| `JwtPayload.PayloadRoundTrip` | frontend/lib/auth.ts:96-109 | any Unicode text put between two dots as base64url of its UTF-8 bytes is recovered |
| `JwtPayload.PayloadIsSound` | frontend/lib/auth.ts:96-109 | a text is recovered exactly when the segment reads as its UTF-8 bytes |
| `JwtPayload.SecondSegmentIsExact` | frontend/lib/auth.ts:98 | there is a second segment exactly when the token has a dot, and it runs to the next dot or the end |
| `JwksCache.Cache.GetJwks` | gov_platform/security.py:109-125 | an unforced call less than 300 seconds after the stamp returns the cached keys; otherwise the fetch decides keys and entry, stale keys serving on an error; no other entry changes |
| `JwksCache.Cache.SigningKey` | gov_platform/security.py:137-146 | the outcome and the cache are those of the specification: first matching key, one refresh before giving up |
| `JwksCache.VerifyDecides` | gov_platform/security.py:137-146 | a key of the first set is used without a second request; after a miss the refresh decides; unreachable exactly when nothing was cached and the first fetch failed |
| `JwksCache.UninterruptedVerify` | gov_platform/security.py:109-146 | a caller whose steps nobody interrupts, however long its fetches take, ends with the outcome and cache of the sequential methods |
| `JwksCache.ReturnedKeysAreFresh` | gov_platform/security.py:109-125 | with overlapping fetches and rotation, returned keys were obtained after call time minus 300 s unless that call's own fetch failed |
| `JwksCache.CacheAnswersExactly` | gov_platform/security.py:109-113 | a call answers from the cache exactly when it is no refresh and the entry is less than 300 seconds old |
| `JwksCache.UnknownKeyIsExact` | gov_platform/security.py:137-146 | at most two fetches; a token is rejected as unknown exactly when the set its forced refresh returned lacks its kid |
| `ObjectStorage.StorageKeyIsInjective` | gov_platform/storage.py:119-122 | keys are equal exactly when tenant and document are, for any tenant text and a slash-free id |
| `ObjectStorage.DownloadsMatchDigest` | gov_platform/main.py:573-578 | over any run with the backend switching, downloaded bytes hash to the record's digest |
| `ObjectStorage.UploadTouchesOneDocument` | gov_platform/main.py:577-578 | an upload changes no other document's download on either backend; a refused one changes nothing |
| `ObjectStorage.DownloadIsLastAcceptedUpload` | gov_platform/main.py:614-618 | a download on a backend is exactly the last upload accepted there for the document, or not found |
| `ObjectStorage.UploadAcceptedExactly` | gov_platform/main.py:559-593 | on either backend: accepted exactly for a known id, no denial, 1 to 104857600 bytes and the record's digest; the status of each refusal; the one object written |
| `ObjectStorage.DownloadServedExactly` | gov_platform/main.py:606-641 | on either backend: served exactly for a known id, no denial and a stored key; what is served; the status of each refusal |
| `ObjectStorage.UploadDocumentContent` | gov_platform/main.py:559-593 | when the handler accepts, the status of each refusal, its one write, and the one audit event of an accepted upload |
| `ObjectStorage.DownloadDocument` | gov_platform/main.py:606-641 | when the handler serves, the status of each refusal, the bytes, content type and disposition, and the one audit event of a served download |
| `ObjectStorage.InMemoryObjectStorage.Get` | gov_platform/storage.py:57-60 | the stored bytes, or not found exactly when the key is absent |
| `DocumentSearch.PlainQueryIsSubstring` | gov_platform/db/repositories.py:69-75 | a query without wildcards matches exactly the filenames that contain it ignoring case |
| `DocumentSearch.ILikeIsACut` | gov_platform/db/repositories.py:71 | a text matches exactly when it can be cut into one piece a token: any run for %, any one character for _, the same letter for a letter |
| `DocumentSearch.SubstringSearchIsExact` | gov_platform/db/repositories.py:70-71 | the match is a substring test on all filenames exactly when the query has no wildcard or escape |
| `DocumentSearch.PlainHitsScoreOne` | gov_platform/search.py:103-114 | under any filters, every hit of a plain query scores 1.0 and is of a document of the tenant that contains it and passes them, and the total counts exactly those |
| `DocumentSearch.ListsExactlyTheSelected` | gov_platform/db/repositories.py:82-90 | the ordered list holds each selected document as often as it is stored, and nothing else |
| `DocumentSearch.FetchPage` | gov_platform/db/repositories.py:55-92 | for every query, each row listed is a stored row of the tenant that matches and equals each given filter; the total counts exactly those; the page is a slice, newest first |
| `DocumentSearch.Search` | gov_platform/search.py:57-115 | clamped page and size, the total, and the columns and score of each hit, all of stored rows of the tenant that match and pass the filters; substrings and score 1.0 for a plain query |
| `Ingestion.Classify` | gov_platform/ingestion.py:150-159 | the label is the first table entry with the maximal keyword count, none when that is zero |
| `Ingestion.LabelIsUnique` | gov_platform/ingestion.py:150-159 | that description determines label and score |
| `Ingestion.LabelByDecision` | gov_platform/ingestion.py:39-51 | the label as a list of questions about words: two words of a type first, then one, in table order |
| `Ingestion.RiskIsMonotone` | gov_platform/environmental_engine.py:114-118 | the score stays in 25..100 and rises with the number of missing documents |
| `Ingestion.MoreDocumentsHelp` | gov_platform/environmental_engine.py:59-86 | adding document types never raises the score nor revokes admissibility |
| `Ingestion.SeniorQueueExactly` | gov_platform/ingestion.py:172-219 | a document reaches the senior queue exactly when its project type requires five documents and its label is not one of them |
| `Ingestion.SeniorFromText` | gov_platform/ingestion.py:150-219 | from the text: senior exactly when the project requires five documents and none of them leads the text by the keyword table |
| `Ingestion.OutcomeByName` | gov_platform/environmental_engine.py:10-31 | the score and queue from the literal project type and the names of its required documents |
| `Ingestion.ProcessingResult.Run` | gov_platform/ingestion.py:83-137 | the ten stages in order, and the label, score and queue as functions of the text's words and the project type |

## Left out

- SubjectShareIsBounded: needs the user and tenant checks of each of the subject's requests to fall in one clock tick; across a tick the tenant charge can fall in the next span.
- RetryAfterIsExact: the clock counts whole seconds, so Redis's rounding of a TTL in milliseconds is not in the model.
- AppendWithChainLock: a failed append is a duplicate id only; lost connections are the aborts of the transition system.
- PayloadRoundTrip: ends at the text handed to the JSON parser; JSON parsing and UTF-16 surrogate pairs are not modelled.
- FilenameRoundTrip: speaks of the extended parameter only; backslashes in the quoted plain parameter are not removed by the code, so it does not always read back.
- Search: the database's order is a parameter, any order with descending dates, because the query has no tiebreaker; pages are therefore not shown to tile. The OpenSearch branch is left out.
- Search: letter case beyond ASCII, in ILIKE and in Python's lower, is not modelled; ILIKE is PostgreSQL's, with the backslash as escape, where SQLite has none.
- ReturnedKeysAreFresh: one identity provider, since settings name a single key URL; a fetch that fails with anything but an HTTP error is not modelled.
- The limiter's fail-open branch and a Redis failure between INCR and EXPIRE.
- HMAC, SHA-256, JSON serialization of the payload and JWT signature and claim checks: arbitrary functions, or left out.
- A lone surrogate in a filename, which makes the header printer raise: scalar values exclude it.
- Access decisions, which the storage handlers take as a parameter.
- UploadDocumentContent: shown for the in-memory backend, the other being a network service; its audit event has no timestamp, id or hashes, which the audit modules cover.
- DownloadDocument: as for the upload; the body is one block of bytes, not a stream.
- ProcessingResult.Run: extracted entities, the output recorded for each stage and the audit event of the last stage are left out.
- Two database rows for one chain step may be written in either order before commit; the model stages them together.
- RiskIsMonotone: scores are exact decimals, so binary floating point and round's treatment of ties are not modelled.
- Missing documents are a set: the sorted order of their names is not modelled; entity extraction, citations, justification text and durations are left out.
- Assignee and due dates of the workflow stage, routing, middleware, tracing, user interface, migrations and deployment files.
