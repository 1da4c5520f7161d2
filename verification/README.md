# Verified model of the incident platform's cache, rate limiter and services

A Dafny 4.11 model of the stateful core of the platform: the cache-aside protocol over incidents,
the TTL backend, the distributed rate limiter, the key codec, the incident store and its queries,
and registration. `dafny verify dfyconfig.toml` checks all of it.

## Layout

| file | models |
|---|---|
| `Text.dfy`, `Decimal.dfy` | strip, replace, split and join; decimal printing and parsing |
| `KeyCodec.dfy`, `Glob.dfy`, `PatternDeletion.dfy` | cache keys, `fnmatch`, and what a namespace pattern deletes |
| `Backends.dfy` | `MemoryBackend` and the ideal TTL map it refines |
| `CacheService.dfy` | the cache-aside helpers and their counters |
| `RateLimit.dfy` | the fixed-window limiter over many tasks with their own clocks |
| `Database.dfy`, `Updates.dfy` | projects and incidents, and what each request writes, field by field |
| `History.dfy`, `Queries.dfy` | serial runs over them; lists, pages, counts and the dashboard |
| `IncidentService.dfy`, `ProjectService.dfy` | the services as objects, one request at a time |
| `Protocol.dfy`, `ProtocolCache.dfy` | readers, writers and renames interleaved step by step, and their cache calls |
| `Versions.dfy`, `Coherence.dfy`, `CoherenceLimits.dfy`, `NameCoherence.dfy` | what commits change, and when a cached incident agrees with the committed one |
| `Merging.dfy`, `Overlap.dfy` | what overlapping updates leave of each other, and what they do to `resolved_at` |
| `Slugs.dfy`, `Registration.dfy` | slugs, accounts and login |

Objects that the source changes in place are classes whose methods are proved against functions on
values; runs and interleavings are sequences of those functions. Clock readings, the answer or
failure of a backend call, and the result of a loader are parameters. `sha256` and `str.lower` are
function-valued parameters constrained only by the subset types `Digest` and `Lowering`. A backend
without storage is `enabled == false`; an unreachable one is a call with `up == false`.

## What the proofs found

- Coherence after commit-then-invalidate is not unconditional. Every update a cached entry missed is
  between commit and invalidation, had its invalidation lost, or was committed and invalidated
  between the entry's load and store (`Coherence.Coherence`); each of the three does leave stale
  entries (`CoherenceLimits.PendingWriterLeavesStaleEntry`, `LostInvalidationLeavesStaleEntry`,
  `OvertakenReaderLeavesStaleEntry`). An entry is stale if and only if it missed an update that
  changed the row, unless such an update fell in the very instant of the payload's `updated_at`
  (`Coherence.StaleExactly`, `CoherenceLimits.RestoredAtOnce`). With the two writer steps swapped,
  even readers that nothing overtook leave stale entries (`CoherenceLimits.SwappedOrderBreaks`).
- Renaming a project invalidates nothing. The project name in a cached incident is wrong if and only
  if the project was edited after the entry's load and the latest such edit left another name than
  the cached one (`NameCoherence.NameExact`, with a run in `CoherenceLimits.ProjectNameIsNotCoherent`).
- The counter TTL of two windows tolerates clocks up to 30 seconds off the cache's clock and no
  more (`RateLimit.SkewToleranceExact`). Twice the limit within a minute is the exact worst case.
- `Retry-After` truncates, so waiting that long can end up to a second before the boundary; the
  exact condition is in `RateLimit.RetryAfterReaches`, and `RateLimit.OneWait` leaves one answer.
- Overlapping updates of different fields do not undo each other: a commit writes only the fields sent with
  another value than was read (`Merging.CommitsMerge`), so a field changes only when an update that names it
  commits (`Merging.FieldStays`).
- Two overlapping updates can leave a CLOSED incident without `resolved_at`. `History.OverlapExact`
  says for all inputs when one commit does that, and `Overlap.SettledRuns` for all interleavings.
- Pages of more than 100 rows skip rows, because the repository caps the page and not the stride
  (`Queries.TilesIff`); the routes reject such sizes.
- The docstring of `_sanitize` says that different inputs cannot collide. They do: short inputs exactly
  when, stripped of outer whitespace, they are equal up to which of ':', ' ' and '_' stands in a place,
  and a long input with the short one that spells its digest (`KeyCodec.SanitizeCollides`,
  `KeyCodec.DigestCollides`). So the limiter counts by sanitised identity.
- A namespace pattern deletes exactly one subtree if and only if the key it extends has no active
  wildcard (`PatternDeletion.NamespacePatternExact`).
- A stored JSON null counts as a hit and still runs the loader
  (`CacheService.StoredNullIsHitAndLoad`); `set` never stores one.

## Model

| member | source | states |
|---|---|---|
| Protocol.BoundedStaleness | cache/cache_service.py:120-132 | in every interleaving of readers, writers and renames with any cache call failing, a served payload shows that incident's committed row and project as of an instant later than now - ttl - the longest load-to-store delay |
| Protocol.DelayAttained | cache/cache_service.py:120-132 | that delay is no overestimate: it is zero or the time between the load and the store of one reader of the run |
| Protocol.ServedToOwner | services/incident_service.py:93-116 | in every interleaving, what the cache serves names a present row of the caller's organization by the requested id, with its project and that project's key, and shows the columns of a committed version of that row |
| Protocol.LoadedFromRow | schemas/serializers.py:57-81 | so does what any reader loads from the tables; a load finds a row iff the organization has it |
| Database.ViewShowsRow | schemas/serializers.py:57-81 | the view of an incident carries its own id and columns and its project's id, key and name; another organization's incident is not found |
| Protocol.TenantIndependence | cache/cache_service.py:171-177 | in every reachable state, a step run for one organization changes no other organization's rows or cached entries |
| Protocol.RunKeeps | services/incident_service.py:151-176 | the protocol invariant of every run: the log only lets the updated incident's columns change, and every entry, reader and writer is tied to a logged version |
| Versions.RunChained | database/models.py:38-44 | over every run, each commit changes the columns of at most the one incident it updates, stamps them with its time, and changes at most the one project it edits |
| Coherence.Coherence | services/incident_service.py:171-175 | in every interleaving, every update a cached entry missed is awaiting invalidation, had its invalidation lost, or was committed and invalidated between the entry's load and store; a stale entry missed an update that changed its row, and every such update committed later than the payload's `updated_at` leaves the entry stale |
| Coherence.StaleExactly | database/models.py:38-44 | unless a missed update changed the row in the very instant of the payload's `updated_at`, an entry is stale iff it missed an update that changed the row |
| Coherence.QuietCoherence | services/incident_service.py:171-175 | with no writer in flight and no invalidation lost, every entry whose load and store no commit separates equals the committed columns |
| CoherenceLimits.SwappedOrderBreaks | services/incident_service.py:173-174 | with invalidate before commit, a concrete run breaks quiet coherence |
| CoherenceLimits.PendingWriterLeavesStaleEntry | services/incident_service.py:171-175 | the first excuse occurs: a run leaves an entry stale while its writer is between commit and invalidation |
| CoherenceLimits.LostInvalidationLeavesStaleEntry | cache/cache_service.py:135-146 | the second: a run leaves a stale entry with nothing in flight after a cache failure lost the invalidation |
| CoherenceLimits.OvertakenReaderLeavesStaleEntry | services/incident_service.py:173-175 | the third: a run leaves a stale entry with nothing in flight and no invalidation lost |
| CoherenceLimits.RestoredAtOnce | services/incident_service.py:158-175 | the proviso of `StaleExactly` is needed: a row changed and restored in one instant leaves an entry that missed both updates and is not stale |
| NameCoherence.NameExact | schemas/serializers.py:76-80 | in every interleaving, the project name in a cached incident differs from the committed one iff the project was edited after the entry's load and the latest such edit left another name |
| NameCoherence.RenameExact | services/project_service.py:83-90 | after a committed rename, and until the project is edited again, exactly the entries loaded before it that do not hold the new name are wrong about it |
| NameCoherence.PayloadExact | schemas/serializers.py:57-81 | in every interleaving, an entry is the whole committed view iff neither its columns nor its project name are stale |
| CoherenceLimits.ProjectNameIsNotCoherent | services/project_service.py:83-90 | the case occurs: a run serves an old project name after a committed rename, with no incident update at all |
| ProtocolCache.GetServes | cache/cache_service.py:81-106 | if the text of the payload stored under the key reads back, `get` returns exactly what the protocol serves |
| ProtocolCache.CodecExists | cache/cache_service.py:109-117 | for every state of the protocol some codec reads back all payloads stored in it and never yields null |
| ProtocolCache.SetStores | cache/cache_service.py:109-117 | `set` changes the stored text as the protocol's store step does, whether or not the backend answers |
| ProtocolCache.InvalidateDrops | cache/cache_service.py:135-146 | `invalidate` changes the stored text as the protocol's drop step does, whether or not the backend answers |
| RateLimit.LimiterExact | middleware/rate_limit.py:85-105 | beside any other use of the cache and with clocks at most 30 s off, every window accepts exactly min(requests, max(0, limit)) requests per counter over all tasks, and its counter is alive and exact while requests of the window can arrive |
| RateLimit.SkewToleranceExact | middleware/rate_limit.py:39-41 | exact counting in all possible runs holds if and only if the skew is at most 30 s |
| RateLimit.IncrementNeverCrashes | cache/backends.py:168-173 | over every run of the limiter beside any use of the cache outside its namespace, `increment` only parses decimals |
| RateLimit.IncidentCallsAreBenign | services/incident_service.py:106-116 | the incident service's cache calls are such uses |
| RateLimit.BurstBound | middleware/rate_limit.py:19-21 | on one clock, any half-open interval of length L accepts at most (ceil(L/60) + 1) * limit |
| RateLimit.BurstAttained | middleware/rate_limit.py:19-21 | for every limit some run accepts exactly twice the limit within one minute |
| RateLimit.RetryAfterReaches | middleware/rate_limit.py:97 | Retry-After is in 1..60, ends less than a second early and, unless it is 1, never late, and reaches the next window iff the rest is at most a second or whole |
| RateLimit.LimitedAlwaysWaits | middleware/rate_limit.py:85-105 | in every run, each limited request is told the wait for the end of its own minute: the rest in whole seconds rounded down, at least one |
| RateLimit.OneWait | middleware/rate_limit.py:97 | that description leaves exactly one answer |
| RateLimit.Limiter.Check | middleware/rate_limit.py:85-105 | a check is one step of the limiter model, and a limited request is told the wait for the end of its window; with no backend it lets the request through and moves no counter |
| Backends.LazyRefinesIdeal | cache/backends.py:139-173 | under a non-decreasing clock, every sequence of calls answers as a map whose entries vanish on time, sweeping is unobservable, and delete counts are at least the live matches |
| Backends.MemoryBackend.LiveValue | cache/backends.py:139-147 | returns the live value and drops the entry only when it has expired |
| Backends.MemoryBackend.Get | cache/backends.py:149-151 | one `Get` of the lazy backend |
| Backends.MemoryBackend.Set | cache/backends.py:153-155 | stores the value until now + ttl |
| Backends.MemoryBackend.Delete | cache/backends.py:157-159 | removes exactly the given keys and returns how many were held, duplicates once |
| Backends.MemoryBackend.DeleteMatching | cache/backends.py:161-166 | removes exactly the matching keys and returns their number |
| Backends.MemoryBackend.Increment | cache/backends.py:168-173 | counts from the live value, renews the TTL from the second clock reading, and leaves unparsable text alone |
| CacheService.Accounting | cache/metrics.py:41-71 | over every run, lookups are hits plus misses plus failed reads, hits are the values served, invalidations is the sum of reported deletes, and loader runs are the non-hit `get_or_set` calls |
| CacheService.ServeKeepsNoNull | cache/cache_service.py:109-117 | no helper ever stores text that decodes to null |
| CacheService.ErrorsExact | cache/metrics.py:57-59 | over every run, errors grows by exactly the number of backend calls that raised |
| CacheService.OutageIsHarmless | cache/cache_service.py:6-11 | through an outage of any length every caller gets what it would get without a cache, no entry and no counter but `errors` changes, and that by one for each backend call attempted |
| CacheService.SetThenGet | cache/cache_service.py:109-117 | a stored value is read back as itself until its TTL ends and not from then on |
| CacheService.StoredStays | cache/cache_service.py:120-132 | a stored value survives every run of requests that are about other keys or look it up in time, and is then still read back until its TTL ends |
| CacheService.ServeElsewhere | cache/cache_service.py:81-168 | no helper touches an entry under a key other than those it was given |
| CacheService.UndecodableIsDropped | cache/cache_service.py:95-103 | text that does not decode is a miss and is removed and counted, unless the backend fails again |
| CacheService.StoredNullIsHitAndLoad | cache/cache_service.py:95-106 | the invariant is needed: a stored null counts as a hit and still loads |
| CacheService.Service.Get | cache/cache_service.py:81-106 | a failed read costs an error, undecodable text is dropped and missed, and the counters move accordingly |
| CacheService.Service.Set | cache/cache_service.py:109-117 | None is not stored, and an outage costs an error only |
| CacheService.Service.GetOrSet | cache/cache_service.py:120-132 | the loader runs exactly when nothing was found, and a failing load stores nothing |
| CacheService.Service.Invalidate | cache/cache_service.py:135-146 | deletes and counts what was held, or records an error |
| CacheService.Service.InvalidatePattern | cache/cache_service.py:149-158 | deletes and counts the matching keys, or records an error |
| CacheService.Service.Increment | cache/cache_service.py:161-168 | the backend's count, or 0 when it is unavailable |
| KeyCodec.KeySplits | cache/cache_service.py:59-60 | splitting a built key on ':' gives back prefix, version, namespace and the sanitised parts |
| KeyCodec.KeysEqual | cache/cache_service.py:59-60 | keys are equal iff namespace and sanitised parts are |
| KeyCodec.IncidentKeyInjective | cache/cache_service.py:171-177 | no requested pair of ids, however large, shares a key with another database row's pair |
| KeyCodec.IncidentKeyText | cache/cache_service.py:171-177 | the key of a database row is betterops:v1:incident: and its two ids in decimal |
| KeyCodec.RateKeysEqual | middleware/rate_limit.py:89 | counters are shared iff sanitised rule, sanitised identity and window agree |
| KeyCodec.RateKeyIsNoIncidentKey | cache/cache_service.py:35-37 | a rate-limit key is never an incident key |
| KeyCodec.SanitizeVerbatim | cache/cache_service.py:44-51 | the exact condition under which a part is stored as it is |
| KeyCodec.SanitizeCollides | cache/cache_service.py:44-51 | for all parts, when two have one sanitised form: short ones iff their stripped texts are equal up to ':', ' ' and '_', a short and a long one iff the short one spells the other's digest, long ones iff their digests are equal |
| KeyCodec.DigestCollides | cache/cache_service.py:54-56 | every word too long to be kept shares its sanitised form with a short word, its own digest |
| KeyCodec.SanitizeFoldsSeparators | cache/cache_service.py:44-51 | short words do collide, over a separator and over outer whitespace |
| Decimal.ParseStr | cache/backends.py:171-172 | int(str(n)) == n |
| Decimal.PrintLength | services/auth_service.py:55 | a number below 10^k prints in at most k digits |
| Glob.SubtreeExact | cache/backends.py:163 | a pattern `p:*` matches exactly the strings that extend the segments of p iff p has no active wildcard |
| PatternDeletion.NamespacePatternExact | cache/cache_service.py:63-67 | a namespace pattern selects exactly the stored keys below its segments iff the key it extends has no active wildcard |
| PatternDeletion.NoWildcardExact | cache/cache_service.py:63-67 | it does so whenever namespace and parts hold none of '*', '?' and '[' |
| PatternDeletion.InvalidateNamespaceExact | cache/cache_service.py:149-158 | over every store, `invalidate_pattern` of a namespace pattern removes and counts exactly the entries below its segments and leaves all others, iff the key it extends has no active wildcard |
| PatternDeletion.NoWildcardTakesSubtree | cache/cache_service.py:149-158 | it does so whenever namespace and parts hold none of '*', '?' and '[' |
| PatternDeletion.OrganizationPatternExact | cache/cache_service.py:63-67 | dropping organization m's incidents matches row (n, id) iff m == n |
| History.ResolutionHistory | services/incident_service.py:179-189 | over every serial run, resolved_at is set iff the status is terminal, and is the time of the latest move from a non-terminal to a terminal status |
| History.UpdateSettles | services/incident_service.py:162-189 | one update sets, keeps or clears resolved_at with the status |
| History.UpdateTakesEffect | services/incident_service.py:151-171 | in every serial run, an update is merged into the row it read, or changes nothing for a foreign row or a null that a column cannot hold |
| History.ReportTakesEffect | services/incident_service.py:119-148 | in every serial run, a report against the organization's own project adds the next incident |
| Updates.UpdateWritesWhatWasSent | services/incident_service.py:158-171 | whatever the row has become since it was read, a commit writes each field whose last sent value differs from what was read and keeps what the row holds in every other; source and created_at stay, resolved_at follows the status sent, updated_at moves iff something is written; it is refused exactly for a missing row or a null that a column cannot hold |
| Updates.UpdateIncidentExact | services/incident_service.py:151-176 | an update with nothing in between: not found, refused for a null, or merged into the row it read, and exactly when each happens |
| Merging.CommitsMerge | services/incident_service.py:158-171 | in every interleaving, an update is based on a committed version of its row and is merged field by field into the row as it stands at the commit, which changes nothing else |
| Merging.FieldStays | services/incident_service.py:165-171 | between any two points of any interleaving a field of an incident keeps its value unless an update that names that field commits in between |
| History.OverlapExact | services/incident_service.py:158-171 | exactly when an update committed over a row that changed since its read leaves status and resolved_at inconsistent |
| Overlap.SettledRuns | services/incident_service.py:158-171 | over every interleaving, all rows keep resolved_at in step with their status throughout iff no commit moves a row within one class of statuses after it crossed to the other |
| History.OverlapBreaksResolution | services/incident_service.py:158-171 | reopening and closing at once leaves CLOSED without resolved_at |
| History.AlwaysConsistent | services/incident_service.py:128-134 | over every run, each incident's organization is its project's |
| History.AlwaysUniqueKeys | services/project_service.py:50-54 | over every run, a project's key is unique within its organization |
| Updates.NewIncidentRow | services/incident_service.py:128-148 | a new incident is refused for a foreign project, and else stored field by field as sent, open and unresolved, with the project's primary service where none was given and the present time where no start was |
| Updates.NewProjectRow | services/project_service.py:40-67 | a new project is refused to other roles than owner and admin, then for a taken key, and else stored field by field as sent |
| Updates.ProjectUpdateWritesWhatWasSent | services/project_service.py:70-90 | a project update is refused to other roles than owner and admin, then for a foreign project, then for a null name; else each field sent takes its last value and every other one stays |
| History.OtherTenantsUntouched | repositories/incident_repository.py:14-18 | a request of one organization leaves all rows and views of every other as they were |
| IncidentService.IncidentDesk.GetIncidentView | services/incident_service.py:93-116 | one `get_or_set` under the incident's key; a failed read falls back to the row, shown under its own id with its project, and a missing incident is never stored |
| IncidentService.IncidentDesk.CreateIncident | services/incident_service.py:119-148 | inserts one open row of the project's organization, or changes nothing |
| IncidentService.IncidentDesk.UpdateIncident | services/incident_service.py:151-176 | commits the edited row and then invalidates its key; a failed lookup or commit changes neither row nor cache |
| IncidentService.IncidentDesk.ApplyStatusSideEffects | services/incident_service.py:179-189 | resolved_at is set on terminal statuses, kept if set, cleared otherwise |
| IncidentService.UpdateThenView | services/incident_service.py:171-176 | with the backend up, the view after a committed update is the view of the updated tables, read from the database, and until that entry lapses the next view serves the same from the cache |
| ProjectService.ProjectDesk.CreateProject | services/project_service.py:40-67 | inserts one project under a free key for a writing role, or changes nothing |
| ProjectService.ProjectDesk.UpdateProject | services/project_service.py:70-90 | applies the sent fields one by one; a null name, a foreign project or a role without write access changes nothing |
| Database.UpdateProjectKeeps | services/project_service.py:70-90 | no project update changes an organization, a key or an incident |
| Queries.WalkCollectsAll | services/incident_service.py:34-80 | walking pages of 1 to 100 rows up to the reported total collects exactly the incidents of the caller's organization and of the project asked for whose status passes (any, the non-terminal ones for OPEN_ONLY, or the one named), once each, latest start first |
| Queries.PageExact | repositories/incident_repository.py:21-57 | any page at any offset is that part of this one ordering, at most 100 rows of it, and the total is its length |
| Queries.ListRefusedIff | services/incident_service.py:44-80 | a list is refused exactly for a project that is not the caller's, and then for a status nobody defined |
| Queries.TilesIff | repositories/incident_repository.py:35-39 | pages at stride `limit` reproduce every result set iff limit is at most 100 |
| Queries.RankingUnique | repositories/incident_repository.py:36 | the order by started_at and id leaves one possible result list |
| Queries.OpenCountConservation | services/incident_service.py:192-211 | after every run, the per-project open counts add up to open_incidents, and open plus terminal make total_incidents |
| Queries.GroupCount | repositories/project_repository.py:39-55 | the grouped count of a project, 0 if absent, is its number of open incidents |
| Queries.DashboardExact | services/incident_service.py:192-211 | the dashboard counts the organization's unfinished incidents, all its incidents and its projects, and shows the first eight of all its incidents, newest first; each project card counts the project's unfinished incidents |
| Queries.OtherTenantsListsUntouched | repositories/incident_repository.py:21-57 | a request of one organization changes no other organization's lists, pages or counts |
| Queries.OtherTenantsDashboardUntouched | services/project_service.py:22-28 | nor its project list, its dashboard or its project cards |
| Queries.ForeignProjectIsNotFound | services/incident_service.py:44-49 | listing by project fails with not-found iff the project is not the caller's |
| Slugs.SlugifyIsSlug | services/auth_service.py:42-44 | the result is non-empty runs of [a-z0-9] joined by single hyphens, and slugifying it again changes nothing |
| Slugs.SlugKeepsWords | services/auth_service.py:42-44 | the slug spells exactly the [a-z0-9] words of the lowered name in order, or "org" if there are none |
| Slugs.FixedPointsAreSlugs | services/auth_service.py:42-44 | the strings slugify leaves alone are exactly the slugs |
| Slugs.UniqueSlug | services/auth_service.py:47-57 | terminates with a slug not taken: the first 70 characters of the base, or its first 66 with the lowest free counter from 2, at most the number taken plus two, and at most 80 characters while that is below 10^13 |
| Registration.AuthService.Register | services/auth_service.py:60-90 | either refuses and changes nothing, or inserts user, organization and owner membership together under the first free slug of the organization's name |
| Registration.RegisteredRows | services/auth_service.py:66-90 | over every run, a successful registration adds exactly these rows: the user with the normalised email and the hash, the organization with the name asked for or one made from the user's and the first free slug that spells its words, and an owner membership |
| Registration.AlwaysSound | services/auth_service.py:60-90 | after every run, emails are normalised and unique, slugs are unique, and every user has one membership in an existing organization |
| Registration.LoginNeverOrphaned | services/auth_service.py:93-116 | login fails only for an unknown email or a wrong password |
| Registration.LoginReturnsRegistered | services/auth_service.py:93-116 | at any later time, any spelling of the email that normalises alike and the right password return the context register returned |
| Registration.LoginExact | services/auth_service.py:93-116 | after every run, login returns a context iff an earlier registration under the same normalised email returned it and the password meets the hash stored then; every other login fails as invalid credentials |
| Registration.RefusedIffTaken | services/auth_service.py:66-68 | registration is refused iff some account has the same normalised email |

## Left out

- HTTP routing, cookies, templates, static files, request logging and configuration parsing: input and output only.
- SQL and sessions: tables are finite maps, a commit is atomic and fails on a null required column or exhausted ids.
- JSON, SHA-256, scrypt and JWT: library code. JSON is any codec whose texts of values and counters are never the null literal, and a payload reads back from its text where a law needs it; the password check is an arbitrary relation.
- The Redis client: a Redis call answers as the ideal TTL map or raises; eviction and a multi-key delete that fails halfway are not modelled.
- `MemoryBackend.clear` and `ping`: the first is for test set-up, the second for the health endpoint.
- Log throttling in `_log_outage`, `hit_rate` and the health endpoint: single-branch facts.
- Field validation in the request schemas: payloads are already valid, with titles and statuses possibly null on update.
- History.ResolutionHistory: serial runs only, because the source takes no lock between read and commit; overlapping updates are covered by `Overlap.SettledRuns`.
- Coherence.StaleExactly: `updated_at` and the commit times come from one non-decreasing clock; tasks whose clocks differ are modelled for the limiter only.
- RateLimit.LimiterExact: the counter is that of the sanitised rule and identity, and window starts are below 10^30 in magnitude, since the text of longer numbers could be hashed.
- RateLimit.BurstBound: clock readings stay between 0 and 10^30 seconds for the same reason.
- Decimal.ParseStr: `int()` is modelled on ASCII digits; other Unicode digits are taken as unparsable.
- Glob.SubtreeExact: `fnmatch` drops ranges that run backwards before it looks for a leading '!'; the model keeps them as ranges that match nothing.
- Registration.LoginReturnsRegistered: accounts are never disabled or deleted, because no code does so; user ids are unbounded.
- Queries.OpenCountConservation: the order of project cards depends on the database's collation, so the law holds for any enumeration of the organization's projects.
- Database.UpdateProject: reads and commits in one step, so two overlapping edits of one project are not modelled; a project's timestamps and creator are left out too.
- `status.upper()` in list filters is an arbitrary function, and the default page sizes are arguments.
- Reading the client's identity and choosing the rule for a request (`_identity`, `_rule_for_request`): the limiter takes them as given.
