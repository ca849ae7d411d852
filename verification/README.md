# Verified model of the JSON:API service template

This project models, in Dafny 4.11, the parts of the service whose correctness spans several functions
or a whole run, and proves what the code promises about them:

- **Collection pages.** Query parameters, effective sorts, the keyset predicate in SQL's three-valued
  logic, the probe row, identity de-duplication, opaque cursors and pagination links. The reference is
  "sort all rows, drop the copies, cut into pages". The last result closes the loop: a client that only
  follows links reads exactly the filtered collection, and the shipped examples policy meets every
  hypothesis of it.
- **Refresh sessions.** Login, rotation with reuse detection, logout, deactivation and the retention
  purge as one atomic-step state machine with run-level invariants; the same functions statement by
  statement on mutable tables; and a lock-level model in which transactions run in any interleaving and
  every execution is proved serial, in an order that respects locks and real time, free of deadlocks, and
  with purges invisible.
- **Compound documents.** The pruned depth-first walk over a possibly cyclic object graph against the
  unpruned walk, the eager-loading plan, and the linkage-only optimisation.
- **PUT under races**, the **email identity migration** and its rollback, **quoted header values**, the
  **purge loop** and the **retry schedule**.

| files | part |
|---|---|
| `Wrappers`, `Arithmetic`, `Strings`, `Sorting`, `Decimal` | shared vocabulary |
| `SortTerms`, `Keyset`, `Index`, `Walk`, `Pages`, `PageTurns` | one page, walks over pages, turning back |
| `Base64`, `CursorText`, `CursorCodec`, `CursorLength`, `CursorBinding` | cursors |
| `Filters`, `QueryParams`, `RequestParameters`, `Links`, `LinkWalk`, `ExampleWalk` | requests, links, the closed loop |
| `Tokens`, `Sessions`, `SessionRuns`, `SessionAnswers`, `PurgeInvisible`, `RefreshStore` | refresh sessions, one request at a time |
| `Locks`, `LockOrder`, `LockProgress`, `LockedPurges` | refresh sessions, concurrent requests and purges |
| `IncludeTree`, `Serializer`, `DocumentContents`, `LoaderPlan`, `Loading` | documents and loading |
| `Upsert`, `UpsertRuns` | PUT |
| `EmailIdentity`, `Quoting`, `HeaderParameters`, `PurgeJob`, `Retries` | the smaller pieces |

`dafny verify dfyconfig.toml` checks the whole project.

A loop or a method is proved against a specification function, and the function against laws that do not
mention it: what is answered and written is stated in terms of the rows, the text or the graph
(`SessionAnswers`, `RequestParameters`, `DocumentContents`, and the lemmas named `...Is`).

## Hypotheses

One is built into the definitions: the token hash is injective, because the stored digest *is* the token in
the model (`Sessions.Session.hash`). The others are preconditions or named predicates:

- Comparable values are totally ordered; sort columns are NOT NULL and their types fit in a cursor; the
  tie-breaker column is unique; an explicit `column` on a default-sort term agrees with the allowlist
  (`Index.Ready`, `SortTerms.OverridesAgree`). The table does not change during a walk. Numbered pages need none
  of this, only a policy whose default sort names allowed fields (`SortTerms.Constructible`).
- The JSON and base64 libraries and `int()` read back what was written (`CursorCodec.Reads`); what else they
  accept is left open, so hand-made cursors are covered. One decoder that reads back is given
  (`CursorCodec.StrictReads`).
- Session and transaction identifiers are fresh, signatures cannot be forged, and the clock does not run
  backwards within a request (`Sessions.Enabled`). Comparing runs of whole requests with and without purges also
  needs the requests in clock order (`PurgeInvisible.Timely`); interleaved requests need only a common clock that
  does not run backwards (`Locks.Can`).
- A declared linkage attribute is the relationship's foreign key and references are intact
  (`Loading.Sound`), which is what `_validate_linkage_attribute` and the database enforce.
- The canonical form of an address is its own canonical form (`EmailIdentity.Idempotent`).
- Sessions issued while the purge job runs have new ids and expire after its cutoff (`PurgeJob.Issued`).

## Where the code does less than it says

The model follows the code. Each of these is proved on a concrete input, with the exact condition:

- `_append_tie_breaker` drops a term's `column` override, so appending twice may append twice
  (`SortTerms.AppendNotIdempotent`; exactly when: `SortTerms.AppendIdempotent`).
- "Atomically create or fully replace": a PUT that loses the insert race keeps writable relationships the
  rival set and the request omits (`UpsertRuns.RaceKeepsRivalLinks`), and a PUT that creates a row with
  null for a to-one whose column has a default reports null but commits the default
  (`UpsertRuns.NullKeepsTheDefault`; exactly when: `UpsertRuns.PutTellsTheTruth`,
  `UpsertRuns.PutReplacesFully`). No shipped model declares such a default.
- A cursor of one sort can be accepted under another. Terms that were asked for never collide; the default sort
  and the tie breaker can, with an ascending name that starts with a dash (`CursorBinding.MisreadCursor`; exactly
  when: `CursorBinding.SignatureIdentifies`). No shipped policy has such a name, and without one there is no
  collision (`CursorBinding.PlainPolicyIdentifies`).
- A minted cursor over 4096 characters is refused when it comes back (`CursorCodec.OverlongCursor`; exactly when,
  by payload size: `CursorCodec.CursorReads`). The shipped policies stay below (`CursorLength.ExampleCursorFits`).
- A link against the direction of its page is offered without looking, so it can lead to an empty page
  (`PageTurns.EmptyPage`: a cursor minted under other filters, in both directions; exactly when:
  `PageTurns.TurnReturns`).

One refusal of the source is explained the same way: a row with NULL in a sort column is lost by exactly the
cursors it ties with up to there (`Keyset.NullRowIsLost`).

## Model

| member | source | states |
|---|---|---|
| SortTerms.AppendIdempotent | app/jsonapi/query.py:225-232 | appending the tie breaker is idempotent if and only if no tie was recognised through an override that normalising drops |
| SortTerms.AppendNotIdempotent | app/jsonapi/query.py:225-232 | a policy with such an override for which the second append does append |
| SortTerms.OrderIsUnique | app/jsonapi/query.py:309-335 | an addressable effective sort contains the unique column |
| SortTerms.ResolveFlip | app/jsonapi/query.py:615-625 | inverting all directions resolves to the same columns, each inverted |
| SortTerms.EffectiveOrder | app/jsonapi/query.py:600-625 | the executed ORDER BY is exactly the keyset columns, all inverted for `page[before]` |
| Keyset.ApplyKeyset | app/jsonapi/query.py:628-666 | the loops build the leading bound and the OR of AND prefixes, or refuse the cursor |
| Keyset.DisjunctsExact | app/jsonapi/query.py:654-660 | some disjunct is definitely true exactly for rows strictly beyond the cursor, for any mix of directions |
| Keyset.LeadingBoundRedundant | app/jsonapi/query.py:636-666 | the leading bound removes no row the disjunction keeps |
| Keyset.KeysetExact | app/jsonapi/query.py:628-666 | WHERE keeps a row without NULLs if and only if it is lexicographically beyond the cursor in the walking direction |
| Keyset.NullRowIsLost | app/jsonapi/query.py:314-318 | a row whose first NULL sort column is the n-th is kept neither forwards nor backwards if and only if it ties with the cursor on all columns before |
| Keyset.BeforeTotal | app/jsonapi/query.py:600-612 | with a unique column the ORDER BY is a strict total order on the rows |
| Keyset.BeforeFlip | app/jsonapi/query.py:615-625 | the inverted ORDER BY is the inverse order |
| Index.List | app/controllers/concerns/crud_actions.py:174-206 | statement building, probe, fold, cut and reversal together return the listing specified on the sorted rows |
| Index.StatementIs | app/controllers/concerns/crud_actions.py:184-190 | a misplaced cursor is reported before an unresolvable sort; otherwise the statement has a keyset condition if and only if the cursor has a position, no offset in cursor mode, and reads one row more than the page |
| Index.Fold | app/controllers/concerns/crud_actions.py:195 | copies fold into their first occurrence, order kept |
| Index.CursorPage | app/controllers/concerns/crud_actions.py:184-198 | a cursor page is the distinct rows among the first size + 1 beyond the cursor, in reading order, and the probe tells whether more remain |
| Index.OffsetPage | app/jsonapi/query.py:669-679 | for any sort, over nullable columns too, a numbered page is the window of the sorted rows at (number - 1) * size with its probe, or INVALID_SORT |
| Index.PageAdvance | app/controllers/concerns/crud_actions.py:190-210 | a page and the rows beyond its last row partition the distinct rows, and strictly fewer rows remain |
| Walk.Step | app/controllers/concerns/crud_actions.py:200-210 | one request of a walk: null link exactly when the page holds all the rest, else a position with strictly less beyond it |
| Walk.WalkReturnsRest | app/jsonapi/query.py:746-758 | a walk from any position terminates and returns every distinct row beyond it, once, in order |
| Walk.WalkComplete | app/jsonapi/query.py:615-679 | following `next` from `page[after]=` and `prev` from `page[before]=` both return the collection, for every size and every row-multiplying scope |
| Walk.CollectionIs | app/controllers/concerns/crud_actions.py:184-198 | the collection is exactly the rows of the scope, strictly increasing, no duplicates |
| Pages.CursorMatchesOffset | app/jsonapi/query.py:669-679 | without copies, the k-th page of the cursor walk is `page[number]=k`, and exists exactly when that one has rows or is the first |
| PageTurns.TurnReturns | app/jsonapi/query.py:746-758 | without copies, from any page in either direction, a link leads to an empty page if and only if it goes against its page's direction and the position of that page lies in front of every row; otherwise the opposite link of the page reached is there and shows the same rows again |
| PageTurns.NowhereIsOffered | app/jsonapi/query.py:746-758 | in a scope with rows, every page at such a position has rows and does offer the link to an empty page |
| PageTurns.EmptyPage | app/jsonapi/query.py:440-443 | two rows, a cursor minted for one, and a filter that keeps the other: the page of the remaining row offers a link to an empty page, in both directions |
| Pages.ProbeAgreesWithCount | app/jsonapi/query.py:698-707 | for any sort that resolves, the probe finds a next page if and only if the page is below the last page the COUNT gives |
| Pages.OffsetWalkReaches | app/controllers/concerns/crud_actions.py:167-170 | for any sort that resolves, in a scope that multiplies rows every resource lies on a numbered page, and every earlier page announces a next one |
| Decimal.PositiveIntegerReads | app/jsonapi/query.py:270-279 | every integer up to 2^63-1 printed by a link passes the page parameter parser unchanged |
| Decimal.PositiveIntegerIs | app/jsonapi/query.py:270-279 | a text is read as n if and only if it is the numeral of n, perhaps after zeros, of at most nineteen digits, and n lies between 1 and 2^63-1 |
| Base64.DecodeStrippedEncode | app/jsonapi/query.py:413-433 | stripping the padding and restoring it from the length is lossless (sections 3.2 and 5 of RFC 4648), and the length is four symbols for three bytes rounded up |
| Base64.EncodedIs | app/jsonapi/query.py:413-414 | the k-th character of a cursor stands for the k-th six bits of the payload in the URL-safe alphabet (section 5 of RFC 4648) |
| CursorText.LoadsDumps | app/jsonapi/query.py:413 | reading the compact JSON payload gives back signature and values for every string, surrogate pairs included |
| CursorText.StringReads | app/jsonapi/query.py:413 | escaping a string and reading it up to the closing quote is the identity and leaves the rest of the text |
| CursorText.DumpsLength | app/jsonapi/query.py:413 | the payload is ASCII and no longer than its escaped parts |
| CursorText.DumpsIs | app/jsonapi/query.py:413 | for two-column sorts over plain text, the payload character by character: keys s and v, compact separators |
| CursorText.EscapesAre | app/jsonapi/query.py:413 | how quotes, backslashes, line feeds, DEL, accented letters and characters beyond the basic plane are escaped |
| CursorCodec.EncodeCursor | app/jsonapi/query.py:398-414 | the loop mints a cursor exactly when the sort is addressable and no sort value is NULL |
| CursorCodec.DecodeCursor | app/jsonapi/query.py:417-453 | the checks and the loop compute the decoded values or refuse, whatever else the libraries accept |
| CursorCodec.DecodedIs | app/jsonapi/query.py:417-453 | a cursor is accepted if and only if it is empty, or at most 4096 characters that open to the signature of this very sort and one text per column that decodes for the column's type |
| CursorCodec.StrictReads | app/jsonapi/query.py:413-437 | decoding base64, ASCII and JSON, and reading integers, gives back every payload and integer written |
| CursorCodec.ValueReads | app/jsonapi/query.py:338-385 | bools, bounded integers, strings and enum members decode to the value that was printed |
| CursorCodec.ValueIs | app/jsonapi/query.py:352-385 | for each column type exactly which texts decode and to what, with the range of every integer width |
| CursorCodec.CursorReads | app/jsonapi/query.py:398-453 | a minted cursor decodes to the row's exact sort key if and only if it is at most 4096 characters long, that is if its payload is at most 3072 bytes |
| CursorCodec.OverlongCursor | app/jsonapi/query.py:40 | a policy and a row whose minted cursor is over the limit and decodes to nothing |
| CursorCodec.CursorIsBound | app/jsonapi/query.py:440-443 | a minted cursor is refused under every sort with another signature |
| CursorBinding.SignatureIdentifies | app/jsonapi/query.py:282-283 | among all sorts a request can have under a policy, asked for or by default, equal signatures mean equal sorts if and only if neither the tie breaker nor the default sort reads as another request, a test on the names of the policy |
| CursorBinding.TermsSign | app/jsonapi/query.py:235-249 | the signature of parsed sort terms is the very list of tokens, so terms that were asked for never collide |
| CursorBinding.RefusedElsewhere | app/jsonapi/query.py:440-443 | under such a policy the cursor of one effective sort is refused under every other one |
| CursorBinding.PlainPolicyIdentifies | app/jsonapi/query.py:282-283 | a policy without ascending dash names in its default sort and tie breaker has no collisions |
| CursorBinding.MisreadCursor | app/jsonapi/query.py:440-443 | under a policy that sorts by `-x` ascending by default, the cursor of a default page is accepted under `sort=-x`, over another column |
| CursorLength.MintedFits | app/jsonapi/query.py:40 | a policy whose sorts together fit 3072 payload bytes never mints a cursor over the limit |
| CursorLength.ExampleCursorFits | app/schemas/example.py:123-159 | every effective sort of the examples policy, on every row of its table, mints a cursor within the limit |
| CursorLength.LabelCursorFits | app/schemas/example_category.py:6-20 | the same for categories and tags |
| QueryParams.ParseQuery | app/jsonapi/query.py:456-521 | the loop and the final checks compute `Query`, request or first error with its parameter; what `Query` is, the laws of `RequestParameters` say |
| RequestParameters.AcceptedSays | app/jsonapi/query.py:456-521 | every accepted request consists of known, readable, unrepeated parameters and holds exactly what they say: the filters in order, and for sort, include, number, size cut at 100, totals and cursor the text of that name, or the default |
| RequestParameters.RefusedFor | app/jsonapi/query.py:468-505 | the first parameter that is unknown, unreadable or repeated is the one the request is refused for, with the code of its name |
| RequestParameters.GoodIsAccepted | app/jsonapi/query.py:507-521 | a request whose parameters are all good is accepted, unless its offset is above 2^53-1, a page number stands beside a cursor, or the cursor does not decode under its sort |
| RequestParameters.SortIs | app/jsonapi/query.py:235-249 | a sort text is accepted if and only if its tokens name allowed fields, each once; it gives them in order and the tie breaker unless they reach it |
| RequestParameters.SortExecutes | app/jsonapi/query.py:600-612 | what an accepted sort text orders by: each token's column in the token's direction, then the tie breaker |
| RequestParameters.IncludeIs | app/jsonapi/query.py:252-267 | an include text is accepted if and only if it is empty or all its tokens are allowed; repeated tokens count once |
| RequestParameters.IncludeReads | app/jsonapi/query.py:252-267 | written as a text, a list of distinct allowed paths is read back |
| Filters.FilterIs | app/jsonapi/query.py:170-222 | a parameter is accepted as a clause if and only if it spells an allowed field and one of its operators and its text stands for the value: `true` and `false` for `isNull`, a list of nonempty texts for `in`, one text otherwise |
| Filters.NameReads | app/jsonapi/query.py:30 | a filter name and operator are read back from the parameter name, and `exact` when there is no operator |
| Filters.InReads | app/jsonapi/query.py:170-192 | a list of values is read back from its text, each as its own parser reads it |
| Filters.ClauseIsAllowed | app/jsonapi/query.py:197-222 | an accepted filter has an allowed field and operator, a flag only for `isNull` and several values only for `in` |
| QueryParams.SortIsEffective | app/jsonapi/query.py:235-249 | an accepted sort has distinct allowed names, no overrides, and the tie breaker among its columns |
| QueryParams.SortReads | app/jsonapi/query.py:235-249 | writing any list of sort terms as a parameter and parsing it gives the terms back, completed by the tie breaker |
| Links.OffsetLinkParses | app/jsonapi/query.py:719-731 | an offset link parses to the same filters, sorts, includes, totals and size on the page it names |
| Links.CursorLinkParses | app/jsonapi/query.py:719-758 | a cursor link parses to the same request at the position its cursor decodes to |
| Links.LastInRange | app/jsonapi/query.py:104-112 | with at most 2^53 rows the last page respects the offset bound |
| Links.OffsetLinksParse | app/jsonapi/query.py:712-744 | all five offset links of an accepted request are there when they should be and parse back to the intended pages |
| LinkWalk.LinkContinues | app/controllers/concerns/crud_actions.py:200-213 | `next` and `prev` of a page asked for in either direction are there exactly when the listing has a position for them, and parse to the same request at it |
| LinkWalk.StillWalking | app/jsonapi/query.py:746-758 | each followed request again meets the hypotheses of the walk, with strictly less left |
| LinkWalk.LinksWalkTheCollection | app/controllers/concerns/crud_actions.py:159-214 | a client that only follows links, from either end, reads the whole filtered collection in order, every resource once |
| LinkWalk.CursorPageLinksParse | app/jsonapi/query.py:746-758 | all five links of a page in cursor mode, in either direction, parse back, with no assumption on the cursors they carry |
| LinkWalk.TurningReturns | app/jsonapi/query.py:746-758 | without copies, from any page, following `next` and `prev`, or `prev` and `next`, leads to a request with the same rows, unless the first link goes against its page's direction from a position in front of every row the filters leave; exactly these links lead to an empty page |
| LinkWalk.NumberedLinksParse | app/jsonapi/query.py:733-744 | on every accepted numbered page, whatever it is sorted by, `next` is there if and only if rows remain, and all links parse back |
| ExampleWalk.ExamplesWalk | app/schemas/example.py:123-159 | the examples endpoint meets every hypothesis: its links walk its collection, whatever sort and filters are asked for |
| Tokens.ExpiryMatchesToken | app/auth/refresh_sessions.py:56-76 | the stored expiry is the token's `exp` to the microsecond |
| Tokens.IssuedTokenLives | app/auth/tokens.py:54-105 | an issued refresh token is valid exactly until its expiry plus the leeway, expired from then on, and never an access token |
| Tokens.SecondAttemptSucceeds | app/auth/refresh_sessions.py:170-185 | the second decoding attempt never fails, so a token is refused at once or its claims and expiry are known |
| SessionAnswers.RotateAnswers | app/auth/refresh_sessions.py:89-167 | the whole table of answers, each if and only if: a pair is issued when the token's row is there with this hash, neither expired nor revoked, and its user active; otherwise INVALID_TOKEN, TOKEN_EXPIRED, TOKEN_REVOKED or USER_INACTIVE |
| SessionAnswers.RotateWrites | app/auth/refresh_sessions.py:89-120 | and what each answer leaves in the tables: nothing, the row revoked, all of the user's rows revoked, or the row replaced by a new one with the returned token and its expiry |
| SessionAnswers.LoginAnswers | app/controllers/api/v1/auth_controller.py:131-144 | a login answers unknown users, inactive users and active users apart, and adds one row for the last only |
| SessionAnswers.LogoutAnswers | app/auth/refresh_sessions.py:123-136 | a logout answers unknown tokens, expired tokens and the others apart; it revokes the row it knows and nothing else |
| SessionAnswers.OthersWrite | app/jobs/refresh_sessions.py:72-86 | deactivation changes the user alone; a purge removes the chosen rows and the links to them alone |
| SessionAnswers.RowsAreRetained | app/jobs/refresh_sessions.py:35-52 | in any run a row stays unless a purge takes it after its expiry and the retention on top |
| SessionAnswers.LoginTokenRotates | app/auth/refresh_sessions.py:89-120 | in any run a login's token rotates until it expires, as long as it was not presented, no reuse was detected and its user not deactivated |
| SessionAnswers.RelaySucceeds | app/auth/refresh_sessions.py:112-120 | a client that always presents its latest token in time is never refused |
| SessionAnswers.DeactivatedGetNothing | app/controllers/api/v1/auth_controller.py:131-186 | in any run, from a deactivation until the next activation, no login and no rotation issues anything for the user |
| Sessions.StepInv | app/auth/refresh_sessions.py:49-167 | login, rotate, logout, deactivation and purge keep ownership, the link structure and one open session per login |
| Sessions.RunInv | app/auth/refresh_sessions.py:71-136 | runs from any state with that invariant keep it |
| Sessions.ReachableInv | app/auth/refresh_sessions.py:71-136 | every state reachable from empty tables satisfies it |
| Sessions.DeleteInv | app/models/refresh_session.py:43-49 | deleting any sessions with SET NULL leaves no dangling link and keeps the invariant |
| SessionRuns.RunKeeps | app/auth/refresh_sessions.py:101-136 | `revoked_at` is written once, links are kept until their target is purged, and removed rows never return |
| SessionRuns.SpentForever | app/auth/refresh_sessions.py:101-120 | a token whose session is revoked or gone never rotates again in any continuation |
| SessionRuns.AnsweredNeverRotates | app/auth/refresh_sessions.py:89-167 | in any run a token answered with anything but INVALID_TOKEN, by a rotation or a logout, never rotates afterwards |
| SessionRuns.PresentingSpends | app/auth/refresh_sessions.py:101-165 | success, expiry, reuse, an inactive user and logout all leave the presented session revoked |
| SessionRuns.RotatesAtMostOnce | app/auth/refresh_sessions.py:112-120 | in any run a token rotates successfully at most once |
| SessionRuns.ReuseIsPermanent | app/auth/refresh_sessions.py:101-110 | after TOKEN_REVOKED the user has no open session, no earlier token rotates again, and every later open session descends from a later login |
| SessionRuns.ChainsAscend | app/auth/refresh_sessions.py:112-120 | links lead to later issuances of the same login and user, so chains are acyclic and only their end can be open |
| SessionRuns.ChainsDisjoint | app/models/refresh_session.py:43-49 | two sessions that lead to the same one lie on the same chain |
| SessionRuns.OpenBoundedByLogins | app/auth/refresh_sessions.py:112-120 | a user never has more open sessions than logins |
| SessionAnswers.OpenBoundedByRun | app/auth/refresh_sessions.py:112-120 | in any run from empty tables a user never has more open sessions than logins that were granted |
| SessionRuns.EarlyExpiryAgrees | app/auth/refresh_sessions.py:146-165 | the expiry test before the lock never disagrees with the one on the locked row |
| SessionRuns.OthersUntouched | app/auth/refresh_sessions.py:101-110 | a request changes and adds rows of the locked user only |
| PurgeInvisible.VerifyMatches | app/auth/refresh_sessions.py:154-165 | if the removed rows of a token had expired by its check, the purged table recognises the same tokens, except that what it lacks the full table calls expired |
| PurgeInvisible.RunMatches | app/jobs/refresh_sessions.py:72-86 | simulation: runs on both tables stay matched and answer alike |
| PurgeInvisible.PurgeChangesNoAnswer | app/jobs/refresh_sessions.py:35-52 | purge batches anywhere in a run change no answer, except TOKEN_EXPIRED into INVALID_TOKEN |
| RefreshStore.Store.constructor | app/models/refresh_session.py:25-49 | an empty store satisfies the invariant |
| RefreshStore.Store.IssueTokenPairForLockedUser | app/auth/refresh_sessions.py:49-86 | the staged row's digest belongs to the returned token; nothing else changes |
| RefreshStore.Store.LoadVerifiedRefreshSession | app/auth/refresh_sessions.py:139-167 | refuses, or revokes and reports expiry, or returns the session, exactly as the verification step says |
| RefreshStore.Store.RotateRefreshSession | app/auth/refresh_sessions.py:89-120 | the statements perform the atomic rotation, whole tables and answer, for which `SessionAnswers.RotateAnswers` and `RotateWrites` hold |
| RefreshStore.Store.LogoutRefreshSession | app/auth/refresh_sessions.py:123-136 | the statements perform the atomic logout step |
| RefreshStore.Store.Login | app/controllers/api/v1/auth_controller.py:131-144 | credentials on an unlocked read, then lock and second read: whatever committed in between, it is the atomic login on the tables under the lock, or a refusal that changes nothing |
| Locks.StageIsStep | app/auth/refresh_sessions.py:89-136 | what a transaction stages from its locked reads is, once applied, the atomic step on the committed tables |
| Locks.MicroOk | app/auth/refresh_sessions.py:204-209 | every statement of every transaction, and every purge batch, keeps the lock-level invariant |
| Locks.EveryExecutionIsSerial | app/controllers/api/v1/auth_controller.py:131-186 | any interleaving leaves the tables and answers of running the committed requests one at a time, each request answered as its own event |
| LockOrder.OneEventPerRequest | app/auth/refresh_sessions.py:89-136 | finished requests and logged events other than purges correspond one to one, each request with its own event |
| LockOrder.LockOrderIsSerialOrder | app/auth/refresh_sessions.py:204-209 | requests for one user take effect in the order in which they were granted the user's lock |
| LockOrder.SerialOrderIsRealTime | app/controllers/api/v1/auth_controller.py:131-186 | a request that begins after another has finished comes after it in the serial order |
| LockProgress.OnlyLocksAreWaitedFor | app/auth/refresh_sessions.py:204-209 | in every execution a request that has begun can go on, if and only if it does not wait for a user lock that another holds, and that one can go on: no deadlock |
| LockProgress.EverythingCanFinish | app/auth/refresh_sessions.py:89-136 | no execution is a dead end: it can be continued until every request that has begun is answered |
| LockProgress.PurgeWaitsForUsersOnly | app/jobs/refresh_sessions.py:35-52 | at any moment a purge can take any rows past the retention whose users nobody has locked |
| LockedPurges.PurgesChangeNoAnswer | app/jobs/refresh_sessions.py:72-86 | with purge batches between any statements of concurrent requests, the same requests without purges answer alike, except TOKEN_EXPIRED for INVALID_TOKEN, and the tables differ only by rows past retention |
| IncludeTree.BuildIncludeTree | app/serializers/base.py:75-87 | fails if and only if some segment is blank, else returns the tree of all paths |
| IncludeTree.TreeIsPrefixClosure | app/serializers/base.py:75-87 | the tree's nodes are exactly the prefixes of the requested paths, with unique keys |
| DocumentContents.TreeKeepsOrder | app/serializers/base.py:75-87 | at every node the tree lists the names the paths ask for there, in the order of first request |
| Serializer.Context.SerializeResource | app/serializers/base.py:314-344 | the pruned walk registers exactly what the unpruned walk would, in the same order; `DocumentContents` says what that is |
| Serializer.Context.VisitRelated | app/serializers/base.py:331-343 | skipping a visited (type, id, branch) loses nothing |
| Serializer.Document | app/serializers/base.py:122-164 | `included` is the unpruned walk without primary resources, first occurrences only, for any cyclic graph |
| DocumentContents.IncludedIsAsked | app/serializers/base.py:122-164 | a resource is included if and only if it is not primary and some node of the include tree leads to it from a primary resource |
| DocumentContents.DocumentIsDepthFirst | app/serializers/base.py:328-343 | the included resources come in the order in which a depth-first traversal of the include paths first meets them |
| Serializer.CompoundRules | app/serializers/base.py:144-164 | the "Compound Documents" rules of JSON:API 1.1: unique, not primary, and each reached from a primary resource by a chain of links whose every resource is in the document |
| LoaderPlan.Collector.Collect | app/serializers/base.py:254-276 | the collector appends exactly the plan of the subtree; its duplicate check never fires |
| LoaderPlan.Collector.CollectOwn | app/serializers/base.py:263-267 | own relationships first, in declaration order, flagged when requested |
| LoaderPlan.Collector.CollectChildren | app/serializers/base.py:269-276 | the children's plans follow, in tree order |
| Loading.PlanIsExact | app/serializers/base.py:254-276 | a path is planned if and only if it is a declared relationship of a node of the include tree, and flagged if and only if it is a node itself |
| Loading.PlanHasNoDuplicates | app/serializers/base.py:263-276 | no path is planned twice |
| Loading.PlanStartsWithOwn | app/serializers/base.py:254-276 | a plan starts with the type's own relationships in declaration order, and whatever follows lies deeper |
| Loading.MetReadsTrueLinkage | app/serializers/base.py:347-379 | a serialized resource never meets an unloaded relationship, and shortcut or not its linkage is the rows' |
| Loading.LinkageListsRelated | app/serializers/base.py:347-379 | that linkage lists all related resources in order for a to-many, and names the related resource, if any, for a to-one |
| Loading.WalkLoaded | app/serializers/base.py:201-243 | the walk over what a plan loaded is the walk over the rows |
| Loading.PlansAgree | app/serializers/base.py:200-243 | full and linkage-only plans both include what the rows define, in the same order |
| Loading.LinkageAgrees | app/serializers/base.py:435-467 | and every resource of the document has its columns and all its linkage under both |
| Upsert.Transaction.Begin | app/controllers/concerns/upsert_executor.py:69-90 | defaults or loaded row, reset of the omitted writable relationships, provided values on top |
| Upsert.Transaction.MaterializeCreated | app/controllers/concerns/upsert_executor.py:183-222 | every relationship of a created model has a committed value, empty under a carried one |
| Upsert.Transaction.Flush | app/controllers/concerns/upsert_executor.py:149-150 | every relationship that differs from its committed value is written, no other |
| Upsert.Transaction.Finish | app/controllers/concerns/upsert_executor.py:107-157 | in the replace, inserted and conflict-updated branches alike the response, with the order of every linkage, and the row are the specified ones, which `UpsertRuns.PutCommits` spells out |
| UpsertRuns.PutCommits | app/controllers/concerns/upsert_executor.py:104-157 | in every schedule, for every column and relationship, which value is committed: the request's, the new `updated_at` of a row that was met, what was met, or the default; and the response keeps the request's order |
| UpsertRuns.PutTellsTheTruth | app/controllers/concerns/upsert_executor.py:130-157 | in every schedule of rivals the response lists exactly what the committed row refers to, each once, if and only if it did not insert a null over a column default; the status tells what the check saw |
| UpsertRuns.PutReplacesFully | app/controllers/concerns/upsert_executor.py:130-147 | in every schedule the row is fully replaced, if and only if no rival won the insert with an omitted writable relationship set and no default survived a null |
| UpsertRuns.RaceKeepsRivalLinks | app/controllers/concerns/upsert_executor.py:130-138 | a two-event schedule in which 201 is answered and the rival's relationship stays |
| UpsertRuns.NullKeepsTheDefault | app/controllers/concerns/upsert_executor.py:199-204 | a creation that reports null and commits the column default |
| UpsertRuns.StepInv | app/controllers/concerns/relationship_resolver.py:141-166 | inserts, deletions, updates, queued relationship mutations and both halves of a PUT keep what the locks promise |
| UpsertRuns.RivalsDo | app/controllers/concerns/relationship_resolver.py:141-166 | what each transaction of a rival changes, column by column and relationship by relationship, and what it leaves alone |
| UpsertRuns.ResolveLinkage | app/controllers/concerns/relationship_resolver.py:264-310 | identifiers resolve, in order, if and only if all have the right type, none repeats and all rows exist; otherwise the error is that of the first wrong identifier, and a missing row is reported only when none is wrong |
| EmailIdentity.Database.Inspect | db/migrations/versions/20260911_0005_normalize_email_identities.py:28-42 | rejects if and only if an address is invalid or two collide; else records exactly the non-canonical rows |
| EmailIdentity.Database.NormalizeIdentities | db/migrations/versions/20260911_0005_normalize_email_identities.py:26-50 | aborts with no change, or makes every address canonical and backs up the changed ones, no single UPDATE meeting the UNIQUE constraint |
| EmailIdentity.Database.RestoreIdentities | db/migrations/versions/20260911_0005_normalize_email_identities.py:53-73 | aborts with no change if and only if targets collide, else restores, again without ever meeting UNIQUE |
| EmailIdentity.NormalNeverClashes | db/migrations/versions/20260911_0005_normalize_email_identities.py:48-50 | no row, rewritten or not, holds the canonical address about to be written |
| EmailIdentity.RestoredNeverClashes | db/migrations/versions/20260911_0005_normalize_email_identities.py:70-72 | no row, restored or not, holds the original address about to be written back |
| EmailIdentity.NormalizedIsCanonical | db/migrations/versions/20260911_0005_normalize_email_identities.py:31-42 | after an upgrade all addresses are canonical and distinct |
| EmailIdentity.UpgradeIs | db/migrations/versions/20260911_0005_normalize_email_identities.py:28-50 | an upgrade gives every user the canonical form of the own address and keeps the original of exactly those that differ |
| EmailIdentity.RestoredAfterEdits | db/migrations/versions/20260911_0005_normalize_email_identities.py:65-73 | after any edits, inserts and deletions exactly the still-canonical changed users get their original back and no user returns |
| EmailIdentity.RoundTrip | db/migrations/versions/20260911_0005_normalize_email_identities.py:18-23 | a downgrade right after an upgrade never aborts and is the identity |
| EmailIdentity.RollbackAborts | db/migrations/versions/20260911_0005_normalize_email_identities.py:64-69 | a rollback aborts if and only if somebody took an original address that is to be restored |
| Quoting.SplitQuoted | app/jsonapi/negotiation.py:17-45 | fails if and only if the scan ends inside quotes, else returns the parts |
| Quoting.JoinSplit | app/jsonapi/negotiation.py:17-45 | joining the parts gives the input back |
| Quoting.PartsAreSound | app/jsonapi/negotiation.py:23-40 | parts are quote-balanced and hold no delimiter outside quotes |
| Quoting.SplitJoin | app/jsonapi/negotiation.py:17-45 | splitting any join of such parts gives the parts back |
| Quoting.InnerSplitSucceeds | app/jsonapi/localization.py:36-45 | a part of a split list can always be split again at another delimiter |
| Quoting.UnquoteParameter | app/jsonapi/negotiation.py:48-68 | the loop unquotes, or refuses bare text that is no token and broken quoting |
| Quoting.UnquoteQuote | app/jsonapi/negotiation.py:48-68 | escaping, quoting and unquoting is the identity on every string (section 5.6.4 of RFC 9110) |
| Quoting.UnquotedIs | app/jsonapi/negotiation.py:48-68 | a value unquotes to a text if and only if it is that text and a token, or a quoted spelling of it |
| Quoting.TokenIs | app/jsonapi/negotiation.py:14 | the token pattern is the one of section 5.6.2 of RFC 9110: printable ASCII but for the delimiters |
| Quoting.UnquotedIsSound | app/jsonapi/negotiation.py:48-92 | whatever unquotes is balanced and never disturbs a split around it |
| HeaderParameters.ParseParameterizedValue | app/jsonapi/negotiation.py:71-92 | the loop returns token and parameters, or refuses on the first broken or repeated one |
| HeaderParameters.ParameterIs | app/jsonapi/negotiation.py:81-91 | a parameter is accepted if and only if it is written as blanks, a name whose folded form is a token, an equals sign and a value that unquotes |
| HeaderParameters.ParsedIs | app/jsonapi/negotiation.py:71-92 | a header value is accepted if and only if it is composed of a nonempty token and such parameters, between semicolons outside quotes, no two with one name |
| HeaderParameters.ParsesRendered | app/jsonapi/negotiation.py:81-91 | a rendered parameter with any leading blanks parses to its folded name and raw value |
| HeaderParameters.RenderedParses | app/jsonapi/negotiation.py:71-92 | a rendered list of parameters with distinct names parses back to exactly those parameters |
| PurgeJob.SizeIs | app/jobs/refresh_sessions.py:54-69 | a batch size is accepted if and only if it is an int, or a float equal to one, between 1 and 2^53-1, and as that number; never a bool |
| PurgeJob.Job.DeleteBatch | app/jobs/refresh_sessions.py:73-102 | a batch removes at most its size, oldest first among unlocked eligible rows |
| PurgeJob.Job.Round | app/jobs/refresh_sessions.py:72-106 | sessions arrive and a batch goes: the counters stay the number of rows gone and the oldest-first guarantee holds over every row there has been |
| PurgeJob.Job.Purge | app/jobs/refresh_sessions.py:35-122 | refuses exactly the sizes that denote no number; counts what is gone; only eligible rows go, never one newer than an eligible row left unless that was locked; after an abort the earlier batches stay; uncontended, with E eligible rows and batch size b, it deletes min(E, 10000 b) rows in min(10000, E div b + 1) batches, whatever is issued meanwhile |
| PurgeJob.PurgedNext | app/jobs/refresh_sessions.py:73-86 | one more batch keeps the oldest-first guarantee under skipped locks |
| PurgeJob.LastBatch | app/jobs/refresh_sessions.py:88-106 | a batch that is not full ends the job with exactly the closed-form counts |
| Retries.Message.AfterProcessMessage | config/retries.py:22-64 | each outcome fails the message or re-enqueues it once, with the counter, notification and delay of its branch |
| Retries.Message.Exhaust | config/retries.py:42-64 | a message that always fails is re-enqueued exactly max_retries times and then fails |
| Retries.DelayInWindow | config/retries.py:60-62 | retry n waits within [15 * 2^(n-1), 15 * 2^(n-1) + 10n - 1] seconds up to the sixteenth and exactly seven days after |
| Retries.DelayIsCapped | config/retries.py:60-62 | with any base and cap the delay lies in its window cut off at the cap |
| Retries.WindowsAscend | config/retries.py:18-20 | successive uncapped windows are disjoint and ascending for all n if and only if the base is above 9.5 seconds |
| Retries.TotalWait | config/retries.py:42-64 | the total wait of n retries lies between the closed-form least and most totals |

## Left out

- Index.List: takes the filtered rows as given; how filters select rows is an arbitrary function of the parsed
  clauses (`LinkWalk.Scope`), and the document around the rows is the serializer's part.
- QueryParams.ParseQuery: the value parser of each filter field is arbitrary, and URL encoding is taken as given.
- CursorCodec.ValueReads: floats, decimals, UUIDs, dates and timestamps count as their printed text, with printer and
  parser taken to be inverse.
- Tokens.SecondAttemptSucceeds: fractional NumericDate claims, the JWT signature, and the access token of a pair are not
  modelled.
- RefreshStore.Store.Login: the password check is a parameter; its outcome does not depend on sessions.
- Locks.EveryExecutionIsSerial: a purge batch is one step, so nothing waits for it and no lock times out; users are
  never deleted, which would cascade to sessions.
- Serializer.Document: says which resources appear and where; their attributes and links are not modelled.
- IncludeTree.BuildIncludeTree: builds the tree as a value where the source updates nested dicts in place.
- Upsert.Transaction.Finish: rows keep a relationship as a set, wherever its foreign key is stored; writes from the
  reverse side of an association and foreign keys among the attribute columns are not modelled.
- UpsertRuns.ResolveLinkage: identifiers are already coerced, and the linkage has the shape its cardinality asks for.
- EmailIdentity.Database.NormalizeIdentities: varchar lengths are not modelled.
- HeaderParameters.ParseParameterizedValue: what Accept and language resolution do with a parsed header is not modelled.
- Request routing, OpenAPI, exception handlers, settings, schemas, seeds and index-only migrations: plumbing.
- SQLAlchemy itself: objects are rows with a committed and a current value per relationship, loaded attributes are
  those the loader options name; identity map, autoflush and pending backref mutations are not modelled.
- Subclass hooks are the default no-ops; `index_scope` is a bag of rows.
- Argon2, SHA-256 and the advisory-lock digest.
