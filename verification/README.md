# Verified model of the SaaS SDK's trust-critical core

A Dafny 4.11 model of five parts of the Python SDK and proofs about them, for all inputs and all runs.

- **Key discovery** (`JwksHistory`, `JwksCache`, `JwksThreads`, `JwksArrivals`, `JwksGuarantees`, `Jwks`,
  `Verifiers`). The rotation-aware verifier keeps a key set behind a lock. `JwksCache.JwksVerifier` is that object,
  field by field; each method is one critical section. A ghost history, one entry per fetch, is what its `Valid()`
  ties every field to, and `JwksHistory` says what a critical section does in terms of the history alone.
  `JwksThreads` is the state machine of any number of threads that run these sections in any interleaving, with the
  lock released between the two sections of a call and while it judges. `JwksArrivals` shows that the history at the
  moment a call arrives decides what becomes of it, and `JwksGuarantees` holds what every run guarantees: the budget
  of fetches forced by unknown key ids, the fetch rate, freshness and revocation, agreement with the fixed verifier,
  failing closed.
- **Delegated authority** (`Text`, `Scopes`, `WorkContexts`). Structural validation of scopes and claims, scope
  attenuation, the actor chain and the authorization search. Attenuation is proved to be exactly containment of what
  two scope tuples grant, and a partial order on validated tuples.
- **Token codec** (`Base64Url`, `Uint64`). Canonical unpadded base64url over CPython's lenient decoder (it skips
  characters outside the alphabet and reads both alphabets), the re-encode check that makes it strict, and the
  two-segment token.
- **Effects** (`EffectIds`, `ErrorDetails`, `Outcomes`, `Datasource`). UUIDv7 minting on Python's shift and bit
  operators, the check every effect ID passes, and the classification of every gateway reaction into what `invoke` and
  `lookup` tell their caller.
- **Descriptor sets** (`Descriptors`). The in-place program that strips and renames descriptor files, and what its
  output is: a closed, ordered, uniquely named set with the dependency graph of the kept files.

`Wrappers`, `JsonValues` and `Arithmetic` hold shared types and division lemmas. `dafny verify dfyconfig.toml` checks
everything.

## How the model is stated

- Code that loops or updates state is a `method` or a `class`; its `ensures` equates the result or the new state with a
  specification function or predicate, and the lemmas are about that specification.
- What the specification functions compute is itself fixed by lemmas, most of them named `...Exactly`, that speak of
  bytes, literal texts, literal limits and the fields of wire values.
- Ed25519 and the protobuf payload are the two functions of `Verifiers.Primitives`; base64, protobuf, timestamp and JSON
  parsing of replies are the functions of `ErrorDetails.Runtime`. Every theorem holds for all such functions, so none
  of them assumes anything about cryptography or about what a text parses to. The base64, protobuf and timestamp readers
  answer or fail in a class their callers catch; reading an output has a third answer, an exception that its callers do
  not catch (deeply nested text raises `RecursionError`).
- Clock readings and fetch replies are parameters. Readings taken under the lock may repeat but never go back; the
  reading a call judges with is taken without the lock and is unconstrained.
- A refused call is a value: `Failure`, `None`, or a constructor that names the refusal. Messages are kept only where
  the code branches on them or passes the host's on.

## Where the code and its documentation differ

The model follows the code.

- `work_context.py:15-20` describes a JSON payload. The code reads a protobuf message that must be its own canonical
  encoding, and refuses JSON (`work_context.py:570-601`). `parsePayload` stands for that function.
- `work_context.py:338-340` promises exactly one refresh per cache generation for an unknown key. The code makes at
  most one (`OneUnknownKeyFetchPerGeneration`), and none in a generation that such a refresh itself installed
  (`work_context.py:428-430`): `UnrefreshedGeneration` is a run, `RenewFetchesExactly` the exact condition.
- `work_context.py:30-33` promises monotonic scope attenuation. That is true of plain requirements (`NoHopWidens`) and
  false of requirements with `require_explicit_resource`: a child may narrow a wildcard to an ID its parent never
  listed (`NarrowedWildcardGainsExplicitGrant`). `ExplicitAuthorityAlongChain` gives the exact condition.
- Lines 159-160 of the SDK's `README.md` say every dispatched invocation failure retains the effect ID and receipt. Two
  kinds do not. An exception of the gateway's own class that already carries an `effect_id` is left as it is
  (`OtherEffectLosesIdentity`). And `_operation_result` catches four classes of exception (`datasource.py:474`), outside
  the handler that attaches the ID, so an output text on which the JSON reader raises another class loses both
  (`EscapingOutputLosesIdentity`). `IdentityKeptExactly` says exactly when identity is kept.
- `scripts/strip_options.py:13-18` assumes that renamed files keep apart. `CollidingTargets` is a set on which they do
  not, `SharedBaseNameCollides` the family, and `RenamingExactly` the exact condition on base names.

## Model

| member | source | states |
|---|---|---|
| JwksGuarantees.UnknownKeyFetchBudget | src/saas_sdk/work_context.py:420-431 | In every run of any number of threads, fetches forced by unknown key ids never outnumber the successful scheduled and explicit ones |
| JwksGuarantees.BudgetOfHistory | src/saas_sdk/work_context.py:389-431 | The inductive form: while a refresh for an unknown key is still available, one more success than unknown-key fetches is on record |
| JwksGuarantees.OneUnknownKeyFetchPerGeneration | src/saas_sdk/work_context.py:422-430 | Between two fetches for unknown keys the generation has moved past both what the first one saw and what it left |
| JwksGuarantees.RenewFetchesExactly | src/saas_sdk/work_context.py:420-431 | In every reachable state, a call renewing for its unknown key fetches if and only if the generation is the one it observed and no unknown-key fetch left the cache in it |
| JwksGuarantees.RenewServes | src/saas_sdk/work_context.py:422-425 | In every reachable state, a renewing call that does not fetch is judged with exactly the keys held |
| JwksGuarantees.RenewFetches | src/saas_sdk/work_context.py:426-431 | And one that fetches ends with the error of a failed fetch, even while keys are held, or is judged with exactly what it fetched |
| JwksGuarantees.UnrefreshedGeneration | src/saas_sdk/work_context.py:428-430 | A run in which a call observes generation 2, finds its key unknown and makes no fetch, because an unknown-key fetch installed that generation |
| JwksGuarantees.ScheduledFetchesAreSpaced | src/saas_sdk/work_context.py:408-418 | A scheduled fetch starts at least the shorter of TTL and backoff after every earlier fetch of any kind ended, in every run |
| JwksGuarantees.FetchRateBound | src/saas_sdk/work_context.py:406-452 | Within k quiet periods of construction there are at most k scheduled fetches and at most 2 k in all beside two per explicit refresh |
| JwksGuarantees.JudgedWithFreshKeys | src/saas_sdk/work_context.py:396-404 | Every judged call was judged exactly as the fixed verifier over one fetched key set and the configured skew judges, a set installed less than the TTL before the call's first clock reading and no older than the one it observed |
| JwksGuarantees.RevokedKeyDiesWithinTtl | src/saas_sdk/work_context.py:446-452 | Once no fetch after time r brings a key, every call starting a TTL later that is judged answers unknown key for tokens naming it |
| JwksGuarantees.KeptKeyStaysKnown | src/saas_sdk/work_context.py:446-452 | Once every fetch after time r brings a key, no call starting a TTL later is told that it is unknown |
| JwksGuarantees.UnknownOnlyAfterRefresh | src/saas_sdk/work_context.py:399-404 | A key is called unknown only by keys newer than those the call observed, or after the unknown-key refresh was spent on them |
| JwksGuarantees.SteadyKeysRefineVerifier | src/saas_sdk/work_context.py:396-404 | While every fetch brings the same keys, every verdict in every run is the verdict of the fixed verifier over them, and none is unavailability |
| JwksArrivals.EveryCallIsExplained | src/saas_sdk/work_context.py:396-452 | In every run, every pending call and every verdict has a moment of arrival among the fetches, and the history there decides it: fresh keys with its key serve it, an expired cache in backoff refuses it with the last error, otherwise its own scheduled fetch answers it, and a refusal has no other cause than that backoff or a fetch that failed since |
| JwksGuarantees.ArrivalIsUnique | src/saas_sdk/work_context.py:407-408 | That moment is unique except around a fetch that took no time at the call's very first reading |
| JwksGuarantees.HeldKeysServeUntilExpiry | src/saas_sdk/work_context.py:409-410 | In every run, through any number of failed fetches of any kind, a call that arrives before the keys expire and names one of them is judged by exactly those keys |
| JwksGuarantees.FailuresReplaceNothing | src/saas_sdk/work_context.py:440-445 | However many fetches fail in a row, generation, key set and freshness at every time stay as they were before them |
| JwksGuarantees.BackoffServesTheFailure | src/saas_sdk/work_context.py:411-414 | In every run, every call that arrives at an expired cache within the backoff of the last fetch ends with that fetch's error and no keys |
| JwksGuarantees.FetchesAreDue | src/saas_sdk/work_context.py:406-431 | In every run, no scheduled fetch starts while keys are fresh or a failure is served, and none for an unknown key without keys or with its refresh spent |
| JwksGuarantees.BeginRejects | src/saas_sdk/work_context.py:399 | A call whose token names no key ends at once and touches nothing |
| JwksGuarantees.BeginServes | src/saas_sdk/work_context.py:406-414 | Without a fetch a call goes on with exactly the fresh keys, renewing only if they lack its key, or ends with the error of the last fetch for five seconds |
| JwksGuarantees.BeginFetches | src/saas_sdk/work_context.py:415-418 | Otherwise its own fetch decides in the same way |
| JwksGuarantees.FreshExactly | src/saas_sdk/work_context.py:409 | Keys are fresh while less than a TTL has passed since the reading after the last successful fetch |
| JwksGuarantees.UnavailableOnlyAfterFailure | src/saas_sdk/work_context.py:433-445 | In every run, a call is refused for want of keys only if it found no fresh keys with its own, and with the error of the failure then served or of a scheduled or unknown-key fetch that failed since |
| JwksGuarantees.AloneIsARun | src/saas_sdk/work_context.py:396-404 | A call nobody interferes with, as the class method makes it, is the run of the machine with its two sections and its judgement |
| JwksGuarantees.SectionsAreARun | src/saas_sdk/work_context.py:396-404 | The two critical sections taken back to back reach the machine state that the sequential call describes |
| JwksThreads.EveryRunKeepsInv | src/saas_sdk/work_context.py:396-452 | The invariant of the whole machine (lawful history, what every waiting or judging thread knows, what every verdict means) holds in every reachable state |
| JwksThreads.StepKeepsInv | src/saas_sdk/work_context.py:396-452 | Every step of every thread keeps that invariant |
| JwksThreads.InstallsInOrder | src/saas_sdk/work_context.py:446-452 | Later generations were installed no earlier |
| JwksHistory.SpentStep | src/saas_sdk/work_context.py:389-431 | A fetch spends the unknown-key refresh exactly if it was made for an unknown key, or failed while the refresh was spent |
| JwksHistory.OutcomeExactly | src/saas_sdk/work_context.py:433-439 | A fetch installs exactly the keys the reply brings, under the skew of the cache, if and only if they are fit for a verifier: nonempty, 32 bytes each, ids of 1 to 128 bytes |
| JwksThreads.RepliesAreValid | src/saas_sdk/work_context.py:433-452 | Whatever the endpoint replies, what comes of it is an outcome the machine admits |
| JwksThreads.ValidOutcomeExactly | src/saas_sdk/work_context.py:433-452 | And the machine admits no other successful outcome |
| JwksCache.JwksVerifier.constructor | src/saas_sdk/work_context.py:371-387 | A new cache is valid with an empty history |
| JwksCache.JwksVerifier.New | src/saas_sdk/work_context.py:342-387 | Construction succeeds exactly for an HTTP(S) endpoint with a host and without credentials, query or fragment, and TTL, timeout and skew in range |
| JwksCache.JwksVerifier.RefreshLocked | src/saas_sdk/work_context.py:433-452 | One fetch succeeds exactly on fit keys, then holds exactly them under its own skew until a TTL later; a failure touches only the backoff fields, for five seconds; the history grows by that fetch |
| JwksCache.JwksVerifier.Build | src/saas_sdk/work_context.py:434-439 | A verifier is built exactly from fit keys, with these keys and the skew of the object |
| JwksCache.FirstCallServes | src/saas_sdk/work_context.py:396-404 | A call on an empty cache whose first fetch brings its key goes on to be judged with exactly what was fetched |
| JwksCache.JwksVerifier.Refresh | src/saas_sdk/work_context.py:389-394 | The explicit refresh extends the history by one explicit fetch and restores the unknown-key refresh only on success |
| JwksCache.JwksVerifier.Current | src/saas_sdk/work_context.py:406-418 | Fields and answer refine the history's account: fresh keys, else a recent failure (whose error is then always present), else a fetch |
| JwksCache.JwksVerifier.RefreshUnknown | src/saas_sdk/work_context.py:420-431 | Fields and answer refine the history's account of the unknown-key refresh |
| JwksCache.JwksVerifier.Verify | src/saas_sdk/work_context.py:396-404 | The whole call is its two sections followed by the fixed verifier's judgement; on a new object whose first fetch brings the key it answers as the fixed verifier over the fetched keys and its own skew; a malformed token changes nothing |
| Jwks.ParseJwks | src/saas_sdk/work_context.py:478-513 | Parsing succeeds exactly on 1 to 64 well-formed keys with distinct ids, and the map holds exactly their entries |
| Jwks.WellFormedKeySetExactly | src/saas_sdk/work_context.py:484-511 | The lists accepted: 1 to 64 parsable keys with pairwise distinct ids |
| Jwks.ParsedKeyExactly | src/saas_sdk/work_context.py:490-509 | Which elements are keys, member by member, and with which id and bytes |
| Jwks.PublishedParses | src/saas_sdk/work_context.py:490-512 | Parsing the published form of a key gives the key back |
| Jwks.OneEntryPerKey | src/saas_sdk/work_context.py:488-513 | The map has as many entries as the list has keys |
| Jwks.DistinctIffCounted | src/saas_sdk/work_context.py:510-512 | Ids are pairwise distinct exactly when there are as many of them as keys |
| Jwks.ParsedKeySetBuilds | src/saas_sdk/work_context.py:436-437 | Every parsed key set passes the verifier's constructor under every admitted skew |
| Jwks.AcceptanceIgnoresOrder | src/saas_sdk/work_context.py:489-513 | Listing the keys in another order does not change acceptance |
| Jwks.MapIgnoresOrder | src/saas_sdk/work_context.py:489-513 | Nor does it change the map |
| Verifiers.NewVerifier | src/saas_sdk/work_context.py:254-276 | The constructor accepts exactly nonempty maps of 32-byte keys with bounded ids and a skew of at most a minute |
| Verifiers.BuildableExactly | src/saas_sdk/work_context.py:262-273 | The limits of the constructor, on encoded ids and raw keys |
| Verifiers.VerifyToken | src/saas_sdk/work_context.py:278-305 | The checks run in the specified order and the first that fails names the refusal |
| Verifiers.JudgedExactly | src/saas_sdk/work_context.py:278-305 | A presented token is refused for the first reason that applies: unknown key, signature, claims, one of the three time bounds, one of the expected fields; otherwise it is accepted |
| Verifiers.MalformedExactly | src/saas_sdk/work_context.py:541-576 | Refusals before any key is looked at: text that is no token, and a payload that is no claims naming a key |
| Verifiers.AcceptedExactly | src/saas_sdk/work_context.py:278-305 | A token is accepted with claims c exactly when it is the one encoding of a payload of c and a 64-byte signature over that payload under the key c names, c is valid, the reading lies between not-before and expiry and not before issuance up to the skew, and no field the callee set contradicts c |
| Verifiers.OnlyNamedKeyMatters | src/saas_sdk/work_context.py:282-295 | Two verifiers that agree on the key a token names judge it alike |
| Verifiers.VerifiedNeverExceedsOwner | src/saas_sdk/work_context.py:199-205 | A verified context authorizes nothing its owner does not hold |
| Scopes.ValidateSortedUnique | src/saas_sdk/work_context.py:762-768 | Comparing neighbours accepts exactly strictly sorted, bounded, nonempty values |
| Scopes.ValidEntriesExactly | src/saas_sdk/work_context.py:762-779 | Accepted lists: every value within its bytes, each before the next where they first differ |
| Scopes.MixedCaseIsValid | src/saas_sdk/work_context.py:766 | Upper case comes before lower case: a list accepted and its reverse refused |
| Scopes.ValidateScopes | src/saas_sdk/work_context.py:704-720 | The loop accepts exactly the well-formed scope tuples |
| Scopes.ValidScopesExactly | src/saas_sdk/work_context.py:704-720 | Every limit of a scope tuple, on the bytes of its strings |
| Scopes.ScopesAttenuate | src/saas_sdk/work_context.py:723-739 | The dictionary search decides whether every child scope is covered by the last parent scope of its kind |
| Scopes.FindGrant | src/saas_sdk/work_context.py:321-330 | The search answers whether some scope of the tuple grants the requirement |
| Scopes.GrantsExactly | src/saas_sdk/work_context.py:321-327 | Which scope grants a requirement: its kind and action, and the wildcard or the listed ID |
| Scopes.AttenuationIsContainment | src/saas_sdk/work_context.py:723-739 | On validated tuples the attenuation check holds if and only if every plain requirement the child grants is granted by the parent |
| Scopes.AttenuationReflexive | src/saas_sdk/work_context.py:723-734 | Attenuation is reflexive on validated tuples |
| Scopes.AttenuationTransitive | src/saas_sdk/work_context.py:723-734 | Attenuation is transitive on validated tuples |
| Scopes.AttenuationAntisymmetric | src/saas_sdk/work_context.py:704-734 | Validated tuples that attenuate each other are the same sequence |
| Scopes.SameGrantsSameScopes | src/saas_sdk/work_context.py:704-734 | Validated tuples that grant the same plain requirements are the same sequence |
| Scopes.ExplicitMonotoneIffNoWildcardNarrowed | src/saas_sdk/work_context.py:729-733 | With explicit IDs demanded, an attenuating child grants no more than its parent if and only if it lists no IDs where the parent holds the wildcard |
| Scopes.NarrowedWildcardGainsExplicitGrant | src/saas_sdk/work_context.py:324-327 | A valid narrowing of a wildcard grants an explicit requirement its parent does not |
| Text.SortedIsCanonical | src/saas_sdk/work_context.py:762-768 | A strictly sorted sequence of strings is the only one with its members, in code-point order |
| Text.LessExactly | src/saas_sdk/work_context.py:766 | The order is that of code points at the first difference, a proper prefix being smaller |
| Text.Utf8IsShortestForm | src/saas_sdk/work_context.py:778 | Encoded bytes are the one well-formed sequence of the code point, section 3 of RFC 3629 |
| WorkContexts.ValidateFields | src/saas_sdk/work_context.py:651-686 | The field checks accept exactly the specified bounds, policies and times |
| WorkContexts.ValidFieldsExactly | src/saas_sdk/work_context.py:651-686 | Every field bound, policy and time relation, with its limit |
| WorkContexts.ValidateChain | src/saas_sdk/work_context.py:693-701 | The loop accepts exactly chains whose every hop is well formed and attenuates the hop before it |
| WorkContexts.ValidChainExactly | src/saas_sdk/work_context.py:694-701 | The bounds on each actor, and attenuation from the actor or owner before it |
| WorkContexts.ValidateWorkContext | src/saas_sdk/work_context.py:650-701 | Claims are accepted exactly when fields, teams, authority scopes and chain are valid |
| WorkContexts.ValidWorkContextExactly | src/saas_sdk/work_context.py:687-701 | Chain depth, team list, authority scopes and actors, with their limits |
| WorkContexts.EarlierHopAttenuates | src/saas_sdk/work_context.py:693-701 | In accepted claims every hop attenuates every earlier hop, for chains of any length |
| WorkContexts.NoHopWidens | src/saas_sdk/work_context.py:693-701 | Whatever a hop grants, every earlier hop grants |
| WorkContexts.ChainAcceptedIffMonotone | src/saas_sdk/work_context.py:693-701 | For well-formed hops, the neighbour checks accept exactly the chains on which what is granted only shrinks |
| WorkContexts.RequireScope | src/saas_sdk/work_context.py:308-330 | Malformed claims or requirements, denial and authorization are told apart exactly |
| WorkContexts.WellFormedExactly | src/saas_sdk/work_context.py:313-320 | The bounds on a requirement |
| WorkContexts.EffectiveExactly | src/saas_sdk/work_context.py:199-205 | The last actor's scopes, or the owner's without one |
| WorkContexts.AuthorizedIsHeldByEveryHop | src/saas_sdk/work_context.py:199-205 | What the effective scopes authorize, the owner and every actor hold |
| WorkContexts.ExplicitAuthorityAlongChain | src/saas_sdk/work_context.py:693-701 | Between any two hops explicit authority is monotone if and only if the later one narrows no wildcard of the earlier one |
| Base64Url.EncodedAt | src/saas_sdk/work_context.py:844-845 | Every character of an encoding is that of the published table for its six bits of its 24-bit group, sections 4 and 5 of RFC 4648 |
| Base64Url.CharIsInTable | src/saas_sdk/work_context.py:844-845 | The 64 characters are those of table 2 of section 5 of RFC 4648 |
| Base64Url.SextetExactly | src/saas_sdk/work_context.py:848-852 | The decoder reads that table, and '+' and '/' for its last two characters |
| Base64Url.LastTwoCharacters | src/saas_sdk/work_context.py:844-852 | The bytes 251 and 255 are "-w" and "_w", both ways |
| Base64Url.ReadSkips | src/saas_sdk/work_context.py:848-852 | A character outside both alphabets can stand anywhere in what the decoder reads |
| Base64Url.ReadStopsAtPadding | src/saas_sdk/work_context.py:848-852 | Nothing after the padding of a finished group is read |
| Base64Url.LoneCharacterIsRefused | src/saas_sdk/work_context.py:848-852 | A group of one character does not decode |
| Base64Url.NonAsciiIsRefused | src/saas_sdk/work_context.py:848-852 | Nor does text outside ASCII |
| Base64Url.DecodeEncode | src/saas_sdk/work_context.py:844-852 | Decoding an encoding gives the bytes back, for all byte strings |
| Base64Url.CanonicalExactly | src/saas_sdk/work_context.py:560-567 | A segment is accepted as bytes exactly when it is their encoding |
| Base64Url.SpareBits | src/saas_sdk/work_context.py:565-566 | Sixteen two-character spellings decode to any one byte and the re-encode check accepts one of them, section 3.5 of RFC 4648 |
| Base64Url.EncodedLength | src/saas_sdk/work_context.py:844-845 | Unpadded length, for all byte strings |
| Base64Url.TokenExactly | src/saas_sdk/work_context.py:541-557 | A string decodes to payload and signature exactly when it is their token, the signature has 64 bytes and the token at most 32 KiB |
| Base64Url.PayloadsThatFit | src/saas_sdk/work_context.py:551-557 | A payload has a token exactly when it is at most 24510 bytes long |
| Base64Url.DecodedPairDeterminesToken | src/saas_sdk/work_context.py:541-567 | Different accepted strings give different pairs |
| Uint64.ParsesExactly | src/saas_sdk/work_context.py:827-838 | Parsing yields n exactly for nonempty digit texts of any length that spell n within 64 bits |
| Uint64.ParsesPrinted | src/saas_sdk/work_context.py:827-838 | What parses as n is the decimal text of n behind any number of zeros, for n within 64 bits, and nothing else |
| EffectIds.Pack | src/saas_sdk/datasource.py:341-344 | The OR of the shifted fields is the fields side by side |
| EffectIds.Uuid7 | src/saas_sdk/datasource.py:338-345 | The printed ID of the packed value, refused exactly from 2^48 milliseconds on |
| EffectIds.OrOfDisjoint | src/saas_sdk/datasource.py:342-344 | OR of a shifted field and a smaller one is their sum |
| EffectIds.BitwiseExactly | src/saas_sdk/datasource.py:342-344 | OR and AND act on every bit |
| EffectIds.AndOfMask | src/saas_sdk/datasource.py:344 | AND with 2^k - 1 is the remainder |
| EffectIds.FieldsOfPacked | src/saas_sdk/datasource.py:339-344 | Time and random bits can be read back, version is 7 and variant 2, section 5.7 of RFC 9562 |
| EffectIds.FitsIn128Bits | src/saas_sdk/datasource.py:345 | The value fits 128 bits exactly for 48-bit times |
| EffectIds.PrintedVersionAndVariant | src/saas_sdk/datasource.py:339-345 | Hyphens, version and variant digits stand where RFC 9562 puts them |
| EffectIds.PrintedExactly | src/saas_sdk/datasource.py:345 | The text is the 32 lower-case digits of the value in groups of 8, 4, 4, 4 and 12 |
| EffectIds.MintedOrder | src/saas_sdk/datasource.py:338-345 | Printed IDs sort by time, then random bits, and are equal only for equal inputs |
| EffectIds.ValidateEffectId | src/saas_sdk/datasource.py:536-550 | The byte-wise check accepts exactly 1 to 128 UTF-8 bytes without control bytes or edge spaces, which is the same as without control characters |
| EffectIds.MintedIsValid | src/saas_sdk/datasource.py:222-224 | Every minted ID passes the check |
| ErrorDetails.ReadDetails | src/saas_sdk/_datasource_errors.py:150-188 | The loop computes the summary of the list: all violations, the last info, the last retry, or nothing if one element is malformed |
| ErrorDetails.WellFormedExactly | src/saas_sdk/_datasource_errors.py:159-174 | Which elements are details at all: null, or an object of two texts of which the second is base64 |
| ErrorDetails.MeaningExactly | src/saas_sdk/_datasource_errors.py:163-180 | A detail means what its type makes of its bytes |
| ErrorDetails.DecodedExactly | src/saas_sdk/_datasource_errors.py:175-188 | The three types under both names; anything else, and bytes that do not decode, say nothing |
| ErrorDetails.InfoExactly | src/saas_sdk/_datasource_errors.py:203-242 | Reason and metadata are those of the info, and empty without one |
| ErrorDetails.SummaryOfConcat | src/saas_sdk/_datasource_errors.py:158-188 | Reading two lists one after the other combines their summaries |
| ErrorDetails.NoiseHasNoEffect | src/saas_sdk/_datasource_errors.py:159-182 | Null, unknown and undecodable elements can stand anywhere without effect |
| ErrorDetails.MalformedSpoilsAll | src/saas_sdk/_datasource_errors.py:161-174 | One malformed element anywhere makes the body no Connect error |
| ErrorDetails.PointerIsFirstViolation | src/saas_sdk/_datasource_errors.py:196-202 | The pointer is the first violation of the first element that carries any |
| ErrorDetails.ReasonIsFromLastInfo | src/saas_sdk/_datasource_errors.py:185-186 | The info is that of the last element that carries one |
| Outcomes.MapError | src/saas_sdk/_datasource_errors.py:100-260 | The mapping step by step equals its specification over envelope, effective code and detail summary |
| Outcomes.EnvelopeExactly | src/saas_sdk/_datasource_errors.py:126-157 | Which bodies are Connect errors, with what code, message and details |
| Outcomes.EffectiveCodeExactly | src/saas_sdk/_datasource_errors.py:43-72 | A declared code counts if it is one of sixteen; otherwise four statuses mean unavailable and 403 permission denied |
| Outcomes.ClassifiedExactly | src/saas_sdk/_datasource_errors.py:190-260 | The exception each code stands for |
| Outcomes.PreconditionExactly | src/saas_sdk/_datasource_errors.py:224-252 | The exception each reason of a failed precondition stands for |
| Outcomes.ResetTimeExactly | src/saas_sdk/_datasource_errors.py:203-223 | When a rate limit ends: the host's readable time, else the delay it asks for within range |
| Outcomes.ReceiptExactly | src/saas_sdk/datasource.py:435-453 | Which receipts are readable, and each field of what is read |
| Outcomes.Rpc | src/saas_sdk/datasource.py:348-432 | One request is sent and the ending is the mapped reaction, annotated with the effect ID where an invocation's exception names none |
| Datasource.Prepare | src/saas_sdk/datasource.py:222-242 | Local checks pass exactly when a call is dispatched, and their errors claim no effect |
| Datasource.DispatchesExactly | src/saas_sdk/datasource.py:222-242 | When a call is dispatched, under which ID and with how much time |
| Datasource.Invoke | src/saas_sdk/datasource.py:205-252 | Exactly one gateway call, carrying the ID in message and header, or none at all |
| Datasource.Lookup | src/saas_sdk/datasource.py:254-273 | One lookup call for a valid ID, none otherwise |
| Datasource.InvokeEvidence | src/saas_sdk/datasource.py:205-252 | For every reaction whatsoever: the effect is shown committed exactly when the host said so and its output could be read, and never unattempted, unless an exception of the gateway's own brings that evidence |
| Datasource.IdentityKeptExactly | src/saas_sdk/datasource.py:420-478 | For every reaction whatsoever: effect ID and receipt reach the caller, except exactly when reading a committed output escapes, or an unmapped gateway exception names an effect and not this one with its receipt |
| Datasource.OtherEffectLosesIdentity | src/saas_sdk/datasource.py:420-432 | A gateway exception that names another effect reaches the caller as it is |
| Datasource.EscapingOutputLosesIdentity | src/saas_sdk/datasource.py:465-477 | A committed reply whose output text the JSON reader gives up on loses the effect ID on invoke and the receipt on lookup |
| Datasource.InvokeSucceedsExactly | src/saas_sdk/datasource.py:456-478 | Success exactly on a readable committed receipt for this effect with both outputs readable, each output kept as sent |
| Datasource.InvalidOutputExactly | src/saas_sdk/datasource.py:465-477 | A committed reply with an output that is no object is a plain error with the receipt, on both calls |
| Datasource.ReplyShows | src/saas_sdk/datasource.py:435-478 | The receipt a reply shows, exactly: the host's field by field with the output it saved, the bare unknown one, or none when reading the output escapes |
| Datasource.LookupEvidence | src/saas_sdk/datasource.py:254-273 | For every reaction whatsoever: unattempted exactly on a declared not_found, committed exactly when the host said so and its output could be read, unless an exception of the gateway's own brings that evidence; the three outcomes are told and never raised, name this effect, and what is found is what invoke would report |
| Datasource.OutcomeUnknownExactly | src/saas_sdk/_datasource_errors.py:111-260 | For every reaction whatsoever: the outcome is called unknown exactly when the reply is lost or proves no commit, the error is no readable Connect error, its code leaves the effect open (deadline and cancel codes only on invoke), the host says so, or the gateway raises that class itself |
| Datasource.UnreadIsUnknown | src/saas_sdk/datasource.py:391-419 | When no reply was read and lookup leaves the outcome open, lookup tells what invoke raises |
| Datasource.StatusAlone | src/saas_sdk/_datasource_errors.py:63-72 | Without a known code the HTTP status alone decides, and the receipt is unknown in every case |
| Datasource.HostTable | src/saas_sdk/_datasource_errors.py:190-260 | The exception each declared code, reason and status is mapped to, for all calls of the client |
| Datasource.EndsAsMapped | src/saas_sdk/datasource.py:391-432 | Invoke keeps kind and message of the mapped exception; lookup tells the three outcomes and raises the rest |
| Datasource.NotConnectExactly | src/saas_sdk/_datasource_errors.py:111-174 | Which HTTP errors are no Connect errors, and what an unsupported encoding is mapped to |
| Datasource.HttpWithoutEffect | src/saas_sdk/datasource.py:391-410 | Declaring and listing: an HTTP error that is no Connect error stays the gateway's, but for a 403 |
| Datasource.WithoutEffect | src/saas_sdk/datasource.py:411-421 | Declaring and listing: other exceptions stay the gateway's |
| Datasource.FallbackIsNoEvidence | src/saas_sdk/_datasource_errors.py:147-148 | The status table never yields the two codes that carry evidence |
| Datasource.ReceiptInventsNothing | src/saas_sdk/datasource.py:435-453 | Every receipt shown from a reply has the host's provider status, the time its stamp reads as, its status and its readable output; all others say no more than effect and status, or are a gateway exception's own |
| Datasource.ProviderStatusExactly | src/saas_sdk/_datasource_errors.py:240-250 | A provider status is reported exactly when the text is the decimal text of 100 to 599 |
| Descriptors.FileProto.Strip | scripts/strip_options.py:40-45 | Stripping drops exactly the dependencies under the four prefixes and both index lists |
| Descriptors.FileProto.Rename | scripts/strip_options.py:87-92 | Renaming maps name and dependencies of one file in place |
| Descriptors.RetainedSplits | scripts/strip_options.py:41-43 | Stripping works dependency by dependency: order and repetitions stay |
| Descriptors.RetainedOne | scripts/strip_options.py:27-41 | One dependency stays exactly if it is under none of the four prefixes |
| Descriptors.BaseNameIsLastPart | scripts/strip_options.py:59-60 | The base name is what follows the last slash |
| Descriptors.StripTargets | scripts/strip_options.py:65-73 | The first pass strips the targets in place and collects the last file per target name and the needed well-known types |
| Descriptors.CopyKept | scripts/strip_options.py:77-82 | The second pass copies targets and needed well-known types in source order |
| Descriptors.RenameFiles | scripts/strip_options.py:87-92 | The third pass renames every file of the output in place |
| Descriptors.Transform | scripts/strip_options.py:65-92 | The three passes together: selection by original names, then renaming, on fresh copies |
| Descriptors.SourceOf | scripts/strip_options.py:75-82 | Every output file is a kept source file, stripped if a target |
| Descriptors.PlaceOf | scripts/strip_options.py:75-82 | Every kept source file reaches the output |
| Descriptors.OrderIsPreserved | scripts/strip_options.py:75-82 | Output order is source order |
| Descriptors.OutputNamesUnique | scripts/strip_options.py:75-82 | Selection keeps names unique |
| Descriptors.ImportedExactly | scripts/strip_options.py:86 | Which targets are imported: those some target still depends on |
| Descriptors.NeededExactly | scripts/strip_options.py:70-72 | Which well-known types are needed: those some target still depends on |
| Descriptors.RenamedExactly | scripts/strip_options.py:87-92 | A name moves to the SDK's directory exactly if it is imported, as a file name and as a dependency |
| Descriptors.ClosedExactly | scripts/strip_options.py:75-82 | From an ordered closed set, the output is closed and ordered if and only if kept files refer only to kept files |
| Descriptors.ClosedForPlainWellKnownTypes | scripts/strip_options.py:70-72 | The usual case: targets that import targets and well-known types without dependencies |
| Descriptors.NamesStayApart | scripts/strip_options.py:59-60 | Renaming keeps names unique if and only if local paths clash with no kept file |
| Descriptors.SharedBaseNameCollides | scripts/strip_options.py:84-92 | Whenever two imported targets share a base name, the script gives two output files one name |
| Descriptors.CollidingTargets | scripts/strip_options.py:84-92 | A closed, ordered, uniquely named set on which that happens |
| Descriptors.RenamingKeepsClosed | scripts/strip_options.py:87-92 | Renaming keeps the set closed and ordered whatever the names |
| Descriptors.RenamingExactly | scripts/strip_options.py:84-92 | Unique names and the very same dependency graph after renaming, if and only if no names clash |
| Descriptors.TransformIsSound | scripts/strip_options.py:65-92 | The whole script on the sets it is meant for: closed, ordered, uniquely named, same graph |

## Left out

- Ed25519 itself and the protobuf runtime: functions of `Primitives`; that claims determine the payload is not
  claimed, because the reader drops fields and always leaves the parent session absent (`work_context.py:604-636`).
- The HTTP part of a key fetch, redirects, splitting a URL into its parts, and exceptions other than the SDK's own
  that escape a fetch: a fetch brings a key set or an unavailability.
- JwksCache.JwksVerifier.Current: assumes clock readings that are not negative; with a negative reading before any
  fetch the source raises `None`, which Python turns into a `TypeError`.
- JwksCache.JwksVerifier.Verify: one uninterrupted call; interleaved calls are the machine of `JwksThreads`, where a
  section, fetch included, is one step because the lock is held throughout.
- JwksThreads.EveryRunKeepsInv: clocks that go back between two critical sections.
- EffectIds.ValidateEffectId: strings with lone surrogates, which cannot be encoded and which the source refuses;
  Dafny characters are Unicode scalar values.
- Outcomes.MapError: whether the body can be read, unpacked and parsed is an input; an exception that escapes the
  mapping while it reads the body (a truncated body, JSON nested too deep) reaches `Outcomes.Rpc` as a reaction of its
  own, which is how the code treats it. The restored body stream is not modelled.
- Outcomes.Rpc: exceptions outside Python's `Exception` (an interrupt, say) pass through unannotated and are not
  reactions of the model.
- Datasource.Invoke: encoding the input, building the request message and inspecting the gateway's signature are
  answers taken as inputs; an exception that escapes the encoding is not told from a refused input. Either way nothing
  is dispatched.
- Jwks.ParseJwks: text to JSON, and so duplicate member names within one object.
- Descriptors.FileProto.Strip: clearing of options, which touches no name and no dependency.
- Error messages, except the host's own message that the mapping passes on.
- Minting and attaching contexts, header lookup, source listing and sync, the projection of authorization revisions,
  and the uncalled JSON field helpers.
- The host's at-most-once handling of effects: not implemented in this repository.
