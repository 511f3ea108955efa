# Presto: plan lookup, CHAR comparisons, JDBC connection properties, reference-counting cache

This Dafny project models four small pieces of Presto and proves properties about them:

- **`Lookup`** (`lookup.dfy`). This is the read-side gate of the iterative optimizer. A plan node is either a concrete operator or a `GroupReference` placeholder.
  - `noLookup()` passes concrete nodes through and rejects placeholders with a `verify` failure.
  - `from(resolver)` replaces a placeholder with what the resolver returns for it.
  - Both implementations answer every statistics and cost query with the constant unknown estimates.
- **CHAR(n) comparisons** (`char_operators.dfy`). The operator tests fix these semantics:
  - A `CHAR(n)` value is its text right-padded with spaces to `n` characters.
  - `=`, `<>`, `<`, `<=`, `>`, `>=`, `BETWEEN` and `NOT BETWEEN` compare the padded strings lexicographically by code point. The declared lengths do not have to match.
  - Each test method becomes one lemma holding its rows. The four 17-row methods (`<`, `<=`, `>`, `>=`) become two lemmas each, split at the rows with a NUL character. The general order laws are separate lemmas.
- **`BaseConnectionProperty`** (`connection_property.dfy`). This covers `getValue`, `validate`, `getDriverPropertyInfo`, the `REQUIRED`/`NOT_REQUIRED` predicates, `STRING_CONVERTER` and `dependsKeyValue`. The model uses a `map<string, string>` for the properties and a partial converter `string -> Result`. The required-predicate may throw an unchecked exception, as `dependsKeyValue` does for an absent key; `getValue`, `validate` and `getDriverPropertyInfo` let it pass through.
- **`ReferenceCountingLoadingCache`** (`reference_counting_cache.dfy`, `cache_invariant.dfy`). The cache is modelled as a state machine over explicit events.
  - The events are the caller's `acquire`, `release` and `close`, plus two executor events: a scheduled cleanup *starts*, and a started cleanup *runs*.
  - Every holder carries its reference count, its cleaner count and its current cleanup.
  - The main theorem says that every holder's cleaner count equals the number of its scheduled cleanups that were neither cancelled nor run. From that it follows that neither `checkState` on the count ever fails. It also follows that a deferred release only evicts a holder that passes the removal listener's checks.
  - The theorem holds only under the cancel semantics the accounting assumes; see Findings.

`wrappers.dfy` holds the `Option`/`Result` types. The Java `Session`, `Symbol` and `Type` become placeholder types, because only their presence matters to `Lookup`. The statistics and cost estimates are datatypes with an explicit unknown constant; their numeric content is not modelled.

Neither implementation of `Lookup` memoizes anything. Both answer every statistics and cost query with the unknown constants. The Javadoc of `resolve` (Lookup.java:30-36) speaks of materializing `GroupReference` nodes. Yet `from(resolver)` returns whatever the resolver returns, which may itself be a `GroupReference`. The model follows the code. Idempotence of `resolve` and "no placeholder comes back" are proved only for resolvers that never yield a placeholder.

## Model

| member | source | states |
|---|---|---|
| Lookup.Resolve | presto-main/src/main/java/com/facebook/presto/sql/planner/iterative/Lookup.java:30-82 | A node that is not a `GroupReference` comes back unchanged. Resolution fails exactly when `noLookup()` is given a `GroupReference`, and the failure carries the message "Unexpected GroupReference". `from(r)` maps a reference to whatever `r` returns for its group, even another `GroupReference`. |
| Lookup.GetStats | presto-main/src/main/java/com/facebook/presto/sql/planner/iterative/Lookup.java:57-61 | The answer is UNKNOWN_STATS for every lookup, session, type map and node. |
| Lookup.GetCumulativeCost | presto-main/src/main/java/com/facebook/presto/sql/planner/iterative/Lookup.java:63-67 | The answer is UNKNOWN_COST for every lookup, session, type map and node. |
| Lookup.NoLookupAgreesWithFrom | presto-main/src/main/java/com/facebook/presto/sql/planner/iterative/Lookup.java:71-82 | Wherever `noLookup()` succeeds, `from(r)` gives the same answer for every resolver `r`. |
| Lookup.FromResolveIdempotent | presto-main/src/main/java/com/facebook/presto/sql/planner/iterative/Lookup.java:75-82 | With a resolver that never yields a placeholder, `from(r).resolve` never returns one, and resolving its result again changes nothing. |
| Lookup.ResolvedNodesPassNoLookup | presto-main/src/main/java/com/facebook/presto/sql/planner/iterative/Lookup.java:43-55 | With such a resolver, `noLookup()` accepts every node that `from(r)` resolved. |
| Lookup.EstimatesIgnoreResolution | presto-main/src/main/java/com/facebook/presto/sql/planner/iterative/Lookup.java:47-67 | A placeholder gets the same statistics and cost estimates as the node `from(r)` resolves it to, under either implementation. `noLookup()` answers the estimate queries, with the unknown constants, even for a placeholder its `resolve` rejects. |
| CharOperators.Padded | presto-main/src/test/java/com/facebook/presto/type/TestCharOperators.java:71-73 | The padded value has exactly the declared length. It starts with the text and is spaces after the text. |
| CharOperators.Compare | presto-main/src/test/java/com/facebook/presto/type/TestCharOperators.java:58-74 | The three-way comparison is -1, 0 or 1. It is negative exactly when the reference lexicographic order holds: after a common prefix, the first string ends or its next code point is smaller. It is zero exactly for equal strings. |
| CharOperators.Equal | presto-main/src/test/java/com/facebook/presto/type/TestCharOperators.java:28-34 | `=` holds exactly when neither padded value sorts below the other in the reference order. |
| CharOperators.NotEqual | presto-main/src/test/java/com/facebook/presto/type/TestCharOperators.java:41-51 | `<>` holds exactly when one padded value sorts strictly below the other in the reference order. |
| CharOperators.LessThan | presto-main/src/test/java/com/facebook/presto/type/TestCharOperators.java:58-74 | `<` is the reference lexicographic order of the padded values. |
| CharOperators.LessThanOrEqual | presto-main/src/test/java/com/facebook/presto/type/TestCharOperators.java:81-97 | `<=` holds exactly when the right padded value does not sort below the left one. |
| CharOperators.GreaterThan | presto-main/src/test/java/com/facebook/presto/type/TestCharOperators.java:104-120 | `>` holds exactly when the right padded value sorts below the left one. |
| CharOperators.GreaterThanOrEqual | presto-main/src/test/java/com/facebook/presto/type/TestCharOperators.java:127-143 | `>=` holds exactly when the left padded value does not sort below the right one. |
| CharOperators.Between | presto-main/src/test/java/com/facebook/presto/type/TestCharOperators.java:150-169 | `x BETWEEN a AND b` holds exactly when the padded `x` sorts neither below the padded `a` nor above the padded `b`. |
| CharOperators.NotBetween | presto-main/src/test/java/com/facebook/presto/type/TestCharOperators.java:154 | `x NOT BETWEEN a AND b` holds exactly when the padded `x` sorts below the padded `a` or above the padded `b`. |
| CharOperators.CompareAntisymmetric | presto-main/src/test/java/com/facebook/presto/type/TestCharOperators.java:104-121 | Swapping the arguments negates the comparison. |
| CharOperators.CompareTransitive | presto-main/src/test/java/com/facebook/presto/type/TestCharOperators.java:58-66 | "Compares below" is transitive. |
| CharOperators.ProperPrefixIsLess | presto-main/src/test/java/com/facebook/presto/type/TestCharOperators.java:70-72 | A proper prefix sorts before the longer string. |
| CharOperators.EqualIsCompareZero | presto-main/src/test/java/com/facebook/presto/type/TestCharOperators.java:28-52 | `=` holds exactly when the comparison of the padded values is zero. `<>` holds exactly when `<` or `>` does, and `=` is symmetric. |
| CharOperators.Trichotomy | presto-main/src/test/java/com/facebook/presto/type/TestCharOperators.java:78-98 | Exactly one of `<`, `=` and `>` holds. `<=` is `<` or `=`, and `>=` is `>` or `=`. |
| CharOperators.GreaterIsConverse | presto-main/src/test/java/com/facebook/presto/type/TestCharOperators.java:101-144 | `>` is the converse of `<`, and `>=` is the converse of `<=`. |
| CharOperators.LessThanTransitive | presto-main/src/test/java/com/facebook/presto/type/TestCharOperators.java:58-66 | `<` on CHAR values is transitive. |
| CharOperators.LessThanOrEqualTransitive | presto-main/src/test/java/com/facebook/presto/type/TestCharOperators.java:81-89 | `<=` on CHAR values is transitive. |
| CharOperators.BetweenIsRange | presto-main/src/test/java/com/facebook/presto/type/TestCharOperators.java:150-163 | `x BETWEEN a AND b` holds exactly when `a <= x` and `x <= b`. `x NOT BETWEEN a AND b` holds exactly when `x < a` or `x > b`. |
| CharOperators.BetweenEmptyWhenBoundsReversed | presto-main/src/test/java/com/facebook/presto/type/TestCharOperators.java:152-160 | No value lies between bounds with `a > b`. |
| CharOperators.DifferentLengthsNeverEqual | presto-main/src/test/java/com/facebook/presto/type/TestCharOperators.java:49-50 | Values with different declared lengths are never equal, whatever their text. |
| CharOperators.TrailingSpacesInsignificant | presto-main/src/test/java/com/facebook/presto/type/TestCharOperators.java:33-34 | Trailing spaces within the declared length do not change the value. |
| CharOperators.LongerPaddingSortsAfter | presto-main/src/test/java/com/facebook/presto/type/TestCharOperators.java:63-64 | The same text declared longer sorts strictly after the shorter value. |
| CharOperators.TestEqual | presto-main/src/test/java/com/facebook/presto/type/TestCharOperators.java:24-35 | Every `=` row of the tests. |
| CharOperators.TestNotEqual | presto-main/src/test/java/com/facebook/presto/type/TestCharOperators.java:37-52 | Every `<>` row of the tests. |
| CharOperators.TestLessThan | presto-main/src/test/java/com/facebook/presto/type/TestCharOperators.java:58-68 | The `<` rows without a NUL character, including the rows whose declared lengths differ. |
| CharOperators.TestLessThanNul | presto-main/src/test/java/com/facebook/presto/type/TestCharOperators.java:69-74 | The `<` rows with a NUL character, which sorts below the padding space. |
| CharOperators.TestLessThanOrEqual | presto-main/src/test/java/com/facebook/presto/type/TestCharOperators.java:81-91 | The `<=` rows without a NUL character, including the rows whose declared lengths differ. |
| CharOperators.TestLessThanOrEqualNul | presto-main/src/test/java/com/facebook/presto/type/TestCharOperators.java:92-97 | The `<=` rows with a NUL character, which sorts below the padding space. |
| CharOperators.TestGreaterThan | presto-main/src/test/java/com/facebook/presto/type/TestCharOperators.java:104-114 | The `>` rows without a NUL character, including the rows whose declared lengths differ. |
| CharOperators.TestGreaterThanNul | presto-main/src/test/java/com/facebook/presto/type/TestCharOperators.java:115-120 | The `>` rows with a NUL character, which sorts below the padding space. |
| CharOperators.TestGreaterThanOrEqual | presto-main/src/test/java/com/facebook/presto/type/TestCharOperators.java:127-137 | The `>=` rows without a NUL character, including the rows whose declared lengths differ. |
| CharOperators.TestGreaterThanOrEqualNul | presto-main/src/test/java/com/facebook/presto/type/TestCharOperators.java:138-143 | The `>=` rows with a NUL character, which sorts below the padding space. |
| CharOperators.TestBetween | presto-main/src/test/java/com/facebook/presto/type/TestCharOperators.java:146-170 | Every `BETWEEN` and `NOT BETWEEN` row, including the rows whose declared lengths differ. |
| ConnectionProperty.GetValue | presto-jdbc/src/main/java/com/facebook/presto/jdbc/BaseConnectionProperty.java:78-98 | An absent key on a required property fails with "is required". An absent key on an optional property gives an empty result. An absent key whose required-predicate throws makes `getValue` throw that exception, which is not an `SQLException`. A present key gives `Some` of the converted value, or a conversion failure that names the value and key, without consulting the predicate. A value is returned only if the key was present. |
| ConnectionProperty.GetProperty | presto-jdbc/src/main/java/com/facebook/presto/jdbc/BaseConnectionProperty.java:82 | `getProperty` gives a value exactly when the key is present, and then the stored one. |
| ConnectionProperty.IsRequired | presto-jdbc/src/main/java/com/facebook/presto/jdbc/BaseConnectionProperty.java:72-76 | A property built with `REQUIRED` answers true on every property set, and one built with `NOT_REQUIRED` answers false; neither throws. |
| ConnectionProperty.Message | presto-jdbc/src/main/java/com/facebook/presto/jdbc/BaseConnectionProperty.java:82-97 | For the two `SQLException`s: the "is required" message holds the key at a fixed offset, and the conversion message holds the value after a fixed prefix and ends with the key, so both can be read back. |
| ConnectionProperty.Required | presto-jdbc/src/main/java/com/facebook/presto/jdbc/BaseConnectionProperty.java:107 | `REQUIRED` answers true on every property set and never throws. |
| ConnectionProperty.NotRequired | presto-jdbc/src/main/java/com/facebook/presto/jdbc/BaseConnectionProperty.java:108 | `NOT_REQUIRED` answers false on every property set and never throws. |
| ConnectionProperty.StringConverter | presto-jdbc/src/main/java/com/facebook/presto/jdbc/BaseConnectionProperty.java:116 | `STRING_CONVERTER` never fails and returns its input unchanged. |
| ConnectionProperty.Validate | presto-jdbc/src/main/java/com/facebook/presto/jdbc/BaseConnectionProperty.java:100-105 | Succeeds exactly when `getValue` succeeds, and otherwise fails with the same error. |
| ConnectionProperty.GetDriverPropertyInfo | presto-jdbc/src/main/java/com/facebook/presto/jdbc/BaseConnectionProperty.java:63-70 | Always evaluates the required-predicate, and throws exactly when it throws. Otherwise it reports the key and the current value, which is absent exactly when the key is absent, and `required` equals the predicate's answer. |
| ConnectionProperty.DriverInfoPredictsMissingKey | presto-jdbc/src/main/java/com/facebook/presto/jdbc/BaseConnectionProperty.java:66-89 | For an absent key, the report throws exactly when `getValue` throws the predicate's exception, and with the same exception. Otherwise the report has no value, and its `required` flag holds exactly when `getValue` fails. |
| ConnectionProperty.RequiredPropertyRejectsAbsence | presto-jdbc/src/main/java/com/facebook/presto/jdbc/BaseConnectionProperty.java:107 | A `REQUIRED` property fails `getValue` and `validate` on every property set that lacks its key. |
| ConnectionProperty.OptionalPropertyAllowsAbsence | presto-jdbc/src/main/java/com/facebook/presto/jdbc/BaseConnectionProperty.java:108 | A `NOT_REQUIRED` property with an absent key gives an empty value and validates. |
| ConnectionProperty.PresentValueIgnoresRequirement | presto-jdbc/src/main/java/com/facebook/presto/jdbc/BaseConnectionProperty.java:82-97 | When the key is present, the required predicate does not affect the outcome. |
| ConnectionProperty.DefaultIgnoredByGetValue | presto-jdbc/src/main/java/com/facebook/presto/jdbc/BaseConnectionProperty.java:57-61 | The declared default has no effect on `getValue`. |
| ConnectionProperty.StringPropertyRoundTrip | presto-jdbc/src/main/java/com/facebook/presto/jdbc/BaseConnectionProperty.java:116 | With `STRING_CONVERTER`, a stored string reads back unchanged and validates. |
| ConnectionProperty.DependsKeyValueAsWritten | presto-jdbc/src/main/java/com/facebook/presto/jdbc/BaseConnectionProperty.java:118-121 | The predicate throws exactly when the depended-on key is absent. Otherwise it is true exactly when the stored value equals the expected string. |
| ConnectionProperty.DependsKeyValueThrowsOnAbsentKey | presto-jdbc/src/main/java/com/facebook/presto/jdbc/BaseConnectionProperty.java:120 | On an empty property set, the predicate as written throws. |
| ConnectionProperty.DependsKeyValue | presto-jdbc/src/main/java/com/facebook/presto/jdbc/BaseConnectionProperty.java:118-121 | The intended predicate never throws, and holds exactly when the key is present and its value equals the expected string. |
| ConnectionProperty.DependsKeyValueAgreesWhenPresent | presto-jdbc/src/main/java/com/facebook/presto/jdbc/BaseConnectionProperty.java:118-121 | The intended predicate gives the same answer as the one as written wherever that one does not throw, and answers false for an absent key. |
| ConnectionProperty.DependentPropertyAbsence | presto-jdbc/src/main/java/com/facebook/presto/jdbc/BaseConnectionProperty.java:82-89 | A property that depends on another key fails when absent exactly when that other key holds the expected value. |
| ConnectionProperty.DependentPropertyAbsenceAsWritten | presto-jdbc/src/main/java/com/facebook/presto/jdbc/BaseConnectionProperty.java:82-89 | With `dependsKeyValue` as written, an absent dependent property makes `getValue` and `validate` throw the null-pointer exception, and `getDriverPropertyInfo` throw it, whenever the other key is absent too. When the other key is present, `getValue` agrees with the intended predicate. |
| ConnectionProperty.DependentGetValueThrowsOnEmptyProperties | presto-jdbc/src/main/java/com/facebook/presto/jdbc/BaseConnectionProperty.java:82-84 | On the empty property set, `getValue` of a property that depends on `SSL=true` throws the null-pointer exception rather than an `SQLException` or an empty result. |
| ReferenceCountingCache.CancelSucceeds | presto-jdbc/src/main/java/com/facebook/presto/jdbc/ReferenceCountingLoadingCache.java:76 | A successful cancel never hits a finished or already-cancelled cleanup. As `ScheduledFuture` implements it, cancel succeeds for every pending cleanup, started or not. Under the intended semantics it succeeds only for queued ones. |
| ReferenceCountingCache.Init | presto-jdbc/src/main/java/com/facebook/presto/jdbc/ReferenceCountingLoadingCache.java:113-161 | A new cache is open and well formed, with no entries, holders, cleanups, disposals or violations. |
| ReferenceCountingCache.SetCleanup | presto-jdbc/src/main/java/com/facebook/presto/jdbc/ReferenceCountingLoadingCache.java:74-86 | The cleaner count drops by one only if the previous cleanup's cancel succeeds, and rises by one only for a non-null new cleanup. The call fails exactly when the count would go negative. Only that holder and the cancelled task change. |
| ReferenceCountingCache.Reference | presto-jdbc/src/main/java/com/facebook/presto/jdbc/ReferenceCountingLoadingCache.java:63-67 | First the pending cleanup is dropped through `setCleanup(null)`: it is marked cancelled exactly when its cancel succeeds, and the cleaner count then drops by one. The call fails exactly when that count would go negative. On success the reference count rises by exactly one, the value is kept, the current cleanup is cleared, and no other holder, task, entry, disposal or violation changes. |
| ReferenceCountingCache.ScheduleCleanup | presto-jdbc/src/main/java/com/facebook/presto/jdbc/ReferenceCountingLoadingCache.java:88-97 | Fails when the reference count is not zero. Otherwise it cancels the previous cleanup as `setCleanup` does, and fails exactly when the count would go negative. On success it appends exactly one queued, uncancelled cleanup of the key, bound to the holder, and makes it the current cleanup with the cleaner count raised by one. Nothing else changes. |
| ReferenceCountingCache.RemovalCheck | presto-jdbc/src/main/java/com/facebook/presto/jdbc/ReferenceCountingLoadingCache.java:140-148 | On close, the holder passes exactly when it is unreferenced. Otherwise it passes exactly when both its counts are zero. A violation names the key and says whether the cache was closed. |
| ReferenceCountingCache.Invalidate | presto-jdbc/src/main/java/com/facebook/presto/jdbc/ReferenceCountingLoadingCache.java:127-151 | Removes only that key. The holder goes to the disposer if the listener's checks pass, and is logged as a violation otherwise. |
| ReferenceCountingCache.Acquire | presto-jdbc/src/main/java/com/facebook/presto/jdbc/ReferenceCountingLoadingCache.java:203-211 | Fails on a closed cache. On an open cache it fails exactly when an existing holder's cancel would drive its cleaner count negative. Otherwise it returns the existing holder's value, or loads a new holder `(value, 1, 0, none)` and leaves the tasks unchanged. An existing holder gets one more reference, the cancel applied and no current cleanup. The key is then cached, and no other holder, disposal or violation changes. |
| ReferenceCountingCache.Release | presto-jdbc/src/main/java/com/facebook/presto/jdbc/ReferenceCountingLoadingCache.java:213-239 | Fails on a closed cache and changes nothing for a key without a holder. On an open cache it fails exactly when the last reference goes and the cancel would drive the cleaner count negative. Otherwise it drops exactly one reference and keeps the value. Above one reference nothing else changes. At the last reference it cancels the previous cleanup as `setCleanup` does and appends one queued cleanup of the key. That cleanup becomes the current one, with the cleaner count adjusted accordingly. Other holders, entries, disposals and violations stay unchanged. |
| ReferenceCountingCache.Close | presto-jdbc/src/main/java/com/facebook/presto/jdbc/ReferenceCountingLoadingCache.java:195-201 | The first call closes the cache and empties it. Unreferenced holders are disposed and referenced ones are logged as unreleased. Later calls change nothing. |
| ReferenceCountingCache.StartTask | presto-jdbc/src/main/java/com/facebook/presto/jdbc/ReferenceCountingLoadingCache.java:95 | Only a queued, uncancelled cleanup of an open cache starts; nothing else changes. |
| ReferenceCountingCache.RunTask | presto-jdbc/src/main/java/com/facebook/presto/jdbc/ReferenceCountingLoadingCache.java:225-231 | A started cleanup finishes and drops the cleaner count by one. It fails exactly when the count would go negative. On success only that task, that holder's cleaner count and possibly the key's entry change. It evicts its key exactly when both counts are then zero; the evicted holder goes to the disposer or the violations exactly as the removal listener's checks decide. |
| CacheInvariant.InitInvariant | presto-jdbc/src/main/java/com/facebook/presto/jdbc/ReferenceCountingLoadingCache.java:36-46 | The empty cache satisfies the invariant. |
| CacheInvariant.CancelLeavesCountNonNegative | presto-jdbc/src/main/java/com/facebook/presto/jdbc/ReferenceCountingLoadingCache.java:76-80 | Under the intended cancel (`CancelOnlyQueued`), in an invariant state the cleaner count stays non-negative after `setCleanup`'s cancel, so its `checkState` never fails. |
| CacheInvariant.ReferenceKeepsInvariant | presto-jdbc/src/main/java/com/facebook/presto/jdbc/ReferenceCountingLoadingCache.java:63-86 | Under the intended cancel (`CancelOnlyQueued`): on an open cache, `reference` never fails its check and keeps the cleaner counts exact. |
| CacheInvariant.AcquireKeepsInvariant | presto-jdbc/src/main/java/com/facebook/presto/jdbc/ReferenceCountingLoadingCache.java:203-211 | Under the intended cancel (`CancelOnlyQueued`): `acquire` succeeds exactly on an open cache and keeps the invariant. |
| CacheInvariant.ReleaseKeepsInvariant | presto-jdbc/src/main/java/com/facebook/presto/jdbc/ReferenceCountingLoadingCache.java:213-239 | Under the intended cancel (`CancelOnlyQueued`): `release` succeeds exactly on an open cache and keeps the invariant, including when it schedules a cleanup. |
| CacheInvariant.ReleaseLastReferenceCounts | presto-jdbc/src/main/java/com/facebook/presto/jdbc/ReferenceCountingLoadingCache.java:233-237 | Under the intended cancel (`CancelOnlyQueued`), dropping the last reference succeeds and keeps every cleaner count equal to its pending cleanups. |
| CacheInvariant.ReleaseLastReferenceOwnership | presto-jdbc/src/main/java/com/facebook/presto/jdbc/ReferenceCountingLoadingCache.java:233-237 | Under the intended cancel (`CancelOnlyQueued`), dropping the last reference succeeds, and every pending cleanup still belongs to the holder its key maps to. |
| CacheInvariant.ReleaseLastReferenceKeepsInvariant | presto-jdbc/src/main/java/com/facebook/presto/jdbc/ReferenceCountingLoadingCache.java:233-237 | Under the intended cancel (`CancelOnlyQueued`), dropping the last reference and scheduling its cleanup succeeds and keeps the invariant. |
| CacheInvariant.CloseKeepsInvariant | presto-jdbc/src/main/java/com/facebook/presto/jdbc/ReferenceCountingLoadingCache.java:195-201 | Under the intended cancel (`CancelOnlyQueued`): `close` keeps the invariant, and its violations are all of the "unreleased on close" kind. |
| CacheInvariant.StartTaskKeepsInvariant | presto-jdbc/src/main/java/com/facebook/presto/jdbc/ReferenceCountingLoadingCache.java:95 | Under the intended cancel (`CancelOnlyQueued`): a cleanup starting keeps the invariant. |
| CacheInvariant.RunTaskKeepsInvariant | presto-jdbc/src/main/java/com/facebook/presto/jdbc/ReferenceCountingLoadingCache.java:99-103 | Under the intended cancel (`CancelOnlyQueued`): a deferred release never finds its count negative, and keeps the invariant. The key it evicts still maps to its own holder. |
| CacheInvariant.RunTaskEvictionKeepsOwnership | presto-jdbc/src/main/java/com/facebook/presto/jdbc/ReferenceCountingLoadingCache.java:225-231 | Under the intended cancel (`CancelOnlyQueued`), a cleanup that evicts its key succeeds, and every pending cleanup still belongs to the holder its key maps to. |
| CacheInvariant.StepKeepsInvariant | presto-jdbc/src/main/java/com/facebook/presto/jdbc/ReferenceCountingLoadingCache.java:203-239 | Under the intended cancel (`CancelOnlyQueued`): from an invariant state, the only exceptions are `acquire` or `release` on a closed cache, and the invariant is kept. |
| CacheInvariant.ReplayKeepsInvariant | presto-jdbc/src/main/java/com/facebook/presto/jdbc/ReferenceCountingLoadingCache.java:144-148 | Under the intended cancel (`CancelOnlyQueued`): every interleaving of events from an invariant state runs without an internal exception and ends in an invariant state. |
| CacheInvariant.ReachableStatesAreSafe | presto-jdbc/src/main/java/com/facebook/presto/jdbc/ReferenceCountingLoadingCache.java:140-148 | Under the intended cancel (`CancelOnlyQueued`): in every reachable state the cleaner counts are exact and non-negative. No removal outside `close` has ever failed the listener's checks. |
| CacheInvariant.CancelOfStartedCleanupDoubleCounts | presto-jdbc/src/main/java/com/facebook/presto/jdbc/ReferenceCountingLoadingCache.java:74-78 | In the race trace (acquire, release, the cleanup starts, acquire, the cleanup runs), `cancel(false)` as written lets the started cleanup be counted off twice, so `releaseForCleaning` fails its check. |
| CacheInvariant.IntendedCancelKeepsKeyCached | presto-jdbc/src/main/java/com/facebook/presto/jdbc/ReferenceCountingLoadingCache.java:225-239 | Under the intended cancel, the same trace ends with one reference, no cleaners and the key still cached. |

## Left out

- The memo, groups, rule application, the exploration driver and the statistics/cost calculators are not modelled. None of them is part of `Lookup.java`. The estimates' numeric (floating-point) content is abstract here.
- presto-cli/src/main/java/com/facebook/presto/cli/ErrorMessages.java is not part of this model. It formats exception chains and session descriptions for the terminal.
- Threads are not modelled. `synchronized`, `AtomicBoolean` and the executor's timing are replaced by atomic events. In particular, `release` looks up the holder (line 220) outside the lock; the interleavings that opens are not modelled.
- The retention period and time unit are not modelled, and neither are `Builder`, `getRetentionPeriod` and `getRetentionUnit`: they only set timing.
- The loader and disposer are opaque. `acquire` takes the loaded value as a parameter, and loader exceptions are not modelled. Disposal is recorded as the set of disposed holders.
- Guava logs and swallows an exception thrown by a removal listener. The model records the failed check in a set of violations instead.
- ReferenceCountingCache.SetCleanup: when a `checkState` fails part-way through, the Java holder is left half updated. The model returns the failure without a state, and `Replay` stops there.
- ReferenceCountingCache.RunTask: when the `checkState` in `releaseForCleaning` fails, the Java holder keeps a cleaner count of -1. The exception is stored in the executor's future and reaches no caller, so the cache keeps running. The model returns the failure and `Replay` stops there, so what happens after that point is not modelled. Under the intended cancel this check never fails.
- Integer width: the holder's `refcount` and `cleanerCount` are Java `int`s; the model uses unbounded integers and does not model overflow, which would need 2^31 live references or cleanups.
- `INTEGER_CONVERTER` and the internals of `Integer.parseInt` are not modelled. Converters are arbitrary partial functions.
- The defaults chain of `java.util.Properties` is not modelled. Properties are a plain string map, and non-string values are not modelled.
- Truncation when casting to a shorter CHAR is not modelled, because the tests do not cover it; a CHAR value requires its text to fit. Parsing the SQL expressions in the test class is not modelled either.
- `getKey`, `getDefault`, `Holder.get`, `getRefcount` and `getCleanerCount` are plain field reads of the datatypes.

## Findings

| source | as written | input that shows it | evidently intended | confidence | as-written member | corrected member |
|---|---|---|---|---|---|---|
| presto-jdbc/src/main/java/com/facebook/presto/jdbc/ReferenceCountingLoadingCache.java:76 | `setCleanup` counts a cleaner off whenever `cancel(false)` returns true. `ScheduledFuture.cancel(false)` also returns true for a cleanup that has already started, for example one blocked on the cache's monitor. That cleanup still runs, and `releaseForCleaning` counts it off a second time. | acquire k; release k (schedules cleanup 0); cleanup 0 starts and waits for the monitor; acquire k (cancel succeeds, count 1→0); cleanup 0 runs (count 0→-1, `checkState` fails). | A successful cancel means the cleanup will not run, so each scheduled cleanup is counted off once | medium, not executed | CacheInvariant.CancelOfStartedCleanupDoubleCounts | CacheInvariant.ReplayKeepsInvariant |
| presto-jdbc/src/main/java/com/facebook/presto/jdbc/BaseConnectionProperty.java:120 | `properties.get(key).equals(value.toString())` dereferences null when the depended-on key is absent | a property set without the depended-on key, e.g. the empty set; `getValue` of a property that depends on that key and is itself absent then throws as well | An absent key does not hold the value, so the predicate is false | low, not executed (callers may always merge defaults first) | ConnectionProperty.DependsKeyValueThrowsOnAbsentKey | ConnectionProperty.DependsKeyValue |
