# SPACE server: verified models

This project models the parts of the SPACE backend (a Go chat and SNS server for a university)
whose correctness is not visible from one function: streaming counters, text masking, a guarded
subscription loop, timetable conflict resolution, selective analytics behind a cache, batched pages,
count-limited transactions, chunked bulk inserts, and the selection and weight of GraphQL queries.
`dafny verify dfyconfig.toml` checks everything.

| file | what it models |
|---|---|
| RollingActiveUsers.dfy | the rolling distinct-user counter: fused spans in a difference array against a set of users |
| NgWordText.dfy, NgWordMask.dfy, NgWordSafety.dfy, NgWordRegistered.dfy | the NG-word matcher: segments and origins, Match and Mask, what masking achieves, and registered words end to end |
| SubscriptionStream.dfy | the guarded subscription loop as a state machine over all interleavings |
| SlotConflicts.dfy | which timetable entries a syllabus sync removes |
| FieldSet.dfy, AnalyticsSummary.dfy, AnalyticsCache.dfy | requested fields and their key, the selective summary, the TTL cache over it |
| AnswerPages.dfy | pages of answers by LIMIT/OFFSET and by ROW_NUMBER |
| AddendumTransactions.dfy | lock, count, insert, commit under any interleaving, with commits whose answer is lost |
| CourseBulkInsert.dfy | rooms and courses inserted in chunks of different sizes, ids written back into the objects |
| SelectionHelpers.dfy | the two traversals of a GraphQL selection |
| Complexity.dfy | the weight of a query against the rows its resolvers may return |
| Wrappers.dfy, Sequences.dfy | shared result types and facts about sequences and sorted listings |

SQL tables are maps or sequences of rows, and each query has the meaning of its text. Objects that
the source updates in place are classes; loops are loops; the concurrent parts are relations between
states, and their theorems are about every run.

## Findings

- Subscription loop: `lastChecked` is set when the authorisation check returns, not when it is
  decided; at first it is set when the loop starts, after the resolver's entry check. With times in
  whole units, access lost at T (after the entry check was decided) can show until T plus the interval
  plus L - 1, where L bounds the time from the decision of a check to its stamp, and from that of the
  entry check to the start. `GraceIsExact` proves this delay enough in every run and no smaller one
  enough, for guards with and without a revocation topic. So T plus the interval holds exactly when
  L is at most one unit. A loss between the entry check and the subscription to the revocation
  topic is not signalled either.
- Timetable conflicts: the rule "an earlier moved entry that stays, wins" decides for all tables
  exactly as long as the moved course ids fit one query, which takes up to 60000
  (`RuleDecidesWithinOneQuery`). For every larger number of ids, and every query size, there are tables
  where an entry is removed for one that is removed later (`ChunksMayRemoveTooMuch`); that no conflict
  remains holds in any order.
- NG words: a word whose normalised form starts or ends with the mask's own character ×, or contains
  the whole mask ××××, can, under some normalisation, be found in a masked text, because an inserted
  mask and its surroundings can make it up (`OthersSurvive`, where every character is its own normal
  form; `CrossSurvivesMasking` for × alone). Every other word is hidden in every masked text, also one
  with a × inside such as a×b. `AlwaysHiddenIffHideable` proves both halves beside any other patterns,
  `HiddenAloneIffHideable` for a word alone that does not overlap itself.
- Query weights: a limit of 0 or less is weighted as nothing but resolved as the default page
  (`ZeroLimitIsUndercounted`); for every other limit the weight covers the rows, and for no limit of
  0 or less (`FactorCoversRows`).

## Assumptions

- Unicode: segment boundaries and NormalizeForNGWord are parameters. The NG-word theorems need that the
  mask is its own normal form and that a text put together from segments and masks is normalised piece
  by piece (`PerSegment`; `PlainTextIsPerSegment` shows that this can be met). A text is a sequence of
  code points, so positions count code points where the code counts bytes.
- A regular expression is known only by the list of matches it finds, which lie inside the text. Nothing
  is claimed about a regular expression matching after masking.
- The database gives each multi-row INSERT consecutive ids; FOR UPDATE keeps other transactions off a
  row until the holder ends; a count sees the committed rows of its moment.
- CollectFields of the GraphQL library is a parameter; the traversals need that concatenated selection
  sets select together what each selects (`CollectFieldsIsAdditive` shows it for a collector that merges
  aliases, follows fragments and honours @skip and @include). The library's walk over a query takes
  1 plus the children's weight when no weight at least as large as the children's is given.

## Model

| member | source | states |
|---|---|---|
| RollingActiveUsers.RollingDistinctActiveUsers | infra/mysql/analytics_repository.go:768-840 | for rows grouped by user with ascending slots, any window and any slots (negative and out of range too), each output is the number of distinct users whose activity reaches the slot; every array access is in bounds; a database error is returned, but not for an empty range |
| RollingActiveUsers.Flush | infra/mysql/analytics_repository.go:788-794 | writing the pending span into the difference array makes the accumulator alone count every slot's users |
| RollingActiveUsers.FuseRow | infra/mysql/analytics_repository.go:819-825 | lengthening the pending span by a touching or overlapping activity counts its user once |
| RollingActiveUsers.OpenRow | infra/mysql/analytics_repository.go:826-827 | a separate activity opened as a new span counts its user in exactly the slots it reaches |
| RollingActiveUsers.RollingBelowSumOfSlots | infra/mysql/analytics_repository.go:578-583 | the rolling count is at most the sum of the per-slot distinct counts over the window, with equality exactly when nobody is active in two of its slots |
| NgWordMask.NewNGWordMatcher | model/ng_word.go:132-152 | exactly the usable words are compiled, in order; broken expressions and empty needles are skipped |
| NgWordRegistered.MatchRegistered | model/ng_word.go:132-172 | over registered words, Match hits the first one whose normal form occurs in the normalised text or whose expression matches it, and none exactly when there is no such word |
| NgWordRegistered.MatchOneWord | model/ng_word.go:132-172 | a text is hit by a registered word exactly when its normal form contains the word's |
| NgWordRegistered.MaskRegistered | model/ng_word.go:132-250 | over registered words, Mask redacts exactly the segments of the non-empty stretches where a word's normal form occurs or an expression matches |
| NgWordRegistered.TouchingSpansStayApart | model/ng_word.go:230-240 | two stretches that only touch become two masks |
| NgWordRegistered.OverlappingSpansMerge | model/ng_word.go:230-240 | two that overlap become one mask of four × |
| NgWordMask.Match | model/ng_word.go:155-172 | returns the first word in registration order that hits the normalised text, and none exactly when no word hits |
| NgWordMask.Segment | model/ng_word.go:186-201 | the normalised text is the segments' normal forms, and each of its positions is mapped to its whole segment |
| NgWordText.OriginsAreSegments | model/ng_word.go:186-198 | there is one origin per normalised position, each a whole segment up to the next boundary, in text order |
| NgWordMask.FindMatches | model/ng_word.go:203-219 | finds exactly the non-empty matches of a word, overlapping ones included |
| NgWordMask.CollectSpans | model/ng_word.go:202-225 | collects exactly the segment-aligned spans of all non-empty matches of all words |
| NgWordMask.SortByStart | model/ng_word.go:229-229 | the spans come out ordered by start, none lost; equal starts in any order |
| NgWordMask.MergeSpans | model/ng_word.go:230-240 | the merged spans are non-empty, ordered and disjoint, cover the same positions and join the same neighbours as the raw ones |
| NgWordMask.MergedSpansAreAligned | model/ng_word.go:230-240 | merged spans start and end at segment boundaries |
| NgWordMask.Splice | model/ng_word.go:241-249 | uncovered text is kept character by character and each merged span becomes one mask |
| NgWordMask.Mask | model/ng_word.go:181-250 | the result is the redaction determined by the set of raw spans alone; a nil matcher and the empty text return the text |
| NgWordSafety.RedactedIsPieces | model/ng_word.go:178-180 | the redaction consists of whole original segments and masks |
| NgWordSafety.OccurrenceIsCovered | model/ng_word.go:208-219 | every position of every occurrence of a word in the normalised text comes from covered text, overlapping occurrences included |
| NgWordSafety.RegexMatchIsCovered | model/ng_word.go:203-225 | so does every position of every non-empty match that an expression finds |
| NgWordSafety.CoveredIsShown | model/ng_word.go:203-225 | nothing else is covered: each covered position belongs to an occurrence of a word or a match of an expression |
| NgWordSafety.OccurrenceTouchesAMask | model/ng_word.go:178-249 | any occurrence of a word in the normalised masked text contains a character of an inserted mask |
| NgWordSafety.MaskedTextHidesWord | model/ng_word.go:178-249 | a word that neither starts nor ends with × nor contains ×××× does not occur in the normalised masked text, whatever else is masked there |
| NgWordSafety.OthersSurvive | model/ng_word.go:174-176 | every other word is still found in some text masked with words that the matcher compiles, under some normalisation |
| NgWordSafety.AlwaysHiddenIffHideable | model/ng_word.go:174-249 | a word is hidden in every masked text, beside any other patterns and under any normalisation, exactly when it is of the first kind |
| NgWordSafety.MatchAfterMask | model/ng_word.go:155-250 | Match finds nothing in a masked text when all patterns are words of that kind |
| NgWordSafety.CleanTextIsKept | model/ng_word.go:226-228 | a text in which no pattern hits is returned unchanged |
| NgWordSafety.MaskIsIdempotent | model/ng_word.go:181-250 | masking a masked text changes nothing, for words of that kind |
| NgWordSafety.MaskIgnoresWordOrder | model/ng_word.go:203-240 | the result depends only on the set of patterns, not on their order or repetition |
| NgWordSafety.HiddenAloneIffHideable | model/ng_word.go:174-249 | a word that does not overlap itself is hidden in every text masked by it alone exactly when it is of the first kind |
| NgWordSafety.CrossSurvivesMasking | model/ng_word.go:174-176 | the word × still hits the masked text × even when it is the only word |
| SubscriptionStream.Affects | graph/subscription_stream.go:90-100 | true exactly for an empty list or one that contains the user |
| SubscriptionStream.SentIsPrefixOfArrivals | graph/subscription_stream.go:238-272 | in every run the values sent are a prefix of the accepted inputs, converted, in arrival order |
| SubscriptionStream.DeliverableIsWhatIsKept | graph/subscription_stream.go:245-254 | the accepted inputs are exactly those of the right type that convert keeps, each once and in order |
| SubscriptionStream.ReadIsWhatWasSent | graph/subscription_stream.go:262-272 | what the subscriber reads is what was sent, in order, with at most one value still in the channel |
| SubscriptionStream.LeavesOnlyForACause | graph/subscription_stream.go:176-273 | in every run the loop has ended only because the context was done, because a check was denied (if there is an authorisation), or because the data topic was closed and everything accepted was sent |
| SubscriptionStream.StandsStillIffItWaits | graph/subscription_stream.go:223-272 | the loop can take a step exactly unless it is finished, has nothing to receive, or has a full channel to send to |
| SubscriptionStream.FinishedIsCleanedUp | graph/subscription_stream.go:213-222 | nothing is sent after `out` is closed, and a finished loop has closed it once and left each topic once |
| SubscriptionStream.DeniedStaysSilent | graph/subscription_stream.go:185-211 | while access is denied and a signal for the user waits, no step of the loop or of its surroundings leads past the drain |
| SubscriptionStream.QueuedRevocationStopsDelivery | graph/subscription_stream.go:185-255 | once a signal for the user is waiting before a value's drain ends (a recheck in between included), or a recheck has been called, and access is denied from then on, neither that value nor a later one is sent |
| SubscriptionStream.RevocationStopsDelivery | graph/subscription_stream.go:90-100 | the same for a guarded loop with a signal for everyone, for its user or of an unknown kind in the channel |
| SubscriptionStream.SignalIsHeard | graph/subscription_stream.go:176-183 | such a signal can arrive from the start on and leads to a recheck; one for others leads back to waiting |
| SubscriptionStream.ReleaseFollowsCheck | graph/subscription_stream.go:255-261 | every value is released less than one interval after the last completed check or the start |
| SubscriptionStream.LostAccessEndsReleases | graph/subscription_stream.go:36-58 | nothing is released at or after the loss of access plus the interval plus L - 1 units, where checks take up to L units from decision to stamp and the entry check up to L units to the start of the loop |
| SubscriptionStream.SlowCheckReleasesLate | graph/subscription_stream.go:162-172 | for every L there is a run, with access lost after the start, that releases in the last unit before that bound |
| SubscriptionStream.StartReleasesLate | graph/subscription_stream.go:159-160 | for every L there is one in which access is lost right after the entry check, L - 1 units before the start |
| SubscriptionStream.GraceIsExact | graph/subscription_stream.go:159-261 | a delay after a loss that follows the entry check is safe in every run exactly when it is at least that bound, and the interval alone is exactly when L is at most one unit |
| SubscriptionStream.LoopStepUsesWork | graph/subscription_stream.go:223-274 | every step of the loop uses up work, so it cannot spin without new arrivals |
| SubscriptionStream.CancelledCanMove | graph/subscription_stream.go:262-272 | a cancelled loop is never stuck, not even in a send that nobody reads |
| SlotConflicts.RowsAreTheConflicts | infra/mysql/course_sync_repository.go:161-172 | the rows of a query are exactly the conflicts of the entries of its moved courses |
| SlotConflicts.RowsAreByEntry | infra/mysql/course_sync_repository.go:170-170 | the rows of one query are in order of the entry id |
| SlotConflicts.RemoveGreedily | infra/mysql/course_sync_repository.go:191-209 | the removals are those of the greedy pass, in which a row removes its entry unless, when it is reached, a side is gone or the other entry yields; no entry is reported twice, and every row ends with a side removed or left to the other entry's own row |
| SlotConflicts.FindSlotConflicts | infra/mysql/course_sync_repository.go:144-210 | the outcome is that of the greedy pass over the rows of all chunks, one chunk after the other; it fails exactly when a chunk's query fails |
| SlotConflicts.GreedySettles | infra/mysql/course_sync_repository.go:191-209 | each removal of the pass was made by a row whose other entry was then still kept, and every row ends settled |
| SlotConflicts.NoConflictRemains | infra/mysql/course_sync_repository.go:189-208 | whatever the order of the rows, no two remaining entries of one user overlap when one is of a moved course |
| SlotConflicts.SlotsAreFree | infra/mysql/course_sync_repository.go:158-208 | this holds of what the code returns for any number of chunks, and no entry of an unmoved course is removed |
| SlotConflicts.OnlyMovedAreRemoved | infra/mysql/course_sync_repository.go:189-190 | only entries of moved courses are removed, each once |
| SlotConflicts.SurvivorsFollowTheRule | infra/mysql/course_sync_repository.go:189-208 | with the rows in order, an entry is removed exactly when the rule (it stays unless an unmoved one, or an earlier moved one that stays, conflicts) says so |
| SlotConflicts.KeptIsKept | infra/mysql/course_sync_repository.go:200-207 | with the rows in order, the course reported as kept is that of a surviving entry of the same user |
| SlotConflicts.ClearClashes | infra/mysql/course_sync_repository.go:144-210 | over any number of chunks, an entry is taken out only if it is of a moved course and shares a timetable cell (year, day, period, term) with another entry of its user, and afterwards no entry of a moved course shares a cell with another one |
| SlotConflicts.ClearClashesInOneQuery | infra/mysql/course_sync_repository.go:144-210 | within one query each removed entry shares a cell with an entry that stayed, and that is the one reported |
| SlotConflicts.ResolveConflicts | repository/course_sync_repository.go:66-71 | when one query holds all moved courses: exactly the entries failing the rule are removed, once each, and putting one back would conflict with a survivor |
| SlotConflicts.ChunksMayRemoveTooMuch | infra/mysql/course_sync_repository.go:158-187 | for every query size and every larger number of distinct moved courses there are tables where the pass over the code's rows removes an entry that should stay |
| SlotConflicts.RuleDecidesWithinOneQuery | infra/mysql/course_sync_repository.go:158-208 | what is removed follows the rule for all tables and any n moved courses exactly when one query holds n |
| SlotConflicts.RuleDecidesUpTo60000 | infra/mysql/query_helper.go:112-125 | with the query size of the code, exactly when n is at most 60000 |
| FieldSet.NewFieldSet | repository/field_set.go:36-42 | the set holds exactly the given names |
| FieldSet.ComputeWants | repository/field_set.go:50-60 | true exactly when everything or one of the names is requested |
| FieldSet.CacheKey | repository/field_set.go:67-80 | the key is "*", "-" or the comma-joined ascending names, whatever order the map yields them in |
| FieldSet.KeyIsCanonical | repository/field_set.go:62-66 | a field set has one key only |
| FieldSet.JoinIsInjective | repository/field_set.go:79-79 | joined names without commas can be split again uniquely |
| FieldSet.KeysAgreeIffWantsAgree | repository/field_set.go:62-80 | two field sets of plain names have the same key exactly when Wants answers alike on everything |
| FieldSet.GraphQLNamesArePlain | repository/field_set.go:8-11 | GraphQL names meet that condition |
| FieldSet.OddNamesCollide | repository/field_set.go:67-80 | without it keys collide |
| AnalyticsSummary.ServesAreTheReaders | infra/mysql/analytics_repository.go:182-241 | each query's serves list names exactly the fields whose value depends on its answer |
| AnalyticsSummary.LoadCounts | infra/mysql/analytics_repository.go:260-271 | exactly the counters that a requested field depends on are loaded |
| AnalyticsSummary.DerivedIsRight | infra/mysql/analytics_repository.go:320-366 | every requested average or ratio has its true value: all its numerators and denominators were loaded |
| AnalyticsSummary.LoadAverages | infra/mysql/analytics_repository.go:374-412 | exactly the requested averages are loaded, and a failure among them fails the summary |
| AnalyticsSummary.GetAnalyticsSummary | infra/mysql/analytics_repository.go:243-372 | fails exactly when a needed query fails; every requested field has its true value in the database state: each rate times its denominator is its numerator (times 100 for the three percentages), 0 when there is nothing to divide by, each average is the database's or 0 for NULL; counters nobody needs stay zero; metrics are always filled |
| AnalyticsSummary.TrueRateMeans | infra/mysql/analytics_repository.go:320-366 | the value by which the other results measure each rate is that quotient |
| AnalyticsSummary.PercentagesAreBounded | infra/mysql/analytics_repository.go:331-366 | where parts fit into their wholes the three percentages lie between 0 and 100 |
| AnalyticsSummary.SelectiveAgreesWithFull | infra/mysql/analytics_repository.go:69-81 | on the requested fields the selective and the all-fields summary of one database state agree |
| AnalyticsSummary.ReadsAreEnough | infra/mysql/analytics_repository.go:320-366 | a field's value depends on no answer besides those of the queries it reads |
| AnalyticsSummary.NeededQueryMatters | infra/mysql/analytics_repository.go:69-81 | leaving out any query that runs would show: some requested value changes with that query's answer alone, between answers in which no part exceeds its whole |
| AnalyticsCache.CachedAnalyticsRepository.GetAnalyticsSummary | infra/cache/analytics_cache.go:145-174 | an answer comes from a computation for the same fields after the last invalidation, made now or less than one TTL ago, and on them it is true of the database state of that computation; a hit is an unexpired entry; it fails only on a miss whose computation needs a failing query; failures are not stored; metrics are fresh |
| AnalyticsCache.CachedAnalyticsRepository.SweepExpired | infra/cache/analytics_cache.go:90-100 | deletes exactly the expired entries, at most once in an interval |
| AnalyticsCache.CachedAnalyticsRepository.InvalidateSummary | infra/cache/analytics_cache.go:123-127 | leaves no entry, and no computation made before counts any more |
| AnalyticsCache.CachedAnalyticsRepository.constructor | infra/cache/analytics_cache.go:129-143 | starts with no entry |
| AnswerPages.RowNumberIsPosition | infra/mysql/answer_repository.go:331-334 | a row's ROW_NUMBER is its position in the sorted question |
| AnswerPages.DealtIsSinglePage | infra/mysql/answer_repository.go:304-311 | the rows dealt to a question are the single-question page for the same limit and offset |
| AnswerPages.ListAnswerPagesByQuestionIDs | infra/mysql/answer_repository.go:312-410 | every listed question, and no other, gets its single-question page, and its single-question count when totals are requested |
| AnswerPages.PageQueryHasAnswer | infra/mysql/answer_repository.go:324-342 | the batched query always has an answer: the single pages of the questions, by ascending question |
| AnswerPages.SortedIsUnique | infra/mysql/answer_repository.go:85-85 | the order leaves the sort no freedom: two sorted listings of the same answers are equal |
| AnswerPages.PagesDescendByLikes | infra/mysql/answer_repository.go:85-102 | on a page and from page to page likes never rise; equal likes stand by creation time, then by id |
| AnswerPages.PageItemsAreCounted | infra/mysql/answer_repository.go:76-102 | a page shows answers of its question, each with the number of its likes and of the viewer's |
| AnswerPages.PageSize | infra/mysql/answer_repository.go:85-102 | a page is full unless the counted answers run out |
| AnswerPages.PagesShowEachAnswerOnce | infra/mysql/answer_repository.go:76-102 | consecutive pages of unchanged data show every answer of the question exactly once, in order |
| AddendumTransactions.NeverMoreThanLimit | infra/mysql/addendum_repository.go:41-45 | no question or answer ever has more than the limit, under any interleaving of creates and deletes |
| AddendumTransactions.LimitErrorMeansFull | infra/mysql/addendum_repository.go:67-74 | the limit error comes only when the parent has at least max committed addenda, and never more than the largest max |
| AddendumTransactions.NotFoundMeansAbsent | infra/mysql/addendum_repository.go:60-66 | the error about the parent comes only when the parent is not there |
| AddendumTransactions.ReturnedIdIsOwnRow | infra/mysql/addendum_repository.go:75-89 | a returned id is that of the caller's own stored row until it is deleted, and no two calls get the same |
| AddendumTransactions.RowsAreCommitsNotRemoved | infra/mysql/addendum_repository.go:50-89 | the stored rows are exactly those of the calls that committed, answered or not, and were not removed again |
| AddendumTransactions.RowsAreSuccessesNotRemoved | infra/mysql/addendum_repository.go:50-89 | if every COMMIT is answered, they are exactly those of successful calls that were not removed again |
| AddendumTransactions.NoDeadlock | infra/mysql/addendum_repository.go:60-66 | while a call is unfinished, some call can take its next regular step |
| CourseBulkInsert.InsertAllRooms | infra/mysql/course_repository.go:174-198 | every course gets the id of its own new room with its name, across chunks and gaps in the ids, unless an INSERT fails |
| CourseBulkInsert.InsertAllCourses | infra/mysql/course_repository.go:200-222 | every course gets the id of its own new row, which refers to its room, unless an INSERT fails |
| CourseBulkInsert.SaveCoursesWithRooms | infra/mysql/course_repository.go:139-171 | courses come back in the caller's order with the ids of their own new rows and of their own new rooms of the kind course and the course's name, and nothing else is added or changed; it fails exactly when BEGIN, an INSERT of either pass or COMMIT does, and then nothing is changed, or everything stored if COMMIT took effect without an answer; the two passes meet gaps in the ids and failures independently |
| SelectionHelpers.SelectionAtPath | graph/selection_helpers.go:129-145 | returns the concatenation of all selections reached along the path |
| SelectionHelpers.CollectedFieldNames | graph/selection_helpers.go:150-157 | lists exactly the names collected |
| SelectionHelpers.TraversalsAgree | graph/selection_helpers.go:67-145 | a name is selected below a path exactly when it is among the names collected at the path |
| SelectionHelpers.ReachedIffSelected | graph/selection_helpers.go:67-145 | a non-empty path is reached by the one traversal exactly when the other finds it selected |
| SelectionHelpers.SelectedIffChain | graph/selection_helpers.go:67-83 | a path is selected exactly when a chain of collected fields, each taken from the selections of the one before, bears its names |
| SelectionHelpers.ResolveAnalyticsFields | graph/selection_helpers.go:112-124 | the field set holds exactly the names whose path is selected |
| Complexity.FactorCoversRows | graph/complexity.go:72-113 | the weight's factor covers the rows a resolver may return exactly when the limit is omitted, null or at least 1 |
| Complexity.CostCoversResolutions | graph/complexity.go:124-147 | the weight of a query with such limits is at least the field resolutions it can cause, over all nestings |
| Complexity.CostCoversEveryResponse | graph/complexity.go:124-147 | the weight of a query is at least the field resolutions of every response in which no resolver returns more rows than it may |
| Complexity.ResolutionsAreReached | graph/pagination_helpers.go:66-95 | and the bound on the resolutions is reached by some such response |
| Complexity.AcceptedQueriesAreBounded | graph/complexity.go:172-190 | a query whose root fields together stay within the accepted weight causes at most that many field resolutions |
| Complexity.ResolveLimit | graph/pagination_helpers.go:75-87 | the smaller of a positive limit and the upper bound, or the fallback |
| Complexity.ResolveOffset | graph/pagination_helpers.go:97-111 | an offset always lies between 0 and the largest allowed, and one that does is kept |
| Complexity.ZeroLimitIsUndercounted | graph/pagination_helpers.go:75-87 | a limit of 0 weighs 2 where 21 fields are resolved |

## Left out

- GraphQL resolvers, presenters, use cases, wiring and generated code: decoding and mapping only.
- Storage, mail, Redis, the scraper and migrations: foreign calls.
- Encryption of bodies, password hashing and timestamps of rows.
- Concurrency of the analytics queries and of cache misses (errgroup, singleflight): a summary reads one database state and cache calls come one after the other.
- The order in which summary fields are assigned: a summary and a compiled matcher are values here.
- Sharing of the cached summary object between callers: summaries are values here.
- GetTimeSeries and GetCommunityAnalytics of the cache: the same lookup, store and sweep under other keys.
- The series queries around the rolling counter, and the SQL that numbers its slots: its rows are the input.
- The spelling of the summary's field names: any naming of the fields is allowed.
- Rounding of averages: quotients are exact rational numbers.
- Machine-integer overflow, and negative limits and offsets in SQL.
- SQL errors of the two answer queries: they are returned as they come.
- NgWordSafety.MatchAfterMask: asks of each word that no other pattern's mask can make it up; what one particular matcher of several words, or of a word that overlaps itself such as ×a×, hides by itself is not characterised.
- SaveCoursesWithRooms inside a transaction of the caller, where the caller rolls back.
- Removing and restoring course chat images, retiring and updating courses, reviews and runs: single statements in a row.
- Validation of new NG words, their hit statistics and the thread selection helpers.
- Lists without a limit argument in query weights: each field that is not limit-bearing is resolved once per parent.
