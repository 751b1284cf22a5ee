# auto_review: intake protocol and exact algorithms, modelled and proved in Dafny

The repository is a code-review bot for Forgejo. Its gateway takes webhooks and polls for
comments; a chat handler answers commands; a bench scores the reviews. This project models
the parts of it that have a clear meaning of their own and proves what they promise, over
every input, every run and every interleaving.

`dafny verify dfyconfig.toml` checks everything.

## Contents

| file | models |
|---|---|
| `RateLimit.dfy` | the webhook throttle, a token bucket |
| `Dedup.dfy` | the two stores of delivery ids, a bounded queue and a table |
| `Intake.dfy` | throttle, signature and dedup in the order of the webhook handler, built from the two modules above |
| `Command.dfy` | the chat command parser, the poller's pre-filter, and the revoke command that `remember` prints |
| `MentionBytes.dfy` | the same comparisons on bytes of UTF-8, as the source makes them |
| `Poller.dfy` | the shared cursors and one undisturbed polling pass |
| `ClaimProtocol.dfy` | webhooks, any number of polling passes and pruning, racing for comments |
| `Metrics.dfy` | review recorders and a scrape, racing on the counters |
| `MetricsText.dfy` | the metrics page, the status command that reads it, and the numbers of its summary |
| `Fences.dfy`, `Suggestions.dfy` | a reader of fenced code blocks (section 4.5 of the CommonMark Spec 0.31.2), and the suggestion and scaffold comments written for it |
| `CommentSize.dfy` | how large those comments can get |
| `Utf8.dfy` | UTF-8 (sections 3 and 4 of RFC 3629) and truncation at a byte cap |
| `Redaction.dfy` | masking of secret paths and tokens in start-up errors |
| `Bench.dfy` | greedy matching of findings and labels |
| `CoChange.dfy` | the graph of files changed together |
| `Learnings.dfy` | the in-memory store of learnings and its nearest-neighbour query |
| `Idempotency.dfy` | the idempotency key and concurrent invocations |
| `Basics.dfy`, `Text.dfy`, `Ranking.dfy` | shared notions: Rust's `str` functions, sorting and truncating |

Code that changes state in place is a class or a method with loops, proved equal to a
specification function; the theorems are then about the function and its runs, and say in terms
of the inputs alone what the function yields. Concurrent
code is a step system whose steps are the atomic accesses of the source.

## What the proofs found

These points are properties of the code, not of the model; each has a lemma with the exact
condition, and some have a concrete input beside it.

- The revoke command that `remember` prints names `@auto-review` in any case. It can be used
  if and only if the bot is called `auto-review`, up to ASCII case
  (`Command.RevokeCommandRoundTrip`).
- A scaffold comment shows its sources exactly if and only if no header line opens a fence
  (`Suggestions.SourcesAreShownIff`). Header fields without line ends suffice, but nothing
  excludes a line end in an item name, and one can hide the source
  (`Suggestions.TwoLineNameHidesTheSource`). For suggestions the condition is that the reason
  closes every fence that it opens (`Suggestions.SuggestionIsShown`).
- The caps keep a suggestion comment within 16 KiB (`CommentSize.SuggestionIsBounded`). Scaffold
  comments are not bounded: their header fields are not capped
  (`CommentSize.HeadersAreNotBounded`). For a given number of scaffolds the size of the headers
  decides, both ways (`CommentSize.ScaffoldsAreBoundedButForHeaders`).
- The comment at crates/ar-gateway/src/metrics.rs:88-94 says that the last duration bucket
  equals the completed count. It does if and only if no review took more than 600 s
  (`Metrics.LastBucketIsCompletedIff`).
- crates/ar-gateway/src/dedup.rs calls the bounded store LRU. It is first-in first-out: a
  duplicate does not refresh its id. Throughout a run the store is an LRU store if and only if
  every duplicate repeats the id that was last answered FirstSight (`Dedup.IsLruIff`;
  `Dedup.HitsDoNotRefresh` is a concrete run in which one does not).
- Each commit is documented to contribute one count to every pair of files in it. The weight of
  a pair is the number of commits that list both if and only if each of those lists both once
  (`CoChange.WeightCountsCommitsIff`).
- Of the claims on a comment won in one lifetime of its cursor entry at most one is dispatched,
  but pruning starts a new lifetime (`ClaimProtocol.PruneAllowsASecondDispatch`). A claim wins if
  and only if its id is above everything claimed or seeded in the current lifetime
  (`ClaimProtocol.ClaimWinsIffAboveAllMarks`), and while a PR stays known to every prune no
  comment of it is dispatched twice (`ClaimProtocol.AtMostOnceWhileKnown`).
- The poller's pre-filter loses no command, but lets other comments through. On one line that
  begins with the mention, the parser takes it for a command if and only if the mention ends at a
  word break (`Command.MentionAtStartIff`).
- A refused call leaves no trace in the throttle, in any run that continues no earlier than it
  and the call before it, if and only if the clock did not step back to it
  (`RateLimit.RefusedCallLeavesNoTraceIff`; `RateLimit.BackwardClockBreaksStuttering` is a
  concrete run in which it did).
- The idempotency key tells invocations apart whose owners and repositories have no colon, whatever
  their heads (`Idempotency.InjectiveOnColonFree`). It tells an invocation from all others,
  including those with colons there, if and only if its own owner and repository have no colon
  and no part of its head between colons, other than the last, is a number
  (`Idempotency.KeyIsUniqueIff`).

- The status summary's `reviews_failed_total` leaves out panics and unknown error classes. At rest
  it makes up the completed reviews together with the succeeded ones if and only if no review
  ended in either way (`MetricsText.SummaryAddsUpIff`).
- A line `COMMIT ` in a log whose hash is blank is read as a file named COMMIT
  (`CoChange.CommitLineIff`).

## Model

| member | source | states |
|---|---|---|
| RateLimit.TokenBucket.constructor | crates/ar-gateway/src/ratelimit.rs:42-55 | the bucket starts full, with a zero burst or rate raised to one |
| RateLimit.TokenBucket.TryTakeAt | crates/ar-gateway/src/ratelimit.rs:62-76 | one call refills by rate × the time forward, clips at capacity, answers whether there is a token and takes it |
| RateLimit.TokensStayWithin | crates/ar-gateway/src/ratelimit.rs:62-76 | over any run, on any clock, tokens stay in [0, capacity] |
| RateLimit.LevelIsLeastRoom | crates/ar-gateway/src/ratelimit.rs:62-76 | the level at a call is the least room that any window ending at it leaves |
| RateLimit.AcceptsIffEveryWindowConforms | crates/ar-gateway/src/ratelimit.rs:62-76 | a call is accepted if and only if accepting it keeps every window within capacity plus inflow |
| RateLimit.WindowBound | crates/ar-gateway/src/ratelimit.rs:62-76 | any contiguous run accepts at most capacity + rate × the forward time steps, on any clock |
| RateLimit.WindowBoundOnAMonotoneClock | crates/ar-gateway/src/ratelimit.rs:62-76 | on a nondecreasing clock that is capacity + rate × elapsed |
| RateLimit.PatientCallerIsAccepted | crates/ar-gateway/src/ratelimit.rs:62-76 | a call at least 1/rate after the previous one is accepted |
| RateLimit.RefusedCallsLeaveNoTrace | crates/ar-gateway/src/ratelimit.rs:62-76 | on a nondecreasing clock, deleting a refused call changes no other answer |
| RateLimit.RefusedCallLeavesNoTrace | crates/ar-gateway/src/ratelimit.rs:62-76 | the same on any clock that does not step back at that call or right after it |
| RateLimit.RefusedCallLeavesNoTraceIff | crates/ar-gateway/src/ratelimit.rs:62-76 | after any run, a refused call changes no answer in any later run that starts no earlier than it and the call before it, if and only if the clock did not step back to it |
| RateLimit.BackwardRefusalShows | crates/ar-gateway/src/ratelimit.rs:64-67 | if it did, there is a later time at which a call is accepted only because of the refused one |
| RateLimit.SurvivorsAloneAreAllAccepted | crates/ar-gateway/src/ratelimit.rs:62-76 | deleting all refused calls at once leaves a run of accepted calls that ends in an equivalent bucket |
| RateLimit.BackwardClockBreaksStuttering | crates/ar-gateway/src/ratelimit.rs:62-67 | a concrete run on a clock that steps back in which a refused call changes a later answer |
| Dedup.RecentDeliveries.constructor | crates/ar-gateway/src/dedup.rs:38-47 | the store starts empty; capacity zero becomes one |
| Dedup.RecentDeliveries.CheckAndRecord | crates/ar-gateway/src/dedup.rs:52-66 | one check answers from the queue, and a new id is appended, at capacity in place of the oldest |
| Dedup.SqliteDeliveries.CheckAndRecord | crates/ar-gateway/src/dedup.rs:133-149 | one insert-or-ignore answers from the rows and adds the id |
| Dedup.QueueIsSuffixOfFirstSights | crates/ar-gateway/src/dedup.rs:52-66 | after any run the queue is the last `capacity` first-sight ids, without repeats |
| Dedup.DuplicateIffAmongLastFirstSights | crates/ar-gateway/src/dedup.rs:52-66 | an answer is Duplicate if and only if the id is among the last `capacity` first sights |
| Dedup.RememberedForExactlyCapacityFirstSights | crates/ar-gateway/src/dedup.rs:57-64 | an id is forgotten exactly when `capacity` other first sights have followed it |
| Dedup.HitsDoNotRefresh | crates/ar-gateway/src/dedup.rs:1-35 | a concrete run in which a duplicate hit does not keep its id |
| Dedup.IsLruIff | crates/ar-gateway/src/dedup.rs:1-66 | throughout a run the queue is that of an LRU store if and only if every duplicate repeats the id that was last answered FirstSight |
| Dedup.RowsAreTheArrivals | crates/ar-gateway/src/dedup.rs:133-149 | the table holds exactly the ids that have arrived |
| Dedup.BoundedDuplicatesAreReal | crates/ar-gateway/src/dedup.rs:52-66 | every in-memory duplicate is one for the table |
| Dedup.StoresAgreeIffReturnsInTime | crates/ar-gateway/src/dedup.rs:52-66 | the stores answer alike throughout a run if and only if every repeat returns within `capacity` distinct ids |
| Dedup.StoresAgreeOnFewIds | crates/ar-gateway/src/dedup.rs:52-66 | they agree on runs with at most `capacity` distinct ids |
| Intake.Gateway.Handle | crates/ar-gateway/src/webhook.rs:30-115 | one request moves throttle, delivery store and counters, and is answered, as `After` and `Answer` say |
| Intake.Gateway.CheckDelivery | crates/ar-gateway/src/webhook.rs:74-102 | the dedup branch, in which a store that is absent or down lets the delivery through |
| Intake.CountersAccountForAll | crates/ar-gateway/src/webhook.rs:34-115 | over any run each request is counted exactly once as throttled, refused or an event, and duplicates are the DuplicateOk responses |
| Intake.ResponseIff | crates/ar-gateway/src/webhook.rs:30-115 | each response if and only if: throttled, which fault of the signature, and for a signed first sight which event name |
| Intake.EventsAreCountedByName | crates/ar-gateway/src/webhook.rs:62-67 | over any run each event counter has gone up by the number of signed requests of its name that passed the throttle, duplicates among them |
| Intake.DeliveryPlaces | crates/ar-gateway/src/webhook.rs:69-102 | the deliveries that the store is fed with are the ids of exactly the authentic requests, in order |
| Intake.SignatureChecksAreBounded | crates/ar-gateway/src/webhook.rs:31-39 | in any window at most capacity + rate × the forward time steps requests reach the signature check |
| Intake.StoreHoldsDeliveries | crates/ar-gateway/src/webhook.rs:30-102 | the bounded store is the one fed with the authentic deliveries alone |
| Intake.DroppedIffAuthenticRepeat | crates/ar-gateway/src/webhook.rs:69-102 | a delivery is dropped if and only if it is authentic and repeats one of the last `capacity` different authentic ids |
| Intake.TableHoldsDeliveries | crates/ar-gateway/src/webhook.rs:74-102 | the table holds exactly the ids of authentic deliveries made while it answered |
| Intake.ThrottledRequestLeavesNoTrace | crates/ar-gateway/src/webhook.rs:31-39 | if the clock does not step back around it, deleting a throttled request from a run changes no other response |
| Command.PreFilterLosesNoCommand | crates/ar-gateway/src/poller.rs:251-262 | if the parser returns anything but NotMentioned, the poller's byte-window filter accepts the body |
| Command.MentionAtStartIff | crates/ar-chat/src/command.rs:62-92 | a one-line comment that begins with the mention or its alias passes the pre-filter, and is a command if and only if nothing or a word break follows |
| Command.LongerNamePassesPreFilterOnly | crates/ar-chat/src/command.rs:62-75 | the converse fails: a longer name that starts with the bot's passes the filter only |
| Command.MentionThenRest | crates/ar-chat/src/command.rs:56-92 | a one-line comment of mention, blank and rest is split there, and its rest decides |
| Command.CommandByKeyword | crates/ar-chat/src/command.rs:140-165 | a one-line comment of mention, gap, word and tail is each command if and only if the word is one of its keywords, up to ASCII case; remember carries the trimmed tail and forget its number, else they ask for help; any other word makes a question of all of the rest |
| Command.MentionAloneIsHelp | crates/ar-chat/src/command.rs:140-143 | a mention with nothing but blanks and separators behind it asks for help |
| Command.FirstMentionDecides | crates/ar-chat/src/command.rs:62-95 | a comment of several lines that is no quote reply is the command of the first line that, on its own, is one |
| Command.CorrectionIff | crates/ar-chat/src/command.rs:104-134 | a comment is a review correction if and only if it is a quote reply with prose; the correction is exactly the lines below the first that are neither blank nor quoted, trimmed, in order, joined by newlines |
| Command.JoinOfParts | crates/ar-chat/src/command.rs:122-132 | joining puts one newline between any two parts |
| Command.ForgetIsClassified | crates/ar-chat/src/command.rs:140-158 | `forget` and the decimal of any u64 is Forget of that number |
| Command.ReplyQuotesTheCommand | crates/ar-chat/src/handler.rs:1008-1011 | the text between the first two backticks of the reply is the revoke command |
| Command.RevokeCommandRoundTrip | crates/ar-chat/src/handler.rs:1008-1011 | for every u64 id, the command between the backticks of the reply parses to Forget of the id if and only if the bot is called auto-review up to ASCII case |
| Command.RevokeOfAutoReview | crates/ar-chat/src/handler.rs:1008-1011 | for the default bot name it does |
| MentionBytes.EqBytesIffEqChars | crates/ar-chat/src/command.rs:97-102 | comparing UTF-8 bytes without ASCII case means comparing characters so |
| MentionBytes.StripMentionIsOnBytes | crates/ar-chat/src/command.rs:97-102 | the byte comparison strips a mention exactly when the characters match, and the slice after it never splits a character |
| MentionBytes.PreFilterIsOnBytes | crates/ar-gateway/src/poller.rs:251-262 | the byte windows of the pre-filter find exactly what it finds on characters |
| Poller.CommentCursors.Claim | crates/ar-gateway/src/poller.rs:42-54 | a claim wins if and only if the id is above the cursor, and raises it to the id; no other entry moves |
| Poller.CommentCursors.SeedMonotonic | crates/ar-gateway/src/poller.rs:56-62 | seeding never lowers a cursor |
| Poller.CommentCursors.Prune | crates/ar-gateway/src/poller.rs:172-176 | exactly the entries of known PRs stay |
| Poller.ChatPoller.ScanComments | crates/ar-gateway/src/poller.rs:228-277 | for an existing entry, the scan loop queues the ids of `Selected`, none of them of a comment by the bot, and raises the cursor to `MaxSeen` |
| Poller.ChatPoller.PollPr | crates/ar-gateway/src/poller.rs:196-320 | an undisturbed pass dispatches `Selected`, never a comment by the bot, and leaves the cursor at the maximum; a first sight seeds and dispatches nothing |
| Poller.FindById | crates/ar-gateway/src/poller.rs:278-290 | the lookup returns the first comment with the id, or none if there is none |
| Poller.SelectedExactly | crates/ar-gateway/src/poller.rs:228-277 | for any listing order, exactly the wanted strict left-to-right maxima above the cursor are dispatched; `SelectedIff` says which comments these are |
| Poller.SelectedIff | crates/ar-gateway/src/poller.rs:228-277 | a comment is dispatched if and only if its id is above the cursor and every id listed before, its login is not the bot's up to ASCII case, and its body contains the mention or the alias |
| Poller.SelectedIncreasing | crates/ar-gateway/src/poller.rs:228-277 | their ids strictly increase |
| Poller.MaxSeenIsMaximum | crates/ar-gateway/src/poller.rs:228-277 | the cursor ends at the maximum of the old cursor and all listed ids |
| Poller.SecondPassIsSilent | crates/ar-gateway/src/poller.rs:196-320 | a second pass over the same listing dispatches nothing |
| Poller.LookupFindsTheClaimed | crates/ar-gateway/src/poller.rs:278-290 | the later lookup by id finds the very comment that was claimed |
| Poller.WebhookCommandIsWanted | crates/ar-gateway/src/webhook.rs:141-150 | a comment that the webhook handler would claim is one that the poller would |
| ClaimProtocol.RunKeepsInv | crates/ar-gateway/src/poller.rs:42-283 | in every reachable state a cursor is the greatest mark of its lifetime, claims of a lifetime increase, and nothing is queued or sent twice |
| ClaimProtocol.DispatchedAreUserMentions | crates/ar-gateway/src/poller.rs:228-277 | in every run no dispatched comment is by the bot, and each contains the mention or the alias |
| ClaimProtocol.WebhookClaimsAreCommands | crates/ar-gateway/src/webhook.rs:141-160 | what a webhook claims is a comment that was received, not by the bot, and parses to a command |
| ClaimProtocol.PollClaimsAreListed | crates/ar-gateway/src/poller.rs:196-277 | what a pass claims is a comment of the listing that it was given |
| ClaimProtocol.AtMostOncePerLifetime | crates/ar-gateway/src/poller.rs:42-54 | under every interleaving, of the claims won in one lifetime of a PR's entry at most one is dispatched for each comment id, by webhook and passes together |
| ClaimProtocol.AtMostOnceWhileKnown | crates/ar-gateway/src/poller.rs:172-176 | in a run in which every prune knows the PR, no comment of it is dispatched twice |
| ClaimProtocol.ClaimWinsIffAboveAllMarks | crates/ar-gateway/src/poller.rs:42-54 | a claim wins if and only if its id is above every claim attempt and seed of the lifetime |
| ClaimProtocol.ReclaimOnlyAfterPrune | crates/ar-gateway/src/poller.rs:172-176 | a claim that was won once can be won again only after a prune of its PR |
| ClaimProtocol.PruneAllowsASecondDispatch | crates/ar-gateway/src/poller.rs:172-176 | a concrete run in which a prune leads to a second dispatch |
| ClaimProtocol.RunOnlyAdvances | crates/ar-gateway/src/poller.rs:42-62 | within a lifetime a cursor never decreases, and what was sent stays sent |
| ClaimProtocol.FirstSightPassIsSilent | crates/ar-gateway/src/poller.rs:211-245 | no step of a pass that saw no entry claims or dispatches, in any interleaving, and none lowers a cursor |
| ClaimProtocol.QuietPassRefinesPollPr | crates/ar-gateway/src/poller.rs:196-320 | with no other step in between, a pass of the step system does what `PollPr` does, on first sight and later |
| Bench.ClaimFirst | crates/ar-cli/src/bench.rs:477-490 | the inner loop claims an unclaimed label with the key if there is one |
| Bench.ScoreAgainstLabels | crates/ar-cli/src/bench.rs:469-499 | `matched` is the size of the multiset intersection of keys, so independent of order, with matched + missed = expected and matched + spurious = findings; the greedy assignment is a matching |
| Bench.CountMissed | crates/ar-cli/src/bench.rs:491-493 | the missed labels are the unclaimed ones |
| Bench.MatchingAtMostCommon | crates/ar-cli/src/bench.rs:469-499 | no injective matching matches more |
| CoChange.Flush | crates/ar-index/src/co_change.rs:52-71 | one commit adds to each pair the product of its occurrences, and n(n-1) for a file listed n times with itself |
| CoChange.ParseGitLog | crates/ar-index/src/co_change.rs:49-93 | for every log, each weight is the sum over its commits; on a printed log in which no commit lists a file twice, it is the number of the commits that list both files, and 0 for a file with itself |
| CoChange.OneMoreLine | crates/ar-index/src/co_change.rs:76-88 | a blank line changes nothing, a file line extends the current commit, a commit line closes it |
| CoChange.CommitLineIff | crates/ar-index/src/co_change.rs:77-82 | a line of the prefix and a hash begins a commit if and only if the hash is not blank |
| CoChange.PrintedLogReadsBack | crates/ar-index/src/co_change.rs:73-92 | a log printed from any commits, with blank lines below each, reads back as their file lists, in order, behind the empty one |
| CoChange.PrintedLogWeights | crates/ar-index/src/co_change.rs:49-93 | on a printed log a weight is at least the number of commits that list both files, and equal to it if and only if none of those lists either twice |
| CoChange.WeightsDetermineGraph | crates/ar-index/src/co_change.rs:17-29 | graphs with the same weights are equal |
| CoChange.WeightsAreSymmetric | crates/ar-index/src/co_change.rs:60-68 | the graph is symmetric |
| CoChange.WeightCountsCommitsIff | crates/ar-index/src/co_change.rs:17-29 | the weight of two files is the number of commits that list both if and only if each of those lists both once |
| CoChange.GraphIgnoresOrder | crates/ar-index/src/co_change.rs:49-93 | reordering commits, or files within commits, gives the same graph |
| CoChange.CommitAddsAllPairs | crates/ar-index/src/co_change.rs:60-68 | a commit of n files adds n(n-1) in total |
| CoChange.CommitsConservePairs | crates/ar-index/src/co_change.rs:49-93 | over any commits, the total of all weights is the sum of n(n-1) over them |
| CoChange.GraphConservesPairs | crates/ar-index/src/co_change.rs:49-93 | for every log, the total weight over the files of its graph is the sum of n(n-1) over its commits |
| CoChange.CoChangedWith | crates/ar-index/src/co_change.rs:33-43 | min(n, neighbours) of them with their weights, by falling weight and then path, nothing left out coming before anything kept, whatever the order of the map |
| CoChange.ByCountIsTotal | crates/ar-index/src/co_change.rs:38-40 | the sort key orders all neighbours strictly |
| CoChange.PathLessIff | crates/ar-index/src/co_change.rs:40 | paths are ordered by their first difference, a shorter one before its extensions |
| Ranking.SortedPrefixIsTop | crates/ar-index/src/co_change.rs:38-42 | sorting and truncating keeps the best: nothing left out precedes anything kept |
| Ranking.TopIsUnique | crates/ar-index/src/co_change.rs:38-42 | items, number and order determine the result |
| Learnings.InMemoryLearningsStore.Add | crates/ar-index/src/learnings.rs:101-120 | a record with the next id is appended; ids increase |
| Learnings.InMemoryLearningsStore.Remove | crates/ar-index/src/learnings.rs:126-134 | exactly the records with the id go, NotFound if and only if there is none |
| Learnings.InMemoryLearningsStore.QueryNearest | crates/ar-index/src/learnings.rs:136-157 | min(k, n) records, scores not rising, ties in insertion order, nothing left out scoring above anything kept; over unit vectors, nearest first, nothing left out lying nearer than anything kept |
| Learnings.CauchySchwarz | crates/ar-index/src/learnings.rs:160-171 | the Cauchy-Schwarz inequality for any two vectors of the same length |
| Learnings.CosineWithinUnit | crates/ar-index/src/learnings.rs:160-171 | over exact reals every score lies within [-1, 1] |
| Learnings.SelfScoreIsOne | crates/ar-index/src/learnings.rs:160-171 | a nonzero vector scores 1 with itself |
| Learnings.ScoreTimesLengths | crates/ar-index/src/learnings.rs:160-171 | the score times both lengths is the dot product, for any two vectors of the same length |
| Learnings.NoScore | crates/ar-index/src/learnings.rs:160-169 | vectors of different lengths and null vectors score 0 |
| Learnings.LawOfCosines | crates/ar-index/src/learnings.rs:160-171 | the squared distance of two vectors is the sum of their squares less twice the score times both lengths |
| Learnings.UnitScoreIsDistance | crates/ar-index/src/learnings.rs:160-171 | between unit vectors the squared distance is 2 less twice the score |
| Learnings.ScaledScore | crates/ar-index/src/learnings.rs:160-171 | a vector stretched by a positive factor keeps its score, and by a negative one has its negative |
| Learnings.DotIsSumOfProducts | crates/ar-index/src/learnings.rs:164 | the dot product adds up the products of the coordinates |
| Learnings.WithoutExactly | crates/ar-index/src/learnings.rs:126-134 | removal keeps the other records and is the identity if and only if the id is absent |
| Learnings.RemovalUndoesAdd | crates/ar-index/src/learnings.rs:101-134 | removing a record leaves the store as if it never had been added, but for its id, which is not handed out again |
| Learnings.RevokeRestores | crates/ar-chat/src/handler.rs:1004-1024 | running the command that the reply prints takes out exactly the record that was added, whatever was added and removed in between; with nothing in between the prior list is back |
| Metrics.Metrics.RecordReviewSucceeded | crates/ar-gateway/src/metrics.rs:147-162 | one more succeeded and completed, the duration, findings and dropped findings added to their sums, one more in each bucket whose bound holds the duration, modulo 2^64, and no other counter changed |
| Metrics.Metrics.RecordReviewFailed | crates/ar-gateway/src/metrics.rs:164-188 | the same without findings, under the counter of the error class: one for each of the five names, and one for all others |
| Metrics.Metrics.BucketDuration | crates/ar-gateway/src/metrics.rs:190-197 | the bucket loop adds one to every bucket whose bound is not exceeded |
| Metrics.RecordedAdds | crates/ar-gateway/src/metrics.rs:147-197 | at every point of a recorder each counter is what it was and what the increments so far have added, modulo 2^64 |
| Metrics.RunKeepsInv | crates/ar-gateway/src/metrics.rs:147-197 | with any number of interleaved recorders every counter is what they have added, modulo 2^64 |
| Metrics.BucketsWithinCompletedWithinOutcomes | crates/ar-gateway/src/metrics.rs:147-197 | in every reachable state each bucket ≤ completed ≤ the sum of the outcome counters |
| Metrics.BucketsNearlyMonotone | crates/ar-gateway/src/metrics.rs:190-197 | adjacent buckets are out of order by at most the recorders in flight |
| Metrics.QuiescentHistogramIsExact | crates/ar-gateway/src/metrics.rs:147-197 | when nothing is in flight, bucket i counts exactly the reviews within bound i, and completed equals the outcomes |
| Metrics.QuiescentCountersAreExact | crates/ar-gateway/src/metrics.rs:147-197 | at rest each outcome counter is the number of reviews that ended so, each bucket the number within its bound, and each sum that of the amounts, modulo 2^64 |
| Metrics.LastBucketIsCompletedIff | crates/ar-gateway/src/metrics.rs:88-94 | the last bucket equals the completed count if and only if no review exceeded 600 s |
| Metrics.ScrapedBucketsBelowInf | crates/ar-gateway/src/metrics.rs:435-463 | on every page, read counter by counter while recorders run, no bucket is above the +Inf bucket, and neither is the completed count in the table |
| MetricsText.Render | crates/ar-gateway/src/metrics.rs:245-430 | the page is the lines of the table followed by the histogram |
| MetricsText.RenderDurationHistogram | crates/ar-gateway/src/metrics.rs:435-463 | the lines of the histogram |
| MetricsText.ParseMetricCounters | crates/ar-cli/src/commands.rs:1177-1203 | the reader collects the samples of all lines, a later one winning |
| MetricsText.NamesAreDistinct | crates/ar-gateway/src/metrics.rs:247-413 | the 35 unlabelled sample names differ from each other |
| MetricsText.SampleIsRead | crates/ar-cli/src/commands.rs:1186-1200 | a line of name and value is read as that name and, if it parses, that u64 |
| MetricsText.CommentIsSkipped | crates/ar-cli/src/commands.rs:1180-1182 | HELP and TYPE lines give nothing |
| MetricsText.BucketLineIsSkipped | crates/ar-cli/src/commands.rs:1183-1185 | labelled bucket lines give nothing |
| MetricsText.PageReadsBack | crates/ar-cli/src/commands.rs:1177-1203 | from every page the reader gets each table counter's exact value, the sample count, the sum if it is a whole number, and nothing else |
| MetricsText.RenderedCountersReadBack | crates/ar-cli/src/commands.rs:1177-1203 | for every state of the counters, reading the rendered page gives each table counter by its name, and the number of completed reviews |
| MetricsText.RenderedCountersByName | crates/ar-gateway/src/metrics.rs:247-413 | for every state of the counters the status command reads each counter under its own name |
| MetricsText.PrefixedSpells | crates/ar-gateway/src/metrics.rs:247-413 | the names are spelled with the prefix and underscores |
| MetricsText.RenderedBuckets | crates/ar-gateway/src/metrics.rs:435-455 | below the table the page has a line for each bucket with its bound in seconds and its counter, and the +Inf line with the completed count |
| MetricsText.SummaryOfRenderedPage | crates/ar-cli/src/commands.rs:1019-1094 | each number of the status summary is the counter, or the sum of counters, that it is named for, and the success rate times completed is succeeded |
| MetricsText.SummaryAddsUpIff | crates/ar-cli/src/commands.rs:1023-1041 | at rest, succeeded and failed of the summary make up completed if and only if no review ended in a panic or an unknown error class |
| MetricsText.ScrapedStatusIsConsistent | crates/ar-gateway/src/metrics.rs:245-463 | scraped while recorders run, a page never shows the status command more completed reviews than histogram observations |
| Text.ParseU64ReadsBack | crates/ar-cli/src/commands.rs:1198-1200 | printing and parsing a number gives it back exactly if it is a u64 |
| Text.TrimExactly | crates/ar-chat/src/command.rs:63 | every text is whitespace, its trimmed form without whitespace at its ends, and whitespace |
| Text.TrimOfPadded | crates/ar-chat/src/command.rs:63 | and no other text is its trimmed form |
| Utf8.ValidIffEncoded | crates/ar-chat/src/handler.rs:1431-1434 | a byte string decodes to a text if and only if it is the text's encoding |
| Utf8.BoundaryIffPrefixEnd | crates/ar-chat/src/handler.rs:1433 | looking at one byte finds exactly the positions at which a prefix of characters ends |
| Utf8.FloorCharBoundary | crates/ar-chat/src/handler.rs:1431-1435 | the loop stops at the end of the longest prefix of characters within the cap |
| Utf8.FitIsLongest | crates/ar-chat/src/handler.rs:1431-1435 | that prefix fits and no longer one does |
| Utf8.TruncatedIff | crates/ar-chat/src/handler.rs:1427-1441 | the result is the text if it fits, else the longest prefix of at most that many bytes, a blank line, the marker and a line end, and nothing else is |
| Utf8.CappedIff | crates/ar-forgejo/src/client.rs:528-538 | the result is the text if it has at most 1024 bytes, else the longest prefix that has, an ellipsis and the number of bytes left out |
| Utf8.FitWastesAtMostThree | crates/ar-chat/src/handler.rs:1431-1435 | it ends at most three bytes below the cap |
| Utf8.TruncateWithMarker | crates/ar-chat/src/handler.rs:1427-1441 | the bytes are the encoding of such a text |
| Utf8.CapForError | crates/ar-forgejo/src/client.rs:528-538 | the bytes are the encoding of such a text |
| Fences.JoinOfRawLines | crates/ar-chat/src/handler.rs:1308-1346 | the reader's lines are the text, nothing lost |
| Fences.ReadExtends | crates/ar-chat/src/handler.rs:1214-1264 | what a reader has read is never taken back |
| Suggestions.LongestBacktickRun | crates/ar-chat/src/handler.rs:1354-1368 | the loop computes `LongestRun` |
| Suggestions.LongestRunIsLongest | crates/ar-chat/src/handler.rs:1354-1368 | which is a run of backticks in the text, and no run is longer |
| Suggestions.PickFence | crates/ar-chat/src/handler.rs:1349-1352 | the fence has at least three backticks and more than any run in the body |
| Suggestions.NoLineCloses | crates/ar-chat/src/handler.rs:1334-1344 | no line of the code closes its fence |
| Suggestions.BlockReadsBack | crates/ar-chat/src/handler.rs:1334-1345 | read from its opening fence, a block yields exactly its code and at most one final newline |
| Suggestions.FormatSuggestionBody | crates/ar-chat/src/handler.rs:1308-1346 | the comment is `SuggestionText`: the capped, trimmed reason stands above, and there is one more block that shows the replacement if and only if the reason closes its fences |
| Suggestions.SuggestionReadsBackIff | crates/ar-chat/src/handler.rs:1308-1346 | a reader sees the reason's blocks and then the replacement, exactly, if and only if the reason closes the fences it opens |
| Suggestions.SuggestionIsShown | crates/ar-chat/src/handler.rs:1308-1346 | the block shows the replacement itself with its last line ended, or beyond 4096 bytes its longest fitting prefix and the marker; the reason is cut in the same way at 1024 bytes |
| Suggestions.OneLineReasonIff | crates/ar-chat/src/handler.rs:1323-1326 | a one-line reason does so if and only if it is not an opening fence |
| Suggestions.FormatTestScaffoldsBody | crates/ar-chat/src/handler.rs:1214-1264 | the comment is `ScaffoldsText`, and its blocks show the sources if and only if no header line opens a fence |
| Suggestions.ScaffoldsReadBackIff | crates/ar-chat/src/handler.rs:1214-1264 | for any number of scaffolds, a reader sees exactly the capped texts, in order, if and only if no header line opens a fence |
| Suggestions.SourcesAreShownIff | crates/ar-chat/src/handler.rs:1236-1261 | block i is the source of scaffold i with its last line ended, or beyond 4096 bytes its longest fitting prefix, a blank line and the marker, with no block more or less, if and only if no header line opens a fence |
| Suggestions.HeaderQuotes | crates/ar-chat/src/handler.rs:1223-1235 | a header quotes the name, the path if there is one and the trimmed framework if there is one, in this order |
| Suggestions.OneLineFieldsArePlain | crates/ar-chat/src/handler.rs:1223-1235 | header fields without line ends open no fence |
| Suggestions.NameLineOpensAFence | crates/ar-chat/src/handler.rs:1223-1228 | a name whose last line opens a fence makes such a header |
| Suggestions.TwoLineNameHidesTheSource | crates/ar-chat/src/handler.rs:1223-1228 | a concrete name after which the comment does not show the source |
| CommentSize.SuggestionIsBounded | crates/ar-chat/src/handler.rs:1293-1346 | a suggestion comment stays within 16 KiB, whatever the reason and the replacement |
| CommentSize.ScaffoldsAreBoundedButForHeaders | crates/ar-chat/src/handler.rs:1236-1248 | a scaffold comment is at least as large as its headers together, and beyond them grows by at most 13,000 bytes for each scaffold |
| CommentSize.HeadersAreNotBounded | crates/ar-chat/src/handler.rs:893-899 | for every size there is a scaffold with a name and a source, as the caller demands, whose name makes the comment larger |
| CommentSize.TruncatedWithin | crates/ar-chat/src/handler.rs:1427-1441 | a truncated text is at most its cap and the marker |
| Redaction.RedactRunSecretsPathSuffix | crates/ar-gateway/src/startup.rs:217-241 | the cursor loop terminates and yields `RedactPaths` |
| Redaction.CutPathsCuts | crates/ar-gateway/src/startup.rs:217-241 | the path pass masks each leftmost secret path up to the next stop, and keeps the rest |
| Redaction.CutPathsIsUnique | crates/ar-gateway/src/startup.rs:217-241 | there is only one way to do so |
| Redaction.StopIff | crates/ar-gateway/src/startup.rs:229-231 | which characters end a path, by their codes |
| Redaction.SanitizedShowsNoSecret | crates/ar-gateway/src/startup.rs:211-215 | the output contains none of the three patterns, also not across a mask |
| Redaction.SanitizeIsIdentityIff | crates/ar-gateway/src/startup.rs:211-215 | the text is unchanged if and only if it contains none of them |
| Redaction.SanitizeIsIdempotent | crates/ar-gateway/src/startup.rs:211-215 | sanitizing twice is sanitizing once |
| Redaction.SanitizeOnlyMasks | crates/ar-gateway/src/startup.rs:211-215 | the output is the input with secret paths and the two tokens masked and all other text kept in order |
| Redaction.SecretPathIsMasked | crates/ar-gateway/src/startup.rs:211-241 | a path under /run/secrets/ is masked up to the next ASCII whitespace or one of five closing characters, and what stands before and after is sanitized as if it stood alone |
| Redaction.ReplaceAroundTheMask | crates/ar-gateway/src/startup.rs:212-214 | a later replacement works on both sides of a mask independently |
| Idempotency.KeyIsUniqueIff | crates/ar-agentcore/src/lib.rs:446-461 | the key determines all seven fields if and only if owner and repository have no colon and no inner part of the head is a number |
| Idempotency.KeyReadsBack | crates/ar-agentcore/src/lib.rs:446-461 | with no colon in owner, repository and head, the parts of the key between its colons are the seven fields in order |
| Idempotency.InjectiveOnColonFree | crates/ar-agentcore/src/lib.rs:446-461 | payloads whose owners and repositories have no colon, with any heads, agree on all seven fields if their keys are equal |
| Idempotency.SameKeySameSubject | crates/ar-agentcore/src/lib.rs:446-461 | equal keys always agree on provider, kind and comment |
| Idempotency.AmbiguousKeyCollides | crates/ar-agentcore/src/lib.rs:446-461 | otherwise there is another invocation with the same key |
| Idempotency.InvocationStore.Claim | crates/ar-agentcore/src/lib.rs:218-222 | a claim is fresh if and only if the key is new, and records it |
| Idempotency.ClaimInvocation | crates/ar-agentcore/src/lib.rs:137-160 | the claim against the store and the branch on its answer are the step `Claim` of the step system |
| Idempotency.HandledGrows | crates/ar-agentcore/src/lib.rs:130-171 | what was handled or recorded stays so |
| Idempotency.RunKeepsInv | crates/ar-agentcore/src/lib.rs:130-171 | under any interleaving the store holds exactly the keys handled |
| Idempotency.HandledAtMostOncePerKey | crates/ar-agentcore/src/lib.rs:130-171 | the handler is given no key twice |
| Idempotency.ClaimIsDuplicateIffHandledBefore | crates/ar-agentcore/src/lib.rs:137-160 | a claim is answered duplicate if and only if its key was handled before, also if the handler failed |
| Idempotency.HandledAtMostOnce | crates/ar-agentcore/src/lib.rs:130-171 | the handler is given no invocation twice |
| Idempotency.ColonFreeDuplicatesAreReal | crates/ar-agentcore/src/lib.rs:137-160 | in runs whose owners and repositories have no colon, with any heads, duplicate means that this very invocation was handled before |
| Idempotency.UnambiguousDuplicatesAreReal | crates/ar-agentcore/src/lib.rs:137-160 | in any run, for an invocation with an unambiguous key, duplicate means that this very invocation was handled before |

## Left out

- HTTP, JSON decoding, SQL, DynamoDB, REST calls and the scheduler: a listing, a claim, an insert or a read is an input or an atomic step.
- HMAC, JWT and constant-time comparison: the verdict on a signature is an input of the intake model.
- LLM prompts, intent classification, approval of overrides, and what a review does.
- Floating point: tokens, time and scores are exact reals, so rounding and NaN are not modelled. The square root in the cosine is a parameter with the property that its square is its argument where it is nonnegative.
- Memory ordering: the relaxed atomic counters are taken as sequentially consistent.
- Dedup.SqliteDeliveries.CheckAndRecord: models the rows of one table that answers; `Intake` adds that it may be down, in which case nothing is recorded.
- Intake.CountersAccountForAll: counts in unbounded numbers; wrap-around at 2^64 is modelled in `Metrics` only.
- Intake.Gateway.Handle: stops where the event is dispatched, so payload errors of the two event handlers are not counted.
- ClaimProtocol.AtMostOncePerLifetime: goes by the lifetime in which a claim was won; a claim won before a prune may be dispatched after it. It assumes that the cursors are wired up; without them the webhook handler claims nothing and dispatches every command. A dispatch is the hand-over to the chat handler, so whether one is configured and what it answers is not modelled.
- Poller.WebhookCommandIsWanted: takes the sender of an event, whose login the webhook tests, and the author of the comment, whose login the poller tests, to be one user, as they are for a comment that was just created.
- ClaimProtocol.RunKeepsInv: takes the same two logins to be one.
- CoChange.ParseGitLog: counts in unbounded numbers, while the source adds u32 values.
- MetricsText.PageReadsBack: takes the help texts as any texts of one line, and the floating-point rendering of the sum as any word without an opening brace.
- MetricsText.SummaryOfRenderedPage: models the numbers of the summary, adds them without wrapping at 2^64, and takes the success rate as an exact fraction; the fields read from JSON are not modelled.
- Suggestions.ScaffoldsReadBackIff: the reader knows fenced code blocks at the top level only, and not other blocks, such as raw HTML, that a header with a line end could begin.
- Suggestions.SuggestionReadsBackIff: the same reader, so other blocks that the reason could begin are not read.
- Suggestions.OneLineReasonIff: the same, for a reason of one line.
- Redaction.RedactRunSecretsPathSuffix: works on characters; all bytes that stop a path are ASCII, so the source's byte scan ends at the same places.
- Idempotency.HandledAtMostOncePerKey: is about the in-memory store; expiry of claims in DynamoDB and errors of the store are not modelled.
- Bench scores other than the matching (precision, recall, percentiles, comparison with a baseline), the `doctor` and launcher code, and the page loops of the forge clients: single formulas, plain data or effects.
