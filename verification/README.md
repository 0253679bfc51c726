# Verified core of the LLM gateway backend

This project models the parts of the gateway's Go backend whose behaviour is decided by whole runs
rather than by single branches, and proves what they promise. `dafny verify dfyconfig.toml` checks
everything.

| file | what it models |
|---|---|
| `Failover.dfy` | the channel failover loop of `Relay` with its error logs and its billing bracket |
| `TaskFailover.dfy` | the submission loop of `RelayTask`, with settlement or refund |
| `Selector.dfy` | the strict-priority weighted channel selector the loops rely on |
| `Sampling.dfy` | the rejection sampling that draws for the selector |
| `MultiKey.dfy` | the multi-key channel manager: key list, three index-keyed maps, append, status pages |
| `ModelNames.dfy`, `UpstreamSync.dfy` | ordered name lists; the detect / stage / apply protocol for upstream models |
| `PricingDiff.dfy`, `ModelsDev.dfy` | pricing reconciliation; the models.dev price selection |
| `RateLimiter.dfy` | the sliding-window limiter with its background sweep |
| `ModelMapping.dfy` | the model-mapping chain resolver |
| `BodyStorage.dfy` | memory and disk request-body storage and the global usage counters |
| `OggScanner.dfy` | the Ogg/Opus page scan, against section 6 of RFC 3533 and section 4 of RFC 7845 |
| `QuotaMath.dfy` | saturating quota conversions |
| `Selection.dfy`, `Runs.dfy` | what the loops ask of a selector; runs of a loop in general |
| `Text.dfy`, `Options.dfy`, `Octets.dfy` | trimming, splitting and joining of strings; an option type; bytes |

How the model is set up:

- Whatever a loop cannot decide itself (the selector, `BeginChannelAttempt`, request handlers, a sent
  response, a cancelled request, the clock) is an oracle indexed by the attempt number. A statement
  about all environments is therefore a statement about all runs.
- The loops, classes and in-place updates of the source are methods and classes. Each is proved against
  a specification function or predicate, and the theorems are about those.
- Go's int64 wrap-around is written out where it matters (`BodyStorage.Wrap`). Prices and quotas are
  reals; a float is a real, an infinity or not-a-number.

Where the code and the promise part, the model follows the code, and the exact condition is proved:

- `Relay` ends without an error, having tried nothing, when the first `BeginChannelAttempt` refuses
  (`NoErrorIffLastSucceeded`). `RelayTask` then reads a result that was never set and panics: its model
  crashes in exactly that case.
- The failover design document (docs/superpowers/specs/2026-07-26-exhaust-group-channel-failover-design.md:49-53)
  makes skip-retry errors terminal; `shouldContinueSameGroupFailover` does not look at them. A run meets
  the design if and only if something else halts it after every such failure (`SkipRetryIsTerminalIff`),
  and `SkipRetryIsIgnored` is a run that goes on.
- A selector that has run out of channels under the model's own name falls back to those under its
  normalised name, so priority alone decides exactly when the fallback holds nothing of higher priority
  (`StrictPriorityIff`).
- `delete_disabled_keys` on a channel whose keys are all auto-disabled deletes nothing and enables
  every key, because an empty key text is not stored (`SweepIsStoredIff`).
- Storage trims blank keys at the ends of the list, and every blank key trimmed at the front shifts the
  statuses against the keys. `DeleteRemovesOneIff` says when a deletion removes exactly one entry,
  `DeletionKeepsManualIff` and `ManualDisablingSticksIff` when manual disabling survives, for one deletion
  and for any run; `BlankKeyBreaksDisabling` is a list on which it does not. Blank keys at the back do no
  harm (`BlanksBehindAreHarmless`).
- `Channel.Update` trims only the status map, so a deletion can leave a time or reason beyond the size
  (`StaleTimeExample`; `DeletionLeaves` says exactly which and where) to be inherited by a key appended later
  (`StaleTimeIsInherited`, one run of both). `Manage` follows what is left through every run. The list of
  entries alone says what becomes of them, after every action of a run, if and only if no append puts a key
  where something is left (`RunFollowsListIff`); of keys and statuses it always does
  (`KeysAndStatusesFollow`).
- Appending to a channel without a key text skips deduplication and trimming
  (`AppendAddsOnlyNewIff`, `FirstAppendExample`); a single blank key gives way to the keys appended
  (`AppendKeepsPrefixIff`) and leaves its status to the first of them (`StatusOfBlankIsInherited`). `Append`
  states exactly when new keys are fresh.
- Detecting and applying upstream models settles exactly when no staged name contains a comma and no
  staged name doubles as an ignore pattern that alone held another name back
  (`ApplyAllReachesFixpointIff`, with the two kinds of failure in `CommaNameExample` and `PatternNameExample`).
- A name can arrive in the model list and be left on the ignore list, in two ways: an automatic pass lets
  through an ignore pattern that upstream offers as a name (`AutoPatternExample`), or a pass or an apply
  step takes in a name with a comma that has an ignored name as a piece (`IgnoredPieceExample`). These are
  the only ways, in every run (`RunAddsNothingIgnoredIff`).
- An upstream price spelt `"same"`, or a null, can be mistaken for the placeholder of `buildDifferences`
  and vanish (`KeptExactlyIff`, `LiteralSameVanishes`, `NullVanishes`).
- The limiter is exact for durations up to one second more than the expiry and for no longer one
  (`RefinesFullHistory`, `LongerDurationIsForgotten`). A limit of zero admits as a limit of one does.
- With the largest int64 as limit, `CreateBodyStorageFromReader` silently keeps an empty body, whatever is
  sent and even if the reader breaks, unless the disk fails it (`LargestLimitKeepsNothing`).
- The disk gate trusts the declared length, and the sum in it wraps around (`UnderdeclaredBodyOverruns`,
  `HugeDeclaredLengthOverruns`). `StaysWithinIff` and `BudgetKeptIff` say exactly when one event, and a
  whole run of creations and closings, keeps the disk budget; honest declarations do
  (`HonestRunKeepsBudget`).
- Memory and disk storage answer differently to one call only, an empty read at the end
  (`TracesAgreeIff`).

## Model

| member | source | states |
|---|---|---|
| Failover.UseChannel | controller/relay.go:267-324 | One attempt on a chosen channel yields the attempt the environment dictates, keeps recorded plus pending logs equal to the logs produced, and goes on exactly when the channel failed and the failure check allows it |
| Failover.AttemptOnce | controller/relay.go:237-325 | One pass of the loop body extends the run by one attempt or stops for a reason that holds, and leaves the error that reason calls for |
| Failover.FailoverLoop | controller/relay.go:231-334 | Terminates under the selector contract; the attempts are the environment's run, the stop reason holds, every log produced is recorded exactly once and in order, and a record is intermediate exactly when a later attempt got past reading the body |
| Failover.FlushKeepsAgreement | controller/relay.go:269-298 | Flushing the one-slot log before the next attempt loses no log, duplicates none and reorders none |
| Failover.BodyFailureKeepsAgreement | controller/relay.go:284-293 | A body failure leaves the pending log of an earlier attempt to be recorded as final |
| Failover.OnlyLastLogMayBeFinal | controller/relay.go:269-334 | In every complete run exactly the logs of setup and handler failures are recorded, in ascending order, each as intermediate exactly when a later attempt got past the body; so all but possibly the last are intermediate, and a run without error records none as final |
| Failover.EachChannelOnce | controller/relay.go:235-268 | No channel is tried twice, and from the second attempt on each belongs to the resolved group |
| Failover.AttemptIsDictated | controller/relay.go:237-312 | Every attempt of a run began, was made on the distributor's channel or else on the selector's answer to the channels used before, and ended in success, setup, body or handler failure exactly as those say, with that error, normalised except for the body's |
| Failover.AttemptsBounded | controller/relay.go:235-325 | A run has at most one attempt more than the group has channels; a pinned run has at most one |
| Failover.NoAttemptAfterStopSignal | controller/relay.go:401-406 | An attempt is followed by another only if it failed on its channel, the run is not pinned, and the check saw neither a sent response nor a cancelled request |
| Failover.TriedInOrder | controller/relay.go:243-268 | After the distributor's channel, channels are tried in whatever order the selector ranks them |
| Failover.EndsAfterIff | controller/relay.go:237-325 | An attempt is the last of a complete run exactly when it succeeded, failed on the body, the run is pinned, a response was sent, the request was cancelled, the next attempt is refused or no channel is found for it; in every other case the loop goes on, whatever the error |
| Failover.ErrorIsTheLast | controller/relay.go:252-325 | The error a complete run leaves: none on success, the selector's own failure, or else that of the last attempt |
| Failover.SucceedsOrTriesAll | controller/relay.go:231-334 | A complete run that nothing interrupts ends in success or has tried every channel of the group in vain |
| Failover.SkipRetryIsTerminalIff | controller/relay.go:398-406 | Nothing is tried after a skip-retry failure if and only if one of those halts the run after each of them |
| Failover.SkipRetryIsIgnored | controller/relay.go:316-324 | A concrete environment in which the loop goes on past a skip-retry error and succeeds on the next channel |
| Failover.ExhaustionTriesWholeGroup | controller/relay.go:252-266 | A run that ends for lack of channels has tried every channel of the group |
| Failover.NoErrorIffLastSucceeded | controller/relay.go:237-325 | The loop leaves no error exactly when its last attempt succeeded or the first was refused; it makes no attempt exactly when the first is refused |
| Failover.CompleteRunIsUnique | controller/relay.go:231-334 | An environment determines the attempts and the stop reason |
| Failover.Relay | controller/relay.go:172-335 | Nothing is attempted or refunded when pre-consumption fails; past it there is one refund on failure and none on success, the error is the loop's, normalised, and it is absent exactly when the last attempt succeeded |
| TaskFailover.TryChannel | controller/relay.go:764-829 | One submission on a chosen channel yields the attempt the environment dictates, keeps the logs in agreement and counts a retry exactly when it goes on |
| TaskFailover.SubmitOnce | controller/relay.go:728-830 | One pass of the submission loop extends the run or stops for a reason that holds |
| TaskFailover.SubmitLoop | controller/relay.go:726-839 | Terminates pinned and unpinned; every log produced is recorded once and in order, as intermediate exactly when another attempt followed |
| TaskFailover.TaskStopSignals | controller/relay.go:775-783 | A submission is followed by another only after a channel failure that is not local, with the request live and, when pinned, a retryable status within the budget |
| TaskFailover.TaskAttemptIsDictated | controller/relay.go:728-812 | Every submission of a run began, was made on the first channel or, unpinned, on the selector's answer, and ended as setup, body and submission say, with the error and status each of them gives |
| TaskFailover.TaskEndsAfterIff | controller/relay.go:775-830 | A submission is the last of a complete run exactly when it was accepted, failed locally, or the task is halted: cancelled, refused, unpinned with a response sent or no channel, pinned with the budget used up or a status it gives up on; the statuses are written out |
| TaskFailover.TaskErrorIsTheLast | controller/relay.go:751-812 | The error a complete run leaves: none on acceptance, the selector's failure as a local error, or else that of the last attempt |
| TaskFailover.PinnedTaskBudget | controller/relay.go:717-830 | A pinned task stays on its channel and makes at most max(limit, 0) + 1 attempts |
| TaskFailover.UnpinnedTaskChannels | controller/relay.go:742-764 | An unpinned task never repeats a channel and after the first stays in the group |
| TaskFailover.TaskTriedInOrder | controller/relay.go:742-764 | After the first, an unpinned task tries channels in the order the selector ranks them |
| TaskFailover.TaskExhaustionTriesWholeGroup | controller/relay.go:751-763 | A task that ends for lack of channels has tried every channel of the group |
| TaskFailover.TaskSucceedsOrTriesAll | controller/relay.go:728-830 | A complete run of an unpinned task that nothing interrupts, with no local failure, is accepted or has tried every channel of the group in vain |
| TaskFailover.TaskNoErrorIffSubmitted | controller/relay.go:728-842 | The loop leaves no error exactly when its last submission was accepted or the first attempt was refused |
| TaskFailover.CompleteTaskRunIsUnique | controller/relay.go:726-839 | An environment determines the submissions and the stop reason |
| TaskFailover.TaskOnlyLastLogMayBeFinal | controller/relay.go:764-839 | In every complete run exactly the logs of failed attempts are recorded, in ascending order, each as intermediate exactly when another attempt followed; a run without error records none as final |
| TaskFailover.RelayTask | controller/relay.go:672-874 | Either settlement and then insertion, or a response and then a refund where there is a session; never both, and the error is the loop's; a panic exactly when the first attempt is refused |
| Sampling.BitLengthIsLeast | model/channel_cache.go:320-322 | The bit length is the least number of bits that hold the limit |
| Sampling.MaskIsRemainder | model/channel_cache.go:371-372 | Masking the first byte and reading the bytes as a number takes the remainder by a power of two |
| Sampling.ReadBlock | model/channel_cache.go:326-369 | The read loop with its bounds on calls and on calls without progress computes the filling of a block |
| Sampling.BlockIsMadeOfReads | model/channel_cache.go:326-369 | For every reader: calls go on until the block is full, a short call failed, eight calls in a row put nothing, too many calls are made, or a call panics or reports an impossible count; a full block is what the calls put, in order, and a broken one names that reason |
| Sampling.MadeAt | model/channel_cache.go:339-352 | Each call of a reading put the bytes from its offset up to the next, those at the front of its buffer |
| Sampling.FilledIsWhole | model/channel_cache.go:326-369 | A filled block has the full length, after a bounded number of calls |
| Sampling.ProgressFills | model/channel_cache.go:326-369 | A reader that makes progress at every call fills a block, however short its reads are |
| Sampling.IdleGivesUp | model/channel_cache.go:363-369 | A reader that puts nothing is given up after eight calls |
| Sampling.RandomBelow | model/channel_cache.go:293-382 | The draw with its bounded rejections; a value drawn is below the limit, and only a limit that is not positive is invalid |
| Sampling.DrawIsMadeOfBlocks | model/channel_cache.go:325-382 | For every reader: blocks are read one after the other until one has a value below the limit, which is drawn, or one breaks, whose reason and number are reported, or as many were rejected as may be |
| Sampling.EqualShares | model/channel_cache.go:320-375 | Of all blocks of the length read, every value below the limit has equally many, and at least half of all blocks are accepted |
| Sampling.BelowIsFirst | model/channel_cache.go:325-375 | From a reader that fills its buffer, the draw is the first value below the limit of the blocks read |
| Sampling.FirstBelowMeans | model/channel_cache.go:325-382 | That is the value of the first block with none below the limit before it, and a rejection when all of them are not |
| Sampling.DrawsAreUniform | model/channel_cache.go:275-278 | For every reader, with short, idle or failing calls and with rejections: exchanging two values in its blocks exchanges them in what is drawn, and a failing draw fails alike; draws are exactly uniform, without bias |
| Sampling.BlocksComeBack | model/channel_cache.go:275-278 | Exchanging twice gives every block back with the same calls, so readers that yield the one value and the other correspond one to one |
| Selector.HighestPriority | model/channel_cache.go:232-237 | The highest priority present |
| Selector.SampledIsInRange | model/channel_cache.go:293-382 | Sampling meets what the selector asks of its draws |
| Selector.SampledMeans | model/channel_cache.go:263-289 | The draw the selector gets is the value sampled from the source, and none exactly when sampling fails |
| Selector.SampledIsUniform | model/channel_cache.go:275-278 | Exchanging two values in the source exchanges them in the draw the selector gets |
| Selector.GatherTier | model/channel_cache.go:239-247 | The channels of one priority, in order, with their total weight |
| Selector.TierExactly | model/channel_cache.go:241-247 | A tier holds exactly the channels of its priority, each as often as the list does |
| Selector.PickByWeight | model/channel_cache.go:283-289 | Spending the draw on the weights in turn finds the channel that owns it |
| Selector.DrawsAreProportional | model/channel_cache.go:263-289 | A draw lands on a channel exactly when it falls into the stretch of the channel's weight behind the weights before it, so a zero weight never wins beside a positive one |
| Selector.ShareIsWeight | model/channel_cache.go:263-289 | Of all draws below the total weight a channel wins exactly its weight, for every time it stands in the tier |
| Selector.SelectHighestPriority | model/channel_cache.go:210-291 | Returns nothing exactly on no candidates; otherwise a channel no other outranks, the one the draw lands on, or the first one with weight when entropy fails; one without weight never wins beside one that has some |
| Selector.FilterCandidates | model/channel_cache.go:391-431 | The loop computes the candidates of a list of channel ids |
| Selector.CandidatesExactly | model/channel_cache.go:391-431 | Exactly the listed channels that are servable, or missing from the table, and not on the used list, each as often as it is listed |
| Selector.CandidatesInOrder | model/channel_cache.go:391-431 | The candidates are the entries at ascending places of the list, at every place that holds a servable or missing channel not on the used list and at no other |
| Selector.LookUp | model/channel_cache.go:199-206 | The cached channels of the candidates, or the first one that is missing from the table |
| Selector.SelectChannel | model/channel_cache.go:174-208 | Answers nothing exactly when every channel under either name was used or cannot serve the request, an inconsistency only for a candidate missing from the table, and otherwise an unused cached channel that can serve, from the own-name list while anything of it is left, whose cached priority nothing else left in that list exceeds |
| Selector.CallShareIsWeight | model/channel_cache.go:184-291 | At every call, of the draws below the total cached weight of the highest priority left, exactly the cached weight of a channel, for each time it is listed, answer with it if it is left and has that priority, and none otherwise; without any weight every place has one draw |
| Selector.AnswerIsUnique | model/channel_cache.go:184-291 | The entropy drawn leaves a call one answer |
| Selector.GetChannel | controller/relay.go:379-396 | The selector's answer for the entropy given, as the loops get it, with the outcome of setting the channel up |
| Selector.FoundShareIsWeight | controller/relay.go:379-396 | Among the draws below the total weight, a channel is found for exactly its cached weight, for each time it is listed, if it is left and of the highest priority left, and for none otherwise; without any weight every place has one draw |
| Selector.SelectorMeetsLoopContract | model/channel_cache.go:184-208 | Any selector that answers each call as the selection method does stays in the group, never repeats a used channel, gives up without an error only on exhaustion, and follows the ranking |
| Selector.RunFollowsRanking | service/channel_select.go:96-169 | In every failover run, from the second attempt on, channels are cached ones, those under the model's own name come before the others, and each kind comes by falling cached priority |
| Selector.TaskRunFollowsRanking | service/channel_select.go:162-168 | The same order holds in every run of an unpinned task |
| Selector.StrictPriorityIff | model/channel_cache.go:184-208 | Priority alone decides at every call if and only if no channel known only under the normalised name outranks one under the own name |
| MultiKey.Channel.Store | model/channel.go:617-671 | The whole new state after `Channel.Update`: the keys as storage finds them again, their count, the statuses below it, times and reasons untouched |
| MultiKey.Channel.Update | model/channel.go:617-671 | On rebuilt lists the entries are the stored keys over the metadata by index; times and reasons stay as they are, and what is left beyond the size is exactly what the entries beyond it have |
| MultiKey.PersistedIsRoundTrip | model/channel.go:229-251 | Joining, storing, stripping and splitting keys without newlines yields exactly the persisted list, the old one where the text is empty |
| MultiKey.StoredKeysAreStable | model/channel.go:229-251 | The keys of any stored text have no blank at an end, but for a single blank key, and hold no newlines |
| MultiKey.PersistAt | model/channel.go:229-251 | After storage index j has the key that stood as many places further on as blank keys led the list, and the metadata that stood at j |
| MultiKey.Channel.Disable | controller/channel.go:1808-1849 | Sets exactly the indexed status to 2, or refuses, and touches nothing else |
| MultiKey.SwitchMeans | controller/channel.go:1808-1962 | What disabling and enabling one key or all keys make of every entry, by its status before, and when an action changes nothing at all; an append puts the new key list over the metadata by index |
| MultiKey.Channel.Enable | controller/channel.go:1851-1891 | Removes status, time and reason of exactly the indexed key, or refuses and changes nothing |
| MultiKey.Channel.EnableEvery | controller/channel.go:1893-1915 | Every key is enabled with no history left, beyond the size neither; the count is the number of keys that were not enabled, plus that of enabled keys with a stored status |
| MultiKey.Channel.ManageAndEnable | controller/channel.go:1893-1915 | After any run the count reported is the number of keys disabled by then, if no status of an enabled key was stored at the start |
| MultiKey.Channel.DisableEvery | controller/channel.go:1917-1962 | Enabled keys get status 2, others keep theirs, and every key has a stored status then; the count is the number that were enabled; times and reasons stay, beyond the size too |
| MultiKey.Channel.Delete | controller/channel.go:1964-2042 | Removes one entry from the list of entries and leaves beyond the size what storage trims off it; refuses the last key and an index out of range |
| MultiKey.Channel.RebuildWithout | controller/channel.go:1982-2014 | Re-indexing the key list and the three maps around a deleted index keeps every other key's status, time and reason |
| MultiKey.Channel.DeleteAutoDisabled | controller/channel.go:2044-2111 | Sweeps the list of entries and leaves beyond the size what storage trims off it; the count is the number of auto-disabled keys |
| MultiKey.Channel.Manage | controller/channel.go:1693-2120 | Any run of actions and appends takes the entries, and the times and reasons left beyond them, where the run on these leads; the size stays the key count with all statuses below it |
| MultiKey.RunFollowsListIff | controller/channel.go:1161-2111 | Over any run, the entries are after every action what the actions make of the list of entries, if and only if no append of the run puts a key at an index where a time or a reason is left |
| MultiKey.KeysAndStatusesFollow | controller/channel.go:1161-2111 | Keys and statuses follow the list of entries over every run |
| MultiKey.ContentsAreAll | model/channel.go:617-671 | Entries, what is left beyond them and the stored statuses of enabled keys determine the key list and the three maps |
| MultiKey.DeletionLeaves | model/channel.go:651-661 | Times and reasons are left exactly at the indices beyond the new size to which a deletion moved a key that has them, unless a sweep found the key enabled; what was left before is gone |
| MultiKey.Channel.Append | controller/channel.go:1161-1238 | The new key list is the stored old list with the new keys behind and is never shorter; the maps stay as they are, so metadata stays with its index; every new key is fresh if and only if nothing was left over at the new indices and a single blank key that gave way was fresh itself |
| MultiKey.StatusOfBlankIsInherited | controller/channel.go:1161-1238 | A concrete channel with one blank, manually disabled key: the key appended to it starts out manually disabled |
| MultiKey.AppendIsHarmless | controller/channel.go:1161-1238 | Appending to a key list as it is stored harms no manual disabling in it |
| MultiKey.Channel.GetStatus | controller/channel.go:1694-1806 | The page, by ascending index, the totals and the three counts of the filtered status view |
| MultiKey.Channel.BuildStatusList | controller/channel.go:1707-1755 | One status line per key with its index, and exact counts |
| MultiKey.StatusLineAt | controller/channel.go:1713-1754 | The line of every key: its index and status, time and reason unless it is enabled, and its preview |
| MultiKey.TallyIsCount | controller/channel.go:1725-1732 | The counts are the numbers of keys with each status |
| MultiKey.FilterStatuses | controller/channel.go:1757-1767 | The lines of the wanted status, in order |
| MultiKey.MatchingIsFilter | controller/channel.go:1757-1767 | The filtered view holds exactly the lines of the wanted status, or all, by ascending index |
| MultiKey.ViewMeans | controller/channel.go:1757-1790 | Every line of a page is the line of the key at its index, has the wanted status, and the lines come by ascending index |
| MultiKey.Deduplicate | controller/channel.go:1210-1229 | The trimmed, non-blank input keys not seen before, in order |
| MultiKey.AppendAddsOnlyNewIff | controller/channel.go:1163-1233 | Appending adds only distinct, trimmed, non-blank keys that were not there, all of the input's and in input order, if and only if the channel has a key text already or the input is clean |
| MultiKey.FirstAppendExample | controller/channel.go:1163-1163 | Repeated and untrimmed keys that the first append stores as they come |
| MultiKey.AppendKeepsPrefixIff | controller/channel.go:1161-1233 | Existing keys stay an untouched prefix if and only if they are not one single blank key, or nothing is added |
| MultiKey.AppendIsIdempotent | controller/channel.go:1161-1233 | Appending the same input twice is appending it once, whatever keys there were |
| MultiKey.SurvivesIffStorable | model/channel.go:229-251 | A shortened key list reads back as itself if and only if it is not empty and no blank key ends it |
| MultiKey.DeleteRemovesOneIff | controller/channel.go:1982-2031 | Deletion removes exactly one entry if and only if what remains has no blank key at an end |
| MultiKey.SweepIsFilter | controller/channel.go:2052-2082 | The sweep is the order-preserving filter of the entries that are not auto-disabled; disabled ones keep time and reason, enabled ones lose them |
| MultiKey.SweepIsStoredIff | controller/channel.go:2084-2103 | The sweep is what is stored if and only if it leaves something with no blank end; when every key is auto-disabled all survive and are enabled |
| MultiKey.ManualSurvivesActionIff | controller/channel.go:1161-2111 | One action or append leaves a manually disabled key disabled at its new index if and only if it enables neither that key nor all and the list it builds, if any, has a manual status where the key will be; a key that is gone was deleted or blank |
| MultiKey.DeletionKeepsManualIff | controller/channel.go:1161-2103 | A deletion of one key or of the auto-disabled ones, or an append, keeps every manual disabling if and only if each manual status that is stored meets one as many places before it as blank keys lead the list, or, where the old keys stay, at its old index |
| MultiKey.BlanksBehindAreHarmless | controller/channel.go:1982-2103 | A deletion that leaves a first key that is not blank harms no manual disabling |
| MultiKey.ManualDisablingSticksIff | controller/channel.go:1161-2111 | Over any run of actions and appends, however often indices shift, a manually disabled key stays so if and only if no action enables it or all keys and every deletion and append is harmless to it |
| MultiKey.DisablingTakesHold | controller/channel.go:1808-2111 | From the action of a run that disables a key on, alone or with all keys, that key is manually disabled and stays so exactly under the same condition on the rest of the run |
| MultiKey.FollowsItsKey | controller/channel.go:1808-2111 | The entry followed through a run is the same key throughout |
| MultiKey.NoBlankRunIsHarmless | controller/channel.go:1964-2111 | Without blank keys a run that enables neither a manually disabled key nor all keys is harmless to it |
| MultiKey.NoBlankStaysTidy | model/channel.go:651-661 | Without blank keys, and with none in a first append, every run leaves no time or reason beyond the size and the entries are the list's |
| MultiKey.StaleTimeExample | model/channel.go:651-661 | A concrete deletion that leaves a time at index 1 of a list of one key |
| MultiKey.StaleTimeIsInherited | controller/channel.go:1964-2042 | That deletion, followed by an append: the new key has the time of a key that is gone |
| MultiKey.BlankKeyBreaksDisabling | controller/channel.go:1982-2031 | A concrete list with a blank key on which deleting another key enables a manually disabled one |
| MultiKey.PagesReproduceList | controller/channel.go:1697-1790 | For every requested page size, pages 1 to the last, put together, are the whole list |
| MultiKey.TakePage | controller/channel.go:1697-1790 | The page shown, its number, the page size and the number of pages, computed as the source does |
| MultiKey.PageMeans | controller/channel.go:1779-1790 | Page n is the stretch of the list that starts n - 1 page sizes in, of one page size or what is left |
| MultiKey.PageIsClamped | controller/channel.go:1700-1777 | A page number off the range shows the first or the last page |
| MultiKey.PagesAreEnough | controller/channel.go:1769-1774 | As many pages as the list takes, none of them beyond the first empty, and at least one |
| Text.TrimIsMiddle | controller/channel_upstream_update.go:100-105 | Trimming takes away the white space at both ends, all of it and nothing else |
| Text.JoinSplit | model/channel.go:345-350 | Joining the pieces of a split text gives the text again |
| ModelNames.NormalizeIsNames | controller/channel_upstream_update.go:100-105 | Normalising gives exactly the trimmed non-blank names, each once, in the order they first occur |
| ModelNames.NormalizeIdentity | controller/channel_upstream_update.go:100-105 | A clean list is its own normal form |
| ModelNames.MergeModelNames | controller/channel_upstream_update.go:107-121 | The loop with its seen-set computes the merge |
| ModelNames.MergeIsUnion | controller/channel_upstream_update.go:107-121 | Merging is union, with the base as prefix and the appended names behind it in their order |
| ModelNames.SubtractIsDifference | controller/channel_upstream_update.go:123-132 | Subtracting is set difference in the order of the base |
| ModelNames.IntersectIsIntersection | controller/channel_upstream_update.go:134-143 | Intersecting is set intersection in the order of the base |
| ModelNames.StoredListReadsBack | model/channel.go:345-350 | A comma-free list joined for storage reads back as itself |
| ModelNames.StoredNameSurvives | model/channel.go:345-350 | A comma-free name survives storage whatever names surround it |
| ModelNames.StoredListReadsPieces | model/channel.go:345-350 | Any list of names joined for storage reads back as the normalised list of all their pieces between commas, in order |
| ModelNames.StoredNamesArePieces | model/channel.go:345-350 | A name is read back exactly when it is the trimmed, non-blank form of a piece of some stored name |
| UpstreamSync.ApplySelectedMembers | controller/channel_upstream_update.go:145-150 | A name is in the new list if it was and is not removed, or is added; adding wins |
| UpstreamSync.PendingMeans | controller/channel_upstream_update.go:179-238 | To be added: exactly the upstream names that are not local, no redirect target, no plain ignore entry and matched by no pattern entry; to be removed: exactly the local names that are no redirect source and not upstream; both in order |
| UpstreamSync.DetectMeans | controller/channel_upstream_update.go:505-517 | A plain detection stages exactly those names, in upstream's order and in the model list's, and leaves the models; an automatic pass stores the old names with the additions behind, or leaves the text if there are none, and what is read back are exactly the old names and the pieces of the additions, in order; none is staged then; the ignore list stays |
| UpstreamSync.DetectOnce | controller/channel_upstream_update.go:505-517 | One detection after a successful fetch computes the new state and leaves the ignore list alone |
| UpstreamSync.ApplyOnce | controller/channel_upstream_update.go:939-961 | One apply step computes the new state, the report and whether the models changed |
| UpstreamSync.Channel.CheckAndPersist | controller/channel_upstream_update.go:481-528 | Skips within the interval, records the check time otherwise, and detects only after a successful fetch; the number reported as added is that of the pending additions when an automatic pass is made and 0 otherwise |
| UpstreamSync.Channel.ApplyUpdates | controller/channel_upstream_update.go:926-974 | The channel's new state and the report are those of the apply step |
| UpstreamSync.Channel.Drive | controller/channel_upstream_update.go:481-974 | Any run of checks, edits and applies takes the channel where the run on its state leads |
| UpstreamSync.ApplySplitsStaged | controller/channel_upstream_update.go:939-961 | Staged additions split into remaining and added or ignored, staged removals into remaining and removed, each exactly as selected |
| UpstreamSync.ApplyKeepsOrder | controller/channel_upstream_update.go:939-961 | What stays staged keeps its order, what is added, ignored and removed comes in the order of the selection, and the ignore list in that of the merged one |
| UpstreamSync.ApplyMeans | controller/channel_upstream_update.go:939-961 | Name by name, exactly what is staged and ignored after an apply step, and which names are read back: the old ones not staged and selected for removal, and the pieces of those taken up |
| UpstreamSync.ApplyOrder | controller/channel_upstream_update.go:939-961 | The model text after an apply step is that of the old names that stay, in their order, then of the added names that were not there, in theirs, joined by commas, or the old text if these are the old names; it is read back as their pieces |
| UpstreamSync.ChangesModelsIff | controller/channel_upstream_update.go:948-952 | The step reports a change exactly when it adds a name that was not there or removes one that was |
| UpstreamSync.DetectDropsNothing | controller/channel_upstream_update.go:505-517 | A detection, automatic or not, drops no name from the stored model list, whatever names it adds |
| UpstreamSync.LeavesRunOnlyIfTaken | controller/channel_upstream_update.go:481-974 | In every run of detections, automatic passes, edits and applies a name leaves the stored model list only through an edit, or by being staged for removal and selected at some apply |
| UpstreamSync.RedirectSourceStays | controller/channel_upstream_update.go:229-235 | In every run a name that is a redirect source at each detection is never staged for removal and leaves the model list only by an edit |
| UpstreamSync.ArrivesAsItselfOrPiece | controller/channel_upstream_update.go:481-974 | A name that a step brings into the model list was taken in itself, or is a new piece of a name with a comma that was, and all those arrive |
| UpstreamSync.IgnoredStaysIgnored | controller/channel_upstream_update.go:213-227 | In every run a plain name on the ignore list that was not staged before stays on it and is never staged; it arrives in the model list if and only if some step takes in a name with a comma that has it as a new piece |
| UpstreamSync.StepAddsNothingIgnoredIff | controller/channel_upstream_update.go:505-961 | A step leaves no name that arrives in the model list on the ignore list, if and only if it is no automatic pass that lets a listed pattern through as a name, and takes in no name with a comma that has a new piece left on the list |
| UpstreamSync.RunAddsNothingIgnoredIff | controller/channel_upstream_update.go:481-974 | In every run no name that just arrived is left on the ignore list if and only if every step meets that condition |
| UpstreamSync.AutoPatternExample | controller/channel_upstream_update.go:505-514 | A concrete pattern that an automatic pass adds as a name and leaves on the ignore list |
| UpstreamSync.IgnoredPieceExample | controller/channel_upstream_update.go:505-961 | Concrete automatic and apply steps that bring in an ignored name as a piece and leave it on the ignore list |
| UpstreamSync.RunKeepsStaged | controller/channel_upstream_update.go:481-528 | In every run of detections, automatic passes, edits and applies, staged additions and removals stay clean and disjoint |
| UpstreamSync.PlainNamesSurvive | controller/channel_upstream_update.go:213-227 | The pattern condition of the fixpoint holds when no upstream name starts with the pattern prefix |
| UpstreamSync.ApplyAllReachesFixpointIff | controller/channel_upstream_update.go:926-974 | Detect, apply everything, detect again stages nothing if and only if no staged name has a comma and every pattern needed survives |
| UpstreamSync.CommaNameExample | controller/channel_upstream_update.go:950-952 | A concrete name with a comma that is detected again after being applied |
| UpstreamSync.PatternNameExample | controller/channel_upstream_update.go:955-957 | A concrete pattern offered as a name, after whose addition another name is detected again |
| UpstreamSync.AutoSyncReachesFixpointIff | controller/channel_upstream_update.go:505-517 | After an automatic pass re-detection adds nothing and stages the same removals if and only if no added name has a comma |
| PricingDiff.BuildItem | controller/ratio_sync.go:595-641 | The inner loop lists a model and field exactly when the specification does, and shows every channel's cell and confidence |
| PricingDiff.FirstPass | controller/ratio_sync.go:593-654 | Before pruning, exactly the listed entries, each in full |
| PricingDiff.DifferingChannels | controller/ratio_sync.go:656-665 | Exactly the channels that differ from the local data somewhere |
| PricingDiff.Prune | controller/ratio_sync.go:667-693 | Entries restricted to those channels, without all-same entries and empty models |
| PricingDiff.BuildDifferences | controller/ratio_sync.go:536-696 | The result holds exactly the kept entries, each showing exactly the differing channels, their values and their confidence |
| PricingDiff.EntryMeans | controller/ratio_sync.go:595-685 | Every entry of the result shows the local value and, for exactly the channels that differ somewhere, their value, "same" or null, and confidence, which is false exactly within a billionth of 37.5 and 1 |
| PricingDiff.ShownIffApart | controller/ratio_sync.go:48-62 | A supplied value other than null and "same" is shown exactly when it is a number at least a billionth from the local one on either side, or another value than it |
| PricingDiff.EntryIffApart | controller/ratio_sync.go:612-685 | On data without nulls and "same" an entry is in the result exactly when some channel has such a value |
| PricingDiff.KeptExactlyIff | controller/ratio_sync.go:612-685 | An entry is in the result exactly when some channel disagrees, unless all disagreeing values supplied are nulls or "same" and every channel that supplies another value anywhere supplies here the local one or "same" |
| PricingDiff.PlainDataIsExact | controller/ratio_sync.go:631-685 | On data without nulls and without the text "same" the result is exact and pruning drops nothing |
| PricingDiff.LiteralSameVanishes | controller/ratio_sync.go:656-685 | A concrete upstream value "same" that disagrees and is not in the result |
| PricingDiff.NullVanishes | controller/ratio_sync.go:656-685 | A concrete upstream null that disagrees with a local price and is not in the result |
| PricingDiff.ResultIsUnique | controller/ratio_sync.go:536-696 | The data determines the result, whatever the map iteration order |
| PricingDiff.RunBothOrders | controller/ratio_sync.go:495-525 | Two runs over the channels in any two orders return the same map |
| ModelsDev.TieBreakNeverFires | controller/ratio_sync.go:881-893 | In provider order a candidate replaces the current one only by being the first non-zero or cheaper by at least epsilon |
| ModelsDev.SelectedIsCheapest | controller/ratio_sync.go:881-944 | The fold does not drift: zero only if all are zero, otherwise below every non-zero price plus epsilon |
| ModelsDev.SelectEndsDescent | controller/ratio_sync.go:881-893 | The candidate selected is where a descent through the prices ends: the first that is not free, then each time the first one behind lower by at least epsilon, until there is none; if all are free it is the first |
| ModelsDev.DescentIsUnique | controller/ratio_sync.go:881-893 | The prices determine that descent |
| ModelsDev.FirstOfEquals | controller/ratio_sync.go:881-893 | A provider earlier by name has a higher price, or a free one while the selected is not; so of equal prices the first is taken |
| ModelsDev.SelectCandidates | controller/ratio_sync.go:845-944 | For every model, nothing exactly when no provider has usable prices, otherwise the one selected in provider order: input, output and cache prices of one provider, free only if all are and then the first, within epsilon of the cheapest other and lower than every earlier provider's; what makes prices usable is written out |
| ModelsDev.SortNames | controller/ratio_sync.go:915-919 | The keys of a map in strictly ascending order |
| ModelsDev.LessAtFirstDifference | controller/ratio_sync.go:892-919 | The order of names is Go's string order: a proper prefix comes first, otherwise the smaller character at the first difference decides |
| ModelsDev.RatiosMeaning | controller/ratio_sync.go:954-972 | Ratios are half the input price and price quotients, to the nearest six decimals with halves away from zero; a free model has no quotients |
| ModelsDev.RatiosAreUnique | controller/ratio_sync.go:699-701 | The prices determine every ratio |
| ModelsDev.Convert | controller/ratio_sync.go:908-987 | The whole conversion: the two errors exactly when there is no provider or no usable price, and otherwise for every priced model the ratios of that best price and for no other model any |
| ModelsDev.ConversionIsUnique | controller/ratio_sync.go:908-987 | The data determines the conversion |
| ModelsDev.ConvertAgain | controller/ratio_sync.go:908-987 | Two conversions of the same data are equal, in whatever order models are visited |
| RateLimiter.InMemoryRateLimiter.Request | common/rate-limit.go:45-70 | Decides and updates the store as specified, and keeps every queue non-empty |
| RateLimiter.InMemoryRateLimiter.ClearExpired | common/rate-limit.go:28-42 | Removes exactly the idle keys, in any visiting order |
| RateLimiter.RunRepresents | common/rate-limit.go:28-70 | After any interleaving of requests and sweeps the bounded queue represents the full history |
| RateLimiter.RefinesFullHistory | common/rate-limit.go:45-70 | A request is admitted if and only if fewer than N of its key were admitted within the last duration, sweeps or not |
| RateLimiter.SweepForgetsIdle | common/rate-limit.go:28-42 | After a sweep, in any run, a key is in the store if and only if it was admitted within the expiry |
| RateLimiter.WindowNeverOverfull | common/rate-limit.go:45-70 | Any N + 1 consecutive admissions span at least the duration |
| RateLimiter.LongerDurationIsForgotten | common/constants.go:201-228 | For every longer duration there is a run in which a sweep makes the limiter admit one too many |
| ModelMapping.FollowRedirects | controller/channel-test.go:929-945 | Terminates on every mapping; its answer is reachable and terminal, or the chain enters a cycle |
| ModelMapping.ResolveUpstreamModel | controller/channel-test.go:920-946 | Returns a model if and only if redirects of the table lead to it and it is unmapped, mapped to blank or to itself; reports a cycle if and only if redirects come back to a model mapped to another; reports a parse failure if and only if the mapping is malformed |
| ModelMapping.OutcomesExclude | controller/channel-test.go:931-945 | A chain reaches at most one terminal model, and none once it enters a cycle |
| BodyStorage.MemoryStorage.Call | common/body_storage.go:47-81 | A read returns the bytes at the cursor, as many as fit and are left, and moves behind them; a seek lands relative to start, cursor or end; `Bytes` returns everything and moves nothing; a closed storage refuses |
| BodyStorage.DiskStorage.ReadWhole | common/body_storage.go:198-230 | `Bytes` returns the whole file and puts the position back |
| BodyStorage.DiskStorage.Call | common/body_storage.go:169-230 | The same of disk storage |
| BodyStorage.StepsAgreeIff | common/body_storage.go:47-81 | One call answers alike on both unless it is an empty read of an open storage at the end; the cursors always agree |
| BodyStorage.TracesAgreeIff | common/body_storage.go:169-230 | A sequence of calls sees a difference if and only if it makes such a read |
| BodyStorage.NonEmptyReadsCannotTell | common/body_storage.go:47-85 | No sequence of calls without empty reads can tell the two apart |
| BodyStorage.ReadsGatherRest | common/body_storage.go:47-81 | On either storage, reads with buffers of any sizes up to the end, put together, are exactly the bytes from the cursor on, and they reach the end |
| BodyStorage.ClosedForGood | common/body_storage.go:47-81 | Once closed, a storage answers every later call with the same failure |
| BodyStorage.RunBoth | common/body_storage.go:37-230 | Both implementations, driven by the same calls, produce the specified traces, equal under exactly that condition |
| BodyStorage.KeptExactlyWithinLimit | common/body_storage.go:283-290 | For every limit below the largest, a body is kept whole if it fits and rejected otherwise |
| BodyStorage.LargestLimitKeepsNothing | common/body_storage.go:262-303 | At the largest limit every body, broken or not, is kept as an empty one, on disk as the gate decides, except that a declared length let in on a disk that cannot hold even that fails |
| BodyStorage.BodyCache.Store | common/disk_cache_config.go:109-112 | One counter goes up by one and by the size; counters stay the number and total size of the open storages |
| BodyStorage.TallyIsCount | common/disk_cache_config.go:109-134 | The count kept for a kind of storage is the number of its open ones |
| BodyStorage.BodyCache.CloseStorage | common/disk_cache_config.go:114-134 | One counter goes down by one and by the size, the first time only; the clamps never bite and closing again changes nothing |
| BodyStorage.BodyCache.StoreOnDisk | common/body_storage.go:100-130 | Stores on disk, or leaves nothing behind when the file cannot be created, written or rewound |
| BodyStorage.BodyCache.Create | common/body_storage.go:240-259 | Disk exactly above the threshold, within the budget and without a disk fault, memory otherwise |
| BodyStorage.BodyCache.StreamToDisk | common/body_storage.go:132-167 | Keeps the stream within the limit on disk, or reports the disk fault, also in the middle of writing, the broken read or the excess and leaves nothing behind |
| BodyStorage.BodyCache.CreateFromReader | common/body_storage.go:262-303 | The exact outcome for every reader, broken or not, and every fault: which error, or the stream within the limit, on disk exactly as the two gates say |
| BodyStorage.AcceptsExactlyWithinLimit | common/body_storage.go:262-303 | On a working disk a complete body is accepted exactly within the limit and kept as it is, on either path, on disk exactly as the two gates say |
| BodyStorage.BufferMeans | common/body_storage.go:240-259 | Bytes in memory are kept as they are, on disk exactly when the cache is enabled, they reach the threshold, fit the budget and the disk takes them |
| BodyStorage.EventMeans | common/body_storage.go:37-303 | Creating and closing touch nothing but the storage added or closed, which keeps its data and kind |
| BodyStorage.OutcomeMeans | common/body_storage.go:262-303 | For every reader, declared length, limit below the largest and disk: exactly when the body is too large, the reader or the disk fails, or the whole body is kept, and where |
| BodyStorage.WrapIsInt64 | common/disk_cache_config.go:170-177 | The wrapped sum is in the int64 range and differs from the sum by a multiple of 2^64 |
| BodyStorage.StaysWithinIff | common/disk_cache_config.go:170-177 | One creation or closing keeps the disk usage within the budget if and only if it does not put on disk a body larger than what is left |
| BodyStorage.BudgetKeptIff | common/disk_cache_config.go:109-177 | Over any run of creations and closings the usage stays within the budget throughout if and only if no event overruns it |
| BodyStorage.HonestRunKeepsBudget | common/disk_cache_config.go:109-177 | When no body is longer than declared and no sum can wrap, no run takes the usage over the budget |
| BodyStorage.BodyCache.Drive | common/body_storage.go:37-303 | Over any run the counters are the number and total size of the open storages, and the storages are those of the specified run |
| BodyStorage.UnderdeclaredBodyOverruns | common/body_storage.go:265-281 | Any body larger than the budget gets in by declaring one byte |
| BodyStorage.HugeDeclaredLengthOverruns | common/disk_cache_config.go:170-177 | Beside any body on disk a second one overruns any budget by declaring the largest length |
| OggScanner.LittleEndianRoundTrip | common/audio.go:228-229 | Reading a little-endian word at any offset returns the number written |
| OggScanner.PageFields | common/audio.go:219-245 | What the scanner reads of a page that stands at an offset is the page's granule position, table and size |
| OggScanner.TableSum | common/audio.go:242-245 | The sum of the segment table |
| OggScanner.SumIsAdditive | common/audio.go:242-245 | Sums of adjoining parts of a segment table add up, and that of one segment is the segment |
| OggScanner.ScanOnce | common/audio.go:207-249 | The reads and seeks of one pass move and update exactly as the pass function says |
| OggScanner.OpusDuration | common/audio.go:196-254 | Terminates on every byte string although it seeks backwards, and computes the scan and the duration at 48 kHz |
| OggScanner.PassAtReadsPages | common/audio.go:228-248 | A pass on any well-formed page, wherever it stands, moves past it as a whole and takes its granule position into account |
| OggScanner.PassAtReadsCutPages | common/audio.go:228-248 | A pass on a page in which the file ends, behind its header, takes its granule position into account and is the last to see a page |
| OggScanner.JunkHasNoMagic | common/audio.go:219-226 | Bytes without the capture pattern stay without it when a page follows them |
| OggScanner.RunReadsPages | common/audio.go:207-249 | A scan of the first k bytes of laid-out pages sees exactly the pages whose header lies within, in order |
| OggScanner.ScanReadsEveryPage | common/audio.go:196-254 | On any stream of well-formed pages with pattern-free bytes around them, cut off anywhere, the scan visits exactly the pages whose header is there, each once, and returns the maximum of zero and their signed granule positions |
| OggScanner.WholeStreamIsRead | common/audio.go:196-254 | Not cut off, it visits every page |
| QuotaMath.ConversionIsSafe | common/quota_math.go:72-86 | Conversions stay in the int32 range, keep the sign and flag not-a-number |
| QuotaMath.ClampsExactly | common/quota_math.go:72-107 | Which clamp is reported for which value, and the bound or zero that is handed out then |
| QuotaMath.UnclampedIff | common/quota_math.go:88-135 | The strict forms succeed exactly when the (rounded) value is strictly inside the bounds |
| QuotaMath.ConversionIsMonotone | common/quota_math.go:98-128 | A larger value never converts to a smaller quota |
| QuotaMath.TruncationGoesTowardZero | common/quota_math.go:98-107 | The truncating form returns the integer next to the value on the side of zero |
| QuotaMath.TruncationAndRoundingAgree | common/quota_math.go:98-128 | The truncating and the rounding form differ by at most one |
| QuotaMath.DecimalPathIsExact | common/quota_math.go:136-148 | The decimal path gives the exact clamp of the rounded decimal, although it goes through a float, with overflow, underflow or no clamp reported exactly as it is |

## Left out

- HTTP handling, JSON binding, audit and log texts, notifications, i18n: plumbing without a hard property.
- Database failures and rollbacks: every write is taken to succeed, and the in-memory channel is what is stored.
- ChargeViolationFeeIfNeeded, settlement amounts and the billing session's internals: not decided in the modelled code.
- Failover.FailoverLoop: the resolved group, its priorities and the lists of channels are fixed for one request; the background cache sync in mid-request is not modelled.
- Selector.SelectChannel: the database selector used without memory cache is not modelled; channel ids are positive, and the lists do not change during a request.
- Sampling.ReadBlock: a nil limit, and bytes a reader writes beyond the count it reports, are not modelled.
- Selector.RunFollowsRanking: the walk over several groups for a request whose group is still "auto" is not modelled; the loops freeze the group once the distributor has resolved it.
- MultiKey.Channel.Update: keys stored as a JSON array, and key texts that start with a bracket, are not modelled.
- MultiKey.Channel.Store: the same holds of the stored text it parses.
- MultiKey.Channel.Append: the Vertex key formats and replace mode are not modelled.
- MultiKey.Channel.Manage: automatic disabling and enabling by `UpdateChannelStatus` is not one of the actions; what it left in the maps is part of the channel as it was stored.
- MultiKey.Channel.BuildStatusList: the key preview is cut at ten characters, the source's at ten bytes; they agree on ASCII keys.
- UpstreamSync.DetectOnce: the channel's redirect table is taken as already normalised, and regular-expression matching is an oracle.
- PricingDiff.BuildDifferences: channel names are distinct, as the caller makes them; values are taken after number parsing, and lists or objects as values are not modelled.
- ModelsDev.RatiosMeaning: floating-point rounding is not modelled; prices are reals.
- RateLimiter.LongerDurationIsForgotten: requires a non-negative expiry; a limiter initialised with a non-positive one never sweeps.
- ModelMapping.ResolveUpstreamModel: parsing of the mapping text is a case split into blank, malformed and table.
- BodyStorage.BodyCache.CreateFromReader: races between concurrent creations, external removal of live files and the hit counters are not modelled.
- BodyStorage.DiskStorage.Call: disk faults after creation, the hole-seeking whence values and a file system's own limit on offsets are not modelled.
- OggScanner.OpusDuration: a reader is taken to fill its buffer while bytes are left; page checksums are not checked, as the source does not check them.
- Audio formats other than Opus, Midjourney polling, OAuth, passkeys, payments, SSRF checks and encryption: thin wrappers or state kept in code outside the modelled files.
