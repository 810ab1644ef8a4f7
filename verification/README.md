# Verified model of the nginx rate limiter

The module limits requests by asking Redis. A handler in nginx's preaccess phase sends one Lua script call for a
request, waits, and lets the request go on, refuses it, or fails it. This project models the three layers that make
that decision and proves what holds of them over every input, every run and every interleaving.

1. **The four scripts** (`FixedWindow`, `TokenBucket`, `Gcra`, `SlidingWindow`). Each Lua body is a method on a
   `Key` object, whose value and deadline it changes in place, and is proved against a step function. The theorems are
   about whole histories of calls: how much any span of time admits, what `Retry-After` is worth, that a peek is pure
   and exact, that reclaiming an expired key is never noticed. Token bucket and GCRA are both shown to answer like one
   leaky `Meter`, which remembers its backlog exactly or as rounded as it is stored; `RoundedBucket`, `Rounding`,
   `Divergence` and `Agreement` say what difference that makes, and exactly when. The sliding window is shown to agree
   with a full log.
2. **The exchange with Redis** (`Encoder`, `ReplyParser`, `ReplyGrammar`, `Session`, `Verdicts`, `Capacity`,
   `Upstream`). `Session` says what one exchange does with every event its sockets can report: AUTH/SELECT replies, the
   EVALSHA reply, the NOSCRIPT fallback to EVAL, finalization. `Upstream` is the imperative code over its buffer and
   fields, proved to do what `Session` says for every sequence of events. The theorems are about all runs: a verdict
   is what the stream as a whole decides, however it is divided into reads; exactly which replies the parser accepts;
   exactly how much buffer an answer takes.
3. **The decision** (`Requests`, `Pool`, `Limits`, `Handler`, `EndToEnd`, `Faultless`). What is sent, what a pooled
   connection and the scripts take it for, when the one exchange of a main request begins, and what its outcome means.
   `EndToEnd` puts any number of requests, one Redis with its script cache, and one key together as a state machine,
   and carries the bounds of layer 1 through layers 2 and 3; `Faultless` shows that without faults nobody is left
   waiting and nothing is wasted.

`Foundation`, `Histories`, `Rates`, `Stored` and `Bytes` hold shared vocabulary. `dafny verify dfyconfig.toml`
verifies the project.

## Assumptions

- The server clock never runs backwards and the parameters of a key are constant. `requests >= 1`, `period >= 1`
  (src/ngx_http_ratelimit_module.c:477-502).
- A key never vanishes before its deadline. Token bucket, GCRA and sliding window may find it at any time after; the
  fixed window, which has no other clock, relies on Redis reporting it as gone from the deadline on (`Prompt`). `TTL`
  rounds the time left to the nearest second.
- Lua numbers are exact reals. What is stored is either exact or rounded to six decimals as printf does (`Format`);
  with six decimals the clock ticks in microseconds, as TIME does (`Printable`). Reply numbers are unbounded; `Fits`
  says that they are within 2^63-1.
- The sockets may report anything at any time that the state of the exchange allows (`Enabled`). How nginx's own
  upstream code connects and sends the first request is not part of this model, except that connecting may fail.
- A request is redirected internally only when its exchange is over. A server answers commands in order, says NOSCRIPT
  only when it has not run the script, and may send errors at any point. A pooled connection is one on which every AUTH
  and SELECT so far was accepted; nobody but this module uses it.

## Where the code and its documentation differ

- `Retry-After` is documented as the wait. For the token bucket, which writes its level with six decimals on a refusal
  too, it is enough exactly if the level written refills in that time (`TokenBucket.RetryCondition`); it can be early
  (`RoundedBucket.RetryAfterCanBeEarly`), but by no more than a second while a unit is worth at most two million
  seconds (`TokenBucket.RetryAfterWithinOneSecond`). For the fixed window it is too short exactly when `TTL` rounds
  down (`FixedWindow.RetryAfter`); for the sliding window it is exact on one branch and, on the other, enough only if
  the carried-over count has faded enough (`SlidingWindow.RetryAfterWhenFull`, `SlidingWindow.RetryAfterOnWholeSecond`).
- For the same reason a client of the token bucket that polls at a steady pace is served again if and only if an
  interval adds anything that is written, half a millionth of a unit (`RoundedBucket.ServedAgain`).
- docs/CUSTOM_SCRIPT.md:99-106 promises that any deviation from the reply contract fails the request. The parser reads
  -11 as -1, takes a `retry_after` of 0, and accepts replies without digits (`ReplyGrammar.ExactlyTheseReplies`,
  `ReplyGrammar.ExactlyTheTexts`, `ReplyGrammar.NotOnlyResp`).
- docs/DIRECTIVES.md:212-214 allows twice the limit across a window boundary. That takes a span longer than the window;
  spans of one window admit at most one unit less, and that is reached (`FixedWindow.WindowsBoundIsSharp`).
- src/ngx_http_ratelimit_script.c:4-11 promises a non-negative `remaining`. With six-decimal storage a GCRA peek can
  return -1, and the request then fails (`EndToEnd.RoundedPeekIsRefused`): in exactly the zones whose whole burst is
  worth a time that is rounded up when it is written (`Gcra.ContractCanBreak`).
- src/ngx_http_ratelimit_handler.c:386-398 and docs/DIRECTIVES.md:119-122 promise that a location is isolated on a
  pooled connection because database and identity are established on every request. Neither database 0 nor the default
  identity is ever asked for, so such a location keeps its own exactly if no earlier use of the connection has named
  one (`Pool.RunsWhereConfigured`, `Pool.DefaultLeaks`).
- A sliding-window peek says "allowed" although no unit fits when the estimate is within one unit of the limit
  (`SlidingWindow.PeekStatus`, `SlidingWindow.PeekCanMislead`). Its `remaining` is right. Peeks carry `retry_after` -1
  even when limited.
- src/ngx_http_ratelimit_script.c:134 says that GCRA reports floor(diff / T) as `remaining`. A refusal reports 0, also
  when fewer units would still have been admitted (`Gcra.EveryRemainingIsExact`).
- docs/DIRECTIVES.md:82-83 describes prefixes as name spaces. A prefix that goes on after a `_` where another ends can
  share keys with it (`Handler.PrefixesKeepApart`).
- A reply that fits its buffer only in part can be left waiting for the timeout (`Capacity.StrandedWithoutRoom`,
  `Capacity.FallbackStrandedWithoutRoom`).

## Model

| member | source | states |
|---|---|---|
| `FixedWindow.FixedWindowScript` | src/ngx_http_ratelimit_script.c:23-60 | the Lua body leaves the key and gives the reply of the step function that the lemmas below are about |
| `FixedWindow.AlwaysSound` | src/ngx_http_ratelimit_script.c:46-57 | after every run a stored counter lies in 1..limit and expires at most one window from now |
| `FixedWindow.OpenedByAdmission` | src/ngx_http_ratelimit_script.c:46-57 | every live counter was opened exactly one window before its deadline, by an admitted call of the run that found no counter |
| `FixedWindow.CounterIsGenerationSum` | src/ngx_http_ratelimit_script.c:37-60 | the counter is the sum of what its generation admitted, nothing lost or counted twice |
| `FixedWindow.GenerationBound` | src/ngx_http_ratelimit_script.c:37-60 | a generation lasts exactly one window from the call that opens it and admits at most the limit |
| `FixedWindow.AnswersByLog` | src/ngx_http_ratelimit_script.c:23-60 | in every run, from the log of what the generation has admitted: a call is admitted if and only if its units fit beside that sum, remaining is the limit less that sum after the call, and reset the time to the generation's end, to the nearest second |
| `FixedWindow.RemainingIsThere` | src/ngx_http_ratelimit_script.c:57-60 | after any call, at the same instant, just the quantities up to its remaining are admitted |
| `FixedWindow.OnesAdmitted` | src/ngx_http_ratelimit_script.c:37-60 | of single units within one generation exactly the first `limit` are admitted |
| `FixedWindow.WindowsBound` | src/ngx_http_ratelimit_script.c:37-60 | in every run any k windows of time admit at most (k+1)*limit - 1 units |
| `FixedWindow.WindowsBoundIsSharp` | docs/DIRECTIVES.md:212-214 | for every limit and window a run reaches that bound within one window of time |
| `FixedWindow.BoundaryBurst` | docs/DIRECTIVES.md:212-214 | twice the limit is reached in every span longer than the window |
| `FixedWindow.RepliesMeetContract` | src/ngx_http_ratelimit_script.c:4-11 | every reply from a sound state is in range, and retry_after is -1 just on admission or peek |
| `FixedWindow.RepliesFit` | src/ngx_http_ratelimit_script.c:28-60 | in every run no number of a reply exceeds the limit or the window |
| `FixedWindow.ResetIsTimeLeft` | src/ngx_http_ratelimit_script.c:21-21 | reset is the time left in the window to the nearest second |
| `FixedWindow.EveryRemainingIsExact` | src/ngx_http_ratelimit_script.c:28-60 | with every reply remaining r means that, beyond what the call takes, just 1..r would have been admitted |
| `FixedWindow.PeekIsPureAndExact` | src/ngx_http_ratelimit_script.c:28-36 | a quantity-0 call changes no later reply, and remaining r means that just 1..r are admissible |
| `FixedWindow.RetryAfter` | src/ngx_http_ratelimit_script.c:37-45 | waiting out retry_after is enough if and only if TTL did not round the time left down |
| `FixedWindow.RetryAfterIsMinimal` | src/ngx_http_ratelimit_script.c:37-45 | any shorter wait of whole seconds is refused |
| `FixedWindow.RetryAfterCanBeEarly` | src/ngx_http_ratelimit_script.c:37-45 | a concrete refusal whose retry_after is too short |
| `FixedWindow.TooMuchIsNeverAdmitted` | src/ngx_http_ratelimit_script.c:37-45 | a call for more than the limit is refused in every run, so that its retry_after never helps |
| `TokenBucket.TokenBucketScript` | src/ngx_http_ratelimit_script.c:76-121 | the Lua body leaves the key and gives the reply of the step function |
| `TokenBucket.AlwaysSound` | src/ngx_http_ratelimit_script.c:92-118 | with either storage, stored tokens stay between empty and capacity and the key outlives a full refill by less than a second |
| `TokenBucket.StepRefinesMeter` | src/ngx_http_ratelimit_script.c:92-121 | with either storage, one call on the bucket is answered like one call on the leaky meter |
| `TokenBucket.LeavesRefinesMeter` | src/ngx_http_ratelimit_script.c:107-118 | what a call writes, read at any later time, is what the meter remembers, drained; with six decimals every consuming call rounds it |
| `TokenBucket.RunRefinesMeter` | src/ngx_http_ratelimit_script.c:76-121 | every run answers like the meter, whenever keys are reclaimed; with six decimals, like the meter that rounds the units left |
| `TokenBucket.ExpiryIsInvisible` | src/ngx_http_ratelimit_script.c:98-99 | with either storage, when the server reclaims an expired bucket makes no difference to any reply |
| `TokenBucket.RetryCondition` | src/ngx_http_ratelimit_script.c:115-120 | with either storage, the same call k seconds after a refusal is admitted if and only if the level that the refusal wrote refills in k seconds |
| `TokenBucket.RetryAfterIsExact` | src/ngx_http_ratelimit_script.c:119-120 | when that level is written without loss, as exact storage always does, retry_after is sufficient and minimal |
| `TokenBucket.RetryAfterWithinOneSecond` | src/ngx_http_ratelimit_script.c:115-120 | with either storage and a unit worth at most two million seconds, one second more is enough and more than one second less is refused |
| `RoundedBucket.RetryAfterCanBeEarly` | src/ngx_http_ratelimit_script.c:115-120 | a concrete run with six-decimal storage in which waiting out retry_after is refused |
| `RoundedBucket.PollingStarves` | src/ngx_http_ratelimit_script.c:115-118 | with six-decimal storage a client that polls faster than half a millionth of a unit is added gets nothing, for any number of polls |
| `RoundedBucket.PollingIsServed` | src/ngx_http_ratelimit_script.c:115-118 | any other polling client is served, at the latest one poll after what is written for it comes to a unit, and is refused until then |
| `RoundedBucket.ServedAgain` | src/ngx_http_ratelimit_script.c:115-118 | so a client that has emptied the bucket and polls every dt seconds is served again if and only if the units that dt adds are not written as 0 |
| `RoundedBucket.RefusalsCostLittle` | src/ngx_http_ratelimit_script.c:115-118 | with six-decimal storage n refusals in a row leave at most n roundings less than if nothing had been asked |
| `TokenBucket.PeekIsPureAndExact` | src/ngx_http_ratelimit_script.c:102-106 | with either storage a peek is pure, its remaining exact, and its status says whether a unit fits |
| `TokenBucket.RepliesMeetContract` | src/ngx_http_ratelimit_script.c:4-11 | with either storage every reply of every run meets the contract, limit is the capacity |
| `TokenBucket.RepliesFit` | src/ngx_http_ratelimit_script.c:92-121 | nor does a number of any reply exceed a bound on the capacity, the time of a full refill and the time that the units asked for take |
| `TokenBucket.EveryRemainingIsExact` | src/ngx_http_ratelimit_script.c:100-121 | with either storage remaining r means, for a refusal too, that beyond what the call takes just 1..r would have been admitted |
| `TokenBucket.ResetIsExact` | src/ngx_http_ratelimit_script.c:72-74 | waiting k seconds makes the whole capacity available if and only if k has reached reset, if the level that is left is written without loss |
| `TokenBucket.RateBound` | src/ngx_http_ratelimit_script.c:92-121 | any span admits at most capacity + rate*length, plus 5e-7 for each consuming call with rounded storage |
| `Gcra.GcraScript` | src/ngx_http_ratelimit_script.c:137-178 | the Lua body leaves the key and gives the reply of the step function |
| `Gcra.AlwaysSound` | src/ngx_http_ratelimit_script.c:161-178 | the stored TAT is at most one horizon ahead, up to one rounding, and its key outlives it by less than a second and one rounding |
| `Gcra.StepRefinesMeter` | src/ngx_http_ratelimit_script.c:150-178 | one call on any TAT is answered like one call on the leaky meter, but a refusal reports nothing remaining |
| `Gcra.LeavesRefinesMeter` | src/ngx_http_ratelimit_script.c:174-177 | what a call leaves, read at any later time, is what the meter remembers, drained; with six decimals an admission rounds the instant |
| `Gcra.RunRefinesMeter` | src/ngx_http_ratelimit_script.c:137-178 | every run answers like the meter in that sense, whenever keys are reclaimed; with six decimals, like the meter that rounds the instant at which it has drained |
| `Gcra.ExpiryIsInvisible` | src/ngx_http_ratelimit_script.c:175-177 | with either storage, when the server reclaims an expired TAT makes no difference to any reply |
| `Gcra.RetryAfterIsExact` | src/ngx_http_ratelimit_script.c:163-166 | with either storage, the same call k seconds later is admitted if and only if k has reached retry_after |
| `Gcra.PeekIsPureAndExact` | src/ngx_http_ratelimit_script.c:150-160 | with either storage and in every state a peek is pure, its remaining exact, and its status says whether a unit fits |
| `Gcra.PeekGoesNegative` | src/ngx_http_ratelimit_script.c:153-159 | a peek reports a negative remaining if and only if the stored TAT lies beyond the horizon |
| `Gcra.RoundingMakesPeekNegative` | src/ngx_http_ratelimit_script.c:174-174 | a concrete run in which six-decimal storage leads there |
| `Gcra.RepliesMeetContract` | src/ngx_http_ratelimit_script.c:4-11 | with either storage a reply of a run meets the contract if and only if it is not a peek at a TAT beyond the horizon; with exact storage every reply does |
| `Gcra.ContractCanBreak` | src/ngx_http_ratelimit_script.c:4-11 | with six-decimal storage some run of a zone breaks the contract if and only if its horizon is rounded up when it is written |
| `Gcra.RepliesFit` | src/ngx_http_ratelimit_script.c:150-178 | in all other zones no number of any reply exceeds a bound on the burst, the horizon and the time that the units asked for take |
| `Gcra.EveryRemainingIsExact` | src/ngx_http_ratelimit_script.c:150-178 | with either storage remaining r means that beyond what the call takes just 1..r would have been admitted; a refusal says 0, which is exact if and only if a single unit would have been refused too |
| `Gcra.ResetIsExact` | src/ngx_http_ratelimit_script.c:134-135 | waiting k seconds makes the whole burst available if and only if k has reached reset, if the TAT that is left is written without loss |
| `Gcra.RateBound` | src/ngx_http_ratelimit_script.c:146-178 | any span admits at most burst + 1 units plus one per emission interval, with half a microsecond more for each admission with rounded storage; refusals loosen nothing |
| `Agreement.BucketIsGcra` | src/ngx_http_ratelimit_script.c:76-178 | on the same calls, peeks, refusals and expiry included, token_bucket(requests, period, b) and gcra(requests, period, requests+b-1) give the same five numbers, except remaining on a refusal of more than one unit: with exact storage always, with six decimals if the rate is whole units per second and whole microseconds per unit |
| `Agreement.OnlyEvenRatesAgree` | src/ngx_http_ratelimit_script.c:109-110 | with six-decimal storage a configured zone has a run on which the two differ if and only if its rate is not even, that is, whole units per second and whole microseconds per unit |
| `Divergence.RoundedInstantDiffers` | src/ngx_http_ratelimit_script.c:174-174 | if a unit is not worth whole microseconds, one unit and one peek tell the two apart |
| `Divergence.RoundedUnitsDiffer` | src/ngx_http_ratelimit_script.c:109-118 | if some refill is rounded down when it is written, a refusal in that instant makes the bucket full later than GCRA is empty |
| `Divergence.HalfRateDiffers` | src/ngx_http_ratelimit_script.c:109-118 | with half an odd number of units per second, refusals a microsecond apart are rounded up until the bucket is full a microsecond before GCRA is empty |
| `Rounding.LosslessRun` | src/ngx_http_ratelimit_script.c:109-110 | for such rates the rounding memories find, leave and answer as if nothing were rounded |
| `Meter.RetryAfter` | src/ngx_http_ratelimit_script.c:119-120 | in the reference meter retry_after is sufficient and minimal |
| `Meter.RemainingIsExact` | src/ngx_http_ratelimit_script.c:134-135 | in the reference meter remaining says just which quantities fit beyond what the call takes |
| `Meter.ResetInRun` | src/ngx_http_ratelimit_script.c:134-135 | and reset is the least number of whole seconds after which the whole capacity fits again |
| `Rates.Configured` | src/ngx_http_ratelimit_script.c:82-142 | the rate gains `requests` units in `period` seconds, and `requests` units are worth `period` seconds |
| `SlidingWindow.SlidingWindowScript` | src/ngx_http_ratelimit_script.c:197-253 | the Lua body leaves the key and gives the reply of the step function |
| `SlidingWindow.RollOver` | src/ngx_http_ratelimit_script.c:203-223 | the stored counts are rolled over to the window of now, skipped windows included |
| `SlidingWindow.CountsAreLogged` | src/ngx_http_ratelimit_script.c:203-249 | after every history the rolled-over counts are the full log's sums for the current and the previous aligned window |
| `SlidingWindow.AdmitsByEstimate` | src/ngx_http_ratelimit_script.c:224-246 | a call is admitted exactly when the full log's weighted estimate and its own units stay within the limit |
| `SlidingWindow.RemainingByEstimate` | src/ngx_http_ratelimit_script.c:224-253 | in every run remaining r means that just 1..r fit beside the full log's estimate after the call, whether it was admitted, refused or a peek |
| `SlidingWindow.RemainingIsThere` | src/ngx_http_ratelimit_script.c:224-253 | after any call, at the same instant, just the quantities up to its remaining are admitted |
| `SlidingWindow.ResetIsWindowEnd` | src/ngx_http_ratelimit_script.c:226-253 | in every run reset is the time to the end of the aligned window, rounded up, and 0 just for a peek with nothing logged in the current and the previous window |
| `SlidingWindow.KeptWhileItCounts` | src/ngx_http_ratelimit_script.c:247-249 | the key outlives the last window in which its counts weigh, by less than one window |
| `SlidingWindow.EstimateWithinLimit` | src/ngx_http_ratelimit_script.c:224-253 | the weighted estimate is within the limit at every instant of every run, across boundaries too |
| `SlidingWindow.WindowBound` | src/ngx_http_ratelimit_script.c:224-253 | every aligned window admits at most the limit |
| `SlidingWindow.AdjacentBound` | src/ngx_http_ratelimit_script.c:224-253 | two adjacent windows together admit at most the limit and the faded share of the first |
| `SlidingWindow.SpanBound` | src/ngx_http_ratelimit_script.c:188-192 | any span of one window admits at most the limit and a share of it, so at most twice the limit |
| `SlidingWindow.ExpiryIsInvisible` | src/ngx_http_ratelimit_script.c:249-249 | when the server reclaims an expired key makes no difference to any reply |
| `SlidingWindow.RetryAfterIsExact` | src/ngx_http_ratelimit_script.c:237-244 | on the fading branch a retry after k seconds is admitted if and only if k has reached retry_after, also in a later window |
| `SlidingWindow.RetryAfterWhenFull` | src/ngx_http_ratelimit_script.c:241-243 | on the other branch retry_after is the time to the window's end, rounded up, no shorter wait is admitted, and it is enough if and only if the carried-over count has faded enough by then |
| `SlidingWindow.RetryAfterOnWholeSecond` | src/ngx_http_ratelimit_script.c:241-243 | on that branch a refusal on a whole second is always refused again |
| `SlidingWindow.RetryAfterCanFail` | src/ngx_http_ratelimit_script.c:241-243 | the smallest such run |
| `SlidingWindow.PeekIsPureAndExact` | src/ngx_http_ratelimit_script.c:225-235 | a peek is pure and its remaining exact in every state |
| `SlidingWindow.PeekStatus` | src/ngx_http_ratelimit_script.c:231-236 | a peek says allowed if and only if the estimate is below the limit, so that it says so while no unit fits if and only if limit-1 < estimate < limit |
| `SlidingWindow.PeekCanMislead` | src/ngx_http_ratelimit_script.c:231-236 | a concrete run that gets there |
| `SlidingWindow.RepliesMeetContract` | src/ngx_http_ratelimit_script.c:4-11 | every reply of every run meets the contract |
| `SlidingWindow.RepliesFit` | src/ngx_http_ratelimit_script.c:203-253 | in every run no number of a reply exceeds the limit or the window |
| `Foundation.Key.Get` | src/ngx_http_ratelimit_script.c:27-27 | GET and HMGET see a key until its deadline |
| `Encoder.GetNumSize` | src/ngx_http_ratelimit_util.c:53-64 | the loop counts the decimal digits |
| `Encoder.FrameLength` | src/ngx_http_ratelimit_util.c:78-88 | the precomputed length is that of the frame |
| `Encoder.BuildCommand` | src/ngx_http_ratelimit_util.c:66-123 | for every argv exactly the RESP frame is written, and the mismatch branch is dead |
| `Encoder.RoundTrip` | src/ngx_http_ratelimit_util.c:66-123 | an independent reader gets back exactly the pipelined commands, whatever bytes they hold |
| `Encoder.Unambiguous` | src/ngx_http_ratelimit_util.c:66-123 | no two chains of commands share a byte stream |
| `Encoder.OnTheWire` | src/ngx_http_ratelimit_util.c:66-123 | the frame of a command, byte by byte |
| `ReplyParser.Context.ProcessReply` | src/ngx_http_ratelimit_reply.c:22-290 | the byte loop computes the parser function on the bytes at hand and saves its place only when more is to come |
| `ReplyParser.Context.Byte` | src/ngx_http_ratelimit_reply.c:62-272 | the switch does to the fields what one step of the parser function does |
| `ReplyParser.Resumable` | src/ngx_http_ratelimit_reply.c:48-59 | arbitrary bytes split anywhere give the same result as the whole |
| `ReplyParser.ParsedOnlyAtEnd` | src/ngx_http_ratelimit_reply.c:275-289 | reply_parsed is set only by a reply read to its final LF |
| `ReplyParser.NoEarlyEnd` | src/ngx_http_ratelimit_reply.c:264-289 | no proper prefix of a complete reply completes |
| `ReplyParser.AccumIsExact` | src/ngx_http_ratelimit_reply.c:8-20 | accumulating digits of any number gives the exact value, or an error if and only if it exceeds 2^63-1 |
| `ReplyParser.NumbersAreExact` | src/ngx_http_ratelimit_reply.c:118-262 | the same for every number field in its place, also for the signed one that starts at -1 |
| `ReplyParser.RoundTrip` | src/ngx_http_ratelimit_reply.c:22-290 | a reply that meets the contract and fits, printed and parsed, gives back its five numbers and is consumed whole |
| `ReplyParser.OnTheWire` | src/ngx_http_ratelimit_reply.c:62-289 | what the round trip takes for a printed reply, byte by byte |
| `ReplyGrammar.ExactlyTheTexts` | src/ngx_http_ratelimit_reply.c:62-289 | the bytes read as a whole reply are exactly the prints of a small grammar, and the fields are their meaning |
| `ReplyGrammar.ExactlyTheseReplies` | docs/CUSTOM_SCRIPT.md:99-106 | of all lists of five integers just those in range are accepted, where retry_after may be 0 or a negative number written with ones, read as -1 |
| `ReplyGrammar.NotOnlyResp` | docs/CUSTOM_SCRIPT.md:99-106 | bytes that no RESP server prints are accepted as a grant |
| `ReplyGrammar.MinusElevenPasses` | src/ngx_http_ratelimit_reply.c:220-231 | a reply with retry_after -11 breaks the contract and is read as -1 |
| `Session.LineEndIsFirst` | src/ngx_http_ratelimit_handler.c:567-576 | a line ends at its first LF |
| `Session.ReadKeepsDecision` | src/ngx_http_ratelimit_handler.c:611-716 | one read never changes what the whole stream decides: the session keeps it, has made it, has fallen back, or its header has filled the buffer |
| `Session.RunDecides` | src/ngx_http_ratelimit_upstream.c:293-507 | with room enough every division into reads and every interleaving with writes leads to what the stream read as a whole decides |
| `Verdicts.VerdictOrigin` | src/ngx_http_ratelimit_upstream.c:293-629 | in every run, faults included, a verdict is what the bytes so far decide, or, after NOSCRIPT, the bytes since the EVAL |
| `Verdicts.ReplyIsDelivered` | src/ngx_http_ratelimit_handler.c:628-656 | k prelude lines and a reply give that reply's verdict and counters for every division into reads |
| `Verdicts.FallbackIsDelivered` | src/ngx_http_ratelimit_handler.c:672-691 | the same behind a NOSCRIPT: the verdict is the reply to the EVAL |
| `Verdicts.NoAnswerFails` | docs/CUSTOM_SCRIPT.md:99-106 | a prelude line that is not `+`, a reply that is neither an array nor an error, and an error that is not the first NOSCRIPT end the exchange with 500 for every division into reads |
| `Capacity.NeverStranded` | src/ngx_http_ratelimit_upstream.c:217-243 | with room, after any part of the answer in any division the rest still brings the verdict |
| `Capacity.FullBufferStrands` | src/ngx_http_ratelimit_upstream.c:462-469 | without room, one read that fills the buffer leaves no continuation with a verdict |
| `Capacity.StrandedWithoutRoom` | src/ngx_http_ratelimit_upstream.c:217-351 | a division into reads can strand a conforming answer if and only if the buffer is smaller than the answer and does not end just behind the `*` |
| `Capacity.FallbackStrandedWithoutRoom` | src/ngx_http_ratelimit_upstream.c:590-629 | behind a NOSCRIPT reply, if and only if the buffer is smaller than the prelude and the error line, or than the answer to the EVAL |
| `Upstream.Upstream.constructor` | src/ngx_http_ratelimit_upstream.c:410-426 | a new exchange is the beginning of a session |
| `Upstream.Upstream.FinalizeUpstream` | src/ngx_http_ratelimit_upstream.c:9-97 | headers are decided on the status before an error is mapped to it |
| `Upstream.Upstream.ConsumePreludeReply` | src/ngx_http_ratelimit_handler.c:561-596 | one prelude line is consumed, awaited or rejected |
| `Upstream.Upstream.ReadReplyType` | src/ngx_http_ratelimit_handler.c:642-716 | the first byte and the error line decide as the session says |
| `Upstream.Upstream.ProcessHeader` | src/ngx_http_ratelimit_handler.c:611-716 | the header step agrees with the session, and on NOSCRIPT has started to send the EVAL |
| `Upstream.Upstream.ResendEval` | src/ngx_http_ratelimit_upstream.c:590-629 | the EVAL frame is built once and the parser, buffer and prelude start over |
| `Upstream.Upstream.SendEval` | src/ngx_http_ratelimit_upstream.c:510-563 | the send loop writes the frame in order over any sequence of partial writes |
| `Upstream.Upstream.SendEvalHandler` | src/ngx_http_ratelimit_upstream.c:565-588 | the write handler maps timeout, drop and internal fault to 504, 502 and 500 |
| `Upstream.Upstream.Filter` | src/ngx_http_ratelimit_handler.c:724-730 | the bytes just received are parsed from their own place in the buffer |
| `Upstream.Upstream.ProcessRedisResponse` | src/ngx_http_ratelimit_upstream.c:151-257 | the read loop does what the session does for every sequence of read results, and stops without room |
| `Upstream.Upstream.ReadBodyHandler` | src/ngx_http_ratelimit_upstream.c:260-281 | a timeout ends the exchange with 504, anything else is read |
| `Upstream.Upstream.ProcessResponse` | src/ngx_http_ratelimit_upstream.c:293-370 | what came with the header is parsed before more is read |
| `Upstream.Upstream.ReadHeaderHandler` | src/ngx_http_ratelimit_upstream.c:373-507 | the header loop does what the session does for every sequence of events |
| `Upstream.Upstream.Serve` | src/ngx_http_ratelimit_upstream.c:151-629 | driven by any possible events the handlers end in exactly the state of the session's run |
| `Requests.BuildPrelude` | src/ngx_http_ratelimit_handler.c:451-515 | the chain holds AUTH if there is a password and SELECT if there is a database, and counts their replies |
| `Requests.CreateRequest` | src/ngx_http_ratelimit_handler.c:282-413 | the buffers hold the prelude and the script call, or the EVAL alone |
| `Requests.ServerReads` | src/ngx_http_ratelimit_handler.c:307-330 | the bytes decode to AUTH with the password, then SELECT with the database, as configured, then EVALSHA and the SHA, or EVAL and the body alone, and one key |
| `Requests.ArgumentsAreRead` | src/ngx_http_ratelimit_handler.c:302-373 | behind the key are read limit, period and quantity for the windows, requests, period, burst and quantity for the rest, where a location's burst overrides the zone's |
| `Requests.Words` | src/ngx_http_ratelimit_handler.c:312-322 | the command words are the ASCII ones |
| `Requests.SameBytesSameRequest` | src/ngx_http_ratelimit_handler.c:282-413 | equal bytes mean equal password, database, script, key and numbers: what is sent is injective in what is configured |
| `Pool.RunsWhereConfigured` | src/ngx_http_ratelimit_handler.c:386-398 | after any uses of a pooled connection, the last request ran on its own database if and only if it names one or no use has, and as its own identity if and only if it has a password or no use had |
| `Pool.NamedIsIsolated` | src/ngx_http_ratelimit_handler.c:386-398 | a location that names a database and has a password is isolated whatever the connection was used for |
| `Pool.DefaultLeaks` | docs/DIRECTIVES.md:119-122 | one that names neither runs on the database and as the identity of the use before it, whatever that one named |
| `Limits.FreshKeyAdmits` | docs/DIRECTIVES.md:204-210 | the numbers read off the wire make each built-in algorithm advertise its documented limit, admit on a fresh key exactly what fits it, and count it down |
| `Limits.PeriodIsKept` | src/ngx_http_ratelimit_handler.c:328-360 | and they make it last, with exact storage: t seconds after the whole limit has been taken, q units are admitted if and only if a period has passed (fixed window), q periods are within limit times the time since the window ended (sliding window), or q periods are within requests times t (token bucket, GCRA) |
| `Handler.Request.Handle` | src/ngx_http_ratelimit_handler.c:28-261 | a visit returns, marks and begins what the specification of a visit says, and an exchange begins with its own prelude and EVAL |
| `Handler.Request.Decision` | src/ngx_http_ratelimit_handler.c:62-126 | the re-entry maps the status that the exchange left |
| `Handler.Request.Redirect` | src/ngx_http_ratelimit_handler.c:128-132 | an internal redirect wipes the context of the request and leaves the marker on the main request alone |
| `Handler.OneShot` | src/ngx_http_ratelimit_handler.c:128-135 | over any sequence of visits, with or without context, a main request begins at most one exchange |
| `Handler.FirstCommitDecides` | src/ngx_http_ratelimit_handler.c:148-190 | the exchange begins with the first visit that has a usable key, unless setting it up fails; visits without a key use nothing up |
| `Handler.MarkedByCommit` | src/ngx_http_ratelimit_handler.c:184-190 | the one-shot marker is set if and only if some visit has committed the request, whatever came of its exchange |
| `Handler.DecidedForGood` | src/ngx_http_ratelimit_handler.c:128-135 | over any sequence of visits, every visit after that one without an exchange in progress lets the request go on, whatever its key and whatever would fail |
| `Handler.NotCommitted` | src/ngx_http_ratelimit_handler.c:37-58 | as long as no visit commits the request, each one lets it go on without a zone or with an empty key, and otherwise fails with the code of its failure |
| `Handler.FirstCommit` | src/ngx_http_ratelimit_handler.c:190-261 | the committing visit waits for its exchange, or fails with the code of what keeps it from beginning |
| `Handler.Reentered` | src/ngx_http_ratelimit_handler.c:60-126 | a visit that finds the request's exchange is answered by it and begins nothing |
| `Handler.PrefixesKeepApart` | src/ngx_http_ratelimit_handler.c:156-173 | one prefix never merges two keys, and two prefixes can if and only if one goes on after a `_` where the other ends |
| `Handler.Endings` | src/ngx_http_ratelimit_upstream.c:87-96 | every run that ends does so by an event that fixes the status: 502 for a dropped connection, 503 for one that cannot be made, 504 for a timeout, 500 for a fault, and for bytes a verdict or 500 |
| `Handler.FailClosed` | src/ngx_http_ratelimit_handler.c:62-126 | over all runs the request is let through if and only if Redis granted it, or failures are to be ignored and a transport failure ended the exchange; under deny the answer is 502, 503, 504 or 500 by the kind of event that ended it |
| `Handler.GrantWasRead` | src/ngx_http_ratelimit_handler.c:650-656 | behind a grant there is a stream that decides it and was read to its end |
| `Handler.HeadersTellTheTruth` | src/ngx_http_ratelimit_handler.c:740-802 | over all runs the rate headers are emitted if and only if there is a verdict and it is 429 or they are wanted |
| `EndToEnd.DecisionStands` | src/ngx_http_ratelimit_handler.c:611-716 | once a stream has decided something, more bytes do not change it |
| `EndToEnd.ReplyDecides` | src/ngx_http_ratelimit_reply.c:22-290 | any five integers a script returns decide the exchange: as they say, or as a failure if the parser does not accept them |
| `EndToEnd.ReportIsSound` | src/ngx_http_ratelimit_upstream.c:373-629 | whatever the sockets report, module and server stay in step, and the fallback happens only when the script was not run |
| `EndToEnd.AlwaysFair` | src/ngx_http_ratelimit_handler.c:128-190 | in every interleaving every request has at most one exchange, one run and a verdict only from that run |
| `EndToEnd.VerdictIsTheRun` | src/ngx_http_ratelimit_handler.c:62-89 | a verdict has the status and the numbers of the one run made for the request |
| `EndToEnd.AtMostOnce` | src/ngx_http_ratelimit_upstream.c:590-629 | over any events the script runs at most once for a main request, exactly once with a verdict, and at most one EVAL is built |
| `EndToEnd.Conservation` | src/ngx_http_ratelimit_script.c:4-11 | for every script and every span, what the key admitted is what all requests together were granted |
| `EndToEnd.LetThroughWithinAdmitted` | src/ngx_http_ratelimit_handler.c:79-89 | requests let through by a verdict consume at most what the algorithm admits |
| `EndToEnd.DecisionIsTheVerdict` | src/ngx_http_ratelimit_handler.c:62-126 | with failures denied the handler lets an exchange's request go on if and only if the verdict grants it |
| `EndToEnd.FixedWindowEndToEnd` | src/ngx_http_ratelimit_script.c:37-60 | in every interleaving requests let through in one generation consume at most the limit |
| `EndToEnd.FixedWindowsEndToEnd` | src/ngx_http_ratelimit_script.c:37-60 | and over any k windows of time at most (k+1)*limit - 1 |
| `EndToEnd.TokenBucketEndToEnd` | src/ngx_http_ratelimit_script.c:92-121 | the token bucket's rate bound holds of the requests let through |
| `EndToEnd.GcraEndToEnd` | src/ngx_http_ratelimit_script.c:146-178 | the rate bound of GCRA, rounding charged to admissions only, holds of the requests let through |
| `EndToEnd.SlidingWindowEndToEnd` | src/ngx_http_ratelimit_script.c:188-192 | requests let through in a span of one window consume at most twice the limit |
| `Faultless.FixedWindowIsDependable` | src/ngx_http_ratelimit_script.c:23-60 | every reply of a fixed window whose limit and length fit 2^63-1 is accepted by the parser |
| `Faultless.SlidingWindowIsDependable` | src/ngx_http_ratelimit_script.c:197-253 | the same of a sliding window whose limit and length fit |
| `Faultless.TokenBucketIsDependable` | src/ngx_http_ratelimit_script.c:76-121 | the same of a token bucket, with either storage, if its capacity, the time of a full refill and that of the most that is asked for fit |
| `Faultless.GcraIsDependable` | src/ngx_http_ratelimit_script.c:137-178 | the same of GCRA, if moreover its horizon is not rounded up when it is written |
| `Faultless.AlwaysSmooth` | src/ngx_http_ratelimit_upstream.c:373-507 | in every run without faults every exchange waits or has its verdict, fallbacks included |
| `Faultless.VerdictsAtRest` | src/ngx_http_ratelimit_upstream.c:151-507 | and as long as one waits something can still be done for it, so that at rest every request has its verdict |
| `Faultless.EveryoneIsJudged` | src/ngx_http_ratelimit_handler.c:62-89 | without faults, once nothing more can be done, every request has been let through or turned away, for every dependable script and interleaving |
| `Faultless.ExactlyTheLimit` | src/ngx_http_ratelimit_script.c:37-60 | without faults, of n requests for one unit within one window exactly min(n, limit) are let through |
| `EndToEnd.RoundedPeekIsRefused` | src/ngx_http_ratelimit_script.c:153-174 | a GCRA peek made negative by rounding ends its exchange without a verdict |

## Left out

- nginx itself: connecting, the first send, timers, memory pools, which idle connection is taken, the phase engine
  beyond return codes. Allocation failures are faults that can happen at any time.
- Redis beyond GET, SET, INCRBY, HMGET, HSET, EXPIRE, TTL, TIME and the script cache; IEEE rounding of Lua's doubles.
- SHA1, reading script files, and the bodies of custom scripts: in `EndToEnd` a script is any function from a key and
  a call to five integers.
- Directive parsing and merging; their validation is assumed.
- Log sanitising, password wiping, finding an upstream by host name, and how headers are formatted.
- Rounding of a value exactly half way between two six-decimal numbers follows "up", where printf depends on the binary
  value. Only the concrete runs and `Divergence.HalfRateDiffers` look at it; a refill rounded down there instead
  is cut off as in `Divergence.RoundedUnitsDiffer`.
- Requests.CreateRequest: the chain of buffers is a sequence of arrays rather than linked nodes, and numbers are not
  wrapped at 64 bits, which the configured ranges exclude.
- Upstream.Upstream.Serve: the double-finalization guard and nginx's reference counts are not modelled.
- Faultless.EveryoneIsJudged: assumes a read buffer that holds what the server sends (`FitsBuffer`); `Capacity` has the
  exact condition for one exchange.
