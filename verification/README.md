# A verified model of the resilience library

This project models the parts of the library that protect calls between services: the
rate limiters, the circuit breakers, the resilient adapter, sagas, the dead letter queue
and its consumer, health checks, retries, and the checks on data that crosses a service
boundary. `dafny verify dfyconfig.toml` checks all of it.

Each component whose calls overlap is modelled twice. A pure transition system says what one
stretch between two suspensions does, and a run is any sequence of such stretches. A class has the
fields of the source's object and one method for each stretch; its ghost fields record the
run so far, and `Valid` says that the fields are where that run leads. The theorems are
about runs, so they hold of every object at any moment of its life and for every
interleaving of concurrent callers.

Time is an input that does not run backwards. What a protected function, a handler, a
publication or a random draw does is an arbitrary input. Floating-point numbers are reals,
integers are unbounded as they are in Python.

| files | components |
|---|---|
| History, Greedy, Powers | calls, admissions, intervals; what it means to decide calls greedily |
| RateLimitConfig, TokenBucket, SlidingWindow, FixedWindow, RateLimiter | the in-process limiter and its three strategies |
| RedisLimiter, RedisStore, BucketRefinement | the shared limiter, its keys, and its relation to the local bucket |
| CircuitBreaker, ResilientAdapter | the two circuit breakers, the bulkhead, the retry loop around a call; the two compared |
| Saga, SagaLedger, SagaManager | steps, retries and compensations; the manager's maps and counters under overlapping executions |
| DeadLetters, EntryHistory, RetryPass, DLQHandler | the dead letter queue under its tasks; when an entry is collected and when it leaves; what a retry pass removes |
| EventFlow, EventConsumer | the consumer, its tasks and its queue, interleaved |
| HealthChecker, Retry | hysteresis and overall status; the two retry components |
| Regex, Patterns, Validation | the regular expressions, the markdown check, sanitizing for logs |

## What the proofs found

Each of these is a lemma with a concrete input or an exact condition; see the table.

- The script of the Redis limiter says that it adds tokens by the time elapsed. It also
  restarts the interval on every call. While no key expires, a bucket is never given a
  token back if and only if no call comes a whole interval after the one before it
  (`RedisLimiter.NeverRefilledIff`, `RedisLimiter.BusyBucketStarves`).
- The Redis limiter is stricter than the local bucket with the same capacity and rate, on
  every run, exactly when an hour at that rate fills the bucket. Otherwise the expiry of
  the key hands out tokens that were not earned (`BucketRefinement.RefinesIffFillsInAnHour`).
- Expiry also breaks the limit itself: every stretch of calls of every run admits at most
  the capacity plus the tokens of the whole intervals in it if and only if the whole
  intervals of an hour fill the bucket (`RedisLimiter.AlwaysBoundedIff`).
- A triple of the Redis limiter has its key to itself, and its decisions are independent of
  all other requests, if and only if none of its components has a colon; otherwise some
  other triple shares its key (`RedisStore.KeyIsUniqueIffColonFree`,
  `RedisStore.IsIsolatedIffColonFree`).
- A retry pass of the dead letter queue, interleaved with anything, removes exactly the
  entries it publishes if and only if each of its publications finds that nothing at all
  has left the queue since the pass began: no eviction, no expiry, no clearing, and no
  earlier publication (`RetryPass.PassOfARun`). So it publishes at most once. An arrival at
  a full queue is enough to make a pass that publishes once drop an entry that was never
  published (`RetryPass.ArrivalDisturbsAPass`).
- The fixed window admits twice its limit within half a window
  (`FixedWindow.TwiceTheLimitIsReached`).
- Throughout a run the saga manager's maps are disjoint and its active counter is right if
  and only if no id is created twice (`SagaLedger.AgreeIffCreatedOnce`).
- An execution of a saga whose exceptions come from its steps and compensations leaves it
  FAILED, and raises a KeyError, if and only if since it started another execution under
  the same id has ended and the id has not been created again (`SagaLedger.FailsIff`), even
  if all its steps returned (`SagaLedger.SecondExecutorFails`). With one executor for each
  id this never happens (`SagaLedger.OneExecutorNeverFails`). The failed counter does not
  count it (`SagaLedger.OnlyEscapesAreCounted`).
- A parallel saga that fails leaves every later step running
  (`SagaManager.ParallelLeavesLaterStepsRunning`). A strategy other than "reverse_order"
  restores every saga of reversible steps if and only if at most one step had completed
  (`Saga.InOrderIsSafeIff`).
- The adapter's leaky circuit opens strictly earlier than the consecutive-failure circuit
  on some completions if and only if their threshold is at least three
  (`LeakyCounter.OpensEarlierIff`).
- The consumer drops an event without counting it if it is configured to make no attempts
  (`EventConsumer.EventConsumer.ProcessEvent`).
- A health checker is DEGRADED exactly when its first check failed and it has never been
  UNHEALTHY (`HealthChecker.StatusIsOfResults`): success_threshold passed checks in a row
  make it HEALTHY if and only if its first check passed or it has been UNHEALTHY
  (`HealthChecker.RecoversIff`). One failed check and then any number of passed ones leave it
  DEGRADED if and only if the failure threshold is at least two
  (`HealthChecker.DegradedForeverIff`).
- The two delay formulas differ exactly when there is no jitter and the delay is negative.
  The two retry components raise different exceptions exactly when the attempts are
  exhausted. The adapter breaks on a callable without a `__name__` as soon as its first
  attempt raises, and counts that call neither as successful nor as failed
  (`Retry.RetryAdapter.Invoke`).
- Sanitizing does not look at keys. Nothing personal is logged if and only if no key of the
  data, those below sensitive keys aside, has personal data
  (`Validation.NothingPersonalIsLoggedIff`). Two of the four markdown expressions never
  matter.

## Model

| member | source | states |
|---|---|---|
| History.IntervalIsConsecutive | libs/adapters/rate_limiter.py:49-56 | The calls of a closed interval of time are consecutive in an ordered history, and what the interval admits is what they admit |
| Greedy.GreedyConforms | libs/adapters/rate_limiter.py:58-70 | Deciding each call by whether it breaks a cap keeps every cap on every stretch of calls |
| Greedy.GreedyIsMaximal | libs/adapters/rate_limiter.py:58-70 | No other decisions that keep the caps have admitted more by any point |
| RateLimitConfig.Config.RoomIsBelowLimit | libs/adapters/rate_limiter.py:98-101 | A count is below rate times window exactly when it is below the ceiling of that product |
| TokenBucket.TokensAreLeastSlack | libs/adapters/rate_limiter.py:72-87 | At every call the refilled tokens are the minimum, over all windows ending there, of burst + rate * length - admissions in the window |
| TokenBucket.AdmittedIffNoWindowBreaks | libs/adapters/rate_limiter.py:72-87 | A call is admitted if and only if admitting it breaks no (burst, rate) bound over any window that ends now |
| TokenBucket.IntervalBounded | libs/adapters/rate_limiter.py:72-87 | Every interval of length L admits at most burst + rate * L |
| TokenBucket.NoConformingPolicyAdmitsMore | libs/adapters/rate_limiter.py:72-87 | The bucket is optimal among all policies within the (burst, rate) bounds |
| SlidingWindow.PrunedIsFilteredHistory | libs/adapters/rate_limiter.py:89-105 | The pruned list always is the full admission history filtered to (now - W, now] |
| SlidingWindow.AdmittedIffWindowHasRoom | libs/adapters/rate_limiter.py:89-105 | A call is admitted if and only if fewer than rate * W requests were admitted in that window |
| SlidingWindow.AdmissionIsGreedy | libs/adapters/rate_limiter.py:89-105 | A call is admitted if and only if that keeps every stretch shorter than W within ceil(rate * W) |
| SlidingWindow.IntervalBounded | libs/adapters/rate_limiter.py:89-105 | Every interval shorter than W, wherever it starts, holds at most ceil(rate * W) admissions |
| SlidingWindow.NoConformingPolicyAdmitsMore | libs/adapters/rate_limiter.py:89-105 | No policy with that bound on every such interval has admitted more by any point |
| FixedWindow.WindowsAreApart | libs/adapters/rate_limiter.py:107-114 | Every call lies in the window it is counted in, and successive windows start at least W apart |
| FixedWindow.EpochsTakeTime | libs/adapters/rate_limiter.py:107-114 | The d-th window after a call starts more than d - 1 window lengths after it |
| FixedWindow.WindowIsHistory | libs/adapters/rate_limiter.py:107-124 | The window in force and its count, from the call times: the first window starts at creation, each later one at the first call at least W after the last start |
| FixedWindow.AdmittedIffWindowHasRoom | libs/adapters/rate_limiter.py:112-124 | A call is admitted if and only if fewer than ceil(rate * W) of the calls before it in its window were; the call that opens a window is admitted |
| FixedWindow.CallsBounded | libs/adapters/rate_limiter.py:107-124 | Calls within m window lengths meet at most m + 1 windows and hold at most (m + 1) * ceil(rate * W) admissions |
| FixedWindow.IntervalBounded | libs/adapters/rate_limiter.py:107-124 | The same for every closed interval of time; with m = 1, twice the limit in any interval of length W |
| FixedWindow.TwiceTheLimitIsReached | libs/adapters/rate_limiter.py:107-124 | For every configuration there is a run that admits twice the limit within half a window |
| RateLimiter.RateLimiter.Execute | libs/adapters/rate_limiter.py:49-56 | Counts the call as allowed or rejected, and the object's fields stay where a run of its strategy leads |
| RateLimiter.RateLimiter.AllowRequest | libs/adapters/rate_limiter.py:58-70 | Extends the run of the configured strategy by one call and its decision; an unknown strategy admits |
| RateLimiter.RateLimiter.TokenBucketAllow | libs/adapters/rate_limiter.py:72-87 | Implements the token bucket step |
| RateLimiter.RateLimiter.SlidingWindowAllow | libs/adapters/rate_limiter.py:89-105 | Implements the sliding window step |
| RateLimiter.RateLimiter.FixedWindowAllow | libs/adapters/rate_limiter.py:107-124 | Implements the fixed window step |
| RateLimiter.RateLimiter.ResetStats | libs/adapters/rate_limiter.py:150-154 | Clears the counters and changes no later decision |
| RateLimiter.EveryIntervalIsBounded | libs/adapters/rate_limiter.py:31-124 | The bound of its strategy holds of the whole log of every limiter object |
| RedisLimiter.RunFollowsLevel | libs/clients/rate_limiter.py:25-44 | What the script finds and decides depends only on the call times: full at first and after expiry, otherwise the rest plus the whole intervals since the last call |
| RedisLimiter.CallsBounded | libs/clients/rate_limiter.py:25-44 | Without expiry any window admits at most capacity + tokens * floor(L / interval) |
| RedisLimiter.LevelBoundedAcrossExpiry | libs/clients/rate_limiter.py:25-44 | If the whole intervals of an hour fill the bucket, the tokens found stay within capacity + earned - admitted over every window, across expiry |
| RedisLimiter.TwoBucketsInAnHour | libs/clients/rate_limiter.py:38-42 | Otherwise some run admits twice the capacity in an hour, which is more than that |
| RedisLimiter.AlwaysBoundedIff | libs/clients/rate_limiter.py:25-44 | The bound capacity + tokens * floor(L / interval) holds on every run, expiry or not, if and only if 3600 / interval * tokens >= capacity |
| RedisLimiter.NeverRefilledIff | libs/clients/rate_limiter.py:30-43 | With tokens to give and no expiry, the tokens found are max(capacity - k, 0) at every call if and only if every gap is below the interval |
| RedisLimiter.ScriptDecides | libs/clients/rate_limiter.py:34-44 | An admitted call leaves 0 <= tokens < capacity, a rejected one none |
| RedisLimiter.BusyBucketStarves | libs/clients/rate_limiter.py:30-43 | While calls come faster than one per interval, exactly the first `capacity` of them are ever admitted |
| BucketRefinement.NeverHoldsMore | libs/clients/rate_limiter.py:25-44 | On the same calls with the same capacity and rate, the Redis bucket never holds more than the local one |
| BucketRefinement.RunRefines | libs/clients/rate_limiter.py:25-44 | Every request it admits the local bucket admits too, if no gap reaches the expiry or an hour fills the bucket |
| BucketRefinement.ExpiryOvertakes | libs/clients/rate_limiter.py:38-42 | If an hour does not fill the bucket, some run admits a request that the local bucket rejects |
| BucketRefinement.RefinesIffFillsInAnHour | libs/clients/rate_limiter.py:18-45 | Refinement on all runs holds if and only if 3600 * tokens >= capacity * interval |
| RedisStore.KeyText | libs/clients/rate_limiter.py:62 | The text of the key |
| RedisStore.KeyIsUnique | libs/clients/rate_limiter.py:62 | A triple without colons shares its key with no other triple |
| RedisStore.KeyIsShared | libs/clients/rate_limiter.py:62 | A triple with a colon shares its key with another one |
| RedisStore.KeyIsUniqueIffColonFree | libs/clients/rate_limiter.py:62 | A triple's key is its own if and only if none of its components has a colon |
| RedisStore.BucketsAreIsolated | libs/clients/rate_limiter.py:25-43 | In an interleaved run over many triples the decisions for one without colons are those of the run of its requests alone |
| RedisStore.PartnerTakesTheToken | libs/clients/rate_limiter.py:25-43 | A triple that shares its key is not isolated: the other one can take its token |
| RedisStore.IsIsolatedIffColonFree | libs/clients/rate_limiter.py:25-62 | A triple's decisions are those of its own requests in every interleaved run if and only if none of its components has a colon |
| RedisStore.ServeIsRun | libs/clients/rate_limiter.py:65-86 | Serving one triple is a run of the script on one key, so the bounds on runs apply |
| RedisStore.TokenBucketRateLimiter.IsAllowed | libs/clients/rate_limiter.py:47-86 | Serves one more request, returns the decision and the tokens left, and touches no other key |
| CircuitBreaker.StateIsHistory | libs/adapters/circuit_breaker.py:45-147 | In every interleaving: failure_count is the number of failures since the last success or reset, CLOSED is that number below the threshold, last_failure_time is None exactly at 0, total = successful + failed + in flight |
| CircuitBreaker.OpeningsAreCounted | libs/adapters/circuit_breaker.py:114-117 | circuit_opened_count is how often the circuit turned from another state to open |
| CircuitBreaker.CountersAreHistory | libs/adapters/circuit_breaker.py:45-76 | total_calls, successful_calls and failed_calls are the numbers of calls, of successes, and of failures and rejections |
| CircuitBreaker.HalfOpenWasProbed | libs/adapters/circuit_breaker.py:50-55 | A half-open circuit has let a call through at least one timeout after the last failure |
| CircuitBreaker.RejectedIff | libs/adapters/circuit_breaker.py:49-60 | From history alone: a call is rejected if and only if the threshold was reached and the last failure is more recent than the timeout |
| CircuitBreaker.CircuitIsHistory | libs/adapters/circuit_breaker.py:45-147 | The state from history alone: CLOSED below the threshold, otherwise HALF_OPEN from the first late enough call to the next outcome, OPEN before that |
| CircuitBreaker.CircuitBreaker.BeginCall | libs/adapters/circuit_breaker.py:45-64 | The stretch up to the protected function; admits exactly the calls the specification does not reject |
| CircuitBreaker.CircuitBreaker.FinishSuccess | libs/adapters/circuit_breaker.py:66-70 | The stretch after success; closes the circuit in whatever state it finds it |
| CircuitBreaker.CircuitBreaker.FinishFailure | libs/adapters/circuit_breaker.py:72-94 | The stretch after failure |
| CircuitBreaker.CircuitBreaker.ResetCircuit | libs/adapters/circuit_breaker.py:142-147 | Closes the circuit and forgets the failures |
| Outage.FailuresTakeTime | libs/adapters/circuit_breaker.py:50-60 | Once the threshold is reached, every further failure costs one recovery timeout |
| Outage.CallsBounded | libs/adapters/circuit_breaker.py:96-122 | If every executed call fails, consecutive calls within L start the function at most threshold + floor(L / timeout) times |
| Outage.IntervalBounded | libs/adapters/circuit_breaker.py:96-122 | The same for every interval of time, from any reachable state |
| ResilientAdapter.AlwaysBalanced | libs/adapters/resilient_adapter.py:70-103 | In every interleaving: free permits + holders = bulkhead size, every request is counted once or in flight, no call makes more than max_retries + 1 attempts |
| ResilientAdapter.AcquiresIff | libs/adapters/resilient_adapter.py:79-86 | A waiting call can get a permit if and only if fewer than bulkhead_size calls hold one |
| ResilientAdapter.OpenUntilNextAttempt | libs/adapters/resilient_adapter.py:168-222 | Once open, nothing in flight closes the circuit or moves next_attempt_time: every earlier arrival is rejected and counted |
| ResilientAdapter.OpensForTheTimeout | libs/adapters/resilient_adapter.py:206-218 | Only a failed call opens the circuit, for one recovery timeout from that failure |
| ResilientAdapter.CompletesIff | libs/adapters/resilient_adapter.py:92-166 | From the events alone: a call is over when an attempt of it returns, or raises after max_retries others have |
| ResilientAdapter.HalfOpenEnds | libs/adapters/resilient_adapter.py:188-218 | HALF_OPEN lasts exactly until a call completes: a success closes the circuit with failure_count 0, a failure opens it for another recovery timeout |
| ResilientAdapter.TurnsIff | libs/adapters/resilient_adapter.py:168-222 | Exactly which events turn the circuit from each state to each other |
| ResilientAdapter.HalfOpenIff | libs/adapters/resilient_adapter.py:168-222 | HALF_OPEN exactly from an admitted probe to the next completion |
| ResilientAdapter.RejectedIff | libs/adapters/resilient_adapter.py:70-77 | In every interleaving an arrival is rejected if and only if a failure opened the circuit less than a recovery timeout ago |
| ResilientAdapter.StatsAreHistory | libs/adapters/resilient_adapter.py:72-222 | Each of the statistics is the number of the events it is named after |
| ResilientAdapter.CounterIsPeakExcess | libs/adapters/resilient_adapter.py:188-209 | While CLOSED, failure_count is the maximum over suffixes of the completions since closing of failures minus successes, and is below the threshold |
| ResilientAdapter.DelayDoubles | libs/adapters/resilient_adapter.py:123-134 | The sleeps start at the base delay and double up to the maximum |
| ResilientAdapter.ResilientAdapter.Enter | libs/adapters/resilient_adapter.py:70-77 | Arrival: rejected exactly when open and early |
| ResilientAdapter.ResilientAdapter.IsCircuitBreakerClosed | libs/adapters/resilient_adapter.py:168-186 | The circuit check, with its transition to half-open |
| ResilientAdapter.ResilientAdapter.AcquirePermit | libs/adapters/resilient_adapter.py:79-83 | Takes one permit |
| ResilientAdapter.ResilientAdapter.RejectBulkhead | libs/adapters/resilient_adapter.py:84-86 | Gives up waiting for one |
| ResilientAdapter.ResilientAdapter.AttemptReturned | libs/adapters/resilient_adapter.py:92-103 | Records the success and releases the permit |
| ResilientAdapter.ResilientAdapter.AttemptRaised | libs/adapters/resilient_adapter.py:119-166 | Sleeps for the capped exponential delay if retries are left, otherwise fails the call and releases the permit |
| ResilientAdapter.ResilientAdapter.RecordFailureNow | libs/adapters/resilient_adapter.py:200-218 | Counts the failure and opens the circuit at the threshold or from half-open |
| ResilientAdapter.ResilientAdapter.NextAttempt | libs/adapters/resilient_adapter.py:134 | Starts the next attempt |
| ResilientAdapter.ResilientAdapter.FailOnce | libs/adapters/resilient_adapter.py:119-157 | A failed attempt and the sleep after it, when no other call moves |
| ResilientAdapter.ResilientAdapter.ExecuteWithRetry | libs/adapters/resilient_adapter.py:105-166 | Succeeds if and only if one of the max_retries + 1 attempts does, stopping at the first; every wait has its delay |
| LeakyCounter.OpensNoLater | libs/adapters/resilient_adapter.py:188-222 | On the same completions the leaky circuit is open whenever the consecutive-failure circuit with the same threshold is |
| LeakyCounter.SmallThresholdsAgree | libs/adapters/resilient_adapter.py:188-222 | With a threshold of one or two the counters agree for as long as the consecutive-failure circuit has never opened |
| LeakyCounter.SomeOpenEarlier | libs/adapters/circuit_breaker.py:103-122 | For every threshold from three on, completions after which the leaky circuit is open and the other has never been |
| LeakyCounter.OpensEarlierIff | libs/adapters/circuit_breaker.py:103-122 | Such completions exist if and only if the threshold is at least three |
| Saga.BackoffDoubles | libs/adapters/saga_pattern.py:255 | The sleeps start at one second and double up to ten |
| Saga.StepAttempts | libs/adapters/saga_pattern.py:239-272 | A step fails exactly when max_retries + 1 attempts raise; attempts and sleeps alternate, none follows one that returned |
| Saga.StepOutcome | libs/adapters/saga_pattern.py:239-272 | From the function of the step alone: a step completes if and only if one of its max_retries + 1 attempts, made on the world that the attempts before it left, returns; the first one that does is the last, and its world stays |
| Saga.StepIsUndone | libs/adapters/saga_pattern.py:239-272 | After all its retries a reversible step is undone by its compensation, or has changed nothing |
| Saga.UndoRestores | libs/adapters/saga_pattern.py:274-309 | Undoing the completed steps in reverse order restores the world from which they started |
| Saga.Atomicity | libs/adapters/saga_pattern.py:157-193 | A sequential saga that fails at step k calls the compensations of k-1, ..., 0, all succeed, and the world is as before |
| Saga.RunsInOrder | libs/adapters/saga_pattern.py:157-193 | Every step up to the failing one is attempted, none after it, in order |
| Saga.StopsWhereAStepFails | libs/adapters/saga_pattern.py:157-193 | The steps are made one on the world of the other, up to the first that fails |
| Saga.UndoCallsEach | libs/adapters/saga_pattern.py:288-309 | Every compensation there is gets called once, in the given order, on the world the ones before left, whatever they did; undone are exactly the steps whose compensation returned |
| Saga.AnyOrderRestoresOne | libs/adapters/saga_pattern.py:285-288 | With any strategy a saga of reversible steps of which at most one completed ends in the world it started from |
| Saga.OnlyReverseOrderRestores | libs/adapters/saga_pattern.py:285-288 | For every k >= 2 a saga of reversible steps fails at step k and, undone first to last, ends in a different world |
| Saga.InOrderIsSafeIff | libs/adapters/saga_pattern.py:285-288 | Undoing first to last restores every saga of reversible steps that fails at step k if and only if k <= 1 |
| SagaLedger.MetricsAddUp | libs/adapters/saga_pattern.py:98-155 | In every interleaving, with any number of executors: total = active + completed + compensated + failed; the active counter exceeds the active map by the number of overwritten sagas |
| SagaLedger.CountersAreHistory | libs/adapters/saga_pattern.py:98-155 | total is the number of creations; completed, compensated and failed are the numbers of executions that ended with that outcome under an id in the active map |
| SagaLedger.FinishedIff | libs/adapters/saga_pattern.py:123-153 | An id is in the map of finished sagas if and only if an execution under it has ended |
| SagaLedger.MapsAndCountersAgree | libs/adapters/saga_pattern.py:98-155 | With distinct ids the maps are disjoint and the active counter is the size of the active map |
| SagaLedger.ReusingAnId | libs/adapters/saga_pattern.py:98-106 | Creating a saga keeps the maps disjoint if and only if the id is not a finished one, and the counter right if and only if it is not an active one |
| SagaLedger.AgreeIffCreatedOnce | libs/adapters/saga_pattern.py:98-155 | Throughout a run the maps are disjoint and the counter is right if and only if no id is created twice |
| SagaLedger.GoneIffTaken | libs/adapters/saga_pattern.py:123-143 | An id leaves the active map exactly when an execution under it ends, until it is created again |
| SagaLedger.FailsIff | libs/adapters/saga_pattern.py:108-155 | An execution ends FAILED if and only if an exception escapes from elsewhere than steps and compensations, or another execution under its id has ended since it started and the id has not been created again |
| SagaLedger.OneExecutorNeverFails | libs/adapters/saga_pattern.py:108-155 | With one executor for each id no KeyError is raised, and no saga ends FAILED whatever its steps and compensations raise |
| SagaLedger.SecondExecutorFails | libs/adapters/saga_pattern.py:123-128 | Two executions of one saga: both succeed, and the second leaves it FAILED |
| SagaLedger.OnlyEscapesAreCounted | libs/adapters/saga_pattern.py:145-153 | A KeyError never moves the failed counter |
| SagaManager.ExecuteStepWithRetry | libs/adapters/saga_pattern.py:239-272 | Makes the attempts and sleeps of the specification and counts each attempt that raised |
| SagaManager.ExecuteSequential | libs/adapters/saga_pattern.py:157-193 | Steps before the failing one COMPLETED, that one FAILED, later ones untouched; the effects of the specification |
| SagaManager.ExecuteParallel | libs/adapters/saga_pattern.py:195-237 | Stops at the first task in list order that raised and leaves the later steps RUNNING |
| SagaManager.CompensateStep | libs/adapters/saga_pattern.py:289-309 | A step becomes COMPENSATED exactly when its compensation exists and returns |
| SagaManager.CompensateAll | libs/adapters/saga_pattern.py:288-309 | Compensations run in the given order, and one that raises does not stop the rest |
| SagaManager.CompensatesInOrder | libs/adapters/saga_pattern.py:280-286 | After stopping at step k the completed steps, in the order to be undone, are k-1, ..., 0, or 0, ..., k-1 for other strategies |
| SagaManager.ExecuteCompensation | libs/adapters/saga_pattern.py:274-309 | Undoes the completed steps in the strategy's order and marks exactly those undone |
| SagaManager.RunSaga | libs/adapters/saga_pattern.py:114-134 | The saga ends well, or the steps before the failing one were undone |
| SagaManager.Manager.CreateSaga | libs/adapters/saga_pattern.py:98-106 | Enters the saga in the active map under its id, whatever was there |
| SagaManager.Manager.StartSaga | libs/adapters/saga_pattern.py:110-112 | Looks the saga up; an unknown id changes nothing |
| SagaManager.Manager.FileSaga | libs/adapters/saga_pattern.py:123-153 | Sets the status, moves the saga between the maps and counts it; if the id is gone, raises before counting |
| SagaManager.Manager.FinishSaga | libs/adapters/saga_pattern.py:123-155 | Files the saga by its outcome; a KeyError leads to FAILED, no counter changes, and it is raised again; whatever other executions have removed meanwhile |
| SagaManager.Manager.ExecuteSaga | libs/adapters/saga_pattern.py:108-143 | Alone, an unknown id changes nothing; otherwise the saga runs and ends COMPLETED or COMPENSATED |
| SagaManager.ParallelLeavesLaterStepsRunning | libs/adapters/saga_pattern.py:208-227 | After a failed parallel saga every step after the failing one is RUNNING and was not undone |
| SagaManager.FailedSagaLeavesNoTrace | libs/adapters/saga_pattern.py:108-155 | After a failed sequential saga of reversible steps: world restored, steps before k COMPENSATED, k FAILED, later ones PENDING |
| DeadLetters.CleanupDropsAPrefix | libs/events/dlq_handler.py:174-191 | In a queue in time order, cleanup drops exactly a prefix |
| DeadLetters.AlwaysSound | libs/events/dlq_handler.py:74-191 | In every interleaving of sends, retry passes, cleanups and clears: size within max_dlq_size, sorted by timestamp, retry counts within the maximum, received = size + evicted + popped + expired + cleared |
| EntryHistory.DelaysMultiply | libs/events/dlq_handler.py:146-153 | The first delay is retry_delay * multiplier, and each further refusal multiplies it by the multiplier |
| EntryHistory.EntryIsHistory | libs/events/dlq_handler.py:74-153 | In every interleaving an entry's timestamp, retry count and due time are when it was sent, how often it was refused, and the last refusal plus retry_delay * multiplier^n |
| EntryHistory.CollectedIff | libs/events/dlq_handler.py:106-153 | A pass collects an entry if and only if it is queued, has been refused n < max_retry_attempts times, and retry_delay * multiplier^n has passed since the last refusal, if any |
| EntryHistory.LeavesIff | libs/events/dlq_handler.py:74-230 | Exactly the events that take a queued entry out: an arrival at a full queue if it is the oldest, a publication whose entry was collected at its position, a cleanup if it was sent no later than now - retention, clear_dlq |
| EntryHistory.StatsAreHistory | libs/events/dlq_handler.py:74-230 | events_received, events_processed, events_retried and events_expired are the numbers of sends, publications, refusals and expired entries; what is evicted, popped and cleared is what the queue loses |
| RetryPass.UndisturbedPassDrains | libs/events/dlq_handler.py:124-142 | A pass nobody interferes with pops at the collected positions, one publication after the other |
| RetryPass.SecondPublishedStays | libs/events/dlq_handler.py:135-140 | After a first publication has shifted the positions, a later published entry stays in the queue |
| RetryPass.PassIsExactIff | libs/events/dlq_handler.py:114-140 | Such a pass removes exactly the entries it published if and only if it published at most one |
| RetryPass.DrainRemovesTheHits | libs/events/dlq_handler.py:124-140 | Such a pass removes exactly the entries collected at p + m for the m-th publication (from 0) of an entry with position p |
| RetryPass.PassTracks | libs/events/dlq_handler.py:74-191 | In every interleaving: until something leaves the queue, it begins with what was collected; from then on every entry left to settle stands before its position |
| RetryPass.InPlaceIff | libs/events/dlq_handler.py:127-139 | In every interleaving, a settlement finds its entry in its position if and only if nothing has left the queue since the pass began, and if and only if the queue up to there is what was collected |
| RetryPass.IsNeverPopped | libs/events/dlq_handler.py:135-140 | The first entry published after something has left the queue is popped by no publication of the pass |
| RetryPass.PassOfARun | libs/events/dlq_handler.py:106-142 | In every interleaving a pass pops exactly what it publishes if and only if each of its publications finds that nothing has left the queue since it began; then it publishes at most once |
| RetryPass.ArrivalDisturbsAPass | libs/events/dlq_handler.py:74-80 | A run in which a pass publishes once, an arrival evicts, and an entry is popped that was not published |
| DLQHandler.Handler.EvictOldest | libs/events/dlq_handler.py:78-80 | Removes the oldest entry if and only if the queue is full |
| DLQHandler.Handler.SendToDlq | libs/events/dlq_handler.py:74-93 | Evicts the oldest entry if full and appends the new one |
| DLQHandler.Handler.CollectRetries | libs/events/dlq_handler.py:111-121 | Collects the due entries with retries left, with their positions |
| DLQHandler.Handler.DueEntries | libs/events/dlq_handler.py:112-121 | Exactly the entries that are due and have retries left, in order |
| DLQHandler.Handler.RetryEvent | libs/events/dlq_handler.py:127-161 | Settles one collected entry by the result of its publication |
| DLQHandler.Handler.RemovePublished | libs/events/dlq_handler.py:135-140 | Pops the position collected earlier, whatever is there now |
| DLQHandler.Handler.CountRefusal | libs/events/dlq_handler.py:142-155 | Changes the retry count and due time of that entry in place and of no other |
| DLQHandler.Handler.CleanupExpiredEvents | libs/events/dlq_handler.py:174-191 | Keeps the entries younger than the cutoff, in order, and counts the others |
| DLQHandler.Handler.YoungEntries | libs/events/dlq_handler.py:182-186 | Exactly the entries younger than the cutoff, in order |
| DLQHandler.Handler.ClearDlq | libs/events/dlq_handler.py:225-230 | Empties the queue and returns how many there were |
| EventFlow.EveryEventIsCountedOnce | libs/events/event_consumer.py:108-162 | In every interleaving of events, attempts, backoffs and the queue's tasks: at most max_concurrent_events in flight, every event whose handler was called is processed, failed, dead-lettered or in flight, never tried more than retry_attempts times; the queue has received exactly the dead-lettered ones |
| EventFlow.EachEventIsCountedOnce | libs/events/event_consumer.py:108-162 | Of each event, in every interleaving: from its arrival on its handler is first called at most once, and it is counted exactly once if it was called and is over, and not at all otherwise |
| EventFlow.TaskIsHistory | libs/events/event_consumer.py:108-150 | Where an event is, from the events alone: its last step, and how often its handler has failed since it got its permit, decide |
| EventFlow.EntersIff | libs/events/event_consumer.py:108-110 | A waiting event can get its permit if and only if fewer than max_concurrent_events are in flight |
| EventFlow.StatsAreHistory | libs/events/event_consumer.py:108-162 | From the events alone: events_processed, events_retried, events_dlq and events_failed count the returns, the retries, and the failures of last attempts with and without a queue |
| EventFlow.QueueRuns | libs/events/event_consumer.py:51-55 | The queue's part of every run is a run of the queue, so what is proved of those holds behind a consumer |
| EventFlow.DeadLettersAreAccountedFor | libs/events/event_consumer.py:152-162 | In every interleaving every dead-lettered event is queued, or was evicted, popped, expired or cleared |
| EventConsumer.TotalBackoffIs | libs/events/event_consumer.py:138-140 | n sleeps last retry_delay * (2^n - 1) together |
| EventConsumer.EventConsumer.RegisterHandler | libs/events/event_consumer.py:68-72 | The subject has a handler from now on |
| EventConsumer.EventConsumer.HandleEvent | libs/events/event_consumer.py:108-110 | A new event waits for the semaphore |
| EventConsumer.EventConsumer.StartProcessing | libs/events/event_consumer.py:110-125 | With a permit the handler is called if there is one and attempts are made; otherwise the event is over |
| EventConsumer.EventConsumer.AttemptReturned | libs/events/event_consumer.py:132-134 | Counts the event as processed and gives the permit back |
| EventConsumer.EventConsumer.AttemptFailed | libs/events/event_consumer.py:136-150 | Sleeps for its backoff if attempts are left, otherwise sends the event to the queue or counts it as failed |
| EventConsumer.EventConsumer.SendToDlq | libs/events/event_consumer.py:152-162 | Counts the event as dead-lettered or failed, and the queue takes it |
| EventConsumer.EventConsumer.NextAttempt | libs/events/event_consumer.py:139-140 | Counts a retry and starts the next attempt |
| EventConsumer.EventConsumer.StartRetryPass | libs/events/dlq_handler.py:106-121 | The queue's retry task collects, as a step of the consumer's run |
| EventConsumer.EventConsumer.SettleRetry | libs/events/dlq_handler.py:127-161 | It settles an entry, as a step of that run |
| EventConsumer.EventConsumer.CleanUpQueue | libs/events/dlq_handler.py:174-191 | The cleanup task, as a step of that run |
| EventConsumer.EventConsumer.ClearQueue | libs/events/dlq_handler.py:225-230 | Clearing, as a step of that run |
| EventConsumer.EventConsumer.TryHandler | libs/events/event_consumer.py:125-150 | The attempts of one event alone: its fate is that of the first attempt that does not fail, if there is one |
| EventConsumer.EventConsumer.ProcessEvent | libs/events/event_consumer.py:108-150 | One event alone: counted exactly once, as processed, dead-lettered or failed, if and only if it has a handler and retry_attempts is at least 1; attempts, sleeps and retries as specified |
| EventConsumer.EventsAreAccountedFor | libs/events/event_consumer.py:108-162 | Of every consumer object at every moment: started = processed + failed + dead-lettered + in flight, and permits + in flight = max_concurrent_events |
| EventConsumer.DeadLettersAreAccountedFor | libs/events/event_consumer.py:152-162 | Every dead-lettered event is queued, or was evicted, popped, expired or cleared |
| HealthChecker.StatusIsHistory | libs/adapters/health_checker.py:129-163 | UNHEALTHY exactly when the latest long enough streak of results was one of failures |
| HealthChecker.StatusIsOfResults | libs/adapters/health_checker.py:129-163 | All four statuses from the results alone; DEGRADED exactly when the first check failed and no streak of failures has reached the threshold |
| HealthChecker.RecoversIff | libs/adapters/health_checker.py:136-143 | After success_threshold passed checks in a row: HEALTHY if and only if the first check passed or the checker has been UNHEALTHY, else DEGRADED |
| HealthChecker.DegradedForeverIff | libs/adapters/health_checker.py:136-161 | One failed check and then n passed ones leave the checker DEGRADED throughout, for every n, if and only if the failure threshold is at least two |
| HealthChecker.DegradedStays | libs/adapters/health_checker.py:136-143 | From DEGRADED the only other status is UNHEALTHY, however many checks pass |
| HealthChecker.CyclesTakeChecks | libs/adapters/health_checker.py:129-163 | The checks since any state pay for every recovery and for the progress towards the next |
| HealthChecker.NoFlapping | libs/adapters/health_checker.py:129-163 | k recoveries need at least k * (failure_threshold + success_threshold) checks |
| HealthChecker.OverallIsWorst | libs/adapters/health_checker.py:231-245 | The overall status is the maximum under HEALTHY < UNKNOWN < DEGRADED < UNHEALTHY |
| HealthChecker.OverallOfTheSame | libs/adapters/health_checker.py:231-245 | It depends only on which statuses occur, so not on order or repetition |
| HealthChecker.OverallOfGroups | libs/adapters/health_checker.py:231-245 | For two groups of checkers it is the worse of theirs |
| HealthChecker.HealthChecker.PerformCheck | libs/adapters/health_checker.py:88-115 | One more result; each of the four statuses is what the history of results says |
| HealthChecker.HealthChecker.HandleSuccess | libs/adapters/health_checker.py:129-143 | Implements the step for a passed check |
| HealthChecker.HealthChecker.HandleFailure | libs/adapters/health_checker.py:145-163 | Implements the step for a failed check |
| Retry.SameDelayIff | libs/adapters/retry_adapter.py:31-44 | The two delay formulas agree if and only if there is jitter or the capped delay is not negative |
| Retry.NegativeDelaysAreClipped | libs/adapters/retry_policy.py:105-109 | A negative delay becomes zero in both, unless the policy has no jitter; jitter cannot make it positive |
| Retry.SameRuns | libs/adapters/retry_policy.py:45-111 | With the exponential strategy, parameters that are not negative and the same draws, policy and adapter make the same invocations and waits and succeed together; what they raise is the same exactly if the attempts are not exhausted |
| Retry.SurfacesIff | libs/adapters/retry_policy.py:45-80 | From the outcomes alone: the caller gets a value, the exception or RetryExhaustedError if and only if the first attempt that raises nothing retryable returns, raises, or does not exist |
| Retry.StrategiesWait | libs/adapters/retry_policy.py:89-103 | Without jitter the first wait is min(base, max), and each further one is a base longer (linear), a multiplier longer (exponential) or the same (fixed and custom), up to the cap |
| Retry.JitterIff | libs/adapters/retry_policy.py:105-109 | With jitter a wait can be w if and only if w is within 10% of the wait without |
| Retry.WaitIsNearNominal | libs/adapters/retry_adapter.py:31-44 | Each wait is within 10% of min(base * m^(n-1), max_delay) |
| Retry.WaitsGrowIff | libs/adapters/retry_adapter.py:31-44 | Below the cap jittered waits never decrease, whatever is drawn, if and only if m >= 11/9 |
| Retry.TotalWaitBounded | libs/adapters/retry_adapter.py:60-117 | With m = 2 the total wait over r retries is at most 1.1 * min(base * (2^r - 1), r * max_delay) |
| Retry.RetryPolicy.Execute | libs/adapters/retry_policy.py:45-80 | Stops at the first attempt that returns or raises a fatal exception, or at the last; waits as specified |
| Retry.RetryAdapter.Invoke | libs/adapters/retry_adapter.py:60-117 | The same, and the statistics add up, unless the callable has no name and its first attempt raises: then logging raises and the call is not counted |
| Retry.RetryAdapter.Attempt | libs/adapters/retry_adapter.py:65-113 | The loop: where it is left, and the waits and retries it counts until then |
| Regex.MatchesAppend | libs/contracts/validation.py:104-109 | Matching a concatenation is matching its parts one after the other |
| Patterns.TagIsAnyWord | libs/contracts/validation.py:104-109 | What the first or the second expression finds, the fourth finds |
| Patterns.TwoPatternsSuffice | libs/contracts/validation.py:101-115 | The test with four expressions is the test with the third and the fourth |
| Patterns.InlineCodeFoundIff | libs/contracts/validation.py:107 | The third expression finds exactly a backtick and an opening brace with a closing brace and a backtick somewhere after |
| Patterns.BlockFoundIff | libs/contracts/validation.py:108 | The fourth finds exactly fenced blocks in braces after at most one word |
| Patterns.MarkdownIff | libs/contracts/validation.py:101-115 | The whole test, characterised without regular expressions |
| Patterns.BothPatternsAreNeeded | libs/contracts/validation.py:104-109 | Neither of those two can be dropped |
| Patterns.NumberFoundIff | libs/contracts/validation.py:198-200 | An expression for grouped digits finds exactly such groups that no word character precedes or follows |
| Patterns.EmailFoundIff | libs/contracts/validation.py:201 | The last expression finds exactly the addresses, spelled out by positions |
| Patterns.PiiIff | libs/contracts/validation.py:195-208 | Text is taken for personal data if and only if it has a number grouped 3-2-4, 4-4-4-4 or 3-3-4, or an address |
| Patterns.NumberIsPii | libs/contracts/validation.py:198 | A social security number is personal data |
| Patterns.PiiShows | libs/contracts/validation.py:195-208 | Text taken for personal data has a digit or an at sign |
| Patterns.RedactedIsClean | libs/contracts/validation.py:195-208 | The marker is never taken for personal data |
| Validation.CheckFindsFirst | libs/contracts/validation.py:85-147 | The mutually recursive checks return nothing on a clean tree and otherwise the path of the first offending leaf |
| Validation.FirstIsALeaf | libs/contracts/validation.py:118-147 | The path named in the error leads to a string with JSON in markdown |
| Validation.RaisesIffSomeLeafOffends | libs/contracts/validation.py:118-147 | The checks raise if and only if some string leaf has JSON in markdown |
| Validation.OpenPathsAreKept | libs/contracts/validation.py:150-186 | At a path without sensitive keys the result holds exactly the sanitized form of what the data holds there |
| Validation.SensitiveKeysHoldTheMarker | libs/contracts/validation.py:168-172 | Under a sensitive key there is the marker and nothing else |
| Validation.IsSensitiveIff | libs/contracts/validation.py:189-192 | A key is sensitive if and only if its lowered form is a + word + b for one of the sensitive words |
| Validation.WordsInKeysRedact | libs/contracts/validation.py:168-172 | Under a key with a sensitive word anywhere in its lowered form, whatever the data hold, the result holds the marker and nothing else |
| Validation.OtherKeysAreKept | libs/contracts/validation.py:168-174 | Under any other open key the result holds only sanitized forms of what the data hold there |
| Validation.NoPiiIsLogged | libs/contracts/validation.py:179-183 | No string of the result, at any depth, has personal data |
| Validation.KeysAreCleanIff | libs/contracts/validation.py:168-174 | The keys of the result, at every depth, are free of personal data if and only if those of the data are, the ones below sensitive keys aside |
| Validation.NothingPersonalIsLoggedIff | libs/contracts/validation.py:150-186 | Neither a string nor a key of the result has personal data if and only if that is so |
| Validation.KeysAreLogged | libs/contracts/validation.py:168-174 | A key that has personal data and is kept |
| Validation.Idempotent | libs/contracts/validation.py:150-186 | Sanitizing twice is sanitizing once |
| Validation.LogsTellApartIff | libs/contracts/validation.py:150-186 | Two trees have the same sanitized form if and only if they differ only below sensitive keys and in hidden strings |

## Left out

- Redis, NATS, HTTP and SQL calls, logging and metrics export: input and output.
- The fail-open branch of the Redis limiter and the `eval` call around the script (libs/clients/rate_limiter.py:65-97), and `QuotaEnforcer`.
- asyncio cancellation, and exceptions that are not instances of `Exception`; the inside of `wait_for`, of locks and of semaphores: acquire or give up, and return or time out, are atomic inputs.
- Rounding of floating-point numbers, clocks that run backwards, and the width of Lua numbers.
- Redis expiry is taken to happen on the clock of the callers, in whole seconds.
- ResilientAdapter.AlwaysBalanced: runs without `reset_stats`, which clears the counters while calls are in flight; `last_failure_time`, which is written and never read, has no field.
- ResilientAdapter.ResilientAdapter.ExecuteWithRetry: the loop is run without other calls moving in between; the interleavings are those of the transition system.
- SagaManager.Manager.ExecuteSaga: no other saga acts on the same world meanwhile, and two executions of one saga share only the ledger, not its steps; steps are given at creation instead of by `add_step`; step results, error texts and times are not kept; what an exception from elsewhere than steps and compensations, such as the logging, leaves of the steps is not said.
- SagaManager.ExecuteParallel: what the tasks do to the world is an arbitrary input, and what they do after the first failure is not followed.
- DLQHandler.Handler.SendToDlq: the two clock readings of an entry are one; the reason is not kept.
- DLQHandler.Handler.CollectRetries: one pass at a time, as the one retry task makes them; passes that start without an event bus or with retries disabled do nothing.
- `manual_retry` (libs/events/dlq_handler.py:193-207): it takes a lock it already holds.
- EventConsumer.EventConsumer.ProcessEvent: the event is handled without other tasks moving in between; the interleavings are those of the transition system. The gauge of concurrent events is not kept.
- EventFlow.QueueRuns: taking the queue's lock is no suspension, since nothing modelled here suspends while it holds it.
- HealthChecker.HealthChecker.PerformCheck: the judgement of a check's result (libs/adapters/health_checker.py:117-127), the times of the last checks and the asyncio task are inputs or left out.
- Retry.RetryAdapter.Invoke: which exceptions are retryable is part of the given outcome of an attempt.
- Regex.MatchesAppend: only the constructs that the expressions use, and matching as existence; of Python's character tables the ASCII part is fixed and the rest is arbitrary.
- Validation.CheckFindsFirst: dictionary keys are strings, as in JSON; building the models with Pydantic is not modelled.
- Validation.SensitiveKeysHoldTheMarker: lower-casing and the list of sensitive names are arbitrary; the default list is one instance.
- The reading of statistics (`get_stats`, `get_saga_metrics` and the like), managers and decorators that only look components up, `check_now`, bulkhead.py, base_adapter.py, event_producer.py, timeout_handler.py and dlq_processor.py: they would only add easy members, or do not run as written.
