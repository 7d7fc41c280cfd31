# ActionRetry in Dafny

A model of the `Retry` class of ActionRetry, a C# library that runs a unit
of work again and again, with a pause between attempts, until it succeeds or
runs out of attempts. The class has three parts, each modelled here:

- **The attempt loop** of `Begin` and `BeginASync` (module `ActionRetry`).
  The retried delegate is a function from the invocation number to its
  outcome: `Success` (returned true), `Fail` (returned false) or
  `Throw(kind)`. A run is the sequence of observable events it emits and
  the way it ends. The events are `Start(n)` for `AttemptStart`,
  `Ignored(kind)` for `IgnoredException`, `Failure(n)` for `AttemptFailure`
  and `Wait(ms)` for each sleep. A run ends by returning true or false,
  by propagating the delegate's exception, or with the
  `NotImplementedException` of an unnamed backoff value. The two entry points
  share one loop; `Begin` takes the mode it is called in for the guard.
  `BeginLoop` is the same loop written imperatively, proved equal to `Begin`.
- **The exception filter** `CheckContinueThrow` (module `ExceptionFilter`).
  It is a predicate over `ignoreExceptions`, an optional whitelist, an
  optional blacklist and the exception kind.
- **The backoff schedule** `GetWaitTime` (module `WaitTime`), as written
  and as its comments describe it.

Module `RetryProperties` holds the lemmas about whole runs. Module
`Wrappers` holds `Option`, whose `None` stands for a null reference.

Two departures are modelled as written and corrected; see "## Findings".
One is from the source's own comments (the backoff powers). The other is
from the usual reading of a retry loop (the sleep after the final attempt);
nothing in the source documents the intent there. The datatype `Variant` selects
the reading. `AsWritten` is the loop of the source. `Corrected` uses true
powers and does not sleep after the final attempt. Every run lemma is
stated for both variants unless it says otherwise.

Behaviour of the code that readers may not expect, modelled as the code does it:

- With only a blacklist, the filter rethrows exactly the kinds that are in
  the blacklist and swallows every other kind. So "blacklisted" here means
  "not retried". A reader who takes a blacklist to mean "exceptions to
  ignore" would expect the opposite. `BlacklistOnlyRethrowsListed` states
  the code's behaviour.
- With both lists present, a kind in neither list is swallowed.
- A present but empty blacklist swallows everything. With neither list present
  (and `ignoreExceptions` false), every kind is rethrown.
- The constructors accept a null delegate. The null check happens only when
  the run begins, after the mode check.
- `attempts` is not validated. A budget of zero or less returns false at once.

## Model

| member | source | states |
|---|---|---|
| `WaitTime.FromOrdinal` | ActionRetry/ActionRetry/Retry.cs:11-16 | the cast of an `int` to `Backoff` gives `Linear`, `Quadratic`, `Cubic` for 0, 1, 2 and an unnamed value otherwise, and keeps the integer |
| `WaitTime.Xor` | ActionRetry/ActionRetry/Retry.cs:254-258 | C#'s `^` on `int`: bitwise exclusive or in two's complement, bit by bit |
| `WaitTime.GetWaitTime` | ActionRetry/ActionRetry/Retry.cs:241-263 | the code as written yields a wait for each named `Backoff` and fails (`NotImplementedException`) exactly for an unnamed enum value |
| `WaitTime.IntendedWaitTime` | ActionRetry/ActionRetry/Retry.cs:248-258 | the schedule the comments promise (true powers) fails exactly for an unnamed enum value |
| `WaitTime.IntendedRecurrence` | ActionRetry/ActionRetry/Retry.cs:248-258 | the intended schedule starts at `initialDelay` and then adds `initialDelay` (Linear), doubles (Quadratic) or triples (Cubic) per attempt |
| `WaitTime.IntendedMatchesDocumentedExamples` | ActionRetry/ActionRetry/Retry.cs:248-258 | for `initialDelay = 50` the intended schedule is 50,100,150,200 / 50,100,200,400 / 50,150,450,1350, as the comments say |
| `WaitTime.IntendedNonDecreasing` | ActionRetry/ActionRetry/Retry.cs:248-258 | with a non-negative initial delay the intended wait never decreases as attempts go on, for every backoff |
| `WaitTime.LinearNonDecreasing` | ActionRetry/ActionRetry/Retry.cs:248-250 | Linear waits `initialDelay * attempt` are non-decreasing for `initialDelay >= 0` and agree with the intended schedule |
| `WaitTime.XorOfNonNegativesIsBounded` | ActionRetry/ActionRetry/Retry.cs:254-258 | the `^` operator used as the exponent is an exclusive or, which on non-negative operands never exceeds their sum |
| `WaitTime.XorAgreesWithBitwiseOnSchedule` | ActionRetry/ActionRetry/Retry.cs:252-258 | on the operands of the first four Quadratic and Cubic waits, the model's exclusive or equals the 32-bit operator `^` |
| `WaitTime.AsWrittenExamples` | ActionRetry/ActionRetry/Retry.cs:252-258 | as written, `initialDelay = 50` gives 100,150,0,50 (Quadratic) and 150,100,50,0 (Cubic) for attempts 1 to 4 |
| `WaitTime.AsWrittenGrowsAtMostLinearly` | ActionRetry/ActionRetry/Retry.cs:248-258 | as written, every wait lies between 0 and `initialDelay * (attempt + 2)`: no exponential growth |
| `WaitTime.AsWrittenNeverMatchesIntended` | ActionRetry/ActionRetry/Retry.cs:252-258 | for every attempt and every non-zero initial delay, Quadratic and Cubic as written differ from the promised powers |
| `ExceptionFilter.Rethrows` | ActionRetry/ActionRetry/Retry.cs:215-239 | `CheckContinueThrow`: nothing is rethrown under `ignoreExceptions`; otherwise a kind is rethrown when it is outside a present whitelist and inside a present blacklist |
| `ExceptionFilter.RethrowsFollowsTable` | ActionRetry/ActionRetry/Retry.cs:222-238 | the filter, laid out as a decision table with one row per combination of present lists; the table is a case split of the filter, and the row lemmas below state each row on its own |
| `ExceptionFilter.IgnoreNeverRethrows` | ActionRetry/ActionRetry/Retry.cs:222-223 | with `ignoreExceptions` nothing is rethrown, whatever the lists |
| `ExceptionFilter.NoListsAlwaysRethrows` | ActionRetry/ActionRetry/Retry.cs:225-238 | without the flag and without lists every exception is rethrown |
| `ExceptionFilter.WhitelistedNeverRethrown` | ActionRetry/ActionRetry/Retry.cs:229-233 | a kind in a present whitelist is never rethrown |
| `ExceptionFilter.BlacklistOnlyRethrowsListed` | ActionRetry/ActionRetry/Retry.cs:234-238 | with only a blacklist, a kind is rethrown if and only if it is in the blacklist |
| `ExceptionFilter.BothListsRethrowOnlyBlacklistedOutsideWhitelist` | ActionRetry/ActionRetry/Retry.cs:229-238 | with both lists, a kind is rethrown if and only if it is blacklisted and not whitelisted |
| `ExceptionFilter.EmptyBlacklistSwallowsAll` | ActionRetry/ActionRetry/Retry.cs:225-238 | a present empty blacklist swallows every kind while no lists at all rethrow every kind |
| `ActionRetry.NewSync` | ActionRetry/ActionRetry/Retry.cs:73-86 | for a backoff that is a value of the enum, an instance built with a synchronous delegate is refused by `BeginASync`, and refused by `Begin` exactly when the delegate is null; every argument (delegate, attempts, initial delay, `ignoreExceptions`, whitelist, blacklist, backoff) is stored unchanged |
| `ActionRetry.NewAsync` | ActionRetry/ActionRetry/Retry.cs:88-101 | for a backoff that is a value of the enum, an instance built with an asynchronous delegate is refused by `Begin`, and refused by `BeginASync` exactly when the delegate is null; every argument is stored unchanged |
| `ActionRetry.Loop` | ActionRetry/ActionRetry/Retry.cs:130-161 | the loop from a given attempt: `AttemptStart`, the invocation, the filter on an exception with `IgnoredException` when it is swallowed, `AttemptFailure`, the sleep, and false once the attempts are used up; `AfterFailure` is its sleep step |
| `ActionRetry.Begin` | ActionRetry/ActionRetry/Retry.cs:123-128 | the wrong entry point fails with the mode error, and the null delegate fails with the null error, exactly in those cases and before any event |
| `ActionRetry.BeginLoop` | ActionRetry/ActionRetry/Retry.cs:123-162 | the imperative `for` loop with early returns computes the same session as the recursive model |
| `RetryProperties.TraceIsShaped` | ActionRetry/ActionRetry/Retry.cs:130-159 | every trace follows the grammar `Start(n) Ignored? Failure(n) Wait(w)` per attempt, with `n` counting up from 1 to at most `attempts` and `w` the backoff wait for attempt `n` |
| `RetryProperties.AttemptNumbering` | ActionRetry/ActionRetry/Retry.cs:130-151 | `Start` events carry 1, 2, ... consecutively and never exceed `attempts`; each `Failure(n)` carries the number of the latest `Start` |
| `RetryProperties.SuccessShortCircuits` | ActionRetry/ActionRetry/Retry.cs:130-137 | when the first success is the k-th invocation, the run returns true after exactly k invocations, with k-1 failures and k-1 waits and nothing after `Start(k)` |
| `RetryProperties.RethrownExceptionEndsRun` | ActionRetry/ActionRetry/Retry.cs:139-146 | a rethrown exception propagates at once: no `Ignored`, `Failure` or wait for that attempt and no later invocation |
| `RetryProperties.PropagatesOnlyRethrownKinds` | ActionRetry/ActionRetry/Retry.cs:139-149 | a run propagates only a kind the delegate threw and the filter rethrows; with `ignoreExceptions` nothing propagates |
| `RetryProperties.ExhaustsBudget` | ActionRetry/ActionRetry/Retry.cs:130-161 | with a named backoff, without success or rethrown exception the run returns false after exactly `attempts` invocations and failures (an unnamed backoff ends at the first sleep, see `UnnamedBackoffFailsAtFirstWait`); as written with `attempts` waits, the last after the final attempt |
| `RetryProperties.AllFailLayout` | ActionRetry/ActionRetry/Retry.cs:130-161 | with a named backoff, when every invocation returns false, the trace as written is exactly `Start(i) Failure(i) Wait(GetWaitTime(i))` for i = 1 .. attempts |
| `RetryProperties.NonPositiveBudgetReturnsFalse` | ActionRetry/ActionRetry/Retry.cs:130-161 | with `attempts <= 0` the run returns false with no invocation, event or wait |
| `RetryProperties.UnnamedBackoffFailsAtFirstWait` | ActionRetry/ActionRetry/Retry.cs:151-158 | an unnamed backoff value surfaces only at the first sleep, right after `Failure(1)` |
| `RetryProperties.SwallowedThrowActsAsFail` | ActionRetry/ActionRetry/Retry.cs:139-151 | a swallowed exception behaves as a `false` return: the same result, and the same events except that `Ignored(kind)`, with the thrown kind, sits right after `Start(n)` when the run reaches invocation n |
| `RetryProperties.LoopReadsOnlyLaterOutcomes` | ActionRetry/ActionRetry/Retry.cs:130-159 | the loop from attempt a on depends only on the outcomes of invocations a to `attempts` |
| `RetryProperties.BeginASyncMirrorsBegin` | ActionRetry/ActionRetry/Retry.cs:164-203 | `BeginASync` on an asynchronous instance runs exactly as `Begin` on the synchronous one with the same configuration |
| `RetryProperties.CorrectedOmitsOnlyTheFinalWait` | ActionRetry/ActionRetry/Retry.cs:151-158 | with Linear backoff, an exhausted run as written differs from the corrected one only by the sleep after the last attempt |
| `RetryProperties.TrivialTest` | ActionRetry/ActionRetryTest/Tests.cs:14-28 | with default arguments and any named backoff, an always-true delegate succeeds at once and an always-false one returns false after five attempts, in both modes |

## Findings

| source | as written | input that shows it | evidently intended | confidence | as-written member | corrected member |
|---|---|---|---|---|---|---|
| ActionRetry/ActionRetry/Retry.cs:252-258 | `2 ^ (attempt - 1)` and `3 ^ (attempt - 1)` are bitwise exclusive or | Quadratic, `initialDelay = 50`, attempt 3: waits 50 * (2 xor 2) = 0 ms; the comment promises 200 | `initialDelay * 2^(attempt-1)` and `initialDelay * 3^(attempt-1)` | high, not executed | `WaitTime.AsWrittenNeverMatchesIntended` | `WaitTime.IntendedRecurrence` |
| ActionRetry/ActionRetry/Retry.cs:151-161 | the loop sleeps after every failed attempt, the last one included, before returning false | `attempts = 5`, Linear, delegate always false: five sleeps, the fifth (250 ms) after the final attempt delays the `false` result | no sleep after the final attempt | medium, not executed | `RetryProperties.ExhaustsBudget` | `RetryProperties.CorrectedOmitsOnlyTheFinalWait` |

The as-written members rest on `WaitTime.GetWaitTime` and on `ActionRetry.Loop`
with `AsWritten`. The corrected members rest on `WaitTime.IntendedWaitTime` and
on `ActionRetry.Loop` with `Corrected`. The run lemmas hold for both.

## Left out

- Sleeping and awaiting (`Thread.Sleep`, `Task.Delay`, `async`/`Task<bool>`) are left out: each sleep is a `Wait(ms)` event, and time is not modelled.
- What the runtime does with a negative sleep (`-1` waits forever, other negative values throw) is left out; `Wait(ms)` records the requested duration.
- Event-handler mechanics (multicast delegates, event arguments, exceptions thrown by observers) are left out; notifications are trace entries.
- Exception types are an abstract kind compared by identity, standing for the exact runtime type that `GetType()` returns; no subtyping or reflection.
- The delegate is a function of the invocation number; its side effects and timing are not modelled.
- `WaitTime.GetWaitTime`: does not model 32-bit wrap-around of `initialDelay * attempt` and of the exclusive-or products; integers are unbounded.
- `WaitTime.XorAgreesWithBitwiseOnSchedule`: compares the model's exclusive or with the 32-bit operator only on the operands of the first four waits, not on all 32-bit operands; the general agreement is argued from the bit-by-bit definition, not proved.
- `ExceptionWhitelist` and `ExceptionBlacklist` are `readonly` references to mutable `HashSet<Type>` objects; the model reads them as fixed sets, so changes made to them during a run (by the caller or the delegate) are not modelled.
- `ActionRetry.Loop`: does not model the wrap-around of `attempt++` when `Attempts` is `int.MaxValue`.
- The `wasSuccessful` field is never read or written by the class and is not modelled.
- `ActionRetry/SampleUsage/Program.cs` is left out: it only wraps `Begin` in an unbounded outer loop.
- `ActionRetry/ActionRetryTest/Tests.cs` is not modelled as code; its one test is stated as `RetryProperties.TrivialTest`.
