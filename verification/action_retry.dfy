/**
  The `Retry` class: its configuration, the two constructors, and the attempt
  loop shared by `Begin` (synchronous) and `BeginASync` (asynchronous).

  The retried callable is a `Work<K>`: the outcome of its n-th invocation
  (counting from 1). The loop emits the observable events of one run in
  order (the `AttemptStart`, `IgnoredException` and `AttemptFailure`
  notifications and each sleep, as `Wait(ms)`) and ends in one of the
  terminal results a caller can see.

  `Variant` selects between the loop as written and the loop with two
  corrections: true powers, as the comments of `GetWaitTime` promise, and
  no sleep after the final attempt, as a retry loop is usually read (see
  `Variant`).
*/
module ActionRetry {
  import opened Wrappers
  import opened WaitTime
  import opened ExceptionFilter

  /** What one invocation of the callable does: return true, return false,
      or throw an exception of some kind. */
  datatype Outcome<K> = Success | Fail | Throw(kind: K)

  /** The retried callable: `work(n)` is the outcome of the n-th invocation. */
  type Work<K> = nat -> Outcome<K>

  /** Which delegate the instance was built with, and which entry point is called. */
  datatype Mode = Sync | Async

  /** A configured `Retry` instance. `work` is the delegate of the instance's
      own mode (`toRetry` or `toRetryASync`), `None` when it is null. */
  datatype Retry<K> = Retry(
    work: Option<Work<K>>,
    mode: Mode,
    attempts: int,
    initialDelay: int,
    ignoreExceptions: bool,
    whitelist: Option<set<K>>,
    blacklist: Option<set<K>>,
    backoff: Backoff)

  /** Observable events of a run, in order. */
  datatype Event<K> =
    | Start(attempt: int)      // AttemptStart
    | Ignored(kind: K)         // IgnoredException, for a swallowed exception
    | Failure(attempt: int)    // AttemptFailure
    | Wait(ms: int)            // Thread.Sleep / Task.Delay

  /** How a run that got past the guards ends: a returned boolean, an
      exception of the callable's rethrown, or the `NotImplementedException`
      that `GetWaitTime` throws for an unnamed backoff value. */
  datatype Terminal<K> = Returned(value: bool) | Propagated(kind: K) | BackoffNotImplemented

  datatype Run<K> = Run(events: seq<Event<K>>, terminal: Terminal<K>)

  /** The guards' exceptions: `ArgumentException` for the wrong entry point,
      `ArgumentNullException` for a null delegate. */
  datatype GuardError = WrongMode | NullWork

  datatype Session<K> = Rejected(error: GuardError) | Ran(run: Run<K>)

  /** `AsWritten` is the loop of the source: it sleeps after every failed
      attempt, the last one included, and computes Quadratic and Cubic waits
      with an exclusive or. `Corrected` skips the sleep after the final
      attempt and uses true powers, as the comments describe. */
  datatype Variant = AsWritten | Corrected

  // ---------------------------------------------------------------------
  // Construction

  /** The constructor taking a synchronous delegate, with the source's
      default arguments. The backoff is a value of the C# enum, so an
      unnamed one never carries 0, 1 or 2. A null delegate is accepted
      here and rejected only when the run begins. */
  function NewSync<K(==)>(
    toRetry: Option<Work<K>>,
    attempts: int := 5,
    initialDelay: int := 50,
    ignoreExceptions: bool := false,
    whitelist: Option<set<K>> := None,
    blacklist: Option<set<K>> := None,
    backoff: Backoff := Linear): (r: Retry<K>)
    requires WellFormed(backoff)
    ensures forall v :: Begin(r, Async, v) == Rejected(WrongMode)
    ensures forall v :: Begin(r, Sync, v) == Rejected(NullWork) <==> toRetry.None?
    ensures r.attempts == attempts && r.initialDelay == initialDelay && r.backoff == backoff
    ensures r.ignoreExceptions == ignoreExceptions && r.whitelist == whitelist && r.blacklist == blacklist
    ensures r.work == toRetry && r.mode == Sync
  {
    Retry(toRetry, Sync, attempts, initialDelay, ignoreExceptions, whitelist, blacklist, backoff)
  }

  /** The constructor taking an asynchronous delegate, with the same defaults. */
  function NewAsync<K(==)>(
    toRetryASync: Option<Work<K>>,
    attempts: int := 5,
    initialDelay: int := 50,
    ignoreExceptions: bool := false,
    whitelist: Option<set<K>> := None,
    blacklist: Option<set<K>> := None,
    backoff: Backoff := Linear): (r: Retry<K>)
    requires WellFormed(backoff)
    ensures forall v :: Begin(r, Sync, v) == Rejected(WrongMode)
    ensures forall v :: Begin(r, Async, v) == Rejected(NullWork) <==> toRetryASync.None?
    ensures r.attempts == attempts && r.initialDelay == initialDelay && r.backoff == backoff
    ensures r.ignoreExceptions == ignoreExceptions && r.whitelist == whitelist && r.blacklist == blacklist
    ensures r.work == toRetryASync && r.mode == Async
  {
    Retry(toRetryASync, Async, attempts, initialDelay, ignoreExceptions, whitelist, blacklist, backoff)
  }

  // ---------------------------------------------------------------------
  // The run

  /** Whether the instance's exception filter rethrows an exception of `kind`. */
  predicate RethrowsKind<K(==)>(r: Retry<K>, kind: K)
  {
    Rethrows(r.ignoreExceptions, r.whitelist, r.blacklist, kind)
  }

  /** An outcome that ends the run at once: true, or a rethrown exception. */
  predicate Decisive<K(==)>(r: Retry<K>, o: Outcome<K>)
  {
    o.Success? || (o.Throw? && RethrowsKind(r, o.kind))
  }

  /** The wait after failed attempt `attempt`; `None` is `NotImplementedException`. */
  function WaitFor<K>(r: Retry<K>, v: Variant, attempt: int): (w: Option<int>)
    requires attempt >= 1
    ensures w.None? <==> r.backoff.Unnamed?
  {
    match v
    case AsWritten => GetWaitTime(attempt, r.initialDelay, r.backoff)
    case Corrected => IntendedWaitTime(attempt, r.initialDelay, r.backoff)
  }

  /** Whether the loop skips the sleep after failed attempt `attempt`. */
  predicate SkipsWait<K>(r: Retry<K>, v: Variant, attempt: int)
  {
    v == Corrected && attempt == r.attempts
  }

  function Prepend<K>(prefix: seq<Event<K>>, run: Run<K>): Run<K>
  {
    Run(prefix + run.events, run.terminal)
  }

  lemma PrependTwice<K>(a: seq<Event<K>>, b: seq<Event<K>>, run: Run<K>)
    ensures Prepend(a, Prepend(b, run)) == Prepend(a + b, run)
  {
    assert a + (b + run.events) == (a + b) + run.events;
  }

  /** One failed attempt whose sleep, if any, has a duration. */
  lemma LoopAfterFailedAttempt<K>(r: Retry<K>, work: Work<K>, v: Variant, attempt: nat)
    requires 1 <= attempt <= r.attempts
    requires !work(attempt).Success?
    requires !(work(attempt).Throw? && RethrowsKind(r, work(attempt).kind))
    requires SkipsWait(r, v, attempt) || WaitFor(r, v, attempt).Some?
    ensures Loop(r, work, v, attempt) == Prepend(
      FailedAttempt(attempt, work(attempt))
        + (if SkipsWait(r, v, attempt) then [] else [Wait(WaitFor(r, v, attempt).value)]),
      Loop(r, work, v, attempt + 1))
  {
    var waits: seq<Event<K>> := if SkipsWait(r, v, attempt) then [] else [Wait(WaitFor(r, v, attempt).value)];
    assert AfterFailure(r, work, v, attempt) == Prepend(waits, Loop(r, work, v, attempt + 1));
    PrependTwice(FailedAttempt(attempt, work(attempt)), waits, Loop(r, work, v, attempt + 1));
  }

  /** The events of a failed attempt up to and including `Failure(attempt)`. */
  function FailedAttempt<K>(attempt: int, o: Outcome<K>): seq<Event<K>>
  {
    [Start(attempt)] + (if o.Throw? then [Ignored(o.kind)] else []) + [Failure(attempt)]
  }

  /** The loop `for (attempt = ...; attempt <= Attempts; attempt++)` from the
      given attempt on. */
  function Loop<K(==)>(r: Retry<K>, work: Work<K>, v: Variant, attempt: nat): Run<K>
    requires attempt >= 1
    decreases r.attempts - attempt, 1
  {
    if attempt > r.attempts then
      Run([], Returned(false))
    else
      var o := work(attempt);
      if o.Success? then
        Run([Start(attempt)], Returned(true))
      else if o.Throw? && RethrowsKind(r, o.kind) then
        Run([Start(attempt)], Propagated(o.kind))
      else
        Prepend(FailedAttempt(attempt, o), AfterFailure(r, work, v, attempt))
  }

  /** What follows `Failure(attempt)`: the sleep, unless it is skipped, and
      then the remaining attempts. */
  function AfterFailure<K(==)>(r: Retry<K>, work: Work<K>, v: Variant, attempt: nat): Run<K>
    requires 1 <= attempt <= r.attempts
    decreases r.attempts - attempt, 0
  {
    if SkipsWait(r, v, attempt) then
      Loop(r, work, v, attempt + 1)
    else
      match WaitFor(r, v, attempt)
      case None => Run([], BackoffNotImplemented)
      case Some(ms) => Prepend([Wait(ms)], Loop(r, work, v, attempt + 1))
  }

  /** `Begin` (called as `Sync`) and `BeginASync` (called as `Async`): the
      mode guard, then the null guard, then the loop from attempt 1. Both
      guards fire before any invocation or event. */
  function Begin<K(==)>(r: Retry<K>, called: Mode, v: Variant): (s: Session<K>)
    ensures s == Rejected(WrongMode) <==> called != r.mode
    ensures s == Rejected(NullWork) <==> called == r.mode && r.work.None?
    ensures s.Ran? ==> called == r.mode && r.work.Some?
  {
    if called != r.mode then Rejected(WrongMode)
    else if r.work.None? then Rejected(NullWork)
    else Ran(Loop(r, r.work.value, v, 1))
  }

  /** The loop written imperatively, as the source writes it, computing the
      same session as `Begin`. */
  method BeginLoop<K(==)>(r: Retry<K>, called: Mode, v: Variant) returns (s: Session<K>)
    ensures s == Begin(r, called, v)
  {
    if called != r.mode {
      return Rejected(WrongMode);
    }
    if r.work.None? {
      return Rejected(NullWork);
    }
    var work := r.work.value;
    var events: seq<Event<K>> := [];
    var attempt: nat := 1;
    while attempt <= r.attempts
      invariant attempt >= 1
      invariant Loop(r, work, v, 1) == Prepend(events, Loop(r, work, v, attempt))
      decreases r.attempts - attempt
    {
      var o := work(attempt);
      if o.Success? {
        return Ran(Run(events + [Start(attempt)], Returned(true)));
      }
      if o.Throw? && RethrowsKind(r, o.kind) {
        return Ran(Run(events + [Start(attempt)], Propagated(o.kind)));
      }
      var failed := FailedAttempt(attempt, o);
      if !SkipsWait(r, v, attempt) {
        var w := WaitFor(r, v, attempt);
        if w.None? {
          return Ran(Run(events + failed, BackoffNotImplemented));
        }
        failed := failed + [Wait(w.value)];
      }
      LoopAfterFailedAttempt(r, work, v, attempt);
      PrependTwice(events, failed, Loop(r, work, v, attempt + 1));
      events := events + failed;
      attempt := attempt + 1;
    }
    return Ran(Run(events, Returned(false)));
  }
}
