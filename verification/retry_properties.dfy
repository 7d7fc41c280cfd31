/**
  Properties of a `Retry` run: how attempts are numbered, when the run stops,
  how many invocations, failures and waits it makes, what the exception
  filter does to it, and how the loop as written differs from the corrected one.
*/
module RetryProperties {
  import opened Wrappers
  import opened WaitTime
  import opened ExceptionFilter
  import opened ActionRetry

  // ---------------------------------------------------------------------
  // Counting events

  datatype Tag = StartTag | IgnoredTag | FailureTag | WaitTag

  function TagOf<K>(e: Event<K>): Tag
  {
    match e
    case Start(_) => StartTag
    case Ignored(_) => IgnoredTag
    case Failure(_) => FailureTag
    case Wait(_) => WaitTag
  }

  /** The number of events of one sort. */
  function Count<K>(events: seq<Event<K>>, t: Tag): nat
  {
    if |events| == 0 then 0
    else (if TagOf(events[0]) == t then 1 else 0) + Count(events[1..], t)
  }

  lemma {:induction false} CountAppend<K>(a: seq<Event<K>>, b: seq<Event<K>>, t: Tag)
    ensures Count(a + b, t) == Count(a, t) + Count(b, t)
    decreases |a|
  {
    if |a| > 0 {
      assert (a + b)[1..] == a[1..] + b;
      CountAppend(a[1..], b, t);
    } else {
      assert a + b == b;
    }
  }

  lemma CountSingle<K>(e: Event<K>, t: Tag)
    ensures Count([e], t) == if TagOf(e) == t then 1 else 0
  {
    assert [e][1..] == [];
  }

  lemma CountFailedAttempt<K>(n: int, o: Outcome<K>, t: Tag)
    ensures Count(FailedAttempt(n, o), t)
      == (if t == StartTag || t == FailureTag then 1 else 0) + (if t == IgnoredTag && o.Throw? then 1 else 0)
  {
    var mid: seq<Event<K>> := if o.Throw? then [Ignored(o.kind)] else [];
    CountAppend([Start(n)] + mid, [Failure(n)], t);
    CountAppend([Start(n)], mid, t);
    CountSingle<K>(Start(n), t);
    CountSingle<K>(Failure(n), t);
    if o.Throw? {
      CountSingle(Ignored(o.kind), t);
    }
  }

  /** The events, without the `Ignored` notifications. */
  function DropIgnored<K>(events: seq<Event<K>>): seq<Event<K>>
  {
    if |events| == 0 then []
    else (if events[0].Ignored? then [] else [events[0]]) + DropIgnored(events[1..])
  }

  lemma {:induction false} DropIgnoredAppend<K>(a: seq<Event<K>>, b: seq<Event<K>>)
    ensures DropIgnored(a + b) == DropIgnored(a) + DropIgnored(b)
    decreases |a|
  {
    if |a| > 0 {
      assert (a + b)[1..] == a[1..] + b;
      DropIgnoredAppend(a[1..], b);
    } else {
      assert a + b == b;
    }
  }

  // ---------------------------------------------------------------------
  // The shape of a trace

  /** Where a trace stands: before any attempt or after a wait (`Idle`),
      right after `Start` (`Started`), after an `Ignored` notification
      (`Excused`), or after `Failure` (`Failed`). */
  datatype Phase = Idle | Started | Excused | Failed

  /** The traces a run may produce, as a grammar independent of `Loop`:
      each attempt is `Start(n) Ignored? Failure(n) Wait(w)`, where `n`
      counts up from 1 and never exceeds `attempts`, `w` is the backoff wait
      for attempt `n`, and the trace may stop after any event. The corrected
      loop never waits after the final attempt. `cur` is the number of the
      latest attempt started. */
  ghost predicate Shaped<K>(r: Retry<K>, v: Variant, events: seq<Event<K>>, phase: Phase, cur: int)
    decreases |events|
  {
    if |events| == 0 then true
    else
      var rest := events[1..];
      match events[0]
      case Start(n) =>
        phase == Idle && n == cur + 1 && n <= r.attempts && Shaped(r, v, rest, Started, n)
      case Ignored(_) =>
        phase == Started && Shaped(r, v, rest, Excused, cur)
      case Failure(n) =>
        (phase == Started || phase == Excused) && n == cur && Shaped(r, v, rest, Failed, cur)
      case Wait(ms) =>
        && phase == Failed
        && cur >= 1
        && !SkipsWait(r, v, cur)
        && WaitFor(r, v, cur) == Some(ms)
        && Shaped(r, v, rest, Idle, cur)
  }

  /** A failed attempt followed by a well-shaped continuation is well shaped. */
  lemma FailedAttemptIsShaped<K>(r: Retry<K>, v: Variant, a: nat, o: Outcome<K>, tail: seq<Event<K>>)
    requires 1 <= a <= r.attempts
    requires Shaped(r, v, tail, Failed, a)
    ensures Shaped(r, v, FailedAttempt(a, o) + tail, Idle, a - 1)
  {
    var fromFailure := [Failure(a)] + tail;
    assert fromFailure[1..] == tail;
    assert Shaped(r, v, fromFailure, Started, a);
    assert Shaped(r, v, fromFailure, Excused, a);
    var events := FailedAttempt(a, o) + tail;
    if o.Throw? {
      var fromIgnored := [Ignored(o.kind)] + fromFailure;
      assert fromIgnored[1..] == fromFailure;
      assert events == [Start(a)] + fromIgnored;
      assert events[1..] == fromIgnored;
    } else {
      assert events == [Start(a)] + fromFailure;
      assert events[1..] == fromFailure;
    }
  }

  lemma {:induction false} LoopIsShapedFrom<K>(r: Retry<K>, work: Work<K>, v: Variant, a: nat)
    requires a >= 1
    ensures Shaped(r, v, Loop(r, work, v, a).events, Idle, a - 1)
    decreases r.attempts - a, 1
  {
    if a <= r.attempts {
      var o := work(a);
      var events := Loop(r, work, v, a).events;
      if Decisive(r, o) {
        assert events == [Start(a)];
        assert events[1..] == [];
      } else {
        AfterFailureIsShaped(r, work, v, a);
        FailedAttemptIsShaped(r, v, a, o, AfterFailure(r, work, v, a).events);
      }
    }
  }

  lemma {:induction false} AfterFailureIsShaped<K>(r: Retry<K>, work: Work<K>, v: Variant, a: nat)
    requires 1 <= a <= r.attempts
    ensures Shaped(r, v, AfterFailure(r, work, v, a).events, Failed, a)
    decreases r.attempts - a, 0
  {
    if SkipsWait(r, v, a) {
      assert Loop(r, work, v, a + 1).events == [];
    } else if WaitFor(r, v, a).Some? {
      LoopIsShapedFrom(r, work, v, a + 1);
      var tail := AfterFailure(r, work, v, a).events;
      assert tail[1..] == Loop(r, work, v, a + 1).events;
    }
  }

  /** Every run, of either variant and for any callable, produces a trace of
      the grammar `Shaped`. */
  lemma TraceIsShaped<K>(r: Retry<K>, work: Work<K>, v: Variant)
    ensures Shaped(r, v, Loop(r, work, v, 1).events, Idle, 0)
  {
    LoopIsShapedFrom(r, work, v, 1);
  }

  lemma {:induction false} ShapedNumbering<K>(r: Retry<K>, v: Variant, events: seq<Event<K>>, phase: Phase, cur: int)
    requires Shaped(r, v, events, phase, cur)
    ensures forall i :: 0 <= i < |events| && events[i].Start? ==>
      events[i].attempt == cur + Count(events[..i], StartTag) + 1 <= r.attempts
    ensures forall i :: 0 <= i < |events| && events[i].Failure? ==>
      events[i].attempt == cur + Count(events[..i], StartTag)
    decreases |events|
  {
    if |events| > 0 {
      var e := events[0];
      var rest := events[1..];
      var next := if e.Start? then e.attempt else cur;
      var nextPhase := match e
        case Start(_) => Started
        case Ignored(_) => Excused
        case Failure(_) => Failed
        case Wait(_) => Idle;
      assert Shaped(r, v, rest, nextPhase, next);
      ShapedNumbering(r, v, rest, nextPhase, next);
      forall i | 1 <= i < |events|
        ensures Count(events[..i], StartTag) == (if e.Start? then 1 else 0) + Count(rest[..i - 1], StartTag)
      {
        assert events[..i] == [e] + rest[..i - 1];
        CountAppend([e], rest[..i - 1], StartTag);
        CountSingle(e, StartTag);
      }
      assert Count(events[..0], StartTag) == 0;
      assert forall i :: 1 <= i < |events| ==> events[i] == rest[i - 1];
    }
  }

  /** Attempt numbering: the `Start` events carry 1, 2, ... in order, none
      beyond `attempts`, and each `Failure(n)` falls after `Start(n)` and
      before `Start(n + 1)`: its number is that of the latest `Start`. */
  lemma AttemptNumbering<K>(r: Retry<K>, work: Work<K>, v: Variant)
    ensures var events := Loop(r, work, v, 1).events;
      && (forall i :: 0 <= i < |events| && events[i].Start? ==>
            events[i].attempt == Count(events[..i], StartTag) + 1 <= r.attempts)
      && (forall i :: 0 <= i < |events| && events[i].Failure? ==>
            events[i].attempt == Count(events[..i], StartTag))
  {
    TraceIsShaped(r, work, v);
    ShapedNumbering(r, v, Loop(r, work, v, 1).events, Idle, 0);
  }

  // ---------------------------------------------------------------------
  // When the run stops

  lemma {:induction false} StopsAtFirstDecisiveFrom<K>(r: Retry<K>, work: Work<K>, v: Variant, a: nat, m: nat)
    requires 1 <= a <= m <= r.attempts
    requires Decisive(r, work(m))
    requires forall i :: a <= i < m ==> !Decisive(r, work(i))
    requires a == m || !r.backoff.Unnamed?
    ensures var run := Loop(r, work, v, a);
      && run.terminal == (if work(m).Success? then Returned(true) else Propagated(work(m).kind))
      && |run.events| > 0 && run.events[|run.events| - 1] == Start(m)
      && Count(run.events, StartTag) == m - a + 1
      && Count(run.events, FailureTag) == m - a
      && Count(run.events, WaitTag) == m - a
      && Failure(m) !in run.events
    decreases m - a
  {
    var run := Loop(r, work, v, a);
    if a == m {
      assert run.events == [Start(m)];
      CountSingle<K>(Start(m), StartTag);
      CountSingle<K>(Start(m), FailureTag);
      CountSingle<K>(Start(m), WaitTag);
    } else {
      StopsAtFirstDecisiveFrom(r, work, v, a + 1, m);
      FailedStep(r, work, v, a);
      assert !SkipsWait(r, v, a);
      var w := Wait(WaitFor(r, v, a).value);
      assert WaitsAfter(r, v, a) == [w];
      WaitedStep(a, work(a), w, Loop(r, work, v, a + 1).events, m);
    }
  }

  /** The counts and the last event of a failed attempt and its sleep
      followed by the rest of a run. */
  lemma WaitedStep<K>(a: int, o: Outcome<K>, w: Event<K>, rest: seq<Event<K>>, m: int)
    requires w.Wait?
    requires |rest| > 0
    requires m != a && Failure(m) !in rest
    ensures var events := FailedAttempt(a, o) + [w] + rest;
      && events[|events| - 1] == rest[|rest| - 1]
      && Count(events, StartTag) == Count(rest, StartTag) + 1
      && Count(events, FailureTag) == Count(rest, FailureTag) + 1
      && Count(events, WaitTag) == Count(rest, WaitTag) + 1
      && Failure(m) !in events
  {
    var head := FailedAttempt(a, o) + [w];
    forall t: Tag
      ensures Count(head + rest, t) == Count(FailedAttempt(a, o), t) + Count([w], t) + Count(rest, t)
    {
      CountAppend(head, rest, t);
      CountAppend(FailedAttempt(a, o), [w], t);
    }
    CountFailedAttempt(a, o, StartTag);
    CountFailedAttempt(a, o, FailureTag);
    CountFailedAttempt(a, o, WaitTag);
    CountSingle(w, StartTag);
    CountSingle(w, FailureTag);
    CountSingle(w, WaitTag);
    assert Failure(m) !in head;
  }

  /** Success short-circuits: when the first successful invocation is the
      k-th and none before it threw an exception the filter rethrows, the
      run returns true after exactly k invocations, with k - 1 failures and
      k - 1 waits, and nothing after `Start(k)`. */
  lemma SuccessShortCircuits<K>(r: Retry<K>, work: Work<K>, v: Variant, k: nat)
    requires 1 <= k <= r.attempts
    requires work(k) == Success
    requires forall i :: 1 <= i < k ==> !Decisive(r, work(i))
    requires k == 1 || !r.backoff.Unnamed?
    ensures var run := Loop(r, work, v, 1);
      && run.terminal == Returned(true)
      && run.events[|run.events| - 1] == Start(k)
      && Count(run.events, StartTag) == k
      && Count(run.events, FailureTag) == k - 1
      && Count(run.events, WaitTag) == k - 1
      && Failure(k) !in run.events
  {
    StopsAtFirstDecisiveFrom(r, work, v, 1, k);
  }

  /** A rethrown exception ends the run at once: it propagates out of the
      run with no `Ignored`, `Failure` or wait for that attempt, and no
      later invocation. */
  lemma RethrownExceptionEndsRun<K>(r: Retry<K>, work: Work<K>, v: Variant, m: nat, kind: K)
    requires 1 <= m <= r.attempts
    requires work(m) == Throw(kind) && RethrowsKind(r, kind)
    requires forall i :: 1 <= i < m ==> !Decisive(r, work(i))
    requires m == 1 || !r.backoff.Unnamed?
    ensures var run := Loop(r, work, v, 1);
      && run.terminal == Propagated(kind)
      && run.events[|run.events| - 1] == Start(m)
      && Count(run.events, StartTag) == m
      && Count(run.events, FailureTag) == m - 1
      && Count(run.events, WaitTag) == m - 1
  {
    StopsAtFirstDecisiveFrom(r, work, v, 1, m);
  }

  /** Only the callable's exceptions propagate, and only those the filter
      rethrows; so with `ignoreExceptions` set nothing ever propagates. */
  lemma {:induction false} PropagatesOnlyRethrownKinds<K>(r: Retry<K>, work: Work<K>, v: Variant, a: nat)
    requires a >= 1
    ensures var run := Loop(r, work, v, a);
      run.terminal.Propagated? ==>
        && RethrowsKind(r, run.terminal.kind)
        && exists i :: a <= i <= r.attempts && work(i) == Throw(run.terminal.kind)
    ensures r.ignoreExceptions ==> !Loop(r, work, v, a).terminal.Propagated?
    decreases r.attempts - a
  {
    if a <= r.attempts {
      var o := work(a);
      if o.Throw? && RethrowsKind(r, o.kind) {
        assert work(a) == Throw(o.kind);
      } else if !o.Success? {
        PropagatesOnlyRethrownKinds(r, work, v, a + 1);
      }
    }
  }

  // ---------------------------------------------------------------------
  // Running out of attempts

  function Max(x: int, y: int): int
  {
    if x < y then y else x
  }

  /** The sleep that follows failed attempt `a`, if any. */
  function WaitsAfter<K>(r: Retry<K>, v: Variant, a: nat): seq<Event<K>>
    requires a >= 1
    requires !r.backoff.Unnamed?
  {
    if SkipsWait(r, v, a) then [] else [Wait(WaitFor(r, v, a).value)]
  }

  /** One non-decisive attempt of a run with a named backoff. */
  lemma FailedStep<K>(r: Retry<K>, work: Work<K>, v: Variant, a: nat)
    requires 1 <= a <= r.attempts
    requires !Decisive(r, work(a))
    requires !r.backoff.Unnamed?
    ensures Loop(r, work, v, a).events
      == FailedAttempt(a, work(a)) + WaitsAfter(r, v, a) + Loop(r, work, v, a + 1).events
    ensures Loop(r, work, v, a).terminal == Loop(r, work, v, a + 1).terminal
    ensures forall t ::
              Count(Loop(r, work, v, a).events, t)
                == Count(FailedAttempt(a, work(a)), t) + Count(WaitsAfter(r, v, a), t)
                   + Count(Loop(r, work, v, a + 1).events, t)
  {
    var head := FailedAttempt(a, work(a)) + WaitsAfter(r, v, a);
    var rest := Loop(r, work, v, a + 1).events;
    assert AfterFailure(r, work, v, a) == Prepend(WaitsAfter(r, v, a), Loop(r, work, v, a + 1));
    assert Loop(r, work, v, a).events == head + rest;
    forall t: Tag
      ensures Count(head + rest, t)
        == Count(FailedAttempt(a, work(a)), t) + Count(WaitsAfter(r, v, a), t) + Count(rest, t)
    {
      CountAppend(head, rest, t);
      CountAppend(FailedAttempt(a, work(a)), WaitsAfter(r, v, a), t);
    }
  }

  lemma CountWaitsAfter<K>(r: Retry<K>, v: Variant, a: nat)
    requires a >= 1
    requires !r.backoff.Unnamed?
    ensures Count(WaitsAfter(r, v, a), StartTag) == 0
    ensures Count(WaitsAfter(r, v, a), FailureTag) == 0
    ensures Count(WaitsAfter(r, v, a), WaitTag) == if SkipsWait(r, v, a) then 0 else 1
  {
    if !SkipsWait(r, v, a) {
      var w: Event<K> := Wait(WaitFor(r, v, a).value);
      CountSingle(w, StartTag);
      CountSingle(w, FailureTag);
      CountSingle(w, WaitTag);
    }
  }

  lemma {:induction false} ExhaustsFrom<K>(r: Retry<K>, work: Work<K>, v: Variant, a: nat)
    requires a >= 1
    requires forall i :: a <= i <= r.attempts ==> !Decisive(r, work(i))
    requires !r.backoff.Unnamed?
    ensures var run := Loop(r, work, v, a);
      var n := Max(r.attempts - a + 1, 0);
      && run.terminal == Returned(false)
      && Count(run.events, StartTag) == n
      && Count(run.events, FailureTag) == n
      && Count(run.events, WaitTag) == (if v == AsWritten || n == 0 then n else n - 1)
    decreases r.attempts - a
  {
    if a <= r.attempts {
      ExhaustsFrom(r, work, v, a + 1);
      FailedStep(r, work, v, a);
      CountFailedAttempt(a, work(a), StartTag);
      CountFailedAttempt(a, work(a), FailureTag);
      CountFailedAttempt(a, work(a), WaitTag);
      CountWaitsAfter(r, v, a);
    }
  }

  lemma {:induction false} ExhaustedRunEndsFrom<K>(r: Retry<K>, work: Work<K>, v: Variant, a: nat)
    requires 1 <= a <= r.attempts
    requires forall i :: a <= i <= r.attempts ==> !Decisive(r, work(i))
    requires !r.backoff.Unnamed?
    ensures var events := Loop(r, work, v, a).events;
      && |events| > 0
      && (v == AsWritten ==>
            events[|events| - 1] == Wait(GetWaitTime(r.attempts, r.initialDelay, r.backoff).value))
      && (v == Corrected ==> events[|events| - 1] == Failure(r.attempts))
    decreases r.attempts - a
  {
    FailedStep(r, work, v, a);
    if a < r.attempts {
      ExhaustedRunEndsFrom(r, work, v, a + 1);
    } else {
      assert Loop(r, work, v, a + 1).events == [];
    }
  }

  /** Exhausting the budget: with a named backoff, when no invocation
      succeeds or throws a rethrown exception, the run returns false after
      exactly `attempts` invocations (none when `attempts <= 0`) and as many failures. As
      written it also waits `attempts` times, the last wait coming after the
      final failed attempt; the corrected loop waits one time fewer. An
      unnamed backoff ends the run at the first sleep instead (see
      `UnnamedBackoffFailsAtFirstWait`). */
  lemma ExhaustsBudget<K>(r: Retry<K>, work: Work<K>, v: Variant)
    requires forall i :: 1 <= i <= r.attempts ==> !Decisive(r, work(i))
    requires !r.backoff.Unnamed?
    ensures var run := Loop(r, work, v, 1);
      var n := Max(r.attempts, 0);
      && run.terminal == Returned(false)
      && Count(run.events, StartTag) == n
      && Count(run.events, FailureTag) == n
      && (v == AsWritten ==> Count(run.events, WaitTag) == n)
      && (v == Corrected ==> Count(run.events, WaitTag) == Max(n - 1, 0))
      && (n > 0 && v == AsWritten ==>
            run.events[|run.events| - 1] == Wait(GetWaitTime(r.attempts, r.initialDelay, r.backoff).value))
  {
    ExhaustsFrom(r, work, v, 1);
    if r.attempts >= 1 {
      ExhaustedRunEndsFrom(r, work, v, 1);
    }
  }

  lemma {:induction false} AllFailLayoutFrom<K>(r: Retry<K>, work: Work<K>, a: nat)
    requires 1 <= a <= r.attempts + 1
    requires forall i :: a <= i <= r.attempts ==> work(i) == Fail
    requires !r.backoff.Unnamed?
    ensures var events := Loop(r, work, AsWritten, a).events;
      && |events| == 3 * (r.attempts - a + 1)
      && forall i :: a <= i <= r.attempts ==>
           && events[3 * (i - a)] == Start(i)
           && events[3 * (i - a) + 1] == Failure(i)
           && events[3 * (i - a) + 2] == Wait(GetWaitTime(i, r.initialDelay, r.backoff).value)
    decreases r.attempts - a
  {
    if a <= r.attempts {
      AllFailLayoutFrom(r, work, a + 1);
      var rest := Loop(r, work, AsWritten, a + 1).events;
      var head := [Start(a), Failure(a), Wait(GetWaitTime(a, r.initialDelay, r.backoff).value)];
      var events := Loop(r, work, AsWritten, a).events;
      assert AfterFailure(r, work, AsWritten, a)
        == Prepend([Wait(GetWaitTime(a, r.initialDelay, r.backoff).value)], Loop(r, work, AsWritten, a + 1));
      assert events == head + rest;
      assert forall k :: 3 <= k < |events| ==> events[k] == rest[k - 3];
    }
  }

  /** All-fail layout: with a named backoff, when every invocation returns
      false, the run as written is exactly `Start(i) Failure(i) Wait(GetWaitTime(i))` for
      i = 1 .. attempts, the last wait included, and returns false. */
  lemma AllFailLayout<K>(r: Retry<K>, work: Work<K>)
    requires r.attempts >= 0
    requires forall i :: 1 <= i <= r.attempts ==> work(i) == Fail
    requires !r.backoff.Unnamed?
    ensures var run := Loop(r, work, AsWritten, 1);
      && run.terminal == Returned(false)
      && |run.events| == 3 * r.attempts
      && forall i :: 1 <= i <= r.attempts ==>
           && run.events[3 * i - 3] == Start(i)
           && run.events[3 * i - 2] == Failure(i)
           && run.events[3 * i - 1] == Wait(GetWaitTime(i, r.initialDelay, r.backoff).value)
  {
    AllFailLayoutFrom(r, work, 1);
    ExhaustsFrom(r, work, AsWritten, 1);
  }

  /** A zero or negative budget is not rejected: the run returns false
      without invoking the callable, notifying or waiting. */
  lemma NonPositiveBudgetReturnsFalse<K>(r: Retry<K>, v: Variant)
    requires r.attempts <= 0
    requires r.work.Some?
    ensures Begin(r, r.mode, v) == Ran(Run([], Returned(false)))
  {
  }

  /** An unnamed backoff value is not noticed until the first wait: the
      first failed attempt is notified, then `GetWaitTime` throws. */
  lemma UnnamedBackoffFailsAtFirstWait<K>(r: Retry<K>, work: Work<K>, v: Variant)
    requires r.backoff.Unnamed?
    requires r.attempts >= 1 && !SkipsWait(r, v, 1)
    requires !Decisive(r, work(1))
    ensures Loop(r, work, v, 1) == Run(FailedAttempt(1, work(1)), BackoffNotImplemented)
    ensures Count(Loop(r, work, v, 1).events, StartTag) == 1
  {
    CountFailedAttempt(1, work(1), StartTag);
  }

  // ---------------------------------------------------------------------
  // Swallowed exceptions

  /** The callable with the outcome of invocation `n` replaced by `o`. */
  function Replace<K>(work: Work<K>, n: nat, o: Outcome<K>): Work<K>
  {
    (i: nat) => if i == n then o else work(i)
  }

  /** The loop from attempt `a` on reads only the outcomes of invocations
      `a` to `attempts`. */
  lemma {:induction false} LoopReadsOnlyLaterOutcomes<K>(r: Retry<K>, w1: Work<K>, w2: Work<K>, v: Variant, a: nat)
    requires a >= 1
    requires forall i :: a <= i <= r.attempts ==> w1(i) == w2(i)
    ensures Loop(r, w1, v, a) == Loop(r, w2, v, a)
    ensures a <= r.attempts ==> AfterFailure(r, w1, v, a) == AfterFailure(r, w2, v, a)
    decreases r.attempts - a
  {
    if a <= r.attempts {
      LoopReadsOnlyLaterOutcomes(r, w1, w2, v, a + 1);
    }
  }

  /** `events` with `e` inserted right after the first `Start(n)`, and
      unchanged when there is none. */
  function InsertAfterStart<K>(events: seq<Event<K>>, n: int, e: Event<K>): (r: seq<Event<K>>)
    ensures Start(n) !in events ==> r == events
    ensures Start(n) in events ==> |r| == |events| + 1 && e in r
    decreases |events|
  {
    if |events| == 0 then []
    else if events[0] == Start(n) then [events[0], e] + events[1..]
    else [events[0]] + InsertAfterStart(events[1..], n, e)
  }

  lemma {:induction false} InsertAfterStartAppend<K>(p: seq<Event<K>>, ys: seq<Event<K>>, n: int, e: Event<K>)
    requires Start(n) !in p
    ensures InsertAfterStart(p + ys, n, e) == p + InsertAfterStart(ys, n, e)
    decreases |p|
  {
    if |p| > 0 {
      assert (p + ys)[0] == p[0];
      assert (p + ys)[1..] == p[1..] + ys;
      InsertAfterStartAppend(p[1..], ys, n, e);
      assert p == [p[0]] + p[1..];
    } else {
      assert p + ys == ys;
    }
  }

  /** `x` is `y` with `Ignored(kind)` inserted right after `Start(n)` when
      `y` reaches attempt `n`, and otherwise the same; so it has one
      `Ignored` notification more and is equal once those are dropped. */
  ghost predicate OneMoreIgnored<K>(x: Run<K>, y: Run<K>, n: int, kind: K)
  {
    && x.terminal == y.terminal
    && x.events == InsertAfterStart(y.events, n, Ignored(kind))
    && DropIgnored(x.events) == DropIgnored(y.events)
    && Count(x.events, IgnoredTag) == Count(y.events, IgnoredTag) + (if Start(n) in y.events then 1 else 0)
  }

  lemma OneMoreIgnoredPrepend<K>(p: seq<Event<K>>, x: Run<K>, y: Run<K>, n: int, kind: K)
    requires OneMoreIgnored(x, y, n, kind)
    requires Start(n) !in p
    ensures OneMoreIgnored(Prepend(p, x), Prepend(p, y), n, kind)
  {
    InsertAfterStartAppend(p, y.events, n, Ignored(kind));
    DropIgnoredAppend(p, x.events);
    DropIgnoredAppend(p, y.events);
    CountAppend(p, x.events, IgnoredTag);
    CountAppend(p, y.events, IgnoredTag);
    assert Start(n) in p + y.events <==> Start(n) in y.events;
  }

  /** At the attempt itself: the swallowed exception adds exactly its
      `Ignored` notification to what a `false` return produces. */
  lemma SwallowedAttempt<K>(n: int, kind: K, tail: Run<K>)
    ensures OneMoreIgnored(Prepend(FailedAttempt(n, Throw(kind)), tail), Prepend(FailedAttempt<K>(n, Fail), tail), n, kind)
  {
    var withIgnored: seq<Event<K>> := [Start(n), Ignored(kind), Failure(n)];
    var without: seq<Event<K>> := [Start(n), Failure(n)];
    assert FailedAttempt(n, Throw(kind)) == withIgnored;
    assert FailedAttempt<K>(n, Fail) == without;
    DropIgnoredAppend(withIgnored, tail.events);
    DropIgnoredAppend(without, tail.events);
    assert DropIgnored(withIgnored) == without by {
      assert withIgnored[1..] == [Ignored(kind), Failure(n)];
      assert withIgnored[1..][1..] == [Failure(n)];
      assert withIgnored[1..][1..][1..] == [];
    }
    assert DropIgnored(without) == without by {
      assert without[1..] == [Failure(n)];
      assert without[1..][1..] == [];
    }
    CountAppend(withIgnored, tail.events, IgnoredTag);
    CountAppend(without, tail.events, IgnoredTag);
    CountFailedAttempt(n, Throw(kind), IgnoredTag);
    CountFailedAttempt<K>(n, Fail, IgnoredTag);
    assert (without + tail.events)[0] == Start(n);
    assert (without + tail.events)[1..] == [Failure(n)] + tail.events;
    assert withIgnored + tail.events == [Start(n), Ignored(kind)] + ([Failure(n)] + tail.events);
  }

  lemma {:induction false} SwallowedLoopFrom<K>(r: Retry<K>, work: Work<K>, v: Variant, n: nat, kind: K, a: nat)
    requires 1 <= a <= n
    requires work(n) == Throw(kind) && !RethrowsKind(r, kind)
    ensures OneMoreIgnored(Loop(r, work, v, a), Loop(r, Replace(work, n, Fail), v, a), n, kind)
    decreases n - a, 1
  {
    var failing := Replace(work, n, Fail);
    if a > r.attempts {
    } else if a < n {
      var o := work(a);
      assert failing(a) == o;
      if Decisive(r, o) {
        assert Loop(r, work, v, a) == Loop(r, failing, v, a);
        CountSingle<K>(Start(a), IgnoredTag);
        assert Start(n) !in Loop(r, failing, v, a).events;
      } else {
        SwallowedAfterFailureFrom(r, work, v, n, kind, a);
        OneMoreIgnoredPrepend(FailedAttempt(a, o),
          AfterFailure(r, work, v, a), AfterFailure(r, failing, v, a), n, kind);
      }
    } else {
      LoopReadsOnlyLaterOutcomes(r, work, failing, v, a + 1);
      assert failing(a) == Fail;
      assert AfterFailure(r, failing, v, a) == AfterFailure(r, work, v, a);
      SwallowedAttempt(a, kind, AfterFailure(r, work, v, a));
    }
  }

  lemma {:induction false} SwallowedAfterFailureFrom<K>(r: Retry<K>, work: Work<K>, v: Variant, n: nat, kind: K, a: nat)
    requires 1 <= a < n && a <= r.attempts
    requires work(n) == Throw(kind) && !RethrowsKind(r, kind)
    ensures OneMoreIgnored(AfterFailure(r, work, v, a), AfterFailure(r, Replace(work, n, Fail), v, a), n, kind)
    decreases n - a, 0
  {
    var failing := Replace(work, n, Fail);
    if !SkipsWait(r, v, a) && WaitFor(r, v, a).Some? {
      SwallowedLoopFrom(r, work, v, n, kind, a + 1);
      OneMoreIgnoredPrepend([Wait(WaitFor(r, v, a).value)],
        Loop(r, work, v, a + 1), Loop(r, failing, v, a + 1), n, kind);
    } else if SkipsWait(r, v, a) {
      SwallowedLoopFrom(r, work, v, n, kind, a + 1);
    }
  }

  /** A swallowed exception counts as a failed attempt: replacing it by a
      plain `false` leaves the terminal result unchanged, and the events
      differ exactly by the `Ignored(kind)` notification, with the thrown
      kind, right after `Start(n)` when the run reaches that invocation.
      So dropping the notifications gives equal traces, and there is one
      notification more. */
  lemma SwallowedThrowActsAsFail<K>(r: Retry<K>, work: Work<K>, v: Variant, n: nat, kind: K)
    requires n >= 1
    requires work(n) == Throw(kind) && !RethrowsKind(r, kind)
    ensures var x := Loop(r, work, v, 1);
      var y := Loop(r, Replace(work, n, Fail), v, 1);
      && x.terminal == y.terminal
      && x.events == InsertAfterStart(y.events, n, Ignored(kind))
      && DropIgnored(x.events) == DropIgnored(y.events)
      && Count(x.events, IgnoredTag)
           == Count(y.events, IgnoredTag) + (if Start(n) in y.events then 1 else 0)
  {
    SwallowedLoopFrom(r, work, v, n, kind, 1);
  }

  // ---------------------------------------------------------------------
  // The two entry points and the two variants

  lemma {:induction false} LoopIgnoresMode<K>(r: Retry<K>, m: Mode, work: Work<K>, v: Variant, a: nat)
    requires a >= 1
    ensures Loop(r.(mode := m), work, v, a) == Loop(r, work, v, a)
    decreases r.attempts - a
  {
    if a <= r.attempts {
      LoopIgnoresMode(r, m, work, v, a + 1);
    }
  }

  /** `BeginASync` on an asynchronous instance runs exactly as `Begin` does
      on the synchronous instance with the same configuration and callable:
      the two entry points share one control flow. */
  lemma BeginASyncMirrorsBegin<K>(r: Retry<K>, v: Variant)
    requires r.mode == Sync
    ensures Begin(r.(mode := Async), Async, v) == Begin(r, Sync, v)
  {
    if r.work.Some? {
      LoopIgnoresMode(r, Async, r.work.value, v, 1);
    }
  }

  /** With Linear backoff, where both variants compute the same waits, a run
      that exhausts its budget differs between them only in the final wait,
      which the loop as written performs after its last failed attempt. */
  lemma CorrectedOmitsOnlyTheFinalWait<K>(r: Retry<K>, work: Work<K>)
    requires r.backoff == Linear
    requires r.attempts >= 1
    requires forall i :: 1 <= i <= r.attempts ==> !Decisive(r, work(i))
    ensures var x := Loop(r, work, AsWritten, 1);
      var y := Loop(r, work, Corrected, 1);
      && x.terminal == y.terminal
      && x.events == y.events + [Wait(r.initialDelay * r.attempts)]
  {
    LinearVariantsFrom(r, work, 1);
  }

  lemma {:induction false} LinearVariantsFrom<K>(r: Retry<K>, work: Work<K>, a: nat)
    requires r.backoff == Linear
    requires 1 <= a <= r.attempts
    requires forall i :: a <= i <= r.attempts ==> !Decisive(r, work(i))
    ensures Loop(r, work, AsWritten, a).events
      == Loop(r, work, Corrected, a).events + [Wait(r.initialDelay * r.attempts)]
    ensures Loop(r, work, AsWritten, a).terminal == Loop(r, work, Corrected, a).terminal
    decreases r.attempts - a
  {
    var o := work(a);
    if a < r.attempts {
      LinearVariantsFrom(r, work, a + 1);
      var x' := Loop(r, work, AsWritten, a + 1).events;
      var y' := Loop(r, work, Corrected, a + 1).events;
      var head := FailedAttempt(a, o) + [Wait(r.initialDelay * a)];
      assert Loop(r, work, AsWritten, a).events == head + x';
      assert Loop(r, work, Corrected, a).events == head + y';
      assert head + (y' + [Wait(r.initialDelay * r.attempts)]) == (head + y') + [Wait(r.initialDelay * r.attempts)];
    } else {
      assert Loop(r, work, Corrected, a + 1) == Run([], Returned(false));
      assert AfterFailure(r, work, Corrected, a) == Loop(r, work, Corrected, a + 1);
      assert AfterFailure(r, work, AsWritten, a) == Prepend([Wait(r.initialDelay * a)], Loop(r, work, AsWritten, a + 1));
      assert Loop(r, work, Corrected, a).events == FailedAttempt(a, o) + [];
    }
  }

  // ---------------------------------------------------------------------
  // The repository's own test

  /** The `Trivial` test: for every named backoff, an instance built with
      the default arguments around a callable that always returns true
      succeeds on the first invocation, and one around a callable that
      always returns false returns false after the default five attempts. */
  lemma TrivialTest<K>(backoff: Backoff, v: Variant)
    requires !backoff.Unnamed?
    ensures Begin(NewSync<K>(Some((i: nat) => Success), backoff := backoff), Sync, v)
      == Ran(Run([Start(1)], Returned(true)))
    ensures Begin(NewAsync<K>(Some((i: nat) => Success), backoff := backoff), Async, v)
      == Ran(Run([Start(1)], Returned(true)))
    ensures var s := Begin(NewSync<K>(Some((i: nat) => Fail), backoff := backoff), Sync, v);
      s.Ran? && s.run.terminal == Returned(false) && Count(s.run.events, StartTag) == 5
    ensures var s := Begin(NewAsync<K>(Some((i: nat) => Fail), backoff := backoff), Async, v);
      s.Ran? && s.run.terminal == Returned(false) && Count(s.run.events, StartTag) == 5
  {
    var failing: Work<K> := (i: nat) => Fail;
    ExhaustsBudget(NewSync<K>(Some(failing), backoff := backoff), failing, v);
    ExhaustsBudget(NewAsync<K>(Some(failing), backoff := backoff), failing, v);
  }
}
