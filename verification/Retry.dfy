/** The retry loop that both transports run under one time budget. */
module Retry {
  import opened Wrappers
  import opened Operations

  /** What one request came to. `errors` says whether the body is a JSON object with an `errors`
      member that counts as true. */
  datatype Outcome = Timeout | Response(status: nat, retryAfter: Option<string>, errors: bool) | Failure

  /** One attempt of the world: its outcome, how long it took, and the jitter drawn after it. */
  datatype Attempt = Attempt(outcome: Outcome, took: real, jitter: real)

  datatype Limits = Limits(timeoutMs: nat, budgetMs: Option<nat>)

  const MAX_ATTEMPTS := 3
  const BACKOFF_BASE := 0.1
  const RETRY_AFTER_CAP := 10.0

  function Seconds(ms: nat): real {
    ms as real / 1000.0
  }

  /** Section 15.6 of RFC 9110 gives 502, 503 and 504; section 4 of RFC 6585 gives 429. */
  predicate RetryableStatus(status: nat) {
    status == 502 || status == 503 || status == 504 || status == 429
  }

  predicate AsciiDigit(c: char) {
    '0' <= c <= '9'
  }

  /** `isdigit` on the characters of ISO 8859-1: the superscripts one to three count too. */
  predicate IsDigits(s: string) {
    s != "" && forall i :: 0 <= i < |s| ==> AsciiDigit(s[i]) || s[i] in "\U{00B9}\U{00B2}\U{00B3}"
  }

  /** `float` reads the ASCII digits only and raises on the others. */
  predicate Readable(s: string) {
    s != "" && forall i :: 0 <= i < |s| ==> AsciiDigit(s[i])
  }

  function DigitsValue(s: string): nat
    requires forall i :: 0 <= i < |s| ==> AsciiDigit(s[i])
  {
    if s == "" then 0
    else
      assert AsciiDigit(s[|s| - 1]);
      10 * DigitsValue(s[..|s| - 1]) + (s[|s| - 1] as int - '0' as int)
  }

  function Decimal(n: nat): (s: string)
    ensures s != ""
  {
    var last := [(n % 10) as char + '0'];
    if n < 10 then last else Decimal(n / 10) + last
  }

  /** A number written in decimal is read as that number. */
  lemma {:induction false} DecimalReads(n: nat)
    ensures Readable(Decimal(n)) && IsDigits(Decimal(n)) && DigitsValue(Decimal(n)) == n
  {
    var s := Decimal(n);
    if n >= 10 {
      DecimalReads(n / 10);
      assert s[..|s| - 1] == Decimal(n / 10);
    } else {
      assert s[..|s| - 1] == "";
    }
  }

  function Power2(n: nat): nat {
    if n == 0 then 1 else 2 * Power2(n - 1)
  }

  /** A rate limit whose Retry-After is looked at. */
  predicate Asks(outcome: Outcome) {
    outcome.Response? && outcome.status == 429 && outcome.retryAfter.Some? && IsDigits(outcome.retryAfter.value)
  }

  /** Such a header that `float` then refuses: computing the delay raises. */
  predicate Raises(outcome: Outcome) {
    Asks(outcome) && !Readable(outcome.retryAfter.value)
  }

  /** Seconds to wait after an attempt; `jitter` stands for a draw from the unit interval. */
  function RetryDelay(attempt: nat, outcome: Outcome, jitter: real): real {
    if Asks(outcome) && !Raises(outcome) then
      var asked := DigitsValue(outcome.retryAfter.value) as real;
      if asked < RETRY_AFTER_CAP then asked else RETRY_AFTER_CAP
    else jitter * (BACKOFF_BASE * Power2(attempt) as real)
  }

  /** Whether the wait and the attempt it buys fit into what is left of the budget. */
  predicate Fits(limits: Limits, elapsed: real, delay: real) {
    limits.budgetMs.Some? ==> delay + Seconds(limits.timeoutMs) <= Seconds(limits.budgetMs.value) - elapsed
  }

  predicate MayRetry(outcome: Outcome) {
    match outcome
    case Timeout => true
    case Response(status, _, _) => RetryableStatus(status)
    case Failure => false
  }

  function Attempts(effect: Effect): (n: nat)
    ensures 1 <= n <= MAX_ATTEMPTS
  {
    if effect.Action? then 1 else MAX_ATTEMPTS
  }

  /** How the loop ended: after which attempts, with which outcome, after how long, and whether the
      outcome's header made the wait raise. */
  datatype Ending = Ending(sent: nat, outcome: Outcome, elapsed: real, raised: bool)

  /** Every attempt ends within the timeout and jitter is drawn from the unit interval. */
  predicate Fair(limits: Limits, world: seq<Attempt>) {
    |world| >= MAX_ATTEMPTS &&
    forall i :: 0 <= i < |world| ==> 0.0 <= world[i].took <= Seconds(limits.timeoutMs) && 0.0 <= world[i].jitter <= 1.0
  }

  /** Attempt `k` ended in something that is retried if it can be. */
  predicate Wants(effect: Effect, world: seq<Attempt>, k: nat)
    requires k < |world|
  {
    MayRetry(world[k].outcome) && k + 1 < Attempts(effect)
  }

  predicate GoesOn(effect: Effect, limits: Limits, world: seq<Attempt>, k: nat, elapsed: real)
    requires k < |world|
  {
    && Wants(effect, world, k) && !Raises(world[k].outcome)
    && Fits(limits, elapsed, RetryDelay(k, world[k].outcome, world[k].jitter))
  }

  /** Time on the clock when attempt `k` has ended, all the ones before it having been retried. */
  function EndOf(world: seq<Attempt>, k: nat): real
    requires k < |world|
  {
    (if k == 0 then 0.0 else EndOf(world, k - 1) + RetryDelay(k - 1, world[k - 1].outcome, world[k - 1].jitter)) +
      world[k].took
  }

  /** Attempts `0..k` were all sent. */
  predicate Sends(effect: Effect, limits: Limits, world: seq<Attempt>, k: nat)
    requires k < |world|
  {
    k == 0 || (Sends(effect, limits, world, k - 1) && GoesOn(effect, limits, world, k - 1, EndOf(world, k - 1)))
  }

  class Clock {
    var now: real

    constructor (start: real)
      ensures now == start
    {
      now := start;
    }
  }

  /** None when reading the header raises. */
  method WaitForRetry(clock: Clock, started: real, attempt: nat, outcome: Outcome, jitter: real, limits: Limits)
    returns (go: Option<bool>)
    modifies clock
    ensures go.None? <==> Raises(outcome)
    ensures go.Some? ==> (go.value <==> Fits(limits, old(clock.now) - started, RetryDelay(attempt, outcome, jitter)))
    ensures clock.now == old(clock.now) + if go == Some(true) then RetryDelay(attempt, outcome, jitter) else 0.0
  {
    if Raises(outcome) { return None; }
    var delay := RetryDelay(attempt, outcome, jitter);
    if limits.budgetMs.Some? {
      var remaining := Seconds(limits.budgetMs.value) - (clock.now - started);
      if delay + Seconds(limits.timeoutMs) > remaining { return Some(false); }
    }
    clock.now := clock.now + delay;
    return Some(true);
  }

  /** The loop ends with attempt `k`. */
  predicate EndsAt(effect: Effect, limits: Limits, world: seq<Attempt>, k: nat)
    requires k < |world|
  {
    Sends(effect, limits, world, k) && !GoesOn(effect, limits, world, k, EndOf(world, k))
  }

  /** `r` tells how the loop ends: where, with what, after how long, and whether its header raised. */
  ghost predicate Ends(effect: Effect, limits: Limits, world: seq<Attempt>, r: Ending) {
    && 1 <= r.sent <= Attempts(effect) && r.sent <= |world| && r.outcome == world[r.sent - 1].outcome
    && EndsAt(effect, limits, world, r.sent - 1) && r.elapsed == EndOf(world, r.sent - 1)
    && (r.raised <==> Wants(effect, world, r.sent - 1) && Raises(r.outcome))
  }

  /** The loop that both transports contain. */
  method RunAttempts(clock: Clock, effect: Effect, limits: Limits, world: seq<Attempt>) returns (r: Ending)
    requires |world| >= MAX_ATTEMPTS
    modifies clock
    ensures Ends(effect, limits, world, r) && clock.now == old(clock.now) + r.elapsed
  {
    var attempts := if effect == ReadOnly || effect == IdempotentWrite then MAX_ATTEMPTS else 1;
    var started := clock.now;
    for attempt := 0 to attempts
      invariant attempt < attempts
      invariant Sends(effect, limits, world, attempt)
      invariant clock.now == started + EndOf(world, attempt) - world[attempt].took
    {
      var last := world[attempt].outcome;
      clock.now := clock.now + world[attempt].took;
      var ended := clock.now;
      match last {
        case Failure =>
          return Ending(attempt + 1, last, ended - started, false);
        case Timeout =>
          if attempt == attempts - 1 { return Ending(attempt + 1, last, ended - started, false); }
          var go := WaitForRetry(clock, started, attempt, last, world[attempt].jitter, limits);
          if go != Some(true) { return Ending(attempt + 1, last, ended - started, go.None?); }
        case Response(status, _, _) =>
          if !RetryableStatus(status) || attempt == attempts - 1 {
            return Ending(attempt + 1, last, ended - started, false);
          }
          var go := WaitForRetry(clock, started, attempt, last, world[attempt].jitter, limits);
          if go != Some(true) { return Ending(attempt + 1, last, ended - started, go.None?); }
      }
    }
    assert false;
  }

  /** What the caller gets: a status, or an exception. */
  datatype Answer = Answered(status: nat) | TimedOut | Failed | BadHeader

  function HttpAnswer(r: Ending): Answer {
    if r.raised then BadHeader
    else match r.outcome
      case Timeout => TimedOut
      case Failure => Failed
      case Response(status, _, _) => Answered(status)
  }

  /** The GraphQL transport reports errors under a 200 as 502. */
  function GraphQlAnswer(r: Ending): Answer {
    if HttpAnswer(r) == Answered(200) && r.outcome.errors then Answered(502) else HttpAnswer(r)
  }

  method ExecuteHttp(clock: Clock, effect: Effect, limits: Limits, world: seq<Attempt>)
    returns (answer: Answer, ghost r: Ending)
    requires |world| >= MAX_ATTEMPTS
    modifies clock
    ensures Ends(effect, limits, world, r) && answer == HttpAnswer(r) && clock.now == old(clock.now) + r.elapsed
  {
    var ending := RunAttempts(clock, effect, limits, world);
    r := ending;
    if ending.raised { return BadHeader, r; }
    match ending.outcome {
      case Timeout => answer := TimedOut;
      case Failure => answer := Failed;
      case Response(status, _, _) => answer := Answered(status);
    }
  }

  method ExecuteGraphQl(clock: Clock, effect: Effect, limits: Limits, world: seq<Attempt>)
    returns (answer: Answer, ghost r: Ending)
    requires |world| >= MAX_ATTEMPTS
    modifies clock
    ensures Ends(effect, limits, world, r) && answer == GraphQlAnswer(r) && clock.now == old(clock.now) + r.elapsed
  {
    var ending := RunAttempts(clock, effect, limits, world);
    r := ending;
    if ending.raised { return BadHeader, r; }
    match ending.outcome {
      case Timeout => answer := TimedOut;
      case Failure => answer := Failed;
      case Response(status, _, errors) =>
        answer := Answered(status);
        if status == 200 && errors { answer := Answered(502); }
    }
  }

  // ---- What every call keeps

  lemma DelayBounded(attempt: nat, outcome: Outcome, jitter: real)
    requires 0.0 <= jitter <= 1.0 && attempt < 2
    ensures 0.0 <= RetryDelay(attempt, outcome, jitter) <= RETRY_AFTER_CAP
  {
    assert Power2(0) == 1 && Power2(1) == 2;
    var backoff := BACKOFF_BASE * Power2(attempt) as real;
    assert 0.0 <= jitter * backoff <= backoff;
  }

  /** Retry-After is believed on a 429 only: a number of seconds is waited for, up to the cap; without
      one, and on every other status, the wait is the jittered backoff. */
  lemma RetryAfterOnlyOn429(attempt: nat, status: nat, header: Option<string>, errors: bool, jitter: real, n: nat)
    requires 0.0 <= jitter <= 1.0 && attempt < 2
    ensures var delay := RetryDelay(attempt, Response(status, header, errors), jitter);
      && (status != 429 || header.None? || !IsDigits(header.value) ==>
        delay == RetryDelay(attempt, Timeout, jitter) == jitter * (if attempt == 0 then 0.1 else 0.2))
      && (status == 429 && header == Some(Decimal(n)) ==> delay == if n < 10 then n as real else 10.0)
  {
    DecimalReads(n);
    assert Power2(0) == 1 && Power2(1) == 2;
    assert BACKOFF_BASE * Power2(attempt) as real == if attempt == 0 then 0.1 else 0.2;
  }

  /** Digits, of which `float` refuses one. */
  ghost predicate Unreadable(header: string) {
    && header != "" && (forall c :: c in header ==> c in "0123456789\U{00B9}\U{00B2}\U{00B3}")
    && exists c :: c in header && c in "\U{00B9}\U{00B2}\U{00B3}"
  }

  lemma UnreadableIs(header: string)
    ensures Unreadable(header) <==> IsDigits(header) && !Readable(header)
  {
    forall c: char ensures AsciiDigit(c) <==> c in "0123456789" { DigitCharacters(c); }
    if IsDigits(header) && !Readable(header) {
      var i :| 0 <= i < |header| && !AsciiDigit(header[i]);
      assert header[i] in header;
    }
    assert forall i :: 0 <= i < |header| ==> header[i] in header;
  }

  lemma DigitCharacters(c: char)
    ensures AsciiDigit(c) <==> c in "0123456789"
  {
    assert "0123456789"[0] == '0' && "0123456789"[1] == '1' && "0123456789"[2] == '2' && "0123456789"[3] == '3';
    assert "0123456789"[4] == '4' && "0123456789"[5] == '5' && "0123456789"[6] == '6' && "0123456789"[7] == '7';
    assert "0123456789"[8] == '8' && "0123456789"[9] == '9';
  }

  /** Another request follows attempt `k`: the operation may be repeated, two are not yet wasted, the
      attempt timed out or was answered with one of four statuses, the header can be read, and the wait
      and one more timeout fit into the budget. */
  ghost predicate Repeats(effect: Effect, limits: Limits, world: seq<Attempt>, k: nat)
    requires k < |world|
  {
    var outcome := world[k].outcome;
    && !effect.Action? && k < 2
    && (outcome.Timeout? || (outcome.Response? && outcome.status in {429, 502, 503, 504}))
    && !(outcome.Response? && outcome.status == 429 && outcome.retryAfter.Some? && Unreadable(outcome.retryAfter.value))
    && (limits.budgetMs.Some? ==>
          1000.0 * (EndOf(world, k) + RetryDelay(k, outcome, world[k].jitter)) + limits.timeoutMs as real
          <= limits.budgetMs.value as real)
  }

  lemma GoesOnIsRepeats(effect: Effect, limits: Limits, world: seq<Attempt>, k: nat)
    requires k < |world|
    ensures GoesOn(effect, limits, world, k, EndOf(world, k)) <==> Repeats(effect, limits, world, k)
  {
    var outcome := world[k].outcome;
    if outcome.Response? && outcome.retryAfter.Some? { UnreadableIs(outcome.retryAfter.value); }
  }

  lemma {:induction false} SentIsRepeated(effect: Effect, limits: Limits, world: seq<Attempt>, k: nat)
    requires k < |world|
    ensures Sends(effect, limits, world, k) <==> forall j :: 0 <= j < k ==> Repeats(effect, limits, world, j)
  {
    if k > 0 {
      SentIsRepeated(effect, limits, world, k - 1);
      GoesOnIsRepeats(effect, limits, world, k - 1);
    }
  }

  /** The call sends requests up to the first that is not repeated, and its caller learns that one's
      status, its timeout, its failure or that its header could not be read. */
  lemma CallTells(effect: Effect, limits: Limits, world: seq<Attempt>, r: Ending)
    requires Ends(effect, limits, world, r)
    ensures (forall j :: 0 <= j < r.sent - 1 ==> Repeats(effect, limits, world, j))
      && !Repeats(effect, limits, world, r.sent - 1)
    ensures var last := world[r.sent - 1].outcome;
      match HttpAnswer(r)
      case Answered(status) => last.Response? && last.status == status
      case TimedOut => last.Timeout?
      case Failed => last.Failure?
      case BadHeader => last.Response? && last.status == 429
    ensures GraphQlAnswer(r) != HttpAnswer(r) ==> HttpAnswer(r) == Answered(200) && GraphQlAnswer(r) == Answered(502)
  {
    SentIsRepeated(effect, limits, world, r.sent - 1);
    GoesOnIsRepeats(effect, limits, world, r.sent - 1);
  }

  /** A call ends in an exception over its header exactly when it ends at a 429 that would be retried
      and whose digits include one that `float` refuses. */
  lemma HeaderRaisesExactly(effect: Effect, limits: Limits, world: seq<Attempt>, r: Ending)
    requires Ends(effect, limits, world, r)
    ensures HttpAnswer(r) == BadHeader <==>
      r.sent < Attempts(effect) && Asks(r.outcome) && exists c :: c in r.outcome.retryAfter.value && !AsciiDigit(c)
  {
    if Raises(r.outcome) {
      var i :| 0 <= i < |r.outcome.retryAfter.value| && !AsciiDigit(r.outcome.retryAfter.value[i]);
      assert r.outcome.retryAfter.value[i] in r.outcome.retryAfter.value;
    }
  }

  /** A superscript two is such a header: the first attempt's answer is lost to the exception. */
  lemma SuperscriptRaises(world: seq<Attempt>, r: Ending)
    requires |world| == 3 && world[0] == Attempt(Response(429, Some("\U{00B2}"), false), 0.0, 0.0)
    requires r == Ending(1, world[0].outcome, 0.0, true)
    ensures Ends(ReadOnly, Limits(1000, None), world, r) && HttpAnswer(r) == BadHeader
  {
    var header := "\U{00B2}";
    assert IsDigits(header) && !AsciiDigit(header[0]);
  }

  /** With a budget the call ends within the budget or, when that is longer, within one timeout. */
  lemma {:induction false} BudgetHolds(effect: Effect, limits: Limits, world: seq<Attempt>, k: nat)
    requires Fair(limits, world) && limits.budgetMs.Some? && k < |world| && Sends(effect, limits, world, k)
    ensures EndOf(world, k) <= Seconds(limits.timeoutMs) || EndOf(world, k) <= Seconds(limits.budgetMs.value)
  {
    assert world[k].took <= Seconds(limits.timeoutMs);
    if k > 0 { assert GoesOn(effect, limits, world, k - 1, EndOf(world, k - 1)); }
  }

  /** Without one it is bounded by the attempts, the timeout and the cap on each wait. */
  lemma {:induction false} UnbudgetedHolds(effect: Effect, limits: Limits, world: seq<Attempt>, k: nat)
    requires Fair(limits, world) && k < Attempts(effect) && Sends(effect, limits, world, k)
    ensures EndOf(world, k) <= (k + 1) as real * Seconds(limits.timeoutMs) + k as real * RETRY_AFTER_CAP
  {
    assert world[k].took <= Seconds(limits.timeoutMs);
    if k > 0 {
      UnbudgetedHolds(effect, limits, world, k - 1);
      DelayBounded(k - 1, world[k - 1].outcome, world[k - 1].jitter);
    }
  }

  /** The ending of a call is determined: the first attempt that does not go on. */
  lemma EndingUnique(effect: Effect, limits: Limits, world: seq<Attempt>, j: nat, k: nat)
    requires j < |world| && k < |world| && EndsAt(effect, limits, world, j) && EndsAt(effect, limits, world, k)
    ensures j == k
  {
    if j < k { SendsEarlier(effect, limits, world, j, k); }
    if k < j { SendsEarlier(effect, limits, world, k, j); }
  }

  lemma {:induction false} SendsEarlier(effect: Effect, limits: Limits, world: seq<Attempt>, j: nat, k: nat)
    requires j < k < |world| && Sends(effect, limits, world, k)
    ensures Sends(effect, limits, world, j) && GoesOn(effect, limits, world, j, EndOf(world, j))
  {
    if j < k - 1 { SendsEarlier(effect, limits, world, j, k - 1); }
  }

  /** An action is sent once, whatever happens; nothing is retried after a settled answer. */
  lemma {:induction false} RetriesOnlyWhatMayBe(effect: Effect, limits: Limits, world: seq<Attempt>, k: nat)
    requires k < |world| && Sends(effect, limits, world, k)
    ensures k < Attempts(effect) && (effect.Action? ==> k == 0)
    ensures forall j :: 0 <= j < k ==> MayRetry(world[j].outcome)
  {
    if k > 0 { RetriesOnlyWhatMayBe(effect, limits, world, k - 1); }
  }

  /** A budget below the timeout does not stop the first attempt from overrunning it. */
  lemma BudgetCanBeOverrun(world: seq<Attempt>)
    requires world == [Attempt(Timeout, 1.0, 0.0), Attempt(Timeout, 1.0, 0.0), Attempt(Timeout, 1.0, 0.0)]
    ensures var limits := Limits(1000, Some(500));
      Fair(limits, world) && EndsAt(ReadOnly, limits, world, 0) && EndOf(world, 0) > Seconds(500)
  {}

  ghost predicate BudgetBounds(limits: Limits)
    requires limits.budgetMs.Some?
  {
    forall effect, world, k: nat | Fair(limits, world) && k < |world| && Sends(effect, limits, world, k) ::
      EndOf(world, k) <= Seconds(limits.budgetMs.value)
  }

  /** The budget bounds every call exactly when it is no smaller than the timeout. */
  lemma BudgetBoundsExactly(limits: Limits)
    requires limits.budgetMs.Some?
    ensures BudgetBounds(limits) <==> limits.timeoutMs <= limits.budgetMs.value
  {
    if limits.timeoutMs <= limits.budgetMs.value {
      forall effect, world, k: nat | Fair(limits, world) && k < |world| && Sends(effect, limits, world, k)
        ensures EndOf(world, k) <= Seconds(limits.budgetMs.value)
      {
        BudgetHolds(effect, limits, world, k);
      }
    } else {
      var slow := Attempt(Timeout, Seconds(limits.timeoutMs), 0.0);
      var world := [slow, slow, slow];
      assert Seconds(limits.timeoutMs) > Seconds(limits.budgetMs.value);
      assert Fair(limits, world) && Sends(ReadOnly, limits, world, 0);
      assert EndOf(world, 0) == Seconds(limits.timeoutMs);
    }
  }

  /** A loaded configuration without a budget gets three timeouts. */
  function Loaded(limits: Limits): Limits {
    if limits.budgetMs.None? then limits.(budgetMs := Some(3 * limits.timeoutMs)) else limits
  }

  /** So a call under the default budget ends within three timeouts. */
  lemma DefaultBudgetHolds(effect: Effect, limits: Limits, world: seq<Attempt>, k: nat)
    requires Fair(limits, world) && limits.budgetMs.None? && k < |world| && Sends(effect, Loaded(limits), world, k)
    ensures EndOf(world, k) <= 3.0 * Seconds(limits.timeoutMs)
  {
    BudgetHolds(effect, Loaded(limits), world, k);
  }

  // ---- Errors that the GraphQL transport reports as 502

  /** When attempt `k` answers 200 with errors, the call ends there, after exactly `k + 1` requests, and
      reports a 502, a status that an upstream's own answer would be retried on. */
  lemma GraphQlErrorsEndTheCall(effect: Effect, limits: Limits, world: seq<Attempt>, k: nat, r: Ending)
    requires k < |world| && Sends(effect, limits, world, k)
    requires world[k].outcome.Response? && world[k].outcome.status == 200 && world[k].outcome.errors
    requires Ends(effect, limits, world, r)
    ensures r.sent == k + 1 && GraphQlAnswer(r) == Answered(502) && HttpAnswer(r) == Answered(200)
  {
    EndingUnique(effect, limits, world, k, r.sent - 1);
  }

  /** The converse: a call that may be repeated and has no budget reports a 502 before its last
      attempt exactly when that attempt answered 200 with errors. */
  lemma EarlyBadGatewayExactly(effect: Effect, limits: Limits, world: seq<Attempt>, r: Ending)
    requires Ends(effect, limits, world, r) && r.sent < Attempts(effect) && limits.budgetMs.None?
    ensures GraphQlAnswer(r) == Answered(502) <==> r.outcome.Response? && r.outcome.status == 200 && r.outcome.errors
  {}
}
