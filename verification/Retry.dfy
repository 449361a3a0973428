/**
 The SDK's retry middleware against an adversarial server, and its exponential backoff in int64
 nanoseconds.
 */
module Retry {
  import opened Wrappers

  datatype Policy = Policy(
    maxRetries: int,
    baseDelay: int,
    maxDelay: int,
    retryableStatuses: Option<seq<int>>,
    respectRetryAfter: bool)

  // ---------------------------------------------------------------- backoff

  const TWO62: int := 0x4000_0000_0000_0000
  const TWO63: int := 0x8000_0000_0000_0000
  const TWO64: int := 0x1_0000_0000_0000_0000
  const DEFAULT_BASE_NS: int := 200_000_000

  /** The int64 that Go keeps of a product. */
  function Wrap64(x: int): (w: int)
    ensures -TWO63 <= w < TWO63
    ensures (w == x) <==> -TWO63 <= x < TWO63
  {
    (x + TWO63) % TWO64 - TWO63
  }

  function Pow2(n: nat): (p: nat)
    ensures p >= 1
  {
    if n == 0 then 1 else 2 * Pow2(n - 1)
  }

  function Base(p: Policy): (b: int)
    ensures b > 0
  {
    if p.baseDelay <= 0 then DEFAULT_BASE_NS else p.baseDelay
  }

  /** The delay the documentation promises: base * 2^attempt, capped when there is a cap. */
  function PromisedDelay(p: Policy, attempt: nat): int {
    var d := Base(p) * Pow2(attempt);
    if p.maxDelay > 0 then Min(d, p.maxDelay) else d
  }

  /** The same product by repeated doubling, which is how the loop reaches it. */
  function Doubled(d: int, n: nat): int {
    if n == 0 then d else 2 * Doubled(d, n - 1)
  }

  lemma {:induction false} DoubledIsExponential(d: int, n: nat)
    ensures Doubled(d, n) == d * Pow2(n)
  {
    if n > 0 {
      DoubledIsExponential(d, n - 1);
    }
  }

  lemma {:induction false} DoubledGrows(d: int, i: nat, j: nat)
    requires d > 0 && i <= j
    ensures 0 < Doubled(d, i) <= Doubled(d, j)
    decreases j
  {
    if i < j {
      DoubledGrows(d, i, j - 1);
    } else if j > 0 {
      DoubledGrows(d, j - 1, j - 1);
    }
  }

  lemma {:induction false} DoubledExceeds(d: int, n: nat)
    requires d > 0
    ensures Doubled(d, n) > n
  {
    if n > 0 {
      DoubledExceeds(d, n - 1);
    }
  }

  /** A later retry never waits less. */
  lemma DelayGrows(p: Policy, i: nat, j: nat)
    requires i <= j
    ensures PromisedDelay(p, i) <= PromisedDelay(p, j)
  {
    DoubledGrows(Base(p), i, j);
    DoubledIsExponential(Base(p), i);
    DoubledIsExponential(Base(p), j);
  }

  /** What the loop makes of `d` with `left` doublings to go. */
  function LoopDelay(p: Policy, d: int, left: nat): int
    decreases left
  {
    if left == 0 then
      if p.maxDelay > 0 && d > p.maxDelay then p.maxDelay else d
    else
      var doubled := Wrap64(d * 2);
      if p.maxDelay > 0 && doubled >= p.maxDelay then p.maxDelay else LoopDelay(p, doubled, left - 1)
  }

  function Delay(p: Policy, attempt: nat): int {
    LoopDelay(p, Base(p), attempt)
  }

  method Backoff(p: Policy, attempt: nat) returns (delay: int)
    ensures delay == Delay(p, attempt)
    ensures p.maxDelay > 0 ==> delay <= p.maxDelay
    ensures p.baseDelay < TWO63 && NeverWraps(p, attempt) ==> delay == PromisedDelay(p, attempt)
  {
    if p.baseDelay < TWO63 && NeverWraps(p, attempt) {
      DelayIsPromised(p, attempt);
    }
    var d := Base(p);
    var i := 0;
    while i < attempt
      invariant 0 <= i <= attempt
      invariant LoopDelay(p, d, attempt - i) == Delay(p, attempt)
    {
      d := Wrap64(d * 2);
      if p.maxDelay > 0 && d >= p.maxDelay {
        return p.maxDelay;
      }
      i := i + 1;
    }
    if p.maxDelay > 0 && d > p.maxDelay {
      return p.maxDelay;
    }
    return d;
  }

  /** Some doubling lands on or past the cap while it still fits in an int64. */
  ghost predicate MeetsCap(p: Policy, attempt: nat) {
    p.maxDelay > 0 && exists i: nat :: 1 <= i <= attempt && p.maxDelay <= Doubled(Base(p), i) < TWO63
  }

  /** The doublings up to `attempt` end before they wrap around: at the last one, or at the cap. */
  ghost predicate NeverWraps(p: Policy, attempt: nat) {
    Doubled(Base(p), attempt) < TWO63 || MeetsCap(p, attempt)
  }

  /** In closed form: base * 2^attempt fits, or some base * 2^i on the way lies between the cap and 2^63. */
  lemma NeverWrapsInClosedForm(p: Policy, attempt: nat)
    ensures NeverWraps(p, attempt)
       <==> || Base(p) * Pow2(attempt) < TWO63
            || (p.maxDelay > 0 && exists i: nat ::
                  1 <= i <= attempt && p.maxDelay <= Base(p) * Pow2(i) < TWO63)
  {
    DoubledIsExponential(Base(p), attempt);
    if i: nat :| 1 <= i <= attempt && p.maxDelay > 0 && p.maxDelay <= Base(p) * Pow2(i) < TWO63 {
      DoubledIsExponential(Base(p), i);
    }
    if MeetsCap(p, attempt) {
      var i: nat :| 1 <= i <= attempt && p.maxDelay <= Doubled(Base(p), i) < TWO63;
      DoubledIsExponential(Base(p), i);
    }
  }

  /** Doublings that have neither wrapped nor reached the cap leave the loop at the plain product. */
  lemma {:induction false} LoopSteps(p: Policy, i: nat, attempt: nat)
    requires i <= attempt && Doubled(Base(p), i) < TWO63
    requires p.maxDelay > 0 ==> forall j: nat :: 1 <= j <= i ==> Doubled(Base(p), j) < p.maxDelay
    ensures Delay(p, attempt) == LoopDelay(p, Doubled(Base(p), i), attempt - i)
  {
    if i > 0 {
      DoubledGrows(Base(p), i - 1, i);
      DoubledGrows(Base(p), i, i);
      LoopSteps(p, i - 1, attempt);
    }
  }

  /** The first doubling with a property; below it none has it. */
  lemma {:induction false} FirstFrom(f: nat -> bool, n: nat) returns (k: nat)
    requires f(n)
    ensures k <= n && f(k) && forall j: nat :: j < k ==> !f(j)
  {
    if j: nat :| j < n && f(j) {
      k := FirstFrom(f, j);
    } else {
      k := n;
    }
  }

  lemma DelayIsPromised(p: Policy, attempt: nat)
    requires Base(p) < TWO63 && NeverWraps(p, attempt)
    ensures Delay(p, attempt) == PromisedDelay(p, attempt)
  {
    DoubledIsExponential(Base(p), attempt);
    if MeetsCap(p, attempt) {
      var n: nat :| 1 <= n <= attempt && p.maxDelay <= Doubled(Base(p), n) < TWO63;
      var reaches := (i: nat) => i >= 1 && p.maxDelay <= Doubled(Base(p), i);
      var k := FirstFrom(reaches, n);
      forall j: nat | 1 <= j <= k - 1 ensures Doubled(Base(p), j) < p.maxDelay {
        assert !reaches(j);
      }
      DoubledGrows(Base(p), k, n);
      DoubledGrows(Base(p), k - 1, k);
      DoubledGrows(Base(p), k, attempt);
      LoopSteps(p, k - 1, attempt);
    } else {
      forall j: nat | 1 <= j <= attempt && p.maxDelay > 0 ensures Doubled(Base(p), j) < p.maxDelay {
        DoubledGrows(Base(p), j, attempt);
      }
      LoopSteps(p, attempt, attempt);
    }
  }

  /** The doubling that wraps comes out negative, which is no delay anyone was promised. */
  lemma FirstWrapIsNegative(p: Policy, attempt: nat) returns (k: nat)
    requires Base(p) < TWO63 && !NeverWraps(p, attempt)
    ensures k <= attempt && Delay(p, k) < 0
  {
    var wraps := (i: nat) => Doubled(Base(p), i) >= TWO63;
    k := FirstFrom(wraps, attempt);
    assert k >= 1 && !wraps(k - 1);
    forall j: nat | 1 <= j <= k - 1 && p.maxDelay > 0 ensures Doubled(Base(p), j) < p.maxDelay {
      DoubledGrows(Base(p), j, k - 1);
      assert Doubled(Base(p), j) < TWO63;
    }
    LoopSteps(p, k - 1, k);
    DoubledGrows(Base(p), k - 1, k - 1);
    var d := Doubled(Base(p), k - 1);
    assert Wrap64(d * 2) == d * 2 - TWO64;
    assert LoopDelay(p, d * 2 - TWO64, 0) == d * 2 - TWO64;
  }

  /**
   Exactly when the documented delay is what every retry up to `attempt` waits for: when the doublings
   end, at the last one or at the cap, before they wrap around.
   */
  lemma BackoffIsPromisedIff(p: Policy, attempt: nat)
    requires Base(p) < TWO63
    ensures (forall i: nat :: i <= attempt ==> Delay(p, i) == PromisedDelay(p, i)) <==> NeverWraps(p, attempt)
  {
    if NeverWraps(p, attempt) {
      forall i: nat | i <= attempt ensures Delay(p, i) == PromisedDelay(p, i) {
        ShorterNeverWraps(p, i, attempt);
        DelayIsPromised(p, i);
      }
    } else {
      var k := FirstWrapIsNegative(p, attempt);
      DoubledIsExponential(Base(p), k);
      DoubledGrows(Base(p), k, k);
    }
  }

  /** And for every retry there could be: when there is a cap and the doublings meet it in time. */
  lemma BackoffIsAlwaysPromisedIff(p: Policy)
    requires Base(p) < TWO63
    ensures (forall i: nat :: Delay(p, i) == PromisedDelay(p, i)) <==> exists n: nat :: MeetsCap(p, n)
  {
    if n: nat :| MeetsCap(p, n) {
      forall i: nat ensures Delay(p, i) == PromisedDelay(p, i) {
        var last := if i < n then n else i;
        assert MeetsCap(p, last);
        BackoffIsPromisedIff(p, last);
      }
    } else {
      DoubledExceeds(Base(p), TWO63);
      BackoffIsPromisedIff(p, TWO63);
      assert !MeetsCap(p, TWO63);
    }
  }

  lemma ShorterNeverWraps(p: Policy, i: nat, attempt: nat)
    requires NeverWraps(p, attempt) && i <= attempt
    ensures NeverWraps(p, i)
  {
    if MeetsCap(p, attempt) {
      var n: nat :| 1 <= n <= attempt && p.maxDelay <= Doubled(Base(p), n) < TWO63;
      DoubledGrows(Base(p), i, if i < n then n else i);
    } else {
      DoubledGrows(Base(p), i, attempt);
    }
  }

  /** With the base below 2^62 ns and a cap of at most 2^62 ns, no attempt count can wrap. */
  lemma {:induction false} SmallCapNeverWraps(p: Policy, attempt: nat)
    requires Base(p) < TWO62 && 0 < p.maxDelay <= TWO62
    ensures NeverWraps(p, attempt)
  {
    if attempt > 0 {
      SmallCapNeverWraps(p, attempt - 1);
      if MeetsCap(p, attempt - 1) {
        var n: nat :| 1 <= n <= attempt - 1 && p.maxDelay <= Doubled(Base(p), n) < TWO63;
        assert 1 <= n <= attempt;
      } else if attempt > 1 {
        assert Doubled(Base(p), attempt - 1) < p.maxDelay;
      }
    }
  }

  // ---------------------------------------------------------------- the retry loop

  type Bytes = seq<int>

  /** One round trip as the network plays it. */
  datatype Outcome =
    | Failed(contextDone: bool)
    | Replied(status: int, retryAfter: Option<int>)
    | NoReply

  /** What the environment does around one attempt; `acted` is whether the server took effect. */
  datatype Trip = Trip(outcome: Outcome, acted: bool, rewindFails: bool, cancelledInWait: bool)

  type Server = nat -> Trip

  datatype Ending = Returned(outcome: Outcome) | RewindError | ContextDone

  const IDEMPOTENT := {"GET", "HEAD", "OPTIONS", "PUT", "DELETE"}
  const BACKPRESSURE := {429, 503}
  const DEFAULT_STATUSES := [429, 500, 502, 503, 504]

  predicate RetryableStatus(p: Policy, status: int) {
    match p.retryableStatuses
    case None => status in DEFAULT_STATUSES
    case Some(statuses) => status in statuses
  }

  predicate RetryableForMethod(verb: string, status: int) {
    verb in IDEMPOTENT || status in BACKPRESSURE
  }

  predicate Retryable(p: Policy, verb: string, outcome: Outcome) {
    match outcome
    case Failed(contextDone) => !contextDone && verb in IDEMPOTENT
    case Replied(status, _) => RetryableStatus(p, status) && RetryableForMethod(verb, status)
    case NoReply => false
  }

  /** The attempt is followed by another one. */
  predicate GoesOn(p: Policy, verb: string, trip: Trip, attempt: nat) {
    Retryable(p, verb, trip.outcome) && attempt < p.maxRetries && !trip.cancelledInWait
  }

  /** `n` attempts were made: every one but the last was followed by another. */
  ghost predicate Transcript(p: Policy, verb: string, server: Server, n: nat) {
    forall i: nat :: i + 1 < n ==> GoesOn(p, verb, server(i), i)
  }

  /** How the middleware may come back after `n` attempts. */
  ghost predicate EndsWith(p: Policy, verb: string, rewindable: bool, server: Server, n: nat, ending: Ending) {
    match ending
    case RewindError =>
      && rewindable && server(n).rewindFails
      && (n > 0 ==> GoesOn(p, verb, server(n - 1), n - 1))
    case ContextDone =>
      && n > 0 && Retryable(p, verb, server(n - 1).outcome)
      && n - 1 < p.maxRetries && server(n - 1).cancelledInWait
    case Returned(outcome) =>
      && n > 0 && outcome == server(n - 1).outcome
      && (!Retryable(p, verb, outcome) || n - 1 >= p.maxRetries)
  }

  /** A whole call: so many attempts, no rewind failing on the way, and that ending. */
  ghost predicate Finishes(p: Policy, verb: string, rewindable: bool, server: Server, n: nat, ending: Ending) {
    && n <= Max(0, p.maxRetries) + 1
    && Transcript(p, verb, server, n)
    && (rewindable ==> forall i: nat :: i < n ==> !server(i).rewindFails)
    && EndsWith(p, verb, rewindable, server, n, ending)
  }

  /** Nothing shortens the backoff, and a longer Retry-After replaces it. */
  function Wait(p: Policy, outcome: Outcome, attempt: nat): int {
    if p.respectRetryAfter && outcome.Replied? && outcome.retryAfter.Some?
    then Max(Delay(p, attempt), outcome.retryAfter.value)
    else Delay(p, attempt)
  }

  /** What an attempt sends: the transport spends a stream that cannot be rewound. */
  function Carried(body: Bytes, rewindable: bool, attempt: nat): Bytes {
    if rewindable || attempt == 0 then body else []
  }

  method RoundTrip(p: Policy, verb: string, body: Bytes, rewindable: bool, server: Server)
    returns (ending: Ending, sent: seq<Bytes>, waits: seq<int>)
    ensures Finishes(p, verb, rewindable, server, |sent|, ending)
    ensures verb !in IDEMPOTENT && BackpressureDeclines(server) ==> Effects(server, |sent|) <= 1
    ensures forall i: nat :: i < |sent| ==> sent[i] == Carried(body, rewindable, i)
    ensures |waits| == if ending.Returned? then |sent| - 1 else |sent|
    ensures forall i: nat :: i < |waits| ==> waits[i] == Wait(p, server(i).outcome, i)
  {
    var attempt := 0;
    var stream := body;
    sent, waits := [], [];
    while true
      invariant attempt == |sent| == |waits| <= Max(0, p.maxRetries)
      invariant forall i: nat :: i < attempt ==> GoesOn(p, verb, server(i), i)
      invariant forall i: nat :: rewindable && i < attempt ==> !server(i).rewindFails
      invariant forall i: nat :: i < attempt ==> sent[i] == Carried(body, rewindable, i)
      invariant stream == Carried(body, rewindable, attempt)
      invariant forall i: nat :: i < attempt ==> waits[i] == Wait(p, server(i).outcome, i)
      decreases Max(0, p.maxRetries) - attempt
    {
      var trip := server(attempt);
      AtMostOnce(p, verb, server, attempt);
      AtMostOnce(p, verb, server, attempt + 1);
      if rewindable {
        if trip.rewindFails {
          return RewindError, sent, waits;
        }
        stream := body;
      }
      sent := sent + [stream];
      // The transport closes the request body it was given; a shared stream is spent after it.
      stream := if rewindable then body else [];

      var retryable := Retryable(p, verb, trip.outcome);
      if !retryable || attempt >= p.maxRetries {
        return Returned(trip.outcome), sent, waits;
      }

      var delay := Backoff(p, attempt);
      if trip.outcome.Replied? && p.respectRetryAfter {
        if trip.outcome.retryAfter.Some? && trip.outcome.retryAfter.value > delay {
          delay := trip.outcome.retryAfter.value;
        }
      }
      waits := waits + [delay];
      if trip.cancelledInWait {
        return ContextDone, sent, waits;
      }
      attempt := attempt + 1;
    }
  }

  // ---------------------------------------------------------------- at most once

  /** How often the server took effect over the first `n` attempts. */
  ghost function Effects(server: Server, n: nat): nat {
    if n == 0 then 0 else Effects(server, n - 1) + if server(n - 1).acted then 1 else 0
  }

  /** The one thing assumed of the server: a 429 or 503 means it declined before acting. */
  ghost predicate BackpressureDeclines(server: Server) {
    forall i: nat :: server(i).outcome.Replied? && server(i).outcome.status in BACKPRESSURE ==> !server(i).acted
  }

  lemma {:induction false} OnlyDeclinedAttemptsRepeat(p: Policy, verb: string, server: Server, n: nat)
    requires verb !in IDEMPOTENT && BackpressureDeclines(server)
    requires forall i: nat :: i < n ==> GoesOn(p, verb, server(i), i)
    ensures Effects(server, n) == 0
  {
    if n > 0 {
      OnlyDeclinedAttemptsRepeat(p, verb, server, n - 1);
      assert GoesOn(p, verb, server(n - 1), n - 1);
    }
  }

  /** A send takes effect at most once, whatever the policy and whatever the server answers. */
  lemma AtMostOnce(p: Policy, verb: string, server: Server, n: nat)
    requires Transcript(p, verb, server, n)
    ensures verb !in IDEMPOTENT && BackpressureDeclines(server) ==> Effects(server, n) <= 1
  {
    if n > 0 && verb !in IDEMPOTENT && BackpressureDeclines(server) {
      OnlyDeclinedAttemptsRepeat(p, verb, server, n - 1);
    }
  }

  // ---------------------------------------------------------------- what is retried, and how long it waits

  /** The statuses the policy lists, or those of an unset policy. */
  function Listed(p: Policy): set<int> {
    match p.retryableStatuses
    case None => {429, 500, 502, 503, 504}
    case Some(statuses) => set s | s in statuses
  }

  /** A call that comes back with an answer it could have retried has spent all its attempts. */
  lemma GivesUpOnlyWhenSpent(
    p: Policy, verb: string, rewindable: bool, server: Server, n: nat, outcome: Outcome)
    requires Finishes(p, verb, rewindable, server, n, Returned(outcome))
    ensures verb in {"GET", "HEAD", "OPTIONS", "PUT", "DELETE"} && outcome.Replied? && outcome.status in Listed(p)
            ==> n == (if p.maxRetries > 0 then p.maxRetries else 0) + 1
    ensures verb in {"GET", "HEAD", "OPTIONS", "PUT", "DELETE"} && outcome == Failed(false)
            ==> n == (if p.maxRetries > 0 then p.maxRetries else 0) + 1
    ensures outcome.Replied? && outcome.status in {429, 503} && outcome.status in Listed(p)
            ==> n == (if p.maxRetries > 0 then p.maxRetries else 0) + 1
    ensures n > 0 && outcome == server(n - 1).outcome
  {
  }

  /** What every attempt that is followed by another one met with. */
  lemma RetriedOnlyAfter(p: Policy, verb: string, rewindable: bool, server: Server, n: nat, ending: Ending, i: nat)
    requires Finishes(p, verb, rewindable, server, n, ending) && i + 1 < n
    ensures server(i).outcome.Replied? || server(i).outcome == Failed(false)
    ensures server(i).outcome.Replied? ==> server(i).outcome.status in Listed(p)
    ensures verb !in {"GET", "HEAD", "OPTIONS", "PUT", "DELETE"} ==>
              server(i).outcome.Replied? && server(i).outcome.status in {429, 503}
    ensures i < p.maxRetries && !server(i).cancelledInWait
  {
    assert GoesOn(p, verb, server(i), i);
  }

  /** The two other endings: a body that cannot be had again, or a caller who stopped waiting for the next attempt. */
  lemma StopsEarlyOnlyWhen(p: Policy, verb: string, rewindable: bool, server: Server, n: nat, ending: Ending)
    requires Finishes(p, verb, rewindable, server, n, ending) && !ending.Returned?
    ensures ending.RewindError? ==> rewindable && server(n).rewindFails
    ensures ending.ContextDone? ==> n > 0 && server(n - 1).cancelledInWait && n <= p.maxRetries
  {
  }

  /** The first delay is the base, 200 ms for none, and never more than a cap. */
  lemma FirstDelay(p: Policy)
    ensures p.baseDelay > 0 && (p.maxDelay <= 0 || p.baseDelay <= p.maxDelay) ==> Delay(p, 0) == p.baseDelay
    ensures p.baseDelay > 0 && 0 < p.maxDelay < p.baseDelay ==> Delay(p, 0) == p.maxDelay
    ensures p.baseDelay <= 0 && (p.maxDelay <= 0 || p.maxDelay >= 200_000_000) ==> Delay(p, 0) == 200_000_000
    ensures p.baseDelay <= 0 && 0 < p.maxDelay < 200_000_000 ==> Delay(p, 0) == p.maxDelay
  {
  }

  /** A longer Retry-After on any answer is the wait, when the policy honours it; nothing else is. */
  lemma RetryAfterIsHonoured(p: Policy, status: int, asked: int, attempt: nat)
    ensures p.respectRetryAfter && asked > Delay(p, attempt) ==> Wait(p, Replied(status, Some(asked)), attempt) == asked
    ensures !p.respectRetryAfter || asked <= Delay(p, attempt) ==>
              Wait(p, Replied(status, Some(asked)), attempt) == Delay(p, attempt)
    ensures Wait(p, Replied(status, None), attempt) == Delay(p, attempt) == Wait(p, Failed(false), attempt)
  {
  }

  // ---------------------------------------------------------------- when a request is sent twice

  /** Some answer makes the middleware send the request again. */
  predicate MayRepeat(p: Policy, verb: string) {
    p.maxRetries > 0 && (verb in IDEMPOTENT || RetryableStatus(p, 429) || RetryableStatus(p, 503))
  }

  /** Without such an answer no call makes a second attempt. */
  lemma NeverRepeats(p: Policy, verb: string, server: Server, n: nat)
    requires Transcript(p, verb, server, n) && n > 1
    ensures MayRepeat(p, verb)
  {
    assert GoesOn(p, verb, server(0), 0);
  }

  /** The answer that brings a second attempt: a dropped connection, or a status the policy retries. */
  function RepeatingAnswer(p: Policy, verb: string): Outcome {
    if verb in IDEMPOTENT then Failed(false)
    else if RetryableStatus(p, 429) then Replied(429, None)
    else Replied(503, None)
  }

  function TwiceActing(p: Policy, verb: string): Server {
    i => Trip(if i == 0 then RepeatingAnswer(p, verb) else NoReply, true, false, false)
  }

  /** Where a second attempt is possible, a server that acts on both attempts makes it happen. */
  lemma SecondAttemptHappens(p: Policy, verb: string, rewindable: bool)
    requires MayRepeat(p, verb)
    ensures Finishes(p, verb, rewindable, TwiceActing(p, verb), 2, Returned(NoReply))
    ensures Effects(TwiceActing(p, verb), 2) == 2
    ensures verb in IDEMPOTENT ==> BackpressureDeclines(TwiceActing(p, verb))
  {
    var server := TwiceActing(p, verb);
    assert GoesOn(p, verb, server(0), 0);
    assert Effects(server, 1) == 1;
  }

  /** With nothing assumed of the server, no request takes effect twice exactly when none can be repeated. */
  lemma AtMostOnceUnconditionallyIff(p: Policy, verb: string, rewindable: bool)
    ensures (forall server, n, ending :: Finishes(p, verb, rewindable, server, n, ending) ==> Effects(server, n) <= 1)
       <==> !MayRepeat(p, verb)
  {
    if MayRepeat(p, verb) {
      SecondAttemptHappens(p, verb, rewindable);
    } else {
      forall server, n, ending | Finishes(p, verb, rewindable, server, n, ending) ensures Effects(server, n) <= 1 {
        if n > 1 { NeverRepeats(p, verb, server, n); }
        if n == 1 { assert Effects(server, 0) == 0; }
      }
    }
  }

  /** With 429 and 503 meaning "not acted on", exactly the non-idempotent requests, and those never retried. */
  lemma AtMostOnceIff(p: Policy, verb: string, rewindable: bool)
    ensures (forall server, n, ending ::
               Finishes(p, verb, rewindable, server, n, ending) && BackpressureDeclines(server)
               ==> Effects(server, n) <= 1)
       <==> verb !in IDEMPOTENT || p.maxRetries <= 0
  {
    if verb in IDEMPOTENT && p.maxRetries > 0 {
      SecondAttemptHappens(p, verb, rewindable);
    } else {
      forall server, n, ending | Finishes(p, verb, rewindable, server, n, ending) && BackpressureDeclines(server)
        ensures Effects(server, n) <= 1
      {
        AtMostOnce(p, verb, server, n);
        if n > 1 { NeverRepeats(p, verb, server, n); }
        if n == 1 { assert Effects(server, 0) == 0; }
      }
    }
  }

  /**
   Every attempt of every call carries the caller's bytes exactly when the body can be rewound, is
   empty, or cannot be asked for twice.
   */
  lemma SameBodyEveryAttempt(p: Policy, verb: string, body: Bytes, rewindable: bool)
    ensures (forall server, n, ending, i: nat ::
               Finishes(p, verb, rewindable, server, n, ending) && i < n ==> Carried(body, rewindable, i) == body)
       <==> rewindable || body == [] || !MayRepeat(p, verb)
  {
    if !rewindable && body != [] {
      if MayRepeat(p, verb) {
        SecondAttemptHappens(p, verb, rewindable);
        assert Carried(body, rewindable, 1) != body;
      } else {
        forall server, n, ending, i: nat | Finishes(p, verb, rewindable, server, n, ending) && i < n
          ensures Carried(body, rewindable, i) == body
        {
          if n > 1 { NeverRepeats(p, verb, server, n); }
        }
      }
    }
  }
}
