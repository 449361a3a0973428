/**
 The stall reaper over time. One request is polled at a sequence of instants; the socket's byte
 counter, and whether the message has been parsed to its end, are functions of time. `Watch` folds
 the polls of one request for as long as its timer is armed, using the same `Poll` the budget's
 `PollTick` is proved against.
 */
module StallReaper {
  import opened BudgetLedger

  type Counter = int -> nat

  type Completion = int -> bool

  ghost predicate NeverShrinks(bytesAt: Counter) {
    forall s, t :: s <= t ==> bytesAt(s) <= bytesAt(t)
  }

  /** Polls come one after another, each within `gap` of the one before. */
  ghost predicate Ticks(from: int, polls: seq<int>, gap: int)
    decreases |polls|
  {
    polls != [] ==> from < polls[0] <= from + gap && Ticks(polls[0], polls[1..], gap)
  }

  ghost function Watch(cfg: Config, hold: Hold, polls: seq<int>, bytesAt: Counter, completeAt: Completion): Verdict
    decreases |polls|
  {
    if polls == [] || !hold.armed then Keep(hold) else
      match Poll(cfg, hold, completeAt(polls[0]), bytesAt(polls[0]), polls[0])
      case Reap => Reap
      case Keep(next) => Watch(cfg, next, polls[1..], bytesAt, completeAt)
  }

  /** What the reaper knows just after looking at `at`. */
  ghost predicate UpToDate(hold: Hold, at: int, bytesAt: Counter) {
    && hold.lastBytes == bytesAt(at) == bytesAt(hold.lastProgress)
    && hold.lastProgress <= at
  }

  /** An armed reaper still waits for some of a declared body. */
  ghost predicate StillWaiting(hold: Hold) {
    hold.armed && hold.body.Declared? ==> hold.lastBytes - hold.startBytes < hold.body.length
  }

  /** A poll that does not reap, and leaves the timer armed, leaves the reaper up to date. */
  lemma PollLooks(cfg: Config, hold: Hold, at: int, now: int, complete: bool, bytesAt: Counter)
    requires UpToDate(hold, at, bytesAt) && StillWaiting(hold) && at <= now
    requires Poll(cfg, hold, complete, bytesAt(now), now).Keep?
    requires Poll(cfg, hold, complete, bytesAt(now), now).hold.armed
    ensures UpToDate(Poll(cfg, hold, complete, bytesAt(now), now).hold, now, bytesAt)
    ensures StillWaiting(Poll(cfg, hold, complete, bytesAt(now), now).hold)
  {
  }

  /**
   Only a silent and unfinished request is reaped: if the polls end in a reap at the last of them, no
   byte arrived in the STALL_TIMEOUT_MS before it, the message was not complete, and a declared body
   had not fully arrived.
   */
  lemma {:induction false} ReapedMeansSilent(
    cfg: Config, hold: Hold, from: int, polls: seq<int>, gap: int, bytesAt: Counter, completeAt: Completion)
    requires NeverShrinks(bytesAt) && UpToDate(hold, from, bytesAt) && StillWaiting(hold)
    requires Ticks(from, polls, gap) && polls != []
    requires Watch(cfg, hold, polls[..|polls| - 1], bytesAt, completeAt).Keep?
    requires Watch(cfg, hold, polls, bytesAt, completeAt).Reap?
    ensures var t := polls[|polls| - 1];
            && bytesAt(t - STALL_TIMEOUT_MS) == bytesAt(t) && hold.lastProgress <= t - STALL_TIMEOUT_MS
            && !completeAt(t)
            && (hold.body.Declared? ==> bytesAt(t) - hold.startBytes < hold.body.length)
    decreases |polls|
  {
    var t := polls[|polls| - 1];
    var complete := completeAt(polls[0]);
    var verdict := Poll(cfg, hold, complete, bytesAt(polls[0]), polls[0]);
    if |polls| == 1 {
      assert polls[1..] == [];
      assert bytesAt(hold.lastProgress) <= bytesAt(t - STALL_TIMEOUT_MS) <= bytesAt(t);
    } else {
      assert polls[..|polls| - 1][1..] == polls[1..][..|polls| - 2];
      PollLooks(cfg, hold, from, polls[0], complete, bytesAt);
      ReapedMeansSilent(cfg, verdict.hold, polls[0], polls[1..], gap, bytesAt, completeAt);
    }
  }

  /** No byte after `quiet`, a message never complete, and a declared body that has not fully arrived. */
  ghost predicate Stalls(hold: Hold, quiet: int, bytesAt: Counter, completeAt: Completion) {
    && (forall s :: !completeAt(s))
    && (forall s :: quiet <= s ==> bytesAt(s) == bytesAt(quiet))
    && (hold.body.Declared? ==> forall s :: bytesAt(s) - hold.startBytes < hold.body.length)
  }

  /**
   Every stalled request is reaped in time: once its bytes stop at `quiet`, some poll no later than
   `quiet` + STALL_TIMEOUT_MS + 2 * gap reaps it, and none before that poll does.
   */
  lemma {:induction false} SilentMeansReaped(
    cfg: Config, hold: Hold, from: int, polls: seq<int>, gap: int, quiet: int, bytesAt: Counter,
    completeAt: Completion)
    returns (k: nat)
    requires hold.armed && StillWaiting(hold) && UpToDate(hold, from, bytesAt)
    requires Stalls(hold, quiet, bytesAt, completeAt)
    requires hold.lastProgress <= quiet + gap && from < quiet + STALL_TIMEOUT_MS + gap
    requires Ticks(from, polls, gap) && polls != []
    requires polls[|polls| - 1] >= quiet + STALL_TIMEOUT_MS + gap
    ensures k < |polls| && polls[k] <= quiet + STALL_TIMEOUT_MS + 2 * gap
    ensures Watch(cfg, hold, polls[..k], bytesAt, completeAt).Keep?
    ensures Watch(cfg, hold, polls[..k + 1], bytesAt, completeAt).Reap?
    decreases |polls|
  {
    var verdict := Poll(cfg, hold, false, bytesAt(polls[0]), polls[0]);
    if verdict.Reap? {
      k := 0;
      assert polls[..1] == [polls[0]];
    } else {
      PollLooks(cfg, hold, from, polls[0], false, bytesAt);
      var rest := SilentMeansReaped(cfg, verdict.hold, polls[0], polls[1..], gap, quiet, bytesAt, completeAt);
      k := rest + 1;
      assert polls[..k][1..] == polls[1..][..rest];
      assert polls[..k + 1][1..] == polls[1..][..rest + 1];
    }
  }

  /** From admission on: a body-carrying request whose bytes stop is gone within the bound. */
  lemma StalledRequestIsReaped(
    cfg: Config, client: Client, body: Body, arrival: int, polls: seq<int>, gap: int, quiet: int, bytesAt: Counter,
    completeAt: Completion)
    requires Opening(cfg, body) > 0 && arrival <= quiet
    requires Stalls(OpenHold(cfg, client, body, bytesAt(arrival), arrival), quiet, bytesAt, completeAt)
    requires Ticks(arrival, polls, gap) && polls != []
    requires polls[|polls| - 1] >= quiet + STALL_TIMEOUT_MS + gap
    ensures var hold := OpenHold(cfg, client, body, bytesAt(arrival), arrival);
            exists k: nat :: k < |polls| && polls[k] <= quiet + STALL_TIMEOUT_MS + 2 * gap
              && Watch(cfg, hold, polls[..k + 1], bytesAt, completeAt).Reap?
  {
    var hold := OpenHold(cfg, client, body, bytesAt(arrival), arrival);
    var k := SilentMeansReaped(cfg, hold, arrival, polls, gap, quiet, bytesAt, completeAt);
  }

  // ---------------------------------------------------------------- in a whole run

  /** When the reaper of `r`, admitted by event `a`, last looked before event `m`. */
  ghost function LastLook<R>(events: seq<Event<R>>, times: seq<int>, a: nat, m: nat, r: R): int
    requires a < m <= |events| == |times|
    decreases m
  {
    if m == a + 1 then times[a]
    else if events[m - 1].PollTick? && events[m - 1].r == r then times[m - 1]
    else LastLook(events, times, a, m - 1, r)
  }

  /**
   The run as the clock and the socket of `r` see it from its admission on: `r` arrives once and its
   message never ends, each of its polls reads the counter, and while it is live its timer fires
   within `gap` of its last look.
   */
  ghost predicate Observed<R(!new)>(
    ledgers: seq<Ledger<R>>, events: seq<Event<R>>, times: seq<int>, a: nat, r: R, gap: int, bytesAt: Counter)
  {
    && |times| == |events| && |ledgers| == |events| + 1 && a < |events|
    && (forall i, j :: 0 <= i < j < |times| ==> times[i] <= times[j])
    && (forall m :: a < m < |events| && events[m].r == r ==>
          events[m].Terminal? || events[m] == Event.PollTick(r, false, bytesAt(times[m]), times[m]))
    && (forall m: nat :: a < m < |events| ==> Prompt(ledgers, events, times, a, m, r, gap))
  }

  /** If `r` is live when event `m` happens, that is within `gap` of its reaper's last look. */
  ghost predicate Prompt<R(!new)>(
    ledgers: seq<Ledger<R>>, events: seq<Event<R>>, times: seq<int>, a: nat, m: nat, r: R, gap: int)
    requires a < m < |events| == |times| && |ledgers| == |events| + 1
  {
    r in ledgers[m] ==> times[m] <= LastLook(events, times, a, m, r) + gap
  }

  /** What the ledger knows of a stalled request that is still live. */
  ghost predicate Waiting(entry: Hold, hold: Hold, look: int, gap: int, quiet: int, bytesAt: Counter) {
    && hold.armed && StillWaiting(hold) && UpToDate(hold, look, bytesAt)
    && hold.body == entry.body && hold.startBytes == entry.startBytes
    && hold.lastProgress <= quiet + gap && look < quiet + STALL_TIMEOUT_MS + gap
  }

  /** A poll of a stalled request that neither reaps nor sheds it leaves it waiting. */
  lemma PollKeepsWaiting(
    cfg: Config, entry: Hold, hold: Hold, look: int, now: int, gap: int, quiet: int, bytesAt: Counter)
    requires Waiting(entry, hold, look, gap, quiet, bytesAt) && look <= now <= look + gap
    requires Stalls(entry, quiet, bytesAt, t => false)
    requires Poll(cfg, hold, false, bytesAt(now), now).Keep?
    ensures Waiting(entry, Poll(cfg, hold, false, bytesAt(now), now).hold, now, gap, quiet, bytesAt)
  {
    PollLooks(cfg, hold, look, now, false, bytesAt);
    assert quiet <= look ==> bytesAt(now) == bytesAt(quiet) == bytesAt(look);
  }

  /** A request that outlives an event was live before it, and is changed by none but its own poll. */
  lemma OutlivesEvent<R>(cfg: Config, ledger: Ledger<R>, e: Event<R>, after: Ledger<R>, r: R)
    requires Next(cfg, ledger, e, after) && r in after
    requires e.r == r ==> e.Terminal? || e.PollTick?
    ensures r in ledger
    ensures e.r != r ==> after[r] == ledger[r]
    ensures e.r == r ==> e.PollTick? && Poll(cfg, ledger[r], e.complete, e.readNow, e.at) == Keep(after[r])
  {
  }

  lemma EventKeepsWaiting<R>(
    cfg: Config, ledger: Ledger<R>, e: Event<R>, after: Ledger<R>, r: R,
    entry: Hold, look: int, now: int, gap: int, quiet: int, bytesAt: Counter)
    requires Next(cfg, ledger, e, after) && r in ledger && r in after
    requires e.r == r ==> e.Terminal? || e == Event.PollTick(r, false, bytesAt(now), now)
    requires Waiting(entry, ledger[r], look, gap, quiet, bytesAt) && look <= now <= look + gap
    requires Stalls(entry, quiet, bytesAt, t => false)
    ensures Waiting(entry, after[r], if e.PollTick? && e.r == r then now else look, gap, quiet, bytesAt)
  {
    OutlivesEvent(cfg, ledger, e, after, r);
    if e.r == r {
      PollKeepsWaiting(cfg, entry, ledger[r], look, now, gap, quiet, bytesAt);
    }
  }

  lemma {:induction false} LiveMeansWaiting<R(!new)>(
    cfg: Config, ledgers: seq<Ledger<R>>, events: seq<Event<R>>, times: seq<int>, a: nat, m: nat, r: R,
    gap: int, quiet: int, bytesAt: Counter, entry: Hold)
    requires Run(cfg, ledgers, events) && Observed(ledgers, events, times, a, r, gap, bytesAt)
    requires r in ledgers[a + 1] && ledgers[a + 1][r] == entry
    requires Waiting(entry, entry, times[a], gap, quiet, bytesAt) && Stalls(entry, quiet, bytesAt, t => false)
    requires a < m <= |events| && r in ledgers[m]
    ensures Waiting(entry, ledgers[m][r], LastLook(events, times, a, m, r), gap, quiet, bytesAt)
    ensures LastLook(events, times, a, m, r) <= times[m - 1]
    decreases m
  {
    if m > a + 1 {
      var before, e, after, now := ledgers[m - 1], events[m - 1], ledgers[m], times[m - 1];
      OutlivesEvent(cfg, before, e, after, r);
      LiveMeansWaiting(cfg, ledgers, events, times, a, m - 1, r, gap, quiet, bytesAt, entry);
      var look := LastLook(events, times, a, m - 1, r);
      assert Prompt(ledgers, events, times, a, m - 1, r, gap);
      EventKeepsWaiting(cfg, before, e, after, r, entry, look, now, gap, quiet, bytesAt);
    }
  }

  /**
   In every run of the budget, whatever other requests do: a body-carrying request whose bytes stop at
   `quiet` holds nothing any more from `quiet` + STALL_TIMEOUT_MS + 2 * gap on. It was reaped, shed or
   ended before.
   */
  lemma StalledRequestLeavesTheRun<R(!new)>(
    cfg: Config, ledgers: seq<Ledger<R>>, events: seq<Event<R>>, times: seq<int>, a: nat, m: nat, r: R,
    client: Client, body: Body, gap: int, quiet: int, bytesAt: Counter)
    requires Run(cfg, ledgers, events) && Observed(ledgers, events, times, a, r, gap, bytesAt)
    requires events[a] == Event.Arrive(r, client, body, bytesAt(times[a]), times[a]) && r !in ledgers[a]
    requires Opening(cfg, body) > 0 && gap >= 0 && times[a] <= quiet
    requires Stalls(OpenHold(cfg, client, body, bytesAt(times[a]), times[a]), quiet, bytesAt, t => false)
    requires a < m < |events| && times[m] >= quiet + STALL_TIMEOUT_MS + 2 * gap
    ensures r !in ledgers[m]
  {
    assert Prompt(ledgers, events, times, a, m, r, gap);
    if r in ledgers[m] {
      var entry := OpenHold(cfg, client, body, bytesAt(times[a]), times[a]);
      AdmittedIfEverLive(cfg, ledgers, events, times, a, m, r, gap, bytesAt);
      assert Next(cfg, ledgers[a], events[a], ledgers[a + 1]);
      LiveMeansWaiting(cfg, ledgers, events, times, a, m, r, gap, quiet, bytesAt, entry);
    }
  }

  /** A request that is live later was admitted when it arrived. */
  lemma {:induction false} AdmittedIfEverLive<R(!new)>(
    cfg: Config, ledgers: seq<Ledger<R>>, events: seq<Event<R>>, times: seq<int>, a: nat, m: nat, r: R,
    gap: int, bytesAt: Counter)
    requires Run(cfg, ledgers, events) && Observed(ledgers, events, times, a, r, gap, bytesAt)
    requires a < m < |ledgers| && r in ledgers[m]
    ensures r in ledgers[a + 1]
    decreases m
  {
    if m > a + 1 {
      OutlivesEvent(cfg, ledgers[m - 1], events[m - 1], ledgers[m], r);
      AdmittedIfEverLive(cfg, ledgers, events, times, a, m - 1, r, gap, bytesAt);
    }
  }
}
