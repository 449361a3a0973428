/**
 The WhatsApp Web build resolver: a process-wide cache, one shared in-flight fetch, and a back-off
 after a failure, as an interleaving of callers and fetch completions on a clock that never runs back.
 */
module WebVersion {
  import opened Wrappers

  const FAILURE_BACKOFF_MS: int := 60_000
  const WEB_VERSION_SETTLE_MS: int := 43_200_000

  // ---------------------------------------------------------------- picking a build

  /** One registry entry after parsing: what is not a string, or no date, is None. */
  datatype Entry = Entry(version: Option<string>, beta: bool, released: Option<int>, expire: Option<int>)

  predicate StartsWithDigit(s: string) {
    s != "" && '0' <= s[0] <= '9'
  }

  /** A non-beta, unexpired build that has settled. */
  predicate Qualifies(e: Entry, now: int) {
    && e.version.Some? && StartsWithDigit(e.version.value)
    && !e.beta
    && e.released.Some? && e.released.value <= now - WEB_VERSION_SETTLE_MS
    && (e.expire.Some? ==> e.expire.value > now)
  }

  /** The newest qualifying build, the earliest listed among equals. */
  ghost predicate IsPick(entries: seq<Entry>, now: int, i: int) {
    && 0 <= i < |entries| && Qualifies(entries[i], now)
    && (forall j :: 0 <= j < |entries| && Qualifies(entries[j], now) ==>
          entries[j].released.value <= entries[i].released.value)
    && (forall j :: 0 <= j < i && Qualifies(entries[j], now) ==>
          entries[j].released.value < entries[i].released.value)
  }

  /** No list, or nothing in it to pick. */
  predicate NoneQualifies(versions: Option<seq<Entry>>, now: int) {
    versions.Some? ==> forall e :: e in versions.value ==> !Qualifies(e, now)
  }

  /** The pick where some build qualifies, the registry's current build where none does. */
  ghost predicate PickedFrom(
    versions: Option<seq<Entry>>, now: int, currentVersion: Option<string>, picked: Option<string>)
  {
    if NoneQualifies(versions, now) then picked == currentVersion
    else exists i :: IsPick(versions.value, now, i) && picked == versions.value[i].version
  }

  lemma PickIsUnique(entries: seq<Entry>, now: int)
    ensures forall i, j :: IsPick(entries, now, i) && IsPick(entries, now, j) ==> i == j
    ensures forall i :: IsPick(entries, now, i) ==> exists e :: e in entries && Qualifies(e, now)
  {
    forall i | IsPick(entries, now, i) ensures exists e :: e in entries && Qualifies(e, now) {
      assert entries[i] in entries;
    }
  }

  /** Whatever is picked is the version of the one pick there is, and there is one when a build qualifies. */
  lemma PickedIsThePick(
    versions: Option<seq<Entry>>, now: int, currentVersion: Option<string>, picked: Option<string>)
    ensures PickedFrom(versions, now, currentVersion, picked) && versions.Some? ==>
              forall i :: IsPick(versions.value, now, i) ==> picked == versions.value[i].version
    ensures PickedFrom(versions, now, currentVersion, picked) && !NoneQualifies(versions, now) ==> picked.Some?
  {
    if versions.Some? { PickIsUnique(versions.value, now); }
  }

  method PickSettledWebVersion(versions: Option<seq<Entry>>, now: int, currentVersion: Option<string>)
    returns (picked: Option<string>)
    ensures PickedFrom(versions, now, currentVersion, picked)
  {
    if versions.None? {
      return currentVersion;
    }
    var entries := versions.value;
    var best := -1;
    for k := 0 to |entries|
      invariant best == -1 ==> forall j :: 0 <= j < k ==> !Qualifies(entries[j], now)
      invariant best != -1 ==> 0 <= best < k && IsPick(entries[..k], now, best)
    {
      var e := entries[k];
      if e.version.None? || !StartsWithDigit(e.version.value) {
        continue;
      }
      if e.beta {
        continue;
      }
      if e.released.None? || e.released.value > now - WEB_VERSION_SETTLE_MS {
        continue;
      }
      if e.expire.Some? && e.expire.value <= now {
        continue;
      }
      if best == -1 || entries[best].released.value < e.released.value {
        best := k;
      }
    }
    if best != -1 {
      assert entries[..|entries|] == entries;
      return entries[best].version;
    }
    return currentVersion;
  }

  // ---------------------------------------------------------------- the resolver

  /** What the registry fetch comes back with. */
  datatype Answer = Failure | Registry(versions: Option<seq<Entry>>, currentVersion: Option<string>)

  /** The registry's own current build, when it looks like a version at all. */
  function UsableVersion(raw: Option<string>): Option<string> {
    if raw.Some? && StartsWithDigit(raw.value) then raw else None
  }

  /** What an answer is worth: nothing for a failed fetch, else what is picked from it. */
  ghost predicate IsAnswer(answer: Answer, now: int, version: Option<string>) {
    match answer
    case Failure => version == None
    case Registry(versions, currentVersion) => PickedFrom(versions, now, UsableVersion(currentVersion), version)
  }

  /** A listed release build that is at least twelve hours old and not past its end. */
  predicate HalfDayOld(e: Entry, now: int) {
    && e.version.Some? && e.version.value != "" && e.version.value[0] in "0123456789"
    && !e.beta && e.released.Some? && now - e.released.value >= 12 * 60 * 60 * 1000
    && (e.expire.None? || now < e.expire.value)
  }

  /** The newest such build if there is one; else the registry's own current build if it starts with a digit. */
  ghost predicate BestKnown(answer: Answer, now: int, version: Option<string>) {
    match answer
    case Failure => version == None
    case Registry(versions, currentVersion) =>
      if versions.Some? && exists e :: e in versions.value && HalfDayOld(e, now) then
        exists e :: e in versions.value && HalfDayOld(e, now) && version == e.version
                    && forall f :: f in versions.value && HalfDayOld(f, now) ==> f.released.value <= e.released.value
      else if currentVersion.Some? && currentVersion.value != "" && currentVersion.value[0] in "0123456789" then
        version == currentVersion
      else version == None
  }

  lemma DigitsAreDigits(c: char)
    ensures c in "0123456789" <==> '0' <= c <= '9'
  {
    if '0' <= c <= '9' {
      assert c == "0123456789"[c as int - '0' as int];
    }
  }

  lemma QualifiesMeans(e: Entry, now: int)
    ensures Qualifies(e, now) <==> HalfDayOld(e, now)
  {
    if e.version.Some? && e.version.value != "" { DigitsAreDigits(e.version.value[0]); }
  }

  lemma AnswerIsBestKnown(answer: Answer, now: int, version: Option<string>)
    requires IsAnswer(answer, now, version)
    ensures BestKnown(answer, now, version)
  {
    if answer.Registry? {
      if answer.currentVersion.Some? && answer.currentVersion.value != "" {
        DigitsAreDigits(answer.currentVersion.value[0]);
      }
      forall e ensures Qualifies(e, now) <==> HalfDayOld(e, now) {
        QualifiesMeans(e, now);
      }
      if !NoneQualifies(answer.versions, now) {
        var entries := answer.versions.value;
        var i :| IsPick(entries, now, i) && version == entries[i].version;
        assert entries[i] in entries && HalfDayOld(entries[i], now);
        forall f | f in entries && HalfDayOld(f, now) ensures f.released.value <= entries[i].released.value {
          var j :| 0 <= j < |entries| && entries[j] == f;
          assert Qualifies(entries[j], now);
        }
      }
    }
  }

  /** The promise every caller joined to one fetch holds. */
  class Promise {
    var settled: bool
    var value: Option<string>

    constructor Pending()
      ensures !settled
    {
      settled, value := false, None;
    }

    constructor Resolved(value: Option<string>)
      ensures settled && this.value == value
    {
      this.settled, this.value := true, value;
    }
  }

  /** The history a whole run leaves: when fetches started, and how each one ended. */
  datatype Step = Started(at: int) | Failed(at: int) | Succeeded(at: int, version: string)

  /** When one step may come right after another. */
  predicate Follows(last: Step, next: Step) {
    && !last.Succeeded? && next.Started? != last.Started?
    && next.at >= last.at + if last.Failed? then FAILURE_BACKOFF_MS else 0
  }

  /** One fetch at a time, a full back-off after each failure, and nothing after a success. */
  ghost predicate Paced(log: seq<Step>) {
    && (log != [] ==> log[0].Started?)
    && forall i :: 0 < i < |log| ==> Follows(log[i - 1], log[i])
  }

  /** When a step may follow a history. */
  predicate MayFollow(log: seq<Step>, next: Step) {
    if log == [] then next.Started? else Follows(log[|log| - 1], next)
  }

  lemma PacedAfter(log: seq<Step>, next: Step)
    requires Paced(log) && MayFollow(log, next)
    ensures Paced(log + [next])
  {
  }

  class Resolver {
    var cachedCurrentVersion: Option<string>
    var inFlight: Promise?
    var lastFailureAt: int
    ghost var log: seq<Step>
    ghost var clock: int

    /** The module variables say exactly where the history stands. */
    ghost predicate Valid()
      reads this, inFlight
    {
      && Paced(log)
      && clock > 0
      && (log != [] ==> log[|log| - 1].at <= clock)
      && (inFlight != null <==> log != [] && log[|log| - 1].Started?)
      && (inFlight != null ==> !inFlight.settled)
      && (cachedCurrentVersion.Some? <==> log != [] && log[|log| - 1].Succeeded?)
      && (cachedCurrentVersion.Some? ==> cachedCurrentVersion.value == log[|log| - 1].version)
      && (log == [] ==> lastFailureAt == 0)
      && (log != [] && log[|log| - 1].Failed? ==> lastFailureAt == log[|log| - 1].at && lastFailureAt > 0)
    }

    constructor (now: int)
      requires now > 0
      ensures Valid() && log == [] && clock == now && cachedCurrentVersion == None && inFlight == null
    {
      cachedCurrentVersion, inFlight, lastFailureAt, log, clock := None, null, 0, [], now;
    }

    /** `resolveCurrentWebVersion`: answer from the cache, join, back off, or start the one fetch. */
    method Resolve(now: int) returns (p: Promise)
      requires Valid() && now >= clock
      modifies this
      ensures Valid() && clock == now
      ensures old(cachedCurrentVersion).Some? ==>
                p.settled && p.value == old(cachedCurrentVersion) && log == old(log)
      ensures old(inFlight) != null ==> p == old(inFlight) && log == old(log)
      ensures old(cachedCurrentVersion).None? && old(inFlight) == null ==>
                if old(log) != [] && now < old(log)[|old(log)| - 1].at + 60_000
                then p.settled && p.value == None && log == old(log)
                else p == inFlight && fresh(p) && log == old(log) + [Started(now)]
      ensures cachedCurrentVersion == old(cachedCurrentVersion)
    {
      clock := now;
      if cachedCurrentVersion.Some? {
        p := new Promise.Resolved(cachedCurrentVersion);
        return;
      }
      if inFlight != null {
        return inFlight;
      }
      if lastFailureAt != 0 && now - lastFailureAt < FAILURE_BACKOFF_MS {
        p := new Promise.Resolved(None);
        return;
      }
      PacedAfter(log, Started(now));
      inFlight := new Promise.Pending();
      log := log + [Started(now)];
      return inFlight;
    }

    /** The outstanding fetch settles: everyone who joined it gets the one result. */
    method Settle(answer: Answer, now: int)
      requires Valid() && inFlight != null && now >= clock
      modifies this, inFlight
      ensures Valid() && clock == now && inFlight == null
      ensures old(inFlight).settled && old(inFlight).value == cachedCurrentVersion
      ensures log == old(log) + [if cachedCurrentVersion.Some? then Succeeded(now, cachedCurrentVersion.value)
                                 else Failed(now)]
      ensures IsAnswer(answer, now, cachedCurrentVersion) && BestKnown(answer, now, cachedCurrentVersion)
      ensures answer.Registry? && !NoneQualifies(answer.versions, now) ==> cachedCurrentVersion.Some?
    {
      clock := now;
      var promise := inFlight;
      var picked := None;
      if answer.Registry? {
        var rawCurrent := UsableVersion(answer.currentVersion);
        picked := PickSettledWebVersion(answer.versions, now, rawCurrent);
        PickedIsThePick(answer.versions, now, rawCurrent, picked);
      }
      AnswerIsBestKnown(answer, now, picked);
      PacedAfter(log, if picked.Some? then Succeeded(now, picked.value) else Failed(now));
      if picked.Some? {
        cachedCurrentVersion := picked;
        log := log + [Succeeded(now, picked.value)];
      } else {
        lastFailureAt := now;
        log := log + [Failed(now)];
      }
      promise.settled, promise.value := true, picked;
      inFlight := null;
    }
  }

  // ---------------------------------------------------------------- what a whole run guarantees

  /** Two fetches are never outstanding together: between two starts lies the end of the first. */
  lemma OneFetchAtATime(log: seq<Step>, i: int, j: int)
    requires Paced(log) && 0 <= i < j < |log| && log[i].Started? && log[j].Started?
    ensures i + 1 < j && log[i + 1].Failed?
  {
    assert Follows(log[i], log[i + 1]);
    assert Follows(log[i + 1], log[i + 2]);
  }

  /** The k-th fetch starts no sooner than k back-offs after the first, however many callers there are. */
  lemma {:induction false} FetchesAreRateLimited(log: seq<Step>, k: nat)
    requires Paced(log) && 2 * k < |log|
    ensures log[2 * k].Started? && log[2 * k].at >= log[0].at + k * 60_000
  {
    if k > 0 {
      FetchesAreRateLimited(log, k - 1);
      assert Follows(log[2 * k - 2], log[2 * k - 1]) && Follows(log[2 * k - 1], log[2 * k]);
    }
  }

  lemma SuccessEndsHistory(log: seq<Step>, i: int)
    requires Paced(log) && 0 <= i < |log| && log[i].Succeeded?
    ensures i == |log| - 1
  {
    assert i + 1 < |log| ==> Follows(log[i], log[i + 1]);
  }

  /** After a success no fetch ever starts again, and every later call returns that build at once. */
  lemma SuccessIsFinal(r: Resolver)
    requires r.Valid() && exists i :: 0 <= i < |r.log| && r.log[i].Succeeded?
    ensures r.cachedCurrentVersion.Some? && r.inFlight == null
    ensures forall i :: 0 <= i < |r.log| && r.log[i].Succeeded? ==>
              i == |r.log| - 1 && r.log[i].version == r.cachedCurrentVersion.value
  {
    forall i | 0 <= i < |r.log| && r.log[i].Succeeded? ensures i == |r.log| - 1 {
      SuccessEndsHistory(r.log, i);
    }
  }
}
