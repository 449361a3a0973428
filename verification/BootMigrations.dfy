/**
 Boot migrations of N replicas under a session-scoped advisory lock. Each replica follows the nested
 try/finally of `createBootDataSource`; every awaited call may fail, and replicas interleave between
 calls. Migrations are numbered 0 .. chain - 1 in the order of the chain.
 */
module BootMigrations {
  import opened Wrappers

  /** Where one replica stands. `ok` is whether the factory is on its way to returning. */
  datatype Pc =
    | Created
    | Initialized
    | Connected
    | Locked
    | Migrating(pending: seq<int>, before: int)
    | Unlocking(ok: bool)
    | Ending(ok: bool)
    | Destroying
    | Returned
    | Threw

  datatype Replica = Replica(pc: Pc, sourceOpen: bool, sessionOpen: bool)

  /** The replicas, the session holding the advisory lock, and the migrations ledger. */
  datatype World = World(replicas: seq<Replica>, holder: Option<int>, ledger: seq<int>)

  datatype Event =
    | InitOk(i: int) | InitFail(i: int)
    | ConnectOk(i: int) | ConnectFail(i: int) | ClientFail(i: int)
    | LockOk(i: int) | LockFail(i: int)
    | ReadLedger(i: int) | ReadFail(i: int)
    | ApplyOne(i: int) | ApplyFail(i: int, rollback: bool) | AllApplied(i: int)
    | UnlockOk(i: int) | UnlockFail(i: int)
    | EndSession(i: int)
    | Destroy(i: int)
    | SessionLost(i: int)

  /** What runMigrations has to do: the chain in order, less what the ledger lists. */
  function Pending(chain: nat, ledger: seq<int>, from: nat): seq<int>
    requires from <= chain
    decreases chain - from
  {
    if from == chain then []
    else if from in ledger then Pending(chain, ledger, from + 1)
    else [from] + Pending(chain, ledger, from + 1)
  }

  function Released(holder: Option<int>, i: int): Option<int> {
    if holder == Some(i) then None else holder
  }

  function Move(w: World, i: int, r: Replica): World
    requires 0 <= i < |w.replicas|
  {
    w.(replicas := w.replicas[i := r])
  }

  /** One event; None when it is not enabled. */
  function Next(chain: nat, w: World, e: Event): Option<World> {
    if !(0 <= e.i < |w.replicas|) then None
    else
      var r := w.replicas[e.i];
      match (e, r.pc)
      case (InitOk(i), Created) => Some(Move(w, i, r.(pc := Initialized, sourceOpen := true)))
      case (InitFail(i), Created) => Some(Move(w, i, r.(pc := Destroying)))
      case (ClientFail(i), Initialized) => Some(Move(w, i, r.(pc := Destroying)))
      case (ConnectOk(i), Initialized) => Some(Move(w, i, r.(pc := Connected, sessionOpen := true)))
      case (ConnectFail(i), Initialized) => Some(Move(w, i, r.(pc := Ending(false))))
      case (LockOk(i), Connected) =>
        if w.holder.None? && r.sessionOpen then Some(Move(w, i, r.(pc := Locked)).(holder := Some(i))) else None
      case (LockFail(i), Connected) => Some(Move(w, i, r.(pc := Ending(false))))
      case (ReadLedger(i), Locked) =>
        Some(Move(w, i, r.(pc := Migrating(Pending(chain, w.ledger, 0), |w.ledger|))))
      case (ReadFail(i), Locked) => Some(Move(w, i, r.(pc := Unlocking(false))))
      case (ApplyOne(i), Migrating(pending, before)) =>
        if pending == [] then None
        else Some(Move(w, i, r.(pc := Migrating(pending[1..], before))).(ledger := w.ledger + [pending[0]]))
      case (ApplyFail(i, rollback), Migrating(pending, before)) =>
        var kept := if rollback && 0 <= before <= |w.ledger| then w.ledger[..before] else w.ledger;
        Some(Move(w, i, r.(pc := Unlocking(false))).(ledger := kept))
      case (AllApplied(i), Migrating(pending, before)) =>
        if pending == [] then Some(Move(w, i, r.(pc := Unlocking(true)))) else None
      case (UnlockOk(i), Unlocking(ok)) =>
        if r.sessionOpen then Some(Move(w, i, r.(pc := Ending(ok))).(holder := Released(w.holder, i))) else None
      case (UnlockFail(i), Unlocking(ok)) => Some(Move(w, i, r.(pc := Ending(ok))))
      case (EndSession(i), Ending(ok)) =>
        var r' := r.(pc := if ok then Returned else Destroying, sessionOpen := false);
        Some(Move(w, i, r').(holder := Released(w.holder, i)))
      case (Destroy(i), Destroying) => Some(Move(w, i, r.(pc := Threw, sourceOpen := false)))
      case (SessionLost(i), _) =>
        if r.sessionOpen
        then Some(Move(w, i, r.(sessionOpen := false)).(holder := Released(w.holder, i)))
        else None
      case _ => None
  }

  function Exec(chain: nat, w: World, events: seq<Event>): Option<World>
    decreases |events|
  {
    if events == [] then Some(w)
    else
      match Next(chain, w, events[0])
      case None => None
      case Some(w') => Exec(chain, w', events[1..])
  }

  /** N replicas about to boot, against whatever the ledger lists. */
  predicate Boot(w: World) {
    && w.holder == None
    && forall i :: 0 <= i < |w.replicas| ==> w.replicas[i] == Replica(Created, false, false)
  }

  /** The ledger once every missing migration of the chain was applied, in order, to `start`. */
  function Complete(chain: nat, start: seq<int>): (full: seq<int>)
    ensures start <= full
  {
    start + Pending(chain, start, 0)
  }

  lemma {:induction false} PendingHolds(chain: nat, ledger: seq<int>, from: nat)
    requires from <= chain
    ensures forall m :: from <= m < chain ==> m in ledger || m in Pending(chain, ledger, from)
    ensures forall m :: m in Pending(chain, ledger, from) ==> from <= m < chain && m !in ledger
    ensures forall i, j :: 0 <= i < j < |Pending(chain, ledger, from)| ==>
              Pending(chain, ledger, from)[i] < Pending(chain, ledger, from)[j]
    decreases chain - from
  {
    if from < chain {
      PendingHolds(chain, ledger, from + 1);
      var rest := Pending(chain, ledger, from + 1);
      forall i, j | from !in ledger && 0 <= i < j < |rest| + 1 ensures ([from] + rest)[i] < ([from] + rest)[j] {
        assert rest[j - 1] in rest;
        if i > 0 { assert rest[i - 1] < rest[j - 1]; }
      }
    }
  }

  /** The complete ledger lists every migration, and adds none that was there and none twice. */
  lemma CompleteIsWholeChain(chain: nat, start: seq<int>)
    ensures forall m :: 0 <= m < chain ==> m in Complete(chain, start)
    ensures forall i, j :: |start| <= i < j < |Complete(chain, start)| ==>
              Complete(chain, start)[i] < Complete(chain, start)[j]
    ensures forall i :: |start| <= i < |Complete(chain, start)| ==> Complete(chain, start)[i] !in start
  {
    PendingHolds(chain, start, 0);
    forall i | |start| <= i < |Complete(chain, start)| ensures Complete(chain, start)[i] !in start {
      assert Complete(chain, start)[i] == Pending(chain, start, 0)[i - |start|];
    }
  }

  /** Entries that come before `from` have no say in what is pending from there. */
  lemma {:induction false} PendingIgnoresEarlier(chain: nat, start: seq<int>, done: seq<int>, from: nat)
    requires from <= chain && forall m :: m in done ==> m < from
    ensures Pending(chain, start + done, from) == Pending(chain, start, from)
    decreases chain - from
  {
    if from < chain {
      PendingIgnoresEarlier(chain, start, done, from + 1);
    }
  }

  /** With the first `k` missing migrations applied, what is missing is the rest of them. */
  lemma {:induction false} PendingAfterPrefix(chain: nat, start: seq<int>, done: seq<int>, from: nat, k: nat)
    requires from <= chain && k <= |Pending(chain, start, from)|
    requires forall m :: m in done ==> m < from
    ensures Pending(chain, start + done + Pending(chain, start, from)[..k], from)
         == Pending(chain, start, from)[k..]
    decreases chain - from
  {
    var missing := Pending(chain, start, from);
    if k == 0 {
      assert start + done + missing[..0] == start + done;
      PendingIgnoresEarlier(chain, start, done, from);
    } else if from in start {
      PendingAfterPrefix(chain, start, done, from + 1, k);
    } else {
      var rest := Pending(chain, start, from + 1);
      assert start + done + missing[..k] == start + (done + [from]) + rest[..k - 1];
      PendingAfterPrefix(chain, start, done + [from], from + 1, k - 1);
      assert from in start + (done + [from]) + rest[..k - 1];
      assert missing[k..] == rest[k - 1..];
    }
  }

  // ---------------------------------------------------------------- invariant

  predicate InCritical(pc: Pc) {
    pc.Locked? || pc.Migrating? || pc.Unlocking?
  }

  /** In the stretch the lock is for. */
  predicate Inside(pc: Pc) {
    pc.Locked? || pc.Migrating?
  }

  /** The replica may still get the lock. */
  predicate CanEnter(r: Replica) {
    r.pc.Created? || r.pc.Initialized? || (r.pc.Connected? && r.sessionOpen)
  }

  /** No replica but `i` is inside or can still get there. */
  predicate OthersOut(w: World, i: int) {
    forall j :: 0 <= j < |w.replicas| && j != i ==> !Inside(w.replicas[j].pc) && !CanEnter(w.replicas[j])
  }

  /** The replica has seen the whole chain applied. */
  predicate SawAll(pc: Pc) {
    pc == Unlocking(true) || pc == Ending(true) || pc == Returned
  }

  /** The lock and the resources of each replica, whatever happens to any session. */
  ghost predicate HolderInv(w: World) {
    && (w.holder.Some? ==>
          && 0 <= w.holder.value < |w.replicas|
          && var r := w.replicas[w.holder.value];
             r.sessionOpen && (InCritical(r.pc) || r.pc.Ending?))
    && forall i :: 0 <= i < |w.replicas| ==> Tidy(w.replicas[i])
  }

  predicate Tidy(r: Replica) {
    && (r.sessionOpen ==> r.pc.Connected? || InCritical(r.pc) || r.pc.Ending?)
    && (r.pc.Threw? ==> !r.sourceOpen)
    && (r.pc.Created? || r.pc.Destroying? || r.pc.Threw? || r.sourceOpen)
  }

  /** A replica inside holds the lock, or is the only one that can be there. */
  ghost predicate Exclusive(w: World) {
    forall i :: 0 <= i < |w.replicas| && Inside(w.replicas[i].pc) ==> w.holder == Some(i) || OthersOut(w, i)
  }

  /** The ledger has grown along `full`, and replicas that migrate or are done know how far. */
  ghost predicate Progressing(full: seq<int>, start: nat, w: World) {
    && start <= |w.ledger| && w.ledger <= full
    && (forall i :: 0 <= i < |w.replicas| ==> KnowsHowFar(full, start, w.ledger, w.replicas[i].pc))
    && (forall i, j :: 0 <= i < |w.replicas| && 0 <= j < |w.replicas| ==>
          (SawAll(w.replicas[i].pc) && w.replicas[j].pc.Migrating? ==> w.replicas[j].pc.before == |full|))
  }

  predicate KnowsHowFar(full: seq<int>, start: nat, ledger: seq<int>, pc: Pc) {
    && (SawAll(pc) ==> ledger == full)
    && (pc.Migrating? ==> OnTrack(full, start, |ledger|, pc))
  }

  predicate OnTrack(full: seq<int>, start: nat, applied: nat, pc: Pc)
    requires pc.Migrating?
  {
    start <= pc.before <= applied <= |full| && pc.pending == full[applied..]
  }

  /** Losing this replica's session now does no harm: it is not inside, or nobody can join it there. */
  predicate Harmless(w: World, e: Event) {
    e.SessionLost? && 0 <= e.i < |w.replicas| && Inside(w.replicas[e.i].pc) ==> OthersOut(w, e.i)
  }

  lemma NextKeepsHolder(chain: nat, w: World, e: Event)
    requires HolderInv(w) && Next(chain, w, e).Some?
    ensures HolderInv(Next(chain, w, e).value)
  {
    assert Tidy(w.replicas[e.i]);
  }

  /** A replica that is out stays out. */
  lemma OutStaysOut(chain: nat, w: World, e: Event, i: int)
    requires Next(chain, w, e).Some? && OthersOut(w, i) && 0 <= i < |w.replicas|
    ensures OthersOut(Next(chain, w, e).value, i)
  {
    var w' := Next(chain, w, e).value;
    forall j | 0 <= j < |w'.replicas| && j != i
      ensures !Inside(w'.replicas[j].pc) && !CanEnter(w'.replicas[j])
    {
      assert !Inside(w.replicas[j].pc) && !CanEnter(w.replicas[j]);
    }
  }

  lemma NextKeepsExclusive(chain: nat, w: World, e: Event)
    requires HolderInv(w) && Exclusive(w) && Next(chain, w, e).Some? && Harmless(w, e)
    ensures Exclusive(Next(chain, w, e).value)
  {
    var w' := Next(chain, w, e).value;
    forall i | 0 <= i < |w'.replicas| && Inside(w'.replicas[i].pc)
      ensures w'.holder == Some(i) || OthersOut(w', i)
    {
      if OthersOut(w, i) { OutStaysOut(chain, w, e, i); }
    }
  }

  /** Two replicas are never inside together. */
  lemma InsideIsUnique(w: World, i: int, j: int)
    requires Exclusive(w) && 0 <= i < |w.replicas| && 0 <= j < |w.replicas|
    requires Inside(w.replicas[i].pc) && Inside(w.replicas[j].pc)
    ensures i == j
  {
  }

  lemma ReadIsOnTrack(chain: nat, start: seq<int>, ledger: seq<int>)
    requires |start| <= |ledger| && ledger <= Complete(chain, start)
    ensures Pending(chain, ledger, 0) == Complete(chain, start)[|ledger|..]
  {
    var full, missing := Complete(chain, start), Pending(chain, start, 0);
    var k := |ledger| - |start|;
    assert ledger == full[..|ledger|] == start + [] + missing[..k];
    PendingAfterPrefix(chain, start, [], 0, k);
    assert full[|ledger|..] == missing[k..];
  }

  /** The replica that moves still knows how far the ledger has got. */
  lemma MoverKnowsHowFar(chain: nat, start: seq<int>, w: World, e: Event)
    requires Next(chain, w, e).Some? && Progressing(Complete(chain, start), |start|, w)
    ensures var w' := Next(chain, w, e).value;
            && |start| <= |w'.ledger| && w'.ledger <= Complete(chain, start)
            && KnowsHowFar(Complete(chain, start), |start|, w'.ledger, w'.replicas[e.i].pc)
  {
    var full := Complete(chain, start);
    assert KnowsHowFar(full, |start|, w.ledger, w.replicas[e.i].pc);
    if e.ReadLedger? { ReadIsOnTrack(chain, start, w.ledger); }
    if e.ApplyOne? {
      assert w.ledger + [full[|w.ledger|]] == full[..|w.ledger| + 1];
    }
  }

  /** And so does every other: only a replica inside moves the ledger, and never one that is complete. */
  lemma OthersKnowHowFar(full: seq<int>, start: nat, chain: nat, w: World, e: Event, j: int)
    requires Exclusive(w) && Next(chain, w, e).Some? && Progressing(full, start, w)
    requires 0 <= j < |w.replicas| && j != e.i
    ensures KnowsHowFar(full, start, Next(chain, w, e).value.ledger, w.replicas[j].pc)
  {
    assert KnowsHowFar(full, start, w.ledger, w.replicas[j].pc);
    assert KnowsHowFar(full, start, w.ledger, w.replicas[e.i].pc);
    if Inside(w.replicas[e.i].pc) && w.replicas[j].pc.Migrating? {
      InsideIsUnique(w, e.i, j);
    }
  }

  /** A replica that migrates beside one that is done has nothing left to apply or roll back. */
  lemma DoneBesideMigrating(full: seq<int>, start: nat, chain: nat, w: World, e: Event, i: int, j: int)
    requires Exclusive(w) && Next(chain, w, e).Some? && Progressing(full, start, w)
    requires 0 <= i < |w.replicas| && 0 <= j < |w.replicas|
    requires var after := Next(chain, w, e).value.replicas; SawAll(after[i].pc) && after[j].pc.Migrating?
    ensures Next(chain, w, e).value.replicas[j].pc.before == |full|
  {
    assert KnowsHowFar(full, start, w.ledger, w.replicas[i].pc);
    if !SawAll(w.replicas[i].pc) {
      assert i == e.i && e.AllApplied? && j != i;
      InsideIsUnique(w, i, j);
    }
  }

  lemma NextKeepsProgress(chain: nat, start: seq<int>, w: World, e: Event)
    requires Exclusive(w) && Next(chain, w, e).Some? && Progressing(Complete(chain, start), |start|, w)
    ensures Progressing(Complete(chain, start), |start|, Next(chain, w, e).value)
  {
    var full := Complete(chain, start);
    var w' := Next(chain, w, e).value;
    MoverKnowsHowFar(chain, start, w, e);
    forall j | 0 <= j < |w'.replicas| ensures KnowsHowFar(full, |start|, w'.ledger, w'.replicas[j].pc) {
      if j != e.i {
        OthersKnowHowFar(full, |start|, chain, w, e, j);
        assert w'.replicas[j] == w.replicas[j];
      }
    }
    forall i, j | 0 <= i < |w'.replicas| && 0 <= j < |w'.replicas|
        && SawAll(w'.replicas[i].pc) && w'.replicas[j].pc.Migrating?
      ensures w'.replicas[j].pc.before == |full|
    {
      DoneBesideMigrating(full, |start|, chain, w, e, i, j);
    }
  }

  // ---------------------------------------------------------------- runs

  ghost predicate Inv(chain: nat, start: seq<int>, w: World) {
    HolderInv(w) && Exclusive(w) && Progressing(Complete(chain, start), |start|, w)
  }

  /** Every session the run loses is lost harmlessly. */
  ghost predicate HarmlessRun(chain: nat, w: World, events: seq<Event>)
    decreases |events|
  {
    events != [] ==>
      && Harmless(w, events[0])
      && (Next(chain, w, events[0]).Some? ==> HarmlessRun(chain, Next(chain, w, events[0]).value, events[1..]))
  }

  lemma {:induction false} RunsKeepInv(chain: nat, start: seq<int>, w: World, events: seq<Event>)
    requires Inv(chain, start, w) && Exec(chain, w, events).Some? && HarmlessRun(chain, w, events)
    ensures Inv(chain, start, Exec(chain, w, events).value)
    decreases |events|
  {
    if events != [] {
      NextKeepsHolder(chain, w, events[0]);
      NextKeepsExclusive(chain, w, events[0]);
      NextKeepsProgress(chain, start, w, events[0]);
      RunsKeepInv(chain, start, Next(chain, w, events[0]).value, events[1..]);
    }
  }

  lemma {:induction false} RunsKeepHolder(chain: nat, w: World, events: seq<Event>)
    requires HolderInv(w) && Exec(chain, w, events).Some?
    ensures HolderInv(Exec(chain, w, events).value)
    decreases |events|
  {
    if events != [] {
      NextKeepsHolder(chain, w, events[0]);
      RunsKeepHolder(chain, Next(chain, w, events[0]).value, events[1..]);
    }
  }

  ghost predicate TwoMigrating(w: World) {
    exists i, j :: 0 <= i < j < |w.replicas| && w.replicas[i].pc.Migrating? && w.replicas[j].pc.Migrating?
  }

  /** The promises a boot makes, in any state it can reach from a ledger that listed `start`. */
  ghost predicate Safe(chain: nat, start: seq<int>, w: World) {
    // Never two replicas inside the migrations.
    && !TwoMigrating(w)
    // What was added to the ledger is the missing part of the chain so far: each entry once, in order.
    && start <= w.ledger <= Complete(chain, start)
    // A factory that returned saw every migration applied, and left no lock session behind.
    && (forall i :: 0 <= i < |w.replicas| && w.replicas[i].pc.Returned? ==>
          && w.ledger == Complete(chain, start)
          && w.holder != Some(i) && !w.replicas[i].sessionOpen && w.replicas[i].sourceOpen)
    // A factory that threw holds nothing.
    && (forall i :: 0 <= i < |w.replicas| && w.replicas[i].pc.Threw? ==>
          w.holder != Some(i) && !w.replicas[i].sessionOpen && !w.replicas[i].sourceOpen)
  }

  lemma BootStartsInv(chain: nat, w: World)
    requires Boot(w)
    ensures Inv(chain, w.ledger, w)
  {
  }

  /** From any starting ledger, as long as no session is lost by a replica that another one can join inside. */
  lemma BootIsSafe(chain: nat, w: World, events: seq<Event>)
    requires Boot(w) && Exec(chain, w, events).Some? && HarmlessRun(chain, w, events)
    ensures Safe(chain, w.ledger, Exec(chain, w, events).value)
  {
    BootStartsInv(chain, w);
    RunsKeepInv(chain, w.ledger, w, events);
    var end := Exec(chain, w, events).value;
    if TwoMigrating(end) {
      var i, j :| 0 <= i < j < |end.replicas| && end.replicas[i].pc.Migrating? && end.replicas[j].pc.Migrating?;
      InsideIsUnique(end, i, j);
      assert false;
    }
    FinishedHoldNothing(end);
  }

  predicate Finished(pc: Pc) {
    pc.Returned? || pc.Threw?
  }

  /** A failed boot leaves no lock held and nothing open, whatever sessions were lost on the way. */
  lemma FinishedHoldNothing(w: World)
    requires HolderInv(w)
    ensures forall i :: 0 <= i < |w.replicas| && Finished(w.replicas[i].pc) ==>
              && w.holder != Some(i) && !w.replicas[i].sessionOpen
              && (w.replicas[i].pc.Returned? <==> w.replicas[i].sourceOpen)
  {
    forall i | 0 <= i < |w.replicas| && Finished(w.replicas[i].pc)
      ensures w.holder != Some(i) && !w.replicas[i].sessionOpen
      ensures w.replicas[i].pc.Returned? <==> w.replicas[i].sourceOpen
    {
      assert Tidy(w.replicas[i]);
    }
  }

  // ---------------------------------------------------------------- every boot ends

  /** Nobody waits for ever on a lock: while a replica has not finished, some call can come back. */
  lemma NoDeadlock(chain: nat, w: World)
    requires HolderInv(w)
    requires exists i :: 0 <= i < |w.replicas| && !Finished(w.replicas[i].pc)
    ensures exists e: Event :: !e.SessionLost? && Next(chain, w, e).Some?
  {
    var i :| 0 <= i < |w.replicas| && !Finished(w.replicas[i].pc);
    var j := if w.replicas[i].pc.Connected? && w.holder.Some? then w.holder.value else i;
    var r := w.replicas[j];
    var e := match r.pc
      case Created => InitOk(j)
      case Initialized => ConnectOk(j)
      case Connected => if r.sessionOpen then LockOk(j) else LockFail(j)
      case Locked => ReadLedger(j)
      case Migrating(pending, _) => if pending == [] then AllApplied(j) else ApplyOne(j)
      case Unlocking(_) => if r.sessionOpen then UnlockOk(j) else UnlockFail(j)
      case Ending(_) => EndSession(j)
      case _ => Destroy(j);
    assert Next(chain, w, e).Some?;
  }

  /** An upper bound on what can still happen to a replica. */
  function StepsLeft(chain: nat, r: Replica): nat {
    (match r.pc
     case Created => chain + 9
     case Initialized => chain + 8
     case Connected => chain + 6
     case Locked => chain + 5
     case Migrating(pending, _) => |pending| + 4
     case Unlocking(_) => 3
     case Ending(_) => 2
     case Destroying => 1
     case _ => 0)
    + if r.sessionOpen then 1 else 0
  }

  function TotalLeft(chain: nat, replicas: seq<Replica>): nat {
    if replicas == [] then 0 else StepsLeft(chain, replicas[0]) + TotalLeft(chain, replicas[1..])
  }

  lemma {:induction false} TotalAfterMove(chain: nat, replicas: seq<Replica>, i: int, r: Replica)
    requires 0 <= i < |replicas|
    ensures TotalLeft(chain, replicas[i := r])
         == TotalLeft(chain, replicas) - StepsLeft(chain, replicas[i]) + StepsLeft(chain, r)
  {
    if i == 0 {
      assert replicas[0 := r][1..] == replicas[1..];
    } else {
      assert replicas[i := r][1..] == replicas[1..][i - 1 := r];
      TotalAfterMove(chain, replicas[1..], i - 1, r);
    }
  }

  lemma {:induction false} PendingIsBounded(chain: nat, ledger: seq<int>, from: nat)
    requires from <= chain
    ensures |Pending(chain, ledger, from)| <= chain - from
    decreases chain - from
  {
    if from < chain {
      PendingIsBounded(chain, ledger, from + 1);
    }
  }

  lemma NextUsesAStep(chain: nat, w: World, e: Event)
    requires HolderInv(w) && Next(chain, w, e).Some?
    ensures TotalLeft(chain, Next(chain, w, e).value.replicas) < TotalLeft(chain, w.replicas)
  {
    var after := Next(chain, w, e).value;
    PendingIsBounded(chain, w.ledger, 0);
    assert Tidy(w.replicas[e.i]);
    assert after.replicas == w.replicas[e.i := after.replicas[e.i]];
    TotalAfterMove(chain, w.replicas, e.i, after.replicas[e.i]);
  }

  lemma {:induction false} RunsAreBounded(chain: nat, w: World, events: seq<Event>)
    requires HolderInv(w) && Exec(chain, w, events).Some?
    ensures |events| + TotalLeft(chain, Exec(chain, w, events).value.replicas) <= TotalLeft(chain, w.replicas)
    decreases |events|
  {
    if events != [] {
      NextKeepsHolder(chain, w, events[0]);
      NextUsesAStep(chain, w, events[0]);
      RunsAreBounded(chain, Next(chain, w, events[0]).value, events[1..]);
    }
  }

  lemma {:induction false} AllCreated(chain: nat, replicas: seq<Replica>)
    requires forall i :: 0 <= i < |replicas| ==> replicas[i] == Replica(Created, false, false)
    ensures TotalLeft(chain, replicas) == |replicas| * (chain + 9)
  {
    if replicas != [] {
      AllCreated(chain, replicas[1..]);
    }
  }

  /**
   Every boot ends, whatever fails, whichever sessions are lost and however the replicas interleave: a
   run has at most chain + 9 events per replica, and one that can go no further has every factory
   returned or thrown, with no lock held and nothing open but the DataSources handed out.
   */
  lemma EveryBootEnds(chain: nat, w: World, events: seq<Event>)
    requires Boot(w) && Exec(chain, w, events).Some?
    ensures |events| <= |w.replicas| * (chain + 9)
    ensures var end := Exec(chain, w, events).value;
            || (exists e: Event :: !e.SessionLost? && Next(chain, end, e).Some?)
            || (&& end.holder == None
                && forall i :: 0 <= i < |end.replicas| ==>
                     && Finished(end.replicas[i].pc) && !end.replicas[i].sessionOpen
                     && (end.replicas[i].pc.Returned? <==> end.replicas[i].sourceOpen))
  {
    BootStartsInv(chain, w);
    AllCreated(chain, w.replicas);
    RunsAreBounded(chain, w, events);
    RunsKeepHolder(chain, w, events);
    var end := Exec(chain, w, events).value;
    if exists i :: 0 <= i < |end.replicas| && !Finished(end.replicas[i].pc) {
      NoDeadlock(chain, end);
    } else {
      FinishedHoldNothing(end);
    }
  }

  // ---------------------------------------------------------------- who returns and who throws

  /** One of the calls whose failure fails the boot: all of them but the unlock, `end` and `destroy`. */
  predicate Fails(e: Event, i: int) {
    match e
    case InitFail(j) => j == i
    case ClientFail(j) => j == i
    case ConnectFail(j) => j == i
    case LockFail(j) => j == i
    case ReadFail(j) => j == i
    case ApplyFail(j, _) => j == i
    case _ => false
  }

  /** The replica is on its way out with an error. */
  predicate Failing(pc: Pc) {
    pc == Unlocking(false) || pc == Ending(false) || pc.Destroying? || pc.Threw?
  }

  lemma {:induction false} FailingIffCallFailed(chain: nat, w: World, events: seq<Event>, i: int)
    requires Exec(chain, w, events).Some? && 0 <= i < |w.replicas|
    ensures var end := Exec(chain, w, events).value;
            && |end.replicas| == |w.replicas|
            && (Failing(end.replicas[i].pc) <==>
                  Failing(w.replicas[i].pc) || exists e :: e in events && Fails(e, i))
    decreases |events|
  {
    if events != [] {
      var e, rest := events[0], events[1..];
      var next := Next(chain, w, e).value;
      assert Failing(next.replicas[i].pc) <==> Failing(w.replicas[i].pc) || Fails(e, i);
      FailingIffCallFailed(chain, next, rest, i);
      assert forall x :: x in events <==> x == e || x in rest;
    }
  }

  /**
   A finished factory threw exactly when one of its calls to initialize, construct the client, connect,
   lock, read or apply failed, and returned otherwise. A failed unlock or a lost session alone fails nothing.
   */
  lemma ThrewIffCallFailed(chain: nat, w: World, events: seq<Event>, i: int)
    requires Boot(w) && Exec(chain, w, events).Some? && 0 <= i < |w.replicas|
    ensures var end := Exec(chain, w, events).value;
            && |end.replicas| == |w.replicas|
            && (Finished(end.replicas[i].pc) ==>
                  if exists e :: e in events && Fails(e, i) then end.replicas[i].pc.Threw?
                  else end.replicas[i].pc.Returned?)
  {
    FailingIffCallFailed(chain, w, events, i);
  }

  /** Each call of a replica may fail when, and only when, it is its turn. */
  lemma CallsMayFail(chain: nat, w: World, i: int)
    requires 0 <= i < |w.replicas|
    ensures w.replicas[i].pc.Created? <==> Next(chain, w, InitFail(i)).Some?
    ensures w.replicas[i].pc.Initialized? <==> Next(chain, w, ConnectFail(i)).Some?
    ensures w.replicas[i].pc.Initialized? <==> Next(chain, w, ClientFail(i)).Some?
    ensures w.replicas[i].pc.Connected? <==> Next(chain, w, LockFail(i)).Some?
  {
  }

  lemma LateCallsMayFail(chain: nat, w: World, i: int)
    requires 0 <= i < |w.replicas|
    ensures w.replicas[i].pc.Locked? <==> Next(chain, w, ReadFail(i)).Some?
    ensures forall rollback :: w.replicas[i].pc.Migrating? <==> Next(chain, w, ApplyFail(i, rollback)).Some?
    ensures w.replicas[i].pc.Unlocking? <==> Next(chain, w, UnlockFail(i)).Some?
    ensures w.replicas[i].sessionOpen <==> Next(chain, w, SessionLost(i)).Some?
  {
  }

  /** And may succeed then: a lock only when it is free and the session open, a boot step only while one is due. */
  lemma CallsMaySucceed(chain: nat, w: World, i: int)
    requires 0 <= i < |w.replicas|
    ensures w.replicas[i].pc.Created? <==> Next(chain, w, InitOk(i)).Some?
    ensures w.replicas[i].pc.Initialized? <==> Next(chain, w, ConnectOk(i)).Some?
    ensures w.replicas[i].pc.Connected? && w.replicas[i].sessionOpen && w.holder.None?
       <==> Next(chain, w, LockOk(i)).Some?
    ensures w.replicas[i].pc.Unlocking? && w.replicas[i].sessionOpen <==> Next(chain, w, UnlockOk(i)).Some?
    ensures w.replicas[i].pc.Ending? <==> Next(chain, w, EndSession(i)).Some?
    ensures w.replicas[i].pc.Destroying? <==> Next(chain, w, Destroy(i)).Some?
  {
  }

  /** A replica that starts migrating notes what the ledger lists. */
  lemma ReadNotesLedger(chain: nat, w: World, i: int)
    requires Next(chain, w, ReadLedger(i)).Some?
    ensures var after := Next(chain, w, ReadLedger(i)).value;
            && after.ledger == w.ledger && after.replicas[i].pc.Migrating?
            && after.replicas[i].pc.before == |w.ledger|
  {
  }

  /** A failed apply that rolls back leaves the ledger as its replica read it; any other leaves it as it stands. */
  lemma RollbackRestores(chain: nat, start: seq<int>, w: World, i: int, rollback: bool)
    requires Inv(chain, start, w) && 0 <= i < |w.replicas| && w.replicas[i].pc.Migrating?
    ensures var ledger := Next(chain, w, ApplyFail(i, rollback)).value.ledger;
            if rollback then ledger <= w.ledger && |ledger| == w.replicas[i].pc.before else ledger == w.ledger
    ensures forall e: Event :: e.i == i && Next(chain, w, e).Some? ==>
              var pc := Next(chain, w, e).value.replicas[i].pc;
              pc.Migrating? ==> pc.before == w.replicas[i].pc.before
  {
    assert KnowsHowFar(Complete(chain, start), |start|, w.ledger, w.replicas[i].pc);
  }

  /** The lock is taken by the lock call alone, and given up by the unlock, the end or the loss of its session. */
  lemma LockChangesHands(chain: nat, w: World, e: Event)
    requires HolderInv(w) && Next(chain, w, e).Some?
    ensures var after := Next(chain, w, e).value.holder;
            && (e.LockOk? ==> w.holder == None && after == Some(e.i))
            && (e.UnlockOk? || e.EndSession? || e.SessionLost? ==>
                  after == if w.holder == Some(e.i) then None else w.holder)
            && (!e.LockOk? && !e.UnlockOk? && !e.EndSession? && !e.SessionLost? ==> after == w.holder)
  {
  }

  // ---------------------------------------------------------------- what a lost session costs

  lemma {:induction false} ExecConcat(chain: nat, w: World, first: seq<Event>, second: seq<Event>)
    requires Exec(chain, w, first).Some?
    ensures Exec(chain, w, first + second) == Exec(chain, Exec(chain, w, first).value, second)
    decreases |first|
  {
    if first == [] {
      assert first + second == second;
    } else {
      assert (first + second)[0] == first[0] && (first + second)[1..] == first[1..] + second;
      ExecConcat(chain, Next(chain, w, first[0]).value, first[1..], second);
    }
  }

  /** `events` loses no session and leads from `w` to `end`. */
  ghost predicate Leads(chain: nat, w: World, events: seq<Event>, end: World) {
    Exec(chain, w, events) == Some(end) && forall e :: e in events ==> !e.SessionLost?
  }

  lemma LeadsOne(chain: nat, w: World, e: Event) returns (events: seq<Event>, end: World)
    requires Next(chain, w, e).Some? && !e.SessionLost?
    ensures Leads(chain, w, events, end) && end == Next(chain, w, e).value
  {
    events, end := [e], Next(chain, w, e).value;
    assert [e][1..] == [];
  }

  lemma LeadsThen(chain: nat, w: World, first: seq<Event>, mid: World, second: seq<Event>, end: World)
    requires Leads(chain, w, first, mid) && Leads(chain, mid, second, end)
    ensures Leads(chain, w, first + second, end)
  {
    ExecConcat(chain, w, first, second);
  }

  /** With the lock free, a replica that can still enter gets as far as migrating, and moves nothing else. */
  lemma ReachesMigrating(chain: nat, w: World, i: int) returns (events: seq<Event>, end: World)
    requires 0 <= i < |w.replicas| && (CanEnter(w.replicas[i]) || w.replicas[i].pc.Locked?)
    requires w.holder.None? || w.replicas[i].pc.Locked?
    ensures Leads(chain, w, events, end) && |end.replicas| == |w.replicas|
    ensures end.replicas[i].pc.Migrating?
    ensures forall j :: 0 <= j < |w.replicas| && j != i ==> end.replicas[j] == w.replicas[j]
    ensures w.replicas[i].pc.Locked? ==> end.holder == w.holder
    decreases match w.replicas[i].pc case Created => 3 case Initialized => 2 case Connected => 1 case _ => 0
  {
    var pc := w.replicas[i].pc;
    var e := if pc.Created? then InitOk(i) else if pc.Initialized? then ConnectOk(i)
             else if pc.Connected? then LockOk(i) else ReadLedger(i);
    var first, mid := LeadsOne(chain, w, e);
    if pc.Locked? {
      events, end := first, mid;
    } else {
      var rest;
      rest, end := ReachesMigrating(chain, mid, i);
      LeadsThen(chain, w, first, mid, rest, end);
      events := first + rest;
    }
  }

  /** A replica inside without its session, and one that can still enter, end up migrating together. */
  lemma SecondReplicaEnters(chain: nat, w: World, i: int, j: int) returns (events: seq<Event>, end: World)
    requires 0 <= i < |w.replicas| && 0 <= j < |w.replicas| && i != j && w.holder.None?
    requires Inside(w.replicas[i].pc) && CanEnter(w.replicas[j])
    ensures Leads(chain, w, events, end) && TwoMigrating(end)
  {
    var first, mid := [], w;
    if w.replicas[i].pc.Locked? {
      first, mid := ReachesMigrating(chain, w, i);
    }
    var second;
    second, end := ReachesMigrating(chain, mid, j);
    LeadsThen(chain, w, first, mid, second, end);
    events := first + second;
    var low, high := if i < j then i else j, if i < j then j else i;
    assert end.replicas[low].pc.Migrating? && end.replicas[high].pc.Migrating?;
  }

  lemma {:induction false} LosslessIsHarmless(chain: nat, w: World, events: seq<Event>)
    requires forall e :: e in events ==> !e.SessionLost?
    ensures HarmlessRun(chain, w, events)
    decreases |events|
  {
    if events != [] && Next(chain, w, events[0]).Some? {
      LosslessIsHarmless(chain, Next(chain, w, events[0]).value, events[1..]);
    }
  }

  /**
   What a lost session costs, exactly: two replicas can come to migrate together, with no further
   loss, if and only if the loser is inside and another replica can still enter.
   */
  lemma LossBreaksExclusionIff(chain: nat, start: seq<int>, w: World, i: int)
    requires Inv(chain, start, w) && 0 <= i < |w.replicas| && w.replicas[i].sessionOpen
    ensures var lost := Next(chain, w, SessionLost(i)).value;
            (exists events, end :: Leads(chain, lost, events, end) && TwoMigrating(end))
            <==> Inside(w.replicas[i].pc) && exists j :: 0 <= j < |w.replicas| && j != i && CanEnter(w.replicas[j])
  {
    var lost := Next(chain, w, SessionLost(i)).value;
    if Harmless(w, SessionLost(i)) {
      NextKeepsHolder(chain, w, SessionLost(i));
      NextKeepsExclusive(chain, w, SessionLost(i));
      NextKeepsProgress(chain, start, w, SessionLost(i));
      forall events, end | Leads(chain, lost, events, end) ensures !TwoMigrating(end) {
        LosslessIsHarmless(chain, lost, events);
        RunsKeepInv(chain, start, lost, events);
        if TwoMigrating(end) {
          var a, b :| 0 <= a < b < |end.replicas| && end.replicas[a].pc.Migrating? && end.replicas[b].pc.Migrating?;
          InsideIsUnique(end, a, b);
          assert false;
        }
      }
    } else {
      var j :| 0 <= j < |w.replicas| && j != i && (Inside(w.replicas[j].pc) || CanEnter(w.replicas[j]));
      if Inside(w.replicas[j].pc) { InsideIsUnique(w, i, j); }
      assert lost.holder.None? && lost.replicas[j] == w.replicas[j];
      var events, end := SecondReplicaEnters(chain, lost, i, j);
    }
  }
}
