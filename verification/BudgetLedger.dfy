/**
 The reference account behind the in-flight body budget: which requests hold how many bytes.
 There is no counter here. What is in flight, and what a client holds, are sums recomputed from
 the set of live requests; the middleware's counters (InflightBodyBudget) are proved equal to them.
 */
module BudgetLedger {
  import opened Wrappers
  import Sums

  const STALL_TIMEOUT_MS: nat := 15_000
  const UNDECLARED_OPENING_RESERVATION_BYTES: nat := 1_048_576
  const MAX_TRACKED_CLIENTS: nat := 10_000
  /** JavaScript's Number.EPSILON, two to the minus 52. */
  const EPSILON: real := 1.0 / 4503599627370496.0

  /** The resolved client address. Only its identity matters to the account. */
  type Client = int

  /** What the headers announce: no body, a usable Content-Length, or a chunked body. */
  datatype Body = Absent | Declared(length: nat) | Chunked

  datatype Config = Config(budgetBytes: nat, perClientCap: nat, placeholder: nat)

  function Scaled(whole: real, share: real): (part: real)
    requires 0.0 <= whole && 0.0 <= share <= 1.0
    ensures 0.0 <= part <= whole
  {
    assert whole * (1.0 - share) >= 0.0;
    whole * share
  }

  function MakeConfig(budgetBytes: nat, perClientShare: real): (cfg: Config)
    ensures cfg.perClientCap >= 1 && cfg.placeholder >= 1
    ensures cfg.perClientCap <= Max(1, budgetBytes) && cfg.placeholder <= Max(1, budgetBytes)
  {
    var clampedLow := if perClientShare < EPSILON then EPSILON else perClientShare;
    var share := if clampedLow > 1.0 then 1.0 else clampedLow;
    var product := Scaled(budgetBytes as real, share);
    Config(
      budgetBytes,
      Max(1, product.Floor),
      Max(1, Min(UNDECLARED_OPENING_RESERVATION_BYTES, budgetBytes)))
  }

  /**
   What the share buys: the largest whole number of bytes within it, and never less than one. A
   share above 1 is the whole budget; one below EPSILON buys a single byte of any budget up to 2^52.
   */
  lemma CapIsShareOfBudget(budgetBytes: nat, perClientShare: real)
    ensures var cfg := MakeConfig(budgetBytes, perClientShare);
            && cfg.budgetBytes == budgetBytes
            && (perClientShare >= 1.0 ==> cfg.perClientCap == Max(1, budgetBytes))
            && (EPSILON <= perClientShare < 1.0 ==>
                  && cfg.perClientCap as real + 1.0 > budgetBytes as real * perClientShare
                  && (cfg.perClientCap == 1 || cfg.perClientCap as real <= budgetBytes as real * perClientShare))
            && (perClientShare < EPSILON && budgetBytes <= 4503599627370496 ==> cfg.perClientCap == 1)
  {
    if perClientShare < EPSILON && budgetBytes <= 4503599627370496 {
      assert budgetBytes as real * EPSILON <= 1.0;
    }
  }

  /** One live request: who sent it, what it reserves, and what the stall reaper last saw. */
  datatype Hold = Hold(
    client: Client,
    body: Body,
    startBytes: nat,
    reserved: nat,
    lastBytes: nat,
    lastProgress: int,
    armed: bool)

  type Ledger<R> = map<R, Hold>

  ghost function Held<R>(ledger: Ledger<R>): map<R, int> {
    map r | r in ledger :: ledger[r].reserved
  }

  ghost function HeldBy<R>(ledger: Ledger<R>, client: Client): map<R, int> {
    map r | r in ledger && ledger[r].client == client :: ledger[r].reserved
  }

  /** Bytes seen so far on the chunked bodies. */
  ghost function SeenChunked<R>(ledger: Ledger<R>): map<R, int> {
    map r | r in ledger && ledger[r].body.Chunked? :: ledger[r].lastBytes - ledger[r].startBytes
  }

  ghost function InFlight<R>(ledger: Ledger<R>): int {
    Sums.Total(Held(ledger))
  }

  ghost function ClientHeld<R>(ledger: Ledger<R>, client: Client): int {
    Sums.Total(HeldBy(ledger, client))
  }

  function Opening(cfg: Config, body: Body): nat {
    match body
    case Absent => 0
    case Declared(n) => n
    case Chunked => cfg.placeholder
  }

  function OpenHold(cfg: Config, client: Client, body: Body, bytesRead: nat, now: int): Hold {
    Hold(client, body, bytesRead, Opening(cfg, body), bytesRead, now, Opening(cfg, body) > 0)
  }

  /** The clients with a live request, and those of them that reserve bytes. */
  ghost function LiveClients<R>(ledger: Ledger<R>): set<Client> {
    set r | r in ledger :: ledger[r].client
  }

  ghost function Holders<R>(ledger: Ledger<R>): set<Client> {
    set r | r in ledger && ledger[r].reserved > 0 :: ledger[r].client
  }

  ghost predicate Admissible<R>(cfg: Config, ledger: Ledger<R>, client: Client, size: nat) {
    && InFlight(ledger) + size <= cfg.budgetBytes
    && ClientHeld(ledger, client) + size <= cfg.perClientCap
  }

  /** Both bounds, as they concern one client. */
  ghost predicate Fits<R>(cfg: Config, ledger: Ledger<R>, client: Client) {
    Admissible(cfg, ledger, client, 0)
  }

  /** A chunked body is priced at what has arrived, and never below the opening placeholder. */
  function Priced(cfg: Config, hold: Hold, readNow: nat): Hold {
    if hold.body.Declared? then hold else hold.(reserved := Max(cfg.placeholder, readNow - hold.startBytes))
  }

  /** What one poll decides about one request, before the budget has its say. */
  datatype Verdict = Keep(hold: Hold) | Reap

  function Poll(cfg: Config, hold: Hold, complete: bool, readNow: nat, now: int): Verdict {
    if complete then
      Keep(hold.(armed := false))
    else if readNow != hold.lastBytes then
      Keep(Priced(cfg, hold, readNow).(
           lastBytes := readNow,
           lastProgress := now,
           armed := hold.armed && !(hold.body.Declared? && readNow - hold.startBytes >= hold.body.length)))
    else if now - hold.lastProgress >= STALL_TIMEOUT_MS then
      Reap
    else
      Keep(hold)
  }

  ghost function AfterPoll<R>(cfg: Config, ledger: Ledger<R>, r: R, complete: bool, readNow: nat, now: int): Ledger<R>
    requires r in ledger
  {
    match Poll(cfg, ledger[r], complete, readNow, now)
    case Reap => ledger - {r}
    case Keep(hold) =>
      if Fits(cfg, ledger[r := hold], hold.client) then ledger[r := hold] else ledger - {r}
  }

  // ---------------------------------------------------------------- runs

  datatype Event<R> =
    | Arrive(r: R, client: Client, body: Body, bytesRead: nat, at: int)
    | PollTick(r: R, complete: bool, readNow: nat, at: int)
    | BodyEnd(r: R)
    | Terminal(r: R)

  /** One event. An arrival may also be refused, which leaves no trace. */
  ghost predicate Next<R>(cfg: Config, ledger: Ledger<R>, e: Event<R>, after: Ledger<R>) {
    match e
    case Arrive(r, client, body, bytesRead, at) =>
      || after == ledger
      || (&& r !in ledger
          && Admissible(cfg, ledger, client, Opening(cfg, body))
          && after == ledger[r := OpenHold(cfg, client, body, bytesRead, at)])
    case PollTick(r, complete, readNow, at) =>
      r in ledger && ledger[r].armed && after == AfterPoll(cfg, ledger, r, complete, readNow, at)
    case BodyEnd(r) =>
      after == if r in ledger then ledger[r := ledger[r].(armed := false)] else ledger
    case Terminal(r) =>
      after == ledger - {r}
  }

  ghost predicate Run<R>(cfg: Config, ledgers: seq<Ledger<R>>, events: seq<Event<R>>) {
    && |ledgers| == |events| + 1
    && ledgers[0] == map[]
    && forall i :: 0 <= i < |events| ==> Next(cfg, ledgers[i], events[i], ledgers[i + 1])
  }

  // ---------------------------------------------------------------- invariant

  /** A reservation is exactly what the body is known to weigh, and a reaper watches a real body. */
  ghost predicate WellKept(cfg: Config, hold: Hold) {
    && (hold.armed ==> hold.reserved > 0)
    && hold.reserved ==
       match hold.body
       case Absent => 0
       case Declared(n) => n
       case Chunked => Max(cfg.placeholder, hold.lastBytes - hold.startBytes)
  }

  ghost predicate Bounded<R>(cfg: Config, ledger: Ledger<R>) {
    && InFlight(ledger) <= cfg.budgetBytes
    && forall client :: ClientHeld(ledger, client) <= cfg.perClientCap
  }

  ghost predicate Inv<R>(cfg: Config, ledger: Ledger<R>) {
    && cfg.placeholder >= 1
    && Bounded(cfg, ledger)
    && forall r :: r in ledger ==> WellKept(cfg, ledger[r])
  }

  // ---------------------------------------------------------------- how the sums move

  function Current<R(==)>(ledger: Ledger<R>, r: R): nat {
    if r in ledger then ledger[r].reserved else 0
  }

  lemma ClientSumAfterSet<R>(ledger: Ledger<R>, r: R, hold: Hold, after: Ledger<R>, client: Client)
    requires r in ledger ==> ledger[r].client == hold.client
    requires after == ledger[r := hold]
    ensures ClientHeld(after, client)
         == ClientHeld(ledger, client) + if client == hold.client then hold.reserved - Current(ledger, r) else 0
  {
    var before := HeldBy(ledger, client);
    if client == hold.client {
      assert HeldBy(after, client) == before[r := hold.reserved];
      Sums.TotalUpdate(before, r, hold.reserved);
    } else {
      assert HeldBy(after, client) == before;
    }
  }

  lemma SumsAfterSet<R>(ledger: Ledger<R>, r: R, hold: Hold, after: Ledger<R>)
    requires r in ledger ==> ledger[r].client == hold.client
    requires after == ledger[r := hold]
    ensures InFlight(after) == InFlight(ledger) + hold.reserved - Current(ledger, r)
    ensures forall client :: ClientHeld(after, client)
              == ClientHeld(ledger, client) + if client == hold.client then hold.reserved - Current(ledger, r) else 0
  {
    assert Held(after) == Held(ledger)[r := hold.reserved];
    Sums.TotalUpdate(Held(ledger), r, hold.reserved);
    forall client
      ensures ClientHeld(after, client)
              == ClientHeld(ledger, client) + if client == hold.client then hold.reserved - Current(ledger, r) else 0
    {
      ClientSumAfterSet(ledger, r, hold, after, client);
    }
  }

  lemma SumsAfterRemove<R>(ledger: Ledger<R>, r: R, after: Ledger<R>)
    requires r in ledger && after == ledger - {r}
    ensures InFlight(after) == InFlight(ledger) - ledger[r].reserved
    ensures forall client :: ClientHeld(after, client)
              == ClientHeld(ledger, client) - if client == ledger[r].client then ledger[r].reserved else 0
  {
    assert Held(after) == Held(ledger) - {r};
    Sums.TotalSplit(Held(ledger), r);
    forall client
      ensures ClientHeld(after, client)
              == ClientHeld(ledger, client) - if client == ledger[r].client then ledger[r].reserved else 0
    {
      if client == ledger[r].client {
        assert HeldBy(after, client) == HeldBy(ledger, client) - {r};
        Sums.TotalSplit(HeldBy(ledger, client), r);
      } else {
        assert HeldBy(after, client) == HeldBy(ledger, client);
      }
    }
  }

  lemma SumsNonNegative<R>(ledger: Ledger<R>, client: Client)
    ensures 0 <= ClientHeld(ledger, client) <= InFlight(ledger)
  {
    Sums.TotalMonotone(HeldBy(ledger, client), Held(ledger));
    Sums.TotalMonotone(map[], HeldBy(ledger, client));
  }

  /** A client with bytes in flight has a live request to show for them. */
  lemma HoldingMeansLive<R>(ledger: Ledger<R>, client: Client)
    requires ClientHeld(ledger, client) != 0
    ensures exists r :: r in ledger && ledger[r].client == client
  {
    if HeldBy(ledger, client) != map[] {
      var r :| r in HeldBy(ledger, client);
    }
  }

  // ---------------------------------------------------------------- safety of every run

  lemma SetKeepsInv<R>(cfg: Config, ledger: Ledger<R>, r: R, hold: Hold)
    requires Inv(cfg, ledger) && WellKept(cfg, hold)
    requires r in ledger ==> ledger[r].client == hold.client
    requires Fits(cfg, ledger[r := hold], hold.client)
    ensures Inv(cfg, ledger[r := hold])
  {
    var after := ledger[r := hold];
    SumsAfterSet(ledger, r, hold, after);
  }

  lemma RemoveKeepsInv<R>(cfg: Config, ledger: Ledger<R>, r: R)
    requires Inv(cfg, ledger)
    ensures Inv(cfg, ledger - {r})
  {
    var after := ledger - {r};
    if r in ledger {
      SumsAfterRemove(ledger, r, after);
    } else {
      assert after == ledger;
    }
  }

  lemma AdmissionKeepsInv<R>(cfg: Config, ledger: Ledger<R>, r: R, client: Client, body: Body, bytesRead: nat, at: int)
    requires Inv(cfg, ledger) && r !in ledger && Admissible(cfg, ledger, client, Opening(cfg, body))
    ensures Inv(cfg, ledger[r := OpenHold(cfg, client, body, bytesRead, at)])
  {
    var hold := OpenHold(cfg, client, body, bytesRead, at);
    SumsAfterSet(ledger, r, hold, ledger[r := hold]);
    SetKeepsInv(cfg, ledger, r, hold);
  }

  lemma FitsDependsOnPrice<R>(cfg: Config, ledger: Ledger<R>, r: R, hold: Hold, other: Hold)
    requires r in ledger && ledger[r].client == hold.client == other.client
    requires hold.reserved == other.reserved
    ensures Fits(cfg, ledger[r := hold], hold.client) == Fits(cfg, ledger[r := other], hold.client)
  {
    SumsAfterSet(ledger, r, hold, ledger[r := hold]);
    SumsAfterSet(ledger, r, other, ledger[r := other]);
  }

  /** Any change that leaves the price of a reservation alone. */
  lemma TouchKeepsInv<R>(cfg: Config, ledger: Ledger<R>, r: R, hold: Hold)
    requires Inv(cfg, ledger) && r in ledger && WellKept(cfg, hold)
    requires ledger[r].client == hold.client && ledger[r].reserved == hold.reserved
    ensures Fits(cfg, ledger[r := hold], hold.client) && Inv(cfg, ledger[r := hold])
  {
    SumsAfterSet(ledger, r, hold, ledger[r := hold]);
    assert ClientHeld(ledger, hold.client) <= cfg.perClientCap;
    SetKeepsInv(cfg, ledger, r, hold);
  }

  lemma PollKeepsInv<R>(cfg: Config, ledger: Ledger<R>, r: R, complete: bool, readNow: nat, now: int)
    requires Inv(cfg, ledger) && r in ledger && ledger[r].armed
    ensures Inv(cfg, AfterPoll(cfg, ledger, r, complete, readNow, now))
  {
    RemoveKeepsInv(cfg, ledger, r);
    var verdict := Poll(cfg, ledger[r], complete, readNow, now);
    if verdict.Keep? && Fits(cfg, ledger[r := verdict.hold], verdict.hold.client) {
      SetKeepsInv(cfg, ledger, r, verdict.hold);
    }
  }

  lemma NextKeepsInv<R>(cfg: Config, ledger: Ledger<R>, e: Event<R>, after: Ledger<R>)
    requires Inv(cfg, ledger) && Next(cfg, ledger, e, after)
    ensures Inv(cfg, after)
  {
    match e
    case Arrive(r, client, body, bytesRead, at) =>
      if after != ledger { AdmissionKeepsInv(cfg, ledger, r, client, body, bytesRead, at); }
    case PollTick(r, complete, readNow, at) =>
      PollKeepsInv(cfg, ledger, r, complete, readNow, at);
    case BodyEnd(r) =>
      if r in ledger { TouchKeepsInv(cfg, ledger, r, after[r]); }
    case Terminal(r) =>
      RemoveKeepsInv(cfg, ledger, r);
  }

  /** At every event boundary of every run, both bounds hold and every reservation is exact. */
  lemma {:induction false} RunsAreSafe<R>(cfg: Config, ledgers: seq<Ledger<R>>, events: seq<Event<R>>, i: nat)
    requires cfg.placeholder >= 1 && Run(cfg, ledgers, events) && i < |ledgers|
    ensures Inv(cfg, ledgers[i])
  {
    if i == 0 {
      assert Held(ledgers[0]) == map[];
      forall client ensures ClientHeld(ledgers[0], client) == 0 {
        assert HeldBy(ledgers[0], client) == map[];
      }
    } else {
      RunsAreSafe(cfg, ledgers, events, i - 1);
      NextKeepsInv(cfg, ledgers[i - 1], events[i - 1], ledgers[i]);
    }
  }

  // ---------------------------------------------------------------- what an event does to a request

  /** What a request weighs after a poll that read `readNow`. */
  function Weight(cfg: Config, hold: Hold, readNow: nat): int {
    if hold.body.Chunked? then Max(cfg.placeholder, readNow - hold.startBytes) else hold.reserved
  }

  /** Fifteen seconds without a byte. */
  predicate Stalled(hold: Hold, readNow: nat, now: int) {
    readNow == hold.lastBytes && now - hold.lastProgress >= 15_000
  }

  /** New bytes took a chunked body past the budget, or its client past its share. */
  ghost predicate Overruns<R>(cfg: Config, ledger: Ledger<R>, hold: Hold, readNow: nat) {
    && readNow != hold.lastBytes
    && (|| InFlight(ledger) - hold.reserved + Weight(cfg, hold, readNow) > cfg.budgetBytes
        || ClientHeld(ledger, hold.client) - hold.reserved + Weight(cfg, hold, readNow) > cfg.perClientCap)
  }

  /** A poll drops exactly the requests that stalled or overran, and settles every other one. */
  lemma PollDropsIff<R>(cfg: Config, ledger: Ledger<R>, r: R, complete: bool, readNow: nat, now: int)
    requires Inv(cfg, ledger) && r in ledger && ledger[r].armed
    ensures var hold, after := ledger[r], AfterPoll(cfg, ledger, r, complete, readNow, now);
            && (r !in after <==> !complete && (Stalled(hold, readNow, now) || Overruns(cfg, ledger, hold, readNow)))
            && (r in after ==>
                  && after[r].client == hold.client && after[r].body == hold.body
                  && after[r].reserved == (if complete then hold.reserved else Weight(cfg, hold, readNow))
                  && (after[r].armed <==>
                        !complete && !(hold.body.Declared? && readNow != hold.lastBytes
                                       && readNow - hold.startBytes >= hold.body.length)))
  {
    var hold := ledger[r];
    assert WellKept(cfg, hold) && ClientHeld(ledger, hold.client) <= cfg.perClientCap;
    var verdict := Poll(cfg, hold, complete, readNow, now);
    if verdict.Keep? {
      SumsAfterSet(ledger, r, verdict.hold, ledger[r := verdict.hold]);
    }
  }

  /** A live request leaves the account by its terminal event, or by a poll that drops it, and in no other way. */
  lemma ReleasedOnlyBy<R>(cfg: Config, ledger: Ledger<R>, e: Event<R>, after: Ledger<R>, r: R)
    requires Inv(cfg, ledger) && Next(cfg, ledger, e, after) && r in ledger
    ensures r !in after
       <==> e.r == r
            && (|| e.Terminal?
                || (e.PollTick? && !e.complete
                    && (Stalled(ledger[r], e.readNow, e.at) || Overruns(cfg, ledger, ledger[r], e.readNow))))
    ensures e == Event.BodyEnd(r) ==> after == ledger[r := ledger[r].(armed := false)]
    ensures e.r != r ==> after[r] == ledger[r]
  {
    if e.PollTick? && e.r == r {
      PollDropsIff(cfg, ledger, r, e.complete, e.readNow, e.at);
    }
  }

  /** Once its body was read to the end a request is never reaped: it stays as it is until its terminal event. */
  lemma {:induction false} EndedBodyStays<R>(
    cfg: Config, ledgers: seq<Ledger<R>>, events: seq<Event<R>>, a: nat, m: nat, r: R)
    requires cfg.placeholder >= 1 && Run(cfg, ledgers, events) && a < m < |ledgers|
    requires events[a] == Event.BodyEnd(r) && r in ledgers[a]
    requires forall i :: a < i < m ==> events[i] != Event.Terminal(r)
    ensures r in ledgers[m] && ledgers[m][r] == ledgers[a][r].(armed := false)
    decreases m
  {
    assert Next(cfg, ledgers[m - 1], events[m - 1], ledgers[m]);
    if m > a + 1 {
      EndedBodyStays(cfg, ledgers, events, a, m - 1, r);
      RunsAreSafe(cfg, ledgers, events, m - 1);
      ReleasedOnlyBy(cfg, ledgers[m - 1], events[m - 1], ledgers[m], r);
    }
  }

  /** The bytes seen on all live chunked bodies never outgrow the budget. */
  lemma ChunkedBytesAreAccounted<R>(cfg: Config, ledger: Ledger<R>)
    requires Inv(cfg, ledger)
    ensures Sums.Total(SeenChunked(ledger)) <= InFlight(ledger) <= cfg.budgetBytes
  {
    forall r | r in SeenChunked(ledger) ensures SeenChunked(ledger)[r] <= Held(ledger)[r] {
      assert WellKept(cfg, ledger[r]);
    }
    Sums.TotalMonotone(SeenChunked(ledger), Held(ledger));
  }

  /** On a byte counter that only grows, no event but its own release shrinks a reservation. */
  lemma ReservationsOnlyGrow<R>(cfg: Config, ledger: Ledger<R>, e: Event<R>, after: Ledger<R>, r: R)
    requires Inv(cfg, ledger) && Next(cfg, ledger, e, after)
    requires e.PollTick? && e.r == r ==> e.readNow >= ledger[r].lastBytes
    requires r in ledger && r in after
    ensures after[r].reserved >= ledger[r].reserved
    ensures after[r].client == ledger[r].client && after[r].body == ledger[r].body
    ensures e.r != r ==> after[r] == ledger[r]
  {
    assert WellKept(cfg, ledger[r]);
  }

  // ---------------------------------------------------------------- fairness of the default sizing

  lemma {:induction false} AtMostTwoHolders<R>(ledger: Ledger<R>, client: Client, other: Client)
    requires forall r :: r in ledger && ledger[r].reserved > 0 ==> ledger[r].client in {client, other}
    ensures InFlight(ledger) <= ClientHeld(ledger, client) + ClientHeld(ledger, other)
    decreases ledger.Keys
  {
    if ledger == map[] {
      assert Held(ledger) == map[] == HeldBy(ledger, client) == HeldBy(ledger, other);
    } else {
      var r :| r in ledger;
      SumsAfterRemove(ledger, r, ledger - {r});
      AtMostTwoHolders(ledger - {r}, client, other);
    }
  }

  /** No one but these two holds bytes. */
  ghost predicate OnlyTwoHold<R>(ledger: Ledger<R>, client: Client, other: Client) {
    forall r :: r in ledger && ledger[r].reserved > 0 ==> ledger[r].client in {client, other}
  }

  /**
   With a budget of four per-request limits and half of it per client, a client that holds at most
   one limit breaks neither bound with a body within the limit, as long as at most one other client
   holds bytes.
   */
  lemma DefaultSizingIsFair<R>(cfg: Config, ledger: Ledger<R>, limit: nat, client: Client, other: Client, size: nat)
    requires limit > 0 && cfg == MakeConfig(4 * limit, 0.5) && Inv(cfg, ledger)
    requires OnlyTwoHold(ledger, client, other)
    requires ClientHeld(ledger, client) <= limit && size <= limit
    ensures InFlight(ledger) + size <= cfg.budgetBytes && ClientHeld(ledger, client) + size <= cfg.perClientCap
  {
    assert (4 * limit) as real * 0.5 == (2 * limit) as real;
    assert cfg.perClientCap == 2 * limit;
    AtMostTwoHolders(ledger, client, other);
    assert ClientHeld(ledger, other) <= cfg.perClientCap;
  }

  /** The case the default sizing promises to admit. */
  ghost predicate FairCase<R>(cfg: Config, ledger: Ledger<R>, client: Client, length: nat) {
    exists limit: nat, other: Client ::
      && 0 < limit && cfg == MakeConfig(4 * limit, 0.5) && OnlyTwoHold(ledger, client, other)
      && ClientHeld(ledger, client) <= limit && length <= limit
  }

  /**
   With the default half share, an idle server takes a chunked body exactly when its budget is one
   byte or at least 2 MiB. Between the two the opening placeholder exceeds one client's share, so a
   per-request limit below 512 KiB turns every chunked body away.
   */
  lemma ChunkedOnIdleServer<R>(budgetBytes: nat, client: Client)
    ensures var cfg := MakeConfig(budgetBytes, 0.5);
            var idle: Ledger<R> := map[];
            Admissible(cfg, idle, client, Opening(cfg, Chunked))
            <==> budgetBytes == 1 || budgetBytes >= 2_097_152
  {
    var idle: Ledger<R> := map[];
    assert Held(idle) == map[] && HeldBy(idle, client) == map[];
    assert (budgetBytes as real * 0.5).Floor == budgetBytes / 2;
  }
}
