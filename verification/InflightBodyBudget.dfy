/**
 The middleware itself: one aggregate counter, one counter per client, and per request the variables
 its closure captures. Every method is one event, and its contract states what happens to the
 reference account (BudgetLedger) of live reservations.
 */
module InflightBodyBudget {
  import opened Wrappers
  import opened BudgetLedger

  type RequestId = int

  /** What the middleware's closure keeps for one admitted request. */
  datatype Closure = Closure(hold: Hold, released: bool, mapAtCapacity: bool)

  ghost function Live(closures: map<RequestId, Closure>): Ledger<RequestId> {
    map r | r in closures && !closures[r].released :: closures[r].hold
  }

  lemma LiveAfterSet(closures: map<RequestId, Closure>, r: RequestId, closure: Closure)
    ensures Live(closures[r := closure])
         == if closure.released then Live(closures) - {r} else Live(closures)[r := closure.hold]
  {
  }

  function Get(m: map<Client, int>, key: Client, default: int): int {
    if key in m then m[key] else default
  }

  /** A new client key is refused once the map is full, rather than evicting a live one. */
  predicate HasRoom(clients: map<Client, int>, client: Client) {
    |clients| < MAX_TRACKED_CLIENTS || client in clients
  }

  /** Conservation: both counters equal the sums over the live requests, and no client key is leaked. */
  ghost predicate Summarises<R>(inFlightBytes: int, clients: map<Client, int>, ledger: Ledger<R>) {
    && inFlightBytes == InFlight(ledger)
    && (forall c :: Get(clients, c, 0) == ClientHeld(ledger, c))
    && (forall c :: c in clients ==> exists r :: r in ledger && ledger[r].client == c)
  }

  lemma SizeAfterSet(clients: map<Client, int>, client: Client, busy: int)
    ensures |clients[client := busy]| == |clients| + if client in clients then 0 else 1
    ensures client in clients ==> clients[client := busy].Keys == clients.Keys
  {
    assert clients[client := busy].Keys == clients.Keys + {client};
  }

  /** One reservation changed by `delta`, and both counters followed it. */
  lemma SummarisesAfterSet<R>(
    inFlightBytes: int, clients: map<Client, int>, ledger: Ledger<R>,
    r: R, hold: Hold, delta: int, clients': map<Client, int>, ledger': Ledger<R>)
    requires Summarises(inFlightBytes - delta, clients, ledger)
    requires r in ledger ==> ledger[r].client == hold.client
    requires delta == hold.reserved - Current(ledger, r)
    requires clients' == clients[hold.client := Get(clients, hold.client, 0) + delta]
    requires ledger' == ledger[r := hold]
    ensures Summarises(inFlightBytes, clients', ledger')
  {
    SumsAfterSet(ledger, r, hold, ledger');
    forall c | c in clients' ensures exists q :: q in ledger' && ledger'[q].client == c {
      if c == hold.client {
        assert r in ledger';
      } else {
        var q :| q in ledger && ledger[q].client == c;
        assert q in ledger';
      }
    }
  }

  /** Changing what the reaper saw, but not the reservation, leaves both counters right. */
  lemma SummarisesAfterTouch<R>(
    inFlightBytes: int, clients: map<Client, int>, ledger: Ledger<R>, r: R, hold: Hold, ledger': Ledger<R>)
    requires Summarises(inFlightBytes, clients, ledger) && r in ledger
    requires ledger[r].client == hold.client && ledger[r].reserved == hold.reserved
    requires ledger' == ledger[r := hold]
    ensures Summarises(inFlightBytes, clients, ledger')
  {
    SumsAfterSet(ledger, r, hold, ledger');
    forall c | c in clients ensures exists q :: q in ledger' && ledger'[q].client == c {
      var q :| q in ledger && ledger[q].client == c;
      assert q in ledger';
    }
  }

  function GivenBack(clients: map<Client, int>, client: Client, reserved: int): map<Client, int> {
    var busy := Get(clients, client, reserved) - reserved;
    if busy > 0 then clients[client := busy] else clients - {client}
  }

  lemma GivingBackAddsNoKey(clients: map<Client, int>, client: Client, reserved: int)
    ensures GivenBack(clients, client, reserved).Keys <= clients.Keys
    ensures |GivenBack(clients, client, reserved)| <= |clients|
  {
    var after := GivenBack(clients, client, reserved);
    assert clients.Keys == after.Keys + (clients.Keys - after.Keys);
    assert |clients.Keys| == |after.Keys| + |clients.Keys - after.Keys|;
  }

  /** The client counter after giving back a reservation: a client at zero loses its key. */
  lemma SummarisesAfterRemove<R>(
    inFlightBytes: int, clients: map<Client, int>, ledger: Ledger<R>,
    r: R, reserved: int, clients': map<Client, int>, ledger': Ledger<R>)
    requires Summarises(inFlightBytes + reserved, clients, ledger)
    requires r in ledger && reserved == ledger[r].reserved
    requires var client := ledger[r].client;
             clients' == GivenBack(clients, client, reserved)
    requires ledger' == ledger - {r}
    ensures Summarises(inFlightBytes, clients', ledger')
  {
    var client := ledger[r].client;
    SumsAfterRemove(ledger, r, ledger');
    SumsNonNegative(ledger', client);
    assert Get(clients, client, 0) == ClientHeld(ledger, client);
    assert client in clients' ==> ClientHeld(ledger', client) > 0;
    forall c | c in clients' ensures exists q :: q in ledger' && ledger'[q].client == c {
      StillLive(ledger, r, c);
    }
  }

  /** Losing one request, a client stays live if it still holds bytes, or was live by another request. */
  lemma StillLive<R>(ledger: Ledger<R>, r: R, c: Client)
    requires r in ledger && exists q :: q in ledger && ledger[q].client == c
    requires c == ledger[r].client ==> ClientHeld(ledger - {r}, c) != 0
    ensures exists q :: q in ledger - {r} && (ledger - {r})[q].client == c
  {
    if c == ledger[r].client {
      HoldingMeansLive(ledger - {r}, c);
    } else {
      var q :| q in ledger && ledger[q].client == c;
      assert q in ledger - {r};
    }
  }

  /** Releasing a live request in both counters and in the account. */
  lemma SummarisesAfterRelease(
    inFlightBytes: int, clients: map<Client, int>, closures: map<RequestId, Closure>,
    r: RequestId, closure: Closure, closures': map<RequestId, Closure>)
    requires Summarises(inFlightBytes, clients, Live(closures)) && r in Live(closures)
    requires closure.released && closures' == closures[r := closure]
    ensures var hold := Live(closures)[r];
            && Live(closures') == Live(closures) - {r}
            && Summarises(
                 inFlightBytes - hold.reserved, GivenBack(clients, hold.client, hold.reserved), Live(closures'))
  {
    var hold := Live(closures)[r];
    LiveAfterSet(closures, r, closure);
    SummarisesAfterRemove(
      inFlightBytes - hold.reserved, clients, Live(closures), r, hold.reserved,
      GivenBack(clients, hold.client, hold.reserved), Live(closures'));
  }

  /** A request that reserves bytes has its client in the map, so repricing it never adds a key. */
  lemma HolderIsTracked<R>(inFlightBytes: int, clients: map<Client, int>, ledger: Ledger<R>, r: R)
    requires Summarises(inFlightBytes, clients, ledger)
    requires r in ledger && ledger[r].reserved > 0
    ensures ledger[r].client in clients
  {
    var client := ledger[r].client;
    SumsAfterRemove(ledger, r, ledger - {r});
    SumsNonNegative(ledger - {r}, client);
    assert Get(clients, client, 0) == ClientHeld(ledger, client);
  }

  /** Both counters, moved by the change of one reservation, summarise the repriced account. */
  lemma SummarisesAfterRepricing(
    inFlightBytes: int, clients: map<Client, int>, closures: map<RequestId, Closure>,
    r: RequestId, closure: Closure, closures': map<RequestId, Closure>)
    requires Summarises(inFlightBytes, clients, Live(closures))
    requires r in Live(closures) && Live(closures)[r].reserved > 0
    requires closure == closures[r].(hold := closures[r].hold.(reserved := closure.hold.reserved))
    requires closures' == closures[r := closure]
    ensures Live(closures') == Live(closures)[r := closure.hold]
    ensures Live(closures') - {r} == Live(closures) - {r}
    ensures closure.hold.client in clients
    ensures var delta := closure.hold.reserved - closures[r].hold.reserved;
            Summarises(
              inFlightBytes + delta,
              clients[closure.hold.client := Get(clients, closure.hold.client, 0) + delta], Live(closures'))
  {
    var client, delta := closure.hold.client, closure.hold.reserved - closures[r].hold.reserved;
    LiveAfterSet(closures, r, closure);
    HolderIsTracked(inFlightBytes, clients, Live(closures), r);
    SummarisesAfterSet(
      inFlightBytes + delta, clients, Live(closures), r, closure.hold, delta,
      clients[client := Get(clients, client, 0) + delta], Live(closures'));
  }

  /** Reprice, write back, disarm when all is in: together that is the progress branch of a poll. */
  lemma ProgressIsPoll<R>(
    cfg: Config, ledger: Ledger<R>, r: R, readNow: nat, now: int, destroyed: bool, after: Ledger<R>)
    requires Inv(cfg, ledger) && r in ledger && ledger[r].armed && readNow != ledger[r].lastBytes
    requires destroyed ==
             (!ledger[r].body.Declared? && !Fits(cfg, ledger[r := Priced(cfg, ledger[r], readNow)], ledger[r].client))
    requires after == if destroyed then ledger - {r}
                      else ledger[r := Poll(cfg, ledger[r], false, readNow, now).hold]
    ensures after == AfterPoll(cfg, ledger, r, false, readNow, now)
  {
    var hold := Poll(cfg, ledger[r], false, readNow, now).hold;
    FitsDependsOnPrice(cfg, ledger, r, Priced(cfg, ledger[r], readNow), hold);
    if ledger[r].body.Declared? {
      TouchKeepsInv(cfg, ledger, r, hold);
    }
  }

  lemma SubsetIsNoLarger(a: set<Client>, b: set<Client>)
    requires a <= b
    ensures |a| <= |b|
  {
    assert b == a + (b - a);
  }

  /** Every client that reserves bytes has a key, and only clients with a live request have one. */
  lemma KeysAreLiveClients<R>(inFlightBytes: int, clients: map<Client, int>, ledger: Ledger<R>)
    requires Summarises(inFlightBytes, clients, ledger)
    ensures Holders(ledger) <= clients.Keys <= LiveClients(ledger)
    ensures |Holders(ledger)| <= |clients| <= |LiveClients(ledger)|
  {
    forall c | c in Holders(ledger) ensures c in clients {
      var r :| r in ledger && ledger[r].reserved > 0 && ledger[r].client == c;
      HolderIsTracked(inFlightBytes, clients, ledger, r);
    }
    forall c | c in clients ensures c in LiveClients(ledger) {
      var r :| r in ledger && ledger[r].client == c;
    }
    SubsetIsNoLarger(Holders(ledger), clients.Keys);
    SubsetIsNoLarger(clients.Keys, LiveClients(ledger));
  }

  /** Ten thousand other clients reserve bytes, and this one is not live. */
  ghost predicate Crowded<R>(ledger: Ledger<R>, client: Client) {
    |Holders(ledger)| >= 10_000 && client !in LiveClients(ledger)
  }

  /**
   Both bounds still hold with the body, and either fewer than ten thousand clients are live or
   this one already reserves bytes.
   */
  ghost predicate Welcome<R>(cfg: Config, ledger: Ledger<R>, client: Client, body: Body) {
    var size := match body case Absent => 0 case Declared(n) => n case Chunked => cfg.placeholder;
    && InFlight(ledger) + size <= cfg.budgetBytes
    && ClientHeld(ledger, client) + size <= cfg.perClientCap
    && (|LiveClients(ledger)| < 10_000 || ClientHeld(ledger, client) > 0)
  }

  lemma RoomUnlessCrowded<R>(inFlightBytes: int, clients: map<Client, int>, ledger: Ledger<R>, client: Client)
    requires Summarises(inFlightBytes, clients, ledger)
    ensures |LiveClients(ledger)| < 10_000 || ClientHeld(ledger, client) > 0 ==> HasRoom(clients, client)
    ensures Crowded(ledger, client) ==> !HasRoom(clients, client)
  {
    KeysAreLiveClients(inFlightBytes, clients, ledger);
    assert Get(clients, client, 0) == ClientHeld(ledger, client);
  }

  /**
   The default sizing: a declared body within the limit, from a client that holds at most one limit,
   while at most one other client holds bytes and fewer than ten thousand clients are live.
   */
  ghost predicate Fair<R>(cfg: Config, ledger: Ledger<R>, client: Client, body: Body) {
    body.Declared? && FairCase(cfg, ledger, client, body.length) && |LiveClients(ledger)| < 10_000
  }

  lemma FairMeansAdmissible<R>(cfg: Config, ledger: Ledger<R>, client: Client, length: nat)
    requires Inv(cfg, ledger) && FairCase(cfg, ledger, client, length)
    ensures Admissible(cfg, ledger, client, length)
  {
    var limit: nat, other: Client :|
      && 0 < limit && cfg == MakeConfig(4 * limit, 0.5) && OnlyTwoHold(ledger, client, other)
      && ClientHeld(ledger, client) <= limit && length <= limit;
    DefaultSizingIsFair(cfg, ledger, limit, client, other, length);
  }

  lemma WhoIsAdmitted<R>(
    cfg: Config, inFlightBytes: int, clients: map<Client, int>, ledger: Ledger<R>,
    client: Client, body: Body, busy: bool)
    requires Summarises(inFlightBytes, clients, ledger) && Inv(cfg, ledger)
    requires busy <==> !(Admissible(cfg, ledger, client, Opening(cfg, body)) && HasRoom(clients, client))
    ensures Welcome(cfg, ledger, client, body) || Fair(cfg, ledger, client, body) ==> !busy
    ensures Crowded(ledger, client) ==> busy
  {
    RoomUnlessCrowded(inFlightBytes, clients, ledger, client);
    if Fair(cfg, ledger, client, body) {
      FairMeansAdmissible(cfg, ledger, client, body.length);
    }
  }

  class Budget {
    const cfg: Config
    var inFlightBytes: int
    var clientInFlight: map<Client, int>
    /** One entry per request ever admitted, released or not. */
    var closures: map<RequestId, Closure>

    /** The live reservations: what the counters are supposed to summarise. */
    ghost function Ledger(): Ledger<RequestId>
      reads this
    {
      Live(closures)
    }

    ghost predicate Balanced()
      reads this
    {
      && Summarises(inFlightBytes, clientInFlight, Ledger())
      && |clientInFlight| <= MAX_TRACKED_CLIENTS
      && forall r :: r in closures ==>
           !closures[r].mapAtCapacity && (closures[r].released ==> !closures[r].hold.armed)
    }

    ghost predicate Valid()
      reads this
    {
      Balanced() && Inv(cfg, Ledger())
    }

    constructor (budgetBytes: nat, perClientShare: real)
      ensures Valid() && Ledger() == map[]
      ensures cfg == MakeConfig(budgetBytes, perClientShare)
    {
      cfg := MakeConfig(budgetBytes, perClientShare);
      inFlightBytes, clientInFlight, closures := 0, map[], map[];
      new;
      assert Ledger() == map[];
      EmptyLedger<RequestId>();
    }

    /** The middleware on a new request. Refusal leaves everything as it was. */
    method Arrive(r: RequestId, client: Client, body: Body, bytesRead: nat, now: int) returns (admitted: bool)
      requires Valid() && r !in closures
      modifies this
      ensures Valid()
      ensures admitted
         <==> old(Admissible(cfg, Ledger(), client, Opening(cfg, body)) && HasRoom(clientInFlight, client))
      ensures Welcome(cfg, old(Ledger()), client, body) ==> admitted
      ensures Fair(cfg, old(Ledger()), client, body) ==> admitted
      ensures Crowded(old(Ledger()), client) ==> !admitted
      ensures !admitted ==> unchanged(this)
      ensures admitted ==> Ledger() == old(Ledger())[r := OpenHold(cfg, client, body, bytesRead, now)]
      ensures admitted ==> closures.Keys == old(closures.Keys) + {r}
      ensures Next(cfg, old(Ledger()), Event.Arrive(r, client, body, bytesRead, now), Ledger())
    {
      var busy := Refuses(client, Opening(cfg, body));
      WhoIsAdmitted(cfg, inFlightBytes, clientInFlight, Ledger(), client, body, busy);
      if busy {
        return false;
      }
      Reserve(r, Closure(OpenHold(cfg, client, body, bytesRead, now), false, !HasRoom(clientInFlight, client)));
      AdmissionKeepsInv(cfg, old(Ledger()), r, client, body, bytesRead, now);
      return true;
    }

    /** The admission test, on the counters alone. */
    method Refuses(client: Client, reserved: nat) returns (busy: bool)
      requires Balanced()
      ensures busy <==> !(Admissible(cfg, Ledger(), client, reserved) && HasRoom(clientInFlight, client))
    {
      var clientBusy := Get(clientInFlight, client, 0);
      var mapAtCapacity := |clientInFlight| >= MAX_TRACKED_CLIENTS && client !in clientInFlight;
      assert clientBusy == ClientHeld(Ledger(), client);
      busy := inFlightBytes + reserved > cfg.budgetBytes || clientBusy + reserved > cfg.perClientCap || mapAtCapacity;
    }

    /** Book an admitted request in both counters. */
    method Reserve(r: RequestId, closure: Closure)
      requires Balanced() && r !in closures && !closure.released && !closure.mapAtCapacity
      requires HasRoom(clientInFlight, closure.hold.client)
      modifies this
      ensures Balanced()
      ensures Ledger() == old(Ledger())[r := closure.hold]
      ensures closures == old(closures)[r := closure]
    {
      var client, reserved := closure.hold.client, closure.hold.reserved;
      var busy := Get(clientInFlight, client, 0) + reserved;
      LiveAfterSet(closures, r, closure);
      SizeAfterSet(clientInFlight, client, busy);
      SummarisesAfterSet(
        inFlightBytes + reserved, clientInFlight, Ledger(), r, closure.hold, reserved,
        clientInFlight[client := busy], Live(closures[r := closure]));
      inFlightBytes := inFlightBytes + reserved;
      if !closure.mapAtCapacity {
        clientInFlight := clientInFlight[client := busy];
      }
      closures := closures[r := closure];
    }

    /** The release every terminal path shares. Only the first call on a request does anything. */
    method Release(r: RequestId)
      requires Balanced() && r in closures
      modifies this
      ensures Balanced()
      ensures Ledger() == old(Ledger()) - {r}
      ensures old(r in closures && closures[r].released) ==> unchanged(this)
      ensures r in closures && closures[r].released && closures == old(closures)[r := closures[r]]
      ensures clientInFlight.Keys <= old(clientInFlight.Keys)
    {
      var closure := closures[r];
      if closure.released {
        assert Ledger() == Ledger() - {r};
        return;
      }
      var client, reserved := closure.hold.client, closure.hold.reserved;
      closure := closure.(released := true, hold := closure.hold.(armed := false));
      SummarisesAfterRelease(inFlightBytes, clientInFlight, closures, r, closure, closures[r := closure]);
      GivingBackAddsNoKey(clientInFlight, client, reserved);
      closures := closures[r := closure];
      inFlightBytes := inFlightBytes - reserved;
      if !closure.mapAtCapacity {
        GiveBack(client, reserved);
      }
    }

    /** The client's counter after giving back a reservation: at zero the key goes. */
    method GiveBack(client: Client, reserved: int)
      modifies this`clientInFlight
      ensures clientInFlight == GivenBack(old(clientInFlight), client, reserved)
    {
      var busy := Get(clientInFlight, client, reserved) - reserved;
      if busy > 0 {
        clientInFlight := clientInFlight[client := busy];
      } else {
        clientInFlight := clientInFlight - {client};
      }
    }

    /** Any of the five terminal events: response finish, close or error, request close or error. */
    method Terminal(r: RequestId)
      requires Valid() && r in closures
      modifies this
      ensures Valid()
      ensures Next(cfg, old(Ledger()), Event.Terminal(r), Ledger())
      ensures r !in old(Ledger()) ==> inFlightBytes == old(inFlightBytes) && clientInFlight == old(clientInFlight)
    {
      RemoveKeepsInv(cfg, Ledger(), r);
      Release(r);
    }

    /** The consumer read the request to its end: nothing is left to stall on. */
    method End(r: RequestId)
      requires Valid() && r in closures
      modifies this`closures
      ensures Valid()
      ensures Next(cfg, old(Ledger()), Event.BodyEnd(r), Ledger())
    {
      var closure := closures[r];
      closure := closure.(hold := closure.hold.(armed := false));
      ghost var before := Ledger();
      LiveAfterSet(closures, r, closure);
      closures := closures[r := closure];
      if r in before {
        SummarisesAfterTouch(inFlightBytes, clientInFlight, before, r, closure.hold, Ledger());
        TouchKeepsInv(cfg, before, r, closure.hold);
      } else {
        assert Ledger() == before;
      }
    }

    ghost function Repriced(ledger: Ledger<RequestId>, r: RequestId, readNow: nat): Ledger<RequestId>
      requires r in ledger
    {
      ledger[r := Priced(cfg, ledger[r], readNow)]
    }

    /** Move a reservation to `actual` in both counters; the client's new total is returned. */
    method Reprice(r: RequestId, actual: nat) returns (busy: int)
      requires Balanced() && r in Ledger() && Ledger()[r].reserved > 0
      modifies this
      ensures Balanced() && clientInFlight.Keys == old(clientInFlight.Keys)
      ensures r in closures && Ledger() == old(Ledger())[r := old(Ledger())[r].(reserved := actual)]
      ensures Ledger() - {r} == old(Ledger()) - {r}
      ensures busy == ClientHeld(Ledger(), Ledger()[r].client) && inFlightBytes == InFlight(Ledger())
      ensures !closures[r].mapAtCapacity
    {
      var closure := closures[r];
      var client, delta := closure.hold.client, actual - closure.hold.reserved;
      closure := closure.(hold := closure.hold.(reserved := actual));
      busy := Get(clientInFlight, client, 0) + delta;
      SummarisesAfterRepricing(inFlightBytes, clientInFlight, closures, r, closure, closures[r := closure]);
      SizeAfterSet(clientInFlight, client, busy);
      inFlightBytes := inFlightBytes + delta;
      closures := closures[r := closure];
      if !closure.mapAtCapacity {
        clientInFlight := clientInFlight[client := busy];
      }
      assert busy == Get(clientInFlight, client, 0);
    }

    /** Reprice a chunked body; true when that crossed a bound and the request was dropped. */
    method ReconcileUndeclared(r: RequestId, readNow: nat) returns (destroyed: bool)
      requires Valid() && r in Ledger() && Ledger()[r].body.Chunked?
      modifies this
      ensures Balanced() && r in closures
      ensures clientInFlight.Keys <= old(clientInFlight.Keys)
      ensures destroyed == !Fits(cfg, old(Repriced(Ledger(), r, readNow)), old(Ledger())[r].client)
      ensures Ledger() == if destroyed then old(Ledger()) - {r} else old(Repriced(Ledger(), r, readNow))
    {
      var hold := closures[r].hold;
      var actual := Max(cfg.placeholder, readNow - hold.startBytes);
      if actual == hold.reserved {
        assert Ledger() == Repriced(Ledger(), r, readNow);
        return false;
      }
      ghost var before := Ledger();
      var busy := Reprice(r, actual);
      assert Ledger() == Repriced(before, r, readNow);
      assert Fits(cfg, Ledger(), hold.client) <==> inFlightBytes <= cfg.budgetBytes && busy <= cfg.perClientCap;
      if !closures[r].mapAtCapacity && busy > cfg.perClientCap {
        Release(r);
        return true;
      }
      if inFlightBytes > cfg.budgetBytes {
        Release(r);
        return true;
      }
      return false;
    }

    /** Write back what a poll observed, without touching the reservation. */
    method Observe(r: RequestId, closure: Closure)
      requires Balanced() && r in closures
      requires closure == closures[r].(hold := closures[r].hold.(
                            lastBytes := closure.hold.lastBytes,
                            lastProgress := closure.hold.lastProgress,
                            armed := closure.hold.armed))
      requires closure.hold.armed ==> closures[r].hold.armed
      modifies this`closures
      ensures Balanced()
      ensures Ledger() == if closure.released then old(Ledger()) else old(Ledger())[r := closure.hold]
    {
      ghost var before := Ledger();
      LiveAfterSet(closures, r, closure);
      closures := closures[r := closure];
      if closure.released {
        assert Ledger() == before;
      } else {
        SummarisesAfterTouch(inFlightBytes, clientInFlight, before, r, closure.hold, Ledger());
      }
    }

    /** The branch of a poll that saw new bytes. */
    method Progress(r: RequestId, readNow: nat, now: int) returns (destroyed: bool)
      requires Valid() && r in Ledger() && Ledger()[r].armed && readNow != Ledger()[r].lastBytes
      modifies this
      ensures Balanced()
      ensures Ledger() == AfterPoll(cfg, old(Ledger()), r, false, readNow, now)
      ensures destroyed <==> r !in Ledger()
      ensures clientInFlight.Keys <= old(clientInFlight.Keys)
    {
      ghost var before := Ledger();
      var hold := closures[r].hold;
      destroyed := false;
      if !hold.body.Declared? {
        destroyed := ReconcileUndeclared(r, readNow);
      }
      if !destroyed {
        assert Ledger() == Repriced(before, r, readNow);
        assert Ledger()[r] == Priced(cfg, before[r], readNow);
      }
      var closure := closures[r];
      var arrived := hold.body.Declared? && readNow - hold.startBytes >= hold.body.length;
      closure := closure.(hold := closure.hold.(
                          lastBytes := readNow,
                          lastProgress := now,
                          armed := closure.hold.armed && !arrived));
      Observe(r, closure);
      ghost var hold' := Poll(cfg, before[r], false, readNow, now).hold;
      if !destroyed {
        assert closure.hold == hold';
        assert Repriced(before, r, readNow)[r := hold'] == before[r := hold'];
      }
      ProgressIsPoll(cfg, before, r, readNow, now, destroyed, Ledger());
    }

    /** One tick of the request's poll timer, which fires only while armed. */
    method PollTick(r: RequestId, complete: bool, readNow: nat, now: int) returns (destroyed: bool)
      requires Valid() && r in Ledger() && Ledger()[r].armed
      modifies this
      ensures Valid()
      ensures Next(cfg, old(Ledger()), Event.PollTick(r, complete, readNow, now), Ledger())
      ensures destroyed <==> r !in Ledger()
      ensures clientInFlight.Keys <= old(clientInFlight.Keys)
    {
      ghost var before := Ledger();
      PollKeepsInv(cfg, before, r, complete, readNow, now);
      if complete {
        TouchKeepsInv(cfg, before, r, before[r].(armed := false));
        End(r);
        return false;
      }
      if readNow != closures[r].hold.lastBytes {
        destroyed := Progress(r, readNow, now);
        return;
      }
      if now - closures[r].hold.lastProgress >= STALL_TIMEOUT_MS {
        Release(r);
        return true;
      }
      TouchKeepsInv(cfg, before, r, before[r]);
      assert before == before[r := before[r]];
      return false;
    }
  }

  lemma EmptyLedger<R>()
    ensures InFlight<R>(map[]) == 0
    ensures forall c :: ClientHeld<R>(map[], c) == 0
  {
    assert Held<R>(map[]) == map[];
    forall c ensures ClientHeld<R>(map[], c) == 0 {
      assert HeldBy<R>(map[], c) == map[];
    }
  }

  /** With no live request nothing is left behind: both counters are empty. */
  lemma NothingLeaks(b: Budget)
    requires b.Valid() && b.Ledger() == map[]
    ensures b.inFlightBytes == 0 && b.clientInFlight == map[]
  {
    EmptyLedger<RequestId>();
    forall c ensures c !in b.clientInFlight {
    }
  }
}
