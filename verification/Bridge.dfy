/**
 The bridge's handlers over the archive. Each one is the sequence of store calls its source makes,
 and its contract says which steps of the archive's run it contributes. Handlers interleave at their
 awaits; the archive's theorems are about any sequence of steps, so about every such interleaving.
 */
module Bridge {
  import opened Wrappers
  import opened Archive

  predicate HasId(messageId: Option<string>) {
    messageId.Some? && messageId.value != ""
  }

  predicate Truthy(v: Option<Value>) {
    v.Some? && v.value != Text("")
  }

  /** A privacy id, which carries no phone number. */
  predicate IsLid(chatId: Option<Value>) {
    chatId.Some? && chatId.value.Text? &&
    var text := chatId.value.text;
    |text| >= 4 && text[|text| - 4..] == "@lid"
  }

  datatype Settings = Settings(session: string, mediaEnabled: bool, mediaOutbound: bool)

  /** There is media to save or a number to resolve, and a chat to do it for. */
  predicate WantsEnriching(settings: Settings, d: Delivery) {
    && Truthy(d.chatId)
    && (|| (settings.mediaEnabled && (d.inbound || settings.mediaOutbound) && d.hasMedia)
        || (!Truthy(d.contactNumber) && IsLid(d.chatId)))
  }

  /** Which deliveries are enriched, case by case. */
  lemma WhoIsEnriched(settings: Settings, d: Delivery, name: string)
    ensures d.chatId == None || d.chatId == Some(Text("")) ==> !WantsEnriching(settings, d)
    ensures (&& d.chatId == Some(Text(name)) && name != "" && d.hasMedia && settings.mediaEnabled
             && (d.inbound || settings.mediaOutbound))
            ==> WantsEnriching(settings, d)
    ensures (&& d.chatId == Some(Text(name + "@lid"))
             && (d.contactNumber == None || d.contactNumber == Some(Text(""))))
            ==> WantsEnriching(settings, d)
    ensures (&& (!d.hasMedia || !settings.mediaEnabled || (!d.inbound && !settings.mediaOutbound))
             && (|| (d.contactNumber.Some? && d.contactNumber.value != Text(""))
                 || (d.chatId == Some(Text(name)) && (|name| < 4 || name[|name| - 4..] != "@lid"))))
            ==> !WantsEnriching(settings, d)
  {
    assert (name + "@lid")[|name + "@lid"| - 4..] == "@lid";
  }

  // ---------------------------------------------------------------- what each handler contributes

  function WriteSteps(settings: Settings, messageId: Option<string>, write: Write, at: int): seq<Step> {
    if HasId(messageId) then [Upsert(Key(settings.session, messageId.value), write, at)] else [InsertWithoutId]
  }

  function DeliverySteps(settings: Settings, messageId: Option<string>, d: Delivery, at: int, later: int): seq<Step> {
    WriteSteps(settings, messageId, FromWebhook(d), at) +
    if HasId(messageId) && WantsEnriching(settings, d)
    then [Claim(Key(settings.session, messageId.value), later), Spawn(Key(settings.session, messageId.value))]
    else []
  }

  lemma ExecOne(w: World, step: Step)
    ensures Exec(w, [step]) == After(w, step)
  {
    assert [step][1..] == [];
    assert Exec(After(w, step), []) == After(w, step);
  }

  lemma ExecClaim(w: World, key: Key, at: int)
    requires w.won == multiset{}
    ensures Exec(w, [Claim(key, at), Spawn(key)]) ==
            if Claimable(w.rows, key)
            then World(Merged(w.rows, key, map[MediaClaimedAt := Time(at)]), multiset{}, w.spawned + multiset{key})
            else w
  {
    assert [Claim(key, at), Spawn(key)] == [Claim(key, at)] + [Spawn(key)];
    ExecConcat(w, [Claim(key, at)], [Spawn(key)]);
    ExecOne(w, Claim(key, at));
    ExecOne(After(w, Claim(key, at)), Spawn(key));
    ClaimThenSpawn(w, key, at);
  }

  lemma ClaimThenSpawn(w: World, key: Key, at: int)
    requires w.won == multiset{}
    ensures After(After(w, Claim(key, at)), Spawn(key)) ==
            if Claimable(w.rows, key)
            then World(Merged(w.rows, key, map[MediaClaimedAt := Time(at)]), multiset{}, w.spawned + multiset{key})
            else w
  {
  }

  // ---------------------------------------------------------------- the handlers

  class Handlers {
    const settings: Settings
    const store: Store
    /** Every enrich task ever spawned. */
    var spawned: multiset<Key>

    constructor (settings: Settings)
      ensures this.settings == settings && fresh(store) && store.rows == map[] && spawned == multiset{}
    {
      this.settings := settings;
      store := new Store();
      spawned := multiset{};
    }

    /** The archive as it stands between two handlers, when no claim is waiting for its spawn. */
    ghost function State(): World
      reads this, store
    {
      World(store.rows, multiset{}, spawned)
    }

    /** A field of the row of a message, if there is one. */
    ghost function FieldAfter(messageId: string, f: Field): Option<Value>
      reads this, store
    {
      var key := Key(settings.session, messageId);
      if key in store.rows then FieldOf(store.rows[key], f) else None
    }

    /** `openwa_webhook` on message.received or message.sent. */
    method OnMessage(messageId: Option<string>, d: Delivery, at: int, later: int) returns (enriching: bool)
      modifies this`spawned, store
      ensures State() == Exec(old(State()), DeliverySteps(settings, messageId, d, at, later))
      ensures enriching
         <==> && HasId(messageId) && WantsEnriching(settings, d)
              && (var key := Key(settings.session, messageId.value);
                  key in old(store.rows) ==> MediaClaimedAt !in old(store.rows)[key])
      ensures spawned == old(spawned)
              + if enriching then multiset{Key(settings.session, messageId.value)} else multiset{}
    {
      ghost var start := State();
      var row := store.UpsertMessage(
        settings.session, messageId, MessageFields(d), OnInsertOf(FromWebhook(d)), at);
      enriching := false;
      ghost var written := State();
      ghost var writes := WriteSteps(settings, messageId, FromWebhook(d), at);
      ExecOne(start, writes[0]);
      assert written == Exec(start, writes);
      if HasId(messageId) {
        var key := Key(settings.session, messageId.value);
        ClaimMarkComesFromClaim(start.rows, writes[0], key);
        ExecConcat(start, writes, [Claim(key, later), Spawn(key)]);
        ExecClaim(written, key, later);
        if WantsEnriching(settings, d) {
          enriching := store.ClaimMedia(settings.session, messageId.value, later);
          if enriching {
            spawned := spawned + multiset{key};
          }
        }
      }
      assert writes + [] == writes;
    }

    /** `openwa_webhook` on message.ack or message.failed. */
    method OnReceipt(messageId: Option<string>, status: Option<string>, at: int)
      modifies store`rows
      ensures State() == Exec(old(State()),
                              if HasId(messageId) && HasId(status)
                              then [Receipt(Key(settings.session, messageId.value), status.value, at)] else [])
      ensures HasId(messageId) && HasId(status) && Key(settings.session, messageId.value) in old(store.rows) ==>
                FieldAfter(messageId.value, Status) == Some(Text(status.value))
    {
      if HasId(messageId) && HasId(status) {
        var matched := store.UpdateStatus(settings.session, messageId.value, status.value, map[], at);
        ExecOne(old(State()), Receipt(Key(settings.session, messageId.value), status.value, at));
      }
    }

    /** `openwa_webhook` on message.revoked; the target is `revokedId`, or `id` without one. */
    method OnRevoked(revokedId: Option<string>, id: Option<string>, at: int)
      modifies store`rows
      ensures var target := if HasId(revokedId) then revokedId else id;
              State() == Exec(old(State()),
                              if HasId(target) then [Revoke(Key(settings.session, target.value), at)] else [])
      ensures var target := if HasId(revokedId) then revokedId else id;
              HasId(target) && Key(settings.session, target.value) in old(store.rows) ==>
                && FieldAfter(target.value, Status) == Some(Text("revoked"))
                && FieldAfter(target.value, RevokedAt) == Some(Time(at))
    {
      var target := if HasId(revokedId) then revokedId else id;
      if HasId(target) {
        var matched := store.UpdateStatus(
          settings.session, target.value, "revoked", map[RevokedAt := Some(Time(at))], at);
        ExecOne(old(State()), Revoke(Key(settings.session, target.value), at));
      }
    }

    /** `openwa_webhook` on message.edited. */
    method OnEdited(messageId: Option<string>, body: Option<Value>, at: int)
      modifies store`rows
      ensures State() == Exec(old(State()),
                              if HasId(messageId) then [EditEvent(Key(settings.session, messageId.value), body, at)]
                              else [])
      ensures HasId(messageId) && Key(settings.session, messageId.value) in old(store.rows) ==>
                && FieldAfter(messageId.value, Status) == Some(Text("edited"))
                && FieldAfter(messageId.value, EditedAt) == Some(Time(at))
                && FieldAfter(messageId.value, Body) ==
                   if body.Some? then body else FieldOf(old(store.rows)[Key(settings.session, messageId.value)], Body)
    {
      if HasId(messageId) {
        var matched := store.UpdateStatus(
          settings.session, messageId.value, "edited", map[Body := body, EditedAt := Some(Time(at))], at);
        ExecOne(old(State()), EditEvent(Key(settings.session, messageId.value), body, at));
      }
    }

    /** The store write of a send the gateway accepted. The stored status is reported to the caller. */
    method RecordSend(messageId: Option<string>, a: ApiSend, at: int) returns (status: Option<Value>)
      modifies store
      ensures State() == Exec(old(State()), WriteSteps(settings, messageId, FromApi(a), at))
      ensures HasId(messageId) ==>
                var key := Key(settings.session, messageId.value);
                status == if key in old(store.rows) then FieldOf(old(store.rows)[key], Status) else Some(Text("sent"))
    {
      var row := store.UpsertMessage(settings.session, messageId, SendFields(a), OnInsertOf(FromApi(a)), at);
      ExecOne(old(State()), WriteSteps(settings, messageId, FromApi(a), at)[0]);
      status := FieldOf(row, Status);
      if HasId(messageId) {
        var key := Key(settings.session, messageId.value);
        SendFieldNames(a);
        UpsertedField(RowOf(old(store.rows), key), key, SendFields(a), OnInsertOf(FromApi(a)), at, Status);
      }
    }

    /** The store write that ends a download or a send of media: where the file went, or why there is none. */
    method RecordMedia(messageId: string, media: Value, at: int)
      modifies store`rows
      ensures State() == Exec(old(State()), [SaveMedia(Key(settings.session, messageId), media, at)])
      ensures Key(settings.session, messageId) in old(store.rows) ==> FieldAfter(messageId, Media) == Some(media)
    {
      store.RecordMedia(settings.session, messageId, media, at);
      ExecOne(old(State()), SaveMedia(Key(settings.session, messageId), media, at));
    }

    /** `_record_changed`: an action's effect on a message that is in the archive. */
    method RecordChanged(messageId: string, change: Change, at: int) returns (matched: bool)
      modifies store`rows
      ensures State() == Exec(old(State()), [Act(Key(settings.session, messageId), change, at)])
      ensures matched <==> Key(settings.session, messageId) in old(store.rows)
    {
      ChangesSomething(change);
      KnownMeans(ChangeFields(change));
      matched := store.SetFields(settings.session, messageId, ChangeFields(change), at);
      ExecOne(old(State()), Act(Key(settings.session, messageId), change, at));
    }
  }

  lemma ChangesSomething(c: Change)
    ensures Known(ChangeFields(c)) != map[]
  {
    var f := match c
      case React(_) => MyReaction
      case EditText(_, _) => Body
      case Delete(_, _) => Deleted
      case Star(_) => Starred
      case Pin(_) => Pinned
      case Unpin => Pinned
      case NumberResolved(_) => ContactNumber;
    assert f in Known(ChangeFields(c));
  }
}
