/**
 The bridge's message archive: rows in a document store, merged by upserts, touched by receipts and
 actions, and claimed once for enrichment. Every store call is one atomic step; handlers interleave
 between steps.
 */
module Archive {
  import opened Wrappers

  /** The row fields the writes of this model name. */
  datatype Field =
    | SessionName | MessageId | CreatedAt | UpdatedAt
    | Direction | ChatId | Phone | From | To | Body | Type | Kind | IsGroup | HasMedia | MediaInfo | FromMe
    | SenderPhone | ContactName | ContactNumber | Contact | Timestamp | Source | Raw
    | Status | Error
    | QuotedMessageId | ForwardedFrom | ForwardedMessageId | Location | ContactCard | Poll
    | MyReaction | Edited | EditHistory | Deleted | DeletedForEveryone | DeletedAt
    | Starred | Pinned | PinDurationSeconds | ContactIdResolved
    | RevokedAt | EditedAt | MediaClaimedAt | Media

  /** A stored value. Only its identity matters here; text is kept readable. */
  datatype Value = Text(text: string) | Flag(flag: bool) | Time(at: int) | Document(id: int)

  type Row = map<Field, Value>

  /** What a caller passes: a field may be None, which the store drops. */
  type Fields = map<Field, Option<Value>>

  datatype Key = Key(session: string, messageId: string)

  function Known(fields: Fields): Row {
    map f | f in fields && fields[f].Some? :: fields[f].value
  }

  // ---------------------------------------------------------------- the store calls as functions

  function SetPart(fields: Fields, now: int): Row {
    Known(fields)[UpdatedAt := Time(now)]
  }

  /** Fields written only when the row is new, and never those the update sets anyway. */
  function InsertPart(session: string, fields: Fields, onInsert: Fields, now: int): Row {
    (map[CreatedAt := Time(now), SessionName := Text(session)] + Known(onInsert)) - SetPart(fields, now).Keys
  }

  /** `find_one_and_update` with upsert on one key. */
  function Upserted(row: Option<Row>, key: Key, fields: Fields, onInsert: Fields, now: int): Row {
    match row
    case Some(r) => r + SetPart(fields, now)
    case None =>
      map[SessionName := Text(key.session), MessageId := Text(key.messageId)]
      + InsertPart(key.session, fields, onInsert, now) + SetPart(fields, now)
  }

  function RowOf(rows: map<Key, Row>, key: Key): Option<Row> {
    if key in rows then Some(rows[key]) else None
  }

  function FieldOf(row: Row, f: Field): Option<Value> {
    if f in row then Some(row[f]) else None
  }

  /** The value an upsert leaves: the known new one, else the row's own, else the insert-only one. */
  lemma UpsertedField(row: Option<Row>, key: Key, fields: Fields, onInsert: Fields, now: int, f: Field)
    requires f !in {UpdatedAt, CreatedAt, SessionName, MessageId}
    ensures FieldOf(Upserted(row, key, fields, onInsert, now), f) ==
            if f in Known(fields) then Some(Known(fields)[f])
            else if row.Some? then FieldOf(row.value, f)
            else FieldOf(Known(onInsert), f)
  {
  }

  lemma UpsertedKeys(row: Option<Row>, key: Key, fields: Fields, onInsert: Fields, now: int)
    ensures Upserted(row, key, fields, onInsert, now).Keys ==
            Known(fields).Keys + {UpdatedAt}
            + if row.Some? then row.value.Keys else {SessionName, MessageId, CreatedAt} + Known(onInsert).Keys
  {
  }

  function Merged(rows: map<Key, Row>, key: Key, update: Row): map<Key, Row> {
    if key in rows then rows[key := rows[key] + update] else rows
  }

  /** Only a row that is there and was never claimed. */
  predicate Claimable(rows: map<Key, Row>, key: Key) {
    key in rows && MediaClaimedAt !in rows[key]
  }

  function StatusUpdate(status: string, extra: Fields, now: int): Row {
    map[Status := Text(status), UpdatedAt := Time(now)] + Known(extra)
  }

  // ---------------------------------------------------------------- the store

  class Store {
    var rows: map<Key, Row>
    /** Rows inserted without an id to reconcile on. */
    var loose: seq<Row>

    constructor ()
      ensures rows == map[] && loose == []
    {
      rows, loose := map[], [];
    }

    method UpsertMessage(session: string, messageId: Option<string>, fields: Fields, onInsert: Fields, now: int)
      returns (row: Row)
      modifies this
      ensures messageId.None? || messageId.value == "" ==>
                && rows == old(rows) && loose == old(loose) + [row]
                && LooseStored(row, session, fields, onInsert, now)
      ensures messageId.Some? && messageId.value != "" ==>
                var key := Key(session, messageId.value);
                && loose == old(loose) && rows == old(rows)[key := row]
                && row == Upserted(RowOf(old(rows), key), key, fields, onInsert, now)
                && UpsertStored(RowOf(old(rows), key), row, key, fields, onInsert, now)
    {
      var setPart := SetPart(fields, now);
      var insertPart := InsertPart(session, fields, onInsert, now);
      if messageId.None? || messageId.value == "" {
        row := insertPart + setPart + map[SessionName := Text(session)];
        LooseMeans(row, session, fields, onInsert, now);
        loose := loose + [row];
        return;
      }
      var key := Key(session, messageId.value);
      UpsertMeans(RowOf(rows, key), key, fields, onInsert, now);
      if key in rows {
        row := rows[key] + setPart;
      } else {
        row := map[SessionName := Text(session), MessageId := Text(messageId.value)] + insertPart + setPart;
      }
      rows := rows[key := row];
    }

    method UpdateStatus(session: string, messageId: string, status: string, extra: Fields, now: int)
      returns (matched: bool)
      modifies this`rows
      ensures matched <==> Key(session, messageId) in old(rows)
      ensures rows == Merged(old(rows), Key(session, messageId), StatusUpdate(status, extra, now))
      ensures ReceiptStored(old(rows), rows, Key(session, messageId), status, extra, now)
    {
      var key := Key(session, messageId);
      ReceiptMeans(rows, key, status, extra, now);
      matched := key in rows;
      if matched {
        rows := rows[key := rows[key] + StatusUpdate(status, extra, now)];
      }
    }

    method SetFields(session: string, messageId: string, fields: Fields, now: int) returns (matched: bool)
      modifies this`rows
      ensures matched <==> (exists f :: !Silent(fields, f)) && Key(session, messageId) in old(rows)
      ensures rows == if Known(fields) == map[] then old(rows)
                      else Merged(old(rows), Key(session, messageId), SetPart(fields, now))
      ensures !matched ==> rows == old(rows)
      ensures matched ==> ChangeStored(old(rows), rows, Key(session, messageId), fields, now)
    {
      var payload := Known(fields);
      KnownMeans(fields);
      if payload == map[] {
        return false;
      }
      payload := payload[UpdatedAt := Time(now)];
      var key := Key(session, messageId);
      SetMeans(rows, key, fields, now);
      matched := key in rows;
      if matched {
        rows := rows[key := rows[key] + payload];
      }
    }

    /** One atomic update: the claim is won by at most one caller. */
    method ClaimMedia(session: string, messageId: string, now: int) returns (won: bool)
      modifies this`rows
      ensures won <==> Claimable(old(rows), Key(session, messageId))
      ensures won ==> rows == Merged(old(rows), Key(session, messageId), map[MediaClaimedAt := Time(now)])
      ensures !won ==> rows == old(rows)
      ensures !Claimable(rows, Key(session, messageId))
    {
      var key := Key(session, messageId);
      won := key in rows && MediaClaimedAt !in rows[key];
      if won {
        rows := rows[key := rows[key] + map[MediaClaimedAt := Time(now)]];
      }
    }

    method RecordMedia(session: string, messageId: string, media: Value, now: int)
      modifies this`rows
      ensures rows == Merged(old(rows), Key(session, messageId), map[Media := media, UpdatedAt := Time(now)])
    {
      var key := Key(session, messageId);
      if key in rows {
        rows := rows[key := rows[key] + map[Media := media, UpdatedAt := Time(now)]];
      }
    }
  }

  /** Whatever a write does not mention, or passes as None, stays as the row had it. */
  ghost predicate KeepsUnmentioned(earlier: Row, row: Row, fields: Fields) {
    forall f :: f in earlier && f != UpdatedAt && (f !in fields || fields[f].None?) ==>
      f in row && row[f] == earlier[f]
  }

  /** The call says nothing about the field. */
  predicate Silent(fields: Fields, f: Field) {
    f !in fields || fields[f].None?
  }

  /** Every field that is given with a value is in the row with it, save those in `but`. */
  ghost predicate Stores(row: Row, fields: Fields, but: set<Field>) {
    forall f :: !Silent(fields, f) && f !in but ==> FieldOf(row, f) == fields[f]
  }

  /** Only `row` of `key` differs, it has what was given, and the rest of it stayed but for `but`. */
  ghost predicate Rewrote(before: map<Key, Row>, after: map<Key, Row>, key: Key, fields: Fields, but: set<Field>) {
    && key in before && key in after && after == before[key := after[key]]
    && (forall f :: f in before[key] && Silent(fields, f) && f !in but ==>
          FieldOf(after[key], f) == FieldOf(before[key], f))
    && (forall f :: f in after[key] ==> f in before[key] || !Silent(fields, f) || f in but)
  }

  /** A receipt on a stored message leaves its status, its extra fields, and the time; on any other, nothing. */
  ghost predicate ReceiptStored(
    before: map<Key, Row>, after: map<Key, Row>, key: Key, status: string, extra: Fields, now: int)
  {
    if key !in before then after == before
    else
      && Rewrote(before, after, key, extra, {Status, UpdatedAt}) && Stores(after[key], extra, {})
      && (Silent(extra, Status) ==> FieldOf(after[key], Status) == Some(Text(status)))
      && (Silent(extra, UpdatedAt) ==> FieldOf(after[key], UpdatedAt) == Some(Time(now)))
  }

  lemma ReceiptMeans(rows: map<Key, Row>, key: Key, status: string, extra: Fields, now: int)
    ensures ReceiptStored(rows, Merged(rows, key, StatusUpdate(status, extra, now)), key, status, extra, now)
  {
  }

  /** An action on a stored message leaves its fields and the time. */
  ghost predicate ChangeStored(before: map<Key, Row>, after: map<Key, Row>, key: Key, fields: Fields, now: int) {
    && Rewrote(before, after, key, fields, {UpdatedAt}) && Stores(after[key], fields, {UpdatedAt})
    && FieldOf(after[key], UpdatedAt) == Some(Time(now))
  }

  lemma SetMeans(rows: map<Key, Row>, key: Key, fields: Fields, now: int)
    ensures key in rows ==> ChangeStored(rows, Merged(rows, key, SetPart(fields, now)), key, fields, now)
  {
  }

  lemma KnownMeans(fields: Fields)
    ensures Known(fields) != map[] <==> exists f :: !Silent(fields, f)
  {
    if f :| !Silent(fields, f) {
      assert f in Known(fields);
    }
    if Known(fields) != map[] {
      var f :| f in Known(fields);
      assert !Silent(fields, f);
    }
  }

  /**
   An upsert leaves what was given and the time; an existing row keeps the rest, and a new one gets
   its key, its creation time and the insert-only fields the call does not give anyway.
   */
  ghost predicate UpsertStored(
    before: Option<Row>, row: Row, key: Key, fields: Fields, onInsert: Fields, now: int)
  {
    && Stores(row, fields, {UpdatedAt}) && FieldOf(row, UpdatedAt) == Some(Time(now))
    && (before.Some? ==>
          && before.value.Keys <= row.Keys && KeepsUnmentioned(before.value, row, fields)
          && forall f :: f in row ==> f in before.value || !Silent(fields, f) || f == UpdatedAt)
    && (before.None? ==> InsertStored(row, key.session, fields, onInsert, now)
                         && (Silent(fields, MessageId) && Silent(onInsert, MessageId) ==>
                               FieldOf(row, MessageId) == Some(Text(key.messageId))))
  }

  ghost predicate InsertStored(row: Row, session: string, fields: Fields, onInsert: Fields, now: int) {
    && (forall f :: !Silent(onInsert, f) && Silent(fields, f) && f !in {UpdatedAt, SessionName} ==>
          FieldOf(row, f) == onInsert[f])
    && (Silent(fields, CreatedAt) && Silent(onInsert, CreatedAt) ==> FieldOf(row, CreatedAt) == Some(Time(now)))
    && (Silent(fields, SessionName) && Silent(onInsert, SessionName) ==>
          FieldOf(row, SessionName) == Some(Text(session)))
  }

  lemma UpsertMeans(before: Option<Row>, key: Key, fields: Fields, onInsert: Fields, now: int)
    ensures UpsertStored(before, Upserted(before, key, fields, onInsert, now), key, fields, onInsert, now)
  {
    if before.None? { InsertMeans(key, fields, onInsert, now); }
  }

  lemma InsertMeans(key: Key, fields: Fields, onInsert: Fields, now: int)
    ensures InsertStored(Upserted(None, key, fields, onInsert, now), key.session, fields, onInsert, now)
  {
  }

  /** A message without an id is filed as it is, under the session. */
  ghost predicate LooseStored(row: Row, session: string, fields: Fields, onInsert: Fields, now: int) {
    && Stores(row, fields, {UpdatedAt, SessionName})
    && FieldOf(row, UpdatedAt) == Some(Time(now)) && FieldOf(row, SessionName) == Some(Text(session))
    && InsertStored(row, session, fields, onInsert, now)
  }

  lemma LooseMeans(row: Row, session: string, fields: Fields, onInsert: Fields, now: int)
    requires row ==
             InsertPart(session, fields, onInsert, now) + SetPart(fields, now) + map[SessionName := Text(session)]
    ensures LooseStored(row, session, fields, onInsert, now)
  {
  }

  // ---------------------------------------------------------------- what the handlers write

  /** A message.received or message.sent delivery, as far as it is stored. */
  datatype Delivery = Delivery(
    inbound: bool,
    chatId: Option<Value>, phone: Option<Value>, sender: Option<Value>, recipient: Option<Value>,
    body: Option<Value>, kindOfMessage: Option<Value>, kind: Option<Value>, isGroup: Option<Value>,
    hasMedia: bool, mediaInfo: Option<Value>, senderPhone: Option<Value>,
    contactName: Option<Value>, contactNumber: Option<Value>, contact: Option<Value>,
    timestamp: Option<Value>, raw: Value)

  function MessageFields(d: Delivery): Fields {
    map[
      Direction := Some(Text(if d.inbound then "in" else "out")),
      ChatId := d.chatId, Phone := d.phone, From := d.sender, To := d.recipient,
      Body := d.body, Type := d.kindOfMessage, Kind := d.kind, IsGroup := d.isGroup,
      HasMedia := Some(Flag(d.hasMedia)), MediaInfo := d.mediaInfo, FromMe := Some(Flag(!d.inbound)),
      SenderPhone := d.senderPhone, ContactName := d.contactName, ContactNumber := d.contactNumber,
      Contact := d.contact, Timestamp := d.timestamp, Source := Some(Text("webhook")), Raw := Some(d.raw)]
  }

  /** What a message-creating call adds to the fields every send writes. */
  datatype Extra =
    | PlainText
    | MediaSend(info: Value)
    | ReplyTo(quoted: Value)
    | ForwardOf(chat: Value, message: Value)
    | LocationPin(location: Value)
    | Card(card: Value)
    | PollOf(poll: Value)

  datatype ApiSend = ApiSend(
    chatId: Value, phone: Option<Value>, body: Value, kind: Value, extra: Extra, sentAt: int)

  function ExtraFields(e: Extra): Fields {
    match e
    case PlainText => map[]
    case MediaSend(info) => map[HasMedia := Some(Flag(true)), MediaInfo := Some(info)]
    case ReplyTo(quoted) => map[QuotedMessageId := Some(quoted)]
    case ForwardOf(chat, message) => map[ForwardedFrom := Some(chat), ForwardedMessageId := Some(message)]
    case LocationPin(location) => map[Location := Some(location)]
    case Card(card) => map[ContactCard := Some(card)]
    case PollOf(poll) => map[Poll := Some(poll)]
  }

  function SendFields(a: ApiSend): Fields {
    map[
      Direction := Some(Text("out")), ChatId := Some(a.chatId), Phone := a.phone, Body := Some(a.body),
      Type := Some(a.kind), FromMe := Some(Flag(true)), Source := Some(Text("api"))]
    + ExtraFields(a.extra)
  }

  datatype Write = FromWebhook(d: Delivery) | FromApi(a: ApiSend)

  function FieldsOf(w: Write): Fields {
    match w
    case FromWebhook(d) => MessageFields(d)
    case FromApi(a) => SendFields(a)
  }

  /** The status a new row starts with, and for a send its local time. */
  function OnInsertOf(w: Write): Fields {
    match w
    case FromWebhook(d) => map[Status := Some(Text(if d.inbound then "received" else "sent"))]
    case FromApi(a) => map[Status := Some(Text("sent")), Timestamp := Some(Time(a.sentAt))]
  }

  /** An action on a message that exists, or a number resolved for it. */
  datatype Change =
    | React(emoji: Value)
    | EditText(body: Value, history: Option<Value>)
    | Delete(forEveryone: bool, at: int)
    | Star(on: bool)
    | Pin(seconds: Value)
    | Unpin
    | NumberResolved(number: Value)

  function ChangeFields(c: Change): Fields {
    match c
    case React(emoji) => map[MyReaction := Some(emoji)]
    case EditText(body, history) => map[Body := Some(body), Edited := Some(Flag(true)), EditHistory := history]
    case Delete(forEveryone, at) =>
      map[Deleted := Some(Flag(true)), DeletedForEveryone := Some(Flag(forEveryone)), DeletedAt := Some(Time(at))]
    case Star(on) => map[Starred := Some(Flag(on))]
    case Pin(seconds) => map[Pinned := Some(Flag(true)), PinDurationSeconds := Some(seconds)]
    case Unpin => map[Pinned := Some(Flag(false))]
    case NumberResolved(number) => map[ContactNumber := Some(number), ContactIdResolved := Some(Flag(true))]
  }

  /** Neither an upsert nor an action writes a status into a row that exists, or claims it. */
  lemma DeliveryFieldNames(d: Delivery)
    ensures Status !in MessageFields(d) && MediaClaimedAt !in MessageFields(d)
    ensures Timestamp in MessageFields(d) && MessageFields(d)[Timestamp] == d.timestamp
  {
  }

  lemma SendFieldNames(a: ApiSend)
    ensures Status !in SendFields(a) && MediaClaimedAt !in SendFields(a) && Timestamp !in SendFields(a)
  {
  }

  lemma WriteFieldNames(w: Write)
    ensures Status !in FieldsOf(w) && MediaClaimedAt !in FieldsOf(w) && MediaClaimedAt !in OnInsertOf(w)
  {
    if w.FromWebhook? { DeliveryFieldNames(w.d); } else { SendFieldNames(w.a); }
  }

  lemma ChangeFieldNames(c: Change)
    ensures Status !in ChangeFields(c) && MediaClaimedAt !in ChangeFields(c)
  {
  }

  // ---------------------------------------------------------------- runs

  /** One atomic store call of some handler, or the synchronous spawn that follows a won claim. */
  datatype Step =
    | Upsert(key: Key, write: Write, at: int)
    | InsertWithoutId
    | Receipt(key: Key, status: string, at: int)
    | Revoke(key: Key, at: int)
    | EditEvent(key: Key, body: Option<Value>, at: int)
    | Act(key: Key, change: Change, at: int)
    | Claim(key: Key, at: int)
    | Spawn(key: Key)
    | SaveMedia(key: Key, media: Value, at: int)

  /** The rows, the claims won but not yet followed by their spawn, and the spawns so far. */
  datatype World = World(rows: map<Key, Row>, won: multiset<Key>, spawned: multiset<Key>)

  function RowsAfter(rows: map<Key, Row>, step: Step): map<Key, Row> {
    match step
    case Upsert(key, write, at) =>
      rows[key := Upserted(RowOf(rows, key), key, FieldsOf(write), OnInsertOf(write), at)]
    case InsertWithoutId => rows
    case Receipt(key, status, at) => Merged(rows, key, StatusUpdate(status, map[], at))
    case Revoke(key, at) => Merged(rows, key, StatusUpdate("revoked", map[RevokedAt := Some(Time(at))], at))
    case EditEvent(key, body, at) =>
      Merged(rows, key, StatusUpdate("edited", map[Body := body, EditedAt := Some(Time(at))], at))
    case Act(key, change, at) => Merged(rows, key, SetPart(ChangeFields(change), at))
    case Claim(key, at) => if Claimable(rows, key) then Merged(rows, key, map[MediaClaimedAt := Time(at)]) else rows
    case Spawn(_) => rows
    case SaveMedia(key, media, at) => Merged(rows, key, map[Media := media, UpdatedAt := Time(at)])
  }

  function After(w: World, step: Step): World {
    match step
    case Claim(key, at) =>
      World(RowsAfter(w.rows, step), if Claimable(w.rows, key) then w.won + multiset{key} else w.won, w.spawned)
    case Spawn(key) =>
      if key in w.won then World(w.rows, w.won - multiset{key}, w.spawned + multiset{key}) else w
    case _ => w.(rows := RowsAfter(w.rows, step))
  }

  /** Any interleaving of any handlers, redeliveries included. */
  function Exec(w: World, steps: seq<Step>): World
    decreases |steps|
  {
    if steps == [] then w else Exec(After(w, steps[0]), steps[1..])
  }

  // ---------------------------------------------------------------- rows only grow

  ghost predicate Grows(rows: map<Key, Row>, after: map<Key, Row>) {
    forall key :: key in rows ==> key in after && rows[key].Keys <= after[key].Keys
  }

  lemma StepGrows(rows: map<Key, Row>, step: Step)
    ensures Grows(rows, RowsAfter(rows, step))
  {
  }

  /** Over any run, no write removes a row, or a field from a row. */
  lemma {:induction false} RowsOnlyGrow(w: World, steps: seq<Step>)
    ensures Grows(w.rows, Exec(w, steps).rows)
    decreases |steps|
  {
    if steps != [] {
      StepGrows(w.rows, steps[0]);
      RowsOnlyGrow(After(w, steps[0]), steps[1..]);
    }
  }

  // ---------------------------------------------------------------- one enrich task per message

  predicate Marked(rows: map<Key, Row>, key: Key) {
    key in rows && MediaClaimedAt in rows[key]
  }

  /** Claims won for a message, spawned or not, beyond the one its row shows. */
  function Surplus(w: World, key: Key): int {
    var claims: int := w.won[key] + w.spawned[key];
    claims - if Marked(w.rows, key) then 1 else 0
  }

  /** Only a claim marks a row as claimed. */
  lemma ClaimMarkComesFromClaim(rows: map<Key, Row>, step: Step, key: Key)
    requires !step.Claim?
    ensures Marked(RowsAfter(rows, step), key) <==> Marked(rows, key)
  {
    match step
    case Upsert(k, write, at) =>
      WriteFieldNames(write);
      UpsertedField(RowOf(rows, k), k, FieldsOf(write), OnInsertOf(write), at, MediaClaimedAt);
    case Act(_, change, at) => ChangeFieldNames(change);
    case _ =>
  }

  /** Winning a claim marks the row, and spawning only moves a won claim: no step adds a surplus. */
  lemma StepKeepsSurplus(w: World, step: Step, key: Key)
    ensures Surplus(After(w, step), key) == Surplus(w, key)
  {
    if !step.Claim? {
      ClaimMarkComesFromClaim(w.rows, step, key);
    }
  }

  lemma {:induction false} RunKeepsSurplus(w: World, steps: seq<Step>, key: Key)
    ensures Surplus(Exec(w, steps), key) == Surplus(w, key)
    decreases |steps|
  {
    if steps != [] {
      StepKeepsSurplus(w, steps[0], key);
      RunKeepsSurplus(After(w, steps[0]), steps[1..], key);
    }
  }

  /** Over any run the enrich task is spawned at most once per message, whatever is redelivered when. */
  lemma EnrichSpawnsOnce(w: World, steps: seq<Step>, key: Key)
    requires Surplus(w, key) <= 0
    ensures Exec(w, steps).won[key] + Exec(w, steps).spawned[key] <= 1
  {
    RunKeepsSurplus(w, steps, key);
  }

  lemma {:induction false} ExecConcat(w: World, first: seq<Step>, second: seq<Step>)
    ensures Exec(w, first + second) == Exec(Exec(w, first), second)
    decreases |first|
  {
    if first == [] {
      assert first + second == second;
    } else {
      assert (first + second)[0] == first[0] && (first + second)[1..] == first[1..] + second;
      ExecConcat(After(w, first[0]), first[1..], second);
    }
  }

  /**
   And never lost: once a handler has stored a message and tried the claim, one claim has been won,
   by it or by another, whatever ran before, in between and after. When no winner is left waiting for
   its spawn, the task was spawned exactly once.
   */
  lemma EnrichSpawnsExactlyOnce(
    w: World, key: Key, write: Write, at: int, later: int, between: seq<Step>, rest: seq<Step>)
    requires Surplus(w, key) == 0
    ensures var end := Exec(w, [Upsert(key, write, at)] + between + [Claim(key, later)] + rest);
            && end.won[key] + end.spawned[key] == 1
            && (end.won[key] == 0 ==> end.spawned[key] == 1)
  {
    var before := [Upsert(key, write, at)] + between;
    var stored := After(w, Upsert(key, write, at));
    assert before[1..] == between;
    RowsOnlyGrow(stored, between);
    var tried := Exec(w, before);
    assert key in tried.rows;
    var claimed := After(tried, Claim(key, later));
    assert Marked(claimed.rows, key);
    RowsOnlyGrow(claimed, rest);
    ExecConcat(w, before, [Claim(key, later)] + rest);
    assert ([Claim(key, later)] + rest)[1..] == rest;
    assert before + ([Claim(key, later)] + rest) == before + [Claim(key, later)] + rest;
    RunKeepsSurplus(w, before + [Claim(key, later)] + rest, key);
  }

  // ---------------------------------------------------------------- who may change a status

  predicate TouchesStatus(step: Step, key: Key) {
    (step.Receipt? || step.Revoke? || step.EditEvent?) && step.key == key
  }

  lemma StepKeepsStatus(rows: map<Key, Row>, step: Step, key: Key)
    requires key in rows && !TouchesStatus(step, key)
    ensures key in RowsAfter(rows, step) && FieldOf(RowsAfter(rows, step)[key], Status) == FieldOf(rows[key], Status)
  {
    match step
    case Upsert(k, write, at) =>
      WriteFieldNames(write);
      UpsertedField(RowOf(rows, k), k, FieldsOf(write), OnInsertOf(write), at, Status);
    case Act(_, change, at) => ChangeFieldNames(change);
    case _ =>
  }

  /**
   The status of an existing row moves only on an ack, failed, revoked or edited delivery for it:
   never by a redelivered message, a send or an action.
   */
  lemma {:induction false} StatusMovesOnlyByReceipts(w: World, steps: seq<Step>, key: Key)
    requires key in w.rows && forall step :: step in steps ==> !TouchesStatus(step, key)
    ensures key in Exec(w, steps).rows
    ensures FieldOf(Exec(w, steps).rows[key], Status) == FieldOf(w.rows[key], Status)
    decreases |steps|
  {
    if steps != [] {
      StepKeepsStatus(w.rows, steps[0], key);
      StatusMovesOnlyByReceipts(After(w, steps[0]), steps[1..], key);
    }
  }

  /** The status that the last ack or failure, revocation or edit of `key` leaves, or `start` without one. */
  function LastReceipt(steps: seq<Step>, key: Key, start: Option<Value>): Option<Value>
    decreases |steps|
  {
    if steps == [] then start
    else
      match steps[|steps| - 1]
      case Receipt(k, status, _) =>
        if k == key then Some(Text(status)) else LastReceipt(steps[..|steps| - 1], key, start)
      case Revoke(k, _) =>
        if k == key then Some(Text("revoked")) else LastReceipt(steps[..|steps| - 1], key, start)
      case EditEvent(k, _, _) =>
        if k == key then Some(Text("edited")) else LastReceipt(steps[..|steps| - 1], key, start)
      case _ => LastReceipt(steps[..|steps| - 1], key, start)
  }

  /** Over any run, the status of an existing row is exactly the one its last receipt gave it. */
  lemma {:induction false} StatusIsLastReceipt(w: World, steps: seq<Step>, key: Key)
    requires key in w.rows
    ensures key in Exec(w, steps).rows
    ensures FieldOf(Exec(w, steps).rows[key], Status) == LastReceipt(steps, key, FieldOf(w.rows[key], Status))
    decreases |steps|
  {
    if steps != [] {
      var before, last := steps[..|steps| - 1], steps[|steps| - 1];
      assert steps == before + [last];
      ExecConcat(w, before, [last]);
      StatusIsLastReceipt(w, before, key);
      var mid := Exec(w, before);
      assert [last][1..] == [] && Exec(mid, [last]) == After(mid, last);
      ReceiptWritesStatus(mid.rows, last, key);
    }
  }

  lemma ReceiptWritesStatus(rows: map<Key, Row>, step: Step, key: Key)
    requires key in rows
    ensures key in RowsAfter(rows, step)
    ensures var status := FieldOf(RowsAfter(rows, step)[key], Status);
            && (!TouchesStatus(step, key) ==> status == FieldOf(rows[key], Status))
            && (step.Receipt? && step.key == key ==> status == Some(Text(step.status)))
            && (step.Revoke? && step.key == key ==> status == Some(Text("revoked")))
            && (step.EditEvent? && step.key == key ==> status == Some(Text("edited")))
  {
    if !TouchesStatus(step, key) { StepKeepsStatus(rows, step, key); }
  }

  // ---------------------------------------------------------------- what ends up in a row

  /** A new value, else what the row had. */
  function Latest(given: Option<Value>, rows: map<Key, Row>, key: Key, f: Field): Option<Value> {
    if given.Some? then given else if key in rows then FieldOf(rows[key], f) else None
  }

  /** What a write says about a field. */
  function Given(write: Write, f: Field): Option<Value> {
    if f in FieldsOf(write) then FieldsOf(write)[f] else None
  }

  /** A field of the row after an upsert step. */
  function Stored(rows: map<Key, Row>, key: Key, write: Write, at: int, f: Field): Option<Value> {
    FieldOf(RowsAfter(rows, Upsert(key, write, at))[key], f)
  }

  lemma StoredIsLatest(rows: map<Key, Row>, key: Key, write: Write, at: int, f: Field)
    requires f !in {UpdatedAt, CreatedAt, SessionName, MessageId}
    ensures Stored(rows, key, write, at, f) ==
            if Given(write, f).Some? then Given(write, f)
            else if key in rows then FieldOf(rows[key], f)
            else FieldOf(Known(OnInsertOf(write)), f)
  {
    UpsertedField(RowOf(rows, key), key, FieldsOf(write), OnInsertOf(write), at, f);
  }

  lemma InsertOnly(write: Write, f: Field)
    ensures FieldOf(Known(OnInsertOf(write)), f) ==
            if f == Status then
              Some(Text(if write.FromWebhook? && write.d.inbound then "received" else "sent"))
            else if f == Timestamp && write.FromApi? then Some(Time(write.a.sentAt))
            else None
  {
  }

  /** Which field of a delivery goes where. */
  lemma DeliveryGives(d: Delivery)
    ensures var w := FromWebhook(d);
            && Given(w, Direction) == Some(Text(if d.inbound then "in" else "out"))
            && Given(w, FromMe) == Some(Flag(!d.inbound)) && Given(w, HasMedia) == Some(Flag(d.hasMedia))
            && Given(w, Source) == Some(Text("webhook")) && Given(w, Status) == None
            && Given(w, ChatId) == d.chatId && Given(w, From) == d.sender && Given(w, To) == d.recipient
            && Given(w, Body) == d.body && Given(w, Timestamp) == d.timestamp
            && Given(w, ContactNumber) == d.contactNumber
  {
  }

  lemma DeliveryDetails(d: Delivery)
    ensures var w := FromWebhook(d);
            && Given(w, Phone) == d.phone && Given(w, Type) == d.kindOfMessage && Given(w, Kind) == d.kind
            && Given(w, IsGroup) == d.isGroup && Given(w, MediaInfo) == d.mediaInfo
            && Given(w, SenderPhone) == d.senderPhone && Given(w, ContactName) == d.contactName
            && Given(w, Contact) == d.contact && Given(w, Raw) == Some(d.raw)
  {
  }

  /** A write of the row's earlier value, when it has nothing newer to say. */
  lemma LatestStored(rows: map<Key, Row>, key: Key, d: Delivery, at: int, f: Field)
    requires f !in {UpdatedAt, CreatedAt, SessionName, MessageId, Status}
    ensures Stored(rows, key, FromWebhook(d), at, f) == Latest(Given(FromWebhook(d), f), rows, key, f)
  {
    StoredIsLatest(rows, key, FromWebhook(d), at, f);
    InsertOnly(FromWebhook(d), f);
  }

  /**
   The row after a message.received or message.sent delivery: who sent it which way, what it said, and
   for a new row the status its direction starts with. What the delivery lacks stays as it was.
   */
  lemma DeliveryIsStored(rows: map<Key, Row>, key: Key, d: Delivery, at: int)
    ensures var w := FromWebhook(d);
            && Stored(rows, key, w, at, Direction) == Some(Text(if d.inbound then "in" else "out"))
            && Stored(rows, key, w, at, FromMe) == Some(Flag(!d.inbound))
            && Stored(rows, key, w, at, HasMedia) == Some(Flag(d.hasMedia))
            && Stored(rows, key, w, at, Source) == Some(Text("webhook"))
            && Stored(rows, key, w, at, ChatId) == Latest(d.chatId, rows, key, ChatId)
            && Stored(rows, key, w, at, From) == Latest(d.sender, rows, key, From)
            && Stored(rows, key, w, at, To) == Latest(d.recipient, rows, key, To)
            && Stored(rows, key, w, at, Body) == Latest(d.body, rows, key, Body)
            && Stored(rows, key, w, at, Timestamp) == Latest(d.timestamp, rows, key, Timestamp)
            && Stored(rows, key, w, at, ContactNumber) == Latest(d.contactNumber, rows, key, ContactNumber)
            && Stored(rows, key, w, at, Status) ==
               if key in rows then FieldOf(rows[key], Status)
               else Some(Text(if d.inbound then "received" else "sent"))
  {
    var w := FromWebhook(d);
    DeliveryGives(d);
    LatestStored(rows, key, d, at, Direction);
    LatestStored(rows, key, d, at, FromMe);
    LatestStored(rows, key, d, at, HasMedia);
    LatestStored(rows, key, d, at, Source);
    LatestStored(rows, key, d, at, ChatId);
    LatestStored(rows, key, d, at, From);
    LatestStored(rows, key, d, at, To);
    LatestStored(rows, key, d, at, Body);
    LatestStored(rows, key, d, at, Timestamp);
    LatestStored(rows, key, d, at, ContactNumber);
    StoredIsLatest(rows, key, w, at, Status);
    InsertOnly(w, Status);
  }

  /** The same for what describes the message and its sender further. */
  lemma DeliveryDetailsAreStored(rows: map<Key, Row>, key: Key, d: Delivery, at: int)
    ensures var w := FromWebhook(d);
            && Stored(rows, key, w, at, Phone) == Latest(d.phone, rows, key, Phone)
            && Stored(rows, key, w, at, Type) == Latest(d.kindOfMessage, rows, key, Type)
            && Stored(rows, key, w, at, Kind) == Latest(d.kind, rows, key, Kind)
            && Stored(rows, key, w, at, IsGroup) == Latest(d.isGroup, rows, key, IsGroup)
            && Stored(rows, key, w, at, MediaInfo) == Latest(d.mediaInfo, rows, key, MediaInfo)
            && Stored(rows, key, w, at, SenderPhone) == Latest(d.senderPhone, rows, key, SenderPhone)
            && Stored(rows, key, w, at, ContactName) == Latest(d.contactName, rows, key, ContactName)
            && Stored(rows, key, w, at, Contact) == Latest(d.contact, rows, key, Contact)
            && Stored(rows, key, w, at, Raw) == Some(d.raw)
  {
    DeliveryDetails(d);
    LatestStored(rows, key, d, at, Phone);
    LatestStored(rows, key, d, at, Type);
    LatestStored(rows, key, d, at, Kind);
    LatestStored(rows, key, d, at, IsGroup);
    LatestStored(rows, key, d, at, MediaInfo);
    LatestStored(rows, key, d, at, SenderPhone);
    LatestStored(rows, key, d, at, ContactName);
    LatestStored(rows, key, d, at, Contact);
    LatestStored(rows, key, d, at, Raw);
  }

  lemma SendGives(a: ApiSend)
    ensures var w := FromApi(a);
            && Given(w, Direction) == Some(Text("out")) && Given(w, FromMe) == Some(Flag(true))
            && Given(w, Source) == Some(Text("api")) && Given(w, ChatId) == Some(a.chatId)
  {
  }

  lemma SendGivesContent(a: ApiSend)
    ensures var w := FromApi(a);
            && Given(w, Phone) == a.phone && Given(w, Body) == Some(a.body) && Given(w, Type) == Some(a.kind)
            && Given(w, Status) == None && Given(w, Timestamp) == None
  {
  }

  /** The row after a send the gateway accepted, whatever kind of send it was. */
  lemma SendIsStored(rows: map<Key, Row>, key: Key, a: ApiSend, at: int)
    ensures var w := FromApi(a);
            && Stored(rows, key, w, at, Direction) == Some(Text("out"))
            && Stored(rows, key, w, at, FromMe) == Some(Flag(true))
            && Stored(rows, key, w, at, Source) == Some(Text("api"))
            && Stored(rows, key, w, at, ChatId) == Some(a.chatId)
            && Stored(rows, key, w, at, Phone) == Latest(a.phone, rows, key, Phone)
            && Stored(rows, key, w, at, Body) == Some(a.body)
            && Stored(rows, key, w, at, Type) == Some(a.kind)
            && Stored(rows, key, w, at, Status) ==
               (if key in rows then FieldOf(rows[key], Status) else Some(Text("sent")))
            && Stored(rows, key, w, at, Timestamp) ==
               (if key in rows then FieldOf(rows[key], Timestamp) else Some(Time(a.sentAt)))
  {
    var w := FromApi(a);
    SendGives(a);
    SendGivesContent(a);
    StoredIsLatest(rows, key, w, at, Direction);
    StoredIsLatest(rows, key, w, at, FromMe);
    StoredIsLatest(rows, key, w, at, Source);
    StoredIsLatest(rows, key, w, at, ChatId);
    StoredIsLatest(rows, key, w, at, Phone);
    StoredIsLatest(rows, key, w, at, Body);
    StoredIsLatest(rows, key, w, at, Type);
    StoredIsLatest(rows, key, w, at, Status);
    StoredIsLatest(rows, key, w, at, Timestamp);
    InsertOnly(w, Phone);
    InsertOnly(w, Status);
    InsertOnly(w, Timestamp);
  }

  /** What each kind of send adds to its row. */
  lemma SendExtrasAreStored(rows: map<Key, Row>, key: Key, a: ApiSend, at: int)
    ensures var w := FromApi(a);
            match a.extra
            case PlainText => true
            case MediaSend(info) =>
              && Stored(rows, key, w, at, HasMedia) == Some(Flag(true))
              && Stored(rows, key, w, at, MediaInfo) == Some(info)
            case ReplyTo(quoted) => Stored(rows, key, w, at, QuotedMessageId) == Some(quoted)
            case ForwardOf(chat, message) =>
              && Stored(rows, key, w, at, ForwardedFrom) == Some(chat)
              && Stored(rows, key, w, at, ForwardedMessageId) == Some(message)
            case LocationPin(location) => Stored(rows, key, w, at, Location) == Some(location)
            case Card(card) => Stored(rows, key, w, at, ContactCard) == Some(card)
            case PollOf(poll) => Stored(rows, key, w, at, Poll) == Some(poll)
  {
    var w := FromApi(a);
    match a.extra
    case PlainText =>
    case MediaSend(_) =>
      StoredIsLatest(rows, key, w, at, HasMedia);
      StoredIsLatest(rows, key, w, at, MediaInfo);
    case ReplyTo(_) => StoredIsLatest(rows, key, w, at, QuotedMessageId);
    case ForwardOf(_, _) =>
      StoredIsLatest(rows, key, w, at, ForwardedFrom);
      StoredIsLatest(rows, key, w, at, ForwardedMessageId);
    case LocationPin(_) => StoredIsLatest(rows, key, w, at, Location);
    case Card(_) => StoredIsLatest(rows, key, w, at, ContactCard);
    case PollOf(_) => StoredIsLatest(rows, key, w, at, Poll);
  }

  /** What an action says about a field. */
  function Changed(c: Change, f: Field): Option<Value> {
    if f in ChangeFields(c) then ChangeFields(c)[f] else None
  }

  lemma ChangeGives(c: Change)
    ensures match c
            case React(emoji) => Changed(c, MyReaction) == Some(emoji)
            case EditText(body, history) =>
              && Changed(c, Body) == Some(body) && Changed(c, Edited) == Some(Flag(true))
              && Changed(c, EditHistory) == history
            case Delete(forEveryone, when) =>
              && Changed(c, Deleted) == Some(Flag(true)) && Changed(c, DeletedAt) == Some(Time(when))
              && Changed(c, DeletedForEveryone) == Some(Flag(forEveryone))
            case Star(on) => Changed(c, Starred) == Some(Flag(on))
            case Pin(seconds) =>
              Changed(c, Pinned) == Some(Flag(true)) && Changed(c, PinDurationSeconds) == Some(seconds)
            case Unpin => Changed(c, Pinned) == Some(Flag(false))
            case NumberResolved(number) =>
              Changed(c, ContactNumber) == Some(number) && Changed(c, ContactIdResolved) == Some(Flag(true))
  {
  }

  lemma ChangedField(rows: map<Key, Row>, key: Key, c: Change, at: int, f: Field)
    requires key in rows && f != UpdatedAt
    ensures FieldOf(RowsAfter(rows, Act(key, c, at))[key], f) == Latest(Changed(c, f), rows, key, f)
  {
  }

  /** The row after an action: what it changes, and everything else as it was. */
  lemma ChangeIsStored(rows: map<Key, Row>, key: Key, c: Change, at: int)
    ensures var after := RowsAfter(rows, Act(key, c, at));
            && (key !in rows ==> after == rows)
            && (key in rows ==>
                  && after == rows[key := after[key]]
                  && forall f :: f != UpdatedAt ==>
                       FieldOf(after[key], f) == Latest(Changed(c, f), rows, key, f))
  {
    if key in rows {
      forall f | f != UpdatedAt
        ensures FieldOf(RowsAfter(rows, Act(key, c, at))[key], f) == Latest(Changed(c, f), rows, key, f)
      {
        ChangedField(rows, key, c, at, f);
      }
    }
  }

  // ---------------------------------------------------------------- order independence

  function Both(row: Option<Row>, key: Key, first: Write, second: Write, t1: int, t2: int): Row {
    var once := Upserted(row, key, FieldsOf(first), OnInsertOf(first), t1);
    Upserted(Some(once), key, FieldsOf(second), OnInsertOf(second), t2)
  }

  lemma BothField(row: Option<Row>, key: Key, first: Write, second: Write, t1: int, t2: int, f: Field)
    requires f == Status || f == Timestamp
    ensures FieldOf(Both(row, key, first, second, t1, t2), f) ==
            if f in Known(FieldsOf(second)) then Some(Known(FieldsOf(second))[f])
            else if f in Known(FieldsOf(first)) then Some(Known(FieldsOf(first))[f])
            else if row.Some? then FieldOf(row.value, f)
            else FieldOf(Known(OnInsertOf(first)), f)
  {
    var once := Upserted(row, key, FieldsOf(first), OnInsertOf(first), t1);
    UpsertedField(row, key, FieldsOf(first), OnInsertOf(first), t1, f);
    UpsertedField(Some(once), key, FieldsOf(second), OnInsertOf(second), t2, f);
  }

  lemma BothKeys(row: Option<Row>, key: Key, first: Write, second: Write, t1: int, t2: int)
    ensures Both(row, key, first, second, t1, t2).Keys ==
            Known(FieldsOf(first)).Keys + Known(FieldsOf(second)).Keys + {UpdatedAt}
            + if row.Some? then row.value.Keys
              else {SessionName, MessageId, CreatedAt} + Known(OnInsertOf(first)).Keys
  {
    var once := Upserted(row, key, FieldsOf(first), OnInsertOf(first), t1);
    UpsertedKeys(row, key, FieldsOf(first), OnInsertOf(first), t1);
    UpsertedKeys(Some(once), key, FieldsOf(second), OnInsertOf(second), t2);
  }

  lemma InsertOnlyFields(w: Write)
    ensures Known(OnInsertOf(w)).Keys == if w.FromApi? then {Status, Timestamp} else {Status}
    ensures w.FromApi? || !w.d.inbound ==> Known(OnInsertOf(w))[Status] == Text("sent")
  {
  }

  /**
   The record of a send and its message.sent webhook may land in either order. The status agrees
   always; the fields and the timestamp agree exactly when the webhook carries a timestamp or the row
   was there before.
   */
  lemma SendAndWebhookCommute(row: Option<Row>, key: Key, a: ApiSend, d: Delivery, t1: int, t2: int)
    requires !d.inbound
    ensures var apiFirst := Both(row, key, FromApi(a), FromWebhook(d), t1, t2);
            var webhookFirst := Both(row, key, FromWebhook(d), FromApi(a), t1, t2);
            && FieldOf(apiFirst, Status) == FieldOf(webhookFirst, Status)
            && (d.timestamp.Some? || row.Some? ==>
                  FieldOf(apiFirst, Timestamp) == FieldOf(webhookFirst, Timestamp))
            && (apiFirst.Keys == webhookFirst.Keys <==> d.timestamp.Some? || row.Some?)
  {
    var api, hook := FromApi(a), FromWebhook(d);
    SendFieldNames(a);
    DeliveryFieldNames(d);
    InsertOnlyFields(api);
    InsertOnlyFields(hook);
    BothField(row, key, api, hook, t1, t2, Status);
    BothField(row, key, hook, api, t1, t2, Status);
    BothField(row, key, api, hook, t1, t2, Timestamp);
    BothField(row, key, hook, api, t1, t2, Timestamp);
    KeysCommute(row, key, a, d, t1, t2);
  }

  lemma KeysCommute(row: Option<Row>, key: Key, a: ApiSend, d: Delivery, t1: int, t2: int)
    ensures Both(row, key, FromApi(a), FromWebhook(d), t1, t2).Keys
         == Both(row, key, FromWebhook(d), FromApi(a), t1, t2).Keys
         <==> d.timestamp.Some? || row.Some?
  {
    SendFieldNames(a);
    DeliveryFieldNames(d);
    InsertOnlyFields(FromApi(a));
    InsertOnlyFields(FromWebhook(d));
    BothKeys(row, key, FromApi(a), FromWebhook(d), t1, t2);
    BothKeys(row, key, FromWebhook(d), FromApi(a), t1, t2);
    TimestampDecides(Known(SendFields(a)).Keys, Known(MessageFields(d)).Keys);
  }

  lemma TimestampDecides(send: set<Field>, hook: set<Field>)
    requires Timestamp !in send
    ensures send + hook + {UpdatedAt} + ({SessionName, MessageId, CreatedAt} + {Status, Timestamp})
         == hook + send + {UpdatedAt} + ({SessionName, MessageId, CreatedAt} + {Status})
         <==> Timestamp in hook
    ensures send + hook == hook + send
  {
    var all := hook + send + {UpdatedAt} + ({SessionName, MessageId, CreatedAt} + {Status});
    assert Timestamp in all <==> Timestamp in hook;
  }
}
