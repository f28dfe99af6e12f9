/**
 * Identifiers and the envelopes exchanged between the relay and its clients.
 *
 * Inbound envelopes are JSON objects whose fields the relay reads by name
 * (`type`, `roomId`, `targetUserId`) and otherwise passes on untouched;
 * outbound envelopes are the replies and events the relay composes itself,
 * plus `Relayed` for a client's object sent on (possibly with `userId` set).
 */
module Envelopes {

  datatype Option<+T> = None | Some(value: T)

  /** Connection ids and room ids are non-empty strings (the generator draws
      base-36 digits), so a present id is always truthy in the source. */
  type Id = s: string | s != "" witness "i"
  type UserId = Id
  type RoomId = Id

  /** A parsed JSON value. Numbers are kept as integers: the relay never
      inspects them. */
  datatype Json =
    | JNull
    | JBool(b: bool)
    | JNumber(n: int)
    | JString(str: string)
    | JArray(items: seq<Json>)
    | JObject(fields: map<string, Json>)

  type Fields = map<string, Json>

  /** What the transport hands the relay for one text frame: either a JSON
      object, or something that is not one (a parse failure, `null`, a number,
      an array...), which the dispatcher ignores. */
  datatype Inbound = Malformed | Object(fields: Fields)

  /** Envelopes the relay writes to a connection. */
  datatype Envelope =
    | UserIdAssigned(userId: UserId)                          // type 'user-id'
    | RoomCreated(roomId: RoomId, participants: seq<UserId>)  // type 'room-created'
    | RoomJoined(roomId: RoomId, participants: seq<UserId>)   // type 'room-joined'
    | UserJoined(userId: UserId, participants: seq<UserId>)   // type 'user-joined'
    | UserLeft(userId: UserId, participants: seq<UserId>)     // type 'user-left'
    | ErrorReply(message: string)                             // type 'error'
    | Relayed(fields: Fields)                                 // a client's own object

  /** One call of `ws.send`: the connection written to and what was written. */
  datatype Send = Send(to: UserId, env: Envelope)

  /** The string value of field `key`, if the object has one. */
  function StringField(fields: Fields, key: string): (r: Option<string>)
    ensures r.Some? <==> key in fields && fields[key].JString?
    ensures r.Some? ==> fields[key] == JString(r.value)
  {
    if key in fields && fields[key].JString? then Some(fields[key].str) else None
  }

  /** The `type` tag the dispatcher switches on: only a string can equal one
      of the case labels. */
  function Kind(fields: Fields): (k: Option<string>)
    ensures k.Some? <==> "type" in fields && fields["type"].JString?
    ensures k.Some? ==> fields["type"] == JString(k.value)
  {
    StringField(fields, "type")
  }

  /**
   * The field `key` read as an id usable as a map key: present when the
   * field is a non-empty string. Any other value (absent, "", a number,
   * null, an object) is falsy or can never equal a key of the tables, so
   * the source treats it as "no such connection / room".
   */
  function IdField(fields: Fields, key: string): (r: Option<Id>)
    ensures r.Some? <==> key in fields && fields[key].JString? && fields[key].str != ""
    ensures r.Some? ==> r.value != "" && fields[key] == JString(r.value)
  {
    match StringField(fields, key)
    case Some(s) => if s != "" then Some(s) else None
    case None => None
  }
}
