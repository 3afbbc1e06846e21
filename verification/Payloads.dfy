/**
 How write_event reads an event dictionary. `at` reads a timestamp and `dumps`
 writes metadata; a value of the wrong type reads as absent, which the schema
 rules out before the store is reached.
*/
module Payloads {
  import opened Options
  import opened JsonValues
  import opened GraphModel

  type Fields = map<string, Json>

  function Field(d: Fields, key: string): Json { if key in d then d[key] else Null }

  function Sub(d: Fields, key: string): Fields { if Field(d, key).Object? then Field(d, key).fields else map[] }

  function TextOr(j: Json): Option<string> { if j.Text? then Some(j.s) else None }

  function TextAt(d: Fields, key: string): string { if TextOr(Field(d, key)).Some? then Field(d, key).s else "" }

  function IdTypeOf(s: string): IdType {
    if s == "email" then Email else if s == "sso_subject" then SsoSubject else if s == "employee_id" then EmployeeId else AppNativeId
  }

  function Roles(items: seq<Json>): seq<string> {
    if items == [] then []
    else Roles(items[..|items| - 1]) + if items[|items| - 1].Text? then [items[|items| - 1].s] else []
  }

  function Unpack(d: Fields, at: string -> int, dumps: Json -> string): Event {
    var actor, action, obj, context := Sub(d, "actor"), Sub(d, "action"), Sub(d, "object"), Sub(d, "context");
    var metadata := Field(action, "metadata");
    Event(TextAt(d, "tenantId"), TextAt(d, "applicationId"), TextAt(d, "applicationInstanceId"),
          TextAt(actor, "nativeUserId"), IdTypeOf(TextAt(actor, "userIdType")), TextOr(Field(actor, "canonicalUserId")),
          if Field(actor, "roles").List? then Roles(Field(actor, "roles").items) else [],
          TextAt(obj, "objectType"), TextAt(obj, "objectId"), TextAt(d, "eventId"), TextAt(action, "type"), at(TextAt(d, "eventTimestamp")),
          Details(TextAt(action, "category"), if Truthy(metadata) then Some(dumps(metadata)) else None, TextAt(d, "environment"),
                  TextOr(Field(context, "sessionId")), TextOr(Field(context, "correlationId")), TextOr(Field(context, "device"))))
  }

  // The writing side ----------------------------------------------------------------------

  function IdTypeName(t: IdType): string {
    match t
    case Email => "email"
    case SsoSubject => "sso_subject"
    case AppNativeId => "app_native_id"
    case EmployeeId => "employee_id"
  }

  function OrNull(s: Option<string>): Json { if s.Some? then Text(s.value) else Null }

  /** The dictionary of an event, as the schema lays it out. */
  function Encode(e: Event, when: string, metadata: Json): Fields {
    map["tenantId" := Text(e.tenant), "applicationId" := Text(e.app), "applicationInstanceId" := Text(e.instance),
        "eventId" := Text(e.eventId), "eventTimestamp" := Text(when), "environment" := Text(e.details.environment),
        "actor" := Object(map["nativeUserId" := Text(e.native), "userIdType" := Text(IdTypeName(e.idType)),
                              "canonicalUserId" := OrNull(e.canonical), "roles" := List(Texts(e.roles))]),
        "action" := Object(map["type" := Text(e.actionType), "category" := Text(e.details.category), "metadata" := metadata]),
        "object" := Object(map["objectType" := Text(e.objectType), "objectId" := Text(e.objectId)]),
        "context" := Object(map["sessionId" := OrNull(e.details.sessionId), "correlationId" := OrNull(e.details.correlationId),
                                "device" := OrNull(e.details.device)])]
  }

  function Texts(ss: seq<string>): seq<Json> { seq(|ss|, i requires 0 <= i < |ss| => Text(ss[i])) }

  lemma {:induction false} RolesOfTexts(ss: seq<string>)
    ensures Roles(Texts(ss)) == ss
  {
    if ss != [] {
      RolesOfTexts(ss[..|ss| - 1]);
      assert Texts(ss)[..|ss| - 1] == Texts(ss[..|ss| - 1]);
    }
  }

  lemma ActorRead(e: Event, when: string, metadata: Json)
    ensures var actor := Sub(Encode(e, when, metadata), "actor");
            && TextAt(actor, "nativeUserId") == e.native && IdTypeOf(TextAt(actor, "userIdType")) == e.idType
            && TextOr(Field(actor, "canonicalUserId")) == e.canonical && Field(actor, "roles") == List(Texts(e.roles))
  {}

  lemma RestRead(e: Event, when: string, metadata: Json)
    ensures var d := Encode(e, when, metadata);
            && TextAt(d, "tenantId") == e.tenant && TextAt(d, "applicationId") == e.app && TextAt(d, "applicationInstanceId") == e.instance
            && TextAt(d, "eventId") == e.eventId && TextAt(d, "eventTimestamp") == when && TextAt(d, "environment") == e.details.environment
            && TextAt(Sub(d, "action"), "type") == e.actionType && TextAt(Sub(d, "action"), "category") == e.details.category
            && Field(Sub(d, "action"), "metadata") == metadata
            && TextAt(Sub(d, "object"), "objectType") == e.objectType && TextAt(Sub(d, "object"), "objectId") == e.objectId
            && TextOr(Field(Sub(d, "context"), "sessionId")) == e.details.sessionId
            && TextOr(Field(Sub(d, "context"), "correlationId")) == e.details.correlationId
            && TextOr(Field(Sub(d, "context"), "device")) == e.details.device
  {}

  /** Reading back what was laid out gives the same event, for every event. */
  lemma UnpackEncode(e: Event, when: string, metadata: Json, at: string -> int, dumps: Json -> string)
    requires at(when) == e.ts && e.details.metadata == if Truthy(metadata) then Some(dumps(metadata)) else None
    ensures Unpack(Encode(e, when, metadata), at, dumps) == e
  {
    hide Encode, TextAt, Sub, Field, TextOr, IdTypeOf, Roles;
    ActorRead(e, when, metadata);
    RestRead(e, when, metadata);
    RolesOfTexts(e.roles);
  }
}
