/** The interaction-event endpoint: a posted `{context, type, query,
    item_id}` body is checked field by field, and an accepted event is
    logged with the fields that belong to its type. */
module HitRoute {
  import opened Strings
  import opened JsonValue

  datatype EventType = Search | Click

  /** The event as it is logged (the timestamp is left out). */
  datatype Event = Event(context: Json, kind: EventType, query: Option<Json>, itemId: Option<Json>)

  datatype Response =
    | Accepted(event: Event)
    | Rejected(status: nat, error: string)

  const MissingFields := "Missing required fields: context and type"
  const InvalidType := "Invalid type. Must be 'search' or 'click'"
  const QueryRequired := "Query is required for search events"
  const ItemRequired := "item_id is required for click events"
  const LogFailed := "Failed to log event"

  /** `["search", "click"].includes(type)`: strict equality with one of the
      two strings. */
  function EventTypeOf(t: Option<Json>): (r: Option<EventType>)
    ensures r == Some(Search) <==> t == Some(JStr("search"))
    ensures r == Some(Click) <==> t == Some(JStr("click"))
  {
    if t == Some(JStr("search")) then Some(Search)
    else if t == Some(JStr("click")) then Some(Click)
    else None
  }

  /** The `POST` handler on the parsed body; `None` is a body that is not
      JSON, so `req.json()` throws. Destructuring `null` throws as well;
      any other non-object value has none of the four properties.
      The checks run in order and the first one that fails decides the
      response: each rejection happens exactly when the checks before it
      pass and it fails. An event is accepted exactly when every check
      passes, and the logged event carries the query only for a search and
      the item only for a click. */
  function ValidateEvent(body: Option<Json>): (r: Response)
    ensures var context := Get(body, "context");
      var t := Get(body, "type");
      var ok := body.Some? && body != Some(JNull);
      && (r == Rejected(500, LogFailed) <==> !ok)
      && (r == Rejected(400, MissingFields) <==> ok && (!Truthy(context) || !Truthy(t)))
      && (r == Rejected(400, InvalidType) <==>
            ok && Truthy(context) && Truthy(t) && t != Some(JStr("search")) && t != Some(JStr("click")))
      && (r == Rejected(400, QueryRequired) <==>
            ok && Truthy(context) && t == Some(JStr("search")) && !Truthy(Get(body, "query")))
      && (r == Rejected(400, ItemRequired) <==>
            ok && Truthy(context) && t == Some(JStr("click")) && !Truthy(Get(body, "item_id")))
    ensures var t := Get(body, "type");
      r.Accepted? <==>
        && body.Some? && body.value.JObj?
        && Truthy(Get(body, "context"))
        && (t == Some(JStr("search")) || t == Some(JStr("click")))
        && (t == Some(JStr("search")) ==> Truthy(Get(body, "query")))
        && (t == Some(JStr("click")) ==> Truthy(Get(body, "item_id")))
    ensures r.Accepted? ==>
      && Some(r.event.context) == Get(body, "context")
      && (r.event.kind == Search ==> r.event.query == Get(body, "query") && r.event.itemId == None)
      && (r.event.kind == Click ==> r.event.itemId == Get(body, "item_id") && r.event.query == None)
  {
    if body.None? || body == Some(JNull) then Rejected(500, LogFailed)
    else
      var context := Get(body, "context");
      var t := Get(body, "type");
      var query := Get(body, "query");
      var itemId := Get(body, "item_id");
      if !Truthy(context) || !Truthy(t) then Rejected(400, MissingFields)
      else match EventTypeOf(t)
        case None => Rejected(400, InvalidType)
        case Some(kind) =>
          if kind == Search && !Truthy(query) then Rejected(400, QueryRequired)
          else if kind == Click && !Truthy(itemId) then Rejected(400, ItemRequired)
          else Accepted(Event(context.value, kind,
                              if kind == Search then query else None,
                              if kind == Click then itemId else None))
  }

  /** The four names the handler reads. */
  predicate IsEventField(key: string) {
    key == "context" || key == "type" || key == "query" || key == "item_id"
  }

  /** Fields other than the four do not change the response. */
  lemma ExtraFieldsIgnored(fields: map<string, Json>, key: string, v: Json)
    requires !IsEventField(key)
    ensures ValidateEvent(Some(JObj(fields[key := v]))) == ValidateEvent(Some(JObj(fields)))
  {
    var b := Some(JObj(fields));
    var b' := Some(JObj(fields[key := v]));
    assert Get(b', "context") == Get(b, "context");
    assert Get(b', "type") == Get(b, "type");
    assert Get(b', "query") == Get(b, "query");
    assert Get(b', "item_id") == Get(b, "item_id");
  }
}
