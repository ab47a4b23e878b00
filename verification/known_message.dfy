/**
 * The message-type guard of the web-extension worker: a message is known
 * when it is a non-null object whose `type` is one of three fixed strings.
 *
 * Message values are JSON values; `undefined`, functions and symbols are not
 * part of this model.
 */
module KnownMessage {
  import opened Wrappers
  import opened Json

  /** `KNOWN_MESSAGE_TYPES`, in the source's order. */
  const KnownMessageTypes: seq<string> := ["state_for_popup", "popup_ready", "set_base_url"]

  /** `message?.type`: the own `type` property of an object; arrays and primitives have none. */
  function TypeProperty(m: Json): Option<Json> {
    if m.JObj? then Get(m.fields, "type") else None
  }

  /** `list.indexOf(v)` with strict equality; a missing property (`undefined`) is never found. */
  function IndexOfValue(list: seq<string>, v: Option<Json>): (i: int)
    ensures -1 <= i < |list|
    ensures i >= 0 ==> v == Some(JStr(list[i]))
    ensures i == -1 <==> forall t :: t in list ==> v != Some(JStr(t))
  {
    if list == [] then -1
    else if v == Some(JStr(list[0])) then 0
    else
      var j := IndexOfValue(list[1..], v);
      if j == -1 then -1 else j + 1
  }

  /** `isKnownMessage`: an object (not null) whose `type` is a known message type. */
  function IsKnownMessage(m: Json): (r: bool)
    ensures r <==> m.JObj? && exists t :: t in KnownMessageTypes && Get(m.fields, "type") == Some(JStr(t))
    ensures r <==> m.JObj? && Get(m.fields, "type") in {Some(JStr("state_for_popup")), Some(JStr("popup_ready")), Some(JStr("set_base_url"))}
  {
    TypeofObject(m) && m != JNull && IndexOfValue(KnownMessageTypes, TypeProperty(m)) != -1
  }

  /** A `reload_closure` message is not among the known types. */
  lemma ReloadClosureRejected(extra: seq<(string, Json)>)
    ensures !IsKnownMessage(JObj([("type", JStr("reload_closure"))] + extra))
  {
    var fields := [("type", JStr("reload_closure"))] + extra;
    assert Get(fields, "type") == Some(JStr("reload_closure"));
  }

  /** A popup-ready message is accepted whatever its other properties are. */
  lemma PopupReadyAccepted(extra: seq<(string, Json)>)
    ensures IsKnownMessage(JObj([("type", JStr("popup_ready"))] + extra))
  {
    var fields := [("type", JStr("popup_ready"))] + extra;
    assert Get(fields, "type") == Some(JStr("popup_ready"));
  }
}
