/** The message record the hive routes, and the `x or y` defaulting that the
    hive and its proxy apply to optional string arguments. */
module Messages {

  datatype Option<+T> = None | Some(value: T)

  /** Actor ids and message ids are strings. */
  type ActorId = string
  type MessageId = string

  /** A message as the hive builds it in `send_message`. Only `to` and `id`
      are consulted by the hive; the other fields are carried unchanged. */
  datatype Message = Message(
    to: ActorId,
    directive: string,
    fromId: Option<ActorId>,
    body: Option<string>,
    inReplyTo: Option<MessageId>,
    id: MessageId,
    wantsReply: Option<bool>)

  /** Python truthiness of an optional string argument: `None` and the empty
      string are both false. */
  predicate Truthy(s: Option<string>): (b: bool)
    ensures b <==> s != None && s != Some("")
  {
    s.Some? && s.value != ""
  }

  /** Python's `s or fallback` for an optional string. */
  function OrElse(s: Option<string>, fallback: string): (r: string)
    ensures Truthy(s) ==> r == s.value
    ensures !Truthy(s) ==> r == fallback
    ensures Some(r) == s || r == fallback
    ensures Truthy(Some(r)) <==> Truthy(s) || fallback != ""
  {
    if Truthy(s) then s.value else fallback
  }
}
