/**
 * The shape of the webhook notification the messaging platform POSTs, and
 * the probe the POST handler runs on it to find the first inbound message:
 * `entry[0].changes[0].value.messages[0]` with its `from` and `text.body`.
 *
 * Every optional field is an Option; JavaScript arrays are truthy even when
 * empty, so `Some([])` passes a truthiness test and the `[0]` access after it
 * yields `undefined`, whose property access throws.
 */
module Payload {
  import opened JsValues

  datatype Text = Text(body: Option<string>)
  datatype Message = Message(from: Option<string>, text: Option<Text>)
  datatype Value = Value(messages: Option<seq<Message>>)
  datatype Change = Change(value: Option<Value>)
  datatype Entry = Entry(changes: Option<seq<Change>>)
  datatype WebhookBody = WebhookBody(entry: Option<seq<Entry>>)

  /** What the probe finds. */
  datatype Extraction =
    | NoMessage                                        // the guard is falsy: nothing to do
    | Inbound(from: Option<string>, text: Option<string>)  // run the search flow with these
    | AccessError                                      // a property of `undefined` was read: a TypeError

  /** `entry[0]` exists. */
  predicate HasEntry(b: WebhookBody) {
    b.entry.Some? && |b.entry.value| > 0
  }

  /** `entry[0].changes[0]` exists. */
  predicate HasChange(b: WebhookBody) {
    HasEntry(b) && b.entry.value[0].changes.Some? && |b.entry.value[0].changes.value| > 0
  }

  /** `entry[0].changes[0].value` exists. */
  predicate HasValue(b: WebhookBody) {
    HasChange(b) && b.entry.value[0].changes.value[0].value.Some?
  }

  function FirstValue(b: WebhookBody): Value
    requires HasValue(b)
  {
    b.entry.value[0].changes.value[0].value.value
  }

  /** `entry[0].changes[0].value.messages[0]` exists. */
  predicate HasMessage(b: WebhookBody) {
    HasValue(b) && FirstValue(b).messages.Some? && |FirstValue(b).messages.value| > 0
  }

  function FirstMessage(b: WebhookBody): Message
    requires HasMessage(b)
  {
    FirstValue(b).messages.value[0]
  }

  /** The guard of the POST handler evaluates to a falsy value without throwing. */
  predicate GuardFalsy(b: WebhookBody) {
    || b.entry.None?
    || (HasEntry(b) && b.entry.value[0].changes.None?)
    || (HasValue(b) && FirstValue(b).messages.None?)
  }

  /**
   * The probe of the POST handler: the guard
   * `entry && entry[0].changes && entry[0].changes[0].value.messages`,
   * then the reads of `messages[0].from` and `messages[0].text.body`.
   */
  function Extract(b: WebhookBody): (r: Extraction)
    ensures r == NoMessage <==> GuardFalsy(b)
    ensures r.Inbound? <==> HasMessage(b) && FirstMessage(b).text.Some?
    ensures r.Inbound? ==> r.from == FirstMessage(b).from && r.text == FirstMessage(b).text.value.body
    ensures b.entry == Some([]) ==> r == AccessError
    ensures HasValue(b) && FirstValue(b).messages == Some([]) ==> r == AccessError
  {
    match b.entry
    case None => NoMessage
    case Some(entries) =>
      if |entries| == 0 then AccessError
      else match entries[0].changes
        case None => NoMessage
        case Some(changes) =>
          if |changes| == 0 then AccessError
          else match changes[0].value
            case None => AccessError
            case Some(value) =>
              match value.messages
              case None => NoMessage
              case Some(messages) =>
                if |messages| == 0 then AccessError
                else match messages[0].text
                  case None => AccessError
                  case Some(text) => Inbound(messages[0].from, text.body)
  }
}
