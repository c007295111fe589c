/** What WsService.cpp makes of a client's JSON message: the lookups of onWsMessage, and when they throw. */
module ClientMessages {
  import opened Bits

  /** A parsed message; `Other` is a number, a boolean, null or an array. */
  datatype Json = Obj(fields: map<bytes, Json>) | Str(text: bytes) | Other

  const TYPE: bytes := Ascii("type")
  const TOPIC: bytes := Ascii("topic")
  const PAYLOAD: bytes := Ascii("payload")
  const SUBSCRIBE: bytes := Ascii("subscribe")
  const UNSUBSCRIBE: bytes := Ascii("unsubscribe")
  const PUBLISH: bytes := Ascii("publish")

  datatype Command =
    | SubscribeTo(topic: bytes)
    | UnsubscribeFrom(topic: bytes)
    | PublishTo(topic: bytes, payload: bytes)
    | Nothing
    | Throws

  /** `msg.value(key, "")`: the empty string for a missing key; it throws on a non-object and on a non-string. */
  function Value(msg: Json, key: bytes): Option<bytes> {
    if !msg.Obj? then None
    else if key !in msg.fields then Some([])
    else if msg.fields[key].Str? then Some(msg.fields[key].text)
    else None
  }

  /** What a message asks for; `None` stands for text that does not parse. */
  function CommandOf(parsed: Option<Json>): Command {
    if parsed.None? then Nothing
    else
      match Value(parsed.value, TYPE)
      case None => Throws
      case Some(name) =>
        if name == SUBSCRIBE then
          match Value(parsed.value, TOPIC)
          case None => Throws
          case Some(topic) => SubscribeTo(topic)
        else if name == UNSUBSCRIBE then
          match Value(parsed.value, TOPIC)
          case None => Throws
          case Some(topic) => UnsubscribeFrom(topic)
        else if name == PUBLISH then
          match Value(parsed.value, TOPIC)
          case None => Throws
          case Some(topic) =>
            // the payload is looked up before the topic is tested for emptiness
            match Value(parsed.value, PAYLOAD)
            case None => Throws
            case Some(payload) => PublishTo(topic, payload)
        else Nothing
  }

  /** The object has this key, and its value is no string. */
  predicate Misfit(msg: Json, key: bytes) {
    msg.Obj? && key in msg.fields && !msg.fields[key].Str?
  }

  predicate HasType(msg: Json, name: bytes) {
    msg.Obj? && Ascii("type") in msg.fields && msg.fields[Ascii("type")] == Str(name)
  }

  /** Messages on which the handler throws, read off the message itself. */
  predicate BadMessage(msg: Json) {
    || !msg.Obj?
    || Misfit(msg, Ascii("type"))
    || ((HasType(msg, Ascii("subscribe")) || HasType(msg, Ascii("unsubscribe")) || HasType(msg, Ascii("publish")))
        && Misfit(msg, Ascii("topic")))
    || (HasType(msg, Ascii("publish")) && Misfit(msg, Ascii("payload")))
  }

  /** A message of this type with a topic that is not empty. */
  predicate Asks(msg: Json, name: bytes) {
    && HasType(msg, name)
    && Ascii("topic") in msg.fields && msg.fields[Ascii("topic")].Str? && msg.fields[Ascii("topic")].text != []
  }

  function TopicOf(msg: Json, name: bytes): bytes
    requires Asks(msg, name)
  {
    msg.fields[Ascii("topic")].text
  }

  /** What a publish hands on, if anything: a missing payload is the empty one. */
  function Publication(msg: Json): Option<(bytes, bytes)> {
    if !Asks(msg, Ascii("publish")) || Misfit(msg, Ascii("payload")) then None
    else
      Some((msg.fields[Ascii("topic")].text,
            if Ascii("payload") in msg.fields then msg.fields[Ascii("payload")].text else []))
  }

  lemma NamesDiffer()
    ensures |SUBSCRIBE| == 9 && |UNSUBSCRIBE| == 11 && |PUBLISH| == 7 && |TYPE| == 4 && |TOPIC| == 5
    ensures SUBSCRIBE != UNSUBSCRIBE && SUBSCRIBE != PUBLISH && UNSUBSCRIBE != PUBLISH && TYPE != TOPIC
    ensures SUBSCRIBE != [] && UNSUBSCRIBE != [] && PUBLISH != []
  {
  }

  lemma ValueMisfit(msg: Json, key: bytes)
    ensures Value(msg, key).None? <==> !msg.Obj? || Misfit(msg, key)
  {
  }

  lemma TypeIs(msg: Json, name: bytes)
    requires name != []
    ensures Value(msg, TYPE) == Some(name) <==> HasType(msg, name)
  {
  }

  /** The handler throws exactly on the bad messages; text that does not parse is not one of them. */
  lemma ThrowsIffBad(parsed: Option<Json>)
    ensures CommandOf(parsed).Throws? <==> parsed.Some? && BadMessage(parsed.value)
  {
    NamesDiffer();
    if parsed.Some? {
      var msg := parsed.value;
      ValueMisfit(msg, TYPE);
      ValueMisfit(msg, TOPIC);
      ValueMisfit(msg, PAYLOAD);
      TypeIs(msg, SUBSCRIBE);
      TypeIs(msg, UNSUBSCRIBE);
      TypeIs(msg, PUBLISH);
      hide Value, Misfit, HasType;
    }
  }

  /** Each command, and which fields it comes from. */
  lemma CommandCases(msg: Json)
    ensures match CommandOf(Some(msg)) {
              case SubscribeTo(topic) =>
                && !Asks(msg, Ascii("unsubscribe")) && Publication(msg).None?
                && (Asks(msg, Ascii("subscribe")) <==> topic != [])
                && (topic != [] ==> TopicOf(msg, Ascii("subscribe")) == topic)
              case UnsubscribeFrom(topic) =>
                && !Asks(msg, Ascii("subscribe")) && Publication(msg).None?
                && (Asks(msg, Ascii("unsubscribe")) <==> topic != [])
                && (topic != [] ==> TopicOf(msg, Ascii("unsubscribe")) == topic)
              case PublishTo(topic, payload) =>
                && !Asks(msg, Ascii("subscribe")) && !Asks(msg, Ascii("unsubscribe"))
                && Publication(msg) == if topic != [] then Some((topic, payload)) else None
              case _ =>
                !Asks(msg, Ascii("subscribe")) && !Asks(msg, Ascii("unsubscribe")) && Publication(msg).None? }
  {
    NamesDiffer();
    TypeIs(msg, SUBSCRIBE);
    TypeIs(msg, UNSUBSCRIBE);
    TypeIs(msg, PUBLISH);
    hide Ascii;
  }

  /** {"type":5} */
  lemma NumberAsType()
    ensures CommandOf(Some(Obj(map[TYPE := Other]))).Throws?
  {
    ThrowsIffBad(Some(Obj(map[TYPE := Other])));
  }

  /** {"type":"subscribe","topic":5} */
  lemma NumberAsTopic()
    ensures CommandOf(Some(Obj(map[TYPE := Str(SUBSCRIBE), TOPIC := Other]))).Throws?
  {
    NamesDiffer();
    ThrowsIffBad(Some(Obj(map[TYPE := Str(SUBSCRIBE), TOPIC := Other])));
  }

  /** {"type":"publish","payload":5}: an empty topic does not save it. */
  lemma NumberAsPayload()
    ensures CommandOf(Some(Obj(map[TYPE := Str(PUBLISH), PAYLOAD := Other]))).Throws?
  {
    assert |PAYLOAD| == 7;
    NamesDiffer();
    ThrowsIffBad(Some(Obj(map[TYPE := Str(PUBLISH), PAYLOAD := Other])));
  }
}
