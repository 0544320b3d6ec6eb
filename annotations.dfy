/**
 * get_annotations_mapping: the fixed table from parameter annotations to the value
 * the executor binds for a parameter with no default, computed from the envelope.
 */
module Annotations {
  import opened Wrappers
  import opened Events
  import opened Descriptors

  /**
   * A runtime value: the bot itself, an event value, an opaque result of a dependency,
   * or the TRACEBACKED sentinel a dependency's execution layer returns on failure.
   */
  datatype Value = Bot | Payload(v: EventValue) | Opaque(tag: int) | Tracebacked

  /** The exceptions the executor can raise or let through. */
  datatype Error =
    | NotCallable           // TypeError "must be callable."
    | UnexpectedDefault     // RuntimeError "checked a unexpected default value."
    | UnexpectedAnnotation  // RuntimeError "checked a unexpected annotation: ..."
    | UnboundArgument       // ValueError "you cannot setting a unbind argument."
    | SenderUndefined       // NameError: the "Sender" entry refers to an undefined name
    | KeywordRejected       // TypeError: run_func cannot pass a keyword (given twice, `func`, or undeclared)
    | LruCacheUndefined     // NameError: `lru_cache` is never imported
    | MiddlewareFailed      // entering a middleware raised
    | HandlerFailed         // the handler body raised

  /**
   * Looking an annotation up: None when it is not a key of the table, otherwise what
   * calling the table's lambda on the envelope returns or raises.
   */
  function AnnotationBinding(a: Annotation, ev: InternalEvent): (r: Option<Result<Value, Error>>)
    ensures r.None? <==> !(a.BotType? || a.MessageType? || a == Named("Sender") || a == Named("Type"))
    ensures a.BotType? ==> r == Some(Ok(Bot))
    ensures a.MessageType? ==>
      (r == Some(Ok(Payload(ev.body))) <==> CurrentName(ev.body) == Text(ClassName(a.cls)))
    ensures a.MessageType? && r != Some(Ok(Payload(ev.body))) ==> r == Some(Err(UnboundArgument))
    ensures a == Named("Sender") ==> r == Some(Err(SenderUndefined))
    ensures a == Named("Type") ==> r == Some(Ok(Payload(CurrentName(ev.body)))) && IsName(r.value.value.v)
  {
    match a
    case BotType => Some(Ok(Bot))
    case MessageType(c) =>
      if CurrentName(ev.body) == Text(ClassName(c)) then Some(Ok(Payload(ev.body))) else Some(Err(UnboundArgument))
    case Named(s) =>
      if s == "Sender" then Some(Err(SenderUndefined))
      else if s == "Type" then Some(Ok(Payload(CurrentName(ev.body))))
      else None
    case _ => None
  }

  /**
   * A Message parameter binds exactly for an envelope whose body is a Message
   * instance (or another value canonicalising to "Message").
   */
  lemma MessageParameterBinds(ev: InternalEvent, rec: MessageRecord)
    ensures AnnotationBinding(MessageType(MessageCls), InternalEvent(ev.name, Instance(MessageCls, rec)))
            == Some(Ok(Payload(Instance(MessageCls, rec))))
    ensures AnnotationBinding(MessageType(MessageCls), InternalEvent(ev.name, Instance(MessageRecallCls, rec)))
            == Some(Err(UnboundArgument))
  {
  }
}
