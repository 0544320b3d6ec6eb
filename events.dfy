/**
 * The values that flow through the bot: message records, the event keys handlers are
 * registered under, the envelope placed on the queue, and the name canonicalisation
 * rule (getEventCurrentName) applied to keys, envelope bodies and message classes.
 */
module Events {

  /** The two pydantic message models the canonicalisation rule recognises. */
  datatype MessageClass = MessageCls | MessageRecallCls

  /** Members of the MessageItemType enum. */
  datatype MessageItemType = BotMessageItem | MessageItem | MessageRecallItem

  /**
   * An opaque message record: only the fields the core reads.
   */
  datatype MessageRecord = MessageRecord(msgType: int, senderUid: int, receiverType: int, receiverId: int, seqno: int)

  /**
   * Any value that can be an event key, an envelope name or an envelope body:
   * an instance of a message model, a message model class itself, an enum member,
   * a string, or any other value (identified by an integer).
   */
  datatype EventValue =
    | Instance(cls: MessageClass, record: MessageRecord)
    | ClassRef(cls: MessageClass)
    | Member(item: MessageItemType)
    | Text(s: string)
    | OtherValue(id: int)

  /** The envelope (name, body) that ingestion puts on the queue. */
  datatype InternalEvent = InternalEvent(name: EventValue, body: EventValue)

  /** `__name__` of the two message model classes. */
  function ClassName(c: MessageClass): string
  {
    match c
    case MessageCls => "Message"
    case MessageRecallCls => "MessageRecall"
  }

  /** `.name` of an enum member. */
  function MemberName(m: MessageItemType): string
  {
    match m
    case BotMessageItem => "BotMessage"
    case MessageItem => "Message"
    case MessageRecallItem => "MessageRecall"
  }

  /** A value getEventCurrentName returns unchanged. */
  predicate IsName(v: EventValue)
  {
    v.Text? || v.OtherValue?
  }

  /**
   * Whether a value can be a dict key. Message and MessageRecall are pydantic models
   * that define `__eq__` and no `__hash__`, so their instances cannot; every other
   * value is taken to be hashable.
   */
  predicate Hashable(v: EventValue)
  {
    !v.Instance?
  }

  /**
   * getEventCurrentName: a message instance gives its class name, a message class its
   * `__name__`, an enum member its `.name`, and every other value is returned as is.
   */
  function CurrentName(v: EventValue): (r: EventValue)
    ensures IsName(r)
    ensures IsName(v) ==> r == v
    ensures !IsName(v) ==> r.Text?
  {
    match v
    case Instance(c, _) => Text(ClassName(c))
    case ClassRef(c) => Text(ClassName(c))
    case Member(m) => Text(MemberName(m))
    case _ => v
  }

  /** Applying the rule twice gives the same name as applying it once. */
  lemma CurrentNameIdempotent(v: EventValue)
    ensures CurrentName(CurrentName(v)) == CurrentName(v)
  {
  }

  /**
   * Exactly which values canonicalise to a given string: the string itself, an
   * instance or the class of the model with that name, or the enum member with that name.
   */
  lemma CurrentNameIsText(v: EventValue, s: string)
    ensures CurrentName(v) == Text(s) <==>
      || v == Text(s)
      || ((v.Instance? || v.ClassRef?) && ClassName(v.cls) == s)
      || (v.Member? && MemberName(v.item) == s)
  {
  }

  /** Every message model has a matching enum member, so the two canonicalise alike. */
  lemma ClassAndMemberAgree(c: MessageClass, rec: MessageRecord)
    ensures CurrentName(ClassRef(c)) == CurrentName(Instance(c, rec))
    ensures CurrentName(ClassRef(c)) == CurrentName(Member(if c == MessageCls then MessageItem else MessageRecallItem))
  {
  }
}
