/**
 * The bookkeeping of http_event (application.py:47-132) with the HTTP transport taken
 * out. One poll yields the sessions with new messages, each paired with what its
 * update_ack and fetch_session_msgs requests answered. For each session the begin seqno
 * is the stored ack of the talker (or the session's max_seqno for a talker not seen
 * before) and the stored ack becomes max_seqno. Every fetched message is typed by its
 * msg_type, its group and sender details are fetched if not cached yet, and it is
 * appended to message_list and put on the queue. An unknown msg_type raises KeyError,
 * which ends http_event.
 */
module Ingestion {
  import opened Wrappers
  import opened Events

  /** One entry of session_list: the talker and the newest seqno of the conversation. */
  datatype Session = Session(talker: int, maxSeqno: int)

  /**
   * What the two requests for a session gave: an undecodable update_ack reply, an
   * undecodable fetch reply, or the fetched messages (none when the reply is empty or
   * its message list is null).
   */
  datatype Reply = AckUndecodable | FetchUndecodable | Fetched(messages: seq<MessageRecord>)

  datatype Polled = Polled(session: Session, reply: Reply)

  /** What getUserDetail / getGroupDetail return, as an opaque handle. */
  type Detail = int

  /** The network lookups getUserDetail and getGroupDetail. */
  type Lookup = int -> Detail

  /**
   * The state http_event updates: max_ack_list, the (talker, ack_seqno) pairs sent to
   * update_ack (the same pair then goes to fetch_session_msgs, unless the update_ack reply
   * cannot be decoded), message_list, user_list, group_list and the queue.
   */
  datatype Books = Books(acks: map<int, int>, sent: seq<(int, int)>, messages: seq<EventValue>,
                         users: map<int, Detail>, groups: map<int, Detail>, queue: seq<InternalEvent>)

  /** The result of one poll: the state reached and, if it ended in KeyError, the msg_type. */
  datatype TickResult = TickResult(books: Books, failure: Option<int>)

  /** max_ack_list after `max_ack_list[talker] = max_seqno` for each session in turn. */
  function AcksAfter(acks: map<int, int>, sessions: seq<Session>): map<int, int>
    decreases |sessions|
  {
    if |sessions| == 0 then acks
    else AcksAfter(acks, sessions[..|sessions| - 1])[sessions[|sessions| - 1].talker := sessions[|sessions| - 1].maxSeqno]
  }

  /** The map seeded from get_sessions (application.py:56-60). */
  function SeedAcks(sessions: seq<Session>): map<int, int>
  {
    AcksAfter(map[], sessions)
  }

  /** A talker that none of the sessions is about keeps its entry (or its absence). */
  lemma {:induction false} AcksAfterUnseen(acks: map<int, int>, sessions: seq<Session>, t: int)
    requires forall i :: 0 <= i < |sessions| ==> sessions[i].talker != t
    ensures t in AcksAfter(acks, sessions) <==> t in acks
    ensures t in acks ==> AcksAfter(acks, sessions)[t] == acks[t]
    decreases |sessions|
  {
    if |sessions| > 0 {
      AcksAfterUnseen(acks, sessions[..|sessions| - 1], t);
    }
  }

  /** A talker's entry is the max_seqno of its last session: later duplicates overwrite. */
  lemma {:induction false} AcksAfterLast(acks: map<int, int>, sessions: seq<Session>, i: nat)
    requires i < |sessions|
    requires forall j :: i < j < |sessions| ==> sessions[j].talker != sessions[i].talker
    ensures sessions[i].talker in AcksAfter(acks, sessions)
    ensures AcksAfter(acks, sessions)[sessions[i].talker] == sessions[i].maxSeqno
    decreases |sessions|
  {
    if i < |sessions| - 1 {
      AcksAfterLast(acks, sessions[..|sessions| - 1], i);
    }
  }

  /** The ack_seqno sent for a session: the stored ack, or max_seqno for a new talker. */
  function BeginSeqno(acks: map<int, int>, s: Session): int
  {
    if s.talker in acks then acks[s.talker] else s.maxSeqno
  }

  /** Which message model a msg_type selects: 1 and 2 are Message, 5 is MessageRecall. */
  function ModelFor(msgType: int): (r: Option<MessageClass>)
    ensures r.Some? <==> msgType == 1 || msgType == 2 || msgType == 5
    ensures r == Some(MessageRecallCls) <==> msgType == 5
  {
    if msgType == 1 || msgType == 2 then Some(MessageCls)
    else if msgType == 5 then Some(MessageRecallCls)
    else None
  }

  /** The envelope put on the queue for a message of class `cls`. */
  function EnvelopeFor(cls: MessageClass, m: MessageRecord): InternalEvent
  {
    InternalEvent(CurrentName(ClassRef(cls)), Instance(cls, m))
  }

  /**
   * Recording one typed message (application.py:123-131): the group's details if it is
   * a group message from an unknown group, the sender's details if unknown, then
   * message_list and the queue.
   */
  function Record(b: Books, cls: MessageClass, m: MessageRecord, userDetail: Lookup, groupDetail: Lookup): Books
  {
    var groups := if m.receiverType == 2 && m.receiverId !in b.groups then b.groups[m.receiverId := groupDetail(m.receiverId)] else b.groups;
    var users := if m.senderUid !in b.users then b.users[m.senderUid := userDetail(m.senderUid)] else b.users;
    b.(messages := b.messages + [Instance(cls, m)], users := users, groups := groups,
       queue := b.queue + [EnvelopeFor(cls, m)])
  }

  /** The message loop of one fetch reply, from message `j` on. */
  function IngestFrom(b: Books, ms: seq<MessageRecord>, j: nat, userDetail: Lookup, groupDetail: Lookup): TickResult
    requires j <= |ms|
    decreases |ms| - j
  {
    if j == |ms| then TickResult(b, None)
    else match ModelFor(ms[j].msgType)
      case None => TickResult(b, Some(ms[j].msgType))
      case Some(cls) => IngestFrom(Record(b, cls, ms[j], userDetail, groupDetail), ms, j + 1, userDetail, groupDetail)
  }

  /** The ack step of one session (application.py:79-82), before any reply is looked at. */
  function AckStep(b: Books, s: Session): Books
  {
    b.(acks := b.acks[s.talker := s.maxSeqno], sent := b.sent + [(s.talker, BeginSeqno(b.acks, s))])
  }

  /** The session loop of one poll, from session `i` on; an undecodable reply skips the session. */
  function TickFrom(b: Books, polled: seq<Polled>, i: nat, userDetail: Lookup, groupDetail: Lookup): TickResult
    requires i <= |polled|
    decreases |polled| - i
  {
    if i == |polled| then TickResult(b, None)
    else
      var b1 := AckStep(b, polled[i].session);
      match polled[i].reply
      case Fetched(ms) =>
        var r := IngestFrom(b1, ms, 0, userDetail, groupDetail);
        if r.failure.Some? then r else TickFrom(r.books, polled, i + 1, userDetail, groupDetail)
      case _ => TickFrom(b1, polled, i + 1, userDetail, groupDetail)
  }

  function Tick(b: Books, polled: seq<Polled>, userDetail: Lookup, groupDetail: Lookup): TickResult
  {
    TickFrom(b, polled, 0, userDetail, groupDetail)
  }

  /**
   * The queue holds the envelopes of the newest message_list entries, not yet taken by
   * the event runner, in order and under their canonical names.
   */
  predicate QueueMirrors(b: Books)
  {
    && |b.queue| <= |b.messages|
    && forall i :: 0 <= i < |b.queue| ==>
         var v := b.messages[|b.messages| - |b.queue| + i];
         b.queue[i] == InternalEvent(CurrentName(v), v)
  }

  /** Every recorded message has the class its msg_type selects and its details cached. */
  predicate MessagesKnown(b: Books)
  {
    forall i :: 0 <= i < |b.messages| ==>
      && b.messages[i].Instance?
      && var m := b.messages[i].record;
      && ModelFor(m.msgType) == Some(b.messages[i].cls)
      && m.senderUid in b.users
      && (m.receiverType == 2 ==> m.receiverId in b.groups)
  }

  predicate Consistent(b: Books)
  {
    QueueMirrors(b) && MessagesKnown(b)
  }

  /**
   * `b2` continues `b1`: message_list and the queue only grow at the end, and every cached
   * user and group detail is kept as it was (insert-if-absent).
   */
  predicate Continues(b1: Books, b2: Books)
  {
    && |b1.messages| <= |b2.messages| && b2.messages[..|b1.messages|] == b1.messages
    && |b1.queue| <= |b2.queue| && b2.queue[..|b1.queue|] == b1.queue
    && (forall u :: u in b1.users ==> u in b2.users && b2.users[u] == b1.users[u])
    && (forall g :: g in b1.groups ==> g in b2.groups && b2.groups[g] == b1.groups[g])
  }

  lemma ContinuesTrans(b1: Books, b2: Books, b3: Books)
    requires Continues(b1, b2) && Continues(b2, b3)
    ensures Continues(b1, b3)
  {
    assert b3.messages[..|b1.messages|] == b3.messages[..|b2.messages|][..|b1.messages|];
    assert b3.queue[..|b1.queue|] == b3.queue[..|b2.queue|][..|b1.queue|];
  }

  /** Recording a typed message keeps the books consistent and only adds to them. */
  lemma RecordKeeps(b: Books, cls: MessageClass, m: MessageRecord, userDetail: Lookup, groupDetail: Lookup)
    requires ModelFor(m.msgType) == Some(cls) && Consistent(b)
    ensures var b' := Record(b, cls, m, userDetail, groupDetail);
      Consistent(b') && Continues(b, b') && b'.acks == b.acks && b'.sent == b.sent
  {
    var b' := Record(b, cls, m, userDetail, groupDetail);
    assert b'.messages[..|b.messages|] == b.messages;
    assert b'.queue[..|b.queue|] == b.queue;
    RecordMirrors(b, cls, m, userDetail, groupDetail);
    RecordKnown(b, cls, m, userDetail, groupDetail);
  }

  lemma RecordMirrors(b: Books, cls: MessageClass, m: MessageRecord, userDetail: Lookup, groupDetail: Lookup)
    requires QueueMirrors(b)
    ensures QueueMirrors(Record(b, cls, m, userDetail, groupDetail))
  {
    var b' := Record(b, cls, m, userDetail, groupDetail);
    var d := |b.messages| - |b.queue|;
    forall i | 0 <= i < |b'.queue| ensures
      b'.queue[i] == InternalEvent(CurrentName(b'.messages[d + i]), b'.messages[d + i])
    {
      if i < |b.queue| { assert b'.messages[d + i] == b.messages[d + i] && b'.queue[i] == b.queue[i]; }
    }
  }

  lemma RecordKnown(b: Books, cls: MessageClass, m: MessageRecord, userDetail: Lookup, groupDetail: Lookup)
    requires ModelFor(m.msgType) == Some(cls) && MessagesKnown(b)
    ensures MessagesKnown(Record(b, cls, m, userDetail, groupDetail))
  {
    var b' := Record(b, cls, m, userDetail, groupDetail);
    forall i | 0 <= i < |b'.messages| ensures
      && b'.messages[i].Instance?
      && var r := b'.messages[i].record;
      && ModelFor(r.msgType) == Some(b'.messages[i].cls)
      && r.senderUid in b'.users
      && (r.receiverType == 2 ==> r.receiverId in b'.groups)
    {
      if i < |b.messages| { assert b'.messages[i] == b.messages[i]; }
    }
  }

  lemma {:induction false} IngestFromKeeps(b: Books, ms: seq<MessageRecord>, j: nat, userDetail: Lookup, groupDetail: Lookup)
    requires j <= |ms| && Consistent(b)
    ensures var r := IngestFrom(b, ms, j, userDetail, groupDetail);
      Consistent(r.books) && Continues(b, r.books) && r.books.acks == b.acks && r.books.sent == b.sent
    decreases |ms| - j
  {
    if j < |ms| && ModelFor(ms[j].msgType).Some? {
      var b1 := Record(b, ModelFor(ms[j].msgType).value, ms[j], userDetail, groupDetail);
      RecordKeeps(b, ModelFor(ms[j].msgType).value, ms[j], userDetail, groupDetail);
      IngestFromKeeps(b1, ms, j + 1, userDetail, groupDetail);
      ContinuesTrans(b, b1, IngestFrom(b1, ms, j + 1, userDetail, groupDetail).books);
    } else {
      assert b.messages[..|b.messages|] == b.messages && b.queue[..|b.queue|] == b.queue;
    }
  }

  /**
   * Whatever a poll brings, and wherever a KeyError stops it, the books stay consistent:
   * the queue holds the newest message_list entries under their canonical names, every
   * recorded message's sender (and group) details are cached, and earlier entries and
   * cached details never change.
   */
  lemma {:induction false} TickFromKeeps(b: Books, polled: seq<Polled>, i: nat, userDetail: Lookup, groupDetail: Lookup)
    requires i <= |polled| && Consistent(b)
    ensures var r := TickFrom(b, polled, i, userDetail, groupDetail);
      Consistent(r.books) && Continues(b, r.books)
    decreases |polled| - i
  {
    if i == |polled| {
      ContinuesRefl(b);
    } else {
      var b1 := AckStep(b, polled[i].session);
      AckStepKeeps(b, polled[i].session);
      var next := b1;
      if polled[i].reply.Fetched? {
        var ms := polled[i].reply.messages;
        IngestFromKeeps(b1, ms, 0, userDetail, groupDetail);
        var r := IngestFrom(b1, ms, 0, userDetail, groupDetail);
        ContinuesTrans(b, b1, r.books);
        if r.failure.Some? {
          assert TickFrom(b, polled, i, userDetail, groupDetail) == r;
          return;
        }
        next := r.books;
      }
      assert TickFrom(b, polled, i, userDetail, groupDetail) == TickFrom(next, polled, i + 1, userDetail, groupDetail);
      TickFromKeeps(next, polled, i + 1, userDetail, groupDetail);
      ContinuesTrans(b, next, TickFrom(next, polled, i + 1, userDetail, groupDetail).books);
    }
  }

  lemma ContinuesRefl(b: Books)
    ensures Continues(b, b)
  {
    assert b.messages[..|b.messages|] == b.messages && b.queue[..|b.queue|] == b.queue;
  }

  /** The ack step touches neither message_list, the caches nor the queue. */
  lemma AckStepKeeps(b: Books, s: Session)
    requires Consistent(b)
    ensures Consistent(AckStep(b, s)) && Continues(b, AckStep(b, s))
  {
    ContinuesRefl(b);
  }

  /** The messages the fetch replies of sessions `i`, `i+1`, ... bring, in arrival order. */
  function ArrivalsFrom(polled: seq<Polled>, i: nat): seq<MessageRecord>
    requires i <= |polled|
    decreases |polled| - i
  {
    if i == |polled| then []
    else (if polled[i].reply.Fetched? then polled[i].reply.messages else []) + ArrivalsFrom(polled, i + 1)
  }

  /** The message_list entry one message becomes, if its msg_type selects a model. */
  function TypedOne(m: MessageRecord): seq<EventValue>
  {
    match ModelFor(m.msgType)
    case None => []
    case Some(c) => [Instance(c, m)]
  }

  /** The message_list entries that typed messages become. */
  function Typed(ms: seq<MessageRecord>): (r: seq<EventValue>)
    ensures |r| <= |ms|
  {
    if |ms| == 0 then [] else TypedOne(ms[0]) + Typed(ms[1..])
  }

  lemma {:induction false} TypedAppend(a: seq<MessageRecord>, b: seq<MessageRecord>)
    ensures Typed(a + b) == Typed(a) + Typed(b)
    decreases |a|
  {
    if |a| == 0 {
      assert a + b == b;
    } else {
      var ab := a + b;
      assert ab[0] == a[0] && ab[1..] == a[1..] + b;
      TypedAppend(a[1..], b);
      assert Typed(ab) == TypedOne(a[0]) + Typed(a[1..] + b);
      assert Typed(a) == TypedOne(a[0]) + Typed(a[1..]);
    }
  }

  /** The envelopes the event runner receives for message_list entries `vs`: each under its canonical name. */
  function Envelopes(vs: seq<EventValue>): (r: seq<InternalEvent>)
    ensures |r| == |vs|
    ensures forall i :: 0 <= i < |vs| ==> r[i] == InternalEvent(CurrentName(vs[i]), vs[i])
  {
    if |vs| == 0 then [] else [InternalEvent(CurrentName(vs[0]), vs[0])] + Envelopes(vs[1..])
  }

  lemma EnvelopesAppend(a: seq<EventValue>, b: seq<EventValue>)
    ensures Envelopes(a + b) == Envelopes(a) + Envelopes(b)
  {
    var l, r := Envelopes(a + b), Envelopes(a) + Envelopes(b);
    forall i | 0 <= i < |l| ensures l[i] == r[i] {
      if i < |a| { assert (a + b)[i] == a[i]; } else { assert (a + b)[i] == b[i - |a|]; }
    }
  }

  /** The message loop leaves the ack map and the sent pairs alone. */
  lemma {:induction false} IngestFromLedger(b: Books, ms: seq<MessageRecord>, j: nat, userDetail: Lookup, groupDetail: Lookup)
    requires j <= |ms|
    ensures var r := IngestFrom(b, ms, j, userDetail, groupDetail);
      r.books.acks == b.acks && r.books.sent == b.sent
    decreases |ms| - j
  {
    if j < |ms| && ModelFor(ms[j].msgType).Some? {
      IngestFromLedger(Record(b, ModelFor(ms[j].msgType).value, ms[j], userDetail, groupDetail), ms, j + 1, userDetail, groupDetail);
    }
  }

  /** The message loop stops with KeyError exactly at a message of unknown msg_type, and reports it. */
  lemma {:induction false} IngestFromFailure(b: Books, ms: seq<MessageRecord>, j: nat, userDetail: Lookup, groupDetail: Lookup)
    requires j <= |ms|
    ensures var r := IngestFrom(b, ms, j, userDetail, groupDetail);
      && (r.failure.Some? <==> exists k :: j <= k < |ms| && ModelFor(ms[k].msgType).None?)
      && (r.failure.Some? ==> ModelFor(r.failure.value).None?)
    decreases |ms| - j
  {
    if j < |ms| && ModelFor(ms[j].msgType).Some? {
      var b1 := Record(b, ModelFor(ms[j].msgType).value, ms[j], userDetail, groupDetail);
      IngestFromFailure(b1, ms, j + 1, userDetail, groupDetail);
      if exists k :: j <= k < |ms| && ModelFor(ms[k].msgType).None? {
        var k :| j <= k < |ms| && ModelFor(ms[k].msgType).None?;
        assert k != j;
      }
    }
  }

  /** A message loop that ends without KeyError appends every message of the reply, typed, in order. */
  lemma {:induction false} IngestFromMessages(b: Books, ms: seq<MessageRecord>, j: nat, userDetail: Lookup, groupDetail: Lookup)
    requires j <= |ms|
    ensures var r := IngestFrom(b, ms, j, userDetail, groupDetail);
      r.failure.None? ==> r.books.messages == b.messages + Typed(ms[j..])
    decreases |ms| - j
  {
    if j == |ms| {
      assert ms[j..] == [];
    } else if ModelFor(ms[j].msgType).Some? {
      var cls := ModelFor(ms[j].msgType).value;
      TypedStep(ms, j, cls);
      var b1 := Record(b, cls, ms[j], userDetail, groupDetail);
      IngestFromMessages(b1, ms, j + 1, userDetail, groupDetail);
    }
  }

  /** ... and hands the same entries, in the same order and under their canonical names, to the queue. */
  lemma {:induction false} IngestFromQueued(b: Books, ms: seq<MessageRecord>, j: nat, userDetail: Lookup, groupDetail: Lookup)
    requires j <= |ms|
    ensures var r := IngestFrom(b, ms, j, userDetail, groupDetail);
      r.failure.None? ==> r.books.queue == b.queue + Envelopes(Typed(ms[j..]))
    decreases |ms| - j
  {
    if j == |ms| {
      assert ms[j..] == [];
    } else if ModelFor(ms[j].msgType).Some? {
      var cls := ModelFor(ms[j].msgType).value;
      var b1 := Record(b, cls, ms[j], userDetail, groupDetail);
      assert IngestFrom(b, ms, j, userDetail, groupDetail) == IngestFrom(b1, ms, j + 1, userDetail, groupDetail);
      IngestFromQueued(b1, ms, j + 1, userDetail, groupDetail);
      TypedStep(ms, j, cls);
      QueueCons(b.queue, Instance(cls, ms[j]), Typed(ms[j + 1..]));
    }
  }

  lemma TypedStep(ms: seq<MessageRecord>, j: nat, cls: MessageClass)
    requires j < |ms| && ModelFor(ms[j].msgType) == Some(cls)
    ensures Typed(ms[j..]) == [Instance(cls, ms[j])] + Typed(ms[j + 1..])
  {
    assert ms[j..][1..] == ms[j + 1..];
  }

  lemma QueueCons(q: seq<InternalEvent>, v: EventValue, rest: seq<EventValue>)
    ensures q + [InternalEvent(CurrentName(v), v)] + Envelopes(rest) == q + Envelopes([v] + rest)
  {
    assert Envelopes([v]) == [InternalEvent(CurrentName(v), v)];
    EnvelopesAppend([v], rest);
  }

  /**
   * A poll stops with KeyError exactly when one of the messages it fetches has a
   * msg_type other than 1, 2 and 5, and reports that msg_type.
   */
  lemma {:induction false} TickFromFailure(b: Books, polled: seq<Polled>, i: nat, userDetail: Lookup, groupDetail: Lookup)
    requires i <= |polled|
    ensures var r := TickFrom(b, polled, i, userDetail, groupDetail);
      && (r.failure.Some? <==> exists m :: m in ArrivalsFrom(polled, i) && ModelFor(m.msgType).None?)
      && (r.failure.Some? ==> ModelFor(r.failure.value).None?)
    decreases |polled| - i
  {
    if i < |polled| {
      var b1 := AckStep(b, polled[i].session);
      var here := if polled[i].reply.Fetched? then polled[i].reply.messages else [];
      assert ArrivalsFrom(polled, i) == here + ArrivalsFrom(polled, i + 1);
      match polled[i].reply
      case Fetched(ms) =>
        IngestFromFailure(b1, ms, 0, userDetail, groupDetail);
        var r := IngestFrom(b1, ms, 0, userDetail, groupDetail);
        if r.failure.None? {
          TickFromFailure(r.books, polled, i + 1, userDetail, groupDetail);
        } else {
          var k :| 0 <= k < |ms| && ModelFor(ms[k].msgType).None?;
          assert ms[k] in ArrivalsFrom(polled, i);
        }
      case _ =>
        TickFromFailure(b1, polled, i + 1, userDetail, groupDetail);
    }
  }

  /**
   * A poll that ends without KeyError appends every fetched message to message_list,
   * typed, in arrival order: sessions in list order, each session's messages in reply
   * order. Undecodable replies contribute nothing.
   */
  lemma {:induction false} TickFromMessages(b: Books, polled: seq<Polled>, i: nat, userDetail: Lookup, groupDetail: Lookup)
    requires i <= |polled|
    ensures var r := TickFrom(b, polled, i, userDetail, groupDetail);
      r.failure.None? ==> r.books.messages == b.messages + Typed(ArrivalsFrom(polled, i))
    decreases |polled| - i
  {
    if i < |polled| {
      var b1 := AckStep(b, polled[i].session);
      match polled[i].reply
      case Fetched(ms) =>
        IngestFromMessages(b1, ms, 0, userDetail, groupDetail);
        var r := IngestFrom(b1, ms, 0, userDetail, groupDetail);
        if r.failure.None? {
          assert ms[0..] == ms;
          TickFromMessages(r.books, polled, i + 1, userDetail, groupDetail);
          TypedAppend(ms, ArrivalsFrom(polled, i + 1));
        }
      case _ =>
        TickFromMessages(b1, polled, i + 1, userDetail, groupDetail);
        assert [] + ArrivalsFrom(polled, i + 1) == ArrivalsFrom(polled, i + 1);
        assert ArrivalsFrom(polled, i) == ArrivalsFrom(polled, i + 1);
    }
  }

  /** The queue of such a poll receives the same entries as message_list, in the same order. */
  lemma {:induction false} TickFromQueued(b: Books, polled: seq<Polled>, i: nat, userDetail: Lookup, groupDetail: Lookup)
    requires i <= |polled|
    ensures var r := TickFrom(b, polled, i, userDetail, groupDetail);
      r.failure.None? ==> r.books.queue == b.queue + Envelopes(Typed(ArrivalsFrom(polled, i)))
    decreases |polled| - i
  {
    if i < |polled| {
      var b1 := AckStep(b, polled[i].session);
      match polled[i].reply
      case Fetched(ms) =>
        IngestFromQueued(b1, ms, 0, userDetail, groupDetail);
        var r := IngestFrom(b1, ms, 0, userDetail, groupDetail);
        if r.failure.None? {
          assert ms[0..] == ms;
          TickFromQueued(r.books, polled, i + 1, userDetail, groupDetail);
          TypedAppend(ms, ArrivalsFrom(polled, i + 1));
          EnvelopesAppend(Typed(ms), Typed(ArrivalsFrom(polled, i + 1)));
        }
      case _ =>
        TickFromQueued(b1, polled, i + 1, userDetail, groupDetail);
        assert [] + ArrivalsFrom(polled, i + 1) == ArrivalsFrom(polled, i + 1);
        assert ArrivalsFrom(polled, i) == ArrivalsFrom(polled, i + 1);
    }
  }

  function SessionsOf(polled: seq<Polled>): (r: seq<Session>)
    ensures |r| == |polled|
    ensures forall i :: 0 <= i < |polled| ==> r[i] == polled[i].session
  {
    if |polled| == 0 then [] else SessionsOf(polled[..|polled| - 1]) + [polled[|polled| - 1].session]
  }

  /** Updating for one session and then for the rest is updating for all of them. */
  lemma {:induction false} AcksAfterCons(acks: map<int, int>, s: Session, rest: seq<Session>)
    ensures AcksAfter(acks, [s] + rest) == AcksAfter(acks[s.talker := s.maxSeqno], rest)
    decreases |rest|
  {
    if |rest| == 0 {
      assert ([s] + rest)[..0] == [];
    } else {
      assert ([s] + rest)[..|[s] + rest| - 1] == [s] + rest[..|rest| - 1];
      AcksAfterCons(acks, s, rest[..|rest| - 1]);
    }
  }

  /** Whatever the replies, a session's ack step is taken: the stored ack moves to max_seqno. */
  lemma {:induction false} TickFromAcks(b: Books, polled: seq<Polled>, i: nat, userDetail: Lookup, groupDetail: Lookup)
    requires i <= |polled|
    ensures var r := TickFrom(b, polled, i, userDetail, groupDetail);
      r.failure.None? ==> r.books.acks == AcksAfter(b.acks, SessionsOf(polled)[i..])
    decreases |polled| - i
  {
    var S := SessionsOf(polled);
    if i == |polled| {
      assert S[i..] == [];
    } else {
      var b1 := AckStep(b, polled[i].session);
      assert S[i..] == [S[i]] + S[i + 1..];
      AcksAfterCons(b.acks, S[i], S[i + 1..]);
      match polled[i].reply
      case Fetched(ms) =>
        IngestFromLedger(b1, ms, 0, userDetail, groupDetail);
        var r := IngestFrom(b1, ms, 0, userDetail, groupDetail);
        if r.failure.None? {
          TickFromAcks(r.books, polled, i + 1, userDetail, groupDetail);
        }
      case _ =>
        TickFromAcks(b1, polled, i + 1, userDetail, groupDetail);
    }
  }

  /** What the sent pairs of a poll from session `i` hold, given the acks it started from. */
  predicate SentAsStated(S: seq<Session>, i: nat, acks: map<int, int>, before: seq<(int, int)>, sent: seq<(int, int)>)
    requires i <= |S|
  {
    && |sent| == |before| + |S| - i && sent[..|before|] == before
    && forall k :: i <= k < |S| ==> sent[|before| + k - i] == (S[k].talker, BeginSeqno(AcksAfter(acks, S[i..k]), S[k]))
  }

  /**
   * A poll that ends without KeyError sends one (talker, ack_seqno) pair per session, in
   * order, each ack_seqno being the talker's ack as stored after the sessions before it.
   */
  lemma {:induction false} TickFromSent(b: Books, polled: seq<Polled>, i: nat, userDetail: Lookup, groupDetail: Lookup)
    requires i <= |polled|
    ensures var r := TickFrom(b, polled, i, userDetail, groupDetail);
      r.failure.None? ==> SentAsStated(SessionsOf(polled), i, b.acks, b.sent, r.books.sent)
    decreases |polled| - i
  {
    var S := SessionsOf(polled);
    if i == |polled| {
      assert b.sent[..|b.sent|] == b.sent;
    } else {
      var b1 := AckStep(b, polled[i].session);
      var r := TickFrom(b, polled, i, userDetail, groupDetail);
      var next := b1;
      if polled[i].reply.Fetched? {
        IngestFromLedger(b1, polled[i].reply.messages, 0, userDetail, groupDetail);
        next := IngestFrom(b1, polled[i].reply.messages, 0, userDetail, groupDetail).books;
      }
      if r.failure.None? {
        assert r == TickFrom(next, polled, i + 1, userDetail, groupDetail);
        assert next.acks == b1.acks && next.sent == b1.sent;
        TickFromSent(next, polled, i + 1, userDetail, groupDetail);
        SentCons(S, i, b.acks, b.sent, r.books.sent);
      }
    }
  }

  lemma SentCons(S: seq<Session>, i: nat, acks: map<int, int>, before: seq<(int, int)>, sent: seq<(int, int)>)
    requires i < |S|
    requires SentAsStated(S, i + 1, acks[S[i].talker := S[i].maxSeqno], before + [(S[i].talker, BeginSeqno(acks, S[i]))], sent)
    ensures SentAsStated(S, i, acks, before, sent)
  {
    var acks' := acks[S[i].talker := S[i].maxSeqno];
    var before' := before + [(S[i].talker, BeginSeqno(acks, S[i]))];
    assert sent[..|before|] == sent[..|before'|][..|before|];
    assert sent[|before|] == before'[|before|];
    assert S[i..i] == [];
    forall k | i <= k < |S|
      ensures sent[|before| + k - i] == (S[k].talker, BeginSeqno(AcksAfter(acks, S[i..k]), S[k]))
    {
      if i < k {
        assert sent[|before'| + k - (i + 1)] == (S[k].talker, BeginSeqno(AcksAfter(acks', S[i + 1..k]), S[k]));
        SentAcksStep(S, i, k, acks);
      }
    }
  }

  lemma SentAcksStep(S: seq<Session>, i: nat, k: nat, acks: map<int, int>)
    requires i < k <= |S|
    ensures AcksAfter(acks, S[i..k]) == AcksAfter(acks[S[i].talker := S[i].maxSeqno], S[i + 1..k])
  {
    assert S[i..k] == [S[i]] + S[i + 1..k];
    AcksAfterCons(acks, S[i], S[i + 1..k]);
  }

  /** A talker seen earlier in the same poll begins at the max_seqno of its latest earlier session. */
  lemma BeginAfterEarlierSession(acks: map<int, int>, S: seq<Session>, j: nat, k: nat)
    requires j < k < |S| && S[j].talker == S[k].talker
    requires forall q :: j < q < k ==> S[q].talker != S[k].talker
    ensures BeginSeqno(AcksAfter(acks, S[..k]), S[k]) == S[j].maxSeqno
  {
    AcksAfterLast(acks, S[..k], j);
  }

  /** A talker not seen earlier in the poll begins at its stored ack, or at max_seqno if it has none. */
  lemma BeginAtFirstSession(acks: map<int, int>, S: seq<Session>, k: nat)
    requires k < |S| && forall q :: 0 <= q < k ==> S[q].talker != S[k].talker
    ensures BeginSeqno(AcksAfter(acks, S[..k]), S[k]) == if S[k].talker in acks then acks[S[k].talker] else S[k].maxSeqno
  {
    AcksAfterUnseen(acks, S[..k], S[k].talker);
  }

  /**
   * One poll of http_event (application.py:78-131) from consistent books. It ends with a
   * KeyError exactly when a fetched message has an unknown msg_type, and the books stay
   * consistent either way. Otherwise every fetched message is appended to message_list
   * in arrival order, and the queue receives exactly those entries, in that order, each
   * under its canonical name.
   */
  lemma PollRecordsMessages(b: Books, polled: seq<Polled>, userDetail: Lookup, groupDetail: Lookup)
    requires Consistent(b)
    ensures var r := Tick(b, polled, userDetail, groupDetail);
      && Consistent(r.books) && Continues(b, r.books)
      && (r.failure.Some? <==> exists m :: m in ArrivalsFrom(polled, 0) && ModelFor(m.msgType).None?)
      && (r.failure.Some? ==> ModelFor(r.failure.value).None?)
      && (r.failure.None? ==> r.books.messages == b.messages + Typed(ArrivalsFrom(polled, 0)))
      && (r.failure.None? ==> r.books.queue == b.queue + Envelopes(Typed(ArrivalsFrom(polled, 0))))
  {
    TickFromKeeps(b, polled, 0, userDetail, groupDetail);
    TickFromFailure(b, polled, 0, userDetail, groupDetail);
    TickFromMessages(b, polled, 0, userDetail, groupDetail);
    TickFromQueued(b, polled, 0, userDetail, groupDetail);
  }

  /**
   * What the ack map `after` holds, having started as `before`, and been updated for the
   * sessions `S`: every polled talker's entry is the max_seqno of its last session, and
   * every other talker's entry (or its absence) is unchanged.
   */
  ghost predicate AcksMeaning(before: map<int, int>, S: seq<Session>, after: map<int, int>)
  {
    && (forall k :: 0 <= k < |S| && (forall q :: k < q < |S| ==> S[q].talker != S[k].talker) ==>
          S[k].talker in after && after[S[k].talker] == S[k].maxSeqno)
    && (forall t :: (forall q :: 0 <= q < |S| ==> S[q].talker != t) ==>
          (t in after <==> t in before) && (t in before ==> after[t] == before[t]))
  }

  /** One (talker, ack_seqno) pair per session, in order, each with the ack stored before it. */
  predicate SentMeaning(acks: map<int, int>, S: seq<Session>, before: seq<(int, int)>, sent: seq<(int, int)>)
  {
    && |sent| == |before| + |S| && sent[..|before|] == before
    && forall k :: 0 <= k < |S| ==> sent[|before| + k] == (S[k].talker, BeginSeqno(AcksAfter(acks, S[..k]), S[k]))
  }

  /**
   * The ack map after a poll that ends without KeyError (application.py:79-82): every
   * polled talker's stored ack is the max_seqno of its last session in the poll, whatever
   * its replies were; every other talker's entry is unchanged; and one (talker,
   * ack_seqno) pair is sent per session, in order, with the ack stored before it.
   */
  lemma PollUpdatesAcks(b: Books, polled: seq<Polled>, userDetail: Lookup, groupDetail: Lookup)
    ensures var r := Tick(b, polled, userDetail, groupDetail);
      r.failure.None? ==>
        && AcksMeaning(b.acks, SessionsOf(polled), r.books.acks)
        && SentMeaning(b.acks, SessionsOf(polled), b.sent, r.books.sent)
  {
    var S := SessionsOf(polled);
    var r := Tick(b, polled, userDetail, groupDetail);
    TickFromAcks(b, polled, 0, userDetail, groupDetail);
    TickFromSent(b, polled, 0, userDetail, groupDetail);
    assert S[0..] == S;
    AcksAfterMeaning(b.acks, S);
    if r.failure.None? {
      SentFromStart(S, b.acks, b.sent, r.books.sent);
    }
  }

  lemma AcksAfterMeaning(acks: map<int, int>, S: seq<Session>)
    ensures AcksMeaning(acks, S, AcksAfter(acks, S))
  {
    forall k | 0 <= k < |S| && (forall q :: k < q < |S| ==> S[q].talker != S[k].talker)
      ensures S[k].talker in AcksAfter(acks, S) && AcksAfter(acks, S)[S[k].talker] == S[k].maxSeqno
    {
      AcksAfterLast(acks, S, k);
    }
    forall t | forall q :: 0 <= q < |S| ==> S[q].talker != t
      ensures (t in AcksAfter(acks, S) <==> t in acks) && (t in acks ==> AcksAfter(acks, S)[t] == acks[t])
    {
      AcksAfterUnseen(acks, S, t);
    }
  }

  lemma SentFromStart(S: seq<Session>, acks: map<int, int>, before: seq<(int, int)>, sent: seq<(int, int)>)
    requires SentAsStated(S, 0, acks, before, sent)
    ensures SentMeaning(acks, S, before, sent)
  {
    forall k | 0 <= k < |S| ensures sent[|before| + k] == (S[k].talker, BeginSeqno(AcksAfter(acks, S[..k]), S[k])) {
      assert S[0..k] == S[..k];
    }
  }

  /**
   * The lookups of event_runner's logging branch (application.py:145-156) cannot fail on
   * consistent books: every envelope still queued carries a message whose sender (and, for a
   * group message, whose group) is cached, and an envelope named "Message" carries
   * msg_type 1 or 2, so one of the two branches that bind `content` is taken.
   */
  lemma QueuedEnvelopesLoggable(b: Books)
    requires Consistent(b)
    ensures forall i :: 0 <= i < |b.queue| ==>
      && b.queue[i].body.Instance?
      && b.queue[i].body.record.senderUid in b.users
      && (b.queue[i].body.record.receiverType == 2 ==> b.queue[i].body.record.receiverId in b.groups)
      && (b.queue[i].name == Text("Message") ==> b.queue[i].body.record.msgType in {1, 2})
  {
    var d := |b.messages| - |b.queue|;
    forall i | 0 <= i < |b.queue|
      ensures && b.queue[i].body.Instance?
              && b.queue[i].body.record.senderUid in b.users
              && (b.queue[i].body.record.receiverType == 2 ==> b.queue[i].body.record.receiverId in b.groups)
              && (b.queue[i].name == Text("Message") ==> b.queue[i].body.record.msgType in {1, 2})
    {
      assert b.queue[i].body == b.messages[d + i];
      assert b.messages[d + i].Instance?;
    }
  }
}
