/**
 * The BiliChat object itself (application.py:21-284): the handler table, the lifecycle
 * hook lists, the global dependencies and middlewares, the parsed cookies and the state
 * http_event keeps (max_ack_list, user_list, group_list, message_list and the queue).
 * Its methods are the steps that change that state: registering a handler, seeding the
 * ack map, one poll of http_event, the event runner draining the queue, and the hook
 * sequence of `run`.
 */
module App {
  import opened Wrappers
  import opened Events
  import opened Descriptors
  import opened Registry
  import opened Cookies
  import opened Lifecycle
  import opened Ingestion

  /** The TypeError `receiver` raises for a handler that is not a coroutine function. */
  datatype ReceiverError = NotCoroutine | Unhashable

  /** `x or []` for an optional list argument. */
  function OrEmpty<T>(x: Option<seq<T>>): (r: seq<T>)
    ensures x.Some? ==> r == x.value
    ensures x.None? ==> r == []
  {
    if x.Some? then x.value else []
  }

  class BiliChat {
    var event: EventTable
    var startHooks: seq<FuncId>
    var aroundHooks: seq<FuncId>
    var endHooks: seq<FuncId>
    const globalDependencies: seq<Depend>
    const globalMiddlewares: seq<Middleware>
    const cookies: map<string, string>
    var acks: map<int, int>
    var sent: seq<(int, int)>
    var messageList: seq<EventValue>
    var userList: map<int, Detail>
    var groupList: map<int, Detail>
    var queue: seq<InternalEvent>

    /** The part of the state http_event works on, as one value. */
    function Bookkeeping(): Books
      reads this
    {
      Books(acks, sent, messageList, userList, groupList, queue)
    }

    /** The handler table and the hook lists are as they were. */
    twostate predicate TableAndHooksKept()
      reads this
    {
      event == old(event) && startHooks == old(startHooks) && aroundHooks == old(aroundHooks) && endHooks == old(endHooks)
    }

    /** The handler table is a dictionary, and the books are consistent. */
    predicate Valid()
      reads this
    {
      DistinctKeys(event) && Consistent(Bookkeeping())
    }

    /** `__init__` given the already parsed cookie dictionary. */
    constructor (cookies: map<string, string>, globalDependencies: Option<seq<Depend>>,
                 globalMiddlewares: Option<seq<Middleware>>)
      ensures Valid()
      ensures this.globalDependencies == OrEmpty(globalDependencies)
      ensures this.globalMiddlewares == OrEmpty(globalMiddlewares)
      ensures this.cookies == cookies
      ensures event == [] && startHooks == [] && aroundHooks == [] && endHooks == []
      ensures Bookkeeping() == Books(map[], [], [], map[], map[], [])
    {
      this.globalDependencies := OrEmpty(globalDependencies);
      this.globalMiddlewares := OrEmpty(globalMiddlewares);
      this.cookies := cookies;
      event := [];
      startHooks, aroundHooks, endHooks := [], [], [];
      acks, sent := map[], [];
      messageList, userList, groupList, queue := [], map[], map[], [];
    }

    /**
     * `BiliChat(cookies, ...)`: the cookie header is parsed first, and a piece without
     * "=" makes the construction fail.
     */
    static method Create(header: string, globalDependencies: Option<seq<Depend>>,
                         globalMiddlewares: Option<seq<Middleware>>)
      returns (r: Result<BiliChat, CookieError>)
      ensures r.Err? <==> ParseCookies(header).Err?
      ensures r.Ok? ==> fresh(r.value) && r.value.Valid() && r.value.cookies == ParseCookies(header).value
      ensures r.Ok? ==> r.value.globalDependencies == OrEmpty(globalDependencies)
      ensures r.Ok? ==> r.value.globalMiddlewares == OrEmpty(globalMiddlewares)
      ensures r.Ok? ==> r.value.event == [] && r.value.Bookkeeping() == Books(map[], [], [], map[], map[], [])
    {
      match ParseCookies(header)
      case Err(e) =>
        r := Err(e);
      case Ok(c) =>
        var bot := new BiliChat(c, globalDependencies, globalMiddlewares);
        r := Ok(bot);
    }

    /**
     * `receiver(eventName, dependencies, useMiddlewares)(func)`: a non-coroutine raises
     * TypeError and registers nothing; so does a message instance as the key, which
     * `setdefault` cannot hash (application.py:276); otherwise one descriptor is
     * appended to the key's list, with the caller's dependencies and middlewares before
     * the global ones, no other key changes, and `func` comes back.
     */
    method Receiver(eventName: EventValue, dependencies: Option<seq<Depend>>,
                    useMiddlewares: Option<seq<Middleware>>, func: Func)
      returns (r: Result<Func, ReceiverError>)
      requires Valid()
      modifies this
      ensures Valid()
      ensures !func.isCoroutine ==> r == Err(NotCoroutine) && event == old(event)
      ensures func.isCoroutine && !Hashable(eventName) ==> r == Err(Unhashable) && event == old(event)
      ensures func.isCoroutine && Hashable(eventName) ==> r == Ok(func)
      ensures func.isCoroutine && Hashable(eventName) ==>
        event == Register(old(event), eventName,
                          Descriptor(func, OrEmpty(dependencies), OrEmpty(useMiddlewares),
                                     globalDependencies, globalMiddlewares))
      ensures Bookkeeping() == old(Bookkeeping())
      ensures startHooks == old(startHooks) && aroundHooks == old(aroundHooks) && endHooks == old(endHooks)
    {
      if !func.isCoroutine {
        return Err(NotCoroutine);
      }
      if !Hashable(eventName) {
        return Err(Unhashable);
      }
      event := Register(event, eventName, Descriptor(func, OrEmpty(dependencies), OrEmpty(useMiddlewares),
                                                     globalDependencies, globalMiddlewares));
      r := Ok(func);
    }

    /** The ack map seeded from get_sessions (application.py:56-60). */
    method Connect(sessions: seq<Session>)
      requires Valid()
      modifies this
      ensures Valid()
      ensures acks == SeedAcks(sessions)
      ensures Bookkeeping() == old(Bookkeeping()).(acks := acks)
      ensures TableAndHooksKept()
    {
      acks := map[];
      var i := 0;
      while i < |sessions|
        invariant 0 <= i <= |sessions|
        invariant acks == AcksAfter(map[], sessions[..i])
        invariant Bookkeeping() == old(Bookkeeping()).(acks := acks)
        invariant TableAndHooksKept()
      {
        assert sessions[..i + 1][..i] == sessions[..i];
        acks := acks[sessions[i].talker := sessions[i].maxSeqno];
        i := i + 1;
      }
      assert sessions[..i] == sessions;
    }

    /**
     * The ack step for one session (application.py:78-82): the begin seqno is the stored
     * ack, or max_seqno for a talker not seen before, and the stored ack becomes max_seqno.
     */
    method Acknowledge(s: Session) returns (begin: int)
      requires Valid()
      modifies this
      ensures Valid()
      ensures begin == BeginSeqno(old(acks), s)
      ensures Bookkeeping() == AckStep(old(Bookkeeping()), s)
      ensures TableAndHooksKept()
    {
      begin := if s.talker in acks then acks[s.talker] else s.maxSeqno;
      acks := acks[s.talker := s.maxSeqno];
      sent := sent + [(s.talker, begin)];
    }

    /**
     * The message loop for one fetch reply (application.py:113-131): each message is
     * typed, its group and sender details are fetched if not cached, and it is appended
     * to message_list and queued; an unknown msg_type stops the loop as `failure`.
     */
    method Ingest(ms: seq<MessageRecord>, userDetail: Lookup, groupDetail: Lookup) returns (failure: Option<int>)
      requires Valid()
      modifies this
      ensures Valid()
      ensures Bookkeeping() == IngestFrom(old(Bookkeeping()), ms, 0, userDetail, groupDetail).books
      ensures failure == IngestFrom(old(Bookkeeping()), ms, 0, userDetail, groupDetail).failure
      ensures TableAndHooksKept()
    {
      IngestFromKeeps(old(Bookkeeping()), ms, 0, userDetail, groupDetail);
      var j := 0;
      while j < |ms|
        invariant 0 <= j <= |ms|
        invariant IngestFrom(Bookkeeping(), ms, j, userDetail, groupDetail) == IngestFrom(old(Bookkeeping()), ms, 0, userDetail, groupDetail)
        invariant DistinctKeys(event) && TableAndHooksKept()
      {
        var m := ms[j];
        var model := ModelFor(m.msgType);
        if model.None? {
          return Some(m.msgType);
        }
        ghost var cur := Bookkeeping();
        if m.receiverType == 2 && m.receiverId !in groupList {
          groupList := groupList[m.receiverId := groupDetail(m.receiverId)];
        }
        if m.senderUid !in userList {
          userList := userList[m.senderUid := userDetail(m.senderUid)];
        }
        var message := Instance(model.value, m);
        messageList := messageList + [message];
        queue := queue + [InternalEvent(CurrentName(ClassRef(model.value)), message)];
        assert Bookkeeping() == Record(cur, model.value, m, userDetail, groupDetail);
        j := j + 1;
      }
      failure := None;
    }

    /**
     * One pass of the polling loop of http_event (application.py:62-131) over the
     * sessions `polled` reports: the books become those of Tick, and an unknown msg_type
     * ends the pass with that type as `failure` (the KeyError).
     */
    method Poll(polled: seq<Polled>, userDetail: Lookup, groupDetail: Lookup) returns (failure: Option<int>)
      requires Valid()
      modifies this
      ensures Valid()
      ensures Bookkeeping() == Tick(old(Bookkeeping()), polled, userDetail, groupDetail).books
      ensures failure == Tick(old(Bookkeeping()), polled, userDetail, groupDetail).failure
      ensures TableAndHooksKept()
    {
      var i := 0;
      while i < |polled|
        invariant 0 <= i <= |polled|
        invariant Valid() && TableAndHooksKept()
        invariant TickFrom(Bookkeeping(), polled, i, userDetail, groupDetail) == Tick(old(Bookkeeping()), polled, userDetail, groupDetail)
      {
        var _ := Acknowledge(polled[i].session);
        if polled[i].reply.Fetched? {
          failure := Ingest(polled[i].reply.messages, userDetail, groupDetail);
          if failure.Some? {
            return;
          }
        }
        i := i + 1;
      }
      failure := None;
    }

    /**
     * The event runner takes every queued envelope in turn and schedules the executions
     * the handler table selects for it (application.py:134-158).
     */
    method DrainQueue() returns (scheduled: seq<Scheduled>)
      requires Valid()
      modifies this
      ensures Valid()
      ensures scheduled == ScheduleQueue(event, old(queue))
      ensures queue == [] && Bookkeeping() == old(Bookkeeping()).(queue := [])
      ensures TableAndHooksKept()
    {
      scheduled := RunEvents(event, queue);
      queue := [];
    }

    /**
     * The try block of `run` (application.py:251-256) when it is stopped as `stop` says:
     * the start hooks and then the around hooks, up to and including the one that raised,
     * and the event loop if none did.
     */
    method TryBlock(stop: Stop) returns (trace: seq<LifeStep>)
      ensures trace == TryOrder(startHooks, aroundHooks)[..TrySteps(startHooks, aroundHooks, stop)]
    {
      ghost var full := TryOrder(startHooks, aroundHooks);
      trace := [];
      var raised := false;
      var i := 0;
      while i < |startHooks| && !raised
        invariant 0 <= i <= |startHooks|
        invariant |trace| <= |full| && trace == full[..|trace|]
        invariant raised ==> |trace| == stop.at + 1 && stop.at < |startHooks|
        invariant !raised ==> |trace| == i && i <= stop.at
      {
        assert full[..i + 1] == full[..i] + [Hook(Start, i, startHooks[i])];
        trace := trace + [Hook(Start, i, startHooks[i])];
        raised := stop.at == i;
        i := i + 1;
      }
      i := 0;
      while i < |aroundHooks| && !raised
        invariant 0 <= i <= |aroundHooks|
        invariant |trace| <= |full| && trace == full[..|trace|]
        invariant raised ==> |trace| == stop.at + 1 && stop.at < |startHooks| + |aroundHooks|
        invariant !raised ==> |trace| == |startHooks| + i && |startHooks| + i <= stop.at
      {
        assert full[..|startHooks| + i + 1] == full[..|startHooks| + i] + [Hook(Around, i, aroundHooks[i])];
        trace := trace + [Hook(Around, i, aroundHooks[i])];
        raised := stop.at == |startHooks| + i;
        i := i + 1;
      }
      if !raised {
        // run_forever returns only by raising
        assert full == full[..|full| - 1] + [LoopRan];
        trace := trace + [LoopRan];
      }
    }

    /** The `finally` block of `run` (application.py:261-266): the around hooks, then the end hooks. */
    method Finally() returns (trace: seq<LifeStep>)
      ensures trace == FinallyOrder(aroundHooks, endHooks)
    {
      ghost var around := Hooks(Around, aroundHooks);
      trace := [];
      var i := 0;
      while i < |aroundHooks|
        invariant 0 <= i <= |aroundHooks|
        invariant trace == around[..i]
      {
        assert around[..i + 1] == around[..i] + [Hook(Around, i, aroundHooks[i])];
        trace := trace + [Hook(Around, i, aroundHooks[i])];
        i := i + 1;
      }
      assert around[..i] == around;
      ghost var end := Hooks(End, endHooks);
      i := 0;
      while i < |endHooks|
        invariant 0 <= i <= |endHooks|
        invariant trace == around + end[..i]
      {
        assert end[..i + 1] == end[..i] + [Hook(End, i, endHooks[i])];
        trace := trace + [Hook(End, i, endHooks[i])];
        i := i + 1;
      }
      assert end[..i] == end;
    }

    /**
     * The hook sequence of `run` (application.py:246-266): the try block as far as `stop`
     * lets it go, then the `finally` block, whatever stopped the try block.
     */
    method Run(stop: Stop) returns (trace: seq<LifeStep>)
      ensures trace == Lifecycle.Run(startHooks, aroundHooks, endHooks, stop).trace
    {
      var tried := TryBlock(stop);
      var finished := Finally();
      trace := tried + finished;
    }
  }
}
