/**
 * The handler registry (the `event` dictionary of BiliChat) as an insertion-ordered
 * list of (key, handler list) entries, the name list registeredEventNames derives from
 * it, and the selection step of the dispatcher, which picks the handler list at the
 * position `list.index` finds.
 */
module Registry {
  import opened Wrappers
  import opened Events
  import opened Descriptors

  datatype Entry = Entry(key: EventValue, handlers: seq<ExecutorProtocol>)

  /** A dictionary from event keys to handler lists, in key-insertion order. */
  type EventTable = seq<Entry>

  /** One execution the dispatcher schedules: `executor(handler, envelope)`. */
  datatype Scheduled = Scheduled(handler: ExecutorProtocol, envelope: InternalEvent)

  /** A dictionary holds each key once. */
  predicate DistinctKeys(t: EventTable)
  {
    forall i, j :: 0 <= i < j < |t| ==> t[i].key != t[j].key
  }

  /** `list(event.keys())`. */
  function Keys(t: EventTable): (ks: seq<EventValue>)
    ensures |ks| == |t|
    ensures forall i :: 0 <= i < |t| ==> ks[i] == t[i].key
  {
    if |t| == 0 then [] else [t[0].key] + Keys(t[1..])
  }

  /** Position of `key` in the table, if present. */
  function Position(t: EventTable, key: EventValue): (r: Option<nat>)
    ensures r.Some? ==> r.value < |t| && t[r.value].key == key
    ensures r.Some? ==> forall j :: 0 <= j < r.value ==> t[j].key != key
    ensures r.None? <==> forall j :: 0 <= j < |t| ==> t[j].key != key
  {
    if |t| == 0 then None
    else if t[0].key == key then Some(0)
    else match Position(t[1..], key)
      case None => None
      case Some(j) => Some(j + 1)
  }

  /** `event.get(key, [])`. */
  function HandlersOf(t: EventTable, key: EventValue): seq<ExecutorProtocol>
  {
    match Position(t, key)
    case None => []
    case Some(i) => t[i].handlers
  }

  /**
   * The descriptor `receiver` builds: the caller's dependencies and middlewares
   * (None counts as []) followed by the global ones.
   */
  function Descriptor(func: Func, dependencies: seq<Depend>, useMiddlewares: seq<Middleware>,
                      globalDependencies: seq<Depend>, globalMiddlewares: seq<Middleware>): (d: ExecutorProtocol)
    ensures d.callable == func
    ensures |d.dependencies| == |dependencies| + |globalDependencies|
    ensures d.dependencies[..|dependencies|] == dependencies && d.dependencies[|dependencies|..] == globalDependencies
    ensures |d.middlewares| == |useMiddlewares| + |globalMiddlewares|
    ensures d.middlewares[..|useMiddlewares|] == useMiddlewares && d.middlewares[|useMiddlewares|..] == globalMiddlewares
  {
    ExecutorProtocol(func, dependencies + globalDependencies, useMiddlewares + globalMiddlewares)
  }

  /**
   * `event.setdefault(key, []).append(d)`: the key's list gains `d` at its end (a new
   * key is added last with the list [d]); every other key keeps its list and its place.
   */
  function Register(t: EventTable, key: EventValue, d: ExecutorProtocol): (r: EventTable)
    requires DistinctKeys(t)
    ensures DistinctKeys(r)
    ensures HandlersOf(r, key) == HandlersOf(t, key) + [d]
    ensures forall k :: k != key ==> HandlersOf(r, k) == HandlersOf(t, k)
    ensures Position(t, key).Some? ==> Keys(r) == Keys(t)
    ensures Position(t, key).None? ==> Keys(r) == Keys(t) + [key]
    ensures |r| >= |t| && forall i :: 0 <= i < |t| && t[i].key != key ==> r[i] == t[i]
  {
    match Position(t, key)
    case None =>
      AddedKey(t, key, d);
      t + [Entry(key, [d])]
    case Some(i) =>
      ExtendedKey(t, i, key, d);
      t[i := Entry(key, t[i].handlers + [d])]
  }

  /** What `setdefault` and `append` do for a key the dictionary does not hold yet. */
  lemma AddedKey(t: EventTable, key: EventValue, d: ExecutorProtocol)
    requires DistinctKeys(t) && Position(t, key).None?
    ensures var r := t + [Entry(key, [d])];
      && DistinctKeys(r)
      && HandlersOf(r, key) == [d]
      && (forall k :: k != key ==> HandlersOf(r, k) == HandlersOf(t, k))
      && Keys(r) == Keys(t) + [key]
  {
    var r := t + [Entry(key, [d])];
    PositionAt(r, key, |t|);
    forall k | k != key ensures HandlersOf(r, k) == HandlersOf(t, k) {
      PositionExtend(t, Entry(key, [d]), k);
    }
  }

  /** What `setdefault` and `append` do for a key the dictionary holds at `i`. */
  lemma ExtendedKey(t: EventTable, i: nat, key: EventValue, d: ExecutorProtocol)
    requires DistinctKeys(t) && Position(t, key) == Some(i)
    ensures var r := t[i := Entry(key, t[i].handlers + [d])];
      && DistinctKeys(r)
      && HandlersOf(r, key) == HandlersOf(t, key) + [d]
      && (forall k :: k != key ==> HandlersOf(r, k) == HandlersOf(t, k))
      && Keys(r) == Keys(t)
  {
    var r := t[i := Entry(key, t[i].handlers + [d])];
    PositionAt(r, key, i);
    forall k | k != key ensures HandlersOf(r, k) == HandlersOf(t, k) {
      PositionUpdate(t, i, Entry(key, t[i].handlers + [d]), k);
    }
  }

  /** A key found at `p` with no earlier occurrence is found by Position at `p`. */
  lemma PositionAt(t: EventTable, key: EventValue, p: nat)
    requires p < |t| && t[p].key == key
    requires forall j :: 0 <= j < p ==> t[j].key != key
    ensures Position(t, key) == Some(p)
  {
    var q := Position(t, key);
    assert q.Some?;
  }

  lemma PositionExtend(t: EventTable, e: Entry, k: EventValue)
    requires k != e.key
    ensures Position(t + [e], k) == Position(t, k)
  {
    match Position(t, k)
    case None => assert forall j :: 0 <= j < |t| + 1 ==> (t + [e])[j].key != k;
    case Some(i) => PositionAt(t + [e], k, i);
  }

  lemma PositionUpdate(t: EventTable, i: nat, e: Entry, k: EventValue)
    requires i < |t| && e.key == t[i].key && k != e.key
    ensures Position(t[i := e], k) == Position(t, k)
  {
    var r := t[i := e];
    match Position(t, k)
    case None => assert forall j :: 0 <= j < |r| ==> r[j].key != k;
    case Some(p) => PositionAt(r, k, p);
  }

  /** registeredEventNames: the canonical name of every key, in key order. */
  function RegisteredNames(t: EventTable): (names: seq<EventValue>)
    ensures |names| == |t|
    ensures forall i :: 0 <= i < |t| ==> names[i] == CurrentName(t[i].key) && IsName(names[i])
  {
    if |t| == 0 then [] else [CurrentName(t[0].key)] + RegisteredNames(t[1..])
  }

  /** `names.index(name)`: the first position holding `name`, or None (ValueError). */
  function IndexOf(names: seq<EventValue>, name: EventValue): (r: Option<nat>)
    ensures r.None? <==> name !in names
    ensures r.Some? ==> r.value < |names| && names[r.value] == name
    ensures r.Some? ==> forall j :: 0 <= j < r.value ==> names[j] != name
  {
    if |names| == 0 then None
    else if names[0] == name then Some(0)
    else match IndexOf(names[1..], name)
      case None => None
      case Some(j) => Some(j + 1)
  }

  /** Which entry's handler list the dispatcher uses for an envelope, if any. */
  function SelectedEntry(t: EventTable, ev: InternalEvent): Option<nat>
  {
    var names := RegisteredNames(t);
    if ev.name in names then IndexOf(names, ev.name) else None
  }

  /** One scheduled execution per handler, in list order, all with the same envelope. */
  function ScheduleAll(hs: seq<ExecutorProtocol>, ev: InternalEvent): (r: seq<Scheduled>)
    ensures |r| == |hs|
    ensures forall i :: 0 <= i < |hs| ==> r[i] == Scheduled(hs[i], ev)
  {
    if |hs| == 0 then [] else [Scheduled(hs[0], ev)] + ScheduleAll(hs[1..], ev)
  }

  /**
   * The executions the dispatcher schedules for one envelope taken off the queue:
   * none when its name is not a registered name, otherwise one per handler of the
   * entry selected by `list.index`.
   */
  function Select(t: EventTable, ev: InternalEvent): seq<Scheduled>
  {
    match SelectedEntry(t, ev)
    case None => []
    case Some(k) => if k < |t| then ScheduleAll(t[k].handlers, ev) else []
  }

  /**
   * Dispatch meaning: an envelope whose name is no key's canonical name schedules
   * nothing; otherwise it schedules, in list order, every handler of the FIRST key (in
   * insertion order) whose canonical name equals the envelope's name.
   */
  lemma SelectFirstMatch(t: EventTable, ev: InternalEvent)
    ensures (forall i :: 0 <= i < |t| ==> CurrentName(t[i].key) != ev.name) ==> Select(t, ev) == []
    ensures forall k :: 0 <= k < |t| && CurrentName(t[k].key) == ev.name &&
                        (forall j :: 0 <= j < k ==> CurrentName(t[j].key) != ev.name) ==>
                        Select(t, ev) == ScheduleAll(t[k].handlers, ev)
  {
    var names := RegisteredNames(t);
    if ev.name !in names {
      forall k | 0 <= k < |t| ensures CurrentName(t[k].key) != ev.name {
        assert names[k] == CurrentName(t[k].key);
      }
    } else {
      var k := IndexOf(names, ev.name).value;
      forall k' | 0 <= k' < |t| && CurrentName(t[k'].key) == ev.name &&
                  (forall j :: 0 <= j < k' ==> CurrentName(t[j].key) != ev.name)
        ensures k' == k
      {
      }
    }
  }

  /**
   * A key whose canonical name an earlier key already has is shadowed: no envelope
   * ever selects its handler list.
   */
  lemma ShadowedKeyNeverSelected(t: EventTable, i: nat, j: nat, ev: InternalEvent)
    requires i < j < |t| && CurrentName(t[i].key) == CurrentName(t[j].key)
    ensures SelectedEntry(t, ev) != Some(j)
  {
    var names := RegisteredNames(t);
    assert names[i] == names[j];
  }

  /**
   * Registration and dispatch agree on canonicalisation: after registering `d` under
   * `key`, an envelope named CurrentName(key) schedules `d` as its last execution,
   * provided no earlier key shares that canonical name.
   */
  lemma RegisteredHandlerIsDispatched(t: EventTable, key: EventValue, d: ExecutorProtocol, body: EventValue)
    requires DistinctKeys(t)
    requires forall i :: 0 <= i < |t| && t[i].key != key ==> CurrentName(t[i].key) != CurrentName(key)
    ensures var s := Select(Register(t, key, d), InternalEvent(CurrentName(key), body));
      |s| >= 1 && s[|s| - 1] == Scheduled(d, InternalEvent(CurrentName(key), body))
  {
    var r := Register(t, key, d);
    var ev := InternalEvent(CurrentName(key), body);
    var p := Position(r, key).value;
    assert r[p].handlers == HandlersOf(r, key);
    forall j | 0 <= j < p ensures CurrentName(r[j].key) != ev.name {
      assert r[j] == t[j];
    }
    SelectFirstMatch(r, ev);
  }

  /** The dispatcher's whole output for a queue: each envelope's executions, in queue order. */
  function ScheduleQueue(t: EventTable, queue: seq<InternalEvent>): seq<Scheduled>
  {
    if |queue| == 0 then [] else ScheduleQueue(t, queue[..|queue| - 1]) + Select(t, queue[|queue| - 1])
  }

  /**
   * The body of the event_runner loop for one envelope (application.py:141-158): the
   * handler list of the entry `list.index` finds, one scheduled execution per handler.
   */
  method Dispatch(t: EventTable, ev: InternalEvent) returns (scheduled: seq<Scheduled>)
    ensures scheduled == Select(t, ev)
  {
    scheduled := [];
    var names := RegisteredNames(t);
    if ev.name in names {
      var k := IndexOf(names, ev.name).value;
      var handlers := t[k].handlers;
      var h := 0;
      while h < |handlers|
        invariant 0 <= h <= |handlers|
        invariant scheduled == ScheduleAll(handlers[..h], ev)
      {
        ScheduleAllPrefix(handlers, h, ev);
        scheduled := scheduled + [Scheduled(handlers[h], ev)];
        h := h + 1;
      }
      assert handlers[..h] == handlers;
    }
  }

  /**
   * The event_runner loop with the asyncio queue replaced by the sequence of envelopes it
   * takes off it, and `create_task` by appending to the returned list.
   */
  method RunEvents(t: EventTable, queue: seq<InternalEvent>) returns (scheduled: seq<Scheduled>)
    ensures scheduled == ScheduleQueue(t, queue)
  {
    scheduled := [];
    var q := 0;
    while q < |queue|
      invariant 0 <= q <= |queue|
      invariant scheduled == ScheduleQueue(t, queue[..q])
    {
      var next := Dispatch(t, queue[q]);
      ScheduleQueuePrefix(t, queue, q);
      scheduled := scheduled + next;
      q := q + 1;
    }
    assert queue[..q] == queue;
  }

  lemma ScheduleAllPrefix(hs: seq<ExecutorProtocol>, h: nat, ev: InternalEvent)
    requires h < |hs|
    ensures ScheduleAll(hs[..h + 1], ev) == ScheduleAll(hs[..h], ev) + [Scheduled(hs[h], ev)]
  {
    var a, b := ScheduleAll(hs[..h + 1], ev), ScheduleAll(hs[..h], ev) + [Scheduled(hs[h], ev)];
    assert |a| == |b|;
    forall i | 0 <= i < |a| ensures a[i] == b[i] {
      if i < h { assert hs[..h + 1][i] == hs[..h][i]; }
    }
  }

  /**
   * Delivering one more envelope of the queue extends the schedule by exactly the
   * handlers that envelope selects, in their registration order.
   */
  lemma ScheduleQueuePrefix(t: EventTable, queue: seq<InternalEvent>, q: nat)
    requires q < |queue|
    ensures ScheduleQueue(t, queue[..q + 1]) == ScheduleQueue(t, queue[..q]) + Select(t, queue[q])
  {
    assert queue[..q + 1][..q] == queue[..q];
  }

  lemma ScheduleQueueAppend(t: EventTable, queue: seq<InternalEvent>, ev: InternalEvent)
    ensures ScheduleQueue(t, queue + [ev]) == ScheduleQueue(t, queue) + Select(t, ev)
  {
    assert (queue + [ev])[..|queue|] == queue;
  }
}
