# BiliChat engine, modelled in Dafny

BiliChat is a Bilibili private-message bot framework. Its engine, `BiliChat` in
`application.py`, does five things:

- It polls the message servers, keeps per-talker ack baselines, caches user and group
  details, types every fetched message by its `msg_type` and puts an
  `InternalEvent(name, body)` envelope on a queue.
- Its event runner takes envelopes off the queue and picks the handler list of the first
  registered key whose canonical name (`getEventCurrentName`) matches the envelope's name.
- For every selected handler (an `ExecutorProtocol` registered with `receiver`) its
  executor runs the dependencies in order. It consults and fills a per-call table of
  cache wrappers, stops on the `TRACEBACKED` sentinel, binds every parameter, enters the
  middlewares and calls the handler.
- `run` runs the lifecycle hooks around the event loop.
- The constructor parses the cookie header.

The Dafny modules follow that structure:

| module | what it holds |
|---|---|
| `Wrappers` | `Option` and `Result` |
| `Events` | message records, event keys and envelopes; `getEventCurrentName` |
| `Descriptors` | functions, parameters, `Depend`, middlewares, `ExecutorProtocol`; target resolution |
| `Cookies` | `str.split("; ")`, the split at the first `=`, the dictionary built from the pairs |
| `Registry` | the `event` dictionary as an insertion-ordered entry list; `receiver`'s append; `registeredEventNames`; the event runner's selection |
| `Middlewares` | `sort_middlewares`; the exit stack's entry and release order |
| `Annotations` | `get_annotations_mapping` |
| `Executor` | `executor` as a specification function (`ExecSpec`) and as the imperative method `Execute`, with its loops, proved equal to it |
| `ExecutorProperties` | what one execution promises: dependency order and short-circuit, parameter binding, the wrapper table, middleware bracketing |
| `Lifecycle` | the hook trace of `run` |
| `Ingestion` | the bookkeeping of `http_event` as specification functions and their invariants |
| `App` | the `BiliChat` class: its fields and the methods that update them, each proved against the functions above |

What nobody can see from inside the engine is a parameter of the model:

- `executor_with_middlewares` is an oracle `(call index, callee, table) -> (Value, table)`.
  It is called at application.py:191 and :221 but not defined in the source. It is handed
  the shared wrapper table and hands it back, possibly grown by its own nested calls.
- `getUserDetail` and `getGroupDetail` are lookups `int -> Detail`.
- The server replies of one poll are a list of `Polled(session, reply)`.
- Where a middleware entry or the handler raises is a `Fault`.
- Where `run`'s try block is interrupted is a `Stop`.

## Model

| member | source | states |
|---|---|---|
| Events.CurrentName | application.py:286-300 | a message instance or a message class gives its class name; an enum member gives its `.name`; a string or any other value comes back unchanged |
| Events.CurrentNameIdempotent | application.py:286-300 | canonicalising a canonical name changes nothing |
| Events.CurrentNameIsText | application.py:286-300 | a value canonicalises to the string `s` exactly when it is `s`, an instance or the class of the model named `s`, or the enum member named `s` |
| Events.ClassAndMemberAgree | application.py:286-300 | a message class, its instances and the matching `MessageItemType` member share a canonical name, so an envelope named by any of the three selects a handler registered under the class or the member (an instance cannot be a key, see `App.BiliChat.Receiver`) |
| Cookies.FirstEquals | application.py:39 | the position found is the first `=` of the piece; None exactly when there is no `=` |
| Cookies.JoinSplit | application.py:39 | joining the `"; "` pieces with `"; "` gives back the header |
| Cookies.SplitPiecesAvoid | application.py:39 | no piece contains `"; "` |
| Cookies.ToDictLastWins | application.py:39 | `dict(pairs)` maps each key to the value of its last pair |
| Cookies.ParseCookiesMeaning | application.py:39 | the parse fails exactly when some piece has no `=`; otherwise every piece's key, the part before its first `=`, maps to the rest of the LAST piece with that key |
| Cookies.EmptyHeaderFails | application.py:39 | an empty header makes the constructor raise |
| Cookies.TrailingSeparatorFails | application.py:39 | a header ending in `"; "` makes the constructor raise |
| Descriptors.ResolveTarget | application.py:174-179 | a non-class target is used as is; a class gives its `__call__`; a class without one is the TypeError |
| Registry.Keys | application.py:160-162 | `event.keys()` in insertion order |
| Registry.Position | application.py:276 | the index of a key in the dictionary, with no earlier occurrence; None exactly when the key is absent |
| Registry.Descriptor | application.py:277-281 | the descriptor holds `func`; its dependencies are the caller's followed by the globals; so are its middlewares |
| Registry.Register | application.py:276-281 | the key's handler list gains the descriptor at its end; every other key keeps its list; a new key is added last; keys stay distinct |
| Registry.RegisteredNames | application.py:160-162 | one canonical name per key, in key order |
| Registry.IndexOf | application.py:141-143 | `list.index`: the first position holding the name; None exactly when the name is absent |
| Registry.ScheduleAll | application.py:142-158 | one execution per handler, in list order, each with the envelope |
| Registry.SelectFirstMatch | application.py:141-158 | an envelope whose name is no key's canonical name schedules nothing; otherwise it schedules every handler of the FIRST key with that canonical name, in list order |
| Registry.ShadowedKeyNeverSelected | application.py:141-143 | a key whose canonical name an earlier key already has is never selected |
| Registry.RegisteredHandlerIsDispatched | application.py:141-158 | after `receiver` registers `d` under a key whose canonical name no other key shares, an envelope with that name schedules `d` last (with lines 276-281) |
| Registry.Dispatch | application.py:141-158 | the body of the runner loop for one envelope schedules exactly what `Select` picks: the handlers of the first key with the envelope's name, in list order |
| Registry.RunEvents | application.py:134-158 | the runner loop schedules exactly `ScheduleQueue`: each envelope's executions, in queue order |
| Registry.ScheduleQueueAppend | application.py:134-158 | one more envelope adds exactly its own executions at the end |
| Middlewares.AsyncGroup | application.py:317-332 | the middlewares with `__aenter__` and `__aexit__`, and only those |
| Middlewares.NormalGroup | application.py:317-332 | the middlewares with `__enter__` and `__exit__`, and only those |
| Middlewares.GroupsPreserveOrder | application.py:317-332 | both groups keep input order: grouping a concatenation concatenates the groups |
| Middlewares.EntryOrderShape | application.py:235-242 | every async middleware is entered as an async context before every normal one, every normal one as a sync context, and nothing else is entered |
| Middlewares.ReleaseOrder | application.py:235-242 | the exit stack releases the `i`-th from last entered as the `i`-th |
| Middlewares.ReleaseTwice | application.py:235-242 | reversing the release order gives the entry order |
| Annotations.AnnotationBinding | application.py:302-315 | `BiliChat` binds the bot; a message class binds the body exactly when the body canonicalises to that class's name, and raises ValueError otherwise; `Sender` raises NameError; `Type` binds the body's canonical name; any other annotation is not a key |
| Annotations.MessageParameterBinds | application.py:302-308 | a `Message` parameter binds a Message body and refuses a MessageRecall body |
| Executor.UseCache | application.py:180-189 | the intended cache step: with `cache`, a function already in the table reuses its wrapper and one that is not gets one new wrapper stored under the original (alru for a coroutine, `functools.lru_cache` otherwise); without `cache` the raw function is used and the table is unchanged; no entry is ever changed |
| Executor.UseCacheAsWritten | application.py:180-189 | the cache step as written: it raises NameError exactly when a plain (non-coroutine) function not yet in the table is to be cached, since only `alru_cache` is imported (line 9); in every other case it is `UseCache` (with lines 209-218) |
| Executor.CallDependAsWritten | application.py:173-193 | one Depend as written: NameError exactly when its target resolves to a plain function that is to be cached and is not in the table; otherwise it is `CallDepend` |
| Executor.Added | application.py:190-193 | the entries a nested call added to the shared table: for functions the table lacked, each stored under its own function |
| Executor.Adopt | application.py:190-193 | the table after a nested call keeps every entry it had, unchanged, and gains exactly the entries the nested call added |
| Executor.CallDepend | application.py:173-193 | one Depend is resolved, cached and run through `executor_with_middlewares`, which shares the table and may grow it; the TypeError happens exactly for a class without `__call__` |
| Executor.ParamVerdict | application.py:197-233 | a truthy Depend default is run; any other truthy default raises RuntimeError; without one, the annotation table decides when the annotation is its key; otherwise the parameter is left to the extras if named there, and raises RuntimeError if not |
| Executor.RunDepend | application.py:173-193 | the imperative resolve, cache and call of one Depend agrees with `CallDepend`, wrappers added by the nested call included, and changes nothing on the TypeError |
| Executor.RunDependencies | application.py:172-195 | the dependency loop computes `DepsFrom` |
| Executor.BindParameters | application.py:196-233 | the parameter loop computes `ParamsFrom` |
| Executor.EnterGroup | application.py:235-241 | one group is pushed on the stack in order, up to the entry that raises |
| Executor.EnterAndCall | application.py:235-242 | entering the async group, then the normal group, then calling the handler gives `InvokeScoped`; the call raises TypeError when a keyword is both bound and extra, is `func`, run_func's own first parameter, or names no parameter of the handler (with lines 335-339) |
| Executor.Execute | application.py:164-242 | the whole executor computes `ExecSpec` |
| ExecutorProperties.DependenciesInOrder | application.py:172-195 | the executor's first calls are the protocol's dependencies, in list order; a TRACEBACKED result comes from the last call made, every earlier dependency answered something else, and no parameter Depend, middleware or handler ran after it; the handler runs only if every dependency ran without TRACEBACKED |
| ExecutorProperties.ParamsFromFailure | application.py:197-233 | binding fails exactly when some parameter cannot be bound, with the error of the first such parameter |
| ExecutorProperties.ParamsFromBindings | application.py:197-233 | a successful binding binds exactly the parameters not left to the extras, keeps earlier bindings and binds an annotated parameter to what the annotation table gives |
| ExecutorProperties.ParamsFromDependValues | application.py:199-222 | a successful binding made exactly one call per Depend default, in parameter order, each running that parameter's Depend, and bound each such parameter to its own call's answer, TRACEBACKED included |
| ExecutorProperties.BindingIgnoresAnswers | application.py:199-233 | whether binding succeeds, and the error it raises if not, is the same whatever the dependencies answer: TRACEBACKED never stops the parameter loop |
| ExecutorProperties.ExecutionKeepsCache | application.py:180-189 | every wrapper the call was given is kept unchanged; a function is wrapped at most once, and only when the table lacks it; every wrapper a nested call added is kept; every cached call uses the table's wrapper, present at the start or built or taken over from a nested call earlier in the same call (with lines 170 and 210-219) |
| ExecutorProperties.DispatchStartsFresh | application.py:158-170 | a dispatched handler starts from an empty table: each of its cached calls uses a wrapper built earlier in that same execution or by one of its nested calls, and each wrapper in its table was built by one of them |
| ExecutorProperties.OneWrapperPerFunction | application.py:180-189 | within one execution all cached calls of one function go through the same wrapper (with lines 210-219) |
| ExecutorProperties.ReleaseMirrorsEntry | application.py:235-242 | the steps open with the contexts entered before the fault and close with their exits in reverse; the handler is called between, exactly when every context was entered and no keyword is both bound and extra, none is named `func`, and the handler declares each one; a failing entry is the executor's result exactly when one was not entered |
| ExecutorProperties.UndeclaredKeywordRejected | application.py:335-339 | an extra keyword that names no parameter of the handler makes run_func raise TypeError: the handler is not called and the execution does not complete (with line 242) |
| ExecutorProperties.FalsyDefaultIsNoDefault | application.py:201 | a falsy default is treated as no default |
| ExecutorProperties.DependDefaultTracebackedStillBound | application.py:220-223 | for instance, a lone Depend default answering TRACEBACKED is bound as the argument and the handler still runs |
| ExecutorProperties.LruCacheMissing | application.py:185-189 | as written, caching a plain function the table lacks raises NameError, where the intended step builds and stores an lru wrapper |
| Lifecycle.Hooks | application.py:251-266 | one step per hook of the list, the `i`-th naming the `i`-th hook |
| Lifecycle.Run | application.py:246-266 | `run` returns exactly when the try block was stopped by Ctrl-C or by an `Exception`; a `BaseException` that is neither (SystemExit) propagates after the `finally` hooks |
| Lifecycle.MissingImportEscapes | application.py:257-260 | as written, an exception other than Ctrl-C makes `run` raise NameError after the same hooks ran |
| Lifecycle.HookCounts | application.py:249-266 | start hook `j` runs once if the try block reached it and never otherwise; around hook `j` runs twice if reached and once otherwise; each end hook runs exactly once; the event loop runs once if every start and around hook returned |
| Ingestion.AcksAfterUnseen | application.py:59-60 | a talker no session is about keeps its stored ack, or its absence (with line 82) |
| Ingestion.AcksAfterLast | application.py:59-60 | a talker's stored ack is the max_seqno of its last session (with line 82) |
| Ingestion.ModelFor | application.py:114-119 | msg_type 1 and 2 select Message and 5 selects MessageRecall; every other code is the KeyError |
| Ingestion.RecordKeeps | application.py:121-131 | recording a typed message keeps the books consistent, only appends to message_list and the queue, and keeps cached details |
| Ingestion.IngestFromKeeps | application.py:113-131 | the message loop keeps the books consistent and does not touch the acks |
| Ingestion.IngestFromLedger | application.py:113-131 | the message loop leaves the stored acks and the sent pairs alone |
| Ingestion.IngestFromFailure | application.py:113-119 | the message loop stops with KeyError exactly when a remaining message has an unknown msg_type, and reports a code no model handles |
| Ingestion.IngestFromMessages | application.py:113-131 | a message loop without KeyError appends every remaining message, typed, to message_list in order |
| Ingestion.IngestFromQueued | application.py:113-131 | such a loop puts the same entries, in the same order, on the queue, each under its canonical name |
| Ingestion.TickFromKeeps | application.py:78-131 | a poll keeps the books consistent wherever it stops |
| Ingestion.TypedAppend | application.py:113-131 | typing a concatenation concatenates the typed messages |
| Ingestion.BeginAfterEarlierSession | application.py:79-82 | a talker seen earlier in the same poll begins at its latest earlier max_seqno |
| Ingestion.BeginAtFirstSession | application.py:79-82 | a talker seen first in the poll begins at its stored ack, or at max_seqno if it has none |
| Ingestion.PollRecordsMessages | application.py:78-131 | a poll ends in KeyError exactly when a fetched message has an unknown msg_type; otherwise every fetched message is appended to message_list in arrival order, and the queue receives exactly those entries in that order under their canonical names; the books stay consistent either way |
| Ingestion.PollUpdatesAcks | application.py:78-82 | after a poll without KeyError, every polled talker's stored ack is the max_seqno of its last session; every other talker's entry is unchanged; one (talker, ack_seqno) pair was sent per session, in order, each with the ack stored before it |
| Ingestion.QueuedEnvelopesLoggable | application.py:145-156 | every queued envelope carries a message whose sender, and for a group message whose group, is cached, and a "Message" envelope has msg_type 1 or 2, so the runner's `user_list` and `group_list` lookups and the binding of `content` cannot fail |
| App.OrEmpty | application.py:36-37 | `x or []` for an optional list (with lines 278-280) |
| App.BiliChat.constructor | application.py:33-45 | the global lists default to `[]`; the table, the hook lists and the books start empty |
| App.BiliChat.Create | application.py:33-39 | construction fails exactly when the cookie parse fails, and otherwise holds the parsed cookies |
| App.BiliChat.Receiver | application.py:268-284 | a non-coroutine is refused with TypeError and registers nothing; a message instance as key raises TypeError (unhashable) at `setdefault` and registers nothing; otherwise the coroutine is appended under its key as `Register` states and comes back |
| App.BiliChat.Connect | application.py:56-60 | the ack map becomes the one seeded from the session list; nothing else changes |
| App.BiliChat.Acknowledge | application.py:78-82 | the begin seqno is the stored ack, or max_seqno for a new talker; the stored ack becomes max_seqno |
| App.BiliChat.Ingest | application.py:113-131 | the message loop updates the books as `IngestFrom` states, and keeps them consistent |
| App.BiliChat.Poll | application.py:62-131 | one poll updates the books as `Tick` states and stops with the unknown msg_type on a KeyError |
| App.BiliChat.DrainQueue | application.py:134-158 | the runner schedules `ScheduleQueue` of the queue it empties, and the books stay consistent |
| App.BiliChat.TryBlock | application.py:251-256 | the start hooks, then the around hooks, up to the one that raised, then the event loop if none did |
| App.BiliChat.Finally | application.py:261-266 | the around hooks, then the end hooks |
| App.BiliChat.Run | application.py:246-266 | the hook sequence of `run` is the trace of `Lifecycle.Run` |

### Where the code and its description differ

- The wrapper table is created anew for every top-level call
  (application.py:170). The event runner passes none (application.py:158). So
  memoisation reaches only the nested calls of one handler execution, never a later
  dispatch. The model follows the code (`DispatchStartsFresh`).
- `event` and `lifecycle` are class attributes (application.py:22-29). Every `BiliChat`
  instance therefore shares one handler table and one set of hook lists. The model gives
  each instance its own fields.

## Left out

- All network I/O is out: aiohttp, the endpoint URLs and parameters, JSON decoding, and
  network.py. Each server reply becomes a parameter.
- A failed update_ack or fetch decode skips the session (`continue`). The model keeps
  this, and the ack map has already moved by then.
- A failed new_sessions decode, or a null session list, becomes a poll with no sessions.
- protocol.py is out. `getUserDetail` and `getGroupDetail` are the lookup parameters.
- The asyncio machinery is out: the queue, `wait_for`, `create_task`, `run_forever` and
  the 2-second sleep. Polls, queue drains and handler executions are separate method
  calls. The http_event and event_runner tasks are created before the `try`
  (application.py:248-249), so in the program they already poll and dispatch while each
  start, around and finally hook runs under `run_until_complete` (application.py:252-266),
  not only at the `LoopRan` entry of the trace `Lifecycle.Run` records; that trace does
  not show the interleaving.
- Events.Hashable: only the instances of the two message models are unhashable; a key
  given as some other unhashable value (a list, say) is taken to be hashable, because
  other values are opaque in the model.
- The `"Sender"` annotation refers to `MessageTypes`, which no file of the repository
  defines, and to `k.body.sender`, which neither message model has (they carry
  `sender_uid`, event/models.py). The model keeps the NameError as written
  (`Annotations.AnnotationBinding`) and has no corrected binding, because the intended
  set of types and the attribute meant cannot be told from the code.
- A handler taking `**kwargs` is not modelled: `Executor.KeywordsAccepted` requires each
  keyword to be a declared parameter.
- The model interleaves at poll granularity. The model cannot express the runner taking
  envelopes in the middle of a poll.
- `session_ts` and the clock are out.
- The logging branch of the event runner (application.py:145-156) is out.
  `Ingestion.QueuedEnvelopesLoggable` shows that its `user_list` and `group_list` lookups
  cannot fail.
- `content['content']` (application.py:149) indexes what `json.loads` makes of the
  message's content field. Whether that key is there depends on the server's data, which
  the model does not hold.
- The pydantic `parse_obj` (application.py:118) is taken to succeed for every record
  whose msg_type selects a model. A record it rejects would raise there.
- `self.cookies['DedeUserID']` (application.py:61) and `self.cookies['bili_jct']`
  (application.py:89-90) are taken to be present. `App.BiliChat.Connect` always succeeds.
- `alru_cache` and `lru_cache` are out. The two are not modelled beyond which wrapper
  is built. The missing import of `lru_cache` is a finding below.
- `Executor.CallDependAsWritten`: the NameError is modelled for one Depend. The
  dependency and parameter loops, and everything proved about them, use the corrected
  `CallDepend`. As written, an execution stops with that NameError at the first such
  Depend.
- `Executor.Adopt`: a nested call is taken to change the shared table only by adding
  entries for functions it lacked. Anything else it hands back (a replaced or removed
  entry) is ignored.
- `inspect` and `argument_signature` are replaced by explicit fields of `Func` and
  `Param`.
- `executor_with_middlewares` is not part of this model. It is an oracle.
- A middleware that suppresses an exception on exit is not modelled: every fault
  propagates.
- A hook that raises inside the `finally` block is not modelled.
- An exception raised by a dependency's own execution is not modelled: the oracle
  returns a value or TRACEBACKED.
- `ExecutorProtocol` is taken to be truthy, so `if event_body:` (application.py:144)
  always passes.
- The pydantic models are opaque records. Only `msg_type`, `sender_uid`, `receiver_type`
  and `receiver_id` are exposed.
- Lifecycle hooks are appended by user code directly to the lists. The model has the
  hook lists as fields and no method that changes them.
- `App.BiliChat.Poll`: after a KeyError the books are characterised only by `Tick`'s
  value and by consistency. The exception itself ends `http_event`, and the model returns
  it as `failure`.

## Findings

| source | as written | input that shows it | evidently intended | confidence | as-written member | corrected member |
|---|---|---|---|---|---|---|
| application.py:1-19, 257-260 | `except Exception: traceback.print_exc()`, but `traceback` is never imported | any exception other than KeyboardInterrupt in a start or around hook, or in the event loop: `Lifecycle.MissingImportEscapes` | the traceback is printed and `run` returns after the `finally` hooks | high (not executed) | Lifecycle.RunAsWritten | Lifecycle.Run |
| application.py:9, 185-189 | `lru_cache(depend_func)`, but only `alru_cache` is imported; the same at lines 214-218 | a Depend with `cache=True` on a plain (non-coroutine) function, in any dispatched handler: `ExecutorProperties.LruCacheMissing` | a `functools.lru_cache` wrapper is built and stored | high (not executed) | Executor.UseCacheAsWritten | Executor.UseCache |
