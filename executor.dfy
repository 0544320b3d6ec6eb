/**
 * BiliChat.executor: run a handler descriptor against an envelope. It resolves and runs
 * each dependency in order (TRACEBACKED stops everything), binds every parameter of
 * the handler (Depend defaults are run, others come from the annotation table or the
 * extra parameters), enters the middlewares on an exit stack and calls the handler.
 *
 * executor_with_middlewares, which runs one dependency with its own middlewares and
 * nested defaults, is not part of this model: it is the oracle `Oracle`, asked with the
 * position of the call in this execution, the callee it is given and the shared wrapper
 * table, which it may hand back grown by nested executions. The lru_cache/alru_cache
 * wrappers are values `Wrapper` that name the function they wrap.
 */
module Executor {
  import opened Wrappers
  import opened Events
  import opened Descriptors
  import opened Middlewares
  import opened Annotations

  /** A cache wrapper built around a function: alru_cache for a coroutine, lru_cache otherwise. */
  datatype Wrapper = Wrapper(original: FuncId, isAsync: bool)

  /** lru_cache_sets: from an original function to the wrapper built for it. */
  type WrapperTable = map<FuncId, Wrapper>

  /** Every wrapper in the table is stored under the function it wraps. */
  predicate WellFormed(table: WrapperTable)
  {
    forall g :: g in table ==> table[g].original == g
  }

  /** What is handed to executor_with_middlewares: the raw function or its wrapper. */
  datatype Callee = Raw(f: Func) | Cached(w: Wrapper)

  /** The function a callee ends up running. */
  function Underlying(c: Callee): FuncId
  {
    match c
    case Raw(f) => f.id
    case Cached(w) => w.original
  }

  /** One observable step of an execution. */
  datatype Step =
    | Wrapped(w: Wrapper)                                            // a new cache wrapper was built
    | Resolved(callee: Callee, middlewares: seq<Middleware>, answer: Value, adopted: WrapperTable)
      // executor_with_middlewares was awaited; `adopted` are the wrappers its nested executions added
    | Entered(scope: Scope)                                          // a middleware was entered on the stack
    | Exited(scope: Scope)                                           // the stack released a middleware
    | Invoked(f: FuncId, args: map<string, Value>)                   // run_func called the handler

  /**
   * executor_with_middlewares, answering the n-th call of this execution for a callee; it
   * is handed lru_cache_sets (application.py:192, 222) and gives back its answer and the
   * table as it left it.
   */
  type Oracle = (nat, Callee, WrapperTable) -> (Value, WrapperTable)

  /**
   * The wrappers a nested execution added: those of `returned` for functions `table`
   * lacked, stored under the function they wrap. A nested execution runs this same code,
   * which only ever stores a wrapper under a function not yet in the table
   * (application.py:180-189), so nothing else it hands back is taken over.
   */
  function Added(table: WrapperTable, returned: WrapperTable): (r: WrapperTable)
    ensures WellFormed(r) && r.Keys !! table.Keys
    ensures forall g :: g in r ==> g in returned && r[g] == returned[g]
  {
    map g | g in returned && g !in table && returned[g].original == g :: returned[g]
  }

  /** The shared table after a nested call: every entry kept, the nested additions adopted. */
  function Adopt(table: WrapperTable, returned: WrapperTable): (r: WrapperTable)
    ensures WellFormed(table) ==> WellFormed(r)
    ensures r.Keys == table.Keys + Added(table, returned).Keys
    ensures forall g :: g in table ==> r[g] == table[g]
    ensures forall g :: g in Added(table, returned) ==> r[g] == Added(table, returned)[g]
  {
    table + Added(table, returned)
  }

  /** Where, if anywhere, the scoped part of the execution raises. */
  datatype Fault = NoFault | EnterRaises(index: nat) | HandlerRaises

  /** What `executor` returns: None from run_func, TRACEBACKED, or a raised exception. */
  datatype ExecResult = Completed | Traced | Raised(error: Error)

  datatype St = St(table: WrapperTable, trace: seq<Step>, calls: nat)

  datatype Phase = Go(st: St) | Done(result: ExecResult, st: St)

  datatype Binding = Bound(args: map<string, Value>, st: St) | Failed(error: Error, st: St)

  datatype Outcome = Outcome(result: ExecResult, trace: seq<Step>, table: WrapperTable)

  /**
   * The cache step for a resolved function (application.py:180-189 and 210-219): with
   * `cache` set, a function already in the table reuses its wrapper and one that is not
   * gets a new wrapper, stored under the original; without `cache` the raw function is
   * used. The table never changes an existing entry.
   */
  function UseCache(table: WrapperTable, f: Func, cache: bool): (r: (Callee, WrapperTable, seq<Step>))
    requires WellFormed(table)
    ensures WellFormed(r.1)
    ensures Underlying(r.0) == f.id
    ensures r.0.Cached? <==> cache
    ensures r.1.Keys == if cache then table.Keys + {f.id} else table.Keys
    ensures forall g :: g in table ==> r.1[g] == table[g]
    ensures cache ==> r.1[f.id] == r.0.w
    ensures r.2 != [] <==> cache && f.id !in table
    ensures r.2 != [] ==> r.2 == [Wrapped(r.0.w)] && r.0.w == Wrapper(f.id, f.isCoroutine)
  {
    if f.id in table && cache then (Cached(table[f.id]), table, [])
    else if cache then
      var w := Wrapper(f.id, f.isCoroutine);
      (Cached(w), table[f.id := w], [Wrapped(w)])
    else (Raw(f), table, [])
  }

  /**
   * The cache step as the source is written: only `alru_cache` is imported
   * (application.py:9), so wrapping a plain function with `lru_cache` at
   * application.py:188 and 218 raises NameError; every other case is `UseCache`.
   */
  function UseCacheAsWritten(table: WrapperTable, f: Func, cache: bool): (r: Result<(Callee, WrapperTable, seq<Step>), Error>)
    requires WellFormed(table)
    ensures r.Err? <==> cache && f.id !in table && !f.isCoroutine
    ensures r.Err? ==> r.error == LruCacheUndefined
    ensures r.Ok? ==> r.value == UseCache(table, f, cache)
  {
    if cache && f.id !in table && !f.isCoroutine then Err(LruCacheUndefined)
    else Ok(UseCache(table, f, cache))
  }

  /**
   * Resolving, caching and running one Depend through executor_with_middlewares; None
   * when its target is a class without `__call__` (TypeError). The table the call hands
   * back is adopted by `Adopt`.
   */
  function CallDepend(d: Depend, st: St, oracle: Oracle): (r: Option<(Value, St)>)
    requires WellFormed(st.table)
    ensures r.Some? ==> WellFormed(r.value.1.table)
    ensures r.None? <==> ResolveTarget(d.target).None?
    ensures r.Some? ==> r.value.1.calls == st.calls + 1 && |r.value.1.trace| > |st.trace|
  {
    match ResolveTarget(d.target)
    case None => None
    case Some(f) =>
      var (callee, table', wraps) := UseCache(st.table, f, d.cache);
      var (answer, returned) := oracle(st.calls, callee, table');
      var added := Added(table', returned);
      Some((answer, St(Adopt(table', returned), st.trace + wraps + [Resolved(callee, d.middlewares, answer, added)], st.calls + 1)))
  }

  /**
   * One Depend as the source is written: the NameError of `UseCacheAsWritten` is raised
   * before the call is made; otherwise it is `CallDepend`.
   */
  function CallDependAsWritten(d: Depend, st: St, oracle: Oracle): (r: Result<Option<(Value, St)>, Error>)
    requires WellFormed(st.table)
    ensures r.Err? <==> && ResolveTarget(d.target).Some? && d.cache
                        && ResolveTarget(d.target).value.id !in st.table && !ResolveTarget(d.target).value.isCoroutine
    ensures r.Err? ==> r.error == LruCacheUndefined
    ensures r.Ok? ==> r.value == CallDepend(d, st, oracle)
  {
    match ResolveTarget(d.target)
    case None => Ok(None)
    case Some(f) =>
      match UseCacheAsWritten(st.table, f, d.cache)
      case Err(e) => Err(e)
      case Ok(_) => Ok(CallDepend(d, st, oracle))
  }

  /** The dependency loop (application.py:172-195), from dependency `i` on. */
  function DepsFrom(deps: seq<Depend>, i: nat, st: St, oracle: Oracle): (ph: Phase)
    requires i <= |deps| && WellFormed(st.table)
    ensures WellFormed(ph.st.table)
    decreases |deps| - i
  {
    if i == |deps| then Go(st)
    else match CallDepend(deps[i], st, oracle)
      case None => Done(Raised(NotCallable), st)
      case Some((answer, st')) =>
        if answer == Tracebacked then Done(Traced, st') else DepsFrom(deps, i + 1, st', oracle)
  }

  /** How one parameter is to be bound (application.py:200-233). */
  datatype Verdict = BindDepend(dep: Depend) | BindValue(v: Value) | Skip | Reject(error: Error)

  /**
   * The rule for one parameter: a truthy default must be a Depend, which is run; any
   * other truthy default raises RuntimeError. Without a (truthy) default the annotation
   * table decides if the annotation is a key there; otherwise the parameter is left to
   * the extra parameters, and RuntimeError is raised if it is not among them.
   */
  function ParamVerdict(p: Param, ev: InternalEvent, extra: map<string, Value>): (v: Verdict)
    ensures Truthy(p.default) ==> (v.BindDepend? <==> p.default.DependDefault?)
    ensures Truthy(p.default) && !p.default.DependDefault? ==> v == Reject(UnexpectedDefault)
    ensures v.BindDepend? ==> p.default == DependDefault(v.dep)
    ensures !Truthy(p.default) && AnnotationBinding(p.annotation, ev).Some? ==>
      match AnnotationBinding(p.annotation, ev).value
      case Ok(x) => v == BindValue(x)
      case Err(e) => v == Reject(e)
    ensures !Truthy(p.default) && AnnotationBinding(p.annotation, ev).None? ==>
      v == (if p.name in extra then Skip else Reject(UnexpectedAnnotation))
  {
    if Truthy(p.default) then
      match p.default
      case DependDefault(d) => BindDepend(d)
      case _ => Reject(UnexpectedDefault)
    else
      match AnnotationBinding(p.annotation, ev)
      case Some(Ok(x)) => BindValue(x)
      case Some(Err(e)) => Reject(e)
      case None => if p.name in extra then Skip else Reject(UnexpectedAnnotation)
  }

  /** The parameter loop from parameter `i` on, with the bindings made so far. */
  function ParamsFrom(ps: seq<Param>, i: nat, args: map<string, Value>, st: St,
                      ev: InternalEvent, extra: map<string, Value>, oracle: Oracle): (b: Binding)
    requires i <= |ps| && WellFormed(st.table)
    ensures WellFormed(b.st.table)
    decreases |ps| - i
  {
    if i == |ps| then Bound(args, st)
    else match ParamVerdict(ps[i], ev, extra)
      case Reject(e) => Failed(e, st)
      case Skip => ParamsFrom(ps, i + 1, args, st, ev, extra, oracle)
      case BindValue(x) => ParamsFrom(ps, i + 1, args[ps[i].name := x], st, ev, extra, oracle)
      case BindDepend(d) =>
        match CallDepend(d, st, oracle)
        case None => Failed(NotCallable, st)
        case Some((answer, st')) => ParamsFrom(ps, i + 1, args[ps[i].name := answer], st', ev, extra, oracle)
  }

  function EnterSteps(scopes: seq<Scope>): (r: seq<Step>)
    ensures |r| == |scopes|
    ensures forall i :: 0 <= i < |scopes| ==> r[i] == Entered(scopes[i])
  {
    if |scopes| == 0 then [] else [Entered(scopes[0])] + EnterSteps(scopes[1..])
  }

  function ExitSteps(scopes: seq<Scope>): (r: seq<Step>)
    ensures |r| == |scopes|
    ensures forall i :: 0 <= i < |scopes| ==> r[i] == Exited(scopes[i])
  {
    if |scopes| == 0 then [] else [Exited(scopes[0])] + ExitSteps(scopes[1..])
  }

  /** The names of the handler's parameters. */
  function ParamNames(h: Func): set<string>
  {
    set j | 0 <= j < |h.params| :: h.params[j].name
  }

  /**
   * Whether `run_func(callable, **args, **extra)` (application.py:242, 335-339) can pass
   * the keywords on: none is both bound and extra, none is `func`, the name of run_func's
   * own first parameter, and the handler declares every one (a handler taking `**kwargs`
   * is not modelled). Otherwise the call raises TypeError before the handler runs.
   */
  predicate KeywordsAccepted(h: Func, args: map<string, Value>, extra: map<string, Value>)
  {
    && args.Keys !! extra.Keys && "func" !in args && "func" !in extra
    && args.Keys <= ParamNames(h) && extra.Keys <= ParamNames(h)
  }

  /**
   * The `async with AsyncExitStack()` block (application.py:235-242): enter the async
   * group, then the normal group, then call the handler with the bound and the extra
   * keyword arguments; whatever happens after the k-th entry, the k entered contexts are
   * released in reverse. Keywords run_func cannot take make the call raise TypeError
   * before the handler runs. The handler's return value is discarded by run_func.
   */
  function InvokeScoped(h: Func, ms: seq<Middleware>, args: map<string, Value>,
                        extra: map<string, Value>, fault: Fault): (ExecResult, seq<Step>)
  {
    var order := EntryOrder(ms);
    if fault.EnterRaises? && fault.index < |order| then
      var entered := order[..fault.index];
      (Raised(MiddlewareFailed), EnterSteps(entered) + ExitSteps(ReleaseOrder(entered)))
    else if KeywordsAccepted(h, args, extra) then
      (if fault == HandlerRaises then Raised(HandlerFailed) else Completed,
       EnterSteps(order) + [Invoked(h.id, args + extra)] + ExitSteps(ReleaseOrder(order)))
    else
      (Raised(KeywordRejected), EnterSteps(order) + ExitSteps(ReleaseOrder(order)))
  }

  /**
   * One call `executor(p, ev, extra, incoming)`. The table starts as `incoming`
   * (`lru_cache_sets or {}`: None and an empty table both start empty).
   */
  function ExecSpec(p: ExecutorProtocol, ev: InternalEvent, extra: map<string, Value>,
                    incoming: WrapperTable, oracle: Oracle, fault: Fault): Outcome
    requires WellFormed(incoming)
  {
    match DepsFrom(p.dependencies, 0, St(incoming, [], 0), oracle)
    case Done(r, st) => Outcome(r, st.trace, st.table)
    case Go(st) =>
      match ParamsFrom(p.callable.params, 0, map[], st, ev, extra, oracle)
      case Failed(e, st2) => Outcome(Raised(e), st2.trace, st2.table)
      case Bound(args, st2) =>
        var (r, steps) := InvokeScoped(p.callable, p.middlewares, args, extra, fault);
        Outcome(r, st2.trace + steps, st2.table)
  }

  /**
   * Resolve one Depend, consult and fill the wrapper table, and await
   * executor_with_middlewares on the chosen callee (the block the source repeats at
   * application.py:173-193 and 203-223).
   */
  method RunDepend(depend: Depend, table: WrapperTable, trace: seq<Step>, calls: nat, oracle: Oracle)
    returns (callable: bool, result: Value, table': WrapperTable, trace': seq<Step>, calls': nat)
    requires WellFormed(table)
    ensures var r := CallDepend(depend, St(table, trace, calls), oracle);
      && (callable <==> r.Some?)
      && (callable ==> r.value == (result, St(table', trace', calls')))
    ensures !callable ==> table' == table && trace' == trace && calls' == calls
  {
    table', trace', calls' := table, trace, calls;
    result := Tracebacked;
    var f: Func;
    match depend.target {
      case PlainFunc(g) => f := g;
      case ClassTarget(call) =>
        if call.None? {
          return false, result, table', trace', calls';
        }
        f := call.value;
    }
    assert ResolveTarget(depend.target) == Some(f);
    ghost var cached := UseCache(table, f, depend.cache);
    var callee: Callee;
    if f.id in table' && depend.cache {
      callee := Cached(table'[f.id]);
    } else if depend.cache {
      var w := Wrapper(f.id, f.isCoroutine);
      table' := table'[f.id := w];
      trace' := trace' + [Wrapped(w)];
      callee := Cached(w);
    } else {
      callee := Raw(f);
    }
    assert cached.0 == callee && cached.1 == table' && trace' == trace + cached.2;
    var answer := oracle(calls', callee, table');
    result := answer.0;
    var returned := answer.1;
    var added := Added(table', returned);
    table' := Adopt(table', returned);
    trace' := trace' + [Resolved(callee, depend.middlewares, result, added)];
    calls' := calls' + 1;
    callable := true;
  }

  /** The dependency loop: each Depend in order, stopping at TRACEBACKED or a TypeError. */
  method RunDependencies(deps: seq<Depend>, st0: St, oracle: Oracle) returns (ph: Phase)
    requires WellFormed(st0.table)
    ensures ph == DepsFrom(deps, 0, st0, oracle)
  {
    var table, trace, calls := st0.table, st0.trace, st0.calls;
    var i := 0;
    while i < |deps|
      invariant 0 <= i <= |deps| && WellFormed(table)
      invariant DepsFrom(deps, 0, st0, oracle) == DepsFrom(deps, i, St(table, trace, calls), oracle)
    {
      var callable, result;
      callable, result, table, trace, calls := RunDepend(deps[i], table, trace, calls, oracle);
      if !callable {
        return Done(Raised(NotCallable), St(table, trace, calls));
      }
      if result == Tracebacked {
        return Done(Traced, St(table, trace, calls));
      }
      i := i + 1;
    }
    ph := Go(St(table, trace, calls));
  }

  /** The parameter loop, filling CallParams. */
  method BindParameters(params: seq<Param>, st0: St, ev: InternalEvent, extra: map<string, Value>, oracle: Oracle)
    returns (b: Binding)
    requires WellFormed(st0.table)
    ensures b == ParamsFrom(params, 0, map[], st0, ev, extra, oracle)
  {
    var table, trace, calls := st0.table, st0.trace, st0.calls;
    var callParams: map<string, Value> := map[];
    var j := 0;
    while j < |params|
      invariant 0 <= j <= |params| && WellFormed(table)
      invariant ParamsFrom(params, 0, map[], st0, ev, extra, oracle)
             == ParamsFrom(params, j, callParams, St(table, trace, calls), ev, extra, oracle)
    {
      var param := params[j];
      if Truthy(param.default) {
        if !param.default.DependDefault? {
          return Failed(UnexpectedDefault, St(table, trace, calls));
        }
        var callable, result;
        callable, result, table, trace, calls := RunDepend(param.default.dep, table, trace, calls, oracle);
        if !callable {
          return Failed(NotCallable, St(table, trace, calls));
        }
        callParams := callParams[param.name := result];
      } else {
        var binding := AnnotationBinding(param.annotation, ev);
        if binding.Some? {
          if binding.value.Err? {
            return Failed(binding.value.error, St(table, trace, calls));
          }
          callParams := callParams[param.name := binding.value.value];
        } else if param.name !in extra {
          return Failed(UnexpectedAnnotation, St(table, trace, calls));
        }
      }
      j := j + 1;
    }
    b := Bound(callParams, St(table, trace, calls));
  }

  /**
   * Enter each middleware of one group on the stack, in order (`enter_async_context` or
   * `enter_context`); stops, reporting failure, at the entry the fault names.
   */
  method EnterGroup(group: seq<Middleware>, isAsync: bool, stack: seq<Scope>, fault: Fault)
    returns (failed: bool, stack': seq<Scope>, entered: nat)
    requires fault.EnterRaises? ==> fault.index >= |stack|
    ensures entered <= |group| && stack' == stack + AsScopes(group[..entered], isAsync)
    ensures failed ==> fault == EnterRaises(|stack'|) && entered < |group|
    ensures !failed ==> entered == |group| && (fault.EnterRaises? ==> fault.index >= |stack'|)
  {
    stack' := stack;
    entered := 0;
    while entered < |group|
      invariant 0 <= entered <= |group|
      invariant |stack'| == |stack| + entered && stack'[..|stack|] == stack
      invariant forall i :: 0 <= i < entered ==> stack'[|stack| + i] == Scope(group[i], isAsync)
      invariant fault.EnterRaises? ==> fault.index >= |stack'|
    {
      if fault == EnterRaises(|stack'|) {
        failed := true;
        break;
      }
      stack' := stack' + [Scope(group[entered], isAsync)];
      entered := entered + 1;
    }
    failed := entered < |group|;
    assert stack' == stack + AsScopes(group[..entered], isAsync);
  }

  /** The exit-stack block: enter the async group, then the normal group, then call. */
  method EnterAndCall(h: Func, ms: seq<Middleware>, args: map<string, Value>, extra: map<string, Value>, fault: Fault)
    returns (result: ExecResult, steps: seq<Step>)
    ensures (result, steps) == InvokeScoped(h, ms, args, extra, fault)
  {
    var sorted := SortMiddlewares(ms);
    var asyncGroup, normalGroup := sorted.async, sorted.normal;
    var failed, stack, a := EnterGroup(asyncGroup, true, [], fault);
    var n := 0;
    if !failed {
      assert asyncGroup[..a] == asyncGroup;
      ghost var first := stack;
      assert first == AsScopes(asyncGroup[..a], true);
      failed, stack, n := EnterGroup(normalGroup, false, stack, fault);
      assert stack == AsScopes(asyncGroup[..a], true) + AsScopes(normalGroup[..n], false);
    } else {
      assert stack == AsScopes(asyncGroup[..a], true) + AsScopes(normalGroup[..0], false) by {
        assert AsScopes(normalGroup[..0], false) == [];
      }
    }
    EntryPrefix(ms, stack, a, n);
    if failed {
      result, steps := Raised(MiddlewareFailed), EnterSteps(stack) + ExitSteps(ReleaseOrder(stack));
      ScopedFailure(h, ms, args, extra, fault, stack);
      return;
    }
    assert stack == EntryOrder(ms) by {
      assert normalGroup[..n] == normalGroup;
    }
    ScopedSuccess(h, ms, args, extra, fault);
    if KeywordsAccepted(h, args, extra) {
      result := if fault == HandlerRaises then Raised(HandlerFailed) else Completed;
      steps := EnterSteps(stack) + [Invoked(h.id, args + extra)] + ExitSteps(ReleaseOrder(stack));
    } else {
      result := Raised(KeywordRejected);
      steps := EnterSteps(stack) + ExitSteps(ReleaseOrder(stack));
    }
  }

  lemma ScopedFailure(h: Func, ms: seq<Middleware>, args: map<string, Value>, extra: map<string, Value>,
                      fault: Fault, stack: seq<Scope>)
    requires fault == EnterRaises(|stack|) && |stack| < |EntryOrder(ms)| && EntryOrder(ms)[..|stack|] == stack
    ensures InvokeScoped(h, ms, args, extra, fault) == (Raised(MiddlewareFailed), EnterSteps(stack) + ExitSteps(ReleaseOrder(stack)))
  {
  }

  lemma ScopedSuccess(h: Func, ms: seq<Middleware>, args: map<string, Value>, extra: map<string, Value>, fault: Fault)
    requires fault.EnterRaises? ==> fault.index >= |EntryOrder(ms)|
    ensures var order := EntryOrder(ms);
      InvokeScoped(h, ms, args, extra, fault) ==
        if KeywordsAccepted(h, args, extra) then
          (if fault == HandlerRaises then Raised(HandlerFailed) else Completed,
           EnterSteps(order) + [Invoked(h.id, args + extra)] + ExitSteps(ReleaseOrder(order)))
        else (Raised(KeywordRejected), EnterSteps(order) + ExitSteps(ReleaseOrder(order)))
  {
  }

  /** `executor(p, ev, extra, lru_cache_sets)`, as the source runs it. */
  method Execute(p: ExecutorProtocol, ev: InternalEvent, extra: map<string, Value>,
                 incoming: WrapperTable, oracle: Oracle, fault: Fault) returns (out: Outcome)
    requires WellFormed(incoming)
    ensures out == ExecSpec(p, ev, extra, incoming, oracle, fault)
  {
    var ph := RunDependencies(p.dependencies, St(incoming, [], 0), oracle);
    if ph.Done? {
      return Outcome(ph.result, ph.st.trace, ph.st.table);
    }
    var b := BindParameters(p.callable.params, ph.st, ev, extra, oracle);
    if b.Failed? {
      return Outcome(Raised(b.error), b.st.trace, b.st.table);
    }
    var result, steps := EnterAndCall(p.callable, p.middlewares, b.args, extra, fault);
    out := Outcome(result, b.st.trace + steps, b.st.table);
  }

  lemma AsScopesAppend(ms: seq<Middleware>, m: Middleware, isAsync: bool)
    ensures AsScopes(ms + [m], isAsync) == AsScopes(ms, isAsync) + [Scope(m, isAsync)]
  {
    assert (ms + [m])[..|ms|] == ms;
  }

  /** The first `a + n` scopes entered before a failing entry are a prefix of the entry order. */
  lemma EntryPrefix(ms: seq<Middleware>, stack: seq<Scope>, a: nat, n: nat)
    requires a <= |AsyncGroup(ms)| && n <= |NormalGroup(ms)|
    requires n > 0 ==> a == |AsyncGroup(ms)|
    requires stack == AsScopes(AsyncGroup(ms)[..a], true) + AsScopes(NormalGroup(ms)[..n], false)
    ensures |stack| == a + n && |stack| <= |EntryOrder(ms)| && EntryOrder(ms)[..|stack|] == stack
  {
    var order := EntryOrder(ms);
    var front := AsScopes(AsyncGroup(ms), true);
    assert order == front + AsScopes(NormalGroup(ms), false);
    if n == 0 {
      assert AsScopes(NormalGroup(ms)[..0], false) == [];
      assert stack == AsScopes(AsyncGroup(ms)[..a], true);
      assert forall i :: 0 <= i < a ==> stack[i] == order[i];
    } else {
      assert AsyncGroup(ms)[..a] == AsyncGroup(ms);
      assert forall i :: 0 <= i < a + n ==> stack[i] == order[i];
    }
  }
}
