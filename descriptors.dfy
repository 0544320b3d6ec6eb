/**
 * The descriptors the engine works on: callables with their declared parameters,
 * dependency descriptors (Depend), middlewares and handler descriptors
 * (ExecutorProtocol). The introspection the source does with `inspect` and `hasattr`
 * is represented by explicit fields.
 */
module Descriptors {
  import opened Wrappers
  import opened Events

  /** Identity of a Python function object (what dictionaries keyed by functions compare). */
  type FuncId = nat

  /** A parameter annotation: none, the BiliChat class, a message class, a string, or anything else. */
  datatype Annotation =
    | Unannotated
    | BotType
    | MessageType(cls: MessageClass)
    | Named(s: string)
    | OtherType(id: int)

  /**
   * A parameter default: none (argument_signature reports None), a Depend, or any
   * other value, of which only its truthiness matters to the executor.
   */
  datatype Default = NoDefault | DependDefault(dep: Depend) | PlainDefault(truthy: bool)

  datatype Param = Param(name: string, annotation: Annotation, default: Default)

  /** A function object: its identity, whether it is a coroutine function, and its signature. */
  datatype Func = Func(id: FuncId, isCoroutine: bool, params: seq<Param>)

  /**
   * What a Depend names: a plain callable, or a class, which may or may not offer a
   * `__call__` attribute. In Python every class has one, inherited from `type`, so a
   * class without it (`ClassTarget(None)`, the TypeError branch at application.py:177-178)
   * cannot arise there; the model keeps the branch the source writes.
   */
  datatype Target = PlainFunc(f: Func) | ClassTarget(call: Option<Func>)

  /** A middleware object and which context-manager methods it has. */
  datatype Middleware = Middleware(id: nat, hasAenter: bool, hasAexit: bool, hasEnter: bool, hasExit: bool)

  /** Depend(func, cache, middlewares). */
  datatype Depend = Depend(target: Target, cache: bool, middlewares: seq<Middleware>)

  /** ExecutorProtocol(callable, dependencies, middlewares): one registered handler. */
  datatype ExecutorProtocol = ExecutorProtocol(callable: Func, dependencies: seq<Depend>, middlewares: seq<Middleware>)

  /** Truthiness of a default as `if default:` sees it; a Depend object is always truthy. */
  predicate Truthy(d: Default)
  {
    match d
    case NoDefault => false
    case DependDefault(_) => true
    case PlainDefault(t) => t
  }

  /**
   * The function a Depend target resolves to: a non-class is used as is, a class with a
   * `__call__` attribute gives that attribute, and any other class raises TypeError
   * ("must be callable.", reported as None here).
   */
  function ResolveTarget(t: Target): (r: Option<Func>)
    ensures r.None? <==> t.ClassTarget? && t.call.None?
    ensures t.PlainFunc? ==> r == Some(t.f)
    ensures t.ClassTarget? ==> r == t.call
  {
    match t
    case PlainFunc(f) => Some(f)
    case ClassTarget(call) => call
  }
}
