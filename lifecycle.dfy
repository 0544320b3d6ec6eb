/**
 * The hook ordering of `run` (application.py:246-266): the start hooks, then the around
 * hooks, then the event loop, inside a `try`; whatever stops that block, the `finally`
 * part runs the around hooks again and then the end hooks. The event loop never stops on
 * its own (nothing calls `loop.stop()`), so every run ends with some exception, and the
 * position in the try block where it struck is a parameter.
 */
module Lifecycle {
  import opened Descriptors

  datatype HookKind = Start | Around | End

  /** One step of a run: the `index`-th hook of a list was started, or the event loop ran. */
  datatype LifeStep = Hook(kind: HookKind, index: nat, f: FuncId) | LoopRan

  /**
   * What stops the try block: Ctrl-C, an `Exception`, or a `BaseException` that is
   * neither (SystemExit, GeneratorExit), which no `except` clause catches.
   */
  datatype Exc = Interrupt | OtherException | Uncaught

  /**
   * Where and how the try block stopped: `at` counts through the start hooks, the around
   * hooks and then the event loop; any `at` past the hooks means the event loop.
   */
  datatype Stop = Stop(at: nat, exc: Exc)

  /**
   * How `run` itself ends: it returns, the NameError raised in its handler escapes, or
   * the uncaught exception propagates once the `finally` part has run.
   */
  datatype Ending = Returned | NameErrorEscapes | Propagates

  datatype RunResult = RunResult(trace: seq<LifeStep>, ending: Ending)

  /** Running the hook list `fs` of one kind in order, one step per hook. */
  function Hooks(kind: HookKind, fs: seq<FuncId>): (r: seq<LifeStep>)
    ensures |r| == |fs|
    ensures forall i :: 0 <= i < |fs| ==> r[i] == Hook(kind, i, fs[i])
  {
    if |fs| == 0 then [] else Hooks(kind, fs[..|fs| - 1]) + [Hook(kind, |fs| - 1, fs[|fs| - 1])]
  }

  /** The try block run to the end: start hooks, around hooks, then the event loop. */
  function TryOrder(start: seq<FuncId>, around: seq<FuncId>): (r: seq<LifeStep>)
    ensures |r| == |start| + |around| + 1
  {
    Hooks(Start, start) + Hooks(Around, around) + [LoopRan]
  }

  /** How many steps of the try block ran: all up to and including the one that raised. */
  function TrySteps(start: seq<FuncId>, around: seq<FuncId>, stop: Stop): (n: nat)
    ensures 1 <= n <= |TryOrder(start, around)|
  {
    if stop.at < |start| + |around| then stop.at + 1 else |start| + |around| + 1
  }

  /** The `finally` block: the around hooks again, then the end hooks. */
  function FinallyOrder(around: seq<FuncId>, end: seq<FuncId>): seq<LifeStep>
  {
    Hooks(Around, around) + Hooks(End, end)
  }

  /**
   * The `except` clauses: Ctrl-C is logged and swallowed; an `Exception` reaches
   * `traceback.print_exc()`, which raises NameError unless `traceback` is imported; any
   * other `BaseException` passes both clauses and propagates.
   */
  function Handle(exc: Exc, tracebackImported: bool): Ending
  {
    match exc
    case Interrupt => Returned
    case OtherException => if tracebackImported then Returned else NameErrorEscapes
    case Uncaught => Propagates
  }

  /** `run` as written: the module never imports `traceback`. */
  function RunAsWritten(start: seq<FuncId>, around: seq<FuncId>, end: seq<FuncId>, stop: Stop): RunResult
  {
    RunResult(TryOrder(start, around)[..TrySteps(start, around, stop)] + FinallyOrder(around, end),
              Handle(stop.exc, false))
  }

  /**
   * `run` as intended: Ctrl-C and every `Exception` are swallowed (the latter printed), so
   * `run` returns unless the try block was stopped by an exception no clause catches,
   * which then propagates.
   */
  function Run(start: seq<FuncId>, around: seq<FuncId>, end: seq<FuncId>, stop: Stop): (r: RunResult)
    ensures r.ending == Returned <==> stop.exc != Uncaught
    ensures r.ending == Propagates <==> stop.exc == Uncaught
  {
    RunResult(TryOrder(start, around)[..TrySteps(start, around, stop)] + FinallyOrder(around, end),
              Handle(stop.exc, true))
  }

  /**
   * As written, any exception other than Ctrl-C makes `run` raise NameError from its
   * handler, after the `finally` hooks ran; the hooks run exactly as intended.
   */
  lemma MissingImportEscapes(start: seq<FuncId>, around: seq<FuncId>, end: seq<FuncId>, at: nat)
    ensures RunAsWritten(start, around, end, Stop(at, OtherException)).ending == NameErrorEscapes
    ensures Run(start, around, end, Stop(at, OtherException)).ending == Returned
    ensures RunAsWritten(start, around, end, Stop(at, OtherException)).trace == Run(start, around, end, Stop(at, OtherException)).trace
  {
  }

  /** How many times `x` occurs in `s`. */
  function Count(s: seq<LifeStep>, x: LifeStep): nat
  {
    multiset(s)[x]
  }

  lemma {:induction false} HooksCount(kind: HookKind, fs: seq<FuncId>, j: nat)
    requires j < |fs|
    ensures Count(Hooks(kind, fs), Hook(kind, j, fs[j])) == 1
    decreases |fs|
  {
    var prefix := Hooks(kind, fs[..|fs| - 1]);
    var last := Hook(kind, |fs| - 1, fs[|fs| - 1]);
    assert Hooks(kind, fs) == prefix + [last];
    if j < |fs| - 1 {
      assert fs[..|fs| - 1][j] == fs[j];
      HooksCount(kind, fs[..|fs| - 1], j);
    } else {
      assert Hook(kind, j, fs[j]) !in prefix;
    }
  }

  lemma HooksOtherKind(kind: HookKind, fs: seq<FuncId>, x: LifeStep)
    requires !x.Hook? || x.kind != kind
    ensures Count(Hooks(kind, fs), x) == 0
  {
  }

  /**
   * Every hook runs the number of times `run` promises: the `j`-th start hook once if the
   * try block reached it and not at all otherwise; the `j`-th around hook twice if the try
   * block reached it and once (in `finally`) otherwise; every end hook exactly once; the
   * event loop once if every start and around hook returned.
   */
  lemma HookCounts(start: seq<FuncId>, around: seq<FuncId>, end: seq<FuncId>, stop: Stop)
    ensures var t := Run(start, around, end, stop).trace;
      && (forall j :: 0 <= j < |start| ==> Count(t, Hook(Start, j, start[j])) == if j <= stop.at then 1 else 0)
      && (forall j :: 0 <= j < |around| ==> Count(t, Hook(Around, j, around[j])) == if |start| + j <= stop.at then 2 else 1)
      && (forall j :: 0 <= j < |end| ==> Count(t, Hook(End, j, end[j])) == 1)
      && Count(t, LoopRan) == if |start| + |around| <= stop.at then 1 else 0
  {
    var full := TryOrder(start, around);
    var n := TrySteps(start, around, stop);
    var S, A, E := Hooks(Start, start), Hooks(Around, around), Hooks(End, end);
    var t := Run(start, around, end, stop).trace;
    assert t == full[..n] + A + E;
    forall j | 0 <= j < |start| ensures Count(t, Hook(Start, j, start[j])) == if j <= stop.at then 1 else 0 {
      StartCount(start, around, stop, j);
      HooksOtherKind(Around, around, Hook(Start, j, start[j]));
      HooksOtherKind(End, end, Hook(Start, j, start[j]));
    }
    forall j | 0 <= j < |around| ensures Count(t, Hook(Around, j, around[j])) == if |start| + j <= stop.at then 2 else 1 {
      AroundCount(start, around, stop, j);
      HooksCount(Around, around, j);
      HooksOtherKind(End, end, Hook(Around, j, around[j]));
    }
    forall j | 0 <= j < |end| ensures Count(t, Hook(End, j, end[j])) == 1 {
      EndAbsentFromTry(start, around, n, Hook(End, j, end[j]));
      HooksOtherKind(Around, around, Hook(End, j, end[j]));
      HooksCount(End, end, j);
    }
    LoopCount(start, around, stop);
    HooksOtherKind(Around, around, LoopRan);
    HooksOtherKind(End, end, LoopRan);
  }

  /** A step that occurs in `s` only at position `k` occurs once in every prefix that holds `k`. */
  lemma CountUnique(s: seq<LifeStep>, k: nat, x: LifeStep, n: nat)
    requires k < |s| && s[k] == x && n <= |s|
    requires forall i :: 0 <= i < |s| && i != k ==> s[i] != x
    ensures Count(s[..n], x) == if k < n then 1 else 0
  {
    if k < n {
      assert s[..n] == s[..k] + [x] + s[k + 1..n];
      assert x !in s[..k];
      assert x !in s[k + 1..n];
    } else {
      assert x !in s[..n];
    }
  }

  lemma StartCount(start: seq<FuncId>, around: seq<FuncId>, stop: Stop, j: nat)
    requires j < |start|
    ensures var n := TrySteps(start, around, stop);
      Count(TryOrder(start, around)[..n], Hook(Start, j, start[j])) == if j <= stop.at then 1 else 0
  {
    var full := TryOrder(start, around);
    assert forall i :: 0 <= i < |full| && i != j ==> full[i] != Hook(Start, j, start[j]);
    CountUnique(full, j, Hook(Start, j, start[j]), TrySteps(start, around, stop));
  }

  lemma AroundCount(start: seq<FuncId>, around: seq<FuncId>, stop: Stop, j: nat)
    requires j < |around|
    ensures var n := TrySteps(start, around, stop);
      Count(TryOrder(start, around)[..n], Hook(Around, j, around[j])) == if |start| + j <= stop.at then 1 else 0
  {
    var full := TryOrder(start, around);
    var k := |start| + j;
    assert full[k] == Hook(Around, j, around[j]);
    assert forall i :: 0 <= i < |full| && i != k ==> full[i] != Hook(Around, j, around[j]);
    CountUnique(full, k, Hook(Around, j, around[j]), TrySteps(start, around, stop));
  }

  lemma EndAbsentFromTry(start: seq<FuncId>, around: seq<FuncId>, n: nat, x: LifeStep)
    requires n <= |TryOrder(start, around)| && x.Hook? && x.kind == End
    ensures Count(TryOrder(start, around)[..n], x) == 0
  {
  }

  lemma LoopCount(start: seq<FuncId>, around: seq<FuncId>, stop: Stop)
    ensures var n := TrySteps(start, around, stop);
      Count(TryOrder(start, around)[..n], LoopRan) == if |start| + |around| <= stop.at then 1 else 0
  {
    var full := TryOrder(start, around);
    assert forall i :: 0 <= i < |full| - 1 ==> full[i] != LoopRan;
    CountUnique(full, |full| - 1, LoopRan, TrySteps(start, around, stop));
  }
}
