/**
 * What the executor promises, proved about its specification functions: dependencies
 * run in list order and TRACEBACKED stops everything after it; the parameter rules;
 * the wrapper table only grows, by one wrapper per function; middlewares are released
 * in reverse order of entry on every path.
 */
module ExecutorProperties {
  import opened Wrappers
  import opened Events
  import opened Descriptors
  import opened Middlewares
  import opened Annotations
  import opened Executor
  import opened Registry

  /** The executor_with_middlewares calls of a trace, in order. */
  function Resolutions(trace: seq<Step>): (r: seq<Step>)
    ensures |r| <= |trace|
    ensures forall k :: 0 <= k < |r| ==> r[k].Resolved?
  {
    if |trace| == 0 then []
    else Resolutions(trace[..|trace| - 1]) + (if trace[|trace| - 1].Resolved? then [trace[|trace| - 1]] else [])
  }

  lemma {:induction false} ResolutionsAppend(a: seq<Step>, b: seq<Step>)
    ensures Resolutions(a + b) == Resolutions(a) + Resolutions(b)
    decreases |b|
  {
    if |b| == 0 {
      assert a + b == a;
    } else {
      assert (a + b)[..|a + b| - 1] == a + b[..|b| - 1];
      ResolutionsAppend(a, b[..|b| - 1]);
    }
  }

  /** Steps that belong to the scoped part: entering, leaving and the handler call. */
  predicate Scoped(s: Step)
  {
    s.Entered? || s.Exited? || s.Invoked?
  }

  predicate Prefix(a: seq<Step>, b: seq<Step>)
  {
    |a| <= |b| && b[..|a|] == a
  }

  /** No step of `trace` from position `from` on is a scoped step. */
  predicate UnscopedFrom(trace: seq<Step>, from: nat)
  {
    forall k :: from <= k < |trace| ==> !Scoped(trace[k])
  }

  /** A call step that ran dependency `d`: its function, its middlewares, cached iff `d.cache`. */
  predicate Runs(s: Step, d: Depend)
  {
    && s.Resolved?
    && ResolveTarget(d.target).Some?
    && Underlying(s.callee) == ResolveTarget(d.target).value.id
    && s.middlewares == d.middlewares
    && (s.callee.Cached? <==> d.cache)
  }

  /** The call steps `calls` are those of deps[i], deps[i+1], ... in order. */
  predicate InOrder(calls: seq<Step>, deps: seq<Depend>, i: nat)
  {
    i + |calls| <= |deps| && forall j :: 0 <= j < |calls| ==> Runs(calls[j], deps[i + j])
  }

  /** None of the first `n` call steps answered TRACEBACKED. */
  predicate NoneTracebacked(calls: seq<Step>, n: nat)
    requires n <= |calls| && forall k :: 0 <= k < |calls| ==> calls[k].Resolved?
  {
    forall j :: 0 <= j < n ==> calls[j].answer != Tracebacked
  }

  /** One Depend appends at most a Wrapped step and then exactly one call step for it. */
  lemma CallDependShape(d: Depend, st: St, oracle: Oracle)
    requires WellFormed(st.table) && CallDepend(d, st, oracle).Some?
    ensures var (answer, st1) := CallDepend(d, st, oracle).value;
      && Prefix(st.trace, st1.trace)
      && UnscopedFrom(st1.trace, |st.trace|)
      && Resolutions(st1.trace[|st.trace|..]) == [st1.trace[|st1.trace| - 1]]
      && st1.trace[|st1.trace| - 1].answer == answer
      && Runs(st1.trace[|st1.trace| - 1], d)
  {
    var f := ResolveTarget(d.target).value;
    var (callee, table', wraps) := UseCache(st.table, f, d.cache);
    var (answer, returned) := oracle(st.calls, callee, table');
    var last := Resolved(callee, d.middlewares, answer, Added(table', returned));
    assert CallDepend(d, st, oracle).value.1.trace == st.trace + wraps + [last];
    AppendedShape(st.trace, wraps, last);
  }

  /** A trace extended by at most one Wrapped step and then one call step. */
  lemma AppendedShape(prefix: seq<Step>, wraps: seq<Step>, last: Step)
    requires |wraps| <= 1 && (forall k :: 0 <= k < |wraps| ==> wraps[k].Wrapped?) && last.Resolved?
    ensures var t := prefix + wraps + [last];
      && Prefix(prefix, t) && UnscopedFrom(t, |prefix|)
      && Resolutions(t[|prefix|..]) == [last] && t[|t| - 1] == last
  {
    var t := prefix + wraps + [last];
    assert t[..|prefix|] == prefix;
    assert t[|prefix|..] == wraps + [last];
    ResolutionsAppend(wraps, [last]);
    assert Resolutions([last]) == Resolutions([]) + [last];
    if wraps != [] {
      assert Resolutions(wraps) == Resolutions([]) + [];
    }
  }

  lemma PrefixTrans(a: seq<Step>, b: seq<Step>, c: seq<Step>)
    requires Prefix(a, b) && Prefix(b, c)
    ensures Prefix(a, c)
  {
    assert c[..|a|] == c[..|b|][..|a|];
  }

  lemma UnscopedTrans(a: seq<Step>, b: seq<Step>, c: seq<Step>)
    requires Prefix(a, b) && Prefix(b, c)
    requires UnscopedFrom(b, |a|) && UnscopedFrom(c, |b|)
    ensures UnscopedFrom(c, |a|)
  {
    forall k | |a| <= k < |c| ensures !Scoped(c[k]) {
      if k < |b| { assert c[k] == c[..|b|][k]; }
    }
  }

  /** The dependency loop only appends to the trace, and never a scoped step. */
  lemma {:induction false} DepsFromExtends(deps: seq<Depend>, i: nat, st: St, oracle: Oracle)
    requires i <= |deps| && WellFormed(st.table)
    ensures var ph := DepsFrom(deps, i, st, oracle);
      Prefix(st.trace, ph.st.trace) && UnscopedFrom(ph.st.trace, |st.trace|)
    decreases |deps| - i
  {
    if i == |deps| {
      assert st.trace[..|st.trace|] == st.trace;
    } else {
      var r := CallDepend(deps[i], st, oracle);
      if r.None? {
        assert DepsFrom(deps, i, st, oracle) == Done(Raised(NotCallable), st);
        assert st.trace[..|st.trace|] == st.trace;
      } else {
        var st1 := r.value.1;
        CallDependShape(deps[i], st, oracle);
        if r.value.0 == Tracebacked {
          assert DepsFrom(deps, i, st, oracle) == Done(Traced, st1);
        } else {
          assert DepsFrom(deps, i, st, oracle) == DepsFrom(deps, i + 1, st1, oracle);
          DepsFromExtends(deps, i + 1, st1, oracle);
          var ph := DepsFrom(deps, i + 1, st1, oracle);
          PrefixTrans(st.trace, st1.trace, ph.st.trace);
          UnscopedTrans(st.trace, st1.trace, ph.st.trace);
        }
      }
    }
  }

  /** So does the parameter loop. */
  lemma {:induction false} ParamsFromExtends(ps: seq<Param>, i: nat, args: map<string, Value>, st: St,
                                             ev: InternalEvent, extra: map<string, Value>, oracle: Oracle)
    requires i <= |ps| && WellFormed(st.table)
    ensures var b := ParamsFrom(ps, i, args, st, ev, extra, oracle);
      Prefix(st.trace, b.st.trace) && UnscopedFrom(b.st.trace, |st.trace|)
    decreases |ps| - i, 1
  {
    if i < |ps| {
      match ParamVerdict(ps[i], ev, extra)
      case Reject(e) =>
      case Skip => ParamsFromExtends(ps, i + 1, args, st, ev, extra, oracle);
      case BindValue(x) => ParamsFromExtends(ps, i + 1, args[ps[i].name := x], st, ev, extra, oracle);
      case BindDepend(d) => ParamsFromExtendsDepend(ps, i, args, st, ev, extra, oracle, d);
    }
  }

  lemma {:induction false} ParamsFromExtendsDepend(ps: seq<Param>, i: nat, args: map<string, Value>, st: St,
                                                   ev: InternalEvent, extra: map<string, Value>, oracle: Oracle, d: Depend)
    requires i < |ps| && WellFormed(st.table) && ParamVerdict(ps[i], ev, extra) == BindDepend(d)
    ensures var b := ParamsFrom(ps, i, args, st, ev, extra, oracle);
      Prefix(st.trace, b.st.trace) && UnscopedFrom(b.st.trace, |st.trace|)
    decreases |ps| - i, 0
  {
    var r := CallDepend(d, st, oracle);
    if r.Some? {
      var answer, st1 := r.value.0, r.value.1;
      var args' := args[ps[i].name := answer];
      var b := ParamsFrom(ps, i + 1, args', st1, ev, extra, oracle);
      assert ParamsFrom(ps, i, args, st, ev, extra, oracle) == b;
      CallDependShape(d, st, oracle);
      ParamsFromExtends(ps, i + 1, args', st1, ev, extra, oracle);
      PrefixTrans(st.trace, st1.trace, b.st.trace);
      UnscopedTrans(st.trace, st1.trace, b.st.trace);
    }
  }

  /** The call steps appended between two states. */
  function NewCalls(before: seq<Step>, after: seq<Step>): (r: seq<Step>)
    requires Prefix(before, after)
    ensures forall k :: 0 <= k < |r| ==> r[k].Resolved?
  {
    Resolutions(after[|before|..])
  }

  /** What the dependency loop from `i` on did, given the call steps `calls` it made. */
  predicate DepsOutcome(deps: seq<Depend>, i: nat, calls: seq<Step>, ph: Phase)
    requires forall k :: 0 <= k < |calls| ==> calls[k].Resolved?
  {
    && InOrder(calls, deps, i)
    && (ph.Go? ==> i + |calls| == |deps| && NoneTracebacked(calls, |calls|))
    && (ph.Done? ==> ph.result == Traced || ph.result == Raised(NotCallable))
    && (ph.Done? && ph.result == Traced ==>
          && |calls| >= 1 && NoneTracebacked(calls, |calls| - 1)
          && calls[|calls| - 1].answer == Tracebacked
          && |ph.st.trace| >= 1 && ph.st.trace[|ph.st.trace| - 1] == calls[|calls| - 1])
    && (ph.Done? && ph.result == Raised(NotCallable) ==>
          && NoneTracebacked(calls, |calls|)
          && i + |calls| < |deps| && ResolveTarget(deps[i + |calls|].target).None?)
  }

  lemma NewCallsSplit(a: seq<Step>, b: seq<Step>, c: seq<Step>)
    requires Prefix(a, b) && Prefix(b, c)
    ensures Prefix(a, c) && NewCalls(a, c) == NewCalls(a, b) + NewCalls(b, c)
  {
    PrefixTrans(a, b, c);
    assert c[|a|..] == b[|a|..] + c[|b|..] by {
      assert c[..|b|] == b;
    }
    ResolutionsAppend(b[|a|..], c[|b|..]);
  }

  /**
   * The dependency loop from dependency `i` on calls deps[i], deps[i+1], ... in order;
   * it stops right after the first TRACEBACKED answer, or before the first target that
   * is not callable, and otherwise runs every remaining dependency.
   */
  lemma {:induction false} DepsFromCalls(deps: seq<Depend>, i: nat, st: St, oracle: Oracle)
    requires i <= |deps| && WellFormed(st.table)
    ensures var ph := DepsFrom(deps, i, st, oracle);
      Prefix(st.trace, ph.st.trace) && DepsOutcome(deps, i, NewCalls(st.trace, ph.st.trace), ph)
    decreases |deps| - i, 1
  {
    if i == |deps| {
      assert st.trace[|st.trace|..] == [];
    } else if CallDepend(deps[i], st, oracle).None? {
      assert st.trace[|st.trace|..] == [];
    } else if CallDepend(deps[i], st, oracle).value.0 == Tracebacked {
      DepsFromCallsTraced(deps, i, st, oracle);
    } else {
      DepsFromCallsStep(deps, i, st, oracle);
    }
  }

  lemma DepsFromCallsTraced(deps: seq<Depend>, i: nat, st: St, oracle: Oracle)
    requires i < |deps| && WellFormed(st.table)
    requires CallDepend(deps[i], st, oracle).Some? && CallDepend(deps[i], st, oracle).value.0 == Tracebacked
    ensures var ph := DepsFrom(deps, i, st, oracle);
      Prefix(st.trace, ph.st.trace) && DepsOutcome(deps, i, NewCalls(st.trace, ph.st.trace), ph)
  {
    var last := CallDependCall(deps[i], st, oracle);
    DepsFromTraced(deps, i, st, oracle);
    DepsOutcomeTraced(deps, i, st.trace, last, DepsFrom(deps, i, st, oracle));
  }

  lemma DepsFromTraced(deps: seq<Depend>, i: nat, st: St, oracle: Oracle)
    requires i < |deps| && WellFormed(st.table)
    requires CallDepend(deps[i], st, oracle).Some? && CallDepend(deps[i], st, oracle).value.0 == Tracebacked
    ensures DepsFrom(deps, i, st, oracle) == Done(Traced, CallDepend(deps[i], st, oracle).value.1)
  {
  }

  lemma DepsOutcomeTraced(deps: seq<Depend>, i: nat, before: seq<Step>, last: Step, ph: Phase)
    requires i < |deps| && ph.Done? && ph.result == Traced
    requires Prefix(before, ph.st.trace) && NewCalls(before, ph.st.trace) == [last]
    requires |ph.st.trace| >= 1 && ph.st.trace[|ph.st.trace| - 1] == last
    requires Runs(last, deps[i]) && last.answer == Tracebacked
    ensures DepsOutcome(deps, i, NewCalls(before, ph.st.trace), ph)
  {
  }

  lemma {:induction false} DepsFromCallsStep(deps: seq<Depend>, i: nat, st: St, oracle: Oracle)
    requires i < |deps| && WellFormed(st.table)
    requires CallDepend(deps[i], st, oracle).Some? && CallDepend(deps[i], st, oracle).value.0 != Tracebacked
    ensures var ph := DepsFrom(deps, i, st, oracle);
      Prefix(st.trace, ph.st.trace) && DepsOutcome(deps, i, NewCalls(st.trace, ph.st.trace), ph)
    decreases |deps| - i, 0
  {
    var st1 := CallDepend(deps[i], st, oracle).value.1;
    var ph := DepsFrom(deps, i + 1, st1, oracle);
    assert DepsFrom(deps, i, st, oracle) == ph;
    CallDependShape(deps[i], st, oracle);
    DepsFromCalls(deps, i + 1, st1, oracle);
    NewCallsSplit(st.trace, st1.trace, ph.st.trace);
    var last := NewCalls(st.trace, st1.trace)[0];
    DepsOutcomeCons(deps, i, last, NewCalls(st1.trace, ph.st.trace), ph);
  }

  lemma DepsOutcomeCons(deps: seq<Depend>, i: nat, last: Step, calls: seq<Step>, ph: Phase)
    requires i < |deps| && Runs(last, deps[i]) && last.answer != Tracebacked
    requires forall k :: 0 <= k < |calls| ==> calls[k].Resolved?
    requires DepsOutcome(deps, i + 1, calls, ph)
    ensures DepsOutcome(deps, i, [last] + calls, ph)
  {
    var R := [last] + calls;
    forall j | 0 <= j < |R| ensures Runs(R[j], deps[i + j]) {
      if j > 0 { assert R[j] == calls[j - 1]; }
    }
    forall j | 0 <= j < |R| && R[j].answer == Tracebacked ensures j == |R| - 1 && ph.Done? && ph.result == Traced {
      assert R[j] == calls[j - 1];
    }
  }

  /** Whether the handler was called in a trace. */
  predicate HasInvoked(trace: seq<Step>)
  {
    exists k :: 0 <= k < |trace| && trace[k].Invoked?
  }

  /** What DependenciesInOrder states about one execution. */
  predicate RunsDependenciesInOrder(deps: seq<Depend>, out: Outcome)
  {
    var R := Resolutions(out.trace);
    && (forall j :: 0 <= j < |R| && j < |deps| ==> Runs(R[j], deps[j]))
    && (out.result == Traced ==>
          && 1 <= |R| <= |deps| && NoneTracebacked(R, |R| - 1)
          && R[|R| - 1].answer == Tracebacked && out.trace[|out.trace| - 1] == R[|R| - 1]
          && UnscopedFrom(out.trace, 0))
    && (HasInvoked(out.trace) ==> |R| >= |deps| && forall j :: 0 <= j < |deps| ==> R[j].answer != Tracebacked)
  }

  /**
   * Dependencies run strictly in list order, and TRACEBACKED short-circuits
   * (application.py:172-195): the first call steps of an execution are those of the
   * protocol's dependencies, in order. A TRACEBACKED result means the last step is the
   * dependency call that answered it, every earlier dependency answered something else,
   * and nothing after it ran: no parameter Depend, no middleware, no handler. The
   * handler is called only when every dependency ran and none answered TRACEBACKED.
   */
  lemma DependenciesInOrder(p: ExecutorProtocol, ev: InternalEvent, extra: map<string, Value>,
                            incoming: WrapperTable, oracle: Oracle, fault: Fault)
    requires WellFormed(incoming)
    ensures RunsDependenciesInOrder(p.dependencies, ExecSpec(p, ev, extra, incoming, oracle, fault))
  {
    var st0 := St(incoming, [], 0);
    DepsFromCalls(p.dependencies, 0, st0, oracle);
    DepsFromExtends(p.dependencies, 0, st0, oracle);
    var ph := DepsFrom(p.dependencies, 0, st0, oracle);
    assert ph.st.trace[|st0.trace|..] == ph.st.trace;
    if ph.Done? {
      DependenciesStopped(p, ev, extra, incoming, oracle, fault);
    } else {
      DependenciesCompleted(p, ev, extra, incoming, oracle, fault);
    }
  }

  lemma DependenciesStopped(p: ExecutorProtocol, ev: InternalEvent, extra: map<string, Value>,
                            incoming: WrapperTable, oracle: Oracle, fault: Fault)
    requires WellFormed(incoming)
    requires DepsFrom(p.dependencies, 0, St(incoming, [], 0), oracle).Done?
    ensures RunsDependenciesInOrder(p.dependencies, ExecSpec(p, ev, extra, incoming, oracle, fault))
  {
    var st0 := St(incoming, [], 0);
    DepsFromCalls(p.dependencies, 0, st0, oracle);
    DepsFromExtends(p.dependencies, 0, st0, oracle);
    var ph := DepsFrom(p.dependencies, 0, st0, oracle);
    assert ph.st.trace[|st0.trace|..] == ph.st.trace;
    var out := ExecSpec(p, ev, extra, incoming, oracle, fault);
    assert out.trace == ph.st.trace && out.result == ph.result;
    forall k | 0 <= k < |out.trace| ensures !out.trace[k].Invoked? {
      assert !Scoped(out.trace[k]);
    }
  }

  lemma DependenciesCompleted(p: ExecutorProtocol, ev: InternalEvent, extra: map<string, Value>,
                              incoming: WrapperTable, oracle: Oracle, fault: Fault)
    requires WellFormed(incoming)
    requires DepsFrom(p.dependencies, 0, St(incoming, [], 0), oracle).Go?
    ensures RunsDependenciesInOrder(p.dependencies, ExecSpec(p, ev, extra, incoming, oracle, fault))
  {
    var st0 := St(incoming, [], 0);
    DepsFromCalls(p.dependencies, 0, st0, oracle);
    var st := DepsFrom(p.dependencies, 0, st0, oracle).st;
    assert st.trace[|st0.trace|..] == st.trace;
    AfterDependencies(p, ev, extra, st, oracle, fault);
    CallsKeptByExtension(p.dependencies, st.trace, ExecSpec(p, ev, extra, incoming, oracle, fault));
  }

  /** After the dependency loop, an execution only appends to the trace and never ends TRACEBACKED. */
  lemma AfterDependencies(p: ExecutorProtocol, ev: InternalEvent, extra: map<string, Value>,
                          st: St, oracle: Oracle, fault: Fault)
    requires WellFormed(st.table)
    ensures var out := match ParamsFrom(p.callable.params, 0, map[], st, ev, extra, oracle)
        case Failed(e, st2) => Outcome(Raised(e), st2.trace, st2.table)
        case Bound(args, st2) =>
          var (r, steps) := InvokeScoped(p.callable, p.middlewares, args, extra, fault);
          Outcome(r, st2.trace + steps, st2.table);
      Prefix(st.trace, out.trace) && out.result != Traced
  {
    ParamsFromExtends(p.callable.params, 0, map[], st, ev, extra, oracle);
    var b := ParamsFrom(p.callable.params, 0, map[], st, ev, extra, oracle);
    if b.Bound? {
      var steps := InvokeScoped(p.callable, p.middlewares, b.args, extra, fault).1;
      assert (b.st.trace + steps)[..|b.st.trace|] == b.st.trace;
      PrefixTrans(st.trace, b.st.trace, b.st.trace + steps);
    }
  }

  /** Appending to a trace whose calls are exactly the dependencies' keeps them first. */
  lemma CallsKeptByExtension(deps: seq<Depend>, early: seq<Step>, out: Outcome)
    requires Prefix(early, out.trace) && out.result != Traced
    requires InOrder(Resolutions(early), deps, 0) && |Resolutions(early)| == |deps|
    requires NoneTracebacked(Resolutions(early), |deps|)
    ensures RunsDependenciesInOrder(deps, out)
  {
    assert out.trace == early + out.trace[|early|..] by {
      assert out.trace[..|early|] == early;
    }
    ResolutionsAppend(early, out.trace[|early|..]);
    var R := Resolutions(out.trace);
    forall j | 0 <= j < |deps| ensures R[j] == Resolutions(early)[j] {
    }
  }

  /** A parameter the executor can bind (or leave to the extra parameters) without raising. */
  predicate Admits(p: Param, ev: InternalEvent, extra: map<string, Value>)
  {
    var v := ParamVerdict(p, ev, extra);
    !v.Reject? && (v.BindDepend? ==> ResolveTarget(v.dep.target).Some?)
  }

  /** The error a parameter the executor cannot bind raises. */
  function FailureOf(p: Param, ev: InternalEvent, extra: map<string, Value>): Error
  {
    var v := ParamVerdict(p, ev, extra);
    if v.Reject? then v.error else NotCallable
  }

  /**
   * Binding fails exactly when some parameter from `i` on cannot be bound, and then
   * with the error of the first such parameter (an unannotated parameter missing from
   * the extra parameters, a non-Depend default, a message parameter of the wrong
   * class, a `Sender` parameter, a class target without `__call__`).
   */
  lemma {:induction false} ParamsFromFailure(ps: seq<Param>, i: nat, args: map<string, Value>, st: St,
                                             ev: InternalEvent, extra: map<string, Value>, oracle: Oracle)
    requires i <= |ps| && WellFormed(st.table)
    ensures var b := ParamsFrom(ps, i, args, st, ev, extra, oracle);
      && (b.Failed? <==> exists j :: i <= j < |ps| && !Admits(ps[j], ev, extra))
      && (b.Failed? ==> exists j :: i <= j < |ps| && !Admits(ps[j], ev, extra) && b.error == FailureOf(ps[j], ev, extra) &&
                          forall q :: i <= q < j ==> Admits(ps[q], ev, extra))
    decreases |ps| - i
  {
    if i < |ps| {
      var v := ParamVerdict(ps[i], ev, extra);
      var b := ParamsFrom(ps, i, args, st, ev, extra, oracle);
      if !Admits(ps[i], ev, extra) {
        assert b.Failed? && b.error == FailureOf(ps[i], ev, extra);
      } else {
        var args', st' := ParamStep(ps, i, args, st, ev, extra, oracle);
        ParamsFromFailure(ps, i + 1, args', st', ev, extra, oracle);
        var b' := ParamsFrom(ps, i + 1, args', st', ev, extra, oracle);
        if b'.Failed? {
          var j :| i + 1 <= j < |ps| && !Admits(ps[j], ev, extra) && b'.error == FailureOf(ps[j], ev, extra) &&
                   forall q :: i + 1 <= q < j ==> Admits(ps[q], ev, extra);
          assert forall q :: i <= q < j ==> Admits(ps[q], ev, extra);
        } else {
          forall j | i <= j < |ps| ensures Admits(ps[j], ev, extra) {
          }
        }
      }
    }
  }

  /** The state after one admissible parameter, and the equation that takes the loop past it. */
  lemma ParamStep(ps: seq<Param>, i: nat, args: map<string, Value>, st: St,
                  ev: InternalEvent, extra: map<string, Value>, oracle: Oracle)
    returns (args': map<string, Value>, st': St)
    requires i < |ps| && WellFormed(st.table) && Admits(ps[i], ev, extra)
    ensures WellFormed(st'.table)
    ensures ParamsFrom(ps, i, args, st, ev, extra, oracle) == ParamsFrom(ps, i + 1, args', st', ev, extra, oracle)
    ensures match ParamVerdict(ps[i], ev, extra)
      case Skip => args' == args && st' == st
      case BindValue(x) => args' == args[ps[i].name := x] && st' == st
      case BindDepend(d) =>
        && args' == args[ps[i].name := CallDepend(d, st, oracle).value.0]
        && st' == CallDepend(d, st, oracle).value.1
      case Reject(_) => false
  {
    match ParamVerdict(ps[i], ev, extra)
    case Skip => args', st' := args, st;
    case BindValue(x) => args', st' := args[ps[i].name := x], st;
    case BindDepend(d) =>
      var r := CallDepend(d, st, oracle).value;
      args', st' := args[ps[i].name := r.0], r.1;
  }

  /** Python parameter names are distinct. */
  predicate DistinctNames(ps: seq<Param>)
  {
    forall a, b :: 0 <= a < b < |ps| ==> ps[a].name != ps[b].name
  }

  /** The names the executor binds itself from parameter `i` on: all but those left to the extras. */
  function BoundNames(ps: seq<Param>, i: nat, ev: InternalEvent, extra: map<string, Value>): set<string>
  {
    set j | i <= j < |ps| && !ParamVerdict(ps[j], ev, extra).Skip? :: ps[j].name
  }

  lemma BoundNamesStep(ps: seq<Param>, i: nat, ev: InternalEvent, extra: map<string, Value>)
    requires i < |ps|
    ensures BoundNames(ps, i, ev, extra) ==
      BoundNames(ps, i + 1, ev, extra) + if ParamVerdict(ps[i], ev, extra).Skip? then {} else {ps[i].name}
  {
  }

  /** What a successful binding `final`, begun from `args` at parameter `i`, holds. */
  predicate BindsAsStated(ps: seq<Param>, i: nat, ev: InternalEvent, extra: map<string, Value>,
                          args: map<string, Value>, final: map<string, Value>)
  {
    && final.Keys == args.Keys + BoundNames(ps, i, ev, extra)
    && (forall k :: k in args ==> final[k] == args[k])
    && (forall j :: i <= j < |ps| && ParamVerdict(ps[j], ev, extra).BindValue? ==>
          final[ps[j].name] == ParamVerdict(ps[j], ev, extra).v)
  }

  /**
   * A successful binding from parameter `i` on keeps the earlier bindings, binds exactly
   * the parameters that are not left to the extra parameters, and binds an annotated
   * parameter to the value the annotation table gives it.
   */
  lemma {:induction false} ParamsFromBindings(ps: seq<Param>, i: nat, args: map<string, Value>, st: St,
                                              ev: InternalEvent, extra: map<string, Value>, oracle: Oracle)
    requires i <= |ps| && WellFormed(st.table) && DistinctNames(ps)
    requires forall j :: i <= j < |ps| ==> ps[j].name !in args
    ensures var b := ParamsFrom(ps, i, args, st, ev, extra, oracle);
      b.Bound? ==> BindsAsStated(ps, i, ev, extra, args, b.args)
    decreases |ps| - i
  {
    if i == |ps| {
      assert BoundNames(ps, i, ev, extra) == {};
    } else if Admits(ps[i], ev, extra) {
      var args', st' := ParamStep(ps, i, args, st, ev, extra, oracle);
      forall j | i + 1 <= j < |ps| ensures ps[j].name !in args' {
        assert ps[i].name != ps[j].name;
      }
      ParamsFromBindings(ps, i + 1, args', st', ev, extra, oracle);
      var b := ParamsFrom(ps, i + 1, args', st', ev, extra, oracle);
      if b.Bound? {
        BindingsCons(ps, i, ev, extra, args, args', b.args);
      }
    }
  }

  lemma BindingsCons(ps: seq<Param>, i: nat, ev: InternalEvent, extra: map<string, Value>,
                     args: map<string, Value>, args': map<string, Value>, final: map<string, Value>)
    requires i < |ps| && ps[i].name !in args
    requires match ParamVerdict(ps[i], ev, extra)
      case Skip => args' == args
      case BindValue(x) => args' == args[ps[i].name := x]
      case BindDepend(d) => ps[i].name in args' && args' == args[ps[i].name := args'[ps[i].name]]
      case Reject(_) => false
    requires BindsAsStated(ps, i + 1, ev, extra, args', final)
    ensures BindsAsStated(ps, i, ev, extra, args, final)
  {
    BoundNamesStep(ps, i, ev, extra);
    assert ps[i].name in args' ==> final[ps[i].name] == args'[ps[i].name];
  }

  /** Every wrapper the execution started with is still there, unchanged. */
  predicate KeepsIncoming(incoming: WrapperTable, table: WrapperTable)
  {
    forall g :: g in incoming ==> g in table && table[g] == incoming[g]
  }

  /** `w` was taken over from a nested execution at some call step of `trace`. */
  predicate AdoptedIn(w: Wrapper, trace: seq<Step>)
  {
    exists k :: 0 <= k < |trace| && trace[k].Resolved? && w.original in trace[k].adopted && trace[k].adopted[w.original] == w
  }

  /** Every wrapper in the table was there at the start, was built in this trace, or was adopted in it. */
  predicate EntriesAccounted(incoming: WrapperTable, table: WrapperTable, trace: seq<Step>)
  {
    forall g :: g in table ==> g in incoming || Wrapped(table[g]) in trace || AdoptedIn(table[g], trace)
  }

  /** Every wrapper built in this trace is for a function the table did not have, and is stored. */
  predicate WrapsStored(incoming: WrapperTable, table: WrapperTable, trace: seq<Step>)
  {
    forall k :: 0 <= k < |trace| && trace[k].Wrapped? ==>
      trace[k].w.original !in incoming && trace[k].w.original in table && table[trace[k].w.original] == trace[k].w
  }

  /** Every wrapper adopted in this trace is for a function the execution did not start with, and is stored. */
  predicate AdoptionsStored(incoming: WrapperTable, table: WrapperTable, trace: seq<Step>)
  {
    forall k, g :: 0 <= k < |trace| && trace[k].Resolved? && g in trace[k].adopted ==>
      g !in incoming && g in table && table[g] == trace[k].adopted[g]
  }

  /** No function is wrapped twice. */
  predicate WrapsOnce(trace: seq<Step>)
  {
    forall a, b :: 0 <= a < b < |trace| && trace[a].Wrapped? && trace[b].Wrapped? ==>
      trace[a].w.original != trace[b].w.original
  }

  /** Every cached call used the table's wrapper, found there at the start or built or adopted before it. */
  predicate CachedCallsKnown(incoming: WrapperTable, table: WrapperTable, trace: seq<Step>)
  {
    forall k :: 0 <= k < |trace| && trace[k].Resolved? && trace[k].callee.Cached? ==>
      var w := trace[k].callee.w;
      && w.original in table && table[w.original] == w
      && ((w.original in incoming && incoming[w.original] == w) || Wrapped(w) in trace[..k] || AdoptedIn(w, trace[..k]))
  }

  predicate CacheInv(incoming: WrapperTable, table: WrapperTable, trace: seq<Step>)
  {
    && KeepsIncoming(incoming, table)
    && EntriesAccounted(incoming, table, trace)
    && WrapsStored(incoming, table, trace)
    && AdoptionsStored(incoming, table, trace)
    && WrapsOnce(trace)
    && CachedCallsKnown(incoming, table, trace)
  }

  /** One Depend keeps the wrapper-table invariant. */
  lemma CallDependKeepsCache(incoming: WrapperTable, d: Depend, st: St, oracle: Oracle)
    requires WellFormed(st.table) && CallDepend(d, st, oracle).Some?
    requires CacheInv(incoming, st.table, st.trace)
    ensures var st1 := CallDepend(d, st, oracle).value.1;
      CacheInv(incoming, st1.table, st1.trace)
  {
    var f := ResolveTarget(d.target).value;
    var (callee, table', wraps) := UseCache(st.table, f, d.cache);
    var (answer, returned) := oracle(st.calls, callee, table');
    var last := Resolved(callee, d.middlewares, answer, Added(table', returned));
    var trace' := st.trace + wraps + [last];
    assert Adopt(table', returned) == table' + last.adopted;
    assert CallDepend(d, st, oracle).value.1 == St(table' + last.adopted, trace', st.calls + 1);
    CacheKeptByUse(incoming, st.table, st.trace, f, d.cache, trace', last);
  }

  /**
   * The requirements shared by the lemmas below: `last` is the call step made with the
   * callee UseCache chose, and the wrappers it adopted are for functions the table lacked.
   */
  predicate UseStep(table: WrapperTable, trace: seq<Step>, f: Func, cache: bool, trace': seq<Step>, last: Step)
    requires WellFormed(table)
  {
    && last.Resolved? && last.callee == UseCache(table, f, cache).0
    && WellFormed(last.adopted) && last.adopted.Keys !! UseCache(table, f, cache).1.Keys
    && trace' == trace + UseCache(table, f, cache).2 + [last]
  }

  lemma CacheKeptByUse(incoming: WrapperTable, table: WrapperTable, trace: seq<Step>, f: Func, cache: bool,
                       trace': seq<Step>, last: Step)
    requires WellFormed(table) && CacheInv(incoming, table, trace) && UseStep(table, trace, f, cache, trace', last)
    ensures CacheInv(incoming, UseCache(table, f, cache).1 + last.adopted, trace')
  {
    KeptEntries(incoming, table, trace, f, cache, trace', last);
    KeptWraps(incoming, table, trace, f, cache, trace', last);
    KeptAdoptions(incoming, table, trace, f, cache, trace', last);
    KeptCalls(incoming, table, trace, f, cache, trace', last);
  }

  lemma KeptEntries(incoming: WrapperTable, table: WrapperTable, trace: seq<Step>, f: Func, cache: bool,
                    trace': seq<Step>, last: Step)
    requires WellFormed(table) && CacheInv(incoming, table, trace) && UseStep(table, trace, f, cache, trace', last)
    ensures KeepsIncoming(incoming, UseCache(table, f, cache).1 + last.adopted)
    ensures EntriesAccounted(incoming, UseCache(table, f, cache).1 + last.adopted, trace')
  {
    var (callee, table', wraps) := UseCache(table, f, cache);
    var T := table' + last.adopted;
    forall g | g in T ensures g in incoming || Wrapped(T[g]) in trace' || AdoptedIn(T[g], trace') {
      if g in table {
        assert T[g] == table[g];
        if g !in incoming && !(Wrapped(table[g]) in trace) {
          var k :| 0 <= k < |trace| && trace[k].Resolved? && g in trace[k].adopted && trace[k].adopted[g] == table[g];
          assert trace'[k] == trace[k];
        }
      } else if g in table' {
        assert T[g] == callee.w;
        assert trace'[|trace|] == Wrapped(callee.w);
      } else {
        assert last.adopted[g].original == g;
        assert trace'[|trace'| - 1] == last;
      }
    }
  }

  lemma KeptWraps(incoming: WrapperTable, table: WrapperTable, trace: seq<Step>, f: Func, cache: bool,
                  trace': seq<Step>, last: Step)
    requires WellFormed(table) && CacheInv(incoming, table, trace) && UseStep(table, trace, f, cache, trace', last)
    ensures WrapsStored(incoming, UseCache(table, f, cache).1 + last.adopted, trace')
    ensures WrapsOnce(trace')
  {
    var (callee, table', wraps) := UseCache(table, f, cache);
    var T := table' + last.adopted;
    forall k | 0 <= k < |trace'| && trace'[k].Wrapped?
      ensures trace'[k].w.original !in incoming && trace'[k].w.original in T && T[trace'[k].w.original] == trace'[k].w
    {
      if k < |trace| { assert trace'[k] == trace[k]; }
    }
    forall a, b | 0 <= a < b < |trace'| && trace'[a].Wrapped? && trace'[b].Wrapped?
      ensures trace'[a].w.original != trace'[b].w.original
    {
      assert trace'[a] == trace[a];
      if b < |trace| { assert trace'[b] == trace[b]; }
    }
  }

  lemma KeptAdoptions(incoming: WrapperTable, table: WrapperTable, trace: seq<Step>, f: Func, cache: bool,
                      trace': seq<Step>, last: Step)
    requires WellFormed(table) && CacheInv(incoming, table, trace) && UseStep(table, trace, f, cache, trace', last)
    ensures AdoptionsStored(incoming, UseCache(table, f, cache).1 + last.adopted, trace')
  {
    var (callee, table', wraps) := UseCache(table, f, cache);
    var T := table' + last.adopted;
    forall k, g | 0 <= k < |trace'| && trace'[k].Resolved? && g in trace'[k].adopted
      ensures g !in incoming && g in T && T[g] == trace'[k].adopted[g]
    {
      if k < |trace| {
        assert trace'[k] == trace[k];
      } else {
        assert trace'[k] == last;
      }
    }
  }

  lemma KeptCalls(incoming: WrapperTable, table: WrapperTable, trace: seq<Step>, f: Func, cache: bool,
                  trace': seq<Step>, last: Step)
    requires WellFormed(table) && CacheInv(incoming, table, trace) && UseStep(table, trace, f, cache, trace', last)
    ensures CachedCallsKnown(incoming, UseCache(table, f, cache).1 + last.adopted, trace')
  {
    var (callee, table', wraps) := UseCache(table, f, cache);
    var T := table' + last.adopted;
    forall k | 0 <= k < |trace'| && trace'[k].Resolved? && trace'[k].callee.Cached?
      ensures var w := trace'[k].callee.w;
        && w.original in T && T[w.original] == w
        && ((w.original in incoming && incoming[w.original] == w) || Wrapped(w) in trace'[..k] || AdoptedIn(w, trace'[..k]))
    {
      if k < |trace| {
        assert trace'[k] == trace[k] && trace'[..k] == trace[..k];
      } else {
        KeptLastCall(incoming, table, trace, f, cache, trace', last);
      }
    }
  }

  lemma KeptLastCall(incoming: WrapperTable, table: WrapperTable, trace: seq<Step>, f: Func, cache: bool,
                     trace': seq<Step>, last: Step)
    requires WellFormed(table) && CacheInv(incoming, table, trace) && UseStep(table, trace, f, cache, trace', last)
    requires last.callee.Cached?
    ensures var w := last.callee.w;
      var k := |trace'| - 1;
      var T := UseCache(table, f, cache).1 + last.adopted;
      && w.original in T && T[w.original] == w
      && ((w.original in incoming && incoming[w.original] == w) || Wrapped(w) in trace'[..k] || AdoptedIn(w, trace'[..k]))
  {
    var w := last.callee.w;
    var k := |trace'| - 1;
    var pre := trace'[..k];
    assert pre[..|trace|] == trace;
    if f.id in table {
      if f.id !in incoming && !(Wrapped(table[f.id]) in trace) {
        var j :| 0 <= j < |trace| && trace[j].Resolved? && f.id in trace[j].adopted && trace[j].adopted[f.id] == table[f.id];
        assert pre[j] == trace[j];
      } else if f.id !in incoming {
        var j :| 0 <= j < |trace| && trace[j] == Wrapped(table[f.id]);
        assert pre[j] == trace[j];
      }
    } else {
      assert pre[|trace|] == Wrapped(w);
    }
  }

  lemma {:induction false} DepsFromKeepsCache(incoming: WrapperTable, deps: seq<Depend>, i: nat, st: St, oracle: Oracle)
    requires i <= |deps| && WellFormed(st.table) && CacheInv(incoming, st.table, st.trace)
    ensures var ph := DepsFrom(deps, i, st, oracle);
      CacheInv(incoming, ph.st.table, ph.st.trace)
    decreases |deps| - i
  {
    if i < |deps| && CallDepend(deps[i], st, oracle).Some? {
      CallDependKeepsCache(incoming, deps[i], st, oracle);
      var st1 := CallDepend(deps[i], st, oracle).value.1;
      if CallDepend(deps[i], st, oracle).value.0 != Tracebacked {
        assert DepsFrom(deps, i, st, oracle) == DepsFrom(deps, i + 1, st1, oracle);
        DepsFromKeepsCache(incoming, deps, i + 1, st1, oracle);
      }
    }
  }

  lemma {:induction false} ParamsFromKeepsCache(incoming: WrapperTable, ps: seq<Param>, i: nat, args: map<string, Value>,
                                                st: St, ev: InternalEvent, extra: map<string, Value>, oracle: Oracle)
    requires i <= |ps| && WellFormed(st.table) && CacheInv(incoming, st.table, st.trace)
    ensures var b := ParamsFrom(ps, i, args, st, ev, extra, oracle);
      CacheInv(incoming, b.st.table, b.st.trace)
    decreases |ps| - i
  {
    if i < |ps| && Admits(ps[i], ev, extra) {
      var args', st' := ParamStep(ps, i, args, st, ev, extra, oracle);
      var v := ParamVerdict(ps[i], ev, extra);
      if v.BindDepend? {
        CallDependKeepsCache(incoming, v.dep, st, oracle);
        assert st' == CallDepend(v.dep, st, oracle).value.1;
      }
      ParamsFromKeepsCache(incoming, ps, i + 1, args', st', ev, extra, oracle);
    }
  }

  /** Entering, leaving and the handler call neither wrap nor call through the executor. */
  lemma ScopedKeepsCache(incoming: WrapperTable, table: WrapperTable, trace: seq<Step>, steps: seq<Step>)
    requires CacheInv(incoming, table, trace)
    requires forall k :: 0 <= k < |steps| ==> Scoped(steps[k])
    ensures CacheInv(incoming, table, trace + steps)
  {
    ScopedKeepsEntries(incoming, table, trace, steps);
    ScopedKeepsWraps(incoming, table, trace, steps);
    ScopedKeepsCalls(incoming, table, trace, steps);
  }

  lemma ScopedKeepsEntries(incoming: WrapperTable, table: WrapperTable, trace: seq<Step>, steps: seq<Step>)
    requires EntriesAccounted(incoming, table, trace)
    ensures EntriesAccounted(incoming, table, trace + steps)
  {
    var t := trace + steps;
    forall g | g in table ensures g in incoming || Wrapped(table[g]) in t || AdoptedIn(table[g], t) {
      if g !in incoming && Wrapped(table[g]) !in trace {
        var w := table[g];
        var k :| 0 <= k < |trace| && trace[k].Resolved? && w.original in trace[k].adopted && trace[k].adopted[w.original] == w;
        assert t[k] == trace[k];
      }
    }
  }

  lemma ScopedKeepsWraps(incoming: WrapperTable, table: WrapperTable, trace: seq<Step>, steps: seq<Step>)
    requires WrapsStored(incoming, table, trace) && AdoptionsStored(incoming, table, trace) && WrapsOnce(trace)
    requires forall k :: 0 <= k < |steps| ==> Scoped(steps[k])
    ensures WrapsStored(incoming, table, trace + steps) && AdoptionsStored(incoming, table, trace + steps)
    ensures WrapsOnce(trace + steps)
  {
    var t := trace + steps;
    assert forall k :: 0 <= k < |trace| ==> t[k] == trace[k];
    assert forall k :: |trace| <= k < |t| ==> t[k] == steps[k - |trace|];
  }

  lemma ScopedKeepsCalls(incoming: WrapperTable, table: WrapperTable, trace: seq<Step>, steps: seq<Step>)
    requires CachedCallsKnown(incoming, table, trace)
    requires forall k :: 0 <= k < |steps| ==> Scoped(steps[k])
    ensures CachedCallsKnown(incoming, table, trace + steps)
  {
    var t := trace + steps;
    assert forall k :: |trace| <= k < |t| ==> t[k] == steps[k - |trace|];
    forall k | 0 <= k < |t| && t[k].Resolved? && t[k].callee.Cached?
      ensures k < |trace| && t[k] == trace[k] && t[..k] == trace[..k]
    {
      assert t[..k] == trace[..k];
    }
  }

  lemma InvokeScopedIsScoped(h: Func, ms: seq<Middleware>, args: map<string, Value>,
                             extra: map<string, Value>, fault: Fault)
    ensures var steps := InvokeScoped(h, ms, args, extra, fault).1;
      forall k :: 0 <= k < |steps| ==> Scoped(steps[k])
  {
    var order := EntryOrder(ms);
    var n := EnteredCount(ms, fault);
    ScopedSteps(h, ms, args, extra, fault);
    BracketInvoked(order[..n], Middle(h, ms, args, extra, fault));
  }

  /**
   * One execution keeps the wrapper table consistent (application.py:180-189, 210-219):
   * every wrapper it was given is still there unchanged, each function is wrapped at
   * most once and only when the table lacks it, a wrapper a nested execution added to the
   * shared table is kept, and every cached call goes through the table's wrapper, found
   * there at the start or built or taken over earlier in the same execution.
   */
  lemma ExecutionKeepsCache(p: ExecutorProtocol, ev: InternalEvent, extra: map<string, Value>,
                            incoming: WrapperTable, oracle: Oracle, fault: Fault)
    requires WellFormed(incoming)
    ensures var out := ExecSpec(p, ev, extra, incoming, oracle, fault);
      CacheInv(incoming, out.table, out.trace)
  {
    var st0 := St(incoming, [], 0);
    DepsFromKeepsCache(incoming, p.dependencies, 0, st0, oracle);
    var ph := DepsFrom(p.dependencies, 0, st0, oracle);
    if ph.Go? {
      ParamsFromKeepsCache(incoming, p.callable.params, 0, map[], ph.st, ev, extra, oracle);
      var b := ParamsFrom(p.callable.params, 0, map[], ph.st, ev, extra, oracle);
      if b.Bound? {
        InvokeScopedIsScoped(p.callable, p.middlewares, b.args, extra, fault);
        ScopedKeepsCache(incoming, b.st.table, b.st.trace, InvokeScoped(p.callable, p.middlewares, b.args, extra, fault).1);
      }
    }
  }

  /**
   * The table starts empty for every dispatched handler (`lru_cache_sets or {}` with no
   * table passed): whatever earlier handlers built is gone, so every cached call of a
   * dispatched handler uses a wrapper built earlier in the same execution or by one of
   * its nested executions, and every wrapper in its final table was built by one of them.
   */
  lemma DispatchStartsFresh(s: Scheduled, oracle: Oracle, fault: Fault)
    ensures var out := ExecSpec(s.handler, s.envelope, map[], map[], oracle, fault);
      && (forall g :: g in out.table ==> Wrapped(out.table[g]) in out.trace || AdoptedIn(out.table[g], out.trace))
      && (forall k :: 0 <= k < |out.trace| && out.trace[k].Resolved? && out.trace[k].callee.Cached? ==>
            Wrapped(out.trace[k].callee.w) in out.trace[..k] || AdoptedIn(out.trace[k].callee.w, out.trace[..k]))
  {
    ExecutionKeepsCache(s.handler, s.envelope, map[], map[], oracle, fault);
  }

  /** Within one execution, every cached call of the same function goes through the same wrapper. */
  lemma OneWrapperPerFunction(p: ExecutorProtocol, ev: InternalEvent, extra: map<string, Value>,
                              incoming: WrapperTable, oracle: Oracle, fault: Fault)
    requires WellFormed(incoming)
    ensures var t := ExecSpec(p, ev, extra, incoming, oracle, fault).trace;
      forall a, b ::
        (&& 0 <= a < |t| && 0 <= b < |t| && t[a].Resolved? && t[b].Resolved?
         && t[a].callee.Cached? && t[b].callee.Cached? && Underlying(t[a].callee) == Underlying(t[b].callee))
        ==> t[a].callee == t[b].callee
  {
    ExecutionKeepsCache(p, ev, extra, incoming, oracle, fault);
  }

  /** How many contexts the exit stack enters before the fault, if any, strikes. */
  function EnteredCount(ms: seq<Middleware>, fault: Fault): (n: nat)
    ensures n <= |EntryOrder(ms)|
  {
    if fault.EnterRaises? && fault.index < |EntryOrder(ms)| then fault.index else |EntryOrder(ms)|
  }

  /**
   * The AsyncExitStack (application.py:235-242) releases exactly what it entered, in
   * reverse, on every path: the steps open with the first `n` contexts of the entry order,
   * end with their exits, the k-th entered being the k-th from the end released, and hold
   * at most the handler call between. The handler is called exactly when every context
   * was entered and run_func accepts the keywords (none both bound and extra, none named
   * `func`, each declared by the handler); a failing entry is reported as such.
   */
  lemma ReleaseMirrorsEntry(h: Func, ms: seq<Middleware>, args: map<string, Value>,
                            extra: map<string, Value>, fault: Fault)
    ensures var (r, steps) := InvokeScoped(h, ms, args, extra, fault);
      var order := EntryOrder(ms);
      var n := EnteredCount(ms, fault);
      && 2 * n <= |steps| <= 2 * n + 1
      && (forall k :: 0 <= k < n ==> steps[k] == Entered(order[k]) && steps[|steps| - 1 - k] == Exited(order[k]))
      && (HasInvoked(steps) <==> n == |order| && KeywordsAccepted(h, args, extra))
      && (HasInvoked(steps) ==> |steps| == 2 * n + 1 && steps[n] == Invoked(h.id, args + extra))
      && (r == Raised(MiddlewareFailed) <==> n < |order|)
      && (r == Completed ==> HasInvoked(steps) && fault != HandlerRaises)
  {
    var order := EntryOrder(ms);
    var n := EnteredCount(ms, fault);
    var middle := Middle(h, ms, args, extra, fault);
    var entered := order[..n];
    ScopedSteps(h, ms, args, extra, fault);
    var steps := InvokeScoped(h, ms, args, extra, fault).1;
    assert steps == EnterSteps(entered) + middle + ExitSteps(ReleaseOrder(entered));
    BracketEnds(entered, middle);
    BracketInvoked(entered, middle);
    assert forall k :: 0 <= k < n ==> entered[k] == order[k];
  }

  /**
   * An extra keyword that names none of the handler's parameters makes run_func raise
   * TypeError: the handler is never called and the execution does not complete.
   */
  lemma UndeclaredKeywordRejected(h: Func, ms: seq<Middleware>, args: map<string, Value>,
                                  extra: map<string, Value>, fault: Fault, k: string)
    requires k in extra && forall j :: 0 <= j < |h.params| ==> h.params[j].name != k
    ensures var (r, steps) := InvokeScoped(h, ms, args, extra, fault);
      !HasInvoked(steps) && r != Completed
  {
    ReleaseMirrorsEntry(h, ms, args, extra, fault);
    assert k !in ParamNames(h);
  }

  /** The handler call between the entries and the exits, if it happens. */
  function Middle(h: Func, ms: seq<Middleware>, args: map<string, Value>, extra: map<string, Value>, fault: Fault): (r: seq<Step>)
    ensures |r| <= 1 && forall k :: 0 <= k < |r| ==> r[k] == Invoked(h.id, args + extra)
    ensures r != [] <==> EnteredCount(ms, fault) == |EntryOrder(ms)| && KeywordsAccepted(h, args, extra)
  {
    if EnteredCount(ms, fault) == |EntryOrder(ms)| && KeywordsAccepted(h, args, extra) then [Invoked(h.id, args + extra)] else []
  }

  /** The steps and the result of the exit-stack block, in terms of the contexts it entered. */
  lemma ScopedSteps(h: Func, ms: seq<Middleware>, args: map<string, Value>, extra: map<string, Value>, fault: Fault)
    ensures var order := EntryOrder(ms);
      var n := EnteredCount(ms, fault);
      var (r, steps) := InvokeScoped(h, ms, args, extra, fault);
      && steps == EnterSteps(order[..n]) + Middle(h, ms, args, extra, fault) + ExitSteps(ReleaseOrder(order[..n]))
      && (r == Raised(MiddlewareFailed) <==> n < |order|)
      && (r == Completed ==> Middle(h, ms, args, extra, fault) != [] && fault != HandlerRaises)
  {
    var order := EntryOrder(ms);
    var n := EnteredCount(ms, fault);
    if n == |order| { assert order[..n] == order; }
  }

  /** Entries first and their exits last, in reverse, around at most one step. */
  lemma BracketEnds(entered: seq<Scope>, middle: seq<Step>)
    requires |middle| <= 1
    ensures var steps := EnterSteps(entered) + middle + ExitSteps(ReleaseOrder(entered));
      var n := |entered|;
      && |steps| == 2 * n + |middle|
      && (forall k :: 0 <= k < n ==> steps[k] == Entered(entered[k]) && steps[|steps| - 1 - k] == Exited(entered[k]))
      && (middle != [] ==> steps[n] == middle[0])
  {
    BracketEntries(entered, middle);
    BracketExits(entered, middle);
  }

  lemma BracketEntries(entered: seq<Scope>, middle: seq<Step>)
    ensures var steps := EnterSteps(entered) + middle + ExitSteps(ReleaseOrder(entered));
      && (forall k :: 0 <= k < |entered| ==> steps[k] == Entered(entered[k]))
      && (middle != [] ==> steps[|entered|] == middle[0])
  {
    var enters := EnterSteps(entered);
    var exits := ExitSteps(ReleaseOrder(entered));
    forall k | 0 <= k < |entered| ensures (enters + middle + exits)[k] == Entered(entered[k]) {
      BracketEntry(enters, middle, exits, k);
    }
  }

  lemma BracketExits(entered: seq<Scope>, middle: seq<Step>)
    ensures var steps := EnterSteps(entered) + middle + ExitSteps(ReleaseOrder(entered));
      forall k :: 0 <= k < |entered| ==> steps[|steps| - 1 - k] == Exited(entered[k])
  {
    var n := |entered|;
    var rel := ReleaseOrder(entered);
    var exits := ExitSteps(rel);
    var enters := EnterSteps(entered);
    forall k | 0 <= k < n ensures (enters + middle + exits)[|enters + middle + exits| - 1 - k] == Exited(entered[k]) {
      BracketExit(enters, middle, exits, n - 1 - k);
      assert rel[n - 1 - k] == entered[k];
    }
  }

  lemma BracketEntry(enters: seq<Step>, middle: seq<Step>, exits: seq<Step>, k: nat)
    requires k < |enters|
    ensures (enters + middle + exits)[k] == enters[k]
  {
  }

  lemma BracketExit(enters: seq<Step>, middle: seq<Step>, exits: seq<Step>, k: nat)
    requires k < |exits|
    ensures var steps := enters + middle + exits;
      steps[|steps| - 1 - (|exits| - 1 - k)] == exits[k]
  {
  }

  /** The only handler call of the bracket is the middle one, and every step is scoped. */
  lemma BracketInvoked(entered: seq<Scope>, middle: seq<Step>)
    requires |middle| <= 1 && forall k :: 0 <= k < |middle| ==> middle[k].Invoked?
    ensures var steps := EnterSteps(entered) + middle + ExitSteps(ReleaseOrder(entered));
      && (HasInvoked(steps) <==> middle != [])
      && (forall k :: 0 <= k < |steps| ==> Scoped(steps[k]))
  {
    var enters := EnterSteps(entered);
    var exits := ExitSteps(ReleaseOrder(entered));
    var steps := enters + middle + exits;
    forall k | 0 <= k < |steps| ensures Scoped(steps[k]) && (steps[k].Invoked? ==> middle != []) {
      if k < |enters| { assert steps[k] == enters[k]; }
      else if k < |enters| + |middle| { assert steps[k] == middle[k - |enters|]; }
      else { assert steps[k] == exits[k - |enters| - |middle|]; }
    }
    if middle != [] {
      assert steps[|enters|] == middle[0];
    }
  }

  /** `if default:` treats a falsy default (0, "", None, ...) as no default at all. */
  lemma FalsyDefaultIsNoDefault(name: string, a: Annotation, ev: InternalEvent, extra: map<string, Value>)
    ensures ParamVerdict(Param(name, a, PlainDefault(false)), ev, extra) == ParamVerdict(Param(name, a, NoDefault), ev, extra)
  {
  }

  /**
   * How the Depend defaults from parameter `i` on were bound: `calls` holds one call step
   * per such parameter, in order, each running that parameter's Depend, and the binding
   * gives the parameter the answer of its own call step, TRACEBACKED included.
   */
  predicate DependsBound(ps: seq<Param>, i: nat, ev: InternalEvent, extra: map<string, Value>,
                         calls: seq<Step>, final: map<string, Value>)
    decreases |ps| - i
  {
    if i >= |ps| then calls == []
    else match ParamVerdict(ps[i], ev, extra)
      case BindDepend(d) =>
        && |calls| >= 1 && Runs(calls[0], d)
        && ps[i].name in final && final[ps[i].name] == calls[0].answer
        && DependsBound(ps, i + 1, ev, extra, calls[1..], final)
      case _ => DependsBound(ps, i + 1, ev, extra, calls, final)
  }

  /**
   * A successful binding from parameter `i` on made exactly one call per Depend default,
   * in parameter order, and bound each such parameter to what its call answered
   * (application.py:206-213): TRACEBACKED stops only the dependency loop, never this one.
   */
  lemma {:induction false} ParamsFromDependValues(ps: seq<Param>, i: nat, args: map<string, Value>, st: St,
                                                  ev: InternalEvent, extra: map<string, Value>, oracle: Oracle)
    requires i <= |ps| && WellFormed(st.table) && DistinctNames(ps)
    requires forall j :: i <= j < |ps| ==> ps[j].name !in args
    ensures var b := ParamsFrom(ps, i, args, st, ev, extra, oracle);
      b.Bound? ==> Prefix(st.trace, b.st.trace) && DependsBound(ps, i, ev, extra, NewCalls(st.trace, b.st.trace), b.args)
    decreases |ps| - i
  {
    ParamsFromExtends(ps, i, args, st, ev, extra, oracle);
    var b := ParamsFrom(ps, i, args, st, ev, extra, oracle);
    if i == |ps| {
      assert b.st.trace[|st.trace|..] == [];
    } else if Admits(ps[i], ev, extra) && b.Bound? {
      var args', st' := ParamStep(ps, i, args, st, ev, extra, oracle);
      forall j | i + 1 <= j < |ps| ensures ps[j].name !in args' {
        assert ps[i].name != ps[j].name;
      }
      ParamsFromDependValues(ps, i + 1, args', st', ev, extra, oracle);
      ParamsFromBindings(ps, i + 1, args', st', ev, extra, oracle);
      var v := ParamVerdict(ps[i], ev, extra);
      if v.BindDepend? {
        var answer := CallDepend(v.dep, st, oracle).value.0;
        assert args'[ps[i].name] == answer;
        DependValueStep(ps, i, ev, extra, v.dep, st, oracle, answer, st', b);
      } else {
        assert st' == st;
      }
    }
  }

  lemma DependValueStep(ps: seq<Param>, i: nat, ev: InternalEvent, extra: map<string, Value>,
                        d: Depend, st: St, oracle: Oracle, answer: Value, st': St, b: Binding)
    requires i < |ps| && WellFormed(st.table) && ParamVerdict(ps[i], ev, extra) == BindDepend(d)
    requires CallDepend(d, st, oracle) == Some((answer, st'))
    requires b.Bound? && Prefix(st'.trace, b.st.trace) && ps[i].name in b.args && b.args[ps[i].name] == answer
    requires DependsBound(ps, i + 1, ev, extra, NewCalls(st'.trace, b.st.trace), b.args)
    ensures Prefix(st.trace, b.st.trace) && DependsBound(ps, i, ev, extra, NewCalls(st.trace, b.st.trace), b.args)
  {
    var last := CallDependCall(d, st, oracle);
    NewCallsSplit(st.trace, st'.trace, b.st.trace);
    DependsBoundCons(ps, i, ev, extra, d, last, NewCalls(st'.trace, b.st.trace), b.args);
  }

  /** The one call step a Depend adds to the trace. */
  lemma CallDependCall(d: Depend, st: St, oracle: Oracle) returns (last: Step)
    requires WellFormed(st.table) && CallDepend(d, st, oracle).Some?
    ensures var (answer, st1) := CallDepend(d, st, oracle).value;
      && Prefix(st.trace, st1.trace) && NewCalls(st.trace, st1.trace) == [last] && Runs(last, d) && last.answer == answer
      && |st1.trace| >= 1 && st1.trace[|st1.trace| - 1] == last
  {
    CallDependShape(d, st, oracle);
    var st1 := CallDepend(d, st, oracle).value.1;
    last := st1.trace[|st1.trace| - 1];
  }

  lemma DependsBoundCons(ps: seq<Param>, i: nat, ev: InternalEvent, extra: map<string, Value>,
                         d: Depend, last: Step, rest: seq<Step>, final: map<string, Value>)
    requires i < |ps| && ParamVerdict(ps[i], ev, extra) == BindDepend(d)
    requires Runs(last, d) && ps[i].name in final && final[ps[i].name] == last.answer
    requires DependsBound(ps, i + 1, ev, extra, rest, final)
    ensures DependsBound(ps, i, ev, extra, [last] + rest, final)
  {
    assert ([last] + rest)[1..] == rest;
  }

  /**
   * Whether binding succeeds, and which error it raises when it does not, never depends
   * on what the dependencies answered: a Depend default answering TRACEBACKED is bound
   * like any other value and the handler is still reached.
   */
  lemma BindingIgnoresAnswers(ps: seq<Param>, i: nat, args: map<string, Value>, st: St,
                              ev: InternalEvent, extra: map<string, Value>, o1: Oracle, o2: Oracle)
    requires i <= |ps| && WellFormed(st.table)
    ensures var b1 := ParamsFrom(ps, i, args, st, ev, extra, o1);
      var b2 := ParamsFrom(ps, i, args, st, ev, extra, o2);
      b1.Bound? == b2.Bound? && (b1.Failed? ==> b1.error == b2.error)
  {
    ParamsFromFailure(ps, i, args, st, ev, extra, o1);
    ParamsFromFailure(ps, i, args, st, ev, extra, o2);
    var b1 := ParamsFrom(ps, i, args, st, ev, extra, o1);
    var b2 := ParamsFrom(ps, i, args, st, ev, extra, o2);
    if b1.Failed? {
      var j1 :| i <= j1 < |ps| && !Admits(ps[j1], ev, extra) && b1.error == FailureOf(ps[j1], ev, extra) &&
                forall q :: i <= q < j1 ==> Admits(ps[q], ev, extra);
      var j2 :| i <= j2 < |ps| && !Admits(ps[j2], ev, extra) && b2.error == FailureOf(ps[j2], ev, extra) &&
                forall q :: i <= q < j2 ==> Admits(ps[q], ev, extra);
      assert j1 == j2;
    }
  }

  /** For instance, a lone Depend default whose call answers TRACEBACKED is bound to it and the handler runs. */
  lemma DependDefaultTracebackedStillBound(oracle: Oracle)
    requires forall n, c, t :: oracle(n, c, t) == (Tracebacked, t)
    ensures var dep := Depend(PlainFunc(Func(1, false, [])), false, []);
      var handler := Func(0, true, [Param("x", Unannotated, DependDefault(dep))]);
      var ev := InternalEvent(Text("Message"), OtherValue(0));
      var out := ExecSpec(ExecutorProtocol(handler, [], []), ev, map[], map[], oracle, NoFault);
      && out.result == Completed
      && out.trace == [Resolved(Raw(Func(1, false, [])), [], Tracebacked, map[]), Invoked(0, map["x" := Tracebacked])]
  {
    var dep := Depend(PlainFunc(Func(1, false, [])), false, []);
    var handler := Func(0, true, [Param("x", Unannotated, DependDefault(dep))]);
    var ev := InternalEvent(Text("Message"), OtherValue(0));
    var st0 := St(map[], [], 0);
    assert ParamVerdict(handler.params[0], ev, map[]) == BindDepend(dep);
    assert Added(map[], map[]) == map[];
    var st1 := CallDepend(dep, st0, oracle).value.1;
    assert st1.trace == [Resolved(Raw(Func(1, false, [])), [], Tracebacked, map[])];
    assert ParamsFrom(handler.params, 0, map[], st0, ev, map[], oracle) == Bound(map["x" := Tracebacked], st1);
    assert EntryOrder([]) == [];
    var sc := InvokeScoped(handler, [], map["x" := Tracebacked], map[], NoFault);
    assert sc.1 == [Invoked(0, map["x" := Tracebacked] + map[])];
    assert map["x" := Tracebacked] + map[] == map["x" := Tracebacked];
  }

  /**
   * The missing import bites on the first cached Depend on a plain function in every
   * dispatched handler, whose table starts empty: as written it raises NameError, where
   * the intended `functools.lru_cache` wrapper would be built and stored.
   */
  lemma LruCacheMissing(table: WrapperTable, f: Func)
    requires WellFormed(table) && f.id !in table && !f.isCoroutine
    ensures UseCacheAsWritten(table, f, true) == Err(LruCacheUndefined)
    ensures var w := Wrapper(f.id, false);
      UseCache(table, f, true) == (Cached(w), table[f.id := w], [Wrapped(w)])
  {
  }
}
