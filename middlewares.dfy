/**
 * sort_middlewares and the order in which the executor's AsyncExitStack enters and
 * releases them: every middleware with `__aenter__` and `__aexit__` goes to the async
 * group and every one with `__enter__` and `__exit__` to the normal group (an object
 * with all four is in both, one with neither in none), each group in input order; the
 * async group is entered first, then the normal group, and the stack releases what it
 * entered in reverse order.
 */
module Middlewares {
  import opened Descriptors

  predicate IsAsyncContext(m: Middleware)
  {
    m.hasAenter && m.hasAexit
  }

  predicate IsSyncContext(m: Middleware)
  {
    m.hasEnter && m.hasExit
  }

  /** `[i for i in ms if hasattr(i, "__aenter__") and hasattr(i, "__aexit__")]`. */
  function AsyncGroup(ms: seq<Middleware>): (r: seq<Middleware>)
    ensures |r| <= |ms|
    ensures forall m :: m in r <==> m in ms && IsAsyncContext(m)
  {
    if |ms| == 0 then []
    else (if IsAsyncContext(ms[0]) then [ms[0]] else []) + AsyncGroup(ms[1..])
  }

  /** `[i for i in ms if hasattr(i, "__enter__") and hasattr(i, "__exit__")]`. */
  function NormalGroup(ms: seq<Middleware>): (r: seq<Middleware>)
    ensures |r| <= |ms|
    ensures forall m :: m in r <==> m in ms && IsSyncContext(m)
  {
    if |ms| == 0 then []
    else (if IsSyncContext(ms[0]) then [ms[0]] else []) + NormalGroup(ms[1..])
  }

  /** The two groups keep input order: grouping a concatenation concatenates the groups. */
  lemma {:induction false} GroupsPreserveOrder(a: seq<Middleware>, b: seq<Middleware>)
    ensures AsyncGroup(a + b) == AsyncGroup(a) + AsyncGroup(b)
    ensures NormalGroup(a + b) == NormalGroup(a) + NormalGroup(b)
  {
    if |a| > 0 {
      assert (a + b)[1..] == a[1..] + b;
      GroupsPreserveOrder(a[1..], b);
    } else {
      assert a + b == b;
    }
  }

  datatype Sorted = Sorted(async: seq<Middleware>, normal: seq<Middleware>)

  function SortMiddlewares(ms: seq<Middleware>): Sorted
  {
    Sorted(AsyncGroup(ms), NormalGroup(ms))
  }

  /** One entered context: the middleware and whether it was entered as an async one. */
  datatype Scope = Scope(m: Middleware, isAsync: bool)

  function AsScopes(ms: seq<Middleware>, isAsync: bool): (r: seq<Scope>)
    ensures |r| == |ms|
    ensures forall i :: 0 <= i < |ms| ==> r[i] == Scope(ms[i], isAsync)
  {
    if |ms| == 0 then [] else [Scope(ms[0], isAsync)] + AsScopes(ms[1..], isAsync)
  }

  /** The order of `enter_async_context` and then `enter_context` calls. */
  function EntryOrder(ms: seq<Middleware>): (r: seq<Scope>)
    ensures |r| == |AsyncGroup(ms)| + |NormalGroup(ms)|
  {
    var sorted := SortMiddlewares(ms);
    AsScopes(sorted.async, true) + AsScopes(sorted.normal, false)
  }

  /**
   * Every async middleware of `ms` is entered, as an async context, before any normal
   * one, and every normal middleware is entered as a sync context; nothing else is.
   */
  lemma EntryOrderShape(ms: seq<Middleware>)
    ensures var r := EntryOrder(ms);
      && (forall i, j :: 0 <= i < j < |r| && r[j].isAsync ==> r[i].isAsync)
      && (forall s :: s in r ==> s.m in ms && (if s.isAsync then IsAsyncContext(s.m) else IsSyncContext(s.m)))
      && (forall m :: m in ms && IsAsyncContext(m) ==> Scope(m, true) in r)
      && (forall m :: m in ms && IsSyncContext(m) ==> Scope(m, false) in r)
  {
    var sorted := SortMiddlewares(ms);
    var front := AsScopes(sorted.async, true);
    var back := AsScopes(sorted.normal, false);
    var r := EntryOrder(ms);
    assert r == front + back;
    forall i, j | 0 <= i < j < |r| && r[j].isAsync ensures r[i].isAsync {
      assert r[i] == front[i];
    }
    forall s | s in r ensures s.m in ms && (if s.isAsync then IsAsyncContext(s.m) else IsSyncContext(s.m)) {
      var i :| 0 <= i < |r| && r[i] == s;
      if i < |front| { assert r[i] == front[i]; assert sorted.async[i] in sorted.async; }
      else { assert r[i] == back[i - |front|]; assert sorted.normal[i - |front|] in sorted.normal; }
    }
    forall m | m in ms && IsAsyncContext(m) ensures Scope(m, true) in r {
      var i :| 0 <= i < |sorted.async| && sorted.async[i] == m;
      assert r[i] == front[i];
    }
    forall m | m in ms && IsSyncContext(m) ensures Scope(m, false) in r {
      var i :| 0 <= i < |sorted.normal| && sorted.normal[i] == m;
      assert r[|front| + i] == back[i];
    }
  }

  /** What the exit stack releases when it closes: the entered scopes, last first. */
  function ReleaseOrder(entered: seq<Scope>): (r: seq<Scope>)
    ensures |r| == |entered|
    ensures forall i :: 0 <= i < |entered| ==> r[i] == entered[|entered| - 1 - i]
  {
    if |entered| == 0 then [] else ReleaseOrder(entered[1..]) + [entered[0]]
  }

  /** Releasing what was released gives back the entry order. */
  lemma ReleaseTwice(entered: seq<Scope>)
    ensures ReleaseOrder(ReleaseOrder(entered)) == entered
  {
  }
}
