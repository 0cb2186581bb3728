/**
  The environment builder: the `FindCalls` visitor that accumulates the
  internal calls of the expressions it visits, `PopulateEnvironment`, which
  runs one visitor over every channel of a stage and then merges its calls
  into the environment (direct mode) or inserts the stage and descends into
  each call (transitive mode), and the two public entry points.

  The source's assertion that a name is never bound to two different stages
  aborts compilation; here each operation returns `ok == false` instead and
  stops at once.
 */
module CallGraph {
  import opened Wrappers
  import opened Ir
  import opened Pipeline
  import opened OneHop
  import opened Closure
  import opened Seqs

  /** Finds all the internal (`Halide`) calls in the expressions it visits. */
  class FindCalls {
    var calls: Env

    constructor ()
      ensures calls == map[]
    {
      calls := map[];
    }

    /**
      Records `f` under its name. A new name gains exactly `name -> f`; a name
      already present leaves `calls` as it was and is accepted only if it is
      bound to `f` itself.
     */
    method IncludeFunction(reg: Registry, f: StageId) returns (ok: bool)
      requires f in reg
      modifies this
      ensures reg[f].name !in old(calls) ==> ok && calls == old(calls)[reg[f].name := f]
      ensures reg[f].name in old(calls) ==> ok == (old(calls)[reg[f].name] == f) && calls == old(calls)
    {
      var name := reg[f].name;
      if name !in calls {
        calls := calls[name := f];
        ok := true;
      } else {
        ok := calls[name] == f;
      }
    }

    /**
      Visits every node of `e`, a call node's arguments before the node, and
      includes the target of each `Halide` call.
     */
    method Visit(reg: Registry, e: Expr) returns (ok: bool)
      requires forall v :: v in Targets(e) ==> v in reg
      modifies this
      ensures ok == IncludeAll(reg, old(calls), Targets(e)).Some?
      ensures ok ==> calls == IncludeAll(reg, old(calls), Targets(e)).value
      decreases e, 1
    {
      match e
      case IntImm(_) =>
        ok := true;
      case Variable(_) =>
        ok := true;
      case Cast(_, x) =>
        ok := Visit(reg, x);
      case Binary(_, a, b) =>
        IncludeAllConcat(reg, calls, Targets(a), Targets(b));
        ok := Visit(reg, a);
        if ok {
          ok := Visit(reg, b);
        }
      case Select(c, t, f) =>
        IncludeAllConcat(reg, calls, Targets(c), Targets(t));
        IncludeAllConcat(reg, calls, Targets(c) + Targets(t), Targets(f));
        ok := Visit(reg, c);
        if ok {
          ok := Visit(reg, t);
          if ok {
            ok := Visit(reg, f);
          }
        }
      case Call(ct, g, args) =>
        var tail := if ct == Halide then [g] else [];
        IncludeAllConcat(reg, calls, TargetsOfAll(args), tail);
        ok := VisitAll(reg, args);
        if ok && ct == Halide {
          ok := IncludeFunction(reg, g);
        }
    }

    /** Visits the expressions of `es` in order, stopping at the first failure. */
    method VisitAll(reg: Registry, es: seq<Expr>) returns (ok: bool)
      requires forall v :: v in TargetsOfAll(es) ==> v in reg
      modifies this
      ensures ok == IncludeAll(reg, old(calls), TargetsOfAll(es)).Some?
      ensures ok ==> calls == IncludeAll(reg, old(calls), TargetsOfAll(es)).value
      decreases es, 0
    {
      ok := true;
      for i := 0 to |es|
        invariant forall v :: v in TargetsOfAll(es[..i]) ==> v in reg
        invariant IncludeAll(reg, old(calls), TargetsOfAll(es[..i])) == Some(calls)
      {
        TargetsOfAllSplit(es, i);
        ghost var done := TargetsOfAll(es[..i]);
        IncludeAllConcat(reg, old(calls), done, Targets(es[i]));
        ok := Visit(reg, es[i]);
        if !ok {
          IncludeAllFailsWithin(reg, old(calls), done, Targets(es[i]), TargetsOfAll(es[i + 1..]));
          return;
        }
      }
      FullSlice(es);
    }

    /** Visits the min and then the extent of each bound, first bound first. */
    method VisitDomain(reg: Registry, bounds: seq<Bound>) returns (ok: bool)
      requires forall v :: v in DomainTargets(bounds) ==> v in reg
      modifies this
      ensures ok == IncludeAll(reg, old(calls), DomainTargets(bounds)).Some?
      ensures ok ==> calls == IncludeAll(reg, old(calls), DomainTargets(bounds)).value
    {
      ok := true;
      for i := 0 to |bounds|
        invariant forall v :: v in DomainTargets(bounds[..i]) ==> v in reg
        invariant IncludeAll(reg, old(calls), DomainTargets(bounds[..i])) == Some(calls)
      {
        ghost var done := DomainTargets(bounds[..i]);
        ghost var rest := DomainTargets(bounds[i + 1..]);
        ghost var min, extent := Targets(bounds[i].min), Targets(bounds[i].extent);
        DomainTargetsSplit(bounds, i);
        assert DomainTargets(bounds) == done + min + (extent + rest);
        IncludeAllConcat(reg, old(calls), done, min);
        ok := Visit(reg, bounds[i].min);
        if !ok {
          IncludeAllFailsWithin(reg, old(calls), done, min, extent + rest);
          return;
        }
        assert DomainTargets(bounds) == (done + min) + extent + rest;
        IncludeAllConcat(reg, old(calls), done + min, extent);
        ok := Visit(reg, bounds[i].extent);
        if !ok {
          IncludeAllFailsWithin(reg, old(calls), done + min, extent, rest);
          return;
        }
      }
      FullSlice(bounds);
    }

    /** Visits a reduction's values, then its args, then its domain if it is defined. */
    method VisitReduction(reg: Registry, r: ReductionDef) returns (ok: bool)
      requires forall v :: v in ReductionTargets(r) ==> v in reg
      modifies this
      ensures ok == IncludeAll(reg, old(calls), ReductionTargets(r)).Some?
      ensures ok ==> calls == IncludeAll(reg, old(calls), ReductionTargets(r)).value
    {
      ghost var vs, ags := TargetsOfAll(r.values), TargetsOfAll(r.args);
      ghost var dom := if r.domain.Some? then DomainTargets(r.domain.value) else [];
      assert ReductionTargets(r) == vs + ags + dom;
      IncludeAllConcat(reg, old(calls), vs, ags + dom);
      assert ReductionTargets(r) == vs + (ags + dom);
      ok := VisitAll(reg, r.values);
      if !ok {
        return;
      }
      IncludeAllConcat(reg, calls, ags, dom);
      ok := VisitAll(reg, r.args);
      if !ok {
        return;
      }
      if r.domain.Some? {
        ok := VisitDomain(reg, r.domain.value);
      }
    }
  }

  /**
    Runs one `FindCalls` over every channel of `d`: its output values; each
    reduction's values, args and, when its domain is defined, each bound's min
    and extent; then writes each extern stage argument into the visitor's
    calls under its name, with no identity check.
   */
  method ScanChannels(reg: Registry, d: StageDef) returns (ok: bool, calls: Env)
    requires StageResolves(reg, d)
    ensures ok == Collect(reg, d).Some?
    ensures ok ==> calls == Collect(reg, d).value
  {
    calls := map[];
    ghost var vs, rs := TargetsOfAll(d.values), ReductionsTargets(d.reductions);
    var finder := new FindCalls();
    IncludeAllConcat(reg, map[], vs, rs);
    ok := finder.VisitAll(reg, d.values);
    if !ok {
      return;
    }
    ok := ScanReductions(finder, reg, d.reductions);
    if !ok {
      return;
    }
    ghost var collected := finder.calls;
    IncludeAllSpec(reg, map[], ExprTargets(d));
    ExternFuncsResolve(reg, ExternArgsOf(d));
    if d.externArgs.Some? {
      ScanExternArgs(finder, reg, d.externArgs.value);
    }
    calls := finder.calls;
  }

  /** Visits every reduction of `rs` in order with `finder`, stopping at the first failure. */
  method ScanReductions(finder: FindCalls, reg: Registry, rs: seq<ReductionDef>) returns (ok: bool)
    requires forall v :: v in ReductionsTargets(rs) ==> v in reg
    modifies finder
    ensures ok == IncludeAll(reg, old(finder.calls), ReductionsTargets(rs)).Some?
    ensures ok ==> finder.calls == IncludeAll(reg, old(finder.calls), ReductionsTargets(rs)).value
  {
    ok := true;
    assert rs[..0] == [];
    for j := 0 to |rs|
      invariant forall v :: v in ReductionsTargets(rs[..j]) ==> v in reg
      invariant IncludeAll(reg, old(finder.calls), ReductionsTargets(rs[..j])) == Some(finder.calls)
    {
      ghost var done := ReductionsTargets(rs[..j]);
      ghost var here, rest := ReductionTargets(rs[j]), ReductionsTargets(rs[j + 1..]);
      ReductionsTargetsSplit(rs, j);
      IncludeAllConcat(reg, old(finder.calls), done, here);
      ok := finder.VisitReduction(reg, rs[j]);
      if !ok {
        IncludeAllFailsWithin(reg, old(finder.calls), done, here, rest);
        return;
      }
    }
    FullSlice(rs);
  }

  /** Writes each stage argument of `args` into `finder`'s calls under its name; other arguments are skipped. */
  method ScanExternArgs(finder: FindCalls, reg: Registry, args: seq<ExternArg>)
    requires ExternResolves(reg, args)
    modifies finder
    ensures forall v :: v in ExternFuncs(args) ==> v in reg
    ensures finder.calls == ExternOverwrite(reg, old(finder.calls), ExternFuncs(args))
  {
    for i := 0 to |args|
      invariant forall v :: v in ExternFuncs(args[..i]) ==> v in reg
      invariant finder.calls == ExternOverwrite(reg, old(finder.calls), ExternFuncs(args[..i]))
    {
      ExternOverwriteNext(reg, old(finder.calls), args, i);
      var arg := args[i];
      if arg.FuncArg? {
        var g := arg.func;
        finder.calls := finder.calls[reg[g].name := g];
      }
    }
    FullSlice(args);
  }

  /** The names of all registered stages. */
  function RegistryNames(reg: Registry): (names: set<string>)
  {
    set id | id in reg :: reg[id].name
  }

  /**
    Adds to `env` what stage `f` calls. A name already in `env` stops the
    descent (failing if it is bound to another stage). Otherwise one visitor
    collects `f`'s calls; in direct mode they are merged into `env` without
    replacing existing entries, in transitive mode `f` is inserted first and
    every collected stage is populated in turn, always transitively.

    The ghost `scope` is any closed set of stages holding `f` and `env`'s
    stages: in transitive mode the stages added stay inside it, and a failure
    means it has a name clash or a failing collector.
   */
  method PopulateEnvironment(reg: Registry, f: StageId, env: Env, recursive: bool, ghost scope: set<StageId>)
    returns (ok: bool, env': Env)
    requires WellFormed(reg) && f in reg && KeyedByName(reg, env)
    requires recursive ==> f in scope && ClosedUnder(reg, scope) && env.Values <= scope
    ensures ok ==> KeyedByName(reg, env') && Extends(env, env')
    ensures reg[f].name in env ==> ok == (env[reg[f].name] == f) && env' == env
    ensures reg[f].name !in env && !recursive ==>
      ok == Collect(reg, reg[f]).Some? && (ok ==> env' == Collect(reg, reg[f]).value + env)
    ensures reg[f].name !in env && !recursive && ok ==>
      && env'.Keys == env.Keys + Collect(reg, reg[f]).value.Keys
      && forall k :: k in env' && k !in env ==> env'[k] == Collect(reg, reg[f]).value[k]
    ensures recursive && ok ==> reg[f].name in env' && env'[reg[f].name] == f && Grown(reg, env, env', scope)
    ensures recursive && !ok ==> !Consistent(reg, scope)
    decreases |RegistryNames(reg) - env.Keys|, 2
  {
    var name := reg[f].name;
    if name in env {
      ok := env[name] == f;
      env' := env;
      if recursive {
        assert env[name] in env.Values;
        assert Grown(reg, env, env, scope);
      }
      return;
    }

    var calls;
    ok, calls := ScanChannels(reg, reg[f]);
    if !ok {
      env' := env;
      return;
    }

    if !recursive {
      env' := calls + env;
      return;
    }

    ok, env' := InsertAndDescend(reg, f, calls, env, scope);
  }

  /**
    Transitive mode after a successful scan of `f`: binds `f` under its name,
    then populates each stage `f` calls.
   */
  method InsertAndDescend(reg: Registry, f: StageId, calls: Env, env: Env, ghost scope: set<StageId>)
    returns (ok: bool, env': Env)
    requires WellFormed(reg) && f in reg && KeyedByName(reg, env) && reg[f].name !in env
    requires Collect(reg, reg[f]) == Some(calls)
    requires f in scope && ClosedUnder(reg, scope) && env.Values <= scope
    ensures ok ==> reg[f].name in env' && env'[reg[f].name] == f && Grown(reg, env, env', scope)
    ensures !ok ==> !Consistent(reg, scope)
    decreases |RegistryNames(reg) - env.Keys|, 1
  {
    var inserted := env[reg[f].name := f];
    InsertionReady(reg, f, calls, env, scope);
    ok, env' := PopulateCallees(reg, calls, inserted, scope);
    if ok {
      GrownByInsertion(reg, env, f, calls, env', scope);
    }
  }

  /** Binding a fresh `f` under its name leaves a map ready for the descent into `f`'s calls. */
  lemma InsertionReady(reg: Registry, f: StageId, calls: Env, env: Env, scope: set<StageId>)
    requires WellFormed(reg) && f in reg && KeyedByName(reg, env) && reg[f].name !in env
    requires Collect(reg, reg[f]) == Some(calls)
    requires f in scope && ClosedUnder(reg, scope) && env.Values <= scope
    ensures var inserted := env[reg[f].name := f];
      && KeyedByName(reg, calls) && calls.Values <= scope
      && Grown(reg, inserted, inserted, scope)
      && |RegistryNames(reg) - inserted.Keys| < |RegistryNames(reg) - env.Keys|
  {
    CallsInScope(reg, f, calls, scope);
    InsertedGrown(reg, f, env, scope);
  }

  /** The stages a stage of a closed set calls are in that set. */
  lemma CallsInScope(reg: Registry, f: StageId, calls: Env, scope: set<StageId>)
    requires WellFormed(reg) && f in reg && Collect(reg, reg[f]) == Some(calls)
    requires f in scope && ClosedUnder(reg, scope)
    ensures KeyedByName(reg, calls) && calls.Values <= scope
  {
    assert Succ(reg, f) == calls.Values;
  }

  /** Binding a fresh `f` under its name keeps the map keyed by name and shrinks what is left to visit. */
  lemma InsertedGrown(reg: Registry, f: StageId, env: Env, scope: set<StageId>)
    requires WellFormed(reg) && f in reg && KeyedByName(reg, env) && reg[f].name !in env
    requires f in scope && env.Values <= scope
    ensures var inserted := env[reg[f].name := f];
      && Grown(reg, inserted, inserted, scope)
      && |RegistryNames(reg) - inserted.Keys| < |RegistryNames(reg) - env.Keys|
  {
    var inserted := env[reg[f].name := f];
    assert KeyedByName(reg, inserted);
    UnseenShrinks(reg, env, inserted, reg[f].name);
  }

  /**
    `env'` extends `env` by stages of `scope` only, each of them settled:
    its collector succeeded and all of its calls are bound in `env'`.
   */
  ghost predicate Grown(reg: Registry, env: Env, env': Env, scope: set<StageId>)
    requires WellFormed(reg)
  {
    && KeyedByName(reg, env')
    && Extends(env, env')
    && env'.Values <= scope
    && forall k :: k in env' && k !in env ==> Settled(reg, env', env'[k]) && env'[k] in scope
  }

  lemma GrownTrans(reg: Registry, e1: Env, e2: Env, e3: Env, scope: set<StageId>)
    requires WellFormed(reg) && Grown(reg, e1, e2, scope) && Grown(reg, e2, e3, scope)
    ensures Grown(reg, e1, e3, scope)
  {
    forall k | k in e3 && k !in e1
      ensures Settled(reg, e3, e3[k]) && e3[k] in scope
    {
      if k in e2 {
        SettledMonotone(reg, e2, e3, e2[k]);
      }
    }
  }

  /** Inserting `f` and then settling its calls settles `f` as well. */
  lemma GrownByInsertion(reg: Registry, env: Env, f: StageId, calls: Env, after: Env, scope: set<StageId>)
    requires WellFormed(reg) && f in reg && f in scope && KeyedByName(reg, env) && env.Values <= scope
    requires reg[f].name !in env
    requires Collect(reg, reg[f]) == Some(calls)
    requires Grown(reg, env[reg[f].name := f], after, scope) && Extends(calls, after)
    ensures reg[f].name in after && after[reg[f].name] == f
    ensures Grown(reg, env, after, scope)
  {
    var name := reg[f].name;
    assert Settled(reg, after, f);
    forall k | k in after && k !in env
      ensures Settled(reg, after, after[k]) && after[k] in scope
    {
      if k == name {
        assert after[k] == f;
      }
    }
  }

  /**
    The descent of transitive mode: populates every stage of `calls` into the
    environment in turn, always transitively, stopping at the first failure.
    The order in which the names are taken is left open.
   */
  method PopulateCallees(reg: Registry, calls: Env, env: Env, ghost scope: set<StageId>)
    returns (ok: bool, env': Env)
    requires WellFormed(reg) && KeyedByName(reg, calls) && Grown(reg, env, env, scope)
    requires ClosedUnder(reg, scope) && calls.Values <= scope
    ensures ok ==> Grown(reg, env, env', scope) && Extends(calls, env')
    ensures !ok ==> !Consistent(reg, scope)
    decreases |RegistryNames(reg) - env.Keys| + 1, 0
  {
    ok := true;
    env' := env;
    var pending := calls.Keys;
    while pending != {}
      invariant pending <= calls.Keys
      invariant Grown(reg, env, env', scope)
      invariant Extends(calls - pending, env')
      decreases pending
    {
      var k :| k in pending;
      assert calls[k] in calls.Values;
      UnseenNoMore(reg, env, env');
      var next;
      ok, next := PopulateEnvironment(reg, calls[k], env', true, scope);
      if !ok {
        return;
      }
      GrownTrans(reg, env, env', next, scope);
      ExtendsOneMore(calls, pending, k, env', next);
      env' := next;
      pending := pending - {k};
    }
    assert calls - pending == calls;
  }

  /** Once `k` is bound as in `calls`, one name fewer of `calls` is left to bind. */
  lemma ExtendsOneMore(calls: Env, pending: set<string>, k: string, e: Env, e': Env)
    requires k in calls && k in e' && e'[k] == calls[k]
    requires Extends(calls - pending, e) && Extends(e, e')
    ensures Extends(calls - (pending - {k}), e')
  {
    forall j | j in calls - (pending - {k})
      ensures j in e' && e'[j] == calls[j]
    {
      if j != k {
        assert j in calls - pending;
      }
    }
  }

  /** Extending the environment never adds registered names to visit. */
  lemma UnseenNoMore(reg: Registry, env: Env, env': Env)
    requires KeyedByName(reg, env') && Extends(env, env')
    ensures |RegistryNames(reg) - env'.Keys| <= |RegistryNames(reg) - env.Keys|
  {
    SubsetSize(RegistryNames(reg) - env'.Keys, RegistryNames(reg) - env.Keys);
  }

  /** Inserting a new registered name leaves fewer registered names to visit. */
  lemma UnseenShrinks(reg: Registry, env: Env, env': Env, name: string)
    requires KeyedByName(reg, env) && KeyedByName(reg, env')
    requires name !in env && name in env' && name in RegistryNames(reg)
    requires Extends(env, env')
    ensures |RegistryNames(reg) - env'.Keys| < |RegistryNames(reg) - env.Keys|
  {
    var all := RegistryNames(reg);
    forall k | k in env'
      ensures k in all
    {
      assert reg[env'[k]].name in all;
    }
    var small, large := all - env'.Keys, all - env.Keys;
    assert small <= large - {name};
    SubsetSize(small, large - {name});
  }

  lemma {:induction false} SubsetSize<T>(a: set<T>, b: set<T>)
    requires a <= b
    ensures |a| <= |b|
    decreases |a|
  {
    if a != {} {
      var x :| x in a;
      SubsetSize(a - {x}, b - {x});
    }
  }

  /** A settled stage stays settled when the environment only grows. */
  lemma SettledMonotone(reg: Registry, env: Env, env': Env, v: StageId)
    requires WellFormed(reg) && Settled(reg, env, v) && Extends(env, env')
    ensures Settled(reg, env', v)
  {
  }

  /**
    `find_transitive_calls`: the environment of the root and of everything
    reachable from it. It succeeds exactly when no reachable stage's
    collector fails and no two reachable stages share a name, and then it
    maps each reachable stage's name to that stage and holds nothing else.
   */
  method FindTransitiveCalls(reg: Registry, root: StageId) returns (ok: bool, env: Env)
    requires WellFormed(reg) && root in reg
    ensures ok <==> Consistent(reg, ReachSet(reg, root))
    ensures ok ==> KeyedByName(reg, env) && env.Values == ReachSet(reg, root)
    ensures ok ==> reg[root].name in env && env[reg[root].name] == root
  {
    ghost var reach := ReachSet(reg, root);
    ReachSetClosed(reg, root);
    ok, env := PopulateEnvironment(reg, root, map[], true, reach);
    if ok {
      SettledEnvClosed(reg, env);
      ReachSetLeast(reg, root, env.Values);
      forall v | v in env.Values
        ensures v in reach
      {
        var k :| k in env && env[k] == v;
      }
      forall v | v in reach
        ensures Collect(reg, reg[v]).Some?
      {
        var k :| k in env && env[k] == v;
        assert Settled(reg, env, v);
      }
      forall u, w | u in reach && w in reach && reg[u].name == reg[w].name
        ensures u == w
      {
        var ku :| ku in env && env[ku] == u;
        var kw :| kw in env && env[kw] == w;
      }
    }
  }

  /**
    `find_direct_calls`: the call map of the root's own definition. The
    root's name is a key whenever the root calls a stage of that name; the
    value is the root itself only when the root calls itself, otherwise it
    is the other stage of that name.
   */
  method FindDirectCalls(reg: Registry, root: StageId) returns (ok: bool, env: Env)
    requires WellFormed(reg) && root in reg
    ensures ok == Collect(reg, reg[root]).Some?
    ensures ok ==> env == Collect(reg, reg[root]).value
    ensures ok ==> forall k :: k in env ==> DependsOn(reg[root], env[k])
    ensures ok ==> forall v :: DependsOn(reg[root], v) ==> v in reg && reg[v].name in env
    ensures ok ==> (reg[root].name in env <==>
      exists v :: v in reg && DependsOn(reg[root], v) && reg[v].name == reg[root].name)
  {
    ok, env := PopulateEnvironment(reg, root, map[], false, {});
    if ok {
      CollectIsOneHop(reg, reg[root]);
      if reg[root].name in env {
        assert DependsOn(reg[root], env[reg[root].name]);
      }
    }
  }
}
