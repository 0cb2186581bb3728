/**
  A pipeline's stages ("Functions") as seen by the call collector: every stage
  lives in a registry under its handle, and carries its name, its output
  expressions, its reduction (update) definitions and, when it is defined
  externally, its extern arguments.
 */
module Pipeline {
  import opened Wrappers
  import opened Ir
  import opened Seqs

  /** One dimension of a reduction domain: its variable and its min/extent bounds. */
  datatype Bound = Bound(varName: string, min: Expr, extent: Expr)

  /** An update rule: the values it stores, the index expressions it stores them at,
      and the reduction domain it runs over when one is defined. */
  datatype ReductionDef = ReductionDef(values: seq<Expr>, args: seq<Expr>, domain: Option<seq<Bound>>)

  /** An argument of an extern definition; only `FuncArg` refers to another stage. */
  datatype ExternArg =
    | FuncArg(func: StageId)
    | ExprArg(expr: Expr)
    | BufferArg(bufferName: string)
    | ImageParamArg(paramName: string)

  /** A stage's definition; `externArgs` is `Some` exactly when it has an extern definition. */
  datatype StageDef = StageDef(
    name: string,
    values: seq<Expr>,
    reductions: seq<ReductionDef>,
    externArgs: Option<seq<ExternArg>>)

  /** Every stage definition of the pipeline under its handle. */
  type Registry = map<StageId, StageDef>

  function ExternArgsOf(d: StageDef): (args: seq<ExternArg>)
  {
    if d.externArgs.Some? then d.externArgs.value else []
  }

  /** Handles met in the min and then the extent of each bound, first bound first. */
  function DomainTargets(bounds: seq<Bound>): (ts: seq<StageId>)
  {
    if bounds == [] then []
    else
      var b := bounds[|bounds| - 1];
      DomainTargets(bounds[..|bounds| - 1]) + Targets(b.min) + Targets(b.extent)
  }

  /** Handles met in one reduction: its values, its args, then its domain if defined. */
  function ReductionTargets(r: ReductionDef): (ts: seq<StageId>)
  {
    TargetsOfAll(r.values) + TargetsOfAll(r.args)
      + (if r.domain.Some? then DomainTargets(r.domain.value) else [])
  }

  function ReductionsTargets(rs: seq<ReductionDef>): (ts: seq<StageId>)
  {
    if rs == [] then [] else ReductionsTargets(rs[..|rs| - 1]) + ReductionTargets(rs[|rs| - 1])
  }

  /** Handles met in all expression channels of a stage, in the collector's order. */
  function ExprTargets(d: StageDef): (ts: seq<StageId>)
  {
    TargetsOfAll(d.values) + ReductionsTargets(d.reductions)
  }

  /** The stages passed as extern arguments, in argument order; other arguments are skipped. */
  function ExternFuncs(args: seq<ExternArg>): (gs: seq<StageId>)
  {
    if args == [] then []
    else
      var a := args[|args| - 1];
      ExternFuncs(args[..|args| - 1]) + (if a.FuncArg? then [a.func] else [])
  }

  /** Every stage-reference extern argument names a registered stage. */
  predicate ExternResolves(reg: Registry, args: seq<ExternArg>)
  {
    forall i :: 0 <= i < |args| && args[i].FuncArg? ==> args[i].func in reg
  }

  /** Every handle that `d` refers to is registered. */
  predicate StageResolves(reg: Registry, d: StageDef)
  {
    && (forall v :: v in ExprTargets(d) ==> v in reg)
    && ExternResolves(reg, ExternArgsOf(d))
  }

  /** Handles are never dangling: every stage's references resolve in the registry. */
  predicate WellFormed(reg: Registry)
  {
    forall id :: id in reg ==> StageResolves(reg, reg[id])
  }

  /** Reference definitions of "stage `v` is one hop from `d`", channel by channel. */
  predicate DomainDependsOn(bounds: seq<Bound>, v: StageId)
  {
    exists i :: 0 <= i < |bounds| && (CallsStage(bounds[i].min, v) || CallsStage(bounds[i].extent, v))
  }

  predicate ReductionDependsOn(r: ReductionDef, v: StageId)
  {
    || SomeCallsStage(r.values, v)
    || SomeCallsStage(r.args, v)
    || (r.domain.Some? && DomainDependsOn(r.domain.value, v))
  }

  /** `v` is called from an output expression or from a reduction's values, args or bounds. */
  predicate ExprDependsOn(d: StageDef, v: StageId)
  {
    || SomeCallsStage(d.values, v)
    || exists j :: 0 <= j < |d.reductions| && ReductionDependsOn(d.reductions[j], v)
  }

  /** `v` is passed to `d`'s extern definition as a stage argument. */
  predicate ExternDependsOn(d: StageDef, v: StageId)
  {
    var args := ExternArgsOf(d);
    exists i :: 0 <= i < |args| && args[i] == FuncArg(v)
  }

  predicate DependsOn(d: StageDef, v: StageId)
  {
    ExprDependsOn(d, v) || ExternDependsOn(d, v)
  }

  lemma DomainTargetsSnoc(bounds: seq<Bound>, b: Bound)
    ensures DomainTargets(bounds + [b]) == DomainTargets(bounds) + Targets(b.min) + Targets(b.extent)
  {
    Snoc(bounds, b);
  }

  lemma {:induction false} DomainTargetsConcat(xs: seq<Bound>, ys: seq<Bound>)
    ensures DomainTargets(xs + ys) == DomainTargets(xs) + DomainTargets(ys)
    decreases |ys|
  {
    if ys == [] {
      AppendEmpty(xs);
    } else {
      var init, last := ys[..|ys| - 1], ys[|ys| - 1];
      AppendLast(xs, ys);
      DomainTargetsConcat(xs, init);
      DomainTargetsSnoc(xs + init, last);
      DomainTargetsSnoc(init, last);
    }
  }

  lemma DomainTargetsSplit(bounds: seq<Bound>, i: int)
    requires 0 <= i < |bounds|
    ensures DomainTargets(bounds[..i + 1]) == DomainTargets(bounds[..i]) + Targets(bounds[i].min) + Targets(bounds[i].extent)
    ensures DomainTargets(bounds) ==
      DomainTargets(bounds[..i]) + Targets(bounds[i].min) + Targets(bounds[i].extent) + DomainTargets(bounds[i + 1..])
  {
    SliceAt(bounds, i);
    DomainTargetsSnoc(bounds[..i], bounds[i]);
    DomainTargetsConcat(bounds[..i + 1], bounds[i + 1..]);
  }

  lemma ReductionsTargetsSnoc(rs: seq<ReductionDef>, r: ReductionDef)
    ensures ReductionsTargets(rs + [r]) == ReductionsTargets(rs) + ReductionTargets(r)
  {
    Snoc(rs, r);
  }

  lemma {:induction false} ReductionsTargetsConcat(xs: seq<ReductionDef>, ys: seq<ReductionDef>)
    ensures ReductionsTargets(xs + ys) == ReductionsTargets(xs) + ReductionsTargets(ys)
    decreases |ys|
  {
    if ys == [] {
      AppendEmpty(xs);
    } else {
      var init, last := ys[..|ys| - 1], ys[|ys| - 1];
      AppendLast(xs, ys);
      ReductionsTargetsConcat(xs, init);
      ReductionsTargetsSnoc(xs + init, last);
      ReductionsTargetsSnoc(init, last);
    }
  }

  lemma ReductionsTargetsSplit(rs: seq<ReductionDef>, j: int)
    requires 0 <= j < |rs|
    ensures ReductionsTargets(rs[..j + 1]) == ReductionsTargets(rs[..j]) + ReductionTargets(rs[j])
    ensures ReductionsTargets(rs) == ReductionsTargets(rs[..j]) + ReductionTargets(rs[j]) + ReductionsTargets(rs[j + 1..])
  {
    SliceAt(rs, j);
    ReductionsTargetsSnoc(rs[..j], rs[j]);
    ReductionsTargetsConcat(rs[..j + 1], rs[j + 1..]);
  }

  lemma {:induction false} DomainTargetsAreDeps(bounds: seq<Bound>, v: StageId)
    ensures v in DomainTargets(bounds) <==> DomainDependsOn(bounds, v)
    decreases |bounds|
  {
    if bounds != [] {
      var init, b := bounds[..|bounds| - 1], bounds[|bounds| - 1];
      DomainTargetsAreDeps(init, v);
      TargetsAreCalls(b.min, v);
      TargetsAreCalls(b.extent, v);
      if DomainDependsOn(bounds, v) {
        var i :| 0 <= i < |bounds| && (CallsStage(bounds[i].min, v) || CallsStage(bounds[i].extent, v));
        if i < |bounds| - 1 {
          assert init[i] == bounds[i];
        }
      }
      if DomainDependsOn(init, v) {
        var i :| 0 <= i < |init| && (CallsStage(init[i].min, v) || CallsStage(init[i].extent, v));
        assert bounds[i] == init[i];
      }
    }
  }

  lemma ReductionTargetsAreDeps(r: ReductionDef, v: StageId)
    ensures v in ReductionTargets(r) <==> ReductionDependsOn(r, v)
  {
    TargetsOfAllAreCalls(r.values, v);
    TargetsOfAllAreCalls(r.args, v);
    if r.domain.Some? {
      DomainTargetsAreDeps(r.domain.value, v);
    }
  }

  lemma {:induction false} ReductionsTargetsAreDeps(rs: seq<ReductionDef>, v: StageId)
    ensures v in ReductionsTargets(rs) <==> exists j :: 0 <= j < |rs| && ReductionDependsOn(rs[j], v)
    decreases |rs|
  {
    if rs != [] {
      var init, r := rs[..|rs| - 1], rs[|rs| - 1];
      ReductionsTargetsAreDeps(init, v);
      ReductionTargetsAreDeps(r, v);
      if exists j :: 0 <= j < |rs| && ReductionDependsOn(rs[j], v) {
        var j :| 0 <= j < |rs| && ReductionDependsOn(rs[j], v);
        if j < |rs| - 1 {
          assert init[j] == rs[j];
        }
      }
      if exists j :: 0 <= j < |init| && ReductionDependsOn(init[j], v) {
        var j :| 0 <= j < |init| && ReductionDependsOn(init[j], v);
        assert rs[j] == init[j];
      }
    }
  }

  /** `ExternFuncs` keeps exactly the stage-reference arguments. */
  lemma {:induction false} ExternFuncsAreDeps(args: seq<ExternArg>, v: StageId)
    ensures v in ExternFuncs(args) <==> exists i :: 0 <= i < |args| && args[i] == FuncArg(v)
    decreases |args|
  {
    if args != [] {
      var init := args[..|args| - 1];
      ExternFuncsAreDeps(init, v);
      if exists i :: 0 <= i < |args| && args[i] == FuncArg(v) {
        var i :| 0 <= i < |args| && args[i] == FuncArg(v);
        if i < |args| - 1 {
          assert init[i] == args[i];
        }
      }
      if exists i :: 0 <= i < |init| && init[i] == FuncArg(v) {
        var i :| 0 <= i < |init| && init[i] == FuncArg(v);
        assert args[i] == init[i];
      }
    }
  }

  /** Every stage a well-formed registry's stage depends on is registered. */
  lemma DepsResolve(reg: Registry, d: StageDef, v: StageId)
    requires StageResolves(reg, d) && DependsOn(d, v)
    ensures v in reg
  {
    ExprTargetsAreDeps(d, v);
    if !ExprDependsOn(d, v) {
      var args := ExternArgsOf(d);
      var i :| 0 <= i < |args| && args[i] == FuncArg(v);
      assert args[i].FuncArg?;
    }
  }

  /**
    The handles the collector meets in a stage's expression channels are
    exactly the stages those channels call.
   */
  lemma ExprTargetsAreDeps(d: StageDef, v: StageId)
    ensures v in ExprTargets(d) <==> ExprDependsOn(d, v)
  {
    TargetsOfAllAreCalls(d.values, v);
    ReductionsTargetsAreDeps(d.reductions, v);
  }
}
