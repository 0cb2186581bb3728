/**
  Concrete pipelines that exercise each channel of the collector and both
  modes of the environment builder.
 */
module Scenarios {
  import opened Wrappers
  import opened Ir
  import opened Pipeline
  import opened OneHop
  import opened Closure
  import opened CallGraph

  const X := Variable("x")

  /** A call to stage `g` at `x`. */
  function At(g: StageId): Expr
  {
    Call(Halide, g, [X])
  }

  lemma TargetsAt(g: StageId)
    ensures Targets(At(g)) == [g]
  {
    assert TargetsOfAll([X]) == [];
  }

  /** A stage whose only output expression is `e`. */
  function Pure(name: string, e: Expr): StageDef
  {
    StageDef(name, [e], [], None)
  }

  lemma PureTargets(name: string, e: Expr)
    ensures ExprTargets(Pure(name, e)) == Targets(e)
  {
    assert TargetsOfAll([e]) == TargetsOfAll([]) + Targets(e);
  }

  // out(x) = in_a(x) + in_b(x)

  function OutReg(): Registry
  {
    map[0 := Pure("out", Binary(Add, At(1), At(2))), 1 := Pure("in_a", X), 2 := Pure("in_b", X)]
  }

  /** Both stages of the output expression are collected, and nothing else. */
  lemma OutCallsBothInputs()
    ensures StageResolves(OutReg(), OutReg()[0])
    ensures Collect(OutReg(), OutReg()[0]) == Some(map["in_a" := 1, "in_b" := 2])
  {
    var reg := OutReg();
    TargetsAt(1);
    TargetsAt(2);
    PureTargets("out", Binary(Add, At(1), At(2)));
    assert IncludeAll(reg, map[], [1, 2]) == Some(map["in_a" := 1, "in_b" := 2]) by {
      assert [1, 2][1..] == [2] && [2][1..] == [];
    }
  }

  // hist(clamp(int(src(i)), 0, 255)) += 1 over i in [0, N)

  const Index := Binary(Max, Binary(Min, Cast("int", Call(Halide, 1, [Variable("i")])), IntImm(255)), IntImm(0))

  function HistReg(): Registry
  {
    map[
      0 := StageDef("hist", [IntImm(0)],
             [ReductionDef([Binary(Add, Call(Halide, 0, [Index]), IntImm(1))], [Index],
                           Some([Bound("i", IntImm(0), Variable("N"))]))],
             None),
      1 := Pure("src", X)]
  }

  /**
    The update's index expression brings in `src`, and the update's value
    reads `hist` itself, so the direct calls of `hist` hold `hist` too.
   */
  lemma HistCallsSourceAndItself()
    ensures StageResolves(HistReg(), HistReg()[0])
    ensures Collect(HistReg(), HistReg()[0]) == Some(map["src" := 1, "hist" := 0])
  {
    var reg, d := HistReg(), HistReg()[0];
    HistUpdateTargets();
    assert ReductionsTargets(d.reductions) == [1, 0, 1] by {
      assert ReductionsTargets(d.reductions) == ReductionsTargets([]) + ReductionTargets(d.reductions[0]);
    }
    assert TargetsOfAll(d.values) == [] by {
      assert TargetsOfAll(d.values) == TargetsOfAll([]) + Targets(IntImm(0));
    }
    assert ExprTargets(d) == [1, 0, 1];
    assert IncludeAll(reg, map[], [1, 0, 1]) == Some(map["src" := 1, "hist" := 0]) by {
      assert [1, 0, 1][1..] == [0, 1] && [0, 1][1..] == [1] && [1][1..] == [];
    }
  }

  /** The update meets `src` in its value, then `hist`, then `src` again in its index. */
  lemma HistUpdateTargets()
    ensures ReductionTargets(HistReg()[0].reductions[0]) == [1, 0, 1]
  {
    var r := HistReg()[0].reductions[0];
    assert Targets(Index) == [1] by {
      assert TargetsOfAll([Variable("i")]) == [];
      assert Targets(Call(Halide, 1, [Variable("i")])) == [1];
    }
    assert TargetsOfAll([Index]) == [1] by {
      assert TargetsOfAll([Index]) == TargetsOfAll([]) + Targets(Index);
    }
    assert TargetsOfAll(r.values) == [1, 0] by {
      assert Targets(Call(Halide, 0, [Index])) == [1, 0];
      assert Targets(r.values[0]) == [1, 0] + Targets(IntImm(1));
      assert TargetsOfAll(r.values) == TargetsOfAll([]) + Targets(r.values[0]);
    }
    assert DomainTargets(r.domain.value) == [] by {
      assert DomainTargets(r.domain.value) == DomainTargets([]) + Targets(IntImm(0)) + Targets(Variable("N"));
    }
  }

  // ext is defined externally over stage buf and the scalar 3

  function ExtReg(): Registry
  {
    map[0 := StageDef("ext", [], [], Some([FuncArg(1), ExprArg(IntImm(3))])), 1 := Pure("buf", X)]
  }

  /** The stage argument is collected; the scalar argument is not. */
  lemma ExtCallsBufferOnly()
    ensures StageResolves(ExtReg(), ExtReg()[0])
    ensures Collect(ExtReg(), ExtReg()[0]) == Some(map["buf" := 1])
  {
    var reg, d := ExtReg(), ExtReg()[0];
    var args := [FuncArg(1), ExprArg(IntImm(3))];
    assert ExprTargets(d) == [];
    assert ExternFuncs(args) == [1] by {
      assert args[..1] == [FuncArg(1)] && [FuncArg(1)][..0] == [];
    }
  }

  // two different stages named foo

  function ClashReg(): Registry
  {
    map[
      0 := Pure("top", Binary(Add, At(1), At(2))),
      1 := Pure("foo", X),
      2 := Pure("foo", IntImm(1)),
      3 := StageDef("wrapper", [At(1)], [], Some([FuncArg(2)]))]
  }

  /** Calling two different stages of one name from an expression fails. */
  lemma ExpressionClashFails()
    ensures StageResolves(ClashReg(), ClashReg()[0])
    ensures Collect(ClashReg(), ClashReg()[0]) == None
  {
    var reg := ClashReg();
    TargetsAt(1);
    TargetsAt(2);
    PureTargets("top", Binary(Add, At(1), At(2)));
    assert [1, 2][1..] == [2];
  }

  /** An extern stage argument silently replaces the expression call of the same name. */
  lemma ExternArgumentReplacesCall()
    ensures StageResolves(ClashReg(), ClashReg()[3])
    ensures Collect(ClashReg(), ClashReg()[3]) == Some(map["foo" := 2])
  {
    var reg, d := ClashReg(), ClashReg()[3];
    TargetsAt(1);
    assert ExprTargets(d) == [1] by {
      assert TargetsOfAll(d.values) == TargetsOfAll([]) + Targets(At(1));
    }
    assert IncludeAll(reg, map[], [1]) == Some(map["foo" := 1]) by {
      assert [1][1..] == [];
    }
    assert ExternFuncs([FuncArg(2)]) == [2] by {
      assert [FuncArg(2)][..0] == [];
    }
    assert ExternOverwrite(reg, map["foo" := 1], [2]) == map["foo" := 2] by {
      assert [2][..0] == [];
      assert map["foo" := 1]["foo" := 2] == map["foo" := 2];
    }
  }

  // an extern (non-stage) call wrapping a stage call

  /** A call to a foreign function is not recorded, but the stage call in its argument is. */
  lemma ForeignCallIsLookedThrough()
    ensures Targets(Call(Extern, 7, [At(1)])) == [1]
  {
    TargetsAt(1);
    assert TargetsOfAll([At(1)]) == TargetsOfAll([]) + Targets(At(1));
  }

  /** Collecting from a stage whose one output expression calls `g` alone. */
  lemma CollectSingleCall(reg: Registry, name: string, g: StageId)
    requires g in reg
    ensures StageResolves(reg, Pure(name, At(g)))
    ensures Collect(reg, Pure(name, At(g))) == Some(map[reg[g].name := g])
    ensures Collect(reg, Pure(name, At(g))).value.Values == {g}
  {
    TargetsAt(g);
    PureTargets(name, At(g));
    assert [g][1..] == [];
    assert ExternFuncs(ExternArgsOf(Pure(name, At(g)))) == [];
    assert IncludeAll(reg, map[], [g]) == Some(map[reg[g].name := g]);
    assert map[reg[g].name := g].Values == {g};
  }

  /** Collecting from a stage whose one output expression calls nothing. */
  lemma CollectLeaf(reg: Registry, name: string, e: Expr)
    requires e == X || e == IntImm(1)
    ensures StageResolves(reg, Pure(name, e))
    ensures Collect(reg, Pure(name, e)) == Some(map[])
  {
    PureTargets(name, e);
    assert ExternFuncs(ExternArgsOf(Pure(name, e))) == [];
  }

  /** Binding a fresh key adds its value to the map's values. */
  lemma ValuesInsert(m: Env, k: string, v: StageId)
    requires k !in m
    ensures m[k := v].Values == m.Values + {v}
  {
    var m' := m[k := v];
    forall w | w in m.Values
      ensures w in m'.Values
    {
      var j :| j in m && m[j] == w;
      assert m'[j] == w;
    }
    assert m'[k] == v;
  }

  // c calls b calls a

  function ChainReg(): Registry
  {
    map[0 := Pure("c", At(1)), 1 := Pure("b", At(2)), 2 := Pure("a", X)]
  }

  lemma ChainSteps()
    ensures WellFormed(ChainReg())
    ensures Succ(ChainReg(), 0) == {1} && Succ(ChainReg(), 1) == {2} && Succ(ChainReg(), 2) == {}
  {
    var reg := ChainReg();
    CollectSingleCall(reg, "c", 1);
    CollectSingleCall(reg, "b", 2);
    CollectLeaf(reg, "a", X);
    forall id | id in reg
      ensures StageResolves(reg, reg[id])
    {
      assert id == 0 || id == 1 || id == 2;
    }
  }

  lemma ChainReach()
    ensures WellFormed(ChainReg())
    ensures ReachSet(ChainReg(), 0) == ChainReg().Keys
  {
    ChainClosed();
    ReachSetLeast(ChainReg(), 0, ChainReg().Keys);
    ChainAllReached();
    assert ChainReg().Keys == {0, 1, 2};
  }

  lemma ChainAllReached()
    ensures WellFormed(ChainReg())
    ensures 0 in ReachSet(ChainReg(), 0) && 1 in ReachSet(ChainReg(), 0) && 2 in ReachSet(ChainReg(), 0)
  {
    var reg := ChainReg();
    ChainSteps();
    ReachSetClosed(reg, 0);
    var rs := ReachSet(reg, 0);
    assert Succ(reg, 0) <= rs;
    assert Succ(reg, 1) <= rs;
  }

  lemma ChainClosed()
    ensures WellFormed(ChainReg())
    ensures ClosedUnder(ChainReg(), ChainReg().Keys)
  {
    ChainSteps();
    assert ChainReg().Keys == {0, 1, 2};
  }

  lemma ChainConsistent()
    ensures WellFormed(ChainReg())
    ensures Consistent(ChainReg(), ChainReg().Keys)
  {
    ChainSteps();
    ChainCollects();
    ChainNamesDistinct();
  }

  lemma ChainCollects()
    ensures forall v :: v in ChainReg() ==>
      v in ChainReg() && StageResolves(ChainReg(), ChainReg()[v]) && Collect(ChainReg(), ChainReg()[v]).Some?
  {
    var reg := ChainReg();
    CollectSingleCall(reg, "c", 1);
    CollectSingleCall(reg, "b", 2);
    CollectLeaf(reg, "a", X);
    forall v | v in reg
      ensures v in reg && StageResolves(reg, reg[v]) && Collect(reg, reg[v]).Some?
    {
      if v == 0 {
        assert reg[v] == Pure("c", At(1));
      } else if v == 1 {
        assert reg[v] == Pure("b", At(2));
      } else {
        assert reg[v] == Pure("a", X);
      }
    }
  }

  lemma ChainNamesDistinct()
    ensures forall u, w :: u in ChainReg() && w in ChainReg() && ChainReg()[u].name == ChainReg()[w].name ==> u == w
  {
    var reg := ChainReg();
    assert reg[0].name == "c" && reg[1].name == "b" && reg[2].name == "a";
    assert "c" != "b" && "c" != "a" && "b" != "a" by {
      assert "c"[0] != "b"[0] && "c"[0] != "a"[0] && "b"[0] != "a"[0];
    }
  }

  /** The transitive environment of `c` is the whole chain. */
  method ChainTransitive() returns (ok: bool, env: Env)
    ensures ok && env == ChainEnv()
  {
    ChainReach();
    ChainConsistent();
    ok, env := FindTransitiveCalls(ChainReg(), 0);
    ChainEnvKeyed();
    KeyedEnvDeterminedByValues(ChainReg(), env, ChainEnv());
  }

  function ChainEnv(): Env
  {
    map["c" := 0, "b" := 1, "a" := 2]
  }

  lemma ChainEnvKeyed()
    ensures KeyedByName(ChainReg(), ChainEnv())
    ensures ChainEnv().Values == ChainReg().Keys
  {
    ValuesInsert(map[], "c", 0);
    ValuesInsert(map["c" := 0], "b", 1);
    ValuesInsert(map["c" := 0, "b" := 1], "a", 2);
    assert ChainReg().Keys == {0, 1, 2};
  }

  /** The direct environment of `c` is `b` alone. */
  method ChainDirect() returns (ok: bool, env: Env)
    ensures ok && env == map["b" := 1]
  {
    ChainSteps();
    CollectSingleCall(ChainReg(), "c", 1);
    ok, env := FindDirectCalls(ChainReg(), 0);
  }

  // a stage `foo` that calls a different stage also named `foo`

  function ShadowReg(): Registry
  {
    map[0 := Pure("foo", At(1)), 1 := Pure("foo", X)]
  }

  lemma ShadowWellFormed()
    ensures WellFormed(ShadowReg())
  {
    var reg := ShadowReg();
    CollectSingleCall(reg, "foo", 1);
    CollectLeaf(reg, "foo", X);
    forall id | id in reg
      ensures StageResolves(reg, reg[id])
    {
      assert id == 0 || id == 1;
    }
  }

  /**
    The direct calls of `foo` hold the root's name, but bound to the other
    stage of that name rather than to the root.
   */
  method ShadowDirect() returns (ok: bool, env: Env)
    ensures ok && env == map["foo" := 1] && 0 !in env.Values
  {
    ShadowWellFormed();
    CollectSingleCall(ShadowReg(), "foo", 1);
    ok, env := FindDirectCalls(ShadowReg(), 0);
  }

  // A and B call each other

  function MutualReg(): Registry
  {
    map[0 := Pure("A", At(1)), 1 := Pure("B", At(0))]
  }

  lemma MutualSteps()
    ensures WellFormed(MutualReg())
    ensures Succ(MutualReg(), 0) == {1} && Succ(MutualReg(), 1) == {0}
  {
    var reg := MutualReg();
    CollectSingleCall(reg, "A", 1);
    CollectSingleCall(reg, "B", 0);
    forall id | id in reg
      ensures StageResolves(reg, reg[id])
    {
      assert id == 0 || id == 1;
    }
  }

  lemma MutualReach()
    ensures WellFormed(MutualReg())
    ensures ReachSet(MutualReg(), 0) == MutualReg().Keys
  {
    var reg := MutualReg();
    MutualSteps();
    assert reg.Keys == {0, 1};
    assert ClosedUnder(reg, reg.Keys);
    ReachSetLeast(reg, 0, reg.Keys);
    ReachSetClosed(reg, 0);
    assert 1 in ReachSet(reg, 0) by { assert Succ(reg, 0) <= ReachSet(reg, 0); }
  }

  lemma MutualConsistent()
    ensures WellFormed(MutualReg())
    ensures Consistent(MutualReg(), MutualReg().Keys)
  {
    MutualSteps();
    MutualCollects();
    MutualNamesDistinct();
  }

  lemma MutualCollects()
    ensures forall v :: v in MutualReg() ==>
      StageResolves(MutualReg(), MutualReg()[v]) && Collect(MutualReg(), MutualReg()[v]).Some?
  {
    var reg := MutualReg();
    CollectSingleCall(reg, "A", 1);
    CollectSingleCall(reg, "B", 0);
    forall v | v in reg
      ensures StageResolves(reg, reg[v]) && Collect(reg, reg[v]).Some?
    {
      if v == 0 {
        assert reg[v] == Pure("A", At(1));
      } else {
        assert reg[v] == Pure("B", At(0));
      }
    }
  }

  lemma MutualNamesDistinct()
    ensures forall u, w :: u in MutualReg() && w in MutualReg() && MutualReg()[u].name == MutualReg()[w].name ==> u == w
  {
    var reg := MutualReg();
    assert reg[0].name == "A" && reg[1].name == "B";
    assert "A" != "B" by {
      assert "A"[0] != "B"[0];
    }
  }

  /** The cycle terminates, and each of the two stages appears once. */
  method MutualTransitive() returns (ok: bool, env: Env)
    ensures ok && env == MutualEnv()
  {
    MutualReach();
    MutualConsistent();
    ok, env := FindTransitiveCalls(MutualReg(), 0);
    MutualEnvKeyed();
    KeyedEnvDeterminedByValues(MutualReg(), env, MutualEnv());
  }

  function MutualEnv(): Env
  {
    map["A" := 0, "B" := 1]
  }

  lemma MutualEnvKeyed()
    ensures KeyedByName(MutualReg(), MutualEnv())
    ensures MutualEnv().Values == MutualReg().Keys
  {
    ValuesInsert(map[], "A", 0);
    ValuesInsert(map["A" := 0], "B", 1);
    assert MutualReg().Keys == {0, 1};
  }

  // top calls mid and foo; mid calls a different stage also named foo

  function DeepClashReg(): Registry
  {
    map[
      0 := Pure("top", Binary(Add, At(1), At(2))),
      1 := Pure("mid", At(3)),
      2 := Pure("foo", X),
      3 := Pure("foo", IntImm(1))]
  }

  lemma DeepClashTop()
    ensures StageResolves(DeepClashReg(), DeepClashReg()[0])
    ensures Collect(DeepClashReg(), DeepClashReg()[0]) == Some(map["mid" := 1, "foo" := 2])
  {
    var reg := DeepClashReg();
    TargetsAt(1);
    TargetsAt(2);
    PureTargets("top", Binary(Add, At(1), At(2)));
    assert IncludeAll(reg, map[], [1, 2]) == Some(map["mid" := 1, "foo" := 2]) by {
      assert [1, 2][1..] == [2] && [2][1..] == [];
    }
    assert ExternFuncs(ExternArgsOf(reg[0])) == [];
  }

  lemma DeepClashSteps()
    ensures WellFormed(DeepClashReg())
    ensures Succ(DeepClashReg(), 0) == {1, 2} && Succ(DeepClashReg(), 1) == {3}
  {
    var reg := DeepClashReg();
    DeepClashTop();
    ValuesInsert(map[], "mid", 1);
    ValuesInsert(map["mid" := 1], "foo", 2);
    CollectSingleCall(reg, "mid", 3);
    CollectLeaf(reg, "foo", X);
    CollectLeaf(reg, "foo", IntImm(1));
    forall id | id in reg
      ensures StageResolves(reg, reg[id])
    {
      assert id == 0 || id == 1 || id == 2 || id == 3;
    }
  }

  lemma DeepClashReach()
    ensures WellFormed(DeepClashReg())
    ensures 2 in ReachSet(DeepClashReg(), 0) && 3 in ReachSet(DeepClashReg(), 0)
  {
    var reg := DeepClashReg();
    DeepClashSteps();
    ReachSetClosed(reg, 0);
    var rs := ReachSet(reg, 0);
    assert 1 in rs && 2 in rs by { assert Succ(reg, 0) <= rs; }
    assert 3 in rs by { assert Succ(reg, 1) <= rs; }
  }

  /** Two different stages named `foo` reachable from `top` make the transitive search fail. */
  method DeepClashTransitive() returns (ok: bool, env: Env)
    ensures !ok
  {
    DeepClashReach();
    ok, env := FindTransitiveCalls(DeepClashReg(), 0);
  }
}
