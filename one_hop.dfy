/**
  What one run of the call collector over a stage's channels produces, stated
  as functions on values: the identity-checked accumulation of expression
  calls, the unchecked overwrite by extern stage arguments, and their
  combination `Collect`, the one-hop call map of a stage.
 */
module OneHop {
  import opened Wrappers
  import opened Ir
  import opened Pipeline
  import opened Seqs

  /** A map from stage name to stage handle: the collector's `calls` and the environment. */
  type Env = map<string, StageId>

  /** Every entry maps a name to a registered stage of that name. */
  predicate KeyedByName(reg: Registry, m: Env)
  {
    forall k :: k in m ==> m[k] in reg && reg[m[k]].name == k
  }

  /** `m2` keeps every entry of `m1` unchanged. */
  predicate Extends(m1: Env, m2: Env)
  {
    forall k :: k in m1 ==> k in m2 && m2[k] == m1[k]
  }

  /**
    Includes the handles `ts` one by one: a name not yet present is added,
    a name already present must be bound to the same handle, else the
    collection fails.
   */
  function IncludeAll(reg: Registry, calls: Env, ts: seq<StageId>): (r: Option<Env>)
    requires forall v :: v in ts ==> v in reg
    decreases |ts|
  {
    if ts == [] then Some(calls)
    else
      var f := ts[0];
      var n := reg[f].name;
      if n !in calls then IncludeAll(reg, calls[n := f], ts[1..])
      else if calls[n] == f then IncludeAll(reg, calls, ts[1..])
      else None
  }

  /** No handle of `ts` clashes by name with `m` or with another handle of `ts`. */
  predicate Compatible(reg: Registry, m: Env, ts: seq<StageId>)
    requires forall v :: v in ts ==> v in reg
  {
    && (forall v :: v in ts && reg[v].name in m ==> m[reg[v].name] == v)
    && (forall u, w :: u in ts && w in ts && reg[u].name == reg[w].name ==> u == w)
  }

  /**
    Including handles succeeds exactly when they are compatible with what is
    already collected; the result then keeps every earlier entry, binds
    every included handle under its name, and holds nothing else.
   */
  lemma {:induction false} IncludeAllSpec(reg: Registry, m: Env, ts: seq<StageId>)
    requires KeyedByName(reg, m)
    requires forall v :: v in ts ==> v in reg
    ensures IncludeAll(reg, m, ts).Some? <==> Compatible(reg, m, ts)
    ensures IncludeAll(reg, m, ts).Some? ==>
      var r := IncludeAll(reg, m, ts).value;
      && KeyedByName(reg, r)
      && Extends(m, r)
      && (forall v :: v in ts ==> reg[v].name in r && r[reg[v].name] == v)
      && (forall k :: k in r ==> k in m || r[k] in ts)
    decreases |ts|
  {
    if ts != [] {
      var f, rest := ts[0], ts[1..];
      var n := reg[f].name;
      assert ts == [f] + rest;
      assert forall v :: v in ts <==> v == f || v in rest;
      if n !in m {
        IncludeAllSpec(reg, m[n := f], rest);
      } else if m[n] == f {
        IncludeAllSpec(reg, m, rest);
      } else {
        assert !Compatible(reg, m, ts);
      }
    }
  }

  /** Including `s + t` is including `s` and then, if that succeeded, `t`. */
  lemma {:induction false} IncludeAllConcat(reg: Registry, m: Env, s: seq<StageId>, t: seq<StageId>)
    requires forall v :: v in s + t ==> v in reg
    ensures IncludeAll(reg, m, s + t) ==
      match IncludeAll(reg, m, s)
      case None => None
      case Some(m') => IncludeAll(reg, m', t)
    decreases |s|
  {
    if s == [] {
      assert s + t == t;
    } else {
      assert (s + t)[0] == s[0];
      assert (s + t)[1..] == s[1..] + t;
      var n := reg[s[0]].name;
      if n !in m {
        IncludeAllConcat(reg, m[n := s[0]], s[1..], t);
      } else if m[n] == s[0] {
        IncludeAllConcat(reg, m, s[1..], t);
      }
    }
  }

  /** Once including a middle part fails, including the whole sequence fails. */
  lemma IncludeAllFailsWithin(reg: Registry, m: Env, pre: seq<StageId>, x: seq<StageId>, post: seq<StageId>)
    requires forall v :: v in pre + x + post ==> v in reg
    requires IncludeAll(reg, m, pre).Some?
    requires IncludeAll(reg, IncludeAll(reg, m, pre).value, x).None?
    ensures IncludeAll(reg, m, pre + x + post).None?
  {
    IncludeAllConcat(reg, m, pre, x);
    IncludeAllConcat(reg, m, pre + x, post);
  }

  /**
    The extern stage arguments `gs`, written one after the other under their
    names with no identity check: a later argument replaces whatever is bound
    under its name.
   */
  function ExternOverwrite(reg: Registry, m: Env, gs: seq<StageId>): (r: Env)
    requires forall v :: v in gs ==> v in reg
  {
    if gs == [] then m
    else
      var g := gs[|gs| - 1];
      ExternOverwrite(reg, m, gs[..|gs| - 1])[reg[g].name := g]
  }

  /** Taking one more extern argument writes it over the map if it is a stage argument. */
  lemma ExternOverwriteNext(reg: Registry, m: Env, args: seq<ExternArg>, i: int)
    requires 0 <= i < |args| && ExternResolves(reg, args)
    ensures forall v :: v in ExternFuncs(args[..i]) ==> v in reg
    ensures forall v :: v in ExternFuncs(args[..i + 1]) ==> v in reg
    ensures ExternOverwrite(reg, m, ExternFuncs(args[..i + 1])) ==
      if args[i].FuncArg?
      then ExternOverwrite(reg, m, ExternFuncs(args[..i]))[reg[args[i].func].name := args[i].func]
      else ExternOverwrite(reg, m, ExternFuncs(args[..i]))
  {
    ExternFuncsLast(args, i);
    assert ExternResolves(reg, args[..i + 1]);
    ExternFuncsResolve(reg, args[..i + 1]);
    var gs := ExternFuncs(args[..i]);
    if args[i].FuncArg? {
      ExternOverwriteLast(reg, m, gs, args[i].func);
    } else {
      AppendEmpty(gs);
    }
  }

  lemma ExternFuncsLast(args: seq<ExternArg>, i: int)
    requires 0 <= i < |args|
    ensures ExternFuncs(args[..i + 1]) ==
      ExternFuncs(args[..i]) + (if args[i].FuncArg? then [args[i].func] else [])
  {
    SliceAt(args, i);
  }

  lemma ExternOverwriteLast(reg: Registry, m: Env, gs: seq<StageId>, g: StageId)
    requires forall v :: v in gs + [g] ==> v in reg
    ensures forall v :: v in gs ==> v in reg
    ensures ExternOverwrite(reg, m, gs + [g]) == ExternOverwrite(reg, m, gs)[reg[g].name := g]
  {
    Snoc(gs, g);
    assert forall v :: v in gs ==> v in gs + [g];
  }

  /** `i` is the last position of `gs` whose stage has the name of `gs[i]`. */
  predicate LastOfName(reg: Registry, gs: seq<StageId>, i: int)
    requires forall v :: v in gs ==> v in reg
  {
    0 <= i < |gs| && forall j :: i < j < |gs| ==> reg[gs[j]].name != reg[gs[i]].name
  }

  /**
    After the overwrite, every name of an extern stage argument is bound to the
    last argument of that name, whatever was bound to it before, and every
    other entry is kept.
   */
  lemma ExternOverwriteSpec(reg: Registry, m: Env, gs: seq<StageId>)
    requires KeyedByName(reg, m)
    requires forall v :: v in gs ==> v in reg
    ensures var r := ExternOverwrite(reg, m, gs);
      && KeyedByName(reg, r)
      && r.Keys == m.Keys + NamesOf(reg, gs)
      && (forall k :: k in m && k !in NamesOf(reg, gs) ==> r[k] == m[k])
      && (forall g :: g in gs ==> r[reg[g].name] in gs)
      && (forall i :: LastOfName(reg, gs, i) ==> r[reg[gs[i]].name] == gs[i])
  {
    ExternOverwriteKeys(reg, m, gs);
    ExternOverwriteValues(reg, m, gs);
    ExternOverwriteLastWins(reg, m, gs);
  }

  /** The overwrite keeps the map keyed by name, adds the arguments' names and keeps every other entry. */
  lemma {:induction false} ExternOverwriteKeys(reg: Registry, m: Env, gs: seq<StageId>)
    requires KeyedByName(reg, m)
    requires forall v :: v in gs ==> v in reg
    ensures var r := ExternOverwrite(reg, m, gs);
      && KeyedByName(reg, r)
      && r.Keys == m.Keys + NamesOf(reg, gs)
      && (forall k :: k in m && k !in NamesOf(reg, gs) ==> r[k] == m[k])
    decreases |gs|
  {
    if gs != [] {
      var init, g := gs[..|gs| - 1], gs[|gs| - 1];
      AppendLast([], gs);
      ExternOverwriteKeys(reg, m, init);
      assert NamesOf(reg, gs) == NamesOf(reg, init) + {reg[g].name};
    }
  }

  /** Each argument's name ends up bound to one of the arguments. */
  lemma {:induction false} ExternOverwriteValues(reg: Registry, m: Env, gs: seq<StageId>)
    requires forall v :: v in gs ==> v in reg
    ensures var r := ExternOverwrite(reg, m, gs);
      forall g :: g in gs ==> reg[g].name in r && r[reg[g].name] in gs
    decreases |gs|
  {
    if gs != [] {
      var init, g := gs[..|gs| - 1], gs[|gs| - 1];
      AppendLast([], gs);
      ExternOverwriteValues(reg, m, init);
      var r := ExternOverwrite(reg, m, gs);
      assert r == ExternOverwrite(reg, m, init)[reg[g].name := g];
      forall x | x in gs
        ensures reg[x].name in r && r[reg[x].name] in gs
      {
        if x != g && reg[x].name != reg[g].name {
          assert x in init;
        }
      }
    }
  }

  /** The last argument of each name is the one bound under it. */
  lemma {:induction false} ExternOverwriteLastWins(reg: Registry, m: Env, gs: seq<StageId>)
    requires forall v :: v in gs ==> v in reg
    ensures var r := ExternOverwrite(reg, m, gs);
      forall i :: LastOfName(reg, gs, i) ==> reg[gs[i]].name in r && r[reg[gs[i]].name] == gs[i]
    decreases |gs|
  {
    if gs != [] {
      var init, g := gs[..|gs| - 1], gs[|gs| - 1];
      AppendLast([], gs);
      ExternOverwriteLastWins(reg, m, init);
      var r := ExternOverwrite(reg, m, gs);
      assert r == ExternOverwrite(reg, m, init)[reg[g].name := g];
      forall i | LastOfName(reg, gs, i)
        ensures reg[gs[i]].name in r && r[reg[gs[i]].name] == gs[i]
      {
        if i < |gs| - 1 {
          assert init[i] == gs[i];
          assert LastOfName(reg, init, i);
        }
      }
    }
  }

  /** The names of the stages `gs`. */
  function NamesOf(reg: Registry, gs: seq<StageId>): (names: set<string>)
    requires forall v :: v in gs ==> v in reg
  {
    set g | g in gs :: reg[g].name
  }

  /**
    The call map one collector produces for stage `d`: every `Halide` call in
    its output values, its reductions' values and args and its reduction
    domains' bounds, collected with the identity check (`None` when two
    different stages of the same name are called), then every extern stage
    argument written over it.
   */
  function Collect(reg: Registry, d: StageDef): (r: Option<Env>)
    requires StageResolves(reg, d)
    ensures r.Some? ==> KeyedByName(reg, r.value)
  {
    ExternFuncsResolve(reg, ExternArgsOf(d));
    IncludeAllSpec(reg, map[], ExprTargets(d));
    match IncludeAll(reg, map[], ExprTargets(d))
    case None => None
    case Some(m) =>
      ExternOverwriteSpec(reg, m, ExternFuncs(ExternArgsOf(d)));
      Some(ExternOverwrite(reg, m, ExternFuncs(ExternArgsOf(d))))
  }

  lemma ExternFuncsResolve(reg: Registry, args: seq<ExternArg>)
    requires ExternResolves(reg, args)
    ensures forall v :: v in ExternFuncs(args) ==> v in reg
  {
    forall v | v in ExternFuncs(args)
      ensures v in reg
    {
      ExternFuncsAreDeps(args, v);
      var i :| 0 <= i < |args| && args[i] == FuncArg(v);
      assert args[i].FuncArg?;
    }
  }

  /** No two different stages called from `d`'s expression channels share a name. */
  predicate ExprNamesUnique(reg: Registry, d: StageDef)
  {
    forall u, w :: u in reg && w in reg && ExprDependsOn(d, u) && ExprDependsOn(d, w) && reg[u].name == reg[w].name ==> u == w
  }

  /** No two different stages one hop from `d`, through any channel, share a name. */
  predicate NamesUnique(reg: Registry, d: StageDef)
  {
    forall u, w :: u in reg && w in reg && DependsOn(d, u) && DependsOn(d, w) && reg[u].name == reg[w].name ==> u == w
  }

  /**
    The collector fails exactly when two different stages of the same name are
    called from the expression channels; extern stage arguments never make it fail.
   */
  lemma CollectFailsOnNameClash(reg: Registry, d: StageDef)
    requires StageResolves(reg, d)
    ensures Collect(reg, d).Some? <==> ExprNamesUnique(reg, d)
  {
    var ts := ExprTargets(d);
    IncludeAllSpec(reg, map[], ts);
    forall u | u in reg
      ensures u in ts <==> ExprDependsOn(d, u)
    {
      ExprTargetsAreDeps(d, u);
    }
    if !ExprNamesUnique(reg, d) {
      var u, w :| u in reg && w in reg && ExprDependsOn(d, u) && ExprDependsOn(d, w) && reg[u].name == reg[w].name && u != w;
      assert u in ts && w in ts;
    }
  }

  /**
    When the collector succeeds, what it returns is the one-hop call set of
    `d`: every value is a stage `d` depends on, every stage `d` depends on has
    its name bound, and a stage called from an expression channel is the one
    bound under its name unless an extern stage argument of that name replaced it.
   */
  lemma CollectIsOneHop(reg: Registry, d: StageDef)
    requires StageResolves(reg, d)
    requires Collect(reg, d).Some?
    ensures var m := Collect(reg, d).value;
      && (forall k :: k in m ==> DependsOn(d, m[k]))
      && (forall v :: DependsOn(d, v) ==> v in reg && reg[v].name in m)
      && (forall v :: ExprDependsOn(d, v) && (forall g :: g in reg && ExternDependsOn(d, g) ==> reg[g].name != reg[v].name)
            ==> v in reg && m[reg[v].name] == v)
  {
    var ts, gs := ExprTargets(d), ExternFuncs(ExternArgsOf(d));
    ExternFuncsResolve(reg, ExternArgsOf(d));
    IncludeAllSpec(reg, map[], ts);
    var m0 := IncludeAll(reg, map[], ts).value;
    ExternOverwriteSpec(reg, m0, gs);
    var m := Collect(reg, d).value;
    assert m == ExternOverwrite(reg, m0, gs);
    var gnames := set g | g in gs :: reg[g].name;
    forall k | k in m
      ensures DependsOn(d, m[k])
    {
      if k in gnames {
        var g :| g in gs && reg[g].name == k;
        assert m[k] in gs;
        ExternFuncsAreDeps(ExternArgsOf(d), m[k]);
      } else {
        assert m[k] == m0[k] && m0[k] in ts;
        ExprTargetsAreDeps(d, m[k]);
      }
    }
    forall v | DependsOn(d, v)
      ensures v in reg && reg[v].name in m
    {
      DepsResolve(reg, d, v);
      ExprTargetsAreDeps(d, v);
      ExternFuncsAreDeps(ExternArgsOf(d), v);
    }
    forall v | ExprDependsOn(d, v) && (forall g :: g in reg && ExternDependsOn(d, g) ==> reg[g].name != reg[v].name)
      ensures v in reg && m[reg[v].name] == v
    {
      ExprTargetsAreDeps(d, v);
      if reg[v].name in gnames {
        var g :| g in gs && reg[g].name == reg[v].name;
        ExternFuncsAreDeps(ExternArgsOf(d), g);
        assert false;
      }
    }
  }

  /**
    When no two stages one hop from `d` share a name, the collector succeeds
    and its values are exactly the stages `d` depends on.
   */
  lemma CollectExact(reg: Registry, d: StageDef)
    requires StageResolves(reg, d)
    requires NamesUnique(reg, d)
    ensures Collect(reg, d).Some?
    ensures forall v :: v in Collect(reg, d).value.Values <==> DependsOn(d, v)
  {
    CollectFailsOnNameClash(reg, d);
    CollectIsOneHop(reg, d);
    var m := Collect(reg, d).value;
    forall v | DependsOn(d, v)
      ensures v in m.Values
    {
      DepsResolve(reg, d, v);
      var k := reg[v].name;
      assert m[k] in reg && DependsOn(d, m[k]) && reg[m[k]].name == k;
    }
  }

  /**
    An extern stage argument is written over whatever the expression channels
    bound under its name, with no identity check: the last such argument of a
    name is what the collector returns for it.
   */
  lemma ExternArgumentWins(reg: Registry, d: StageDef, i: int)
    requires StageResolves(reg, d)
    requires Collect(reg, d).Some?
    requires (forall v :: v in ExternFuncs(ExternArgsOf(d)) ==> v in reg)
      && LastOfName(reg, ExternFuncs(ExternArgsOf(d)), i)
    ensures var g := ExternFuncs(ExternArgsOf(d))[i];
      reg[g].name in Collect(reg, d).value && Collect(reg, d).value[reg[g].name] == g
  {
    var m0 := IncludeAll(reg, map[], ExprTargets(d)).value;
    IncludeAllSpec(reg, map[], ExprTargets(d));
    ExternOverwriteSpec(reg, m0, ExternFuncs(ExternArgsOf(d)));
  }
}
