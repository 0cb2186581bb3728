/**
  The expression trees a stage's definition is made of, reduced to what the
  call collector needs: a closed set of node kinds in which a call node carries
  its call type and, for a call to another pipeline stage, that stage's handle.
 */
module Ir {
  import opened Seqs

  /** A stage handle: the identity that `same_as` compares. */
  type StageId = nat

  /** The kinds of call a call node can make; only `Halide` targets a pipeline stage. */
  datatype CallType = Image | Extern | Halide | Intrinsic

  datatype BinOp = Add | Sub | Mul | Div | Min | Max | Lt | Eq

  datatype Expr =
    | IntImm(value: int)
    | Variable(name: string)
    | Cast(typeName: string, operand: Expr)
    | Binary(op: BinOp, a: Expr, b: Expr)
    | Select(condition: Expr, whenTrue: Expr, whenFalse: Expr)
    | Call(callType: CallType, func: StageId, args: seq<Expr>)

  /**
    The stage handles the collector meets in `e`, in the order it meets them:
    a call node's arguments are visited before the node itself, and only
    `Halide` calls contribute their handle.
   */
  function Targets(e: Expr): (ts: seq<StageId>)
    decreases e, 1
  {
    match e
    case IntImm(_) => []
    case Variable(_) => []
    case Cast(_, x) => Targets(x)
    case Binary(_, a, b) => Targets(a) + Targets(b)
    case Select(c, t, f) => Targets(c) + Targets(t) + Targets(f)
    case Call(ct, g, args) => TargetsOfAll(args) + (if ct == Halide then [g] else [])
  }

  /** The handles met while visiting `es` from first to last. */
  function TargetsOfAll(es: seq<Expr>): (ts: seq<StageId>)
    decreases es, 0
  {
    if es == [] then [] else TargetsOfAll(es[..|es| - 1]) + Targets(es[|es| - 1])
  }

  /**
    Reference definition: `e` contains, at any depth, a call node of type
    `Halide` whose target is `v`. Every node kind is looked through, calls
    of the other types included.
   */
  predicate CallsStage(e: Expr, v: StageId)
  {
    match e
    case IntImm(_) => false
    case Variable(_) => false
    case Cast(_, x) => CallsStage(x, v)
    case Binary(_, a, b) => CallsStage(a, v) || CallsStage(b, v)
    case Select(c, t, f) => CallsStage(c, v) || CallsStage(t, v) || CallsStage(f, v)
    case Call(ct, g, args) =>
      (ct == Halide && g == v) || exists i :: 0 <= i < |args| && CallsStage(args[i], v)
  }

  /** Some expression of `es` calls `v`. */
  predicate SomeCallsStage(es: seq<Expr>, v: StageId)
  {
    exists i :: 0 <= i < |es| && CallsStage(es[i], v)
  }

  /** Visiting one more expression meets its handles after the earlier ones. */
  lemma TargetsOfAllSnoc(es: seq<Expr>, e: Expr)
    ensures TargetsOfAll(es + [e]) == TargetsOfAll(es) + Targets(e)
  {
    Snoc(es, e);
  }

  /** Visiting two sequences one after the other meets the handles of both in turn. */
  lemma {:induction false} TargetsOfAllConcat(xs: seq<Expr>, ys: seq<Expr>)
    ensures TargetsOfAll(xs + ys) == TargetsOfAll(xs) + TargetsOfAll(ys)
    decreases |ys|
  {
    if ys == [] {
      AppendEmpty(xs);
    } else {
      var init, last := ys[..|ys| - 1], ys[|ys| - 1];
      AppendLast(xs, ys);
      TargetsOfAllConcat(xs, init);
      TargetsOfAllSnoc(xs + init, last);
      TargetsOfAllSnoc(init, last);
    }
  }

  /** The handles of `es` are those before position `i`, those of `es[i]`, then those after it. */
  lemma TargetsOfAllSplit(es: seq<Expr>, i: int)
    requires 0 <= i < |es|
    ensures TargetsOfAll(es[..i + 1]) == TargetsOfAll(es[..i]) + Targets(es[i])
    ensures TargetsOfAll(es) == TargetsOfAll(es[..i]) + Targets(es[i]) + TargetsOfAll(es[i + 1..])
  {
    SliceAt(es, i);
    TargetsOfAllSnoc(es[..i], es[i]);
    TargetsOfAllConcat(es[..i + 1], es[i + 1..]);
  }

  /** The collector records `v` from `e` exactly when `e` calls stage `v`. */
  lemma {:induction false} TargetsAreCalls(e: Expr, v: StageId)
    ensures v in Targets(e) <==> CallsStage(e, v)
    decreases e, 1
  {
    match e
    case IntImm(_) =>
    case Variable(_) =>
    case Cast(_, x) => TargetsAreCalls(x, v);
    case Binary(_, a, b) =>
      TargetsAreCalls(a, v);
      TargetsAreCalls(b, v);
    case Select(c, t, f) =>
      TargetsAreCalls(c, v);
      TargetsAreCalls(t, v);
      TargetsAreCalls(f, v);
    case Call(ct, g, args) =>
      TargetsOfAllAreCalls(args, v);
  }

  /** The sequence form of `TargetsAreCalls`. */
  lemma {:induction false} TargetsOfAllAreCalls(es: seq<Expr>, v: StageId)
    ensures v in TargetsOfAll(es) <==> SomeCallsStage(es, v)
    decreases es, 0
  {
    if es != [] {
      var init, last := es[..|es| - 1], es[|es| - 1];
      TargetsOfAllAreCalls(init, v);
      TargetsAreCalls(last, v);
      if SomeCallsStage(es, v) {
        var i :| 0 <= i < |es| && CallsStage(es[i], v);
        if i < |es| - 1 {
          assert init[i] == es[i];
        }
      }
      if SomeCallsStage(init, v) {
        var i :| 0 <= i < |init| && CallsStage(init[i], v);
        assert es[i] == init[i];
      }
    }
  }

  /**
    A call of any type other than `Halide` is not recorded, yet the calls
    nested in its arguments still are.
   */
  lemma NonHalideCallLooksThrough(ct: CallType, g: StageId, args: seq<Expr>, v: StageId)
    requires ct != Halide
    ensures v in Targets(Call(ct, g, args)) <==> SomeCallsStage(args, v)
  {
    TargetsOfAllAreCalls(args, v);
  }
}
