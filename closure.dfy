/**
  The call graph the transitive environment is measured against: a stage's
  successors are the stages its collector returns, reachability is by paths
  along successors, and a set of stages is consistent when every collector
  over it succeeds and no two of its stages share a name.
 */
module Closure {
  import opened Wrappers
  import opened Ir
  import opened Pipeline
  import opened OneHop

  /** The stages the recursion descends into from `v`; none when `v`'s collector fails. */
  function Succ(reg: Registry, v: StageId): (s: set<StageId>)
    requires WellFormed(reg) && v in reg
    ensures forall w :: w in s ==> w in reg
  {
    var c := Collect(reg, reg[v]);
    if c.Some? then c.value.Values else {}
  }

  /** `p` is a non-empty walk along successor edges. */
  ghost predicate IsPath(reg: Registry, p: seq<StageId>)
    requires WellFormed(reg)
  {
    && |p| > 0
    && forall i :: 0 <= i < |p| ==> p[i] in reg && (i + 1 < |p| ==> p[i + 1] in Succ(reg, p[i]))
  }

  ghost predicate Reachable(reg: Registry, root: StageId, v: StageId)
    requires WellFormed(reg)
  {
    exists p :: IsPath(reg, p) && p[0] == root && p[|p| - 1] == v
  }

  /** Every stage reachable from `root`, `root` included. */
  ghost function ReachSet(reg: Registry, root: StageId): (reach: set<StageId>)
    requires WellFormed(reg)
  {
    set v | v in reg && Reachable(reg, root, v)
  }

  /** `s` is a set of registered stages that holds the successors of each of its stages. */
  ghost predicate ClosedUnder(reg: Registry, s: set<StageId>)
    requires WellFormed(reg)
  {
    forall v :: v in s ==> v in reg && Succ(reg, v) <= s
  }

  /** No collector over `s` fails and no two different stages of `s` share a name. */
  ghost predicate Consistent(reg: Registry, s: set<StageId>)
    requires WellFormed(reg) && forall v :: v in s ==> v in reg
  {
    && (forall v :: v in s ==> Collect(reg, reg[v]).Some?)
    && (forall u, w :: u in s && w in s && reg[u].name == reg[w].name ==> u == w)
  }

  /** `v`'s collector succeeds and `env` binds every entry of its call map unchanged. */
  ghost predicate Settled(reg: Registry, env: Env, v: StageId)
    requires WellFormed(reg)
  {
    v in reg && Collect(reg, reg[v]).Some? && Extends(Collect(reg, reg[v]).value, env)
  }

  /** The reachable set contains its root and is closed under successors. */
  lemma ReachSetClosed(reg: Registry, root: StageId)
    requires WellFormed(reg) && root in reg
    ensures root in ReachSet(reg, root)
    ensures ClosedUnder(reg, ReachSet(reg, root))
  {
    assert IsPath(reg, [root]);
    forall v | v in ReachSet(reg, root)
      ensures Succ(reg, v) <= ReachSet(reg, root)
    {
      var p :| IsPath(reg, p) && p[0] == root && p[|p| - 1] == v;
      forall w | w in Succ(reg, v)
        ensures w in ReachSet(reg, root)
      {
        PathExtend(reg, p, w);
      }
    }
  }

  /** A walk followed by one successor edge is a walk. */
  lemma PathExtend(reg: Registry, p: seq<StageId>, w: StageId)
    requires WellFormed(reg) && IsPath(reg, p) && w in Succ(reg, p[|p| - 1])
    ensures IsPath(reg, p + [w]) && (p + [w])[0] == p[0] && (p + [w])[|p|] == w
  {
    var q := p + [w];
    forall i | 0 <= i < |q|
      ensures q[i] in reg && (i + 1 < |q| ==> q[i + 1] in Succ(reg, q[i]))
    {
      if i < |p| {
        assert q[i] == p[i];
        if i + 1 < |p| {
          assert q[i + 1] == p[i + 1];
        }
      }
    }
  }

  /** A walk that starts in a closed set stays in it. */
  lemma {:induction false} PathStaysIn(reg: Registry, p: seq<StageId>, s: set<StageId>)
    requires WellFormed(reg) && IsPath(reg, p) && ClosedUnder(reg, s) && p[0] in s
    ensures p[|p| - 1] in s
    decreases |p|
  {
    if |p| > 1 {
      var q := p[..|p| - 1];
      assert IsPath(reg, q);
      PathStaysIn(reg, q, s);
      assert p[|p| - 1] in Succ(reg, p[|p| - 2]);
    }
  }

  /** The reachable set is the least closed set containing the root. */
  lemma ReachSetLeast(reg: Registry, root: StageId, s: set<StageId>)
    requires WellFormed(reg) && ClosedUnder(reg, s) && root in s
    ensures ReachSet(reg, root) <= s
  {
    forall v | v in ReachSet(reg, root)
      ensures v in s
    {
      var p :| IsPath(reg, p) && p[0] == root && p[|p| - 1] == v;
      PathStaysIn(reg, p, s);
    }
  }

  /** An environment whose every stage is settled is closed under successors. */
  lemma SettledEnvClosed(reg: Registry, env: Env)
    requires WellFormed(reg) && KeyedByName(reg, env)
    requires forall k :: k in env ==> Settled(reg, env, env[k])
    ensures ClosedUnder(reg, env.Values)
  {
    forall v | v in env.Values
      ensures v in reg && Succ(reg, v) <= env.Values
    {
      var k :| k in env && env[k] == v;
      assert Settled(reg, env, v);
      var c := Collect(reg, reg[v]).value;
      forall w | w in Succ(reg, v)
        ensures w in env.Values
      {
        var j :| j in c && c[j] == w;
        assert env[j] == w;
      }
    }
  }

  /**
    Two environments keyed by name that hold the same stages are equal: the
    environment does not depend on the order in which it was filled.
   */
  lemma KeyedEnvDeterminedByValues(reg: Registry, e1: Env, e2: Env)
    requires KeyedByName(reg, e1) && KeyedByName(reg, e2)
    requires e1.Values == e2.Values
    ensures e1 == e2
  {
    forall k | k in e1
      ensures k in e2 && e2[k] == e1[k]
    {
      var v := e1[k];
      assert v in e2.Values;
      var j :| j in e2 && e2[j] == v;
    }
    forall k | k in e2
      ensures k in e1
    {
      var v := e2[k];
      assert v in e1.Values;
      var j :| j in e1 && e1[j] == v;
    }
  }
}
