/**
 * AlphaBetaAgent: scalar minimax with an (alpha, beta) window, where None
 * stands for minus infinity as alpha and plus infinity as beta. Pruning is
 * strict: a max node stops once its value exceeds beta, a min node once its
 * value falls below alpha. What comes back is related to the true minimax
 * value as in fail-soft alpha-beta: exact inside the window, and on the
 * correct side of the window, no further out than the true value, outside it.
 */
module AlphaBeta {
  import opened Wrappers
  import opened Game
  import Minimax

  /** x is not below the lower end of a window (None: minus infinity). */
  predicate AtLeast(x: int, alpha: Option<int>) {
    alpha.None? || alpha.value <= x
  }

  /** x is not above the upper end of a window (None: plus infinity). */
  predicate AtMost(x: int, beta: Option<int>) {
    beta.None? || x <= beta.value
  }

  /** The window is not inverted. */
  predicate Ordered(alpha: Option<int>, beta: Option<int>) {
    alpha.None? || AtMost(alpha.value, beta)
  }

  /**
   * r is what a fail-soft search with window (alpha, beta) may return for a
   * node whose minimax value is m: m itself when m lies in the window; a
   * value in [m, alpha) when m is below the window; a value in (beta, m]
   * when m is above it.
   */
  predicate WindowAgrees(m: int, alpha: Option<int>, beta: Option<int>, r: int) {
    && (AtLeast(m, alpha) && AtMost(m, beta) ==> r == m)
    && (alpha.Some? && m < alpha.value ==> m <= r < alpha.value)
    && (beta.Some? && m > beta.value ==> beta.value < r <= m)
  }

  /** `alpha = v if alpha is None else max(alpha, v)` */
  function Raise(alpha: Option<int>, v: int): (a: Option<int>)
    ensures a.Some? && v <= a.value && AtLeast(a.value, alpha)
    ensures a.value == v || (alpha.Some? && a.value == alpha.value)
  {
    if alpha.None? then Some(v) else Some(if v > alpha.value then v else alpha.value)
  }

  /** `beta = v if beta is None else min(beta, v)` */
  function Lower(beta: Option<int>, v: int): (b: Option<int>)
    ensures b.Some? && b.value <= v && AtMost(b.value, beta)
    ensures b.value == v || (beta.Some? && b.value == beta.value)
  {
    if beta.None? then Some(v) else Some(if v < beta.value then v else beta.value)
  }

  /** With the open window the search is exact. */
  lemma OpenWindowIsExact(m: int, r: int)
    requires WindowAgrees(m, None, None, r)
    ensures r == m
  {
  }

  /**
   * The state of a max node's loop after k children, whose true values are
   * values[..k]: v is None before the first child, and afterwards the true
   * maximum so far lies at or below beta (there was no cut) and v relates
   * to it as a fail-soft search of window (alpha, beta) would.
   */
  ghost predicate MaxLoop(alpha: Option<int>, beta: Option<int>, values: seq<int>, k: nat, v: Option<int>)
    requires k <= |values|
  {
    && (v.None? <==> k == 0)
    && (k > 0 ==> AtMost(Max(values[..k]), beta) && WindowAgrees(Max(values[..k]), alpha, beta, v.value))
  }

  /** The mirror image of MaxLoop for a min node: the true minimum so far lies at or above alpha. */
  ghost predicate MinLoop(alpha: Option<int>, beta: Option<int>, values: seq<int>, k: nat, v: Option<int>)
    requires k <= |values|
  {
    && (v.None? <==> k == 0)
    && (k > 0 ==> AtLeast(Min(values[..k]), alpha) && WindowAgrees(Min(values[..k]), alpha, beta, v.value))
  }

  /**
   * One child of a max node: it was searched with window (alpha raised to v,
   * beta) and returned r for its true value values[k]. With v' the new
   * running value, either v' exceeds beta and is a fail-high answer for the
   * whole node, or the loop goes on with v' and alpha raised to v'.
   */
  lemma {:induction false} MaxNodeStep(alpha: Option<int>, beta: Option<int>, values: seq<int>, k: nat,
                                       v: Option<int>, r: int, v': Option<int>)
    requires k < |values| && Ordered(alpha, beta) && MaxLoop(alpha, beta, values, k, v)
    requires WindowAgrees(values[k], if k == 0 then alpha else Raise(alpha, v.value), beta, r)
    requires v' == Some(if v.None? || r > v.value then r else v.value)
    ensures if beta.Some? && v'.value > beta.value then WindowAgrees(Max(values), alpha, beta, v'.value)
            else && MaxLoop(alpha, beta, values, k + 1, v')
                 && Ordered(Raise(alpha, v'.value), beta)
                 && (k > 0 ==> Raise(Raise(alpha, v.value), v'.value) == Raise(alpha, v'.value))
  {
    PrefixExtremes(values, k);
  }

  /**
   * One child of a min node: it was searched with window (alpha, beta
   * lowered to v) and returned r for its true value values[k]. Either the
   * new running value is below alpha and is a fail-low answer for the whole
   * node, or the loop goes on with beta lowered to it.
   */
  lemma {:induction false} MinNodeStep(alpha: Option<int>, beta: Option<int>, values: seq<int>, k: nat,
                                       v: Option<int>, r: int, v': Option<int>)
    requires k < |values| && Ordered(alpha, beta) && MinLoop(alpha, beta, values, k, v)
    requires WindowAgrees(values[k], alpha, if k == 0 then beta else Lower(beta, v.value), r)
    requires v' == Some(if v.None? || r < v.value then r else v.value)
    ensures if alpha.Some? && v'.value < alpha.value then WindowAgrees(Min(values), alpha, beta, v'.value)
            else && MinLoop(alpha, beta, values, k + 1, v')
                 && Ordered(alpha, Lower(beta, v'.value))
                 && (k > 0 ==> Lower(Lower(beta, v.value), v'.value) == Lower(beta, v'.value))
  {
    PrefixExtremes(values, k);
  }

  /** Pacman's search agent (agent index 0) with a fixed search depth. */
  class AlphaBetaAgent {
    const depth: nat

    constructor (depth: nat)
      ensures this.depth == depth
    {
      this.depth := depth;
    }

    /**
     * The first of Pacman's legal actions whose value, searched with the
     * open window, is strictly greatest, or None when Pacman has no legal action.
     */
    method GetAction<State(!new), Action>(g: Game<State, Action>, s: State) returns (choice: Option<Action>)
      requires g.WellFormed()
      ensures g.legal(s, 0) == [] ==> choice == None
      ensures g.legal(s, 0) != [] ==> choice == Some(g.legal(s, 0)[FirstBest(RootValues(g, s, depth))])
    {
      var actions := g.legal(s, 0);
      ghost var values := RootValues(g, s, depth);
      var maxAction: Option<Action> := None;
      var maxV: Option<int> := None;
      for k := 0 to |actions|
        invariant maxV.None? <==> k == 0
        invariant maxV.None? ==> maxAction.None?
        invariant k > 0 ==> maxV == Some(values[FirstBest(values[..k])]) && maxAction == Some(actions[FirstBest(values[..k])])
      {
        var result := OptimalValue(g, s, actions[k], depth, 1, None, None);
        OpenWindowIsExact(values[k], result);
        FirstBestStep(values, k);
        if maxV.None? || result > maxV.value {
          maxV := Some(result);
          maxAction := Some(actions[k]);
        }
      }
      assert values[..|actions|] == values;
      choice := maxAction;
    }

    /**
     * optimalValue: the value, searched with window (alpha, beta), of the
     * state reached when the agent before `agent` plays `action` in `s`.
     */
    method OptimalValue<State(!new), Action>(g: Game<State, Action>, s: State, action: Action, depth: nat, agent: nat,
                                             alpha: Option<int>, beta: Option<int>) returns (r: int)
      requires g.WellFormed() && agent < g.numAgents && Ordered(alpha, beta)
      ensures WindowAgrees(Value(g, s, action, depth, agent), alpha, beta, r)
      decreases depth, Rank(g, agent)
    {
      if depth == 0 {
        return GetV(g, s);
      }
      var next := g.successor(s, agent - 1, action);
      if g.isWin(next) || g.isLose(next) {
        return GetV(g, next);
      }
      var actions := g.legal(next, agent);
      var childDepth := NextDepth(depth, agent);
      var childAgent := NextAgent(g, agent);
      ghost var values := ChildValues(g, next, actions, childDepth, childAgent);
      var v: Option<int> := None;
      var a, b := alpha, beta;
      for k := 0 to |actions|
        invariant v.None? <==> k == 0
        invariant agent == 0 ==> b == beta && a == (if k == 0 then alpha else Raise(alpha, v.value))
        invariant agent == 0 ==> MaxLoop(alpha, beta, values, k, v)
        invariant agent != 0 ==> a == alpha && b == (if k == 0 then beta else Lower(beta, v.value))
        invariant agent != 0 ==> MinLoop(alpha, beta, values, k, v)
        invariant Ordered(a, b)
      {
        var result := OptimalValue(g, next, actions[k], childDepth, childAgent, a, b);
        ghost var previous := v;
        if v.None? {
          v := Some(result);
        }
        if agent == 0 {
          v := Some(if result > v.value then result else v.value);
          MaxNodeStep(alpha, beta, values, k, previous, result, v);
          if b.Some? && v.value > b.value {
            return v.value;
          }
          a := Raise(a, v.value);
        } else {
          v := Some(if result < v.value then result else v.value);
          MinNodeStep(alpha, beta, values, k, previous, result, v);
          if a.Some? && v.value < a.value {
            return v.value;
          }
          b := Lower(b, v.value);
        }
      }
      assert values[..|actions|] == values;
      return v.value;
    }

    /** getV: the score of the state, the same number minimax puts at Pacman's entry of its leaf vector. */
    static function GetV<State(!new), Action>(g: Game<State, Action>, s: State): (r: int)
      ensures g.numAgents >= 1 ==> r == Minimax.MinimaxAgent.GetV(g, s)[0]
    {
      ScoreEvaluation(g, s)
    }
  }
}
