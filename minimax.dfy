/**
 * MinimaxAgent: depth-limited minimax over value vectors. Every agent k
 * picks the child vector with the greatest k-th entry, and leaves are
 * vectors whose entry 0 is the score and whose other entries are minus the
 * score, so the ghosts minimise Pacman's score and entry 0 is the scalar
 * minimax value.
 */
module Minimax {
  import opened Wrappers
  import opened Game

  /** A leaf-shaped vector: one entry per agent, each ghost's entry the negation of Pacman's. */
  ghost predicate ZeroSum<State(!new), Action>(g: Game<State, Action>, v: seq<int>) {
    |v| == g.numAgents >= 1 && forall k :: 1 <= k < |v| ==> v[k] == -v[0]
  }

  /** Two zero-sum vectors that agree at any one position are the same vector. */
  lemma ZeroSumDeterminedByEntry<State(!new), Action>(g: Game<State, Action>, v: seq<int>, w: seq<int>, k: nat)
    requires ZeroSum(g, v) && ZeroSum(g, w) && k < |v| && v[k] == w[k]
    ensures v == w
  {
    assert v[0] == w[0];
    assert forall j :: 0 <= j < |v| ==> v[j] == w[j];
  }

  /** Pacman's search agent (agent index 0) with a fixed search depth. */
  class MinimaxAgent {
    const depth: nat

    constructor (depth: nat)
      ensures this.depth == depth
    {
      this.depth := depth;
    }

    /**
     * The first of Pacman's legal actions whose minimax value is strictly
     * greatest, or None when Pacman has no legal action.
     */
    method GetAction<State(!new), Action>(g: Game<State, Action>, s: State) returns (choice: Option<Action>)
      requires g.WellFormed()
      ensures g.legal(s, 0) == [] ==> choice == None
      ensures g.legal(s, 0) != [] ==> choice == Some(g.legal(s, 0)[FirstBest(RootValues(g, s, depth))])
    {
      var actions := g.legal(s, 0);
      ghost var values := RootValues(g, s, depth);
      var maxAction: Option<Action> := None;
      var maxV: Option<int> := None;
      for k := 0 to |actions|
        invariant maxV.None? <==> k == 0
        invariant maxV.None? ==> maxAction.None?
        invariant k > 0 ==> maxV == Some(values[FirstBest(values[..k])]) && maxAction == Some(actions[FirstBest(values[..k])])
      {
        var v := MaxValue(g, s, actions[k], depth, 1);
        var result := v[0];
        FirstBestStep(values, k);
        if maxV.None? || result > maxV.value {
          maxV := Some(result);
          maxAction := Some(actions[k]);
        }
      }
      assert values[..|actions|] == values;
      choice := maxAction;
    }

    /**
     * maxValue: the value vector of the state reached when the agent before
     * `agent` plays `action` in `s`. Its entry 0 is the scalar minimax value.
     */
    method MaxValue<State(!new), Action>(g: Game<State, Action>, s: State, action: Action, depth: nat, agent: nat)
      returns (v: seq<int>)
      requires g.WellFormed() && agent < g.numAgents
      ensures ZeroSum(g, v)
      ensures v[0] == Value(g, s, action, depth, agent)
      decreases depth, Rank(g, agent)
    {
      if depth == 0 {
        return GetV(g, s);
      }
      var next := g.successor(s, agent - 1, action);
      if g.isWin(next) || g.isLose(next) {
        return GetV(g, next);
      }
      var actions := g.legal(next, agent);
      var childDepth := NextDepth(depth, agent);
      var childAgent := NextAgent(g, agent);
      ghost var values := ChildValues(g, next, actions, childDepth, childAgent);
      var best: Option<seq<int>> := None;
      for k := 0 to |actions|
        invariant best.None? <==> k == 0
        invariant best.Some? ==> ZeroSum(g, best.value)
        invariant best.Some? && agent == 0 ==> best.value[0] == Max(values[..k])
        invariant best.Some? && agent != 0 ==> best.value[0] == Min(values[..k])
      {
        var result := MaxValue(g, next, actions[k], childDepth, childAgent);
        assert values[..k + 1][..k] == values[..k];
        if best.None? || result[agent] > best.value[agent] {
          best := Some(result);
        }
      }
      assert values[..|actions|] == values;
      return best.value;
    }

    /** getV: the score at Pacman's entry and minus the score at every ghost's. */
    static function GetV<State(!new), Action>(g: Game<State, Action>, s: State): (v: seq<int>)
      requires g.numAgents >= 1
      ensures ZeroSum(g, v)
      ensures v[0] == ScoreEvaluation(g, s)
    {
      var v := seq(g.numAgents, _ => -1 * ScoreEvaluation(g, s));
      v[0 := -1 * v[0]]
    }
  }
}
