/**
 * The two agents side by side: started with the open window (None, None),
 * alpha-beta computes entry 0 of the minimax vector, and both agents choose
 * the same action.
 */
module Agents {
  import opened Wrappers
  import opened Game
  import opened Minimax
  import opened AlphaBeta

  /** For the same state, action and depth, alpha-beta's value is entry 0 of minimax's vector. */
  method SameValue<State(!new), Action>(g: Game<State, Action>, s: State, action: Action, depth: nat)
    returns (vector: seq<int>, value: int)
    requires g.WellFormed()
    ensures ZeroSum(g, vector) && value == vector[0]
  {
    var minimax := new MinimaxAgent(depth);
    var alphaBeta := new AlphaBetaAgent(depth);
    vector := minimax.MaxValue(g, s, action, depth, 1);
    value := alphaBeta.OptimalValue(g, s, action, depth, 1, None, None);
    OpenWindowIsExact(Value(g, s, action, depth, 1), value);
  }

  /** Agents built with the same depth choose the same action, and choose one exactly when Pacman has a legal action. */
  method SameAction<State(!new), Action>(g: Game<State, Action>, s: State, depth: nat)
    returns (byMinimax: Option<Action>, byAlphaBeta: Option<Action>)
    requires g.WellFormed()
    ensures byMinimax == byAlphaBeta
    ensures byMinimax.Some? <==> g.legal(s, 0) != []
    ensures byMinimax.Some? ==> byMinimax.value in g.legal(s, 0)
  {
    var minimax := new MinimaxAgent(depth);
    var alphaBeta := new AlphaBetaAgent(depth);
    byMinimax := minimax.GetAction(g, s);
    byAlphaBeta := alphaBeta.GetAction(g, s);
  }
}
