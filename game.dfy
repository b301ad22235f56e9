/**
 * The adversarial-search setting of the multi-agent Pacman agents: an
 * abstract game whose agents move in turn (agent 0 is Pacman, agents 1 and
 * up are ghosts), the score evaluation of a state, and scalar depth-limited
 * minimax written as a recursive function. Both agents are checked against
 * this function.
 *
 * A call evaluates "the state reached when the agent before `agent` plays
 * `action` in `s`", exactly as maxValue/optimalValue do: the depth test
 * comes first and looks at `s`, then the move is made, then the terminal
 * test looks at the new state.
 */
module Game {

  /**
   * The game as seen through GameState: the number of agents, the legal
   * actions of an agent, the successor after an agent's move, the win and
   * lose tests, and the score. The mover is an int because the agents pass
   * `agent_index - 1`, which is -1 when agent 0 is about to move.
   */
  datatype Game<!State(!new), !Action> = Game(
    numAgents: nat,
    legal: (State, int) -> seq<Action>,
    successor: (State, int, Action) -> State,
    isWin: State -> bool,
    isLose: State -> bool,
    score: State -> int)
  {
    /** At least one ghost besides Pacman, and every agent has a legal action in every state that is not over. */
    ghost predicate WellFormed() {
      && numAgents >= 2
      && forall s, k :: 0 <= k < numAgents && !isWin(s) && !isLose(s) ==> legal(s, k) != []
    }

    predicate IsTerminal(s: State) {
      isWin(s) || isLose(s)
    }
  }

  /** scoreEvaluationFunction: the evaluation of a state is its score. */
  function ScoreEvaluation<State(!new), Action>(g: Game<State, Action>, s: State): int {
    g.score(s)
  }

  /** The agent whose turn comes after `agent`: (agent + 1) % numAgents. */
  function NextAgent<State(!new), Action>(g: Game<State, Action>, agent: nat): (next: nat)
    requires g.numAgents >= 1 && agent < g.numAgents
    ensures next < g.numAgents
    ensures next == 0 <==> agent == g.numAgents - 1
    ensures next != 0 ==> next == agent + 1
  {
    (agent + 1) % g.numAgents
  }

  /** The depth passed to the children of an agent-`agent` node: one less on Pacman's turn only. */
  function NextDepth(depth: nat, agent: nat): nat
    requires depth > 0
  {
    if agent == 0 then depth - 1 else depth
  }

  /** How far an agent index is from the wrap-around to Pacman; strictly drops from one ghost to the next. */
  function Rank<State(!new), Action>(g: Game<State, Action>, agent: nat): nat
    requires agent < g.numAgents
  {
    if agent == 0 then 0 else g.numAgents - agent
  }

  /** The greatest element of a non-empty sequence. */
  function Max(xs: seq<int>): (m: int)
    requires xs != []
    ensures m in xs
    ensures forall x :: x in xs ==> x <= m
    decreases |xs|
  {
    if |xs| == 1 then xs[0]
    else
      var rest := Max(xs[..|xs| - 1]);
      assert forall x :: x in xs ==> x in xs[..|xs| - 1] || x == xs[|xs| - 1];
      if xs[|xs| - 1] > rest then xs[|xs| - 1] else rest
  }

  /** The least element of a non-empty sequence. */
  function Min(xs: seq<int>): (m: int)
    requires xs != []
    ensures m in xs
    ensures forall x :: x in xs ==> m <= x
    decreases |xs|
  {
    if |xs| == 1 then xs[0]
    else
      var rest := Min(xs[..|xs| - 1]);
      assert forall x :: x in xs ==> x in xs[..|xs| - 1] || x == xs[|xs| - 1];
      if xs[|xs| - 1] < rest then xs[|xs| - 1] else rest
  }

  /** Extending a prefix by one element: the maximum and minimum of the longer prefix, and how they bound the whole sequence. */
  lemma PrefixExtremes(xs: seq<int>, k: nat)
    requires k < |xs|
    ensures Max(xs[..k + 1]) == (if k == 0 || xs[k] > Max(xs[..k]) then xs[k] else Max(xs[..k]))
    ensures Min(xs[..k + 1]) == (if k == 0 || xs[k] < Min(xs[..k]) then xs[k] else Min(xs[..k]))
    ensures Max(xs[..k + 1]) <= Max(xs) && Min(xs) <= Min(xs[..k + 1])
  {
    assert xs[..k + 1][..k] == xs[..k];
    assert Max(xs[..k + 1]) in xs && Min(xs[..k + 1]) in xs;
  }

  /**
   * Scalar depth-limited minimax: the score Pacman can guarantee from the
   * state reached when the agent before `agent` plays `action` in `s`,
   * with `depth` Pacman turns left. Pacman maximises, every ghost minimises.
   */
  function Value<State(!new), Action>(g: Game<State, Action>, s: State, action: Action, depth: nat, agent: nat): int
    requires g.WellFormed() && agent < g.numAgents
    decreases depth, Rank(g, agent), 0
  {
    if depth == 0 then ScoreEvaluation(g, s)
    else
      var next := g.successor(s, agent - 1, action);
      if g.IsTerminal(next) then ScoreEvaluation(g, next)
      else
        var values := ChildValues(g, next, g.legal(next, agent), NextDepth(depth, agent), NextAgent(g, agent));
        if agent == 0 then Max(values) else Min(values)
  }

  /** The values of playing each of `actions` in `s`, in order. */
  function ChildValues<State(!new), Action>(g: Game<State, Action>, s: State, actions: seq<Action>, depth: nat, agent: nat): seq<int>
    requires g.WellFormed() && agent < g.numAgents
    decreases depth, Rank(g, agent), 1
  {
    seq(|actions|, i requires 0 <= i < |actions| => Value(g, s, actions[i], depth, agent))
  }

  /** The values of Pacman's legal actions at the root: each is searched with the first ghost to move next. */
  function RootValues<State(!new), Action>(g: Game<State, Action>, s: State, depth: nat): seq<int>
    requires g.WellFormed()
  {
    ChildValues(g, s, g.legal(s, 0), depth, 1)
  }

  /** The position of the first greatest element: what a scan keeping a strictly better candidate selects. */
  function FirstBest(xs: seq<int>): (i: nat)
    requires xs != []
    ensures i < |xs|
    ensures forall k :: 0 <= k < |xs| ==> xs[k] <= xs[i]
    ensures forall k :: 0 <= k < i ==> xs[k] < xs[i]
    decreases |xs|
  {
    if |xs| == 1 then 0
    else
      var j := FirstBest(xs[..|xs| - 1]);
      if xs[|xs| - 1] > xs[j] then |xs| - 1 else j
  }

  /** Scanning one more element: the first best of the longer prefix is the new element exactly when it beats the old one. */
  lemma FirstBestStep(xs: seq<int>, k: nat)
    requires k < |xs|
    ensures FirstBest(xs[..k + 1]) == (if k == 0 || xs[k] > xs[FirstBest(xs[..k])] then k else FirstBest(xs[..k]))
  {
    assert xs[..k + 1][..k] == xs[..k];
  }

  /**
   * The leaves of the search: with no depth left the value is the score of
   * the state before the move, and a move that ends the game is scored at
   * the state it reaches.
   */
  lemma ValueAtLeaves<State(!new), Action>(g: Game<State, Action>, s: State, action: Action, depth: nat, agent: nat)
    requires g.WellFormed() && agent < g.numAgents
    ensures depth == 0 ==> Value(g, s, action, depth, agent) == g.score(s)
    ensures depth > 0 && g.IsTerminal(g.successor(s, agent - 1, action)) ==>
              Value(g, s, action, depth, agent) == g.score(g.successor(s, agent - 1, action))
  {
  }

  /** Pacman's nodes take the best child value for Pacman, and a ghost's node the worst, and each is the value of some child. */
  lemma ValueChoosesChild<State(!new), Action>(g: Game<State, Action>, s: State, action: Action, depth: nat, agent: nat)
    requires g.WellFormed() && agent < g.numAgents && depth > 0
    requires !g.IsTerminal(g.successor(s, agent - 1, action))
    ensures var next := g.successor(s, agent - 1, action);
            var values := ChildValues(g, next, g.legal(next, agent), NextDepth(depth, agent), NextAgent(g, agent));
            && Value(g, s, action, depth, agent) in values
            && forall i :: 0 <= i < |values| ==>
                 if agent == 0 then values[i] <= Value(g, s, action, depth, agent)
                 else Value(g, s, action, depth, agent) <= values[i]
  {
    var next := g.successor(s, agent - 1, action);
    var values := ChildValues(g, next, g.legal(next, agent), NextDepth(depth, agent), NextAgent(g, agent));
    forall i | 0 <= i < |values|
      ensures values[i] in values
    {
    }
  }

  /**
   * The number of nested calls that pass the depth test below a call with
   * `depth` Pacman turns left whose next mover is `agent`.
   */
  function Nesting<State(!new), Action>(g: Game<State, Action>, depth: nat, agent: nat): nat
    requires g.numAgents >= 1 && agent < g.numAgents
    decreases depth, Rank(g, agent)
  {
    if depth == 0 then 0 else 1 + Nesting(g, NextDepth(depth, agent), NextAgent(g, agent))
  }

  /** From a ghost's turn, the calls run through the remaining ghosts and then Pacman's turn. */
  lemma {:induction false} NestingFromGhost<State(!new), Action>(g: Game<State, Action>, depth: nat, agent: nat)
    requires g.numAgents >= 1 && 0 < agent < g.numAgents && depth > 0
    ensures Nesting(g, depth, agent) == g.numAgents - agent + Nesting(g, depth, 0)
    decreases g.numAgents - agent
  {
    if agent + 1 < g.numAgents {
      NestingFromGhost(g, depth, agent + 1);
    }
  }

  /** The recursion from the root (first ghost next) nests at most depth * numAgents calls deep. */
  lemma {:induction false} NestingBound<State(!new), Action>(g: Game<State, Action>, depth: nat)
    requires g.numAgents >= 2
    ensures Nesting(g, depth, 1) == depth * g.numAgents
  {
    if depth > 0 {
      NestingFromGhost(g, depth, 1);
      NestingBound(g, depth - 1);
    }
  }
}
