# Graph search and adversarial search for the Pacman projects, in Dafny

This project models two search engines from the Pacman AI projects and proves what they compute.

1. **Generic graph search** (`project1/search/search.py`).
   - A `Node` snapshots a path: a state, the actions taken and their total cost. `Node.branch` extends it by one successor triple.
   - `GraphSearch.search` is one loop around a fringe and a closed set:
     - pop a node;
     - if its state is a goal, return the node's actions;
     - otherwise, the first time its state is popped, close that state and push one child per successor triple.
   - Depth-first, breadth-first, uniform-cost and A* search are this loop with a stack, a queue, a priority on `totalCost`, and a priority on `heuristic + totalCost`.
   - The search problem is a value (`Search.Problem`): a start state, a goal test and a successor function, plus a finite set of states that holds the start and is closed under successors.
2. **Depth-limited adversarial search** (`project2/multiagent/multiAgents.py`).
   - `MinimaxAgent` computes minimax over value vectors. A leaf vector holds the score for Pacman (agent 0) and minus the score for every ghost.
   - `AlphaBetaAgent` computes scalar minimax with an `(alpha, beta)` window. `None` stands for an infinite end of the window.
   - Both recurse over (state, action, depth, agent index). The agent index cycles modulo the number of agents, and the depth drops only on Pacman's turn.
   - The game is abstract (`Game.Game`): the number of agents, legal actions, successors, win/lose tests and an integer score.
   - `Game.Value` is scalar minimax written as a recursive function, and both agents are proved against it.

Modules:

- `Wrappers`: `Option`, which stands for Python's `None` and `False`.
- `Search`: paths, nodes, the fringe's pop rules, the search loop and its invariant, and the four strategies.
- `Game`: the abstract game, `scoreEvaluationFunction`, and the reference `Value`.
- `Minimax`: `MinimaxAgent`.
- `AlphaBeta`: `AlphaBetaAgent` and the window arithmetic.
- `Agents`: the two agents compared.

The fringe of `GraphSearch.search` is a util container mutated in place. Here it is a local sequence that the loop reassigns:

- `Search.Pop` removes the node the discipline selects;
- `Search.PushChildren` appends the children in successor order.

The loop body after a non-goal pop is the method `Search.Visit`.

A* is proved optimal only for **consistent** heuristics: the heuristic drops by at most the step cost along every step and is 0 on goal states. `Search.Informed` says that the fringe orders nodes by such a heuristic plus the total cost. Uniform-cost search is the null heuristic, which is consistent. A* is often stated to be optimal for any admissible heuristic. That holds for tree search, but this graph search never reopens a closed state: a state closed through a dear path is never expanded again through a cheaper one. So a plan found with an admissible but inconsistent heuristic can cost more than the cheapest plan, and the model claims only the consistent case.

Breadth-first search is proved to return a plan with as few actions as any plan. The proof rests on the queue staying layered: from front to back the nodes' action counts never drop and differ by at most one (`Search.Layered`).

## Model

| member | source | states |
|---|---|---|
| Search.BranchFollows | project1/search/search.py:82-87 | If a node records a path from the start, branching it along one of its state's successor triples gives a node that records the path extended by that step: same end state, the action appended, the step cost added. |
| Search.RootFollowsEmptyPath | project1/search/search.py:77-80 | The start node `Node(start)` records the empty path: no actions, cost 0. |
| Search.Pop | project1/search/search.py:105 | The pop removes exactly one position and leaves the others in order. A stack gives the newest node, a queue the oldest, and a priority queue a node of least priority. |
| Search.PushChildren | project1/search/search.py:110-111 | The expansion loop appends one branched child per successor triple, in the order `getSuccessors` lists them. |
| Search.Visit | project1/search/search.py:108-111 | A popped non-goal node whose state is closed is dropped. Otherwise its state is closed, appended to the log of expanded states, and its children pushed. The search invariant is kept, a queue stays layered, and the closed set grows or the fringe shrinks, so the loop terminates. |
| Search.GraphSearch.Search | project1/search/search.py:98-111 | A returned action list is the action list of a path from the start to a goal state (`Search.Solution`). When the start is a goal it is `[]`. `None` (Python's `False`) is returned only when no path reaches a goal, and then every state reachable from the start was expanded. The log of expanded states holds no state twice and no goal state. Under an A* priority with a consistent heuristic, the returned path is a cheapest one, the popped priorities never decrease, and the last one popped is the plan's cost. With a queue fringe, no plan has fewer actions. |
| Search.DepthFirstSearch | project1/search/search.py:115-130 | With a stack fringe, the result is a plan, `[]` when the start is a goal, and `None` only for unsolvable problems. |
| Search.BreadthFirstSearch | project1/search/search.py:132-137 | With a queue fringe, a returned plan has as few actions as any plan: the shallowest goal node is found first. `[]` is returned when the start is a goal, and `None` only for unsolvable problems. |
| Search.FringeShallower | project1/search/search.py:108-111 | A path to a state that is not closed is matched, in number of steps, by some node on the fringe. |
| Search.FrontShallowest | project1/search/search.py:105 | The front of a layered queue has no more actions than any path to a state that is not closed. |
| Search.GoalShallowest | project1/search/search.py:105-107 | A goal node at the front of a layered queue records a path to a goal with as few steps as any path to a goal. |
| Search.PushKeepsLayered | project1/search/search.py:110-111 | Dropping the front of a layered queue and pushing the front's children, one action deeper, keeps the queue layered. |
| Search.QueueDiscardKeepsInv | project1/search/search.py:105-108 | Dropping the front of a layered queue keeps it layered. |
| Search.QueueExpandKeepsInv | project1/search/search.py:108-111 | Expanding the front of a layered queue keeps the queue layered, and the node that closes a state has no more actions than any path to that state. |
| Search.ActionsLength | project1/search/search.py:82-87 | A path has exactly one action per step, so a node's action count is the length of the path it records. |
| Search.UniformCostSearch | project1/search/search.py:139-145 | With `totalCost` as the priority, a returned plan is a cheapest plan. |
| Search.NullHeuristicIsUniformCost | project1/search/search.py:147-152 | `nullHeuristic` is consistent. With it, the A* priority of every node equals its uniform-cost priority. |
| Search.AStarSearch | project1/search/search.py:154-160 | With priority `heuristic(state) + totalCost`, a returned plan is a plan. If the heuristic is consistent, it is a cheapest plan. |
| Search.EmptyFringeMeansUnsolvable | project1/search/search.py:103-104 | When the fringe runs empty, every path from the start ends in an expanded state, and those hold no goal. So `False` means that no plan exists. |
| Search.ClosedUnderPaths | project1/search/search.py:108-111 | With an empty fringe, the end of every path from the start is closed. |
| Search.GoalPopped | project1/search/search.py:105-107 | A popped goal node's actions are those of a path from the start to a goal. Under a consistent heuristic that path is a cheapest one, its cost is the last logged priority, and the priority log stays sorted. From the front of a layered queue, no path to a goal has fewer steps. |
| Search.GoalCheapest | project1/search/search.py:105-107 | A goal node of least A* priority records a path no other path to a goal undercuts. |
| Search.FringeUndercuts | project1/search/search.py:108-111 | A path to a state that is not closed has, on the fringe, a node whose A* priority is at most that path's priority. |
| Search.DiscardKeepsInv | project1/search/search.py:108 | Dropping a popped node whose state is already closed keeps the search invariant. |
| Search.DiscardCovers | project1/search/search.py:108 | After such a drop, every successor of a closed state is still closed or still waiting on the fringe. |
| Search.ExpandKeepsInv | project1/search/search.py:108-111 | Closing the popped state and pushing its children keeps the search invariant. |
| Search.ChildrenReached | project1/search/search.py:110-111 | Every pushed child records a path from the start to a state of the problem. |
| Search.ExpandCovers | project1/search/search.py:108-111 | After an expansion, every successor of a closed state is closed or waits on the fringe as a child of the node that closed its parent. |
| Search.ExpandCheapest | project1/search/search.py:108-109 | Under a consistent heuristic, the node that first closes a state is no dearer than any path to that state. |
| Search.ExpandBoundsFringe | project1/search/search.py:105-111 | Under a consistent heuristic, no node left on the fringe or pushed onto it has a priority below the popped node's. |
| Search.PopBoundsRest | project1/search/search.py:105 | A priority-queue pop leaves no node of smaller priority behind. |
| Search.LogPopSorted | project1/search/search.py:105 | Popping a node no cheaper than the last popped priority keeps the popped priorities non-decreasing. |
| Game.ValueAtLeaves | project2/multiagent/multiAgents.py:147-153 | With depth 0, the value is the score of the state before the move. If the move ends the game, the value is the score of the state it reaches. |
| Game.ValueChoosesChild | project2/multiagent/multiAgents.py:155-164 | At an inner node the value is one of the children's values. On Pacman's turn it is the greatest; on a ghost's turn it is the least. |
| Game.NextAgent | project2/multiagent/multiAgents.py:159 | `(agent_index + 1) % numAgents` is the next agent. It wraps to 0 exactly after the last ghost. |
| Game.NestingFromGhost | project2/multiagent/multiAgents.py:157-159 | From a ghost's turn, the nested calls run through the remaining ghosts to Pacman's turn without lowering the depth. |
| Game.NestingBound | project2/multiagent/multiAgents.py:157-159 | From the root call (agent index 1), the nested calls that pass the depth test number exactly `depth * numAgents`. |
| Game.FirstBest | project2/multiagent/multiAgents.py:134-141 | The selected position holds a greatest value, and every earlier position holds a strictly smaller one. |
| Game.FirstBestStep | project2/multiagent/multiAgents.py:138-140 | The running best changes exactly when the new value is strictly greater than the best so far. |
| Minimax.MinimaxAgent.GetV | project2/multiagent/multiAgents.py:166-169 | The vector has one entry per agent. Entry 0 is the score, and every other entry is minus the score. |
| Minimax.ZeroSumDeterminedByEntry | project2/multiagent/multiAgents.py:163 | Two such zero-sum vectors that agree at any agent's entry are equal. So keeping the earlier child on a tie cannot change the result. |
| Minimax.MinimaxAgent.MaxValue | project2/multiagent/multiAgents.py:143-164 | The vector returned is zero-sum, and its entry 0 is the scalar minimax value `Game.Value` for the same state, action, depth and agent. |
| Minimax.MinimaxAgent.GetAction | project2/multiagent/multiAgents.py:117-141 | With no legal action for Pacman the result is `None`. Otherwise it is the first legal action whose minimax value is strictly greatest. |
| AlphaBeta.Raise | project2/multiagent/multiAgents.py:215 | The raised alpha is the running value when alpha is open, and otherwise the greater of the two: it is one of them and at least both. |
| AlphaBeta.Lower | project2/multiagent/multiAgents.py:220 | The lowered beta is the running value when beta is open, and otherwise the smaller of the two: it is one of them and at most both. |
| AlphaBeta.AlphaBetaAgent.GetV | project2/multiagent/multiAgents.py:223-224 | Alpha-beta's leaf value equals Pacman's entry of the leaf vector minimax builds for the same state. |
| AlphaBeta.MaxNodeStep | project2/multiagent/multiAgents.py:211-215 | After one more child of a max node, either the running value exceeds beta and is a valid fail-high answer for the whole node, or the loop invariant holds for one more child and the raised window stays ordered. |
| AlphaBeta.MinNodeStep | project2/multiagent/multiAgents.py:216-220 | The mirror image for a min node, whose cut is a running value below alpha. |
| AlphaBeta.AlphaBetaAgent.OptimalValue | project2/multiagent/multiAgents.py:190-221 | Let m be the minimax value of the same call. If m lies inside an ordered window, the result is m. If m is below alpha, the result lies in [m, alpha). If m is above beta, it lies in (beta, m]. Leaves are scored with `getV`, which is the score. |
| AlphaBeta.OpenWindowIsExact | project2/multiagent/multiAgents.py:184 | Started with `(None, None)`, the returned value is exactly the minimax value. |
| AlphaBeta.AlphaBetaAgent.GetAction | project2/multiagent/multiAgents.py:177-188 | With no legal action for Pacman the result is `None`. Otherwise it is the first legal action whose minimax value is strictly greatest. |
| Agents.SameValue | project2/multiagent/multiAgents.py:179-184 | For the same state, action and depth, alpha-beta's root value equals entry 0 of minimax's vector. |
| Agents.SameAction | project2/multiagent/multiAgents.py:181-188 | The two agents choose the same action. They choose one exactly when Pacman has a legal action, and it is one of Pacman's legal actions. |

## Left out

- `ReflexAgent` is not modelled. It picks randomly among the best moves, and its evaluation uses floating-point reciprocals over board positions.
- `ExpectimaxAgent`, `betterEvaluationFunction` and `ContestAgent` are not modelled, because their bodies only raise "not defined".
- `MultiAgentSearchAgent.__init__` resolves the evaluation function by name through reflection. That function is never called by these two agents, which score leaves with `scoreEvaluationFunction` directly. In the model the agent index is fixed at 0 and the depth is the constructor's argument.
- The `SearchProblem` interface and `getCostOfActions` become the fields of `Search.Problem` and `Search.Cost`. `tinyMazeSearch` is not modelled: it returns a fixed list.
- `util.Stack`, `util.Queue` and `util.PriorityQueueWithFunction` are not part of this model. The fringe is a sequence with three pop rules. For a priority queue, any node of least priority may be popped, so the heap's tie-break is not modelled, and neither is in-place mutation of the container.
- Search.GraphSearch.Search: requires a finite state set closed under successors, so termination on infinite graphs is not modelled.
- Search.AStarSearch: cheapest plans are proved only for consistent heuristics. With an admissible but inconsistent heuristic the code can return a dearer plan, because closed states are never reopened.
- Heuristics take only the state, with values in `nat`. `aStarSearch` also passes the problem to the heuristic. The problem is fixed for the whole search, so a heuristic over the state alone can close over it, and nothing is lost. Floating-point heuristics are not modelled.
- `Node(start)` shares the mutable default `[]` as its action list, and a start goal returns that shared list. Nodes are values here, so this aliasing is not modelled. `branch` copies the list, so no other node shares it.
- Step costs and scores are integers, and step costs are non-negative. Floating-point costs and scores are not modelled.
- Game.WellFormed: requires at least two agents. With one agent, the root's agent index 1 names no agent, and a vector index 1 would not exist.
- Game.WellFormed: requires legal actions in every state that is not won or lost. For such a state the code returns `None` as its value. Alpha-beta then orders that `None` below every number, as Python 2 does. Minimax skips a `None` child that comes first at its node and fails on the key lookup for a later one. This Python 2 handling of `None` values is not modelled.
- The search depth is a `nat`. A negative depth would never reach the `not depth` test in the code.
- The agents pass the mover to `generateSuccessor` as `agent_index - 1`, which is -1 before Pacman moves. The model keeps this literal value and leaves its interpretation to the abstract successor function. GameState's negative indexing is not part of this model.
- Python 2 comparisons against `None` are modelled explicitly with `Option`. So are the open ends of the alpha-beta window.
- The number of states alpha-beta visits, compared with minimax, is not modelled. Only the values and the chosen actions are compared.
- The ghost outputs of `Search.GraphSearch.Search` exist for the proof only. The expanded states and the popped priorities are not returned by the code.
- Game.ScoreEvaluation has no contract of its own, because it only reads the score. Its role is stated by `Game.ValueAtLeaves`, `Minimax.MinimaxAgent.GetV` and `AlphaBeta.AlphaBetaAgent.GetV`.
