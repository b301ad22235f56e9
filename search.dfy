/**
 * Generic graph search over an abstract search problem: path nodes, a fringe
 * with three pop disciplines, one frontier-plus-closed-set loop, and the four
 * strategies (depth-first, breadth-first, uniform-cost, A*) built on it.
 *
 * The goal test and the duplicate check both happen when a node is popped,
 * never when it is pushed, so the fringe may hold several nodes for one state.
 */
module Search {
  import opened Wrappers

  /** One successor triple (successor, action, stepCost) of getSuccessors. */
  datatype Step<S, A> = Step(next: S, action: A, cost: nat)

  /**
   * A search problem: start state, goal test and successor function.
   * `states` is a finite set of states that holds the start and is closed
   * under successors (Valid), so every state the search can reach is in it.
   */
  datatype Problem<!S, A> = Problem(
    states: set<S>,
    start: S,
    isGoal: S -> bool,
    successors: S -> seq<Step<S, A>>)
  {
    ghost predicate Valid() {
      && start in states
      && forall s, st :: s in states && st in successors(s) ==> st.next in states
    }
  }

  // ----- Paths -----------------------------------------------------------

  /** The state reached by following `path` from `from`. */
  function End<S(!new), A(!new)>(from: S, path: seq<Step<S, A>>): S {
    if path == [] then from else path[|path| - 1].next
  }

  /** Each step of `path` is a successor triple of the state the steps before it reach. */
  ghost predicate IsPath<S(!new), A(!new)>(p: Problem<S, A>, from: S, path: seq<Step<S, A>>)
    decreases |path|
  {
    path == [] ||
    (IsPath(p, from, path[..|path| - 1]) && path[|path| - 1] in p.successors(End(from, path[..|path| - 1])))
  }

  /** The actions along a path, in order. */
  function Actions<S(!new), A(!new)>(path: seq<Step<S, A>>): seq<A> {
    if path == [] then [] else Actions(path[..|path| - 1]) + [path[|path| - 1].action]
  }

  /** The sum of the step costs along a path. */
  function Cost<S(!new), A(!new)>(path: seq<Step<S, A>>): nat {
    if path == [] then 0 else Cost(path[..|path| - 1]) + path[|path| - 1].cost
  }

  lemma {:induction false} PathInStates<S(!new), A(!new)>(p: Problem<S, A>, path: seq<Step<S, A>>)
    requires p.Valid() && IsPath(p, p.start, path)
    ensures End(p.start, path) in p.states
    decreases |path|
  {
    if path != [] {
      PathInStates(p, path[..|path| - 1]);
    }
  }

  /** `actions` is a plan: the actions of some path from the start to a goal state. */
  ghost predicate IsPlan<S(!new), A(!new)>(p: Problem<S, A>, actions: seq<A>) {
    exists path :: IsPath(p, p.start, path) && Actions(path) == actions && p.isGoal(End(p.start, path))
  }

  /** No path from the start reaches a goal state. */
  ghost predicate Unsolvable<S(!new), A(!new)>(p: Problem<S, A>) {
    forall path :: IsPath(p, p.start, path) ==> !p.isGoal(End(p.start, path))
  }

  /** No path from the start to a goal state costs less than `path`. */
  ghost predicate Cheapest<S(!new), A(!new)>(p: Problem<S, A>, path: seq<Step<S, A>>) {
    forall other :: IsPath(p, p.start, other) && p.isGoal(End(p.start, other)) ==> Cost(path) <= Cost(other)
  }

  /** No path from the start to a goal state has fewer steps than `path`. */
  ghost predicate Shallowest<S(!new), A(!new)>(p: Problem<S, A>, path: seq<Step<S, A>>) {
    forall other :: IsPath(p, p.start, other) && p.isGoal(End(p.start, other)) ==> |path| <= |other|
  }

  /** `actions` are the actions of a path to a goal with as few steps as any path to a goal. */
  ghost predicate IsShallowestPlan<S(!new), A(!new)>(p: Problem<S, A>, actions: seq<A>) {
    exists path :: IsPath(p, p.start, path) && Actions(path) == actions && p.isGoal(End(p.start, path)) && Shallowest(p, path)
  }

  /** A path has one action per step. */
  lemma {:induction false} ActionsLength<S(!new), A(!new)>(path: seq<Step<S, A>>)
    ensures |Actions(path)| == |path|
    decreases |path|
  {
    if path != [] {
      ActionsLength(path[..|path| - 1]);
    }
  }

  /** `actions` are the actions of a path to a goal that no other path to a goal undercuts. */
  ghost predicate IsCheapestPlan<S(!new), A(!new)>(p: Problem<S, A>, actions: seq<A>) {
    exists path :: IsPath(p, p.start, path) && Actions(path) == actions && p.isGoal(End(p.start, path)) && Cheapest(p, path)
  }

  // ----- Nodes -----------------------------------------------------------

  /** A path snapshot: the state reached, the actions taken and their total cost. */
  datatype Node<S, A> = Node(state: S, actions: seq<A>, totalCost: nat)
  {
    /** The node one step further: a new action list, the parent is left as it was. */
    function Branch(successor: S, action: A, stepCost: nat): Node<S, A> {
      Node(successor, actions + [action], totalCost + stepCost)
    }
  }

  /** The node the search starts from, Node(start): no actions, cost 0. */
  function Root<S(!new), A(!new)>(start: S): Node<S, A> {
    Node(start, [], 0)
  }

  /** The node pushed for successor triple `st` of `n`'s state. */
  function Child<S(!new), A(!new)>(n: Node<S, A>, st: Step<S, A>): Node<S, A> {
    n.Branch(st.next, st.action, st.cost)
  }

  /** `n` records `path`: its state is where the path ends, its actions and cost are the path's. */
  ghost predicate Follows<S(!new), A(!new)>(p: Problem<S, A>, n: Node<S, A>, path: seq<Step<S, A>>) {
    && IsPath(p, p.start, path)
    && n.state == End(p.start, path)
    && n.actions == Actions(path)
    && n.totalCost == Cost(path)
  }

  /** `n` records some path from the start. */
  ghost predicate Reached<S(!new), A(!new)>(p: Problem<S, A>, n: Node<S, A>) {
    exists path :: Follows(p, n, path)
  }

  lemma RootFollowsEmptyPath<S(!new), A(!new)>(p: Problem<S, A>)
    ensures Follows(p, Root(p.start), [])
  {
  }

  /** Branching a node along one of its state's successor triples extends the path it records by that step. */
  lemma BranchFollows<S(!new), A(!new)>(p: Problem<S, A>, n: Node<S, A>, path: seq<Step<S, A>>, st: Step<S, A>)
    requires Follows(p, n, path) && st in p.successors(n.state)
    ensures Follows(p, Child(n, st), path + [st])
  {
    assert (path + [st])[..|path|] == path;
  }

  // ----- Fringe ----------------------------------------------------------

  /** The fringe discipline GraphSearch is built with: util.Stack, util.Queue, or
      util.PriorityQueueWithFunction with a priority function on nodes. */
  datatype Frontier<!S, !A> = Stack | Queue | PriorityQueue(priority: Node<S, A> -> int)

  /** items[i] has the least priority among `items`. */
  predicate IsMinimal<S(!new), A(!new)>(priority: Node<S, A> -> int, items: seq<Node<S, A>>, i: int) {
    0 <= i < |items| && forall j :: 0 <= j < |items| ==> priority(items[i]) <= priority(items[j])
  }

  lemma {:induction false} MinimalExists<S(!new), A(!new)>(priority: Node<S, A> -> int, items: seq<Node<S, A>>)
    requires items != []
    ensures exists i :: IsMinimal(priority, items, i)
    decreases |items|
  {
    var last := |items| - 1;
    if last > 0 {
      MinimalExists(priority, items[..last]);
      var i :| IsMinimal(priority, items[..last], i);
      if priority(items[last]) < priority(items[i]) {
        assert IsMinimal(priority, items, last);
      } else {
        assert IsMinimal(priority, items, i);
      }
    } else {
      assert IsMinimal(priority, items, 0);
    }
  }

  /** Removing position i keeps every other element and adds none. */
  lemma RemoveAt<T>(s: seq<T>, i: nat)
    requires i < |s|
    ensures forall x :: x in s[..i] + s[i + 1..] ==> x in s
    ensures forall x :: x in s && x != s[i] ==> x in s[..i] + s[i + 1..]
  {
    forall x | x in s && x != s[i]
      ensures x in s[..i] + s[i + 1..]
    {
      var j :| 0 <= j < |s| && s[j] == x;
      if j < i {
        assert (s[..i] + s[i + 1..])[j] == x;
      } else {
        assert (s[..i] + s[i + 1..])[j - 1] == x;
      }
    }
  }

  // ----- Priorities and heuristics ---------------------------------------

  /** Uniform-cost priority: the node's total cost. */
  function UniformCostPriority<S(!new), A(!new)>(n: Node<S, A>): int {
    n.totalCost
  }

  /** A* priority: the heuristic estimate for the node's state plus its total cost. */
  function AStarPriority<S(!new), A(!new)>(heuristic: S -> nat, n: Node<S, A>): int {
    heuristic(n.state) + n.totalCost
  }

  /** The trivial heuristic. */
  function NullHeuristic<S>(s: S): nat {
    0
  }

  /** h drops by at most a step's cost along every step, and is 0 on goal states. */
  ghost predicate Consistent<S(!new), A(!new)>(p: Problem<S, A>, h: S -> nat) {
    && (forall s, st :: s in p.states && st in p.successors(s) ==> h(s) <= st.cost + h(st.next))
    && (forall s :: s in p.states && p.isGoal(s) ==> h(s) == 0)
  }

  /** The fringe orders nodes as A* does with some consistent heuristic. */
  ghost predicate Informed<S(!new), A(!new)>(p: Problem<S, A>, order: Frontier<S, A>) {
    order.PriorityQueue? &&
    exists h :: Consistent(p, h) && forall n :: order.priority(n) == AStarPriority(h, n)
  }

  /** With the null heuristic A* orders nodes exactly as uniform-cost search does. */
  lemma NullHeuristicIsUniformCost<S(!new), A(!new)>(p: Problem<S, A>)
    ensures Consistent(p, NullHeuristic)
    ensures forall n: Node<S, A> :: AStarPriority(NullHeuristic, n) == UniformCostPriority(n)
  {
  }

  // ----- The search loop -------------------------------------------------

  /** Every successor of a closed state is closed or waits on the fringe as the
      child of the node that closed its parent. */
  ghost predicate Covered<S(!new), A(!new)>(p: Problem<S, A>, closed: set<S>, closer: map<S, Node<S, A>>, items: seq<Node<S, A>>)
    requires closed <= closer.Keys
  {
    && (p.start in closed || Root(p.start) in items)
    && forall y, st :: y in closed && st in p.successors(y) ==> st.next in closed || Child(closer[y], st) in items
  }

  /** Each closed state was closed by a node no dearer than any path to it. */
  ghost predicate ClosedAtLeastCost<S(!new), A(!new)>(p: Problem<S, A>, closed: set<S>, closer: map<S, Node<S, A>>)
    requires closed <= closer.Keys
  {
    forall path :: IsPath(p, p.start, path) && End(p.start, path) in closed ==> closer[End(p.start, path)].totalCost <= Cost(path)
  }

  /** When the fringe is empty and covers the closed set, every path from the start stays in the closed set. */
  lemma {:induction false} ClosedUnderPaths<S(!new), A(!new)>(p: Problem<S, A>, closed: set<S>, closer: map<S, Node<S, A>>, path: seq<Step<S, A>>)
    requires closed <= closer.Keys && Covered(p, closed, closer, [])
    requires IsPath(p, p.start, path)
    ensures End(p.start, path) in closed
    decreases |path|
  {
    if path != [] {
      ClosedUnderPaths(p, closed, closer, path[..|path| - 1]);
    }
  }

  /** A path to a state that is not closed is undercut, in A* priority, by some node on the fringe. */
  lemma {:induction false} FringeUndercuts<S(!new), A(!new)>(p: Problem<S, A>, h: S -> nat, closed: set<S>, closer: map<S, Node<S, A>>,
                                               items: seq<Node<S, A>>, path: seq<Step<S, A>>)
    requires p.Valid() && Consistent(p, h)
    requires closed <= closer.Keys && Covered(p, closed, closer, items) && ClosedAtLeastCost(p, closed, closer)
    requires IsPath(p, p.start, path) && End(p.start, path) !in closed
    ensures exists m :: m in items && AStarPriority(h, m) <= h(End(p.start, path)) + Cost(path)
    decreases |path|
  {
    if path == [] {
      assert AStarPriority(h, Root<S, A>(p.start)) <= h(p.start) + Cost(path);
    } else {
      var prefix, st := path[..|path| - 1], path[|path| - 1];
      var y := End(p.start, prefix);
      if y in closed {
        assert closer[y].totalCost <= Cost(prefix);
        assert AStarPriority(h, Child(closer[y], st)) <= h(End(p.start, path)) + Cost(path);
      } else {
        FringeUndercuts(p, h, closed, closer, items, prefix);
        PathInStates(p, prefix);
        assert h(y) <= st.cost + h(st.next);
      }
    }
  }

  /** The nodes pushed when `n` is expanded, one per successor triple, in order. */
  function Children<S(!new), A(!new)>(n: Node<S, A>, steps: seq<Step<S, A>>): seq<Node<S, A>> {
    seq(|steps|, j requires 0 <= j < |steps| => Child(n, steps[j]))
  }

  ghost predicate Sorted(xs: seq<int>) {
    forall i, j :: 0 <= i < j < |xs| ==> xs[i] <= xs[j]
  }

  /**
   * What holds between two iterations of the search loop. `closer` maps each
   * closed state to the node that closed it; `expanded` lists the closed
   * states in the order they were closed; `popped` lists the priorities of
   * the popped nodes. When the fringe orders nodes by the A* priority of a
   * consistent heuristic h (`informed`), closing costs are optimal and the
   * popped priorities never decrease.
   */
  ghost predicate SearchInv<S(!new), A(!new)>(p: Problem<S, A>, order: Frontier<S, A>, h: S -> nat, informed: bool,
                                           closed: set<S>, closer: map<S, Node<S, A>>, items: seq<Node<S, A>>,
                                           expanded: seq<S>, popped: seq<int>)
  {
    && p.Valid()
    && closed <= p.states && closer.Keys == closed
    && (forall m :: m in items ==> Reached(p, m) && m.state in p.states)
    && (forall y :: y in closed ==> !p.isGoal(y))
    && Covered(p, closed, closer, items)
    && (forall s :: s in expanded <==> s in closed)
    && (forall i, j :: 0 <= i < j < |expanded| ==> expanded[i] != expanded[j])
    && (informed ==>
          && order.PriorityQueue? && Consistent(p, h)
          && (forall n :: order.priority(n) == AStarPriority(h, n))
          && ClosedAtLeastCost(p, closed, closer)
          && Sorted(popped)
          && (popped != [] ==> forall m :: m in items ==> popped[|popped| - 1] <= order.priority(m)))
  }

  /** node = before[i] is what the fringe's discipline lets it pop. */
  ghost predicate PoppedAt<S(!new), A(!new)>(order: Frontier<S, A>, before: seq<Node<S, A>>, i: nat, node: Node<S, A>) {
    i < |before| && node == before[i] && (order.PriorityQueue? ==> IsMinimal(order.priority, before, i))
  }

  /** The priority log after popping `node`. */
  function LogPop<S(!new), A(!new)>(order: Frontier<S, A>, popped: seq<int>, node: Node<S, A>): seq<int> {
    if order.PriorityQueue? then popped + [order.priority(node)] else popped
  }

  /** Fringe empty: the closed set is closed under successors and holds no goal, so no path reaches a goal. */
  lemma EmptyFringeMeansUnsolvable<S(!new), A(!new)>(p: Problem<S, A>, order: Frontier<S, A>, h: S -> nat, informed: bool,
                                                   closed: set<S>, closer: map<S, Node<S, A>>, expanded: seq<S>, popped: seq<int>)
    requires SearchInv(p, order, h, informed, closed, closer, [], expanded, popped)
    ensures forall path :: IsPath(p, p.start, path) ==> End(p.start, path) in expanded
    ensures Unsolvable(p)
  {
    forall path | IsPath(p, p.start, path)
      ensures End(p.start, path) in expanded && !p.isGoal(End(p.start, path))
    {
      ClosedUnderPaths(p, closed, closer, path);
    }
  }

  /** Under a consistent heuristic, a popped goal node records a path to a goal no other path to a goal undercuts. */
  lemma GoalCheapest<S(!new), A(!new)>(p: Problem<S, A>, order: Frontier<S, A>, h: S -> nat,
                                      closed: set<S>, closer: map<S, Node<S, A>>, before: seq<Node<S, A>>,
                                      i: nat, node: Node<S, A>, path: seq<Step<S, A>>)
    requires p.Valid() && Consistent(p, h) && order.PriorityQueue?
    requires forall n :: order.priority(n) == AStarPriority(h, n)
    requires closed <= closer.Keys && Covered(p, closed, closer, before) && ClosedAtLeastCost(p, closed, closer)
    requires forall y :: y in closed ==> !p.isGoal(y)
    requires PoppedAt(order, before, i, node) && Follows(p, node, path) && p.isGoal(node.state)
    ensures Cheapest(p, path)
  {
    PathInStates(p, path);
    forall other | IsPath(p, p.start, other) && p.isGoal(End(p.start, other))
      ensures Cost(path) <= Cost(other)
    {
      PathInStates(p, other);
      FringeUndercuts(p, h, closed, closer, before, other);
      var m :| m in before && AStarPriority(h, m) <= h(End(p.start, other)) + Cost(other);
      var j :| 0 <= j < |before| && before[j] == m;
      assert order.priority(node) <= order.priority(before[j]);
    }
  }

  /**
   * `actions` are the actions of a path from the start to a goal state. When
   * `informed`, no path to a goal is cheaper and the last popped priority is
   * its cost; with a queue fringe, no path to a goal has fewer steps.
   */
  ghost predicate Solution<S(!new), A(!new)>(p: Problem<S, A>, order: Frontier<S, A>, informed: bool, popped: seq<int>, actions: seq<A>) {
    exists path :: && IsPath(p, p.start, path) && Actions(path) == actions && p.isGoal(End(p.start, path))
                   && (informed ==> Cheapest(p, path) && popped != [] && popped[|popped| - 1] == Cost(path))
                   && (order.Queue? ==> Shallowest(p, path))
  }

  /** A goal node popped from the fringe records a path to a goal; when informed, no path to a goal is cheaper. */
  lemma GoalPopped<S(!new), A(!new)>(p: Problem<S, A>, order: Frontier<S, A>, h: S -> nat, informed: bool,
                                    closed: set<S>, closer: map<S, Node<S, A>>, before: seq<Node<S, A>>,
                                    expanded: seq<S>, popped: seq<int>, i: nat, node: Node<S, A>)
    requires SearchInv(p, order, h, informed, closed, closer, before, expanded, popped)
    requires order.Queue? ==> i == 0 && QueueInv(p, closed, closer, before)
    requires PoppedAt(order, before, i, node) && p.isGoal(node.state)
    ensures Solution(p, order, informed, LogPop(order, popped, node), node.actions)
    ensures informed ==> Sorted(LogPop(order, popped, node))
  {
    assert node in before;
    var path :| Follows(p, node, path);
    if informed {
      GoalCheapest(p, order, h, closed, closer, before, i, node, path);
      assert h(node.state) == 0;
      LogPopSorted(order, popped, before, node);
    }
    if order.Queue? {
      GoalShallowest(p, closed, closer, before, node, path);
    }
  }

  lemma ClosingShrinks<S>(states: set<S>, closed: set<S>, x: S)
    requires x in states && x !in closed
    ensures |states - (closed + {x})| < |states - closed|
  {
    assert states - closed == (states - (closed + {x})) + {x};
  }

  /** A node of least priority is popped: nothing left on the fringe has a smaller priority. */
  lemma PopBoundsRest<S(!new), A(!new)>(order: Frontier<S, A>, before: seq<Node<S, A>>, i: nat, node: Node<S, A>)
    requires order.PriorityQueue? && PoppedAt(order, before, i, node)
    ensures forall m :: m in before[..i] + before[i + 1..] ==> order.priority(node) <= order.priority(m)
  {
    RemoveAt(before, i);
    forall m | m in before[..i] + before[i + 1..]
      ensures order.priority(node) <= order.priority(m)
    {
      var j :| 0 <= j < |before| && before[j] == m;
    }
  }

  /** Logging the priority of a node popped from a fringe no cheaper than the last logged priority keeps the log sorted. */
  lemma LogPopSorted<S(!new), A(!new)>(order: Frontier<S, A>, popped: seq<int>, before: seq<Node<S, A>>, node: Node<S, A>)
    requires order.PriorityQueue? && Sorted(popped) && node in before
    requires popped != [] ==> forall m :: m in before ==> popped[|popped| - 1] <= order.priority(m)
    ensures Sorted(LogPop(order, popped, node))
  {
  }

  /** Dropping a node whose state is closed leaves every successor of a closed state covered. */
  lemma DiscardCovers<S(!new), A(!new)>(p: Problem<S, A>, closed: set<S>, closer: map<S, Node<S, A>>,
                                       before: seq<Node<S, A>>, i: nat, node: Node<S, A>)
    requires closed <= closer.Keys && Covered(p, closed, closer, before)
    requires i < |before| && node == before[i] && node.state in closed
    ensures Covered(p, closed, closer, before[..i] + before[i + 1..])
  {
    RemoveAt(before, i);
  }

  /** Popping a node whose state is already closed discards it and keeps the invariant. */
  lemma DiscardKeepsInv<S(!new), A(!new)>(p: Problem<S, A>, order: Frontier<S, A>, h: S -> nat, informed: bool,
                                         closed: set<S>, closer: map<S, Node<S, A>>, before: seq<Node<S, A>>,
                                         expanded: seq<S>, popped: seq<int>, i: nat, node: Node<S, A>)
    requires SearchInv(p, order, h, informed, closed, closer, before, expanded, popped)
    requires PoppedAt(order, before, i, node) && node.state in closed
    ensures SearchInv(p, order, h, informed, closed, closer, before[..i] + before[i + 1..], expanded, LogPop(order, popped, node))
  {
    assert node in before;
    RemoveAt(before, i);
    DiscardCovers(p, closed, closer, before, i, node);
    if informed {
      PopBoundsRest(order, before, i, node);
      LogPopSorted(order, popped, before, node);
    }
  }

  /** The children of a node that records a path to a state in `states` record paths too, to states in `states`. */
  lemma ChildrenReached<S(!new), A(!new)>(p: Problem<S, A>, node: Node<S, A>)
    requires p.Valid() && Reached(p, node)
    ensures forall m :: m in Children(node, p.successors(node.state)) ==> Reached(p, m) && m.state in p.states
  {
    var path :| Follows(p, node, path);
    PathInStates(p, path);
    var pushed := Children(node, p.successors(node.state));
    forall m | m in pushed
      ensures Reached(p, m) && m.state in p.states
    {
      var j :| 0 <= j < |pushed| && pushed[j] == m;
      BranchFollows(p, node, path, p.successors(node.state)[j]);
      PathInStates(p, path + [p.successors(node.state)[j]]);
    }
  }

  /** Closing x with `node` and pushing its children keeps every successor of a closed state covered. */
  lemma ExpandCovers<S(!new), A(!new)>(p: Problem<S, A>, closed: set<S>, closer: map<S, Node<S, A>>,
                                      before: seq<Node<S, A>>, i: nat, node: Node<S, A>)
    requires closed <= closer.Keys && Covered(p, closed, closer, before)
    requires i < |before| && node == before[i]
    ensures Covered(p, closed + {node.state}, closer[node.state := node],
                    before[..i] + before[i + 1..] + Children(node, p.successors(node.state)))
  {
    var x := node.state;
    var rest := before[..i] + before[i + 1..];
    var after := rest + Children(node, p.successors(x));
    var closed', closer' := closed + {x}, closer[x := node];
    RemoveAt(before, i);
    forall y, st | y in closed' && st in p.successors(y)
      ensures st.next in closed' || Child(closer'[y], st) in after
    {
      if y == x {
        var j :| 0 <= j < |p.successors(x)| && p.successors(x)[j] == st;
        assert after[|rest| + j] == Child(node, st);
      } else {
        assert st.next in closed || Child(closer[y], st) in before;
      }
    }
    if p.start !in closed' {
      assert Root(p.start) in before;
    }
  }

  /** Under a consistent heuristic, the node popped first for a state is no dearer than any path to that state. */
  lemma ExpandCheapest<S(!new), A(!new)>(p: Problem<S, A>, order: Frontier<S, A>, h: S -> nat,
                                        closed: set<S>, closer: map<S, Node<S, A>>, before: seq<Node<S, A>>,
                                        i: nat, node: Node<S, A>)
    requires p.Valid() && Consistent(p, h) && order.PriorityQueue?
    requires forall n :: order.priority(n) == AStarPriority(h, n)
    requires closed <= closer.Keys && Covered(p, closed, closer, before) && ClosedAtLeastCost(p, closed, closer)
    requires PoppedAt(order, before, i, node) && node.state !in closed
    ensures ClosedAtLeastCost(p, closed + {node.state}, closer[node.state := node])
  {
    var x := node.state;
    var closer' := closer[x := node];
    forall other | IsPath(p, p.start, other) && End(p.start, other) in closed + {x}
      ensures closer'[End(p.start, other)].totalCost <= Cost(other)
    {
      if End(p.start, other) == x {
        FringeUndercuts(p, h, closed, closer, before, other);
        var m :| m in before && AStarPriority(h, m) <= h(x) + Cost(other);
        var j :| 0 <= j < |before| && before[j] == m;
        assert order.priority(node) <= order.priority(before[j]);
      }
    }
  }

  /** Under a consistent heuristic, no node left on or pushed onto the fringe has priority below the popped one. */
  lemma ExpandBoundsFringe<S(!new), A(!new)>(p: Problem<S, A>, order: Frontier<S, A>, h: S -> nat,
                                            before: seq<Node<S, A>>, i: nat, node: Node<S, A>)
    requires p.Valid() && Consistent(p, h) && order.PriorityQueue?
    requires forall n :: order.priority(n) == AStarPriority(h, n)
    requires PoppedAt(order, before, i, node) && node.state in p.states
    ensures forall m :: m in before[..i] + before[i + 1..] + Children(node, p.successors(node.state)) ==>
              order.priority(node) <= order.priority(m)
  {
    var x := node.state;
    var rest := before[..i] + before[i + 1..];
    var pushed := Children(node, p.successors(x));
    RemoveAt(before, i);
    forall m | m in rest + pushed
      ensures order.priority(node) <= order.priority(m)
    {
      if m in rest {
        var j :| 0 <= j < |before| && before[j] == m;
      } else {
        var j :| 0 <= j < |pushed| && pushed[j] == m;
        assert p.successors(x)[j] in p.successors(x);
      }
    }
  }

  /** Closing the popped node's state and pushing its children keeps the invariant. */
  lemma ExpandKeepsInv<S(!new), A(!new)>(p: Problem<S, A>, order: Frontier<S, A>, h: S -> nat, informed: bool,
                                        closed: set<S>, closer: map<S, Node<S, A>>, before: seq<Node<S, A>>,
                                        expanded: seq<S>, popped: seq<int>, i: nat, node: Node<S, A>)
    requires SearchInv(p, order, h, informed, closed, closer, before, expanded, popped)
    requires PoppedAt(order, before, i, node) && node.state !in closed && !p.isGoal(node.state)
    ensures SearchInv(p, order, h, informed, closed + {node.state}, closer[node.state := node],
                      before[..i] + before[i + 1..] + Children(node, p.successors(node.state)),
                      expanded + [node.state], LogPop(order, popped, node))
  {
    var after := before[..i] + before[i + 1..] + Children(node, p.successors(node.state));
    assert node in before;
    RemoveAt(before, i);
    ChildrenReached(p, node);
    ExpandCovers(p, closed, closer, before, i, node);
    if informed {
      ExpandCheapest(p, order, h, closed, closer, before, i, node);
      ExpandBoundsFringe(p, order, h, before, i, node);
      LogPopSorted(order, popped, before, node);
    }
  }

  // ----- Breadth-first layers ---------------------------------------------

  /** A queue fringe in breadth-first order: the action counts never drop from front to back and span at most one level. */
  ghost predicate Layered<S(!new), A(!new)>(items: seq<Node<S, A>>) {
    forall i, j :: 0 <= i < j < |items| ==> |items[i].actions| <= |items[j].actions| <= |items[i].actions| + 1
  }

  /** Each closed state was closed by a node with no more actions than any path to that state has steps. */
  ghost predicate ClosedAtLeastDepth<S(!new), A(!new)>(p: Problem<S, A>, closed: set<S>, closer: map<S, Node<S, A>>)
    requires closed <= closer.Keys
  {
    forall path :: IsPath(p, p.start, path) && End(p.start, path) in closed ==> |closer[End(p.start, path)].actions| <= |path|
  }

  /** What a queue fringe adds to the search invariant. */
  ghost predicate QueueInv<S(!new), A(!new)>(p: Problem<S, A>, closed: set<S>, closer: map<S, Node<S, A>>, items: seq<Node<S, A>>) {
    closed <= closer.Keys && Layered(items) && ClosedAtLeastDepth(p, closed, closer)
  }

  /** A path to a state that is not closed is matched, in number of steps, by some node on the fringe. */
  lemma {:induction false} FringeShallower<S(!new), A(!new)>(p: Problem<S, A>, closed: set<S>, closer: map<S, Node<S, A>>,
                                                             items: seq<Node<S, A>>, path: seq<Step<S, A>>)
    requires closed <= closer.Keys && Covered(p, closed, closer, items) && ClosedAtLeastDepth(p, closed, closer)
    requires IsPath(p, p.start, path) && End(p.start, path) !in closed
    ensures exists m :: m in items && |m.actions| <= |path|
    decreases |path|
  {
    if path == [] {
      assert |Root<S, A>(p.start).actions| <= |path|;
    } else {
      var prefix, st := path[..|path| - 1], path[|path| - 1];
      var y := End(p.start, prefix);
      if y in closed {
        assert |closer[y].actions| <= |prefix|;
        assert |Child(closer[y], st).actions| <= |path|;
      } else {
        FringeShallower(p, closed, closer, items, prefix);
      }
    }
  }

  /** The front of a layered queue has no more actions than any path to a state that is not closed. */
  lemma FrontShallowest<S(!new), A(!new)>(p: Problem<S, A>, closed: set<S>, closer: map<S, Node<S, A>>,
                                          before: seq<Node<S, A>>, path: seq<Step<S, A>>)
    requires QueueInv(p, closed, closer, before) && Covered(p, closed, closer, before) && before != []
    requires IsPath(p, p.start, path) && End(p.start, path) !in closed
    ensures |before[0].actions| <= |path|
  {
    FringeShallower(p, closed, closer, before, path);
    var m :| m in before && |m.actions| <= |path|;
    var j :| 0 <= j < |before| && before[j] == m;
    if j > 0 {
      assert |before[0].actions| <= |before[j].actions|;
    }
  }

  /** A goal node at the front of a layered queue records a path to a goal with as few steps as any. */
  lemma GoalShallowest<S(!new), A(!new)>(p: Problem<S, A>, closed: set<S>, closer: map<S, Node<S, A>>,
                                         before: seq<Node<S, A>>, node: Node<S, A>, path: seq<Step<S, A>>)
    requires QueueInv(p, closed, closer, before) && Covered(p, closed, closer, before)
    requires forall y :: y in closed ==> !p.isGoal(y)
    requires before != [] && node == before[0] && Follows(p, node, path)
    ensures Shallowest(p, path)
  {
    ActionsLength(path);
    forall other | IsPath(p, p.start, other) && p.isGoal(End(p.start, other))
      ensures |path| <= |other|
    {
      FrontShallowest(p, closed, closer, before, other);
    }
  }

  /** Dropping the front of a layered queue keeps it layered. */
  lemma QueueDiscardKeepsInv<S(!new), A(!new)>(p: Problem<S, A>, closed: set<S>, closer: map<S, Node<S, A>>, before: seq<Node<S, A>>)
    requires QueueInv(p, closed, closer, before) && before != []
    ensures QueueInv(p, closed, closer, before[..0] + before[1..])
  {
    assert before[..0] + before[1..] == before[1..];
  }

  /** Pushing children one level below the front of a layered queue, after dropping the front, keeps it layered. */
  lemma {:induction false} PushKeepsLayered<S(!new), A(!new)>(before: seq<Node<S, A>>, node: Node<S, A>, steps: seq<Step<S, A>>)
    requires Layered(before) && before != [] && node == before[0]
    ensures Layered(before[..0] + before[1..] + Children(node, steps))
  {
    var rest := before[..0] + before[1..];
    assert rest == before[1..];
    var pushed := Children(node, steps);
    var after := rest + pushed;
    forall i, j | 0 <= i < j < |after|
      ensures |after[i].actions| <= |after[j].actions| <= |after[i].actions| + 1
    {
      if j < |rest| {
        assert after[i] == before[i + 1] && after[j] == before[j + 1];
      } else if i < |rest| {
        assert after[i] == before[i + 1] && after[j] == pushed[j - |rest|];
        assert |before[0].actions| <= |before[i + 1].actions| <= |before[0].actions| + 1;
      } else {
        assert after[i] == pushed[i - |rest|] && after[j] == pushed[j - |rest|];
      }
    }
  }

  /**
   * Closing the state of the queue's front node and pushing its children one
   * level deeper keeps the queue layered, and the closing node is no deeper
   * than any path to its state.
   */
  lemma QueueExpandKeepsInv<S(!new), A(!new)>(p: Problem<S, A>, closed: set<S>, closer: map<S, Node<S, A>>,
                                              before: seq<Node<S, A>>, node: Node<S, A>)
    requires QueueInv(p, closed, closer, before) && Covered(p, closed, closer, before)
    requires before != [] && node == before[0] && node.state !in closed
    ensures QueueInv(p, closed + {node.state}, closer[node.state := node],
                     before[..0] + before[1..] + Children(node, p.successors(node.state)))
  {
    var x := node.state;
    PushKeepsLayered(before, node, p.successors(x));
    var closer' := closer[x := node];
    forall other | IsPath(p, p.start, other) && End(p.start, other) in closed + {x}
      ensures |closer'[End(p.start, other)].actions| <= |other|
    {
      if End(p.start, other) == x {
        FrontShallowest(p, closed, closer, before, other);
      }
    }
  }

  /**
   * The fringe's pop: removes and returns the newest node of a stack, the
   * oldest of a queue, or a node of least priority of a priority queue, and
   * the items left behind.
   */
  method Pop<S(!new), A(!new)>(order: Frontier<S, A>, items: seq<Node<S, A>>) returns (n: Node<S, A>, i: nat, rest: seq<Node<S, A>>)
    requires items != []
    ensures PoppedAt(order, items, i, n) && rest == items[..i] + items[i + 1..]
    ensures order.Stack? ==> i == |items| - 1
    ensures order.Queue? ==> i == 0
  {
    if order.Stack? {
      i := |items| - 1;
    } else if order.Queue? {
      i := 0;
    } else {
      MinimalExists(order.priority, items);
      i :| IsMinimal(order.priority, items, i);
    }
    n := items[i];
    rest := items[..i] + items[i + 1..];
  }

  /** The expansion loop: push node.branch(successor, action, stepCost) for each successor triple, in order. */
  method PushChildren<S(!new), A(!new)>(items: seq<Node<S, A>>, node: Node<S, A>, successors: seq<Step<S, A>>)
    returns (items': seq<Node<S, A>>)
    ensures items' == items + Children(node, successors)
  {
    ghost var children := Children(node, successors);
    items' := items;
    for k := 0 to |successors|
      invariant items' == items + children[..k]
    {
      items' := items' + [node.Branch(successors[k].next, successors[k].action, successors[k].cost)];
      assert children[..k + 1] == children[..k] + [children[k]];
    }
    assert children[..|successors|] == children;
  }

  /**
   * The body of the search loop after a non-goal node has been popped: the
   * first time its state is popped, close the state and push the children;
   * otherwise drop the node. Either the closed set grows or the fringe shrinks.
   */
  method Visit<S(==,!new), A(!new)>(p: Problem<S, A>, order: Frontier<S, A>, ghost h: S -> nat, ghost informed: bool,
                                    closed: set<S>, ghost closer: map<S, Node<S, A>>, ghost before: seq<Node<S, A>>,
                                    ghost expanded: seq<S>, ghost popped: seq<int>, ghost i: nat, node: Node<S, A>,
                                    rest: seq<Node<S, A>>)
    returns (closed': set<S>, fringe': seq<Node<S, A>>, ghost closer': map<S, Node<S, A>>, ghost expanded': seq<S>)
    requires SearchInv(p, order, h, informed, closed, closer, before, expanded, popped)
    requires PoppedAt(order, before, i, node) && rest == before[..i] + before[i + 1..] && !p.isGoal(node.state)
    requires order.Queue? ==> i == 0 && QueueInv(p, closed, closer, before)
    ensures node.state in closed ==> closed' == closed && fringe' == rest
    ensures node.state !in closed ==>
      closed' == closed + {node.state} && fringe' == rest + Children(node, p.successors(node.state))
    ensures expanded' == if node.state in closed then expanded else expanded + [node.state]
    ensures SearchInv(p, order, h, informed, closed', closer', fringe', expanded', LogPop(order, popped, node)) &&
            (order.Queue? ==> QueueInv(p, closed', closer', fringe'))
    ensures |p.states - closed'| < |p.states - closed| || (closed' == closed && |fringe'| < |before|)
  {
    if node.state in closed {
      DiscardKeepsInv(p, order, h, informed, closed, closer, before, expanded, popped, i, node);
      if order.Queue? {
        QueueDiscardKeepsInv(p, closed, closer, before);
      }
      closed', fringe', closer', expanded' := closed, rest, closer, expanded;
    } else {
      ExpandKeepsInv(p, order, h, informed, closed, closer, before, expanded, popped, i, node);
      if order.Queue? {
        QueueExpandKeepsInv(p, closed, closer, before, node);
      }
      ClosingShrinks(p.states, closed, node.state);
      closed' := closed + {node.state};
      closer' := closer[node.state := node];
      expanded' := expanded + [node.state];
      fringe' := PushChildren(rest, node, p.successors(node.state));
    }
  }

  /**
   * GraphSearch: a search built around one fringe discipline. `Search` pops a
   * node, returns its actions if its state is a goal, and otherwise, the first
   * time its state is popped, closes the state and pushes one child per
   * successor triple. Fringe exhausted: None (Python's False).
   */
  class GraphSearch<S(==,!new), A(!new)> {
    const order: Frontier<S, A>

    constructor (order: Frontier<S, A>)
      ensures this.order == order
    {
      this.order := order;
    }

    method Search(p: Problem<S, A>) returns (result: Option<seq<A>>, ghost expanded: seq<S>, ghost popped: seq<int>)
      requires p.Valid()
      ensures result.Some? ==> Solution(p, order, Informed(p, order), popped, result.value)
      ensures p.isGoal(p.start) ==> result == Some([])
      ensures result.None? ==> Unsolvable(p)
      ensures result.None? ==> forall path :: IsPath(p, p.start, path) ==> End(p.start, path) in expanded
      ensures forall i, j :: 0 <= i < j < |expanded| ==> expanded[i] != expanded[j]
      ensures forall s :: s in expanded ==> s in p.states && !p.isGoal(s)
      ensures Informed(p, order) ==> Sorted(popped)
    {
      var closed: set<S> := {};
      var fringe := [Root(p.start)];
      expanded, popped := [], [];
      ghost var closer: map<S, Node<S, A>> := map[];
      ghost var informed := Informed(p, order);
      ghost var h: S -> nat := NullHeuristic;
      if informed {
        h :| Consistent(p, h) && forall n :: order.priority(n) == AStarPriority(h, n);
      }
      RootFollowsEmptyPath(p);
      while true
        invariant SearchInv(p, order, h, informed, closed, closer, fringe, expanded, popped) &&
                  (order.Queue? ==> QueueInv(p, closed, closer, fringe))
        invariant p.isGoal(p.start) ==> fringe == [Root(p.start)]
        decreases |p.states - closed|, |fringe|
      {
        if fringe == [] {
          EmptyFringeMeansUnsolvable(p, order, h, informed, closed, closer, expanded, popped);
          return None, expanded, popped;
        }
        ghost var before := fringe;
        var node, i, rest := Pop(order, fringe);
        if p.isGoal(node.state) {
          GoalPopped(p, order, h, informed, closed, closer, before, expanded, popped, i, node);
          popped := LogPop(order, popped, node);
          return Some(node.actions), expanded, popped;
        }
        closed, fringe, closer, expanded := Visit(p, order, h, informed, closed, closer, before, expanded, popped, i, node, rest);
        popped := LogPop(order, popped, node);
      }
    }
  }

  // ----- The four strategies ---------------------------------------------

  /** Depth-first graph search: a stack fringe, so the newest node is popped first. */
  method DepthFirstSearch<S(==,!new), A(!new)>(p: Problem<S, A>) returns (result: Option<seq<A>>)
    requires p.Valid()
    ensures result.Some? ==> IsPlan(p, result.value)
    ensures p.isGoal(p.start) ==> result == Some([])
    ensures result.None? ==> Unsolvable(p)
  {
    var search := new GraphSearch(Stack);
    ghost var expanded, popped;
    result, expanded, popped := search.Search(p);
  }

  /** Breadth-first graph search: a queue fringe, so the oldest node is popped first and a plan it
      returns has as few actions as any plan. */
  method BreadthFirstSearch<S(==,!new), A(!new)>(p: Problem<S, A>) returns (result: Option<seq<A>>)
    requires p.Valid()
    ensures result.Some? ==> IsShallowestPlan(p, result.value)
    ensures p.isGoal(p.start) ==> result == Some([])
    ensures result.None? ==> Unsolvable(p)
  {
    var search := new GraphSearch(Queue);
    ghost var expanded, popped;
    result, expanded, popped := search.Search(p);
  }

  /** Uniform-cost search: nodes are popped in order of total cost, and a plan it
      returns is the cheapest there is. */
  method UniformCostSearch<S(==,!new), A(!new)>(p: Problem<S, A>) returns (result: Option<seq<A>>)
    requires p.Valid()
    ensures result.Some? ==> IsCheapestPlan(p, result.value)
    ensures p.isGoal(p.start) ==> result == Some([])
    ensures result.None? ==> Unsolvable(p)
  {
    var search := new GraphSearch(PriorityQueue(UniformCostPriority));
    NullHeuristicIsUniformCost<S, A>(p);
    assert Informed(p, search.order) by {
      assert forall n :: search.order.priority(n) == AStarPriority(NullHeuristic, n);
    }
    ghost var expanded, popped;
    result, expanded, popped := search.Search(p);
  }

  /** A* search: nodes are popped in order of heuristic plus total cost; with a
      consistent heuristic a plan it returns is the cheapest there is. */
  method AStarSearch<S(==,!new), A(!new)>(p: Problem<S, A>, heuristic: S -> nat) returns (result: Option<seq<A>>)
    requires p.Valid()
    ensures result.Some? ==> IsPlan(p, result.value)
    ensures result.Some? && Consistent(p, heuristic) ==> IsCheapestPlan(p, result.value)
    ensures p.isGoal(p.start) ==> result == Some([])
    ensures result.None? ==> Unsolvable(p)
  {
    var search := new GraphSearch(PriorityQueue(n => AStarPriority(heuristic, n)));
    if Consistent(p, heuristic) {
      assert Informed(p, search.order) by {
        assert forall n :: search.order.priority(n) == AStarPriority(heuristic, n);
      }
    }
    ghost var expanded, popped;
    result, expanded, popped := search.Search(p);
  }
}
