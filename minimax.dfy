/**
 * Depth-limited alpha-beta search over the reference engine: a node holds a
 * board, the colour to move and its depth; children come from the moves the
 * engine offers, each applied to a copy of the board. The search is proved to
 * agree with plain minimax inside its window, and the root's answer is proved
 * to be exactly the children of optimal value.
 */
module Minimax {
  import opened Common
  import opened BoardModel
  import opened MoveList
  import opened Rules

  // ---------------------------------------------------------------------------
  // Evaluation

  /** How many of the pieces on ks have the given kind (0 a man, 1 a king). */
  function CountKind(fs: seq<BoardField>, ks: seq<BoardPosition>, kind: int): (n: nat)
    requires |fs| == 64
    ensures n <= |ks|
  {
    if ks == [] then 0
    else (if Occupant(fs, ks[0]).Some? && Occupant(fs, ks[0]).value.kind == kind then 1 else 0) + CountKind(fs, ks[1..], kind)
  }

  /** A side's material: its men plus three for each king. */
  function Material(fs: seq<BoardField>, color: int): (m: int)
    requires Layout(fs)
    ensures 0 <= m <= 256
  {
    var ks := CheckersOf(fs, color);
    CountKind(fs, ks, 0) + 3 * CountKind(fs, ks, 1)
  }

  /** `h()`: the agent's material minus the other side's. */
  function H(fs: seq<BoardField>, agent: int): (h: int)
    requires Layout(fs)
    ensures -256 <= h <= 256
  {
    Material(fs, agent) - Material(fs, Opponent(agent))
  }

  /** `value(color)`: h for the agent, its negation for the other side. */
  function Value(fs: seq<BoardField>, color: int, agent: int): int
    requires Layout(fs)
  {
    if color == agent then H(fs, agent) else -H(fs, agent)
  }

  /** For two players, the value for either side is h measured from that side: the game is zero-sum. */
  lemma ValueFromOwnSide(fs: seq<BoardField>, color: int, agent: int)
    requires Layout(fs) && (color == 0 || color == 1) && (agent == 0 || agent == 1)
    ensures Value(fs, color, agent) == H(fs, color)
    ensures H(fs, Opponent(agent)) == -H(fs, agent)
  {
  }

  // ---------------------------------------------------------------------------
  // The game tree

  /** A search node: the board, the colour to move, the depth (`level`) and the move that led here. */
  datatype Node = Node(state: seq<BoardField>, color: int, level: nat, action: string)

  predicate NodeOk(n: Node) { Layout(n.state) && n.level <= 6 }

  /** `Node(state, color)` without a parent: depth 0 and no action. */
  function RootNode(fs: seq<BoardField>, color: int): (n: Node)
    requires Layout(fs)
    ensures NodeOk(n) && n.level == 0
  {
    Node(fs, color, 0, "")
  }

  /** `terminalTest`: the search stops at depth 6. */
  predicate Terminal(n: Node) { n.level == 6 }

  /**
   * `makeChildren`: one child per move offered to the colour to move, in the
   * order offered, one level deeper and with the other colour to move.
   */
  function Children(n: Node): (cs: seq<Node>)
    requires Layout(n.state)
    ensures forall i :: 0 <= i < |cs| ==>
      Layout(cs[i].state) && cs[i].level == n.level + 1 && cs[i].color == Opponent(n.color)
  {
    AllMovesAccepted(n.state, n.color);
    ChildrenOf(n, NextMovesSpec(n.state, n.color))
  }

  /**
   * The child for each move: it records the move and holds `nextState(move)`,
   * the board after `go(move)` on a copy (the parent's board is a separate value).
   */
  function ChildrenOf(n: Node, moves: seq<string>): (cs: seq<Node>)
    requires Layout(n.state) && forall m :: m in moves ==> GoSpec(n.state, m).Some?
    ensures |cs| == |moves|
    ensures forall i :: 0 <= i < |cs| ==>
      Layout(cs[i].state) && cs[i].level == n.level + 1 && cs[i].color == Opponent(n.color)
  {
    if moves == [] then []
    else [Node(GoSpec(n.state, moves[0]).value, Opponent(n.color), n.level + 1, moves[0])] + ChildrenOf(n, moves[1..])
  }

  lemma AllMovesAccepted(fs: seq<BoardField>, color: int)
    requires Layout(fs)
    ensures forall m :: m in NextMovesSpec(fs, color) ==> GoSpec(fs, m).Some?
  {
    forall m | m in NextMovesSpec(fs, color)
      ensures GoSpec(fs, m).Some?
    {
      GeneratedMovesAccepted(fs, color, m);
    }
  }

  /** ChildrenOf follows the moves one for one, each child holding the board its move leads to. */
  lemma {:induction false} ChildrenOfFollow(n: Node, moves: seq<string>)
    requires Layout(n.state) && forall m :: m in moves ==> GoSpec(n.state, m).Some?
    ensures forall i :: 0 <= i < |moves| ==>
      ChildrenOf(n, moves)[i].action == moves[i] && Some(ChildrenOf(n, moves)[i].state) == GoSpec(n.state, moves[i])
  {
    if moves != [] {
      ChildrenOfFollow(n, moves[1..]);
    }
  }

  /** A node has one child per offered move, in order, each recording its move and holding the board `go` leaves. */
  lemma ChildrenFollowMoves(n: Node)
    requires Layout(n.state)
    ensures |Children(n)| == |NextMovesSpec(n.state, n.color)|
    ensures forall i :: 0 <= i < |Children(n)| ==>
      Children(n)[i].action == NextMovesSpec(n.state, n.color)[i] &&
      Some(Children(n)[i].state) == GoSpec(n.state, NextMovesSpec(n.state, n.color)[i])
  {
    AllMovesAccepted(n.state, n.color);
    ChildrenOfFollow(n, NextMovesSpec(n.state, n.color));
  }

  // ---------------------------------------------------------------------------
  // Plain minimax, the reference for the search

  function Max(a: int, b: int): int { if a >= b then a else b }
  function Min(a: int, b: int): int { if a <= b then a else b }

  /** The largest of v and the xs, folded left to right. */
  function MaxOf(v: int, xs: seq<int>): (r: int)
    ensures r >= v && forall i :: 0 <= i < |xs| ==> r >= xs[i]
    ensures r == v || exists i :: 0 <= i < |xs| && r == xs[i]
  {
    if xs == [] then v else Max(MaxOf(v, xs[..|xs| - 1]), xs[|xs| - 1])
  }

  /** The smallest of v and the xs, folded left to right. */
  function MinOf(v: int, xs: seq<int>): (r: int)
    ensures r <= v && forall i :: 0 <= i < |xs| ==> r <= xs[i]
    ensures r == v || exists i :: 0 <= i < |xs| && r == xs[i]
  {
    if xs == [] then v else Min(MinOf(v, xs[..|xs| - 1]), xs[|xs| - 1])
  }

  /**
   * The game tree below a node as the search reads it: whether the node is
   * terminal, the value it is created with (h for the agent) and the trees of
   * its children in `makeChildren` order.
   */
  datatype Tree = Tree(terminal: bool, h: int, kids: seq<Tree>)

  /** Every value in the tree lies in [-1000, 1000], the range the search's sentinels bound. */
  predicate Bounded(t: Tree)
    decreases t
  {
    -1000 <= t.h <= 1000 && forall i :: 0 <= i < |t.kids| ==> Bounded(t.kids[i])
  }

  /** The tree a node roots: terminal at depth 6 (its children are never built), else one subtree per child. */
  function Expand(n: Node, agent: int): (t: Tree)
    requires NodeOk(n)
    ensures t.terminal <==> n.level == 6
    ensures t.h == H(n.state, agent) && (t.terminal ==> t.kids == [])
    ensures Bounded(t)
    decreases 6 - n.level, 0
  {
    if n.level == 6 then Tree(true, H(n.state, agent), [])
    else Tree(false, H(n.state, agent), ExpandAll(Children(n), n.level + 1, agent))
  }

  /** The trees a list of nodes at depth l root, in order. */
  function ExpandAll(cs: seq<Node>, l: nat, agent: int): (ts: seq<Tree>)
    requires l <= 6 && forall i :: 0 <= i < |cs| ==> Layout(cs[i].state) && cs[i].level == l
    ensures |ts| == |cs| && forall i :: 0 <= i < |cs| ==> ts[i] == Expand(cs[i], agent)
    decreases 6 - l, 1
  {
    seq(|cs|, i requires 0 <= i < |cs| => Expand(cs[i], agent))
  }

  /** The minimax value of a tree whose root the agent moves from: h when terminal, else the best child value, -1000 with no child. */
  function MaxT(t: Tree): int
    decreases t, 1
  {
    if t.terminal then t.h else MaxOf(-1000, MinsOf(t.kids))
  }

  /** The minimax value of a tree whose root the opponent moves from: h when terminal, else the worst child value, 1000 with no child. */
  function MinT(t: Tree): int
    decreases t, 1
  {
    if t.terminal then t.h else MinOf(1000, MaxsOf(t.kids))
  }

  function MinsOf(ks: seq<Tree>): (ts: seq<int>)
    ensures |ts| == |ks|
    decreases ks, 0
  {
    seq(|ks|, i requires 0 <= i < |ks| => MinT(ks[i]))
  }

  function MaxsOf(ks: seq<Tree>): (ts: seq<int>)
    ensures |ts| == |ks|
    decreases ks, 0
  {
    seq(|ks|, i requires 0 <= i < |ks| => MaxT(ks[i]))
  }

  /** The minimax value of a node the agent moves from. */
  function MaxSpec(n: Node, agent: int): int
    requires NodeOk(n)
  {
    MaxT(Expand(n, agent))
  }

  /** The minimax value of a node the opponent moves from. */
  function MinSpec(n: Node, agent: int): int
    requires NodeOk(n)
  {
    MinT(Expand(n, agent))
  }

  // ---------------------------------------------------------------------------
  // The window property

  /**
   * g is what a search with window [a, b] may answer for a node of minimax
   * value m: exactly m inside the window, an upper bound of m below it and a
   * lower bound of m above it.
   */
  predicate FailSoft(g: int, a: int, b: int, m: int)
  {
    (g < a ==> m <= g) && (b < g ==> g <= m) && (a <= g <= b ==> g == m)
  }

  /**
   * The state of `maxValue`'s loop after i children, over plain integers: ts
   * are the children's minimax values, vals the values stored in the children,
   * alphas the lower bound each visited child was searched with.
   */
  ghost predicate MaxScan(a: int, b: int, ts: seq<int>, vals: seq<int>, alphas: seq<int>, i: int, v: int, alpha: int)
  {
    0 <= i <= |ts| && |vals| == |ts| && |alphas| == i && MaxFront(a, b, ts, i, v, alpha) && MaxVisited(a, b, ts, vals, alphas, i, v)
  }

  /** The running maximum v and the lower bound alpha after i children. */
  ghost predicate MaxFront(a: int, b: int, ts: seq<int>, i: int, v: int, alpha: int)
    requires 0 <= i <= |ts|
  {
    -1000 <= v <= b && v <= 1000 &&
    alpha == (if i == 0 then a else Max(a, v)) &&
    (v < a ==> MaxOf(-1000, ts[..i]) <= v) && (a <= v ==> MaxOf(-1000, ts[..i]) == v)
  }

  /** Each child visited was searched with a lower bound at most alpha, and its answer is within the window property. */
  ghost predicate MaxVisited(a: int, b: int, ts: seq<int>, vals: seq<int>, alphas: seq<int>, i: int, v: int)
    requires 0 <= i <= |ts| && |vals| == |ts| && |alphas| == i
  {
    forall j :: 0 <= j < i ==> alphas[j] <= Max(a, v) && vals[j] <= v && FailSoft(vals[j], alphas[j], b, ts[j])
  }

  lemma MaxScanStart(a: int, b: int, ts: seq<int>, vals: seq<int>)
    requires a <= b && -1000 <= b && |vals| == |ts|
    ensures MaxScan(a, b, ts, vals, [], 0, -1000, a)
  {
  }

  /** One child of `maxValue` that does not cut off: w is the child's answer for window [alpha, b]. */
  lemma MaxScanStep(a: int, b: int, ts: seq<int>, vals: seq<int>, alphas: seq<int>, i: int, v: int, alpha: int, w: int)
    requires MaxScan(a, b, ts, vals, alphas, i, v, alpha) && i < |ts|
    requires -1000 <= w <= 1000 && FailSoft(w, alpha, b, ts[i]) && Max(v, w) <= b
    ensures MaxScan(a, b, ts, vals[i := w], alphas + [alpha], i + 1, Max(v, w), Max(alpha, Max(v, w)))
  {
    MaxOfSnoc(-1000, ts, i);
  }

  /** One child of `maxValue` that cuts off: its answer exceeds b, and so does the node's minimax value. */
  lemma MaxScanCut(a: int, b: int, ts: seq<int>, vals: seq<int>, alphas: seq<int>, i: int, v: int, alpha: int, w: int)
    requires MaxScan(a, b, ts, vals, alphas, i, v, alpha) && i < |ts|
    requires a <= b && -1000 <= w <= 1000 && FailSoft(w, alpha, b, ts[i]) && b < Max(v, w)
    ensures FailSoft(Max(v, w), a, b, MaxOf(-1000, ts))
  {
    assert w == Max(v, w) && ts[i] >= w;
    MaxOfSnoc(-1000, ts, i);
    MaxOfPrefix(-1000, ts, i + 1);
  }

  /** The fold over one more element. */
  lemma MaxOfSnoc(v: int, xs: seq<int>, i: int)
    requires 0 <= i < |xs|
    ensures MaxOf(v, xs[..i + 1]) == Max(MaxOf(v, xs[..i]), xs[i])
  {
    assert xs[..i + 1][..i] == xs[..i];
  }

  lemma MinOfSnoc(v: int, xs: seq<int>, i: int)
    requires 0 <= i < |xs|
    ensures MinOf(v, xs[..i + 1]) == Min(MinOf(v, xs[..i]), xs[i])
  {
    assert xs[..i + 1][..i] == xs[..i];
  }

  lemma MaxScanDone(a: int, b: int, ts: seq<int>, vals: seq<int>, alphas: seq<int>, v: int, alpha: int)
    requires MaxScan(a, b, ts, vals, alphas, |ts|, v, alpha)
    ensures FailSoft(v, a, b, MaxOf(-1000, ts))
    ensures a <= -1000 && 1000 <= b ==> forall j :: 0 <= j < |ts| ==> (vals[j] == v <==> ts[j] == MaxOf(-1000, ts))
  {
    assert ts[..|ts|] == ts;
  }

  /** A prefix's maximum is at most the whole sequence's. */
  lemma {:induction false} MaxOfPrefix(v: int, xs: seq<int>, k: nat)
    requires k <= |xs|
    ensures MaxOf(v, xs[..k]) <= MaxOf(v, xs)
    decreases |xs| - k
  {
    if k < |xs| {
      assert xs[..k + 1][..k] == xs[..k];
      MaxOfPrefix(v, xs, k + 1);
    } else {
      assert xs[..k] == xs;
    }
  }

  /** A prefix's minimum is at least the whole sequence's. */
  lemma {:induction false} MinOfPrefix(v: int, xs: seq<int>, k: nat)
    requires k <= |xs|
    ensures MinOf(v, xs[..k]) >= MinOf(v, xs)
    decreases |xs| - k
  {
    if k < |xs| {
      assert xs[..k + 1][..k] == xs[..k];
      MinOfPrefix(v, xs, k + 1);
    } else {
      assert xs[..k] == xs;
    }
  }

  /** The state of `minValue`'s loop after i children: the mirror image of MaxScan. */
  ghost predicate MinScan(a: int, b: int, ts: seq<int>, i: int, v: int, beta: int)
  {
    0 <= i <= |ts| &&
    a <= v <= 1000 && -1000 <= v &&
    beta == (if i == 0 then b else Min(b, v)) &&
    (b < v ==> v <= MinOf(1000, ts[..i])) && (v <= b ==> MinOf(1000, ts[..i]) == v)
  }

  lemma MinScanStart(a: int, b: int, ts: seq<int>)
    requires a <= b && a <= 1000
    ensures MinScan(a, b, ts, 0, 1000, b)
  {
  }

  /** One child of `minValue` that does not cut off: w is the child's answer for window [a, beta]. */
  lemma MinScanStep(a: int, b: int, ts: seq<int>, i: int, v: int, beta: int, w: int)
    requires MinScan(a, b, ts, i, v, beta) && i < |ts|
    requires -1000 <= w <= 1000 && FailSoft(w, a, beta, ts[i]) && a <= Min(v, w)
    ensures MinScan(a, b, ts, i + 1, Min(v, w), Min(beta, Min(v, w)))
  {
    MinOfSnoc(1000, ts, i);
  }

  /** One child of `minValue` that cuts off: its answer is below a, and so is the node's minimax value. */
  lemma MinScanCut(a: int, b: int, ts: seq<int>, i: int, v: int, beta: int, w: int)
    requires MinScan(a, b, ts, i, v, beta) && i < |ts|
    requires a <= b && -1000 <= w <= 1000 && FailSoft(w, a, beta, ts[i]) && Min(v, w) < a
    ensures FailSoft(Min(v, w), a, b, MinOf(1000, ts))
  {
    assert w == Min(v, w) && ts[i] <= w;
    MinOfSnoc(1000, ts, i);
    MinOfPrefix(1000, ts, i + 1);
  }

  lemma MinScanDone(a: int, b: int, ts: seq<int>, v: int, beta: int)
    requires MinScan(a, b, ts, |ts|, v, beta)
    ensures FailSoft(v, a, b, MinOf(1000, ts))
  {
    assert ts[..|ts|] == ts;
  }

  // ---------------------------------------------------------------------------
  // The search

  /** Minimax values of a bounded tree stay in [-1000, 1000]. */
  lemma {:induction false} TreeValuesBounded(t: Tree)
    requires Bounded(t)
    ensures -1000 <= MaxT(t) <= 1000 && -1000 <= MinT(t) <= 1000
    decreases t
  {
    if !t.terminal {
      forall i | 0 <= i < |t.kids|
        ensures -1000 <= MaxT(t.kids[i]) <= 1000 && -1000 <= MinT(t.kids[i]) <= 1000
      {
        TreeValuesBounded(t.kids[i]);
      }
    }
  }

  /**
   * `maxValue(state, a, beta)`. Besides its answer it returns the values left
   * in the children's `value` fields: the answers of the children searched and
   * the initial h of those a cut-off skips (none for a terminal node, whose
   * children are never built).
   */
  method MaxValue(t: Tree, a: int, b: int) returns (v: int, vals: seq<int>)
    requires Bounded(t) && a <= b && a <= 1000 && -1000 <= b
    ensures -1000 <= v <= 1000
    ensures FailSoft(v, a, b, MaxT(t))
    ensures !t.terminal ==> |vals| == |t.kids|
    ensures !t.terminal && a <= -1000 && 1000 <= b ==>
      forall i :: 0 <= i < |vals| ==> (vals[i] == v <==> MinT(t.kids[i]) == MaxT(t))
    decreases t
  {
    if t.terminal {
      return t.h, [];
    }
    var ks := t.kids;
    ghost var ts := MinsOf(ks);
    var alpha := a;
    v := -1000;
    vals := seq(|ks|, j requires 0 <= j < |ks| => ks[j].h);
    ghost var alphas: seq<int> := [];
    MaxScanStart(a, b, ts, vals);
    var i := 0;
    while i < |ks|
      invariant MaxScan(a, b, ts, vals, alphas, i, v, alpha)
    {
      var w := MinValue(ks[i], alpha, b);
      if b < Max(v, w) {
        MaxScanCut(a, b, ts, vals, alphas, i, v, alpha, w);
        v := Max(v, w);
        vals := vals[i := w];
        return;
      }
      MaxScanStep(a, b, ts, vals, alphas, i, v, alpha, w);
      vals := vals[i := w];
      alphas := alphas + [alpha];
      v := Max(v, w);
      alpha := Max(alpha, v);
      i := i + 1;
    }
    MaxScanDone(a, b, ts, vals, alphas, v, alpha);
  }

  /** `minValue(state, alpha, b)`: the mirror image of MaxValue. */
  method MinValue(t: Tree, a: int, b: int) returns (v: int)
    requires Bounded(t) && a <= b && a <= 1000 && -1000 <= b
    ensures -1000 <= v <= 1000
    ensures FailSoft(v, a, b, MinT(t))
    decreases t
  {
    if t.terminal {
      return t.h;
    }
    var ks := t.kids;
    ghost var ts := MaxsOf(ks);
    var beta := b;
    v := 1000;
    MinScanStart(a, b, ts);
    var i := 0;
    while i < |ks|
      invariant MinScan(a, b, ts, i, v, beta)
    {
      var w, _ := MaxValue(ks[i], a, beta);
      if Min(v, w) < a {
        MinScanCut(a, b, ts, i, v, beta, w);
        v := Min(v, w);
        return;
      }
      MinScanStep(a, b, ts, i, v, beta, w);
      v := Min(v, w);
      beta := Min(beta, v);
      i := i + 1;
    }
    MinScanDone(a, b, ts, v, beta);
  }

  /** The children whose value in xs equals x, in order. */
  function Chosen(cs: seq<Node>, xs: seq<int>, x: int): (r: seq<Node>)
    requires |xs| == |cs|
    ensures forall c :: c in r <==> exists i :: 0 <= i < |cs| && cs[i] == c && xs[i] == x
    ensures r == [] <==> forall i :: 0 <= i < |cs| ==> xs[i] != x
  {
    if cs == [] then []
    else
      var rest := Chosen(cs[1..], xs[1..], x);
      assert forall i :: 1 <= i < |cs| ==> cs[1..][i - 1] == cs[i] && xs[1..][i - 1] == xs[i];
      (if xs[0] == x then [cs[0]] else []) + rest
  }

  /** Filtering by two criteria that agree child by child gives the same children. */
  lemma {:induction false} ChosenAgree(cs: seq<Node>, xs: seq<int>, x: int, ys: seq<int>, y: int)
    requires |xs| == |cs| && |ys| == |cs|
    requires forall i :: 0 <= i < |cs| ==> (xs[i] == x <==> ys[i] == y)
    ensures Chosen(cs, xs, x) == Chosen(cs, ys, y)
  {
    if cs != [] {
      ChosenAgree(cs[1..], xs[1..], x, ys[1..], y);
    }
  }

  /** The children of optimal minimax value: those whose own value, the opponent moving, equals the node's. */
  function Optimal(n: Node, agent: int): seq<Node>
    requires NodeOk(n) && n.level < 6
  {
    Chosen(Children(n), MinsOf(Expand(n, agent).kids), MaxSpec(n, agent))
  }

  /**
   * Chosen over the opponent-to-move values of a list of trees: with the
   * children's trees (ExpandAll) this reads Optimal as "the children whose
   * minimax value equals their parent's".
   */
  lemma ChosenByValue(cs: seq<Node>, ks: seq<Tree>, x: int, c: Node)
    requires |cs| == |ks|
    ensures c in Chosen(cs, MinsOf(ks), x) <==> exists i :: 0 <= i < |cs| && cs[i] == c && MinT(ks[i]) == x
  {
    assert forall i :: 0 <= i < |cs| ==> MinsOf(ks)[i] == MinT(ks[i]);
  }

  /** Some child of a non-terminal tree attains its value, when it has a child at all. */
  lemma BestChildExists(t: Tree)
    requires Bounded(t) && !t.terminal && t.kids != []
    ensures exists i :: 0 <= i < |t.kids| && MinT(t.kids[i]) == MaxT(t)
  {
    var ts := MinsOf(t.kids);
    TreeValuesBounded(t.kids[0]);
    assert ts[0] == MinT(t.kids[0]) >= -1000;
  }

  /**
   * What MaxValue promises at a root searched with the full window picks out
   * exactly the children of optimal value, and at least one when there is a child.
   */
  lemma ChoiceIsOptimal(cs: seq<Node>, t: Tree, v: int, vals: seq<int>)
    requires Bounded(t) && !t.terminal && |cs| == |t.kids| && |vals| == |t.kids|
    requires -1000 <= v <= 1000 && FailSoft(v, -1000, 1000, MaxT(t))
    requires forall i :: 0 <= i < |vals| ==> (vals[i] == v <==> MinT(t.kids[i]) == MaxT(t))
    ensures Chosen(cs, vals, v) == Chosen(cs, MinsOf(t.kids), MaxT(t))
    ensures Chosen(cs, vals, v) == [] <==> cs == []
  {
    ChosenAgree(cs, vals, v, MinsOf(t.kids), MaxT(t));
    if cs != [] {
      BestChildExists(t);
    }
  }

  /**
   * `alphaBetaSearch(state)`: the agent is the colour to move at the root; the
   * answer is the children whose stored value equals the root's value, or None
   * when there are none. They are exactly the children of optimal minimax value,
   * and there are none only when the root has no move.
   */
  method AlphaBetaSearch(root: Node) returns (best: Option<seq<Node>>)
    requires Layout(root.state) && root.level == 0
    ensures best.None? <==> NextMovesSpec(root.state, root.color) == []
    ensures best.Some? ==> best.value == Optimal(root, root.color)
  {
    var agent := root.color;
    var t := Expand(root, agent);
    var v, vals := MaxValue(t, -1000, 1000);
    var cs := Children(root);
    ChoiceIsOptimal(cs, t, v, vals);
    ChildrenFollowMoves(root);
    var states := Chosen(cs, vals, v);
    if states == [] {
      best := None;
    } else {
      best := Some(states);
    }
  }
}
