/**
 The bst workload: a tree of heap nodes built by repeated insertion, and a search that takes one
 step per iteration and keeps its cursor between calls.
 */
module Bst {
  import opened Iteration
  import opened Random

  class BstNode {
    const value: int
    var falseValue: int
    var left: BstNode?
    var right: BstNode?

    constructor (value: int)
      ensures this.value == value && left == null && right == null
    {
      this.value := value;
      falseValue := 0;
      left := null;
      right := null;
    }
  }

  // ----- the shape of a tree in the heap

  datatype Tree = Leaf | Fork(left: Tree, node: BstNode, right: Tree)

  ghost function Nodes(t: Tree): set<BstNode> {
    if t.Leaf? then {} else Nodes(t.left) + {t.node} + Nodes(t.right)
  }

  /** p points to a heap tree of shape t, no node of which occurs twice. */
  ghost predicate Holds(t: Tree, p: BstNode?)
    reads Nodes(t)`left, Nodes(t)`right
  {
    match t
    case Leaf => p == null
    case Fork(l, n, r) =>
      && p == n && Holds(l, n.left) && Holds(r, n.right)
      && n !in Nodes(l) && n !in Nodes(r) && Nodes(l) !! Nodes(r)
  }

  ghost function InOrder(t: Tree): seq<int> {
    if t.Leaf? then [] else InOrder(t.left) + [t.node.value] + InOrder(t.right)
  }

  function Height(t: Tree): nat {
    if t.Leaf? then 0
    else 1 + if Height(t.left) > Height(t.right) then Height(t.left) else Height(t.right)
  }

  /** left < node <= right at every node. */
  ghost predicate Ordered(t: Tree) {
    t.Fork? ==>
      && Ordered(t.left) && Ordered(t.right)
      && (forall n | n in Nodes(t.left) :: n.value < t.node.value)
      && (forall n | n in Nodes(t.right) :: t.node.value <= n.value)
  }

  ghost predicate Sorted(s: seq<int>) {
    forall i, j | 0 <= i < j < |s| :: s[i] <= s[j]
  }

  // ----- insertion

  ghost function InsertTree(t: Tree, n: BstNode): Tree {
    match t
    case Leaf => Fork(Leaf, n, Leaf)
    case Fork(l, m, r) => if n.value < m.value then Fork(InsertTree(l, n), m, r) else Fork(l, m, InsertTree(r, n))
  }

  lemma {:induction false} InsertAddsNode(t: Tree, n: BstNode)
    ensures Nodes(InsertTree(t, n)) == Nodes(t) + {n}
  {
    if t.Fork? {
      if n.value < t.node.value { InsertAddsNode(t.left, n); } else { InsertAddsNode(t.right, n); }
    }
  }

  /** Insertion keeps left < node <= right. */
  lemma {:induction false} InsertKeepsOrder(t: Tree, n: BstNode)
    requires Ordered(t)
    ensures Ordered(InsertTree(t, n))
  {
    if t.Fork? {
      if n.value < t.node.value {
        InsertAddsNode(t.left, n);
        InsertKeepsOrder(t.left, n);
      } else {
        InsertAddsNode(t.right, n);
        InsertKeepsOrder(t.right, n);
      }
    }
  }

  /** The values of a tree, with their multiplicities. */
  ghost function Bag(t: Tree): multiset<int> {
    if t.Leaf? then multiset{} else Bag(t.left) + multiset{t.node.value} + Bag(t.right)
  }

  lemma {:induction false} BagIsInOrder(t: Tree)
    ensures multiset(InOrder(t)) == Bag(t)
  {
    if t.Fork? {
      BagIsInOrder(t.left);
      BagIsInOrder(t.right);
    }
  }

  /** Insertion adds exactly the inserted value. */
  lemma {:induction false} InsertAddsValue(t: Tree, n: BstNode)
    ensures Bag(InsertTree(t, n)) == Bag(t) + multiset{n.value}
  {
    if t.Fork? {
      if n.value < t.node.value { InsertAddsValue(t.left, n); } else { InsertAddsValue(t.right, n); }
    }
  }

  /** The tree without the leaf n. */
  ghost function Pruned(t: Tree, n: BstNode): Tree {
    if t.Leaf? || t == Fork(Leaf, n, Leaf) then Leaf else Fork(Pruned(t.left, n), t.node, Pruned(t.right, n))
  }

  lemma {:induction false} PrunedKeeps(t: Tree, n: BstNode)
    requires n !in Nodes(t)
    ensures Pruned(t, n) == t
  {
    if t.Fork? {
      assert t.node in Nodes(t);
      PrunedKeeps(t.left, n);
      PrunedKeeps(t.right, n);
    }
  }

  /** Insertion hangs the node in as a leaf and moves no other node. */
  lemma {:induction false} InsertHangsLeaf(t: Tree, n: BstNode)
    requires n !in Nodes(t)
    ensures SubTree(Fork(Leaf, n, Leaf), InsertTree(t, n)) && Pruned(InsertTree(t, n), n) == t
  {
    if t.Fork? {
      assert t.node in Nodes(t);
      PrunedKeeps(t.left, n);
      PrunedKeeps(t.right, n);
      if n.value < t.node.value { InsertHangsLeaf(t.left, n); } else { InsertHangsLeaf(t.right, n); }
    }
  }

  lemma {:induction false} InOrderValues(t: Tree)
    ensures forall v :: v in InOrder(t) <==> exists n :: n in Nodes(t) && n.value == v
  {
    if t.Fork? {
      InOrderValues(t.left);
      InOrderValues(t.right);
      assert t.node in Nodes(t);
    }
  }

  lemma {:induction false} OrderedIsSorted(t: Tree)
    requires Ordered(t)
    ensures Sorted(InOrder(t))
  {
    if t.Fork? {
      OrderedIsSorted(t.left);
      OrderedIsSorted(t.right);
      InOrderValues(t.left);
      InOrderValues(t.right);
      var l, r := InOrder(t.left), InOrder(t.right);
      forall i | 0 <= i < |l| ensures l[i] < t.node.value { assert l[i] in l; }
      forall i | 0 <= i < |r| ensures t.node.value <= r[i] { assert r[i] in r; }
    }
  }

  /** _insert_bst_node: walk down from head and hang the node off the first missing child. */
  method InsertBelow(head: BstNode, n: BstNode, ghost t: Tree, ghost all: set<BstNode>)
    requires Holds(t, head) && Nodes(t) <= all && n !in all && n.left == null && n.right == null
    modifies Nodes(t)`left, Nodes(t)`right
    ensures Holds(InsertTree(t, n), head)
    decreases t
  {
    ghost var l, r := t.left, t.right;
    InsertAddsNode(l, n);
    InsertAddsNode(r, n);
    assert Nodes(l) <= all && Nodes(r) <= all && head in all;
    if n.value < head.value {
      if head.left != null {
        InsertBelow(head.left, n, l, all);
      } else {
        head.left := n;
        assert Holds(Leaf, n.left) && Holds(Leaf, n.right);
      }
    } else {
      if head.right != null {
        InsertBelow(head.right, n, r, all);
      } else {
        head.right := n;
        assert Holds(Leaf, n.left) && Holds(Leaf, n.right);
      }
    }
  }

  // ----- building the tree

  /** The (int) cast of a random draw. */
  function ToInt(x: bv32): int {
    if x as int < 0x8000_0000 then x as int else x as int - 0x1_0000_0000
  }

  /** The cast gives the one int that is congruent to the draw modulo 2^32. */
  lemma CastExact(x: bv32)
    ensures -0x8000_0000 <= ToInt(x) < 0x8000_0000
    ensures ToInt(x) % 0x1_0000_0000 == x as int
  {
    HalfWrap(x as int, if x as int < 0x8000_0000 then 0 else 1);
  }

  lemma HalfWrap(n: int, k: int)
    requires 0 <= n < 0x1_0000_0000
    ensures (n - k * 0x1_0000_0000) % 0x1_0000_0000 == n
  {
  }

  /** The first n values drawn after a seed. */
  ghost function Values(seed: bv32, n: nat): seq<int> {
    if n == 0 then [] else Values(seed, n - 1) + [ToInt(Draw(Next32, seed, n))]
  }

  /** insert_bst_node */
  method InsertNode(head: BstNode?, n: BstNode, ghost t: Tree, ghost all: set<BstNode>) returns (root: BstNode)
    requires Holds(t, head) && Nodes(t) <= all && n !in all && n.left == null && n.right == null
    modifies Nodes(t)`left, Nodes(t)`right
    ensures Holds(InsertTree(t, n), root)
  {
    if head == null {
      assert t == Leaf;
      assert Holds(Leaf, n.left) && Holds(Leaf, n.right);
      root := n;
    } else {
      InsertBelow(head, n, t, all);
      root := head;
    }
  }

  lemma InsertDrawn(t: Tree, n: BstNode, seed: bv32, i: nat)
    requires Ordered(t) && Bag(t) == multiset(Values(seed, i)) && n.value == ToInt(Next32(Draw(Next32, seed, i)))
    ensures Ordered(InsertTree(t, n)) && Nodes(InsertTree(t, n)) == Nodes(t) + {n}
    ensures Bag(InsertTree(t, n)) == multiset(Values(seed, i + 1))
    ensures Next32(Draw(Next32, seed, i)) == Draw(Next32, seed, i + 1)
  {
    InsertKeepsOrder(t, n);
    InsertAddsValue(t, n);
    InsertAddsNode(t, n);
  }

  /** After i rounds of the build loop: an ordered heap tree of the first i draws. */
  ghost predicate Built(t: Tree, head: BstNode?, all: set<BstNode>, rand: bv32, seed: bv32, i: nat)
    reads all`left, all`right
  {
    && Nodes(t) == all && Holds(t, head) && Ordered(t)
    && Bag(t) == multiset(Values(seed, i)) && rand == Draw(Next32, seed, i)
  }

  /** The body of the build loop of bst_init_group. */
  method AddDrawn(head: BstNode?, rand: bv32, ghost t: Tree, ghost all: set<BstNode>, ghost seed: bv32, ghost i: nat)
    returns (root: BstNode, next: bv32, ghost u: Tree, ghost more: set<BstNode>)
    requires Built(t, head, all, rand, seed, i)
    modifies all`left, all`right
    ensures Built(u, root, more, next, seed, i + 1) && fresh(more - all)
  {
    next := Next32(rand);
    var n := new BstNode(ToInt(next));
    InsertDrawn(t, n, seed, i);
    root := InsertNode(head, n, t, all);
    u, more := InsertTree(t, n), all + {n};
  }

  /** The build loop of bst_init_group, for a given seed. */
  method BuildTree(numElements: nat, seed: bv32)
    returns (head: BstNode?, rand: bv32, ghost t: Tree, ghost all: set<BstNode>)
    ensures Built(t, head, all, rand, seed, numElements) && fresh(all)
  {
    head, rand, t, all := null, seed, Leaf, {};
    for i := 0 to numElements
      invariant Built(t, head, all, rand, seed, i) && fresh(all)
    {
      head, rand, t, all := AddDrawn(head, rand, t, all, seed, i);
    }
  }

  /** bst_init_group, for a given seed: the tree, and one more draw as the value to find. */
  method InitGroup(numElements: nat, seed: bv32)
    returns (head: BstNode?, findingValue: int, ghost t: Tree, ghost all: set<BstNode>)
    ensures exists rand :: Built(t, head, all, rand, seed, numElements)
    ensures findingValue == ToInt(Draw(Next32, seed, numElements + 1)) && fresh(all)
  {
    var rand;
    head, rand, t, all := BuildTree(numElements, seed);
    findingValue := ToInt(Next32(rand));
  }

  lemma {:induction false} ValuesCount(seed: bv32, n: nat)
    ensures |Values(seed, n)| == n
  {
    if n > 0 { ValuesCount(seed, n - 1); }
  }

  /** The built tree has one node for each drawn value and lists the values in order. */
  lemma BuiltIsSorted(t: Tree, seed: bv32, n: nat)
    requires Ordered(t) && Bag(t) == multiset(Values(seed, n))
    ensures Sorted(InOrder(t)) && multiset(InOrder(t)) == multiset(Values(seed, n)) && |InOrder(t)| == n
  {
    OrderedIsSorted(t);
    BagIsInOrder(t);
    ValuesCount(seed, n);
    assert |InOrder(t)| == |multiset(InOrder(t))| == |Values(seed, n)|;
  }

  // ----- searching one step at a time

  /** The persistent state of a task's search: where it is, what it looks for (0: nothing), the random
      register, and the nodes whose false_value it has incremented. */
  datatype Search = Search(cursor: Tree, finding: int, rand: bv32, bumped: seq<BstNode>)

  /** One iteration of bst_do_work. */
  ghost function SearchStep(t: Tree, s: Search): Search {
    if s.finding == 0 then
      s.(rand := Next32(s.rand), finding := ToInt(Next32(s.rand)), cursor := t)
    else if s.cursor.Leaf? then s
    else
      var n := s.cursor.node;
      var next := if s.finding < n.value then s.cursor.left else if s.finding > n.value then s.cursor.right else Leaf;
      if next.Leaf? || s.finding == n.value then s.(finding := 0, bumped := s.bumped + [n])
      else s.(cursor := next)
  }

  ghost function Searching(t: Tree): Search -> Search {
    (s: Search) => SearchStep(t, s)
  }

  ghost predicate SubTree(u: Tree, t: Tree) {
    u == t || (t.Fork? && (SubTree(u, t.left) || SubTree(u, t.right)))
  }

  lemma {:induction false} SubTreeHolds(u: Tree, t: Tree, p: BstNode?)
    requires Holds(t, p) && SubTree(u, t) && u.Fork?
    ensures Nodes(u) <= Nodes(t) && Holds(u, u.node)
  {
    if u != t {
      if SubTree(u, t.left) {
        SubTreeHolds(u, t.left, p.left);
      } else {
        SubTreeHolds(u, t.right, p.right);
      }
    }
  }

  lemma {:induction false} SubTreeTransitive(v: Tree, u: Tree, t: Tree)
    requires SubTree(v, u) && SubTree(u, t)
    ensures SubTree(v, t)
    decreases t
  {
    if u != t {
      if SubTree(u, t.left) { SubTreeTransitive(v, u, t.left); } else { SubTreeTransitive(v, u, t.right); }
    }
  }

  class BstData {
    const head: BstNode
    var nextNode: BstNode
    var findingValue: int
    var rand: bv32
    ghost const tree: Tree
    ghost const all: set<BstNode>
    ghost var cursor: Tree

    ghost predicate Valid()
      reads this, all
    {
      && Nodes(tree) == all && Holds(tree, head)
      && SubTree(cursor, tree) && cursor.Fork? && cursor.node == nextNode
    }

    ghost function View(): Search
      reads this
    {
      Search(cursor, findingValue, rand, [])
    }

    /** bst_init_task: the value to find is the one the group drew, the register is seeded anew. */
    constructor (head: BstNode, findingValue: int, seed: bv32, ghost tree: Tree, ghost all: set<BstNode>)
      requires Nodes(tree) == all && Holds(tree, head)
      ensures Valid() && this.tree == tree && this.all == all
      ensures View() == Search(tree, findingValue, seed, [])
    {
      this.head := head;
      this.nextNode := head;
      this.findingValue := findingValue;
      this.rand := seed;
      this.tree := tree;
      this.all := all;
      this.cursor := tree;
    }

    /** With nothing to find: draw a new value, and start over at the head. */
    method Restart()
      requires Valid() && findingValue == 0
      modifies this
      ensures Valid() && View() == SearchStep(tree, old(View()))
    {
      rand := Next32(rand);
      findingValue := ToInt(rand);
      nextNode := head;
      cursor := tree;
    }

    /** Otherwise: one node further down, or the end of the search. */
    method Descend()
      requires Valid() && findingValue != 0
      modifies this, all`falseValue
      ensures Valid()
      ensures var s := SearchStep(tree, old(View()));
              && View() == s.(bumped := [])
              && forall m | m in all :: m.falseValue == old(m.falseValue) + multiset(s.bumped)[m]
    {
      SubTreeHolds(cursor, tree, head);
      var n: BstNode? := null;
      if findingValue < nextNode.value {
        n := nextNode.left;
      } else if findingValue > nextNode.value {
        n := nextNode.right;
      }
      if n == null || findingValue == nextNode.value {
        findingValue := 0;
        nextNode.falseValue := nextNode.falseValue + 1;
      } else {
        ghost var child := if findingValue < nextNode.value then cursor.left else cursor.right;
        SubTreeTransitive(child, cursor, tree);
        nextNode := n;
        cursor := child;
      }
    }

    /** The loop body of bst_do_work. */
    method WorkOnce()
      requires Valid()
      modifies this, all`falseValue
      ensures Valid()
      ensures var s := SearchStep(tree, old(View()));
              && View() == s.(bumped := [])
              && forall m | m in all :: m.falseValue == old(m.falseValue) + multiset(s.bumped)[m]
    {
      if findingValue == 0 {
        Restart();
      } else {
        Descend();
      }
    }

    /** bst_do_work */
    method DoWork(iterations: nat)
      requires Valid()
      modifies this, all`falseValue
      ensures Valid()
      ensures var s := Iterate(Searching(tree), old(View()), iterations);
              && View() == s.(bumped := [])
              && forall m | m in all :: m.falseValue == old(m.falseValue) + multiset(s.bumped)[m]
    {
      ghost var s := View();
      for i := 0 to iterations
        invariant Valid() && View() == s.(bumped := [])
        invariant s == Iterate(Searching(tree), old(View()), i)
        invariant forall m | m in all :: m.falseValue == old(m.falseValue) + multiset(s.bumped)[m]
      {
        WorkOnce();
        StepAppends(tree, s);
        s := SearchStep(tree, s);
      }
    }
  }

  /** What a step does to the cursor does not depend on what was incremented before. */
  lemma StepAppends(t: Tree, s: Search)
    ensures var part := SearchStep(t, s.(bumped := []));
            && SearchStep(t, s) == part.(bumped := s.bumped + part.bumped)
            && multiset(s.bumped + part.bumped) == multiset(s.bumped) + multiset(part.bumped)
  {
    assert s.bumped + [] == s.bumped;
    StepShift(t, s.(bumped := []), s.bumped);
  }

  // ----- the sliced search refines recursive lookup

  /** The node where looking up v in t stops: the first with value v, else the last on the path. */
  function Last(t: Tree, v: int): BstNode
    requires t.Fork?
  {
    var next := if v < t.node.value then t.left else if v > t.node.value then t.right else Leaf;
    if next.Leaf? then t.node else Last(next, v)
  }

  /** The number of nodes on that path. */
  function Steps(t: Tree, v: int): (k: nat)
    requires t.Fork?
    ensures 1 <= k <= Height(t)
  {
    var next := if v < t.node.value then t.left else if v > t.node.value then t.right else Leaf;
    if next.Leaf? then 1 else 1 + Steps(next, v)
  }

  /** In an ordered tree, lookup stops on the value exactly when some node has it. */
  lemma {:induction false} LastFinds(t: Tree, v: int)
    requires Ordered(t) && t.Fork?
    ensures Last(t, v) in Nodes(t)
    ensures Last(t, v).value == v <==> exists n :: n in Nodes(t) && n.value == v
  {
    var next := if v < t.node.value then t.left else if v > t.node.value then t.right else Leaf;
    if next.Fork? {
      LastFinds(next, v);
    }
    assert t.node in Nodes(t);
  }

  /** A search for v that stands on subtree u ends after exactly the steps of the lookup in u, at most
      the height, by incrementing one false_value, on the node where lookup stops. */
  lemma {:induction false} SearchEnds(t: Tree, s: Search)
    requires s.cursor.Fork? && s.finding != 0
    ensures var e := Iterate(Searching(t), s, Steps(s.cursor, s.finding));
            && e.finding == 0 && e.rand == s.rand
            && e.bumped == s.bumped + [Last(s.cursor, s.finding)]
    ensures forall j: nat | j < Steps(s.cursor, s.finding) ::
              Iterate(Searching(t), s, j).finding == s.finding && Iterate(Searching(t), s, j).bumped == s.bumped
    decreases s.cursor
  {
    var step := Searching(t);
    var u := step(s);
    assert Iterate(step, s, 1) == step(Iterate(step, s, 0)) == u;
    if u.finding != 0 {
      SearchEnds(t, u);
      var k := Steps(u.cursor, u.finding);
      IterateAdd(step, s, 1, k);
      forall j: nat | j < 1 + k
        ensures Iterate(step, s, j).finding == s.finding && Iterate(step, s, j).bumped == s.bumped
      {
        if j > 0 { IterateAdd(step, s, 1, j - 1); }
      }
    }
  }

  /** With nothing to find, the next iteration draws the value to find and keeps the draw as the register. */
  lemma NewDraw(t: Tree, s: Search)
    requires s.finding == 0
    ensures Iterate(Searching(t), s, 1) == Search(t, ToInt(Next32(s.rand)), Next32(s.rand), s.bumped)
  {
    assert Iterate(Searching(t), s, 1) == Searching(t)(Iterate(Searching(t), s, 0));
  }

  lemma SearchEndsAfter(t: Tree, s: Search, drawn: Search)
    requires Iterate(Searching(t), s, 1) == drawn && drawn.cursor == t && t.Fork? && drawn.finding != 0
    ensures var e := Iterate(Searching(t), s, 1 + Steps(t, drawn.finding));
            e.finding == 0 && e.rand == drawn.rand && e.bumped == drawn.bumped + [Last(t, drawn.finding)]
  {
    SearchEnds(t, drawn);
    IterateAdd(Searching(t), s, 1, Steps(t, drawn.finding));
  }

  /** With nothing to find, the next iteration draws a value and keeps the draw as the register; the search
      for that value then goes through the whole tree, wherever the last one ended. */
  lemma NewSearch(t: Tree, s: Search, v: int)
    requires s.finding == 0 && t.Fork? && v == ToInt(Next32(s.rand)) && v != 0
    ensures var drawn := Iterate(Searching(t), s, 1);
            drawn.finding == v && drawn.rand == Next32(s.rand) && drawn.bumped == s.bumped
    ensures var e := Iterate(Searching(t), s, 1 + Steps(t, v));
            e.finding == 0 && e.rand == Next32(s.rand) && e.bumped == s.bumped + [Last(t, v)]
  {
    NewDraw(t, s);
    SearchEndsAfter(t, s, Iterate(Searching(t), s, 1));
  }

  /** Of several nodes with the value, lookup stops on the topmost: all are in the subtree it stops at. */
  lemma {:induction false} LastIsTopmost(t: Tree, v: int) returns (u: Tree)
    requires Ordered(t) && t.Fork?
    ensures SubTree(u, t) && u.Fork? && u.node == Last(t, v)
    ensures forall n | n in Nodes(t) && n.value == v :: n in Nodes(u)
  {
    var next := if v < t.node.value then t.left else if v > t.node.value then t.right else Leaf;
    u := t;
    if next.Fork? { u := LastIsTopmost(next, v); }
  }

  /** n is a leaf below p, on the side where its value belongs. */
  ghost predicate HangsBelow(t: Tree, p: BstNode, n: BstNode) {
    t.Fork? && ((t.node == p && Fork(Leaf, n, Leaf) == if n.value < p.value then t.left else t.right)
                || HangsBelow(t.left, p, n) || HangsBelow(t.right, p, n))
  }

  /** The lookup of a value that is in no node stops where insertion would hang a node with it. */
  lemma {:induction false} LastIsParent(t: Tree, n: BstNode)
    requires t.Fork? && forall m | m in Nodes(t) :: m.value != n.value
    ensures HangsBelow(InsertTree(t, n), Last(t, n.value), n)
  {
    assert t.node in Nodes(t);
    var child := if n.value < t.node.value then t.left else t.right;
    if child.Fork? { LastIsParent(child, n); }
  }

  /** The number of searches completed in the first k iterations. */
  ghost function Completed(t: Tree, s: Search, k: nat): nat {
    if k == 0 then 0 else
      Completed(t, s, k - 1)
      + if Iterate(Searching(t), s, k - 1).finding != 0 && Iterate(Searching(t), s, k).finding == 0 then 1 else 0
  }

  /** Completed searches equal increments, however the run is cut. */
  lemma {:induction false} CompletionsAreIncrements(t: Tree, s: Search, k: nat)
    ensures |Iterate(Searching(t), s, k).bumped| == |s.bumped| + Completed(t, s, k)
  {
    if k > 0 {
      CompletionsAreIncrements(t, s, k - 1);
    }
  }

  /** Two calls in a row increment what one call of both lengths does. */
  lemma {:induction false} LogsAppend(t: Tree, s: Search, k: nat)
    ensures var whole, part := Iterate(Searching(t), s, k), Iterate(Searching(t), s.(bumped := []), k);
            whole == part.(bumped := s.bumped + part.bumped)
  {
    if k == 0 {
      assert s.bumped + [] == s.bumped;
    } else {
      LogsAppend(t, s, k - 1);
      StepShift(t, Iterate(Searching(t), s.(bumped := []), k - 1), s.bumped);
    }
  }

  lemma StepShift(t: Tree, s: Search, b: seq<BstNode>)
    ensures SearchStep(t, s.(bumped := b + s.bumped)) == SearchStep(t, s).(bumped := b + SearchStep(t, s).bumped)
  {
    if s.cursor.Fork? {
      assert b + s.bumped + [s.cursor.node] == b + (s.bumped + [s.cursor.node]);
    }
  }
}
