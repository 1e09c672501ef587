/** The red-black tree of tree.h as a linked structure that its operations
    rewrite in place. */
module RbTrees {
  import opened RbShape
  import opened RbMemory
  import opened RbInsertion
  import opened RbRemoval
  import opened Sides

  /** The key belongs at position c. */
  predicate Between(c: Path, key: int) {
    (forall n :: n in Before(c) ==> n.key < key) && (forall n :: n in After(c) ==> key < n.key)
  }

  lemma SortedKeys(c: Path, t: Tree)
    requires t.Branch? && Sorted(All(c, t))
    ensures forall n :: n in Nodes(t.left) ==> n.key < t.node.key
    ensures forall n :: n in Nodes(t.right) ==> t.node.key < n.key
  {
    FocusApart(c, t);
    var s := Nodes(t);
    forall n | n in Nodes(t.left)
      ensures n.key < t.node.key
    {
      var i :| 0 <= i < |Nodes(t.left)| && Nodes(t.left)[i] == n;
      assert s[i] == n && s[|Nodes(t.left)|] == t.node;
    }
    forall n | n in Nodes(t.right)
      ensures t.node.key < n.key
    {
      var i :| 0 <= i < |Nodes(t.right)| && Nodes(t.right)[i] == n;
      assert s[|Nodes(t.left)| + 1 + i] == n && s[|Nodes(t.left)|] == t.node;
    }
  }

  /** Going down on the side where the key belongs. */
  lemma Descend(c: Path, t: Tree, key: int)
    requires t.Branch? && Sorted(All(c, t)) && Between(c, key)
    ensures key < t.node.key ==> Between(Step(Left, c, t.node, t.red, t.right), key)
    ensures key > t.node.key ==> Between(Step(Right, c, t.node, t.red, t.left), key)
  {
    SortedKeys(c, t);
  }

  /** Where the search ends is where the key belongs in the order. */
  lemma InsertOrder(c: Path, x: Node)
    requires Sorted(All(c, Leaf)) && Between(c, x.key)
    ensures Sorted(All(c, Branch(Leaf, x, true, Leaf)))
  {
    var b, a := Before(c), After(c);
    var t := All(c, Branch(Leaf, x, true, Leaf));
    assert t == b + [x] + a && All(c, Leaf) == b + a;
    forall i, j | 0 <= i < j < |t|
      ensures t[i].key < t[j].key
    {
      if i < |b| { assert b[i] in b && t[i] == (b + a)[i]; }
      if j > |b| { assert a[j - |b| - 1] in a && t[j] == (b + a)[j - 1]; }
      if i > |b| { assert t[i] == (b + a)[i - 1]; }
      if j < |b| { assert t[j] == (b + a)[j]; }
    }
  }

  // ----- going down from the root -----

  function Down(c: Path, t: Tree, d: Side): Path
    requires t.Branch?
  {
    Step(d, c, t.node, t.red, Kid(t, Opposite(d)))
  }

  function Below(t: Tree, h: nat): nat
    requires t.Branch? && Balanced(t, h)
  {
    if t.red then h else h - 1
  }

  /** t at c, of black height h, is a position in the red-black tree s. */
  ghost predicate Position(c: Path, t: Tree, h: nat, s: Tree) {
    && All(c, t) == Nodes(s) && Balanced(t, h) && BalancedAbove(c, h)
    && !(Red(t) && (c.Top? || c.red))
  }

  lemma GoDown(m: Mem, c: Path, t: Tree, h: nat, s: Tree, d: Side)
    requires Linked(m, c, t) && Position(c, t, h, s) && t.Branch?
    ensures Linked(m, Down(c, t, d), Kid(t, d)) && Position(Down(c, t, d), Kid(t, d), Below(t, h), s)
    ensures t.node in m.at && m.at[t.node].left == RootOf(t.left) && m.at[t.node].right == RootOf(t.right)
  {
    MoveUp(m, d, c, t.node, t.red, Kid(t, Opposite(d)), Kid(t, d));
    AllUp(d, c, t.node, t.red, Kid(t, Opposite(d)), Kid(t, d));
    hide All, Nodes;
  }

  lemma InShape(c: Path, t: Tree, h: nat, s: Tree)
    requires Position(c, t, h, s)
    ensures t.Branch? ==> t.node in NodeSet(Nodes(s))
  {
    RootIn(t);
    assert forall n :: n in Nodes(t) ==> n in All(c, t);
  }

  lemma HeightOf(s: Tree)
    requires RedBlack(s)
    ensures Position(Top, s, BlackHeight(s), s)
  {
    assert All(Top, s) == Nodes(s);
  }

  lemma NodeView(m: Mem, c: Path, t: Tree)
    requires Linked(m, c, t)
    ensures t.Branch? ==> t.node in m.at && m.at[t.node].red == t.red && m.at[t.node].parent == Parent(c)
    ensures c.Step? ==> c.node in m.at
  {}

  /** Every node of the tree has a position. */
  lemma {:induction false} PositionOf(m: Mem, c: Path, t: Tree, h: nat, s: Tree, n: Node)
    returns (c': Path, t': Tree, h': nat)
    requires Linked(m, c, t) && Position(c, t, h, s) && n in Nodes(t)
    ensures Linked(m, c', t') && Position(c', t', h', s) && t'.Branch? && t'.node == n
    decreases t
  {
    if t.node == n {
      c', t', h' := c, t, h;
    } else {
      var d := if n in Nodes(t.left) then Left else Right;
      GoDown(m, c, t, h, s, d);
      c', t', h' := PositionOf(m, Down(c, t, d), Kid(t, d), Below(t, h), s, n);
    }
  }

  /** Where the search for a key leaves the tree, the next later node is the
      least one above the key. */
  lemma LeastAbove(c: Path, h: nat, s: Tree, key: int)
    requires Position(c, Leaf, h, s) && Between(c, key) && Sorted(All(c, Leaf))
    ensures forall n :: n in NodeSet(Nodes(s)) && key <= n.key ==> n in After(c)
    ensures After(c) != [] ==> After(c)[0] in NodeSet(Nodes(s)) && key <= After(c)[0].key
    ensures After(c) != [] ==> forall n :: n in After(c) ==> After(c)[0].key <= n.key
  {
    assert All(c, Leaf) == Before(c) + After(c);
    FirstIsLeast(c, Leaf);
  }

  lemma PositionBalance(c: Path, t: Tree, h: nat, s: Tree)
    requires Position(c, t, h, s)
    ensures Balanced(t, h) && BalancedAbove(c, h) && !(Red(t) && (c.Top? || c.red))
  {}

  lemma NodeSetMinus(s: seq<Node>, s': seq<Node>, u: Node)
    requires forall n :: n in s' <==> n in s && n != u
    ensures NodeSet(s') == NodeSet(s) - {u}
  {}

  /** What the removal of an inner node needs to know of its successor. */
  lemma SuccessorFacts(m: Mem, c0: Path, t0: Tree, h0: nat, s: Tree, q: Path, f: Tree, h: nat)
    requires Linked(m, c0, t0) && Position(c0, t0, h0, s) && t0.Branch? && t0.right == Plug(q, f)
    requires f.Branch? && f.left == Leaf && Before(q) == []
    requires Linked(m, Graft(q, Down(c0, t0, Right)), f) && Position(Graft(q, Down(c0, t0, Right)), f, h, s)
    ensures f.node != t0.node && Sorted(All(c0, Branch(t0.left, f.node, t0.red, Plug(q, f.right))))
    ensures NodeSet(All(c0, Branch(t0.left, f.node, t0.red, Plug(q, f.right)))) == NodeSet(Nodes(s)) - {t0.node}
    ensures m.at[f.node].parent == if q.Top? then t0.node else Parent(Graft(q, Down(c0, t0, Right)))
    ensures q.Step? ==> Parent(Graft(q, Down(c0, t0, Right))) != t0.node
  {
    assert Sorted(All(c0, t0)) && All(c0, t0) == Nodes(s);
    NodeView(m, Graft(q, Down(c0, t0, Right)), f);
    hide Linked, Position, All, Nodes, Sorted, Plug;
    LeftSpine(q, f, t0.right);
    SuccessorOrder(c0, t0.left, t0.node, t0.red, t0.right, f.node, Plug(q, f.right));
    NodeSetMinus(All(c0, t0), All(c0, Branch(t0.left, f.node, t0.red, Plug(q, f.right))), t0.node);
    if q.Step? { SpineApart(c0, t0, q, f); }
  }

  /** The nodes on the way to the successor lie below the node itself. */
  lemma SpineApart(c0: Path, t0: Tree, q: Path, f: Tree)
    requires t0.Branch? && t0.right == Plug(q, f) && q.Step? && Sorted(All(c0, t0))
    ensures q.node != t0.node && Parent(Graft(q, Down(c0, t0, Right))) == q.node
  {
    FocusApart(c0, t0);
    BranchApart(t0);
    AllPlug(q, f);
    AroundStep(q);
    assert q.node in All(q, f);
  }

  function NodeSet(s: seq<Node>): set<Node> {
    set n | n in s
  }

  lemma InsertedNodes(c: Path, h: nat, s: Tree, x: Node)
    requires Position(c, Leaf, h, s)
    ensures NodeSet(All(c, Branch(Leaf, x, true, Leaf))) == NodeSet(Nodes(s)) + {x}
    ensures h == 0 && Balanced(Branch(Leaf, x, true, Leaf), 0) && BalancedAbove(c, 0)
  {
    assert All(c, Leaf) == Before(c) + After(c);
    assert All(c, Branch(Leaf, x, true, Leaf)) == Before(c) + [x] + After(c);
  }

  /** When the search leaves the tree the key is not in it. */
  lemma NotFound(c: Path, h: nat, s: Tree, key: int)
    requires Position(c, Leaf, h, s) && Between(c, key)
    ensures forall n :: n in NodeSet(Nodes(s)) ==> n.key != key
  {
    assert All(c, Leaf) == Before(c) + After(c);
  }

  lemma SameEmptiness(s: seq<Node>, t: seq<Node>)
    requires NodeSet(s) == NodeSet(t)
    ensures s == [] <==> t == []
  {
    assert s != [] ==> s[0] in NodeSet(s);
    assert t != [] ==> t[0] in NodeSet(t);
  }

  /** The set of nodes determines the order in which the tree holds them. */
  lemma {:induction false} SortedUnique(s: seq<Node>, t: seq<Node>)
    requires Sorted(s) && Sorted(t) && NodeSet(s) == NodeSet(t)
    ensures s == t
  {
    SameEmptiness(s, t);
    if s != [] {
      assert s[0] in NodeSet(s) && s[0] in NodeSet(t);
      assert t[0] in NodeSet(t) && t[0] in NodeSet(s);
      assert s == [s[0]] + s[1..] && t == [t[0]] + t[1..];
      SortedApart([s[0]], s[1..]);
      SortedApart([t[0]], t[1..]);
      assert s[0] in [s[0]] && t[0] in [t[0]];
      assert NodeSet(s[1..]) == NodeSet(s) - {s[0]} && NodeSet(t[1..]) == NodeSet(t) - {t[0]};
      SortedUnique(s[1..], t[1..]);
    }
  }

  // ----- what the order says about keys -----

  lemma KeysAround(c: Path, t: Tree)
    requires t.Branch? && Sorted(All(c, t))
    ensures forall n :: n in Before(c) || n in Nodes(t.left) ==> n.key < t.node.key
    ensures forall n :: n in After(c) || n in Nodes(t.right) ==> t.node.key < n.key
    ensures forall n :: n in All(c, t) <==>
      n in Before(c) || n in Nodes(t.left) || n == t.node || n in Nodes(t.right) || n in After(c)
  {
    SortedKeys(c, t);
    var b, a, x := Before(c) + Nodes(t.left), Nodes(t.right) + After(c), t.node;
    assert All(c, t) == b + [x] + a by { RegroupAround(Before(c), Nodes(t.left), [x], Nodes(t.right), After(c)); }
    SplitKeys(b, x, a);
  }

  lemma SplitKeys(b: seq<Node>, x: Node, a: seq<Node>)
    requires Sorted(b + [x] + a)
    ensures forall n :: n in b ==> n.key < x.key
    ensures forall n :: n in a ==> x.key < n.key
  {
    var s := b + [x] + a;
    forall i | 0 <= i < |b|
      ensures b[i].key < x.key
    {
      assert s[i] == b[i] && s[|b|] == x;
    }
    forall i | 0 <= i < |a|
      ensures x.key < a[i].key
    {
      assert s[|b| + 1 + i] == a[i] && s[|b|] == x;
    }
  }

  /** r is the node after x in the order of the keys, null if x is the last one. */
  ghost predicate NextIn(s: set<Node>, x: Node, r: Node?) {
    if r == null then forall n :: n in s ==> n.key <= x.key
    else r in s && x.key < r.key && forall n :: n in s ==> n.key <= x.key || r.key <= n.key
  }

  /** The first of the later nodes. */
  function FirstOf(s: seq<Node>): Node? {
    if s == [] then null else s[0]
  }

  lemma NextAbove(c: Path, t: Tree, h: nat, s: Tree)
    requires Position(c, t, h, s) && Sorted(All(c, t)) && t.Branch? && t.right == Leaf
    ensures NextIn(NodeSet(Nodes(s)), t.node, FirstOf(After(c)))
  {
    KeysAround(c, t);
    FirstIsLeast(c, t);
  }

  lemma FirstIsLeast(c: Path, t: Tree)
    requires Sorted(All(c, t))
    ensures After(c) != [] ==> forall n :: n in After(c) ==> After(c)[0].key <= n.key
  {
    SortedApart(Before(c) + Nodes(t), After(c));
  }

  lemma NextBelow(c: Path, t: Tree, h: nat, s: Tree, q: Path, f: Tree)
    requires Position(c, t, h, s) && Sorted(All(c, t)) && t.Branch? && t.right == Plug(q, f)
    requires f.Branch? && f.left == Leaf && Before(q) == []
    ensures NextIn(NodeSet(Nodes(s)), t.node, f.node)
  {
    hide *;
    KeysAround(c, t);
    LeftSpine(q, f, t.right);
    FocusApart(c, t);
    BranchApart(t);
    FirstLeast(Nodes(t.right), f.node);
    RightIn(t, f.node);
    AfterGreater(c, t, f.node);
    NextOf(Nodes(t.left), Nodes(t.right), Before(c), After(c), NodeSet(Nodes(s)), t.node, f.node)
      by { PositionNodes(c, t, h, s); }
  }

  lemma PositionNodes(c: Path, t: Tree, h: nat, s: Tree)
    requires Position(c, t, h, s)
    ensures forall n :: n in NodeSet(Nodes(s)) <==> n in All(c, t)
  {}

  lemma NextOf(l: seq<Node>, r: seq<Node>, b: seq<Node>, a: seq<Node>, s: set<Node>, x: Node, y: Node)
    requires forall n :: n in s <==> n in b || n in l || n == x || n in r || n in a
    requires forall n :: n in b || n in l ==> n.key < x.key
    requires forall n :: n in a || n in r ==> x.key < n.key
    requires y in r && (forall n :: n in r ==> y.key <= n.key) && forall n :: n in a ==> y.key < n.key
    ensures NextIn(s, x, y)
  {}

  lemma FirstLeast(s: seq<Node>, x: Node)
    requires Sorted(s) && s != [] && s[0] == x
    ensures x in s && forall n :: n in s ==> x.key <= n.key
  {}

  lemma RightIn(t: Tree, x: Node)
    requires t.Branch? && x in Nodes(t.right)
    ensures x in Nodes(t)
  {}

  lemma AfterGreater(c: Path, t: Tree, x: Node)
    requires Sorted(All(c, t)) && x in Nodes(t)
    ensures forall n :: n in After(c) ==> x.key < n.key
  {
    var i :| 0 <= i < |Nodes(t)| && Nodes(t)[i] == x;
    forall j | 0 <= j < |After(c)|
      ensures x.key < After(c)[j].key
    {
      assert All(c, t)[|Before(c)| + i] == x && All(c, t)[|Before(c)| + |Nodes(t)| + j] == After(c)[j];
    }
  }

  class RbTree {
    var root: Node?
    /** The nodes of the tree; during an operation also the one that comes or goes. */
    ghost var nodes: set<Node>
    ghost var shape: Tree

    constructor ()
      ensures Valid() && nodes == {}
    {
      root := null;
      nodes := {};
      shape := Leaf;
    }

    ghost function Snap(): (m: Mem)
      reads `root, `nodes, nodes
      ensures m.root == root && m.at.Keys == nodes
    {
      Mem(root, map n | n in nodes :: Fields(n.left, n.right, n.parent, n.red))
    }

    /** Between operations: parent links, search order, colours and black heights
        are right, the root is black, and the tree has exactly its nodes. */
    ghost predicate Valid()
      reads this, nodes
    {
      && Linked(Snap(), Top, shape) && RedBlack(shape)
      && nodes == NodeSet(Nodes(shape))
    }

    // ----- single writes -----

    method SetKidOf(x: Node, d: Side, v: Node?)
      requires x in nodes
      modifies x`left, x`right
      ensures Snap() == SetKid(old(Snap()), x, d, v)
    {
      if d == Left { x.left := v; } else { x.right := v; }
    }

    method SetParentOf(x: Node, v: Node?)
      requires x in nodes
      modifies x`parent
      ensures Snap() == SetParent(old(Snap()), x, v)
    {
      x.parent := v;
    }

    method SetRedOf(x: Node, v: bool)
      requires x in nodes
      modifies x`red
      ensures Snap() == SetRed(old(Snap()), x, v)
    {
      x.red := v;
    }

    method SetRoot(v: Node?)
      modifies this`root
      ensures Snap() == old(Snap()).(root := v)
    {
      root := v;
    }

    /** RB_SET_BLACKRED. */
    method SetBlackRed(b: Node, r: Node)
      requires b in nodes && r in nodes
      modifies b`red, r`red
      ensures Snap() == SetRed(SetRed(old(Snap()), b, false), r, true)
    {
      b.red := false;
      r.red := true;
    }

    method Rehang(z: Node?, u: Node, v: Node?)
      requires z != null ==> z in nodes
      modifies this`root, nodes
      ensures Snap() == Rehung(old(Snap()), z, u, v)
    {
      if z != null {
        SetKidOf(z, if z.left == u then Left else Right, v);
      } else {
        SetRoot(v);
      }
    }

    lemma ReadNode(n: Node?)
      requires n != null ==> n in nodes
      ensures n != null ==> Snap().at[n] == Fields(n.left, n.right, n.parent, n.red)
    {}

    function Child(x: Node, d: Side): Node?
      reads x
    {
      if d == Left then x.left else x.right
    }

    /** The rotation macros; side d is where x goes. */
    method RotateTo(x: Node, d: Side)
      requires CanRotate(Snap(), x, d)
      modifies this`root, nodes
      ensures Snap() == Rotated(old(Snap()), x, d)
    {
      var y := Child(x, Opposite(d));
      var b := Child(y, d);
      SetKidOf(x, Opposite(d), b);
      if b != null { SetParentOf(b, x); }
      var z := x.parent;
      SetParentOf(y, z);
      Rehang(z, x, y);
      SetKidOf(y, d, x);
      SetParentOf(x, y);
    }

    // ----- insertion -----

    /** The rotations of RB_INSERT_COLOR, below a black uncle. */
    method Straighten(x: Node, p: Node, gparent: Node, d: Side, ghost c0: Path, ghost t0: Tree, ghost h: nat)
      returns (elm: Node, ghost c: Path, ghost t: Tree)
      requires Linked(Snap(), c0, t0) && t0.Branch? && t0.node == x && t0.red && RedAbove(c0)
      requires Balanced(t0, h) && BalancedAbove(c0, h) && c0.up.Step? && !c0.up.red && !Red(c0.up.sibling)
      requires c0.node == p && c0.up.node == gparent && c0.up.side == d
      modifies this`root, nodes
      ensures Linked(Snap(), c, t) && t.Branch? && t.node == elm && t.red && c.Step? && !c.red
      ensures Balanced(t, h) && BalancedAbove(c, h) && All(c, t) == All(c0, t0) && Depth(c) < Depth(c0)
    {
      hide All, Balanced, CanRotate, KidAt, Rotated, SetRed;
      elm, c, t := x, c0, t0;
      var parent := p;
      ghost var up, u, s := c.up.up, c.up.sibling, c.sibling;
      InsertView(Snap(), c, t, h);
      assert Depth(c0) == 2 + Depth(up);
      ghost var inner := KidAt(Snap(), parent, Opposite(d)) == elm;
      assert inner <==> Child(parent, Opposite(d)) == elm;
      assert !inner ==> c == Step(d, Step(d, up, gparent, false, u), parent, true, s);
      assert inner ==> c == Step(Opposite(d), Step(d, up, gparent, false, u), parent, true, s)
                       && t == Join(d, Kid(t, d), elm, true, Kid(t, Opposite(d)));
      hide Snap, Linked, Balanced, BalancedAbove, All, Rotated, SetRed, CanRotate, Nodes, RedBlack, RedAbove;
      if Child(parent, Opposite(d)) == elm {
        ghost var a, b := Kid(t, d), Kid(t, Opposite(d));
        Inner(Snap(), d, up, gparent, u, parent, s, a, elm, b);
        InnerBalanced(d, up, gparent, u, parent, s, a, elm, b, h);
        RotateTo(parent, d);
        c, t, s := Step(d, c.up, elm, true, b), Join(d, s, parent, true, a), b;
        elm, parent := parent, elm;
      }
      Outer(Snap(), d, up, gparent, u, parent, s, t);
      OuterBalanced(d, up, gparent, u, parent, s, h);
      SetBlackRed(parent, gparent);
      RotateTo(gparent, Opposite(d));
      c := Step(d, up, parent, false, Join(Opposite(d), u, gparent, true, s));
    }

    /** RB_INSERT_COLOR: restores the rules after a red node has been added. */
    method InsertColour(x: Node, ghost c0: Path, ghost t0: Tree, ghost h0: nat)
      requires Linked(Snap(), c0, t0) && t0.Branch? && t0.node == x && t0.red
      requires Balanced(t0, h0) && BalancedAbove(c0, h0)
      modifies this`root, this`shape, nodes
      ensures Linked(Snap(), Top, shape) && RedBlack(shape) && Nodes(shape) == All(c0, t0)
    {
      hide Linked, Balanced, BalancedAbove, All, Rotated, SetRed, CanRotate, Nodes, RedBlack;
      var elm: Node := x;
      ghost var c, t, h := c0, t0, h0;
      while elm.parent != null && elm.parent.red
        invariant Linked(Snap(), c, t) && t.Branch? && t.node == elm && t.red
        invariant Balanced(t, h) && BalancedAbove(c, h)
        invariant All(c, t) == All(c0, t0)
        decreases Depth(c)
      {
        ParentView(Snap(), c, t);
        InsertView(Snap(), c, t, h);
        var parent: Node := elm.parent;
        var gparent: Node := parent.parent;
        var d := if parent == gparent.left then Left else Right;
        var uncle := Child(gparent, Opposite(d));
        ghost var up, g, u, s := c.up.up, c.up.node, c.up.sibling, c.sibling;
        assert Depth(c) == 2 + Depth(up);
        hide Snap, Linked, Balanced, BalancedAbove, All, Rotated, SetRed, CanRotate, Nodes, RedBlack, RedAbove;
        if uncle != null && uncle.red {
          UncleRed(Snap(), c.side, d, up, g, u, parent, s, t);
          UncleRedBalanced(c.side, d, up, g, u, parent, s, t, h);
          SetRedOf(uncle, false);
          SetBlackRed(parent, gparent);
          elm := gparent;
          c, t, h := up, Join(d, Join(c.side, t, parent, false, s), g, true, u.(red := false)), h + 1;
        } else {
          elm, c, t := Straighten(elm, parent, gparent, d, c, t, h);
        }
      }
      ParentView(Snap(), c, t);
      Finish(c, t, h);
    }

    /** The root turns black. */
    method Finish(ghost c: Path, ghost t: Tree, ghost h: nat)
      requires Linked(Snap(), c, t) && t.Branch?
      requires Balanced(t, h) && BalancedAbove(c, h) && !(RedAbove(c) && Red(t))
      modifies this`shape, nodes
      ensures Linked(Snap(), Top, shape) && RedBlack(shape) && Nodes(shape) == All(c, t)
    {
      ghost var r := Plug(c, t);
      MoveTop(Snap(), c, t);
      AllPlug(c, t);
      BlackRoot(c, t, h);
      Recolour(Snap(), Top, r, false);
      SetRedOf(root, false);
      shape := r.(red := false);
    }

    /** RB_SET. */
    method SetEntry(elm: Node, parent: Node?)
      requires elm in nodes
      modifies elm
      ensures Snap() == old(Snap()).(at := old(Snap()).at[elm := Fields(null, null, parent, true)])
    {
      elm.parent := parent;
      elm.left, elm.right := null, null;
      elm.red := true;
    }

    /** Hangs a new red leaf under parent. */
    method Link(elm: Node, parent: Node?, comp: int, ghost c: Path)
      requires Linked(Snap(), c, Leaf) && Sorted(All(c, Branch(Leaf, elm, true, Leaf)))
      requires Parent(c) == parent && elm !in nodes && (c.Step? ==> (comp < 0 <==> c.side == Left))
      modifies this`root, this`nodes, nodes, elm
      ensures nodes == old(nodes) + {elm} && Linked(Snap(), c, Branch(Leaf, elm, true, Leaf))
    {
      ghost var m := Snap();
      Hang(m, c, null, null);
      nodes := nodes + {elm};
      LinkedFrame(m, Snap(), c, Leaf);
      Add(Snap(), c, elm);
      hide Linked, All, Sorted;
      SetEntry(elm, parent);
      if parent != null {
        SetKidOf(parent, if comp < 0 then Left else Right, elm);
      } else {
        SetRoot(elm);
      }
    }

    /** RB_INSERT: a node with the same key is returned and nothing changes;
        otherwise the tree has one node more. */
    method Insert(elm: Node) returns (found: Node?)
      requires Valid()
      modifies this, nodes, elm
      ensures Valid()
      ensures found != null ==>
        found in nodes && found.key == elm.key && nodes == old(nodes) && Snap() == old(Snap()) && shape == old(shape)
      ensures found == null ==> nodes == old(nodes) + {elm} && forall n :: n in old(nodes) ==> n.key != elm.key
    {
      hide Nodes, NodeSet, Sorted, RedBlack, Before, After;
      HeightOf(shape);
      var tmp := root;
      var parent: Node? := null;
      var comp := 0;
      ghost var c, t, h := Top, shape, BlackHeight(shape);
      while tmp != null
        invariant Linked(Snap(), c, t) && RootOf(t) == tmp && Parent(c) == parent
        invariant Position(c, t, h, shape) && Between(c, elm.key)
        invariant c.Step? ==> (comp < 0 <==> c.side == Left)
        modifies {}
        decreases t
      {
        parent := tmp;
        comp := elm.key - parent.key;
        Descend(c, t, elm.key);
        ghost var d := if comp < 0 then Left else Right;
        GoDown(Snap(), c, t, h, shape, d);
        if comp < 0 {
          tmp := tmp.left;
        } else if comp > 0 {
          tmp := tmp.right;
        } else {
          InShape(c, t, h, shape);
          return tmp;
        }
        c, t, h := Down(c, t, d), Kid(t, d), Below(t, h);
      }
      NotFound(c, h, shape, elm.key);
      InsertAt(elm, parent, comp, c, h);
      return null;
    }

    method InsertAt(elm: Node, parent: Node?, comp: int, ghost c: Path, ghost h: nat)
      requires Linked(Snap(), c, Leaf) && Position(c, Leaf, h, shape) && Between(c, elm.key)
      requires nodes == NodeSet(Nodes(shape)) && elm !in nodes
      requires Parent(c) == parent && (c.Step? ==> (comp < 0 <==> c.side == Left))
      modifies this, nodes, elm
      ensures Valid() && nodes == old(nodes) + {elm}
    {
      InsertOrder(c, elm);
      InsertedNodes(c, h, shape, elm);
      hide Linked, RedBlack, NodeSet, Nodes, All, Sorted, Position, BalancedAbove;
      Link(elm, parent, comp, c);
      InsertColour(elm, c, Branch(Leaf, elm, true, Leaf), h);
    }

    // ----- removal -----

    /** RB_REMOVE_COLOR below a red sibling: afterwards the sibling is black. */
    method PromoteSibling(parent: Node, sibling: Node, d: Side, ghost c0: Path, ghost t: Tree, ghost h: nat)
      returns (tmp: Node, ghost c: Path)
      requires Linked(Snap(), c0, t) && BalancedAbove(c0, h + 1) && Balanced(t, h)
      requires c0.Step? && c0.side == d && c0.node == parent && Red(c0.sibling) && c0.sibling.node == sibling
      modifies this`root, nodes
      ensures Linked(Snap(), c, t) && BalancedAbove(c, h + 1) && All(c, t) == All(c0, t) && Depth(c) == Depth(c0) + 1
      ensures c.Step? && c.side == d && c.node == parent && c.red && c.sibling.Branch? && !c.sibling.red
      ensures c.sibling.node == tmp
    {
      ghost var s := c0.sibling;
      ghost var b, e := Kid(s, d), Kid(s, Opposite(d));
      assert s == Join(d, b, sibling, true, e);
      SiblingRedBalanced(d, c0.up, parent, c0.red, b, sibling, e, h);
      hide Linked, Balanced, BalancedAbove, All, Rotated, SetRed, CanRotate;
      SiblingRed(Snap(), d, c0.up, parent, b, sibling, e, t);
      SetBlackRed(sibling, parent);
      RotateTo(parent, d);
      c := Step(d, Step(d, c0.up, sibling, false, e), parent, true, b);
      RemoveView(Snap(), c, t, h);
      tmp := Child(parent, Opposite(d));
    }

    /** The sibling, once it is black. */
    method BlackSibling(parent: Node, d: Side, ghost c0: Path, ghost t: Tree, ghost h: nat)
      returns (tmp: Node, ghost c: Path)
      requires Linked(Snap(), c0, t) && BalancedAbove(c0, h + 1) && Balanced(t, h)
      requires c0.Step? && c0.side == d && c0.node == parent
      modifies this`root, nodes
      ensures Linked(Snap(), c, t) && BalancedAbove(c, h + 1) && All(c, t) == All(c0, t)
      ensures c == c0 || (Depth(c) == Depth(c0) + 1 && c.Step? && c.red)
      ensures c.Step? && c.side == d && c.node == parent && c.sibling.Branch? && !c.sibling.red && c.sibling.node == tmp
      ensures tmp in nodes && tmp.left == RootOf(c.sibling.left) && tmp.right == RootOf(c.sibling.right)
      ensures tmp.left != null ==> tmp.left in nodes && tmp.left.red == Red(c.sibling.left)
      ensures tmp.right != null ==> tmp.right in nodes && tmp.right.red == Red(c.sibling.right)
    {
      c := c0;
      RemoveView(Snap(), c, t, h);
      NephewView(Snap(), c.sibling, parent);
      hide Linked, Balanced, BalancedAbove, All;
      tmp := Child(parent, Opposite(d));
      if tmp.red {
        tmp, c := PromoteSibling(parent, tmp, d, c, t, h);
        RemoveView(Snap(), c, t, h);
        NephewView(Snap(), c.sibling, parent);
      }
    }

    /** RB_REMOVE_COLOR below a black sibling with a red child: the last round. */
    method BorrowFromSibling(parent: Node, sibling: Node, d: Side, ghost c0: Path, ghost t: Tree, ghost h: nat)
      returns (ghost r: Tree, ghost k: nat)
      requires Linked(Snap(), c0, t) && BalancedAbove(c0, h + 1) && Balanced(t, h)
      requires c0.Step? && c0.side == d && c0.node == parent && c0.sibling.Branch? && c0.sibling.node == sibling
      requires !c0.sibling.red && (Red(c0.sibling.left) || Red(c0.sibling.right))
      modifies this`root, nodes
      ensures Linked(Snap(), c0.up, r) && Balanced(r, k) && BalancedAbove(c0.up, k)
      ensures !(RedAbove(c0.up) && Red(r)) && (Red(r) ==> c0.up.Step?)
      ensures All(c0.up, r) == All(c0, t)
    {
      var tmp := sibling;
      ghost var c := c0;
      RemoveView(Snap(), c, t, h);
      NephewView(Snap(), c.sibling, parent);
      if Child(tmp, Opposite(d)) == null || !Child(tmp, Opposite(d)).red {
        tmp, c := RotateSibling(parent, tmp, d, c, t, h);
      }
      r, k := RotateParent(parent, tmp, d, c, t, h);
    }

    method RotateSibling(parent: Node, sibling: Node, d: Side, ghost c0: Path, ghost t: Tree, ghost h: nat)
      returns (tmp: Node, ghost c: Path)
      requires Linked(Snap(), c0, t) && BalancedAbove(c0, h + 1) && Balanced(t, h)
      requires c0.Step? && c0.side == d && c0.node == parent && c0.sibling.Branch? && c0.sibling.node == sibling
      requires !c0.sibling.red && Red(Kid(c0.sibling, d)) && !Red(Kid(c0.sibling, Opposite(d)))
      modifies this`root, nodes
      ensures Linked(Snap(), c, t) && BalancedAbove(c, h + 1) && All(c, t) == All(c0, t)
      ensures c.Step? && c.side == d && c.node == parent && c.up == c0.up && c.sibling.Branch? && c.sibling.node == tmp
      ensures !c.sibling.red && Red(Kid(c.sibling, Opposite(d)))
    {
      hide Balanced, Rotated;
      ghost var up, pr, e := c0.up, c0.red, Kid(c0.sibling, Opposite(d));
      ghost var n := Kid(c0.sibling, d);
      ghost var q, n1, n2 := n.node, Kid(n, d), Kid(n, Opposite(d));
      assert c0.sibling == Join(d, Join(d, n1, q, true, n2), sibling, false, e);
      RemoveView(Snap(), c0, t, h);
      NephewView(Snap(), c0.sibling, parent);
      NearNephew(Snap(), d, up, parent, pr, n1, q, n2, sibling, e, t);
      NearNephewBalanced(d, up, parent, pr, n1, q, n2, sibling, e, h);
      hide Linked, Balanced, BalancedAbove, All, Rotated, SetRed, CanRotate;
      var near := Child(sibling, d);
      if near != null { SetRedOf(near, false); }
      SetRedOf(sibling, true);
      RotateTo(sibling, Opposite(d));
      c := Step(d, up, parent, pr, Join(d, n1, q, false, Join(d, n2, sibling, true, e)));
      RemoveView(Snap(), c, t, h);
      tmp := Child(parent, Opposite(d));
    }

    method RotateParent(parent: Node, tmp: Node, d: Side, ghost c: Path, ghost t: Tree, ghost h: nat)
      returns (ghost r: Tree, ghost k: nat)
      requires Linked(Snap(), c, t) && BalancedAbove(c, h + 1) && Balanced(t, h)
      requires c.Step? && c.side == d && c.node == parent && c.sibling.Branch? && c.sibling.node == tmp
      requires !c.sibling.red && Red(Kid(c.sibling, Opposite(d)))
      modifies this`root, nodes
      ensures Linked(Snap(), c.up, r) && Balanced(r, k) && BalancedAbove(c.up, k)
      ensures !(RedAbove(c.up) && Red(r)) && (Red(r) ==> c.up.Step?)
      ensures All(c.up, r) == All(c, t)
    {
      hide All, Balanced, BalancedAbove, CanRotate, Linked;
      ghost var up, pr, b, f := c.up, c.red, Kid(c.sibling, d), Kid(c.sibling, Opposite(d));
      assert c.sibling == Join(d, b, tmp, false, f);
      RemoveView(Snap(), c, t, h);
      NephewView(Snap(), c.sibling, parent);
      FarNephew(Snap(), d, up, parent, pr, b, tmp, f, t);
      FarNephewBalanced(d, up, parent, pr, b, tmp, f, t, h);
      hide Linked, Balanced, BalancedAbove, All, Rotated, SetRed, CanRotate;
      var far := Child(tmp, Opposite(d));
      SetRedOf(tmp, parent.red);
      SetRedOf(parent, false);
      if far != null { SetRedOf(far, false); }
      RotateTo(parent, d);
      r, k := Join(d, Join(d, t, parent, false, b), tmp, pr, f.(red := false)), if pr then h + 1 else h + 2;
    }

    /** RB_REMOVE_COLOR below a black sibling with black children: the sibling
        turns red and the shortage moves up. */
    method PassUp(parent: Node, sibling: Node, d: Side, ghost c0: Path, ghost t0: Tree, ghost h0: nat)
      returns (elm: Node, up: Node?, ghost t: Tree, ghost h: nat)
      requires Linked(Snap(), c0, t0) && BalancedAbove(c0, h0 + 1) && Balanced(t0, h0) && !Red(t0)
      requires c0.Step? && c0.side == d && c0.node == parent && c0.sibling.Branch? && c0.sibling.node == sibling
      requires !c0.sibling.red && !Red(c0.sibling.left) && !Red(c0.sibling.right)
      modifies nodes
      ensures Linked(Snap(), c0.up, t) && Weak(t, h) && BalancedAbove(c0.up, h + 1) && All(c0.up, t) == All(c0, t0)
      ensures RootOf(t) == elm && Red(t) == c0.red && Parent(c0.up) == up && elm in nodes && elm.red == c0.red
    {
      hide All, Balanced, BalancedAbove, Linked;
      NephewsBlack(Snap(), d, c0.up, parent, c0.red, c0.sibling, t0);
      NephewsBlackBalanced(d, c0.up, parent, c0.red, c0.sibling, t0, h0);
      t, h := Join(d, t0, parent, c0.red, c0.sibling.(red := true)), if c0.red then h0 else h0 + 1;
      hide Linked, Balanced, BalancedAbove, All, SetRed;
      SetRedOf(sibling, true);
      elm := parent;
      NodeView(Snap(), c0.up, t);
      up := elm.parent;
    }

    /** RB_REMOVE_COLOR: restores the rules when the subtree at elm, which may be
        empty, is one black node short. */
    method RemoveColour(p: Node?, x: Node?, ghost c0: Path, ghost t0: Tree, ghost h0: nat)
      requires Linked(Snap(), c0, t0) && RootOf(t0) == x && Parent(c0) == p
      requires Weak(t0, h0) && BalancedAbove(c0, h0 + 1)
      modifies this`root, this`shape, nodes
      ensures Linked(Snap(), Top, shape) && RedBlack(shape) && Nodes(shape) == All(c0, t0)
    {
      hide Linked, Balanced, BalancedAbove, All, Nodes, RedBlack, Plug, Snap, Join, Sorted;
      var parent, elm := p, x;
      ghost var c, t, h := c0, t0, h0;
      NodeView(Snap(), c, t);
      ReadNode(elm);
      while (elm == null || !elm.red) && elm != root
        invariant Linked(Snap(), c, t) && RootOf(t) == elm && Parent(c) == parent
        invariant Weak(t, h) && BalancedAbove(c, h + 1)
        invariant All(c, t) == All(c0, t0)
        invariant elm != null ==> elm in nodes && elm.red == Red(t)
        decreases 2 * Depth(c) + if Red(t) then 0 else 1
      {
        RootView(Snap(), c, t);
        RemoveView(Snap(), c, t, h);
        ReadNode(parent);
        var d := if parent.left == elm then Left else Right;
        var tmp;
        tmp, c := BlackSibling(parent, d, c, t, h);
        if (tmp.left == null || !tmp.left.red) && (tmp.right == null || !tmp.right.red) {
          elm, parent, t, h := PassUp(parent, tmp, d, c, t, h);
          c := c.up;
        } else {
          ghost var r, k := BorrowFromSibling(parent, tmp, d, c, t, h);
          Restored(Snap(), c.up, r, k);
          c, t, h := Top, Plug(c.up, r), HeightAbove(c.up, k);
          elm := root;
          break;
        }
      }
      RootView(Snap(), c, t);
      BlackenFocus(elm, c, t, h);
    }

    method BlackenFocus(elm: Node?, ghost c: Path, ghost t: Tree, ghost h: nat)
      requires Linked(Snap(), c, t) && RootOf(t) == elm && Weak(t, h) && BalancedAbove(c, h + 1)
      requires Red(t) || c.Top?
      modifies this`shape, nodes
      ensures Linked(Snap(), Top, shape) && RedBlack(shape) && Nodes(shape) == All(c, t)
    {
      if elm != null {
        Recolour(Snap(), c, t, false);
        BlackFocus(c, t, h);
        ghost var t' := t.(red := false);
        SameOrder(c, t, t');
        MoveTop(SetRed(Snap(), elm, false), c, t');
        AllPlug(c, t');
        hide Linked, All, RedBlack, Plug;
        SetRedOf(elm, false);
        shape := Plug(c, t');
      } else {
        assert All(Top, Leaf) == [];
        shape := Leaf;
      }
    }

    /** Cuts out a node that has at most one child, and puts the child there. */
    method CutOut(elm: Node, parent: Node?, child: Node?, ghost c: Path, ghost t: Tree, ghost k: Tree)
      requires Linked(Snap(), c, t) && t.Branch? && t.node == elm && Parent(c) == parent && RootOf(k) == child
      requires (t.left == Leaf && k == t.right) || (t.right == Leaf && k == t.left)
      modifies this`root, nodes
      ensures Linked(Snap(), c, k) && elm in nodes && Snap().at[elm] == old(Snap()).at[elm]
    {
      Splice(Snap(), c, t, k);
      NodeView(Snap(), c, t);
      hide Linked;
      if child != null { SetParentOf(child, parent); }
      Rehang(parent, elm, child);
    }

    /** elm takes over the place and the fields of old. */
    method PutInPlace(u: Node, x: Node)
      requires u in nodes && x in nodes && u != x && u.left != null
      requires InMemory(Snap(), u.parent) && InMemory(Snap(), u.left) && InMemory(Snap(), u.right)
      modifies this`root, nodes
      ensures Snap() == Replaced(old(Snap()), u, x)
    {
      ghost var m := Snap();
      x.left, x.right, x.parent, x.red := u.left, u.right, u.parent, u.red;
      assert Snap() == m.(at := m.at[x := m.at[u]]);
      var l, r := u.left, u.right;
      Rehang(u.parent, u, x);
      SetParentOf(l, x);
      if r != null { SetParentOf(r, x); }
    }

    /** The successor of a node with a right child: the leftmost node there. */
    method Successor(u: Node, ghost c0: Path, ghost t0: Tree, ghost h0: nat)
      returns (x: Node, ghost q: Path, ghost f: Tree, ghost h: nat)
      requires Linked(Snap(), c0, t0) && Position(c0, t0, h0, shape) && t0.Branch? && t0.node == u && t0.right.Branch?
      ensures f.Branch? && f.node == x && f.left == Leaf && t0.right == Plug(q, f) && Before(q) == []
      ensures Linked(Snap(), Graft(q, Down(c0, t0, Right)), f) && Position(Graft(q, Down(c0, t0, Right)), f, h, shape)
      ensures x in nodes && x.right == RootOf(f.right) && x.red == f.red
      ensures x.parent == Parent(Graft(q, Down(c0, t0, Right)))
    {
      ghost var c1 := Down(c0, t0, Right);
      GoDown(Snap(), c0, t0, h0, shape, Right);
      x := u.right;
      ghost var c := c1;
      q, f, h := Top, t0.right, Below(t0, h0);
      NodeView(Snap(), c, f);
      while x.left != null
        invariant Linked(Snap(), c, f) && Position(c, f, h, shape) && f.Branch? && f.node == x && x in nodes
        invariant c == Graft(q, c1) && t0.right == Plug(q, f) && Before(q) == []
        modifies {}
        decreases f
      {
        GoDown(Snap(), c, f, h, shape, Left);
        NodeView(Snap(), Down(c, f, Left), f.left);
        q, c, h, f := Down(q, f, Left), Down(c, f, Left), Below(f, h), f.left;
        x := x.left;
      }
      GoDown(Snap(), c, f, h, shape, Left);
    }

    /** Removal of a node with two children: its successor, which has no left
        child, is cut out and takes its place. */
    method RemoveInner(u: Node, ghost c0: Path, ghost t0: Tree, ghost h0: nat)
      returns (child: Node?, parent: Node?, red: bool, ghost c: Path, ghost k: Tree, ghost h: nat)
      requires Linked(Snap(), c0, t0) && Position(c0, t0, h0, shape) && t0.Branch? && t0.node == u
      requires t0.left.Branch? && t0.right.Branch?
      modifies this`root, nodes
      ensures Linked(Snap(), c, k) && RootOf(k) == child && Parent(c) == parent && Remaining(c, k, red, h)
      ensures NodeSet(All(c, k)) == NodeSet(Nodes(shape)) - {u}
    {
      hide Linked, All, Nodes, Position, Remaining, Sorted, NodeSet, Balanced, BalancedAbove, Replaced, Graft, Plug;
      var x;
      ghost var q, f, h1;
      x, q, f, h1 := Successor(u, c0, t0, h0);
      ghost var l, oc, c1 := t0.left, t0.red, Down(c0, t0, Right);
      child, parent, red := x.right, x.parent, x.red;
      k := f.right;
      SuccessorFacts(Snap(), c0, t0, h0, shape, q, f, h1);
      PositionBalance(Graft(q, c1), f, h1, shape);
      h := RemainingAfterSplice(Graft(q, c1), f, h1, k);
      CutOut(x, parent, child, Graft(q, c1), f, k);
      if x.parent == u { parent := x; }
      TakePlace(Snap(), c0, l, u, oc, q, k, x);
      RemainingRenamed(q, c1, x, k, red, h);
      GraftRenamed(q, c1, x, h);
      PutInPlace(u, x);
      c := Graft(q, Step(Right, c0, x, oc, l));
    }

    /** Removal of a node with one child at most. */
    method RemoveOuter(u: Node, ghost c: Path, ghost t0: Tree, ghost h0: nat)
      returns (child: Node?, parent: Node?, red: bool, ghost k: Tree, ghost h: nat)
      requires Linked(Snap(), c, t0) && Position(c, t0, h0, shape) && t0.Branch? && t0.node == u
      requires t0.left == Leaf || t0.right == Leaf
      modifies this`root, nodes
      ensures Linked(Snap(), c, k) && RootOf(k) == child && Parent(c) == parent && Remaining(c, k, red, h)
      ensures NodeSet(All(c, k)) == NodeSet(Nodes(shape)) - {u}
    {
      NodeView(Snap(), c, t0);
      GoDown(Snap(), c, t0, h0, shape, Left);
      k := if t0.left == Leaf then t0.right else t0.left;
      SplicedOrder(c, t0, k);
      NodeSetMinus(All(c, t0), All(c, k), u);
      h := RemainingAfterSplice(c, t0, h0, k);
      hide Linked, All, Nodes, Remaining, NodeSet, Balanced, BalancedAbove;
      child := if u.left == null then u.right else u.left;
      parent, red := u.parent, u.red;
      CutOut(u, parent, child, c, t0, k);
    }

    lemma Locate(elm: Node) returns (c: Path, t: Tree, h: nat)
      requires Valid() && elm in nodes
      ensures Linked(Snap(), c, t) && Position(c, t, h, shape) && t.Branch? && t.node == elm
      ensures elm.left == RootOf(t.left) && elm.right == RootOf(t.right) && nodes == NodeSet(Nodes(shape))
    {
      HeightOf(shape);
      c, t, h := PositionOf(Snap(), Top, shape, BlackHeight(shape), shape, elm);
      GoDown(Snap(), c, t, h, shape, Left);
    }

    /** RB_REMOVE: the tree loses exactly the given node. */
    method Remove(elm: Node) returns (removed: Node)
      requires Valid() && elm in nodes
      modifies this, nodes
      ensures Valid() && nodes == old(nodes) - {elm} && removed == elm
    {
      hide Linked, All, Nodes, Remaining, NodeSet, RedBlack, Position, Valid, Snap;
      ghost var c, t, h := Locate(elm);
      ghost var k := Leaf;
      var child, parent, red;
      if elm.left == null || elm.right == null {
        child, parent, red, k, h := RemoveOuter(elm, c, t, h);
      } else {
        child, parent, red, c, k, h := RemoveInner(elm, c, t, h);
      }
      Recover(child, parent, red, c, k, h);
      Forget(elm);
      return elm;
    }

    /** Colours are restored if a black node has gone. */
    method Recover(child: Node?, parent: Node?, red: bool, ghost c: Path, ghost k: Tree, ghost h: nat)
      requires Linked(Snap(), c, k) && RootOf(k) == child && Parent(c) == parent && Remaining(c, k, red, h)
      modifies this`root, this`shape, nodes
      ensures Linked(Snap(), Top, shape) && RedBlack(shape) && Nodes(shape) == All(c, k)
    {
      hide Linked, All, Nodes, Remaining, RedBlack;
      if !red {
        RemainingShort(c, k, h);
        RemoveColour(parent, child, c, k, h);
      } else {
        RemainingWhole(Snap(), c, k, h);
        shape := Plug(c, k);
      }
    }

    /** The node that was removed no longer belongs to the tree. */
    ghost method Forget(elm: Node)
      requires Linked(Snap(), Top, shape) && RedBlack(shape) && NodeSet(Nodes(shape)) == nodes - {elm}
      modifies this`nodes
      ensures Valid() && nodes == old(nodes) - {elm}
    {
      ghost var m := Snap();
      nodes := nodes - {elm};
      assert All(Top, shape) == Nodes(shape);
      assert forall n :: n in Nodes(shape) ==> n in NodeSet(Nodes(shape));
      LinkedFrame(m, Snap(), Top, shape);
    }

    // ----- lookups -----

    /** RB_FIND. */
    method Find(key: int) returns (found: Node?)
      requires Valid()
      ensures found != null ==> found in nodes && found.key == key
      ensures found == null ==> forall n :: n in nodes ==> n.key != key
    {
      hide Nodes, NodeSet, Sorted, RedBlack, Before, After;
      HeightOf(shape);
      var tmp := root;
      ghost var c, t, h := Top, shape, BlackHeight(shape);
      while tmp != null
        invariant Linked(Snap(), c, t) && RootOf(t) == tmp
        invariant Position(c, t, h, shape) && Between(c, key)
        decreases t
      {
        Descend(c, t, key);
        InShape(c, t, h, shape);
        ghost var d := if key < tmp.key then Left else Right;
        GoDown(Snap(), c, t, h, shape, d);
        if key < tmp.key {
          tmp := tmp.left;
        } else if key > tmp.key {
          tmp := tmp.right;
        } else {
          return tmp;
        }
        c, t, h := Down(c, t, d), Kid(t, d), Below(t, h);
      }
      NotFound(c, h, shape, key);
      return null;
    }

    /** RB_NFIND: the least node whose key is not below the given one. */
    method FindNext(key: int) returns (res: Node?)
      requires Valid()
      ensures res != null ==> res in nodes && key <= res.key
      ensures res != null ==> forall n :: n in nodes && key <= n.key ==> res.key <= n.key
      ensures res == null ==> forall n :: n in nodes ==> n.key < key
    {
      hide Nodes, NodeSet, Sorted, RedBlack;
      HeightOf(shape);
      var tmp := root;
      res := null;
      ghost var c, t, h := Top, shape, BlackHeight(shape);
      while tmp != null
        invariant Linked(Snap(), c, t) && RootOf(t) == tmp
        invariant Position(c, t, h, shape) && Between(c, key) && res == FirstOf(After(c))
        decreases t
      {
        Descend(c, t, key);
        InShape(c, t, h, shape);
        ghost var d := if key < tmp.key then Left else Right;
        GoDown(Snap(), c, t, h, shape, d);
        if key < tmp.key {
          res := tmp;
          tmp := tmp.left;
        } else if key > tmp.key {
          tmp := tmp.right;
        } else {
          return tmp;
        }
        c, t, h := Down(c, t, d), Kid(t, d), Below(t, h);
      }
      LeastAbove(c, h, shape, key);
    }

    /** RB_NEXT. */
    method Next(x: Node) returns (r: Node?)
      requires Valid() && x in nodes
      ensures NextIn(nodes, x, r)
    {
      ghost var c, t, h := Locate(x);
      if x.right != null {
        ghost var q, f, h1;
        r, q, f, h1 := Successor(x, c, t, h);
        NextBelow(c, t, h, shape, q, f);
      } else {
        NextAbove(c, t, h, shape);
        r := Ancestor(x, c, t);
      }
    }

    /** The climb of RB_NEXT: the first ancestor reached from its left. */
    method Ancestor(x: Node, ghost c0: Path, ghost t0: Tree) returns (r: Node?)
      requires Linked(Snap(), c0, t0) && t0.Branch? && t0.node == x
      ensures r == FirstOf(After(c0))
    {
      var elm := x;
      ghost var c, t := c0, t0;
      NodeView(Snap(), c, t);
      if c.Step? { SideOf(Snap(), c, t); }
      while elm.parent != null && elm == elm.parent.right
        invariant Linked(Snap(), c, t) && t.Branch? && t.node == elm && elm in nodes && elm.parent == Parent(c)
        invariant c.Step? ==> c.node in nodes && (elm == c.node.right <==> c.side == Right)
        invariant After(c) == After(c0)
        decreases c
      {
        MoveUp(Snap(), c.side, c.up, c.node, c.red, c.sibling, t);
        elm := elm.parent;
        t, c := Join(c.side, t, c.node, c.red, c.sibling), c.up;
        NodeView(Snap(), c, t);
        if c.Step? { SideOf(Snap(), c, t); }
      }
      return elm.parent;
    }
  }
}
