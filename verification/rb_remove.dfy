/** The cases of RB_REMOVE_COLOR: what each sequence of writes does to the tree
    in memory, and why the result is balanced again. The subtree t, one black
    node short, hangs on side d of p; its sibling is s. */
module RbRemoval {
  import opened RbShape
  import opened RbMemory
  import opened RbInsertion
  import opened Sides

  /** Black height h, except that a red root may have red children. */
  predicate Weak(t: Tree, h: nat) {
    if Red(t) then Balanced(t.left, h) && Balanced(t.right, h) else Balanced(t, h)
  }

  // ----- what the writes do -----

  lemma RecolourSiblingRoot(m: Mem, d: Side, up: Path, p: Node, pr: bool, t: Tree, b: Tree, y: Node, yr: bool,
                            e: Tree, yr': bool)
    requires Linked(m, up, Join(d, t, p, pr, Join(d, b, y, yr, e)))
    ensures y in m.at && Linked(SetRed(m, y, yr'), up, Join(d, t, p, pr, Join(d, b, y, yr', e)))
  {
    hide *;
    var o := Opposite(d);
    JoinFlip(d, t, p, pr, Join(d, b, y, yr, e));
    RecolourBelow(m, o, up, p, pr, t, d, y, yr, e, b, yr');
    JoinFlip(d, t, p, pr, Join(d, b, y, yr', e));
  }

  /** Red sibling: it turns black, p red, and p is rotated towards t. */
  lemma SiblingRed(m: Mem, d: Side, up: Path, p: Node, b: Tree, y: Node, e: Tree, t: Tree)
    requires Linked(m, Step(d, up, p, false, Join(d, b, y, true, e)), t)
    ensures y in m.at && p in m.at && CanRotate(SetRed(SetRed(m, y, false), p, true), p, d)
    ensures Linked(Rotated(SetRed(SetRed(m, y, false), p, true), p, d),
                   Step(d, Step(d, up, y, false, e), p, true, b), t)
    ensures All(Step(d, Step(d, up, y, false, e), p, true, b), t)
         == All(Step(d, up, p, false, Join(d, b, y, true, e)), t)
  {
    hide *;
    SiblingRedOrder(d, up, p, b, y, e, t);
    MoveUp(m, d, up, p, false, Join(d, b, y, true, e), t);
    RecolourSiblingRoot(m, d, up, p, false, t, b, y, true, e, false);
    var m1 := SetRed(m, y, false);
    RecolourJoin(m1, up, d, t, p, false, Join(d, b, y, false, e), true);
    var m2 := SetRed(m1, p, true);
    Rotate(m2, up, d, t, p, true, b, y, false, e);
    var m3 := Rotated(m2, p, d);
    MoveUp(m3, d, up, y, false, e, Join(d, t, p, true, b));
    MoveUp(m3, d, Step(d, up, y, false, e), p, true, b, t);
  }

  lemma SiblingRedOrder(d: Side, up: Path, p: Node, b: Tree, y: Node, e: Tree, t: Tree)
    ensures All(Step(d, Step(d, up, y, false, e), p, true, b), t)
         == All(Step(d, up, p, false, Join(d, b, y, true, e)), t)
  {
    hide *;
    var s := Join(d, b, y, true, e);
    AllUp(d, up, p, false, s, t);
    AllUp(d, Step(d, up, y, false, e), p, true, b, t);
    AllUp(d, up, y, false, e, Join(d, t, p, true, b));
    RotateOrder(d, t, p, true, b, y, false, e);
    JoinOrder(d, b, y, true, e, false);
    JoinSameOrder(d, t, t, p, false, true, s, Join(d, b, y, false, e));
    SameOrder(up, Join(d, t, p, false, s), Join(d, Join(d, t, p, true, b), y, false, e));
  }

  /** Black nephews: the sibling turns red and p is one black node short. */
  lemma NephewsBlack(m: Mem, d: Side, up: Path, p: Node, pr: bool, s: Tree, t: Tree)
    requires s.Branch? && Linked(m, Step(d, up, p, pr, s), t)
    ensures s.node in m.at
    ensures Linked(SetRed(m, s.node, true), up, Join(d, t, p, pr, s.(red := true)))
    ensures All(up, Join(d, t, p, pr, s.(red := true))) == All(Step(d, up, p, pr, s), t)
  {
    var b, e := Kid(s, d), Kid(s, Opposite(d));
    assert s == Join(d, b, s.node, s.red, e) && s.(red := true) == Join(d, b, s.node, true, e);
    hide *;
    MoveUp(m, d, up, p, pr, s, t);
    RecolourSiblingRoot(m, d, up, p, pr, t, b, s.node, s.red, e, true);
    AllUp(d, up, p, pr, s, t);
    JoinOrder(d, b, s.node, s.red, e, true);
    JoinSameOrder(d, t, t, p, pr, pr, s, s.(red := true));
    SameOrder(up, Join(d, t, p, pr, s), Join(d, t, p, pr, s.(red := true)));
  }

  /** Far nephew black, near nephew q red: q comes up between p and the sibling. */
  lemma NearNephew(m: Mem, d: Side, up: Path, p: Node, pr: bool, n1: Tree, q: Node, n2: Tree, y: Node, e: Tree, t: Tree)
    requires Linked(m, Step(d, up, p, pr, Join(d, Join(d, n1, q, true, n2), y, false, e)), t)
    ensures q in m.at && y in m.at && CanRotate(SetRed(SetRed(m, q, false), y, true), y, Opposite(d))
    ensures Linked(Rotated(SetRed(SetRed(m, q, false), y, true), y, Opposite(d)),
                   Step(d, up, p, pr, Join(d, n1, q, false, Join(d, n2, y, true, e))), t)
    ensures All(Step(d, up, p, pr, Join(d, n1, q, false, Join(d, n2, y, true, e))), t)
         == All(Step(d, up, p, pr, Join(d, Join(d, n1, q, true, n2), y, false, e)), t)
  {
    hide *;
    var o := Opposite(d);
    var s := Join(d, Join(d, n1, q, true, n2), y, false, e);
    var c := Step(o, up, p, pr, t);
    ToSibling(m, d, up, p, pr, s, t);
    RecolourBelow(m, d, c, y, false, e, d, q, true, n2, n1, false);
    var m1 := SetRed(m, q, false);
    RecolourJoin(m1, c, d, Join(d, n1, q, false, n2), y, false, e, true);
    var m2 := SetRed(m1, y, true);
    NearRotate(m2, d, c, n1, q, n2, y, e);
    ToSibling(Rotated(m2, y, o), d, up, p, pr, Join(d, n1, q, false, Join(d, n2, y, true, e)), t);
    NearOrder(d, up, p, pr, n1, q, n2, y, e, t);
  }

  lemma ToSibling(m: Mem, d: Side, up: Path, p: Node, pr: bool, s: Tree, t: Tree)
    ensures Linked(m, Step(d, up, p, pr, s), t) <==> Linked(m, Step(Opposite(d), up, p, pr, t), s)
  {
    hide *;
    MoveUp(m, d, up, p, pr, s, t);
    JoinFlip(d, t, p, pr, s);
    MoveUp(m, Opposite(d), up, p, pr, t, s);
  }

  lemma NearRotate(m: Mem, d: Side, c: Path, n1: Tree, q: Node, n2: Tree, y: Node, e: Tree)
    requires Linked(m, c, Join(d, Join(d, n1, q, false, n2), y, true, e))
    ensures CanRotate(m, y, Opposite(d))
    ensures Linked(Rotated(m, y, Opposite(d)), c, Join(d, n1, q, false, Join(d, n2, y, true, e)))
  {
    hide *;
    var o := Opposite(d);
    JoinFlip(d, n1, q, false, n2);
    JoinFlip(d, Join(d, n1, q, false, n2), y, true, e);
    Rotate(m, c, o, e, y, true, n2, q, false, n1);
    JoinFlip(d, n2, y, true, e);
    JoinFlip(d, n1, q, false, Join(d, n2, y, true, e));
  }

  lemma NearOrder(d: Side, up: Path, p: Node, pr: bool, n1: Tree, q: Node, n2: Tree, y: Node, e: Tree, t: Tree)
    ensures All(Step(d, up, p, pr, Join(d, n1, q, false, Join(d, n2, y, true, e))), t)
         == All(Step(d, up, p, pr, Join(d, Join(d, n1, q, true, n2), y, false, e)), t)
  {
    hide *;
    var s, s' := Join(d, Join(d, n1, q, true, n2), y, false, e), Join(d, n1, q, false, Join(d, n2, y, true, e));
    RotateOrder(d, n1, q, false, n2, y, true, e);
    JoinOrder(d, n1, q, true, n2, false);
    JoinSameOrder(d, Join(d, n1, q, true, n2), Join(d, n1, q, false, n2), y, false, true, e, e);
    AllUp(d, up, p, pr, s, t);
    AllUp(d, up, p, pr, s', t);
    JoinSameOrder(d, t, t, p, pr, pr, s, s');
    SameOrder(up, Join(d, t, p, pr, s), Join(d, t, p, pr, s'));
  }

  /** Far nephew f red: the sibling takes the colour and the place of p. */
  lemma FarNephew(m: Mem, d: Side, up: Path, p: Node, pr: bool, b: Tree, y: Node, f: Tree, t: Tree)
    requires f.Branch? && Linked(m, Step(d, up, p, pr, Join(d, b, y, false, f)), t)
    ensures y in m.at && p in m.at && f.node in m.at
    ensures var m' := SetRed(SetRed(SetRed(m, y, pr), p, false), f.node, false);
      && CanRotate(m', p, d)
      && Linked(Rotated(m', p, d), up, Join(d, Join(d, t, p, false, b), y, pr, f.(red := false)))
    ensures All(up, Join(d, Join(d, t, p, false, b), y, pr, f.(red := false)))
         == All(Step(d, up, p, pr, Join(d, b, y, false, f)), t)
  {
    assert Nodes(f.(red := false)) == Nodes(f);
    hide *;
    var f' := f.(red := false);
    MoveUp(m, d, up, p, pr, Join(d, b, y, false, f), t);
    RecolourSiblingRoot(m, d, up, p, pr, t, b, y, false, f, pr);
    var m1 := SetRed(m, y, pr);
    RecolourJoin(m1, up, d, t, p, pr, Join(d, b, y, pr, f), false);
    var m2 := SetRed(m1, p, false);
    RecolourFar(m2, d, up, p, t, b, y, pr, f);
    var m3 := SetRed(m2, f.node, false);
    Rotate(m3, up, d, t, p, false, b, y, pr, f');
    FarOrder(d, up, p, pr, b, y, f, f', t);
  }

  lemma RecolourFar(m: Mem, d: Side, up: Path, p: Node, t: Tree, b: Tree, y: Node, yr: bool, f: Tree)
    requires f.Branch? && Linked(m, up, Join(d, t, p, false, Join(d, b, y, yr, f)))
    ensures f.node in m.at
    ensures Linked(SetRed(m, f.node, false), up, Join(d, t, p, false, Join(d, b, y, yr, f.(red := false))))
  {
    hide *;
    var c := Step(Opposite(d), up, p, false, t);
    MoveUp(m, d, up, p, false, Join(d, b, y, yr, f), t);
    ToSibling(m, d, up, p, false, Join(d, b, y, yr, f), t);
    MoveUp(m, d, c, y, yr, f, b);
    ToSibling(m, d, c, y, yr, f, b);
    Recolour(m, Step(Opposite(d), c, y, yr, b), f, false);
    var m', f' := SetRed(m, f.node, false), f.(red := false);
    ToSibling(m', d, c, y, yr, f', b);
    MoveUp(m', d, c, y, yr, f', b);
    ToSibling(m', d, up, p, false, Join(d, b, y, yr, f'), t);
    MoveUp(m', d, up, p, false, Join(d, b, y, yr, f'), t);
  }

  lemma FarOrder(d: Side, up: Path, p: Node, pr: bool, b: Tree, y: Node, f: Tree, f': Tree, t: Tree)
    requires Nodes(f') == Nodes(f)
    ensures All(up, Join(d, Join(d, t, p, false, b), y, pr, f')) == All(Step(d, up, p, pr, Join(d, b, y, false, f)), t)
  {
    hide *;
    var s, s' := Join(d, b, y, false, f), Join(d, b, y, pr, f');
    AllUp(d, up, p, pr, s, t);
    RotateOrder(d, t, p, false, b, y, pr, f');
    JoinSameOrder(d, b, b, y, false, pr, f, f');
    JoinSameOrder(d, t, t, p, pr, false, s, s');
    SameOrder(up, Join(d, t, p, pr, s), Join(d, Join(d, t, p, false, b), y, pr, f'));
  }

  // ----- balance -----

  lemma SiblingRedBalanced(d: Side, up: Path, p: Node, pr: bool, b: Tree, y: Node, e: Tree, h: nat)
    requires BalancedAbove(Step(d, up, p, pr, Join(d, b, y, true, e)), h + 1)
    ensures !pr && !Red(b) && b.Branch?
    ensures BalancedAbove(Step(d, Step(d, up, y, false, e), p, true, b), h + 1)
  {
    assert Balanced(Join(d, b, y, true, e), h + 1);
    assert Balanced(b, h + 1);
    assert BalancedAbove(Step(d, up, y, false, e), h + 1);
  }

  lemma NephewsBlackBalanced(d: Side, up: Path, p: Node, pr: bool, s: Tree, t: Tree, h: nat)
    requires !Red(t) && Balanced(t, h) && BalancedAbove(Step(d, up, p, pr, s), h + 1)
    requires s.Branch? && !s.red && !Red(s.left) && !Red(s.right)
    ensures var k := if pr then h else h + 1;
      Weak(Join(d, t, p, pr, s.(red := true)), k) && BalancedAbove(up, k + 1)
  {
    assert Balanced(s.(red := true), h);
  }

  lemma NearNephewBalanced(d: Side, up: Path, p: Node, pr: bool, n1: Tree, q: Node, n2: Tree, y: Node, e: Tree, h: nat)
    requires !Red(e) && BalancedAbove(Step(d, up, p, pr, Join(d, Join(d, n1, q, true, n2), y, false, e)), h + 1)
    ensures BalancedAbove(Step(d, up, p, pr, Join(d, n1, q, false, Join(d, n2, y, true, e))), h + 1)
  {
    assert Balanced(Join(d, n1, q, true, n2), h);
    assert Balanced(Join(d, n2, y, true, e), h);
  }

  lemma FarNephewBalanced(d: Side, up: Path, p: Node, pr: bool, b: Tree, y: Node, f: Tree, t: Tree, h: nat)
    requires Balanced(t, h) && Red(f) && BalancedAbove(Step(d, up, p, pr, Join(d, b, y, false, f)), h + 1)
    ensures var r := Join(d, Join(d, t, p, false, b), y, pr, f.(red := false));
      var k := if pr then h + 1 else h + 2;
      Balanced(r, k) && BalancedAbove(up, k) && !(RedAbove(up) && Red(r)) && (Red(r) ==> up.Step?)
  {
    assert Balanced(Join(d, t, p, false, b), h + 1);
    assert Balanced(Join(d, b, y, false, f), h + 1);
    assert Balanced(f, h);
    assert Balanced(f.(red := false), h + 1);
  }

  /** The short subtree is blackened, which makes up for the missing node. */
  lemma BlackFocus(c: Path, t: Tree, h: nat)
    requires t.Branch? && Weak(t, h) && BalancedAbove(c, h + 1) && (Red(t) || c.Top?)
    ensures var r := Plug(c, t.(red := false)); RedBlack(r)
  {
    var t' := t.(red := false);
    if t.red {
      assert Balanced(t', h + 1);
      BalancedPlug(c, t', h + 1);
      HeightIsBlackHeight(Plug(c, t'), HeightAbove(c, h + 1));
    } else {
      HeightIsBlackHeight(t', h);
    }
  }

  // ----- what the code reads -----

  /** The test elm != root: only at the top is the subtree the whole tree. */
  lemma RootView(m: Mem, c: Path, t: Tree)
    requires Linked(m, c, t)
    ensures c.Top? <==> RootOf(t) == m.root
  {
    if c.Step? {
      RootAround(m, c, RootOf(t));
      FocusApart(c, t);
      RootIn(t);
    }
  }

  lemma {:induction false} RootAround(m: Mem, c: Path, f: Node?)
    requires RepAbove(m, c, f) && c.Step?
    ensures m.root != null && m.root in Around(c)
  {
    AroundStep(c);
    if c.up.Step? { RootAround(m, c.up, c.node); }
  }

  /** The pointers that a round of the loop follows; the subtree may be empty. */
  lemma RemoveView(m: Mem, c: Path, t: Tree, h: nat)
    requires Linked(m, c, t) && c.Step? && Balanced(t, h) && BalancedAbove(c, h + 1)
    ensures c.sibling.Branch? && c.node in m.at && c.sibling.node in m.at
    ensures m.at[c.node].left == RootOf(t) <==> c.side == Left
    ensures KidAt(m, c.node, Opposite(c.side)) == c.sibling.node
    ensures m.at[c.node].red == c.red && m.at[c.node].parent == Parent(c.up)
    ensures Rep(m, c.sibling, c.node)
  {
    StepApart(c, t);
    RootIn(t);
    RootIn(c.sibling);
  }

  /** The colours of the children of s. */
  lemma NephewView(m: Mem, s: Tree, p: Node?)
    requires s.Branch? && Rep(m, s, p)
    ensures s.node in m.at && m.at[s.node].red == s.red
    ensures m.at[s.node].left == RootOf(s.left) && m.at[s.node].right == RootOf(s.right)
    ensures s.left.Branch? ==> s.left.node in m.at && m.at[s.left.node].red == s.left.red
    ensures s.right.Branch? ==> s.right.node in m.at && m.at[s.right.node].red == s.right.red
  {}

  /** After the last round the tree is whole. */
  lemma Restored(m: Mem, c: Path, r: Tree, k: nat)
    requires Linked(m, c, r) && Balanced(r, k) && BalancedAbove(c, k)
    requires !(RedAbove(c) && Red(r)) && (Red(r) ==> c.Step?)
    ensures var w := Plug(c, r);
      Linked(m, Top, w) && Weak(w, HeightAbove(c, k)) && !Red(w) && All(Top, w) == All(c, r)
    ensures BalancedAbove(Top, HeightAbove(c, k) + 1)
  {
    MoveTop(m, c, r);
    BalancedPlug(c, r, k);
    AllPlug(c, r);
    assert All(Top, Plug(c, r)) == Nodes(Plug(c, r));
  }

  // ----- taking a node out -----

  /** What is left at c, with root k, after a node of the given colour went:
      balanced, or one black node short. */
  ghost predicate Remaining(c: Path, k: Tree, red: bool, h: nat) {
    && Balanced(k, h)
    && if red then BalancedAbove(c, h) && c.Step? && !c.red else BalancedAbove(c, h + 1)
  }

  /** A node with one child at most. */
  lemma RemainingAfterSplice(c: Path, t: Tree, h: nat, k: Tree) returns (h': nat)
    requires t.Branch? && ((t.left == Leaf && k == t.right) || (t.right == Leaf && k == t.left))
    requires Balanced(t, h) && BalancedAbove(c, h) && !(t.red && (c.Top? || c.red))
    ensures Remaining(c, k, t.red, h')
  {
    h' := if t.red then h else h - 1;
  }

  lemma SplicedOrder(c: Path, t: Tree, k: Tree)
    requires t.Branch? && ((t.left == Leaf && k == t.right) || (t.right == Leaf && k == t.left))
    requires Sorted(All(c, t))
    ensures forall n :: n in All(c, k) <==> n in All(c, t) && n != t.node
  {
    BranchAndAround(c, t);
    assert forall n :: n in All(c, t) <==> n in Around(c) || n in Nodes(t);
    assert forall n :: n in All(c, k) <==> n in Around(c) || n in Nodes(k);
    assert forall n :: n in Nodes(t) <==> n == t.node || n in Nodes(k);
  }

  /** The colours above a position do not depend on which nodes carry them. */
  lemma {:induction false} GraftRenamed(q: Path, c: Path, x: Node, h: nat)
    requires c.Step?
    ensures BalancedAbove(Graft(q, c), h) <==> BalancedAbove(Graft(q, c.(node := x)), h)
    ensures Graft(q, c).Step? && Graft(q, c.(node := x)).Step?
    ensures Graft(q, c).red == Graft(q, c.(node := x)).red
    ensures Parent(Graft(q, c.(node := x))) == if q.Top? then x else Parent(Graft(q, c))
    decreases q
  {
    if q.Step? {
      GraftRenamed(q.up, c, x, if q.red then h else h + 1);
    }
  }

  lemma RemainingRenamed(q: Path, c: Path, x: Node, k: Tree, red: bool, h: nat)
    requires c.Step? && Remaining(Graft(q, c), k, red, h)
    ensures Remaining(Graft(q, c.(node := x)), k, red, h)
  {
    GraftRenamed(q, c, x, h);
    GraftRenamed(q, c, x, h + 1);
  }

  /** The order with the successor x in the place of its predecessor. */
  lemma SuccessorOrder(c: Path, l: Tree, u: Node, oc: bool, r: Tree, x: Node, r': Tree)
    requires Sorted(All(c, Branch(l, u, oc, r))) && Nodes(r) == [x] + Nodes(r')
    ensures Sorted(All(c, Branch(l, x, oc, r'))) && x != u
    ensures forall n :: n in All(c, Branch(l, x, oc, r')) <==> n in All(c, Branch(l, u, oc, r)) && n != u
  {
    var b, m, a := Before(c), Nodes(l), After(c);
    assert All(c, Branch(l, u, oc, r)) == b + (m + [u] + Nodes(r)) + a;
    assert All(c, Branch(l, x, oc, r')) == b + (m + [x] + Nodes(r')) + a;
    hide *;
    SuccessorSeq(b, m, u, x, Nodes(r), Nodes(r'), a);
  }

  lemma SuccessorSeq(b: seq<Node>, l: seq<Node>, u: Node, x: Node, r: seq<Node>, r': seq<Node>, a: seq<Node>)
    requires Sorted(b + (l + [u] + r) + a) && r == [x] + r'
    ensures Sorted(b + (l + [x] + r') + a) && x != u
    ensures forall n :: n in b + (l + [x] + r') + a <==> n in b + (l + [u] + r) + a && n != u
  {
    var s, t := b + l, r + a;
    RegroupAround(b, l, [u], r, a);
    RegroupAround(b, l, [x], r', a);
    assert s + [x] + (r' + a) == s + t;
    DropOne(s, u, t);
    assert t[0] == x;
  }

  lemma RegroupAround(b: seq<Node>, l: seq<Node>, n: seq<Node>, r: seq<Node>, a: seq<Node>)
    ensures b + (l + n + r) + a == (b + l) + n + (r + a)
  {}

  lemma DropOne(b: seq<Node>, u: Node, a: seq<Node>)
    requires Sorted(b + [u] + a)
    ensures Sorted(b + a) && u !in a
    ensures forall n :: n in b + a <==> n in b + [u] + a && n != u
  {
    SortedDrop(b, u, a);
    SortedApart(b + [u], a);
    SortedApart(b, [u]);
    assert u in b + [u] && u in [u];
  }

  /** Down the left spine there is nothing before the position. */
  lemma LeftSpine(q: Path, f: Tree, r: Tree)
    requires Before(q) == [] && r == Plug(q, f) && f.Branch? && f.left == Leaf
    ensures Nodes(r) == [f.node] + Nodes(Plug(q, f.right))
  {
    AllPlug(q, f);
    AllPlug(q, f.right);
    assert Nodes(f) == [f.node] + Nodes(f.right);
  }

  /** The successor x of u has been cut out of the right subtree; now it takes
      the place of u, and the position of its only child is seen from there. */
  lemma TakePlace(m: Mem, c0: Path, l: Tree, u: Node, oc: bool, q: Path, k: Tree, x: Node)
    requires Linked(m, Graft(q, Step(Right, c0, u, oc, l)), k) && x in m.at && x != u
    requires Sorted(All(c0, Branch(l, x, oc, Plug(q, k))))
    ensures u in m.at && InMemory(m, m.at[u].parent) && InMemory(m, m.at[u].left) && InMemory(m, m.at[u].right)
    ensures m.at[u].left == RootOf(l)
    ensures Linked(Replaced(m, u, x), Graft(q, Step(Right, c0, x, oc, l)), k)
    ensures All(Graft(q, Step(Right, c0, x, oc, l)), k) == All(c0, Branch(l, x, oc, Plug(q, k)))
  {
    var r' := Plug(q, k);
    MoveGraft(m, q, Step(Right, c0, u, oc, l), k);
    MoveUp(m, Right, c0, u, oc, l, r');
    Replace(m, c0, Branch(l, u, oc, r'), x);
    var m' := Replaced(m, u, x);
    MoveUp(m', Right, c0, x, oc, l, r');
    MoveGraft(m', q, Step(Right, c0, x, oc, l), k);
    AllGraft(q, Step(Right, c0, x, oc, l), k);
    AllUp(Right, c0, x, oc, l, r');
  }

  lemma {:induction false} AllGraft(q: Path, c: Path, t: Tree)
    ensures All(Graft(q, c), t) == All(c, Plug(q, t))
  {
    PlugGraft(q, c, t);
    AllPlug(Graft(q, c), t);
    AllPlug(c, Plug(q, t));
  }

  lemma RemainingShort(c: Path, k: Tree, h: nat)
    requires Remaining(c, k, false, h)
    ensures Weak(k, h) && BalancedAbove(c, h + 1)
  {}

  /** Nothing has to be restored when a red node has gone. */
  lemma RemainingWhole(m: Mem, c: Path, k: Tree, h: nat)
    requires Linked(m, c, k) && Remaining(c, k, true, h)
    ensures Linked(m, Top, Plug(c, k)) && RedBlack(Plug(c, k)) && Nodes(Plug(c, k)) == All(c, k)
  {
    MoveTop(m, c, k);
    AllPlug(c, k);
    BalancedPlug(c, k, h);
    HeightIsBlackHeight(Plug(c, k), HeightAbove(c, h));
  }
}
