/** The cases of RB_INSERT_COLOR: what each sequence of writes does to the tree
    in memory, and why the result is balanced again. A red node t with a red
    parent p and the grandparent g is written as a position: t hangs on side dp
    of p, which hangs on side dg of g. */
module RbInsertion {
  import opened RbShape
  import opened RbMemory
  import opened Sides

  /** Colours do not matter for the order. */
  lemma JoinOrder(d: Side, a: Tree, n: Node, red: bool, b: Tree, red': bool)
    ensures Nodes(Join(d, a, n, red, b)) == Nodes(Join(d, a, n, red', b))
  {}

  lemma SameOrder(c: Path, t: Tree, t': Tree)
    requires Nodes(t) == Nodes(t')
    ensures All(c, t) == All(c, t')
  {}

  /** Two places down: the order of the whole only depends on that of the part. */
  lemma OrderBelow(dp: Side, dg: Side, up: Path, g: Node, u: Tree, p: Node, s: Tree, t: Tree, u': Tree)
    requires Nodes(u') == Nodes(u)
    ensures All(Step(dp, Step(dg, up, g, false, u), p, true, s), t)
         == All(up, Join(dg, Join(dp, t, p, false, s), g, true, u'))
  {
    hide Nodes;
    AllUp(dp, Step(dg, up, g, false, u), p, true, s, t);
    AllUp(dg, up, g, false, u, Join(dp, t, p, true, s));
    JoinOrder(dp, t, p, true, s, false);
    JoinSameOrder(dg, Join(dp, t, p, true, s), Join(dp, t, p, false, s), g, false, true, u, u');
    SameOrder(up, Join(dg, Join(dp, t, p, true, s), g, false, u), Join(dg, Join(dp, t, p, false, s), g, true, u'));
  }

  lemma JoinSameOrder(d: Side, a: Tree, a': Tree, n: Node, red: bool, red': bool, b: Tree, b': Tree)
    requires Nodes(a) == Nodes(a') && Nodes(b) == Nodes(b')
    ensures Nodes(Join(d, a, n, red, b)) == Nodes(Join(d, a', n, red', b'))
  {}

  /** Red uncle: the three colours change and the conflict moves up to g. */
  lemma UncleRed(m: Mem, dp: Side, dg: Side, up: Path, g: Node, u: Tree, p: Node, s: Tree, t: Tree)
    requires Linked(m, Step(dp, Step(dg, up, g, false, u), p, true, s), t) && u.Branch?
    ensures u.node in m.at && p in m.at && g in m.at
    ensures Linked(SetRed(SetRed(SetRed(m, u.node, false), p, false), g, true), up,
                   Join(dg, Join(dp, t, p, false, s), g, true, u.(red := false)))
    ensures All(up, Join(dg, Join(dp, t, p, false, s), g, true, u.(red := false)))
         == All(Step(dp, Step(dg, up, g, false, u), p, true, s), t)
  {
    assert Nodes(u.(red := false)) == Nodes(u);
    hide *;
    OrderBelow(dp, dg, up, g, u, p, s, t, u.(red := false));
    RecolourSibling(m, dg, up, g, false, u, Join(dp, t, p, true, s), dp, p, s, t);
    var u' := u.(red := false);
    var m1 := SetRed(m, u.node, false);
    RecolourBelow(m1, dg, up, g, false, u', dp, p, true, s, t, false);
    RecolourJoin(SetRed(m1, p, false), up, dg, Join(dp, t, p, false, s), g, false, u', true);
  }

  lemma RecolourJoin(m: Mem, c: Path, d: Side, a: Tree, n: Node, red: bool, b: Tree, red': bool)
    requires Linked(m, c, Join(d, a, n, red, b))
    ensures n in m.at && Linked(SetRed(m, n, red'), c, Join(d, a, n, red', b))
  {
    Recolour(m, c, Join(d, a, n, red, b), red');
  }

  lemma RecolourSibling(m: Mem, dg: Side, up: Path, g: Node, gr: bool, u: Tree, pt: Tree,
                        dp: Side, p: Node, s: Tree, t: Tree)
    requires u.Branch? && pt == Join(dp, t, p, true, s) && Linked(m, Step(dp, Step(dg, up, g, gr, u), p, true, s), t)
    ensures u.node in m.at
    ensures Linked(SetRed(m, u.node, false), up, Join(dg, pt, g, gr, u.(red := false)))
  {
    hide Linked, SetRed;
    MoveUp(m, dp, Step(dg, up, g, gr, u), p, true, s, t);
    MoveUp(m, dg, up, g, gr, u, pt);
    MoveUp(m, Opposite(dg), up, g, gr, pt, u);
    Recolour(m, Step(Opposite(dg), up, g, gr, pt), u, false);
    MoveUp(SetRed(m, u.node, false), Opposite(dg), up, g, gr, pt, u.(red := false));
  }

  lemma RecolourBelow(m: Mem, dg: Side, up: Path, g: Node, gr: bool, u: Tree,
                      dp: Side, p: Node, pr: bool, s: Tree, t: Tree, pr': bool)
    requires Linked(m, up, Join(dg, Join(dp, t, p, pr, s), g, gr, u))
    ensures p in m.at && Linked(SetRed(m, p, pr'), up, Join(dg, Join(dp, t, p, pr', s), g, gr, u))
  {
    hide Linked, SetRed;
    MoveUp(m, dg, up, g, gr, u, Join(dp, t, p, pr, s));
    RecolourJoin(m, Step(dg, up, g, gr, u), dp, t, p, pr, s, pr');
    MoveUp(SetRed(m, p, pr'), dg, up, g, gr, u, Join(dp, t, p, pr', s));
  }

  lemma JoinFlip(d: Side, a: Tree, n: Node, red: bool, b: Tree)
    ensures Join(Opposite(d), b, n, red, a) == Join(d, a, n, red, b)
  {}

  /** Inner child: rotating p makes it an outer one, with the roles of the two
      red nodes exchanged. */
  lemma Inner(m: Mem, d: Side, up: Path, g: Node, u: Tree, p: Node, s: Tree, x: Tree, n: Node, y: Tree)
    requires Linked(m, Step(Opposite(d), Step(d, up, g, false, u), p, true, s), Join(d, x, n, true, y))
    ensures CanRotate(m, p, d)
    ensures Linked(Rotated(m, p, d), Step(d, Step(d, up, g, false, u), n, true, y), Join(d, s, p, true, x))
    ensures All(Step(d, Step(d, up, g, false, u), n, true, y), Join(d, s, p, true, x))
         == All(Step(Opposite(d), Step(d, up, g, false, u), p, true, s), Join(d, x, n, true, y))
  {
    hide *;
    var c := Step(d, up, g, false, u);
    AllUp(Opposite(d), c, p, true, s, Join(d, x, n, true, y));
    AllUp(d, c, n, true, y, Join(d, s, p, true, x));
    RotateOrder(d, s, p, true, x, n, true, y);
    SameOrder(c, Join(d, Join(d, s, p, true, x), n, true, y), Join(d, s, p, true, Join(d, x, n, true, y)));
    MoveUp(m, Opposite(d), c, p, true, s, Join(d, x, n, true, y));
    JoinFlip(d, s, p, true, Join(d, x, n, true, y));
    Rotate(m, c, d, s, p, true, x, n, true, y);
    MoveUp(Rotated(m, p, d), d, c, n, true, y, Join(d, s, p, true, x));
  }

  /** Outer child: p turns black, g red, and g is rotated away. */
  lemma Outer(m: Mem, d: Side, up: Path, g: Node, u: Tree, p: Node, s: Tree, t: Tree)
    requires Linked(m, Step(d, Step(d, up, g, false, u), p, true, s), t)
    ensures p in m.at && g in m.at && CanRotate(SetRed(SetRed(m, p, false), g, true), g, Opposite(d))
    ensures Linked(Rotated(SetRed(SetRed(m, p, false), g, true), g, Opposite(d)),
                   Step(d, up, p, false, Join(Opposite(d), u, g, true, s)), t)
    ensures All(Step(d, up, p, false, Join(Opposite(d), u, g, true, s)), t)
         == All(Step(d, Step(d, up, g, false, u), p, true, s), t)
  {
    hide *;
    OuterOrder(d, up, g, u, p, s, t);
    MoveUp(m, d, Step(d, up, g, false, u), p, true, s, t);
    MoveUp(m, d, up, g, false, u, Join(d, t, p, true, s));
    RecolourBelow(m, d, up, g, false, u, d, p, true, s, t, false);
    var m1 := SetRed(m, p, false);
    RecolourJoin(m1, up, d, Join(d, t, p, false, s), g, false, u, true);
    var m2 := SetRed(m1, g, true);
    OuterRotate(m2, d, up, g, u, p, s, t);
  }

  lemma OuterOrder(d: Side, up: Path, g: Node, u: Tree, p: Node, s: Tree, t: Tree)
    ensures All(Step(d, up, p, false, Join(Opposite(d), u, g, true, s)), t)
         == All(Step(d, Step(d, up, g, false, u), p, true, s), t)
  {
    hide *;
    var e := Opposite(d);
    OrderBelow(d, d, up, g, u, p, s, t, u);
    AllUp(d, up, p, false, Join(e, u, g, true, s), t);
    JoinFlip(d, t, p, false, Join(e, u, g, true, s));
    RotateOrder(e, u, g, true, s, p, false, t);
    JoinFlip(d, t, p, false, s);
    JoinFlip(d, Join(d, t, p, false, s), g, true, u);
    SameOrder(up, Join(d, t, p, false, Join(e, u, g, true, s)), Join(d, Join(d, t, p, false, s), g, true, u));
  }

  lemma OuterRotate(m: Mem, d: Side, up: Path, g: Node, u: Tree, p: Node, s: Tree, t: Tree)
    requires Linked(m, up, Join(d, Join(d, t, p, false, s), g, true, u))
    ensures CanRotate(m, g, Opposite(d))
    ensures Linked(Rotated(m, g, Opposite(d)), Step(d, up, p, false, Join(Opposite(d), u, g, true, s)), t)
  {
    hide *;
    var e := Opposite(d);
    JoinFlip(d, Join(d, t, p, false, s), g, true, u);
    JoinFlip(d, t, p, false, s);
    Rotate(m, up, e, u, g, true, s, p, false, t);
    JoinFlip(d, t, p, false, Join(e, u, g, true, s));
    MoveUp(Rotated(m, g, e), d, up, p, false, Join(e, u, g, true, s), t);
  }

  // ----- balance -----

  lemma UncleRedBalanced(dp: Side, dg: Side, up: Path, g: Node, u: Tree, p: Node, s: Tree, t: Tree, h: nat)
    requires Red(u) && Balanced(t, h) && BalancedAbove(Step(dp, Step(dg, up, g, false, u), p, true, s), h)
    ensures Balanced(Join(dg, Join(dp, t, p, false, s), g, true, u.(red := false)), h + 1)
    ensures BalancedAbove(up, h + 1)
  {
    assert BalancedAbove(Step(dg, up, g, false, u), h);
    assert Balanced(Join(dp, t, p, false, s), h + 1);
  }

  lemma InnerBalanced(d: Side, up: Path, g: Node, u: Tree, p: Node, s: Tree, x: Tree, n: Node, y: Tree, h: nat)
    requires Balanced(Join(d, x, n, true, y), h)
    requires BalancedAbove(Step(Opposite(d), Step(d, up, g, false, u), p, true, s), h)
    ensures Balanced(Join(d, s, p, true, x), h)
    ensures BalancedAbove(Step(d, Step(d, up, g, false, u), n, true, y), h)
  {
    assert BalancedAbove(Step(d, up, g, false, u), h);
  }

  lemma OuterBalanced(d: Side, up: Path, g: Node, u: Tree, p: Node, s: Tree, h: nat)
    requires !Red(u) && BalancedAbove(Step(d, Step(d, up, g, false, u), p, true, s), h)
    ensures BalancedAbove(Step(d, up, p, false, Join(Opposite(d), u, g, true, s)), h)
  {
    assert BalancedAbove(Step(d, up, g, false, u), h);
    assert Balanced(Join(Opposite(d), u, g, true, s), h);
  }

  /** At the end the root turns black. */
  lemma BlackRoot(c: Path, t: Tree, h: nat)
    requires Balanced(t, h) && BalancedAbove(c, h) && !(RedAbove(c) && Red(t)) && t.Branch?
    ensures Plug(c, t).Branch? && RedBlack(Plug(c, t).(red := false))
  {
    PlugBranch(c, t);
    BalancedPlug(c, t, h);
    var r := Plug(c, t);
    var r' := r.(red := false);
    var k := HeightAbove(c, h);
    assert Balanced(r', if r.red then k + 1 else k);
    HeightIsBlackHeight(r', if r.red then k + 1 else k);
  }

  lemma {:induction false} PlugBranch(c: Path, t: Tree)
    requires t.Branch?
    ensures Plug(c, t).Branch?
  {
    if c.Step? { PlugBranch(c.up, Join(c.side, t, c.node, c.red, c.sibling)); }
  }

  // ----- what the code reads -----

  lemma ParentView(m: Mem, c: Path, t: Tree)
    requires Linked(m, c, t) && t.Branch?
    ensures t.node in m.at && m.at[t.node].parent == Parent(c)
    ensures c.Step? ==> c.node in m.at && m.at[c.node].red == c.red && m.at[c.node].parent == Parent(c.up)
  {}

  /** The pointers that one round of the loop follows. */
  lemma InsertView(m: Mem, c: Path, t: Tree, h: nat)
    requires Linked(m, c, t) && Red(t) && RedAbove(c) && BalancedAbove(c, h)
    ensures c.up.Step? && !c.up.red && c.node in m.at && c.up.node in m.at
    ensures m.at[c.node].parent == c.up.node && (m.at[c.up.node].left == c.node <==> c.up.side == Left)
    ensures KidAt(m, c.up.node, Opposite(c.up.side)) == RootOf(c.up.sibling)
    ensures c.up.sibling.Branch? ==> c.up.sibling.node in m.at && m.at[c.up.sibling.node].red == c.up.sibling.red
    ensures KidAt(m, c.node, Opposite(c.up.side)) == t.node <==> c.side == Opposite(c.up.side)
  {
    var pt := Join(c.side, t, c.node, c.red, c.sibling);
    MoveUp(m, c.side, c.up, c.node, c.red, c.sibling, t);
    SideOf(m, c, t);
    SideOf(m, c.up, pt);
  }
}
