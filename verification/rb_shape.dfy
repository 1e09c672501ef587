/** The shapes of red-black trees, apart from memory: trees of nodes, the path
    from a position up to the root, and the red-black rules. */
module RbShape {
  import opened Powers
  import opened Sides

  /** A tree node of tree.h; the comparison orders nodes by their keys. */
  class Node {
    const key: int
    var left: Node?
    var right: Node?
    var parent: Node?
    var red: bool

    constructor (key: int)
    {
      this.key := key;
      left, right, parent, red := null, null, null, false;
    }
  }

  datatype Tree = Leaf | Branch(left: Tree, node: Node, red: bool, right: Tree)

  /** The way from a subtree up to the root: on which side of which node it
      hangs, and what hangs on the other side. */
  datatype Path = Top | Step(side: Side, up: Path, node: Node, red: bool, sibling: Tree)

  /** A branch with a on side d. */
  function Join(d: Side, a: Tree, n: Node, red: bool, b: Tree): Tree {
    if d == Left then Branch(a, n, red, b) else Branch(b, n, red, a)
  }

  function Kid(t: Tree, d: Side): Tree
    requires t.Branch?
  {
    if d == Left then t.left else t.right
  }

  function Plug(c: Path, t: Tree): Tree {
    match c
    case Top => t
    case Step(d, up, n, red, s) => Plug(up, Join(d, t, n, red, s))
  }

  /** The path q continued by c. */
  function Graft(q: Path, c: Path): Path {
    match q
    case Top => c
    case Step(d, up, n, red, s) => Step(d, Graft(up, c), n, red, s)
  }

  function Depth(c: Path): nat {
    if c.Top? then 0 else 1 + Depth(c.up)
  }

  function RootOf(t: Tree): Node? {
    if t.Leaf? then null else t.node
  }

  function Parent(c: Path): Node? {
    if c.Top? then null else c.node
  }

  // ----- in-order sequences -----

  function Nodes(t: Tree): seq<Node> {
    if t.Leaf? then [] else Nodes(t.left) + [t.node] + Nodes(t.right)
  }

  function Before(c: Path): seq<Node> {
    if c.Top? then [] else if c.side == Left then Before(c.up) else Before(c.up) + Nodes(c.sibling) + [c.node]
  }

  function After(c: Path): seq<Node> {
    if c.Top? then [] else if c.side == Left then [c.node] + Nodes(c.sibling) + After(c.up) else After(c.up)
  }

  /** All nodes of the tree with t at the end of c, in order. */
  function All(c: Path, t: Tree): seq<Node> {
    Before(c) + Nodes(t) + After(c)
  }

  predicate Sorted(s: seq<Node>) {
    forall i, j :: 0 <= i < j < |s| ==> s[i].key < s[j].key
  }

  lemma AllUp(d: Side, up: Path, n: Node, red: bool, s: Tree, t: Tree)
    ensures All(Step(d, up, n, red, s), t) == All(up, Join(d, t, n, red, s))
  {
    if d == Left {
      RegroupLeft(Before(up), Nodes(t), [n], Nodes(s), After(up));
    } else {
      RegroupRight(Before(up), Nodes(s), [n], Nodes(t), After(up));
    }
  }

  lemma RegroupLeft(b: seq<Node>, t: seq<Node>, n: seq<Node>, s: seq<Node>, a: seq<Node>)
    ensures b + t + (n + s + a) == b + (t + n + s) + a
  {}

  lemma RegroupRight(b: seq<Node>, s: seq<Node>, n: seq<Node>, t: seq<Node>, a: seq<Node>)
    ensures (b + s + n) + t + a == b + (s + n + t) + a
  {}

  lemma {:induction false} AllPlug(c: Path, t: Tree)
    ensures Nodes(Plug(c, t)) == All(c, t)
  {
    if c.Step? {
      AllUp(c.side, c.up, c.node, c.red, c.sibling, t);
      AllPlug(c.up, Join(c.side, t, c.node, c.red, c.sibling));
    }
  }

  lemma {:induction false} PlugGraft(q: Path, c: Path, t: Tree)
    ensures Plug(Graft(q, c), t) == Plug(c, Plug(q, t))
  {
    if q.Step? {
      PlugGraft(q.up, c, Join(q.side, t, q.node, q.red, q.sibling));
    }
  }

  // ----- the red-black rules -----

  predicate Red(t: Tree) {
    t.Branch? && t.red
  }

  predicate RedAbove(c: Path) {
    c.Step? && c.red
  }

  /** No red node has a red child, and every way down passes h black nodes. */
  predicate Balanced(t: Tree, h: nat) {
    match t
    case Leaf => h == 0
    case Branch(l, n, red, r) =>
      if red then !Red(l) && !Red(r) && Balanced(l, h) && Balanced(r, h)
      else h > 0 && Balanced(l, h - 1) && Balanced(r, h - 1)
  }

  /** The same for what lies around a position where a subtree of black height h
      belongs; the node at the root is black. */
  predicate BalancedAbove(c: Path, h: nat) {
    match c
    case Top => true
    case Step(d, up, n, red, s) =>
      && Balanced(s, h)
      && if red then !Red(s) && up.Step? && !up.red && BalancedAbove(up, h)
         else BalancedAbove(up, h + 1)
  }

  function HeightAbove(c: Path, h: nat): nat {
    if c.Top? then h else HeightAbove(c.up, if c.red then h else h + 1)
  }

  lemma {:induction false} BalancedPlug(c: Path, t: Tree, h: nat)
    requires Balanced(t, h) && BalancedAbove(c, h) && !(RedAbove(c) && Red(t))
    ensures Balanced(Plug(c, t), HeightAbove(c, h))
    ensures c.Step? ==> !Red(Plug(c, t))
  {
    if c.Step? {
      BalancedPlug(c.up, Join(c.side, t, c.node, c.red, c.sibling), if c.red then h else h + 1);
    }
  }

  function BlackHeight(t: Tree): nat {
    if t.Leaf? then 0 else BlackHeight(t.left) + if t.red then 0 else 1
  }

  lemma {:induction false} HeightIsBlackHeight(t: Tree, h: nat)
    requires Balanced(t, h)
    ensures h == BlackHeight(t)
  {
    if t.Branch? { HeightIsBlackHeight(t.left, if t.red then h else h - 1); }
  }

  /** What every tree has between operations. */
  predicate RedBlack(t: Tree) {
    Balanced(t, BlackHeight(t)) && !Red(t)
  }

  function Height(t: Tree): nat {
    if t.Leaf? then 0
    else 1 + if Height(t.left) > Height(t.right) then Height(t.left) else Height(t.right)
  }

  lemma {:induction false} BlackHeightBound(t: Tree, h: nat)
    requires Balanced(t, h)
    ensures Pow2(h) <= |Nodes(t)| + 1
    ensures Height(t) <= 2 * h + if Red(t) then 1 else 0
  {
    if t.Branch? {
      var k := if t.red then h else h - 1;
      BlackHeightBound(t.left, k);
      BlackHeightBound(t.right, k);
      if !t.red { assert Pow2(h) == 2 * Pow2(h - 1); }
    }
  }

  /** The height of a red-black tree of n nodes is at most 2 lg(n + 1). */
  lemma HeightBound(t: Tree)
    requires RedBlack(t)
    ensures Pow2((Height(t) + 1) / 2) <= |Nodes(t)| + 1
  {
    var h := BlackHeight(t);
    BlackHeightBound(t, h);
    Pow2Mono((Height(t) + 1) / 2, h);
  }
}
