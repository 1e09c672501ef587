/** Red-black trees in memory: the four fields of every node and the root
    pointer, when they represent a tree, and what single writes and rotations
    do to the tree they represent. */
module RbMemory {
  import opened RbShape
  import opened Sides

  datatype Fields = Fields(left: Node?, right: Node?, parent: Node?, red: bool)

  datatype Mem = Mem(root: Node?, at: map<Node, Fields>)

  function KidAt(m: Mem, n: Node, d: Side): Node?
    requires n in m.at
  {
    if d == Left then m.at[n].left else m.at[n].right
  }

  function SetKid(m: Mem, n: Node, d: Side, v: Node?): (m': Mem)
    requires n in m.at
    ensures m'.at.Keys == m.at.Keys
  {
    m.(at := m.at[n := if d == Left then m.at[n].(left := v) else m.at[n].(right := v)])
  }

  function SetParent(m: Mem, n: Node, v: Node?): (m': Mem)
    requires n in m.at
    ensures m'.at.Keys == m.at.Keys
  {
    m.(at := m.at[n := m.at[n].(parent := v)])
  }

  function SetRed(m: Mem, n: Node, v: bool): (m': Mem)
    requires n in m.at
    ensures m'.at.Keys == m.at.Keys
  {
    m.(at := m.at[n := m.at[n].(red := v)])
  }

  /** v takes the place of u under its parent z, or at the root. */
  function Rehung(m: Mem, z: Node?, u: Node?, v: Node?): (m': Mem)
    requires z != null ==> z in m.at
    ensures m'.at.Keys == m.at.Keys
  {
    if z == null then m.(root := v)
    else SetKid(m, z, if m.at[z].left == u then Left else Right, v)
  }

  function SetParentIf(m: Mem, n: Node?, v: Node?): (m': Mem)
    requires n != null ==> n in m.at
    ensures m'.at.Keys == m.at.Keys
  {
    if n == null then m else SetParent(m, n, v)
  }

  predicate InMemory(m: Mem, n: Node?) {
    n != null ==> n in m.at
  }

  predicate CanRotate(m: Mem, x: Node, d: Side) {
    && x in m.at && InMemory(m, m.at[x].parent)
    && var y := KidAt(m, x, Opposite(d));
       y != null && y in m.at && InMemory(m, KidAt(m, y, d))
  }

  /** The rotation of x towards side d: its child on the other side comes up. */
  function Rotated(m: Mem, x: Node, d: Side): (m': Mem)
    requires CanRotate(m, x, d)
    ensures m'.at.Keys == m.at.Keys
  {
    var y := KidAt(m, x, Opposite(d));
    var b := KidAt(m, y, d);
    var m1 := SetParentIf(SetKid(m, x, Opposite(d), b), b, x);
    var z := m1.at[x].parent;
    var m2 := Rehung(SetParent(m1, y, z), z, x, y);
    SetParent(SetKid(m2, y, d, x), x, y)
  }

  // ----- representation -----

  /** The subtree t is in memory, hanging under p. */
  ghost predicate Rep(m: Mem, t: Tree, p: Node?) {
    t.Branch? ==>
      && t.node in m.at
      && m.at[t.node] == Fields(RootOf(t.left), RootOf(t.right), p, t.red)
      && Rep(m, t.left, t.node) && Rep(m, t.right, t.node)
  }

  /** Everything above and beside the position c is in memory, with f hanging
      there. */
  ghost predicate RepAbove(m: Mem, c: Path, f: Node?) {
    match c
    case Top => m.root == f
    case Step(d, up, n, red, s) =>
      && n in m.at
      && m.at[n] == (if d == Left then Fields(f, RootOf(s), Parent(up), red)
                     else Fields(RootOf(s), f, Parent(up), red))
      && Rep(m, s, n) && RepAbove(m, up, n)
  }

  /** Memory holds the search tree with subtree t at position c. */
  ghost predicate Linked(m: Mem, c: Path, t: Tree) {
    Rep(m, t, Parent(c)) && RepAbove(m, c, RootOf(t)) && Sorted(All(c, t))
  }

  ghost predicate Same(m: Mem, m': Mem, s: seq<Node>) {
    forall n :: n in s && n in m.at ==> n in m'.at && m'.at[n] == m.at[n]
  }

  lemma {:induction false} RepFrame(m: Mem, m': Mem, t: Tree, p: Node?)
    requires Rep(m, t, p) && Same(m, m', Nodes(t))
    ensures Rep(m', t, p)
  {
    if t.Branch? {
      RepFrame(m, m', t.left, t.node);
      RepFrame(m, m', t.right, t.node);
    }
  }

  function Around(c: Path): seq<Node> {
    Before(c) + After(c)
  }

  lemma {:induction false} AboveFrame(m: Mem, m': Mem, c: Path, f: Node?)
    requires RepAbove(m, c, f) && Same(m, m', Around(c)) && m'.root == m.root
    ensures RepAbove(m', c, f)
  {
    if c.Step? {
      AroundStep(c);
      RepFrame(m, m', c.sibling, c.node);
      AboveFrame(m, m', c.up, c.node);
    }
  }

  lemma AroundStep(c: Path)
    requires c.Step?
    ensures c.node in Around(c)
    ensures forall n :: n in Nodes(c.sibling) ==> n in Around(c)
    ensures forall n :: n in Around(c.up) ==> n in Around(c)
    ensures forall n :: n in Around(c) ==> n == c.node || n in Nodes(c.sibling) || n in Around(c.up)
  {}

  ghost predicate Apart(s: seq<Node>, t: seq<Node>) {
    forall n :: n in s ==> n !in t
  }

  lemma SortedApart(s: seq<Node>, t: seq<Node>)
    requires Sorted(s + t)
    ensures Sorted(s) && Sorted(t) && Apart(s, t)
  {
    forall i, j | 0 <= i < |s| && 0 <= j < |t|
      ensures s[i] != t[j]
    {
      assert (s + t)[i].key < (s + t)[|s| + j].key;
    }
    forall i, j | 0 <= i < j < |t|
      ensures t[i].key < t[j].key
    {
      assert (s + t)[|s| + i].key < (s + t)[|s| + j].key;
    }
    forall i, j | 0 <= i < j < |s|
      ensures s[i].key < s[j].key
    {
      assert (s + t)[i].key < (s + t)[j].key;
    }
  }

  lemma BranchApart(t: Tree)
    requires t.Branch? && Sorted(Nodes(t))
    ensures Sorted(Nodes(t.left)) && Sorted(Nodes(t.right)) && Apart(Nodes(t.left), Nodes(t.right))
    ensures t.node !in Nodes(t.left) && t.node !in Nodes(t.right)
  {
    SortedApart(Nodes(t.left) + [t.node], Nodes(t.right));
    SortedApart(Nodes(t.left), [t.node]);
  }

  lemma JoinApart(d: Side, a: Tree, n: Node, red: bool, b: Tree)
    requires Sorted(Nodes(Join(d, a, n, red, b)))
    ensures Sorted(Nodes(a)) && Sorted(Nodes(b)) && Apart(Nodes(a), Nodes(b)) && n !in Nodes(a) && n !in Nodes(b)
    ensures forall k :: k in Nodes(Join(d, a, n, red, b)) <==> k == n || k in Nodes(a) || k in Nodes(b)
  {
    BranchApart(Join(d, a, n, red, b));
  }

  function JoinFields(d: Side, u: Node?, v: Node?, p: Node?, red: bool): Fields {
    if d == Left then Fields(u, v, p, red) else Fields(v, u, p, red)
  }

  lemma JoinRep(m: Mem, d: Side, a: Tree, n: Node, red: bool, b: Tree, p: Node?)
    ensures Rep(m, Join(d, a, n, red, b), p) <==>
      && n in m.at && m.at[n] == JoinFields(d, RootOf(a), RootOf(b), p, red)
      && Rep(m, a, n) && Rep(m, b, n)
  {}

  lemma FocusApart(c: Path, t: Tree)
    requires Sorted(All(c, t))
    ensures Sorted(Nodes(t)) && Apart(Nodes(t), Around(c))
  {
    SortedApart(Before(c) + Nodes(t), After(c));
    SortedApart(Before(c), Nodes(t));
  }

  /** What is around a position is itself apart. */
  lemma StepApart(c: Path, t: Tree)
    requires c.Step? && Sorted(All(c, t))
    ensures c.node !in Nodes(c.sibling) && c.node !in Around(c.up) && Apart(Nodes(c.sibling), Around(c.up))
    ensures c.node !in Nodes(t) && Apart(Nodes(t), Nodes(c.sibling))
  {
    AllUp(c.side, c.up, c.node, c.red, c.sibling, t);
    var j := Join(c.side, t, c.node, c.red, c.sibling);
    FocusApart(c.up, j);
    BranchApart(j);
  }

  // ----- moving the position -----

  lemma MoveUp(m: Mem, d: Side, up: Path, n: Node, red: bool, s: Tree, t: Tree)
    ensures Linked(m, Step(d, up, n, red, s), t) <==> Linked(m, up, Join(d, t, n, red, s))
  {
    AllUp(d, up, n, red, s, t);
    hide All;
  }

  lemma {:induction false} MoveTop(m: Mem, c: Path, t: Tree)
    ensures Linked(m, c, t) <==> Linked(m, Top, Plug(c, t))
  {
    if c.Step? {
      MoveUp(m, c.side, c.up, c.node, c.red, c.sibling, t);
      MoveTop(m, c.up, Join(c.side, t, c.node, c.red, c.sibling));
    }
  }

  lemma {:induction false} MoveGraft(m: Mem, q: Path, c: Path, t: Tree)
    ensures Linked(m, Graft(q, c), t) <==> Linked(m, c, Plug(q, t))
  {
    if q.Step? {
      MoveUp(m, q.side, Graft(q.up, c), q.node, q.red, q.sibling, t);
      MoveGraft(m, q.up, c, Join(q.side, t, q.node, q.red, q.sibling));
    }
  }

  // ----- writes -----

  lemma Recolour(m: Mem, c: Path, t: Tree, red: bool)
    requires t.Branch? && Linked(m, c, t)
    ensures t.node in m.at && Linked(SetRed(m, t.node, red), c, t.(red := red))
  {
    FocusApart(c, t);
    BranchApart(t);
    var m' := SetRed(m, t.node, red);
    RepFrame(m, m', t.left, t.node);
    RepFrame(m, m', t.right, t.node);
    assert t.node in Nodes(t);
    AboveFrame(m, m', c, t.node);
  }

  /** A subtree gets another parent. */
  lemma Reparent(m: Mem, t: Tree, p: Node?, p': Node?)
    requires Rep(m, t, p) && Sorted(Nodes(t))
    ensures Rep(SetParentIf(m, RootOf(t), p'), t, p')
  {
    if t.Branch? {
      BranchApart(t);
      var m' := SetParentIf(m, RootOf(t), p');
      RepFrame(m, m', t.left, t.node);
      RepFrame(m, m', t.right, t.node);
    }
  }

  /** Something else is hung at a position. */
  lemma Rehang(m: Mem, c: Path, t: Tree, u: Node, v: Node?)
    requires RepAbove(m, c, u) && RootOf(t) == u && Sorted(All(c, t))
    ensures RepAbove(Rehung(m, Parent(c), u, v), c, v)
    ensures c.Step? ==> KidAt(m, c.node, c.side) == u && (m.at[c.node].left == u <==> c.side == Left)
  {
    if c.Step? {
      StepApart(c, t);
      assert u in Nodes(t);
      assert RootOf(c.sibling) != null ==> RootOf(c.sibling) in Nodes(c.sibling);
      var m' := Rehung(m, Parent(c), u, v);
      RepFrame(m, m', c.sibling, c.node);
      AboveFrame(m, m', c.up, c.node);
    }
  }

  // ----- rotations -----

  lemma RotateOrder(d: Side, a: Tree, x: Node, xr: bool, b: Tree, y: Node, yr: bool, e: Tree)
    ensures Nodes(Join(d, Join(d, a, x, xr, b), y, yr, e)) == Nodes(Join(d, a, x, xr, Join(d, b, y, yr, e)))
  {
    if d == Left {
      assert Nodes(a) + [x] + (Nodes(b) + [y] + Nodes(e)) == (Nodes(a) + [x] + Nodes(b)) + [y] + Nodes(e);
    } else {
      assert (Nodes(e) + [y] + Nodes(b)) + [x] + Nodes(a) == Nodes(e) + [y] + (Nodes(b) + [x] + Nodes(a));
    }
  }

  function WithKid(f: Fields, d: Side, v: Node?): Fields {
    if d == Left then f.(left := v) else f.(right := v)
  }

  /** A rotation, node by node. */
  lemma RotatedFields(m: Mem, x: Node, d: Side, y: Node, b: Node?, z: Node?)
    requires CanRotate(m, x, d) && KidAt(m, x, Opposite(d)) == y && KidAt(m, y, d) == b && m.at[x].parent == z
    requires x != y && b != x && b != y && z != x && z != y && (b != null ==> b != z)
    ensures var m' := Rotated(m, x, d);
      && m'.at.Keys == m.at.Keys && m'.root == Rehung(m, z, x, y).root
      && m'.at[x] == WithKid(m.at[x], Opposite(d), b).(parent := y)
      && m'.at[y] == WithKid(m.at[y], d, x).(parent := z)
      && (b != null ==> m'.at[b] == m.at[b].(parent := x))
      && (forall n :: n in m.at && n != x && n != y && n != b ==> m'.at[n] == Rehung(m, z, x, y).at[n])
      && (forall n :: n in m.at && n != x && n != y && n != b && n != z ==> m'.at[n] == m.at[n])
  {
    hide Opposite;
    var m1 := SetParentIf(SetKid(m, x, Opposite(d), b), b, x);
    assert m1.at[x].parent == z;
    assert z != null ==> m1.at[z] == m.at[z];
    var m2 := Rehung(SetParent(m1, y, z), z, x, y);
    assert Rotated(m, x, d) == SetParent(SetKid(m2, y, d, x), x, y);
  }

  lemma Rotate(m: Mem, c: Path, d: Side, a: Tree, x: Node, xr: bool, b: Tree, y: Node, yr: bool, e: Tree)
    requires Linked(m, c, Join(d, a, x, xr, Join(d, b, y, yr, e)))
    ensures CanRotate(m, x, d)
    ensures Linked(Rotated(m, x, d), c, Join(d, Join(d, a, x, xr, b), y, yr, e))
  {
    RotateOrder(d, a, x, xr, b, y, yr, e);
    RotateReady(m, c, d, a, x, xr, b, y, yr, e);
    RotateAbove(m, c, d, a, x, xr, b, y, yr, e);
    RotateBelow(m, c, d, a, x, xr, b, y, yr, e);
    hide Rotated, Rehung;
  }

  /** The pointers that a rotation follows. */
  lemma RotateReady(m: Mem, c: Path, d: Side, a: Tree, x: Node, xr: bool, b: Tree, y: Node, yr: bool, e: Tree)
    requires Linked(m, c, Join(d, a, x, xr, Join(d, b, y, yr, e)))
    ensures CanRotate(m, x, d)
    ensures m.at[x] == JoinFields(d, RootOf(a), y, Parent(c), xr)
    ensures m.at[y] == JoinFields(d, RootOf(b), RootOf(e), x, yr)
    ensures Rep(m, a, x) && Rep(m, b, y) && Rep(m, e, y)
    ensures InMemory(m, RootOf(b)) && InMemory(m, Parent(c))
  {
    JoinRep(m, d, a, x, xr, Join(d, b, y, yr, e), Parent(c));
    JoinRep(m, d, b, y, yr, e, x);
  }

  /** The pieces of a rotation have no node in common. */
  lemma RotateApart(c: Path, d: Side, a: Tree, x: Node, xr: bool, b: Tree, y: Node, yr: bool, e: Tree)
    requires Sorted(All(c, Join(d, a, x, xr, Join(d, b, y, yr, e))))
    ensures x != y && Sorted(Nodes(b))
    ensures x !in Nodes(a) && x !in Nodes(b) && x !in Nodes(e)
    ensures y !in Nodes(a) && y !in Nodes(b) && y !in Nodes(e)
    ensures Apart(Nodes(a), Nodes(b)) && Apart(Nodes(b), Nodes(e))
    ensures x !in Around(c) && y !in Around(c)
    ensures Apart(Nodes(a), Around(c)) && Apart(Nodes(b), Around(c)) && Apart(Nodes(e), Around(c))
  {
    hide *;
    var t := Join(d, a, x, xr, Join(d, b, y, yr, e));
    FocusApart(c, t);
    JoinApart(d, a, x, xr, Join(d, b, y, yr, e));
    JoinApart(d, b, y, yr, e);
    PiecesApart(Nodes(a), Nodes(b), Nodes(e), x, y, Nodes(Join(d, b, y, yr, e)), Nodes(t), Around(c));
  }

  lemma PiecesApart(a: seq<Node>, b: seq<Node>, e: seq<Node>, x: Node, y: Node,
                    lower: seq<Node>, all: seq<Node>, around: seq<Node>)
    requires forall k :: k in lower <==> k == y || k in b || k in e
    requires forall k :: k in all <==> k == x || k in a || k in lower
    requires Apart(all, around) && Apart(a, lower) && x !in lower
    ensures x != y && x !in around && y !in around
    ensures Apart(a, around) && Apart(b, around) && Apart(e, around) && Apart(a, b)
    ensures y !in a && x !in b && x !in e
  {
    assert x in all && y in lower;
  }

  lemma RotateAbove(m: Mem, c: Path, d: Side, a: Tree, x: Node, xr: bool, b: Tree, y: Node, yr: bool, e: Tree)
    requires CanRotate(m, x, d) && Linked(m, c, Join(d, a, x, xr, Join(d, b, y, yr, e)))
    ensures RepAbove(Rotated(m, x, d), c, y)
  {
    hide Nodes, Rotated;
    var t := Join(d, a, x, xr, Join(d, b, y, yr, e));
    RotateReady(m, c, d, a, x, xr, b, y, yr, e);
    RotateFields(m, c, d, a, x, xr, b, y, yr, e);
    RotateApart(c, d, a, x, xr, b, y, yr, e);
    RootIn(b);
    hide Nodes, Around, Rotated, CanRotate;
    Rehang(m, c, t, x, y);
    AboveFrame(Rehung(m, Parent(c), x, y), Rotated(m, x, d), c, y);
  }

  lemma RootIn(t: Tree)
    ensures t.Branch? ==> t.node in Nodes(t)
  {}

  lemma RotateFields(m: Mem, c: Path, d: Side, a: Tree, x: Node, xr: bool, b: Tree, y: Node, yr: bool, e: Tree)
    requires CanRotate(m, x, d) && InMemory(m, RootOf(b)) && InMemory(m, Parent(c))
    requires Linked(m, c, Join(d, a, x, xr, Join(d, b, y, yr, e)))
    ensures var m' := Rotated(m, x, d);
      && m'.at[x] == JoinFields(d, RootOf(a), RootOf(b), y, xr)
      && m'.at[y] == JoinFields(d, x, RootOf(e), Parent(c), yr)
      && (b.Branch? ==> m'.at[b.node] == m.at[b.node].(parent := x))
      && (forall n :: n in m.at && n != x && n != y && n != RootOf(b) ==> m'.at[n] == Rehung(m, Parent(c), x, y).at[n])
      && (forall n :: n in m.at && n != x && n != y && n != RootOf(b) && n != Parent(c) ==> m'.at[n] == m.at[n])
      && m'.root == Rehung(m, Parent(c), x, y).root
  {
    hide Rotated, Rehung, Nodes, Around, All, Rep;
    RotateReady(m, c, d, a, x, xr, b, y, yr, e);
    RotateApart(c, d, a, x, xr, b, y, yr, e);
    RootIn(b);
    if c.Step? { AroundStep(c); }
    hide Linked, Join;
    RotatedFields(m, x, d, y, RootOf(b), Parent(c));
  }

  lemma RotateSame(m: Mem, c: Path, d: Side, a: Tree, x: Node, xr: bool, b: Tree, y: Node, yr: bool, e: Tree)
    requires CanRotate(m, x, d) && Linked(m, c, Join(d, a, x, xr, Join(d, b, y, yr, e)))
    requires InMemory(m, RootOf(b)) && InMemory(m, Parent(c))
    ensures Sorted(Nodes(b))
    ensures Same(m, Rotated(m, x, d), Nodes(a)) && Same(m, Rotated(m, x, d), Nodes(e))
    ensures Same(SetParentIf(m, RootOf(b), x), Rotated(m, x, d), Nodes(b))
  {
    hide Nodes, Sorted, Around, Join, Rotated, Rehung, CanRotate, Rep, RepAbove;
    RotateFields(m, c, d, a, x, xr, b, y, yr, e);
    RotateApart(c, d, a, x, xr, b, y, yr, e);
    RootIn(b);
    if c.Step? { AroundStep(c); }
    hide Linked, Join, Rotated, Rehung, CanRotate, Nodes, Sorted, Around;
  }

  lemma RotateBelow(m: Mem, c: Path, d: Side, a: Tree, x: Node, xr: bool, b: Tree, y: Node, yr: bool, e: Tree)
    requires CanRotate(m, x, d) && Linked(m, c, Join(d, a, x, xr, Join(d, b, y, yr, e)))
    ensures Rep(Rotated(m, x, d), Join(d, Join(d, a, x, xr, b), y, yr, e), Parent(c))
  {
    var m' := Rotated(m, x, d);
    RotateReady(m, c, d, a, x, xr, b, y, yr, e);
    RotateFields(m, c, d, a, x, xr, b, y, yr, e);
    RotateSame(m, c, d, a, x, xr, b, y, yr, e);
    hide Rotated, Rehung, Linked, CanRotate, Same;
    RepFrame(m, m', a, x);
    RepFrame(m, m', e, y);
    Reparent(m, b, y, x);
    RepFrame(SetParentIf(m, RootOf(b), x), m', b, x);
    RotateJoins(m', d, a, x, xr, b, y, yr, e, Parent(c));
  }

  lemma RotateJoins(m: Mem, d: Side, a: Tree, x: Node, xr: bool, b: Tree, y: Node, yr: bool, e: Tree, p: Node?)
    requires x in m.at && m.at[x] == JoinFields(d, RootOf(a), RootOf(b), y, xr)
    requires y in m.at && m.at[y] == JoinFields(d, x, RootOf(e), p, yr)
    requires Rep(m, a, x) && Rep(m, b, x) && Rep(m, e, y)
    ensures Rep(m, Join(d, Join(d, a, x, xr, b), y, yr, e), p)
  {
    JoinRep(m, d, a, x, xr, b, y);
    JoinRep(m, d, Join(d, a, x, xr, b), y, yr, e, p);
  }

  // ----- where a node hangs -----

  /** The test "is it the left child of its parent" tells the side. */
  lemma SideOf(m: Mem, c: Path, t: Tree)
    requires c.Step? && Linked(m, c, t) && t.Branch?
    ensures c.node in m.at && (m.at[c.node].left == t.node <==> c.side == Left)
    ensures m.at[c.node].right == t.node <==> c.side == Right
    ensures KidAt(m, c.node, c.side) == t.node && KidAt(m, c.node, Opposite(c.side)) == RootOf(c.sibling)
    ensures t.node in m.at && m.at[t.node].parent == c.node
  {
    StepApart(c, t);
    RootIn(t);
    RootIn(c.sibling);
  }

  lemma LinkedFrame(m: Mem, m': Mem, c: Path, t: Tree)
    requires Linked(m, c, t) && Same(m, m', All(c, t)) && m'.root == m.root
    ensures Linked(m', c, t)
  {
    RepFrame(m, m', t, Parent(c));
    AboveFrame(m, m', c, RootOf(t));
  }

  // ----- adding and taking out nodes -----

  /** v is written into the pointer that leads to position c. */
  function Hung(m: Mem, c: Path, v: Node?): (m': Mem)
    requires InMemory(m, Parent(c))
    ensures m'.at.Keys == m.at.Keys
  {
    if c.Top? then m.(root := v) else SetKid(m, c.node, c.side, v)
  }

  lemma Hang(m: Mem, c: Path, u: Node?, v: Node?)
    requires RepAbove(m, c, u) && Sorted(All(c, Leaf))
    ensures InMemory(m, Parent(c)) && RepAbove(Hung(m, c, v), c, v)
  {
    if c.Step? {
      StepApart(c, Leaf);
      var m' := Hung(m, c, v);
      RepFrame(m, m', c.sibling, c.node);
      AboveFrame(m, m', c.up, c.node);
    }
  }

  /** A new red leaf. */
  function Added(m: Mem, c: Path, x: Node): Mem
    requires InMemory(m, Parent(c)) && x in m.at
  {
    Hung(m.(at := m.at[x := Fields(null, null, Parent(c), true)]), c, x)
  }

  lemma Add(m: Mem, c: Path, x: Node)
    requires Linked(m, c, Leaf) && x in m.at && Sorted(All(c, Branch(Leaf, x, true, Leaf)))
    ensures InMemory(m, Parent(c)) && Linked(Added(m, c, x), c, Branch(Leaf, x, true, Leaf))
  {
    var t := Branch(Leaf, x, true, Leaf);
    FocusApart(c, t);
    assert x in Nodes(t);
    var m1 := m.(at := m.at[x := Fields(null, null, Parent(c), true)]);
    AboveFrame(m, m1, c, null);
    Hang(m1, c, null, x);
    if c.Step? { AroundStep(c); }
  }

  /** x, which has at most one child k, is cut out and k takes its place. */
  function Spliced(m: Mem, x: Node, k: Node?): Mem
    requires x in m.at && InMemory(m, k) && InMemory(m, m.at[x].parent)
  {
    Rehung(SetParentIf(m, k, m.at[x].parent), m.at[x].parent, x, k)
  }

  lemma SortedDrop(s: seq<Node>, x: Node, t: seq<Node>)
    requires Sorted(s + [x] + t)
    ensures Sorted(s + t)
  {
    var u := s + [x] + t;
    forall i, j | 0 <= i < j < |s + t|
      ensures (s + t)[i].key < (s + t)[j].key
    {
      var i', j' := if i < |s| then i else i + 1, if j < |s| then j else j + 1;
      assert (s + t)[i] == u[i'] && (s + t)[j] == u[j'];
    }
  }

  /** The nodes around an only child's parent. */
  lemma OnlyChildOrder(c: Path, t: Tree, k: Tree)
    requires t.Branch? && ((t.left == Leaf && k == t.right) || (t.right == Leaf && k == t.left))
    requires Sorted(All(c, t))
    ensures Sorted(All(c, k))
  {
    if t.left == Leaf {
      assert Nodes(t) == [t.node] + Nodes(k);
      assert All(c, t) == Before(c) + [t.node] + (Nodes(k) + After(c));
      SortedDrop(Before(c), t.node, Nodes(k) + After(c));
      assert All(c, k) == Before(c) + (Nodes(k) + After(c));
    } else {
      assert Nodes(t) == Nodes(k) + [t.node];
      assert All(c, t) == (Before(c) + Nodes(k)) + [t.node] + After(c);
      SortedDrop(Before(c) + Nodes(k), t.node, After(c));
    }
  }

  lemma Splice(m: Mem, c: Path, t: Tree, k: Tree)
    requires t.Branch? && ((t.left == Leaf && k == t.right) || (t.right == Leaf && k == t.left))
    requires Linked(m, c, t)
    ensures t.node in m.at && InMemory(m, RootOf(k)) && InMemory(m, m.at[t.node].parent)
    ensures Linked(Spliced(m, t.node, RootOf(k)), c, k)
    ensures Spliced(m, t.node, RootOf(k)).at[t.node] == m.at[t.node]
  {
    OnlyChildOrder(c, t, k);
    BranchAndAround(c, t);
    RootIn(k);
    assert Rep(m, k, t.node);
    if c.Step? { AroundStep(c); }
    var m1 := SetParentIf(m, RootOf(k), Parent(c));
    Reparent(m, k, t.node, Parent(c));
    AboveFrame(m, m1, c, t.node);
    Rehang(m1, c, t, t.node, RootOf(k));
    RepFrame(m1, Spliced(m, t.node, RootOf(k)), k, Parent(c));
  }

  lemma BranchAndAround(c: Path, t: Tree)
    requires t.Branch? && Sorted(All(c, t))
    ensures Sorted(Nodes(t.left)) && Sorted(Nodes(t.right)) && Apart(Nodes(t.left), Nodes(t.right))
    ensures t.node !in Nodes(t.left) && t.node !in Nodes(t.right) && t.node !in Around(c)
    ensures Apart(Nodes(t.left), Around(c)) && Apart(Nodes(t.right), Around(c))
  {
    hide All, Around;
    FocusApart(c, t);
    BranchApart(t);
    assert forall k :: k in Nodes(t) <==> k in Nodes(t.left) || k == t.node || k in Nodes(t.right);
  }

  /** x takes over the place and the fields of u. */
  function Replaced(m: Mem, u: Node, x: Node): Mem
    requires u in m.at && x in m.at && x != u
    requires InMemory(m, m.at[u].parent) && InMemory(m, m.at[u].left) && InMemory(m, m.at[u].right)
  {
    var m1 := m.(at := m.at[x := m.at[u]]);
    var m2 := Rehung(m1, m1.at[u].parent, u, x);
    var m3 := SetParentIf(m2, m.at[u].left, x);
    SetParentIf(m3, m.at[u].right, x)
  }

  lemma Replace(m: Mem, c: Path, t: Tree, x: Node)
    requires t.Branch? && Linked(m, c, t) && x in m.at && x != t.node
    requires Sorted(All(c, t.(node := x)))
    ensures var u := t.node;
      u in m.at && InMemory(m, m.at[u].parent) && InMemory(m, m.at[u].left) && InMemory(m, m.at[u].right)
    ensures Linked(Replaced(m, t.node, x), c, t.(node := x))
  {
    ReplaceFields(m, c, t, x);
    ReplaceAbove(m, c, t, x);
    var m' := Replaced(m, t.node, x);
    BranchAndAround(c, t);
    BranchAndAround(c, t.(node := x));
    ReplaceKid(m, m', t.left, t.node, x);
    ReplaceKid(m, m', t.right, t.node, x);
  }

  lemma ReplaceKid(m: Mem, m': Mem, k: Tree, u: Node, x: Node)
    requires Rep(m, k, u) && Sorted(Nodes(k)) && x !in Nodes(k)
    requires forall n :: n in Nodes(k) && n in m.at ==>
      n in m'.at && m'.at[n] == if n == RootOf(k) then m.at[n].(parent := x) else m.at[n]
    ensures Rep(m', k, x)
  {
    RootIn(k);
    Reparent(m, k, u, x);
    RepFrame(SetParentIf(m, RootOf(k), x), m', k, x);
  }

  /** Taking over a place, node by node. */
  lemma ReplaceFields(m: Mem, c: Path, t: Tree, x: Node)
    requires t.Branch? && Linked(m, c, t) && x in m.at && x != t.node
    requires Sorted(All(c, t.(node := x)))
    ensures var u, l, r := t.node, RootOf(t.left), RootOf(t.right);
      && u in m.at && InMemory(m, Parent(c)) && InMemory(m, l) && InMemory(m, r)
      && m.at[u] == Fields(l, r, Parent(c), t.red)
      && var m', m1 := Replaced(m, u, x), m.(at := m.at[x := m.at[u]]);
         && m'.at.Keys == m.at.Keys && m'.root == Rehung(m1, Parent(c), u, x).root
         && m'.at[x] == m.at[u]
         && (l != null ==> m'.at[l] == m.at[l].(parent := x))
         && (r != null ==> m'.at[r] == m.at[r].(parent := x))
         && (forall n :: n in m.at && n != x && n != l && n != r ==> m'.at[n] == Rehung(m1, Parent(c), u, x).at[n])
         && (forall n :: n in m.at && n != x && n != l && n != r && n != Parent(c) ==> m'.at[n] == m.at[n])
  {
    assert Rep(m, t.left, t.node) && Rep(m, t.right, t.node);
    BranchAndAround(c, t);
    BranchAndAround(c, t.(node := x));
    RootIn(t.left);
    RootIn(t.right);
    if c.Step? { AroundStep(c); }
  }

  lemma ReplaceAbove(m: Mem, c: Path, t: Tree, x: Node)
    requires t.Branch? && Linked(m, c, t) && x in m.at && x != t.node
    requires Sorted(All(c, t.(node := x)))
    ensures var u := t.node;
      u in m.at && InMemory(m, m.at[u].parent) && InMemory(m, m.at[u].left) && InMemory(m, m.at[u].right)
    ensures RepAbove(Replaced(m, t.node, x), c, x)
  {
    ReplaceFields(m, c, t, x);
    var m1 := m.(at := m.at[x := m.at[t.node]]);
    BranchAndAround(c, t);
    BranchAndAround(c, t.(node := x));
    RootIn(t.left);
    RootIn(t.right);
    AboveFrame(m, m1, c, t.node);
    Rehang(m1, c, t, t.node, x);
    AboveFrame(Rehung(m1, Parent(c), t.node, x), Replaced(m, t.node, x), c, x);
  }
}
