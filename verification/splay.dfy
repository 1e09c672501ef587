/** The splay trees of tree.h. While a tree is splayed it is in three pieces:
    the rest of the tree, and two spines of nodes that have been put aside on
    either side of the search. Both spines hang on one header node. */
module SplayTrees {
  import opened Sides

  class Node {
    const key: int
    var left: Node?
    var right: Node?

    constructor (key: int)
      ensures this.key == key
    {
      this.key := key;
      left, right := null, null;
    }
  }

  datatype Tree = Leaf | Branch(left: Tree, node: Node, right: Tree)

  /** Nodes put aside on one side, with what hangs on their outer side; the
      inner pointer of the last one is still open. */
  datatype Spine = End | Link(up: Spine, node: Node, outer: Tree)

  function Join(d: Side, a: Tree, n: Node, b: Tree): Tree {
    if d == Left then Branch(a, n, b) else Branch(b, n, a)
  }

  function Kid(t: Tree, d: Side): Tree
    requires t.Branch?
  {
    if d == Left then t.left else t.right
  }

  function RootOf(t: Tree): Node? {
    if t.Leaf? then null else t.node
  }

  function Last(hdr: Node, s: Spine): Node {
    if s.End? then hdr else s.node
  }

  /** The tree that closing the spine of side d over t gives. */
  function Fold(d: Side, s: Spine, t: Tree): Tree {
    if s.End? then t else Fold(d, s.up, Join(d, s.outer, s.node, t))
  }

  // ----- order -----

  function Nodes(t: Tree): seq<Node> {
    if t.Leaf? then [] else Nodes(t.left) + [t.node] + Nodes(t.right)
  }

  function Aside(d: Side, s: Spine): seq<Node> {
    if s.End? then []
    else if d == Left then Aside(d, s.up) + Nodes(s.outer) + [s.node]
    else [s.node] + Nodes(s.outer) + Aside(d, s.up)
  }

  function All(l: Spine, t: Tree, r: Spine): seq<Node> {
    Aside(Left, l) + Nodes(t) + Aside(Right, r)
  }

  predicate Sorted(s: seq<Node>) {
    forall i, j :: 0 <= i < j < |s| ==> s[i].key < s[j].key
  }

  lemma {:induction false} FoldNodes(d: Side, s: Spine, t: Tree)
    ensures Nodes(Fold(d, s, t)) == if d == Left then Aside(d, s) + Nodes(t) else Nodes(t) + Aside(d, s)
  {
    if s.Link? {
      FoldNodes(d, s.up, Join(d, s.outer, s.node, t));
      if d == Left {
        Regroup(Aside(d, s.up), Nodes(s.outer), [s.node], Nodes(t));
      } else {
        Regroup(Nodes(t), [s.node], Nodes(s.outer), Aside(d, s.up));
      }
    }
  }

  lemma Regroup(a: seq<Node>, b: seq<Node>, c: seq<Node>, e: seq<Node>)
    ensures a + (b + c + e) == (a + b + c) + e && (a + b + c) + e == a + (b + c + e)
    ensures a + b + (c + e) == a + b + c + e && a + (b + c) + e == a + (b + c + e)
  {}

  // ----- memory -----

  datatype Links = Links(left: Node?, right: Node?)

  datatype Mem = Mem(root: Node?, at: map<Node, Links>)

  function KidAt(m: Mem, n: Node, d: Side): Node?
    requires n in m.at
  {
    if d == Left then m.at[n].left else m.at[n].right
  }

  function SetKid(m: Mem, n: Node, d: Side, v: Node?): (m': Mem)
    requires n in m.at
    ensures m'.at.Keys == m.at.Keys && m'.root == m.root && KidAt(m', n, d) == v
    ensures forall k, e :: k in m.at && (k != n || e != d) ==> KidAt(m', k, e) == KidAt(m, k, e)
  {
    m.(at := m.at[n := if d == Left then m.at[n].(left := v) else m.at[n].(right := v)])
  }

  ghost predicate Rep(m: Mem, t: Tree) {
    t.Branch? ==>
      && t.node in m.at && KidAt(m, t.node, Left) == RootOf(t.left) && KidAt(m, t.node, Right) == RootOf(t.right)
      && Rep(m, t.left) && Rep(m, t.right)
  }

  /** The spine of side d hangs on the other side of the header. */
  ghost predicate RepSpine(m: Mem, hdr: Node, d: Side, s: Spine) {
    s.Link? ==>
      && s.node in m.at && Last(hdr, s.up) in m.at && KidAt(m, Last(hdr, s.up), Opposite(d)) == s.node
      && KidAt(m, s.node, d) == RootOf(s.outer) && Rep(m, s.outer) && RepSpine(m, hdr, d, s.up)
  }

  /** The three pieces are in memory. */
  ghost predicate Splaying(m: Mem, hdr: Node, l: Spine, t: Tree, r: Spine) {
    && m.root == RootOf(t) && Rep(m, t) && RepSpine(m, hdr, Left, l) && RepSpine(m, hdr, Right, r)
    && Sorted(All(l, t, r)) && hdr in m.at && hdr !in All(l, t, r)
  }

  ghost predicate Keeps(m: Mem, m': Mem, n: Node, d: Side) {
    n in m.at ==> n in m'.at && KidAt(m', n, d) == KidAt(m, n, d)
  }

  lemma {:induction false} RepFrame(m: Mem, m': Mem, t: Tree)
    requires Rep(m, t) && forall n, d :: n in Nodes(t) ==> Keeps(m, m', n, d)
    ensures Rep(m', t)
  {
    if t.Branch? {
      assert t.node in Nodes(t);
      assert Keeps(m, m', t.node, Left) && Keeps(m, m', t.node, Right);
      RepFrame(m, m', t.left);
      RepFrame(m, m', t.right);
    }
  }

  lemma AsideStep(d: Side, s: Spine)
    requires s.Link?
    ensures s.node in Aside(d, s)
    ensures forall n :: n in Nodes(s.outer) || n in Aside(d, s.up) ==> n in Aside(d, s)
    ensures forall n :: n in Aside(d, s) ==> n == s.node || n in Nodes(s.outer) || n in Aside(d, s.up)
  {}

  lemma SortedSplit(a: seq<Node>, b: seq<Node>)
    requires Sorted(a + b)
    ensures Sorted(a) && Sorted(b) && forall x, y :: x in a && y in b ==> x.key < y.key
  {
    forall i, j | 0 <= i < |a| && 0 <= j < |b|
      ensures a[i].key < b[j].key
    {
      assert (a + b)[i].key < (a + b)[|a| + j].key;
    }
    forall i, j | 0 <= i < j < |b|
      ensures b[i].key < b[j].key
    {
      assert (a + b)[|a| + i].key < (a + b)[|a| + j].key;
    }
    forall i, j | 0 <= i < j < |a|
      ensures a[i].key < a[j].key
    {
      assert (a + b)[i].key < (a + b)[j].key;
    }
  }

  /** The last node of a spine is nowhere else in it. */
  lemma AsideApart(d: Side, s: Spine)
    requires s.Link? && Sorted(Aside(d, s))
    ensures Sorted(Aside(d, s.up)) && s.node !in Nodes(s.outer) && s.node !in Aside(d, s.up)
  {
    if d == Left {
      SortedSplit(Aside(d, s.up) + Nodes(s.outer), [s.node]);
      SortedSplit(Aside(d, s.up), Nodes(s.outer));
      assert s.node in [s.node];
      assert forall n :: n in Aside(d, s.up) || n in Nodes(s.outer) ==> n in Aside(d, s.up) + Nodes(s.outer);
    } else {
      SortedSplit([s.node] + Nodes(s.outer), Aside(d, s.up));
      SortedSplit([s.node], Nodes(s.outer));
      assert s.node in [s.node] && s.node in [s.node] + Nodes(s.outer);
    }
  }

  /** A spine survives everything but writes to its nodes other than to the open
      pointer of the last one. */
  lemma {:induction false} SpineFrame(m: Mem, m': Mem, hdr: Node, d: Side, s: Spine)
    requires RepSpine(m, hdr, d, s) && Sorted(Aside(d, s)) && hdr !in Aside(d, s)
    requires forall n, e :: n in Aside(d, s) && (n != Last(hdr, s) || e == d) ==> Keeps(m, m', n, e)
    requires s.Link? ==> Keeps(m, m', hdr, Opposite(d))
    ensures RepSpine(m', hdr, d, s)
  {
    if s.Link? {
      AsideStep(d, s);
      AsideApart(d, s);
      RepFrame(m, m', s.outer);
      var p := Last(hdr, s.up);
      if s.up.Link? { AsideStep(d, s.up); }
      assert Keeps(m, m', p, Opposite(d));
      assert Keeps(m, m', s.node, d);
      SpineFrame(m, m', hdr, d, s.up);
    }
  }

  /** With the open pointer set, the spine is a tree under the header. */
  lemma {:induction false} SpineFold(m: Mem, hdr: Node, d: Side, s: Spine, t: Tree)
    requires RepSpine(m, hdr, d, s) && Rep(m, t) && hdr in m.at
    requires Last(hdr, s) in m.at && KidAt(m, Last(hdr, s), Opposite(d)) == RootOf(t)
    ensures Rep(m, Fold(d, s, t)) && KidAt(m, hdr, Opposite(d)) == RootOf(Fold(d, s, t))
  {
    if s.Link? {
      SpineFold(m, hdr, d, s.up, Join(d, s.outer, s.node, t));
    }
  }

  // ----- the three kinds of step -----

  ghost predicate Apart(s: seq<Node>, t: seq<Node>) {
    forall n :: n in s ==> n !in t
  }

  lemma PiecesApart(l: Spine, t: Tree, r: Spine)
    requires Sorted(All(l, t, r))
    ensures Sorted(Aside(Left, l)) && Sorted(Nodes(t)) && Sorted(Aside(Right, r))
    ensures Apart(Aside(Left, l), Nodes(t)) && Apart(Aside(Left, l), Aside(Right, r))
    ensures Apart(Nodes(t), Aside(Right, r))
  {
    var b, n, a := Aside(Left, l), Nodes(t), Aside(Right, r);
    SortedSplit(b + n, a);
    SortedSplit(b, n);
    assert forall x :: x in b || x in n ==> x in b + n;
  }

  lemma JoinApart(d: Side, a: Tree, x: Node, c: Tree)
    requires Sorted(Nodes(Join(d, a, x, c)))
    ensures Sorted(Nodes(a)) && Sorted(Nodes(c)) && Apart(Nodes(a), Nodes(c)) && x !in Nodes(a) && x !in Nodes(c)
    ensures forall n :: n in Nodes(Join(d, a, x, c)) <==> n == x || n in Nodes(a) || n in Nodes(c)
  {
    var p, q := if d == Left then Nodes(a) else Nodes(c), if d == Left then Nodes(c) else Nodes(a);
    SortedSplit(p + [x], q);
    SortedSplit(p, [x]);
    assert x in [x] && x in p + [x];
    assert forall n :: n in p ==> n in p + [x];
  }

  predicate CanRotate(m: Mem, d: Side) {
    m.root != null && m.root in m.at && KidAt(m, m.root, d) != null && KidAt(m, m.root, d) in m.at
  }

  /** The rotation macros: the root's child on side d becomes the root. */
  function Rotated(m: Mem, d: Side): (m': Mem)
    requires CanRotate(m, d)
    ensures m'.at.Keys == m.at.Keys && m'.root == KidAt(m, m.root, d)
  {
    var y := KidAt(m, m.root, d);
    var m1 := SetKid(m, m.root, d, KidAt(m, y, Opposite(d)));
    SetKid(m1, y, Opposite(d), m.root).(root := y)
  }

  lemma Rotate(m: Mem, hdr: Node, l: Spine, r: Spine, d: Side, a: Tree, y: Node, b: Tree, x: Node, c: Tree)
    requires Splaying(m, hdr, l, Join(d, Join(d, a, y, b), x, c), r)
    ensures CanRotate(m, d)
    ensures Splaying(Rotated(m, d), hdr, l, Join(d, a, y, Join(d, b, x, c)), r)
    ensures All(l, Join(d, a, y, Join(d, b, x, c)), r) == All(l, Join(d, Join(d, a, y, b), x, c), r)
  {
    hide Rep, RepSpine, Rotated, Sorted, Nodes, Aside;
    var t := Join(d, Join(d, a, y, b), x, c);
    RotateRoot(d, a, y, b, x, c);
    RotateFacts(m, d, a, y, b, x, c);
    RotateApart(l, r, d, a, y, b, x, c);
    HeaderApart(hdr, l, t, r);
    RotateBelow(m, d, a, y, b, x, c);
    RotateSpines(m, hdr, l, r, d, x, y);
    RotateOrder(d, a, y, b, x, c);
  }

  lemma RotateFacts(m: Mem, d: Side, a: Tree, y: Node, b: Tree, x: Node, c: Tree)
    requires Rep(m, Join(d, Join(d, a, y, b), x, c)) && m.root == x
    ensures CanRotate(m, d) && KidAt(m, x, d) == y && KidAt(m, x, Opposite(d)) == RootOf(c) && x in m.at && y in m.at
    ensures KidAt(m, y, d) == RootOf(a) && KidAt(m, y, Opposite(d)) == RootOf(b)
    ensures Rep(m, a) && Rep(m, b) && Rep(m, c)
  {
    hide Rep;
    JoinRep(m, d, Join(d, a, y, b), x, c);
    JoinRep(m, d, a, y, b);
  }

  lemma JoinRep(m: Mem, d: Side, a: Tree, n: Node, b: Tree)
    ensures Rep(m, Join(d, a, n, b)) <==>
      n in m.at && KidAt(m, n, d) == RootOf(a) && KidAt(m, n, Opposite(d)) == RootOf(b) && Rep(m, a) && Rep(m, b)
  {}

  lemma RotateApart(l: Spine, r: Spine, d: Side, a: Tree, y: Node, b: Tree, x: Node, c: Tree)
    requires Sorted(All(l, Join(d, Join(d, a, y, b), x, c), r))
    ensures x != y && Sorted(Aside(Left, l)) && Sorted(Aside(Right, r))
    ensures var t := Join(d, Join(d, a, y, b), x, c); x in Nodes(t) && y in Nodes(t)
    ensures forall n :: n in Nodes(a) || n in Nodes(b) || n in Nodes(c) ==> n != x && n != y
    ensures x !in Aside(Left, l) && x !in Aside(Right, r) && y !in Aside(Left, l) && y !in Aside(Right, r)
  {
    hide *;
    PiecesApart(l, Join(d, Join(d, a, y, b), x, c), r);
    JoinApart(d, Join(d, a, y, b), x, c);
    JoinApart(d, a, y, b);
    ApartBoth(Aside(Left, l), Aside(Right, r), Nodes(Join(d, Join(d, a, y, b), x, c)), x, y)
      by { hide *; assert y in Nodes(Join(d, a, y, b)); }
  }

  lemma RotateRoot(d: Side, a: Tree, y: Node, b: Tree, x: Node, c: Tree)
    ensures RootOf(Join(d, Join(d, a, y, b), x, c)) == x && RootOf(Join(d, a, y, Join(d, b, x, c))) == y
  {}

  lemma HeaderApart(hdr: Node, l: Spine, t: Tree, r: Spine)
    requires hdr !in All(l, t, r)
    ensures hdr !in Aside(Left, l) && hdr !in Nodes(t) && hdr !in Aside(Right, r)
  {}

  lemma ApartBoth(l: seq<Node>, r: seq<Node>, t: seq<Node>, x: Node, y: Node)
    requires Apart(l, t) && Apart(t, r) && x in t && y in t
    ensures x !in l && x !in r && y !in l && y !in r
  {}

  lemma RotateBelow(m: Mem, d: Side, a: Tree, y: Node, b: Tree, x: Node, c: Tree)
    requires Rep(m, Join(d, Join(d, a, y, b), x, c)) && m.root == x && x != y && CanRotate(m, d)
    requires forall n :: n in Nodes(a) || n in Nodes(b) || n in Nodes(c) ==> n != x && n != y
    ensures Rep(Rotated(m, d), Join(d, a, y, Join(d, b, x, c)))
  {
    hide Rep;
    RotateFacts(m, d, a, y, b, x, c);
    var m' := Rotated(m, d);
    RepFrame(m, m', a);
    RepFrame(m, m', b);
    RepFrame(m, m', c);
    JoinRep(m', d, b, x, c);
    JoinRep(m', d, a, y, Join(d, b, x, c));
  }

  lemma RotateSpines(m: Mem, hdr: Node, l: Spine, r: Spine, d: Side, x: Node, y: Node)
    requires CanRotate(m, d) && m.root == x && KidAt(m, x, d) == y
    requires RepSpine(m, hdr, Left, l) && RepSpine(m, hdr, Right, r)
    requires Sorted(Aside(Left, l)) && Sorted(Aside(Right, r)) && hdr !in Aside(Left, l) && hdr !in Aside(Right, r)
    requires x !in Aside(Left, l) && x !in Aside(Right, r) && y !in Aside(Left, l) && y !in Aside(Right, r)
    requires hdr != x && hdr != y
    ensures RepSpine(Rotated(m, d), hdr, Left, l) && RepSpine(Rotated(m, d), hdr, Right, r)
  {
    SpineFrame(m, Rotated(m, d), hdr, Left, l);
    SpineFrame(m, Rotated(m, d), hdr, Right, r);
  }

  lemma RotateOrder(d: Side, a: Tree, y: Node, b: Tree, x: Node, c: Tree)
    ensures Nodes(Join(d, a, y, Join(d, b, x, c))) == Nodes(Join(d, Join(d, a, y, b), x, c))
  {
    if d == Left {
      Regroup(Nodes(a), [y], Nodes(b), [x] + Nodes(c));
      assert Nodes(a) + [y] + (Nodes(b) + [x] + Nodes(c)) == (Nodes(a) + [y] + Nodes(b)) + [x] + Nodes(c);
    } else {
      assert (Nodes(c) + [x] + Nodes(b)) + [y] + Nodes(a) == Nodes(c) + [x] + (Nodes(b) + [y] + Nodes(a));
    }
  }

  // ----- putting the root aside -----

  /** The link macros: the root goes to the open pointer of a spine, and the
      child on side d becomes the root. */
  function Linked(m: Mem, last: Node, d: Side): (m': Mem)
    requires last in m.at && m.root != null && m.root in m.at
    ensures m'.at.Keys == m.at.Keys && KidAt(m', last, d) == m.root && m'.root == KidAt(m', m.root, d)
    ensures forall n, e :: n in m.at && (n != last || e != d) ==> Keeps(m, m', n, e)
  {
    var m1 := SetKid(m, last, d, m.root);
    m1.(root := KidAt(m1, m.root, d))
  }

  function LeftAside(d: Side, l: Spine, x: Node, c: Tree): Spine {
    if d == Right then Link(l, x, c) else l
  }

  function RightAside(d: Side, r: Spine, x: Node, c: Tree): Spine {
    if d == Left then Link(r, x, c) else r
  }

  lemma LinkOrder(l: Spine, r: Spine, d: Side, a: Tree, x: Node, c: Tree)
    ensures All(LeftAside(d, l, x, c), a, RightAside(d, r, x, c)) == All(l, Join(d, a, x, c), r)
  {
    if d == Left {
      RegroupRight(Aside(Left, l), Nodes(a), [x], Nodes(c), Aside(Right, r));
    } else {
      RegroupLeft(Aside(Left, l), Nodes(c), [x], Nodes(a), Aside(Right, r));
    }
  }

  lemma RegroupRight(b: seq<Node>, n: seq<Node>, x: seq<Node>, o: seq<Node>, e: seq<Node>)
    ensures b + n + (x + o + e) == b + (n + x + o) + e
  {}

  lemma RegroupLeft(b: seq<Node>, o: seq<Node>, x: seq<Node>, n: seq<Node>, e: seq<Node>)
    ensures (b + o + x) + n + e == b + (o + x + n) + e
  {}

  lemma LinkApart(hdr: Node, l: Spine, r: Spine, d: Side, a: Tree, x: Node, c: Tree)
    requires Sorted(All(l, Join(d, a, x, c), r)) && hdr !in All(l, Join(d, a, x, c), r)
    ensures Sorted(Aside(Left, l)) && Sorted(Aside(Right, r)) && hdr !in Aside(Left, l) && hdr !in Aside(Right, r)
    ensures x !in Nodes(a) && x !in Nodes(c) && x !in Aside(Left, l) && x !in Aside(Right, r) && hdr != x
    ensures hdr !in Nodes(a) && hdr !in Nodes(c)
    ensures Apart(Aside(Left, l), Nodes(a)) && Apart(Aside(Left, l), Nodes(c)) && Apart(Aside(Left, l), Aside(Right, r))
    ensures Apart(Nodes(a), Aside(Right, r)) && Apart(Nodes(c), Aside(Right, r))
  {
    hide *;
    PiecesApart(l, Join(d, a, x, c), r);
    HeaderApart(hdr, l, Join(d, a, x, c), r);
    JoinApart(d, a, x, c);
    LinkPieces(hdr, Aside(Left, l), Aside(Right, r), Nodes(Join(d, a, x, c)), Nodes(a), Nodes(c), x);
  }

  lemma LinkPieces(hdr: Node, l: seq<Node>, r: seq<Node>, t: seq<Node>, a: seq<Node>, c: seq<Node>, x: Node)
    requires forall n :: n in t <==> n == x || n in a || n in c
    requires Apart(l, t) && Apart(l, r) && Apart(t, r) && hdr !in t
    ensures x !in l && x !in r && hdr != x && hdr !in a && hdr !in c
    ensures Apart(l, a) && Apart(l, c) && Apart(a, r) && Apart(c, r)
  {
    assert x in t;
  }

  lemma LastIn(hdr: Node, d: Side, s: Spine)
    ensures Last(hdr, s) == hdr || Last(hdr, s) in Aside(d, s)
  {}

  lemma PutAside(m: Mem, hdr: Node, l: Spine, r: Spine, d: Side, a: Tree, x: Node, c: Tree)
    requires Splaying(m, hdr, l, Join(d, a, x, c), r)
    ensures var last := Last(hdr, if d == Left then r else l);
      && m.root == x && x in m.at && last in m.at
      && Splaying(Linked(m, last, d), hdr, LeftAside(d, l, x, c), a, RightAside(d, r, x, c))
    ensures All(LeftAside(d, l, x, c), a, RightAside(d, r, x, c)) == All(l, Join(d, a, x, c), r)
  {
    hide Sorted, Aside, Nodes, Rep, RepSpine, Linked;
    LinkOrder(l, r, d, a, x, c);
    JoinRoot(d, a, x, c);
    JoinRep(m, d, a, x, c);
    LinkRep(m, hdr, l, r, d, a, x, c);
  }

  lemma JoinRoot(d: Side, a: Tree, x: Node, c: Tree)
    ensures RootOf(Join(d, a, x, c)) == x
  {}

  lemma LinkRep(m: Mem, hdr: Node, l: Spine, r: Spine, d: Side, a: Tree, x: Node, c: Tree)
    requires RepSpine(m, hdr, Left, l) && RepSpine(m, hdr, Right, r) && hdr in m.at && m.root == x && x in m.at
    requires Rep(m, a) && Rep(m, c) && KidAt(m, x, d) == RootOf(a) && KidAt(m, x, Opposite(d)) == RootOf(c)
    requires Sorted(All(l, Join(d, a, x, c), r)) && hdr !in All(l, Join(d, a, x, c), r)
    ensures var last := Last(hdr, if d == Left then r else l);
      && last in m.at
      && var m' := Linked(m, last, d);
         && m'.root == RootOf(a) && Rep(m', a)
         && RepSpine(m', hdr, Left, LeftAside(d, l, x, c)) && RepSpine(m', hdr, Right, RightAside(d, r, x, c))
  {
    LinkApart(hdr, l, r, d, a, x, c);
    LastIn(hdr, Left, l);
    LastIn(hdr, Right, r);
    var last := Last(hdr, if d == Left then r else l);
    var m' := Linked(m, last, d);
    hide Sorted, Aside, Nodes, Linked, Keeps;
    RepFrame(m, m', a);
    RepFrame(m, m', c);
    assert Keeps(m, m', hdr, Opposite(d)) || last == hdr;
    SpineFrame(m, m', hdr, Left, l);
    SpineFrame(m, m', hdr, Right, r);
  }

  // ----- putting the pieces together -----

  /** SPLAY_ASSEMBLE: the header may itself be the last node of either spine. */
  function Assembled(m: Mem, hdr: Node, lastL: Node, lastR: Node): (m': Mem)
    requires m.root != null && m.root in m.at && hdr in m.at && lastL in m.at && lastR in m.at
    ensures m'.at.Keys == m.at.Keys && m'.root == m.root
  {
    var m1 := SetKid(m, lastL, Right, KidAt(m, m.root, Left));
    var m2 := SetKid(m1, lastR, Left, KidAt(m1, m.root, Right));
    var m3 := SetKid(m2, m.root, Left, KidAt(m2, hdr, Right));
    SetKid(m3, m.root, Right, KidAt(m3, hdr, Left))
  }

  function Whole(l: Spine, t: Tree, r: Spine): Tree
    requires t.Branch?
  {
    Branch(Fold(Left, l, t.left), t.node, Fold(Right, r, t.right))
  }

  lemma WholeNodes(l: Spine, t: Tree, r: Spine)
    requires t.Branch?
    ensures Nodes(Whole(l, t, r)) == All(l, t, r)
    ensures Nodes(Whole(l, t, r).left) == Aside(Left, l) + Nodes(t.left)
    ensures Nodes(Whole(l, t, r).right) == Nodes(t.right) + Aside(Right, r)
  {
    FoldNodes(Left, l, t.left);
    FoldNodes(Right, r, t.right);
    RegroupWhole(Aside(Left, l), Nodes(t.left), [t.node], Nodes(t.right), Aside(Right, r));
  }

  lemma RegroupWhole(b: seq<Node>, l: seq<Node>, x: seq<Node>, r: seq<Node>, a: seq<Node>)
    ensures (b + l) + x + (r + a) == b + (l + x + r) + a
  {}

  lemma Assemble(m: Mem, hdr: Node, l: Spine, t: Tree, r: Spine)
    requires Splaying(m, hdr, l, t, r) && t.Branch?
    ensures m.root == t.node && t.node in m.at && Last(hdr, l) in m.at && Last(hdr, r) in m.at && hdr in m.at
    ensures Rep(Assembled(m, hdr, Last(hdr, l), Last(hdr, r)), Whole(l, t, r))
  {
    AssembleApart(hdr, l, t, r);
    LastIn(hdr, Left, l);
    LastIn(hdr, Right, r);
    CloseSpines(m, hdr, l, t, r);
    var x := t.node;
    var m1 := SetKid(m, Last(hdr, l), Right, KidAt(m, x, Left));
    var m2 := SetKid(m1, Last(hdr, r), Left, KidAt(m1, x, Right));
    var m' := Assembled(m, hdr, Last(hdr, l), Last(hdr, r));
    WholeNodes(l, t, r);
    hide Nodes, Aside, Sorted, RepSpine;
    RepFrame(m2, m', Fold(Left, l, t.left));
    RepFrame(m2, m', Fold(Right, r, t.right));
  }

  lemma AssembleApart(hdr: Node, l: Spine, t: Tree, r: Spine)
    requires Sorted(All(l, t, r)) && hdr !in All(l, t, r) && t.Branch?
    ensures Sorted(Aside(Left, l)) && Sorted(Aside(Right, r)) && hdr !in Aside(Left, l) && hdr !in Aside(Right, r)
    ensures t.node !in Nodes(t.left) && t.node !in Nodes(t.right)
    ensures t.node !in Aside(Left, l) && t.node !in Aside(Right, r) && hdr != t.node
    ensures hdr !in Nodes(t.left) && hdr !in Nodes(t.right) && Apart(Aside(Left, l), Aside(Right, r))
    ensures Apart(Aside(Left, l), Nodes(t.left)) && Apart(Aside(Left, l), Nodes(t.right))
    ensures Apart(Nodes(t.left), Aside(Right, r)) && Apart(Nodes(t.right), Aside(Right, r))
  {
    LinkApart(hdr, l, r, Left, t.left, t.node, t.right);
  }

  /** After the first two writes both spines are trees under the header. */
  lemma CloseSpines(m: Mem, hdr: Node, l: Spine, t: Tree, r: Spine)
    requires Splaying(m, hdr, l, t, r) && t.Branch?
    ensures t.node in m.at && Last(hdr, l) in m.at && Last(hdr, r) in m.at
    ensures var m1 := SetKid(m, Last(hdr, l), Right, KidAt(m, t.node, Left));
      var m2 := SetKid(m1, Last(hdr, r), Left, KidAt(m1, t.node, Right));
      && Rep(m2, Fold(Left, l, t.left)) && KidAt(m2, hdr, Right) == RootOf(Fold(Left, l, t.left))
      && Rep(m2, Fold(Right, r, t.right)) && KidAt(m2, hdr, Left) == RootOf(Fold(Right, r, t.right))
  {
    AssembleApart(hdr, l, t, r);
    LastIn(hdr, Left, l);
    LastIn(hdr, Right, r);
    var m1 := SetKid(m, Last(hdr, l), Right, KidAt(m, t.node, Left));
    var m2 := SetKid(m1, Last(hdr, r), Left, KidAt(m1, t.node, Right));
    hide Nodes, Aside, Sorted;
    RepFrame(m, m2, t.left);
    RepFrame(m, m2, t.right);
    SpineFrame(m, m2, hdr, Left, l);
    SpineFrame(m, m2, hdr, Right, r);
    SpineFold(m2, hdr, Left, l, t.left);
    SpineFold(m2, hdr, Right, r, t.right);
  }

  // ----- the search -----

  /** What is looked for: a key, or one of the two ends. */
  datatype Target = Key(key: int) | Lowest | Highest

  function Compare(target: Target, n: Node): int {
    match target
    case Key(k) => k - n.key
    case Lowest => -1
    case Highest => 1
  }

  /** Everything put aside is on the right side of the target. */
  ghost predicate Bounds(target: Target, l: Spine, r: Spine) {
    && (forall n :: n in Aside(Left, l) ==> Compare(target, n) > 0)
    && (forall n :: n in Aside(Right, r) ==> Compare(target, n) < 0)
  }

  lemma BoundsLink(target: Target, l: Spine, r: Spine, d: Side, a: Tree, x: Node, c: Tree)
    requires Bounds(target, l, r) && Sorted(All(l, Join(d, a, x, c), r))
    requires if d == Left then Compare(target, x) < 0 else Compare(target, x) > 0
    ensures Bounds(target, LeftAside(d, l, x, c), RightAside(d, r, x, c))
  {
    PiecesApart(l, Join(d, a, x, c), r);
    if d == Left {
      SortedSplit(Nodes(a) + [x], Nodes(c));
      assert x in Nodes(a) + [x] by { assert x in [x]; }
      assert Aside(Right, Link(r, x, c)) == [x] + Nodes(c) + Aside(Right, r);
    } else {
      assert Nodes(Join(d, a, x, c)) == Nodes(c) + ([x] + Nodes(a));
      SortedSplit(Nodes(c), [x] + Nodes(a));
      assert x in [x] + Nodes(a) by { assert x in [x]; }
      assert Aside(Left, Link(l, x, c)) == Aside(Left, l) + Nodes(c) + [x];
    }
  }

  /** The root is the target, or nothing is left between the two. */
  ghost predicate Closest(target: Target, t: Tree)
    requires t.Branch?
  {
    var c := Compare(target, t.node);
    && (c < 0 ==> forall n :: n in Nodes(t.left) ==> Compare(target, n) > 0)
    && (c > 0 ==> forall n :: n in Nodes(t.right) ==> Compare(target, n) < 0)
  }

  lemma WholeClosest(target: Target, l: Spine, t: Tree, r: Spine)
    requires Bounds(target, l, r) && t.Branch?
    requires Compare(target, t.node) < 0 ==> t.left == Leaf
    requires Compare(target, t.node) > 0 ==> t.right == Leaf
    ensures Closest(target, Whole(l, t, r))
  {
    WholeNodes(l, t, r);
  }

  /** The search goes from n towards side d. */
  predicate Towards(target: Target, n: Node, d: Side) {
    if d == Left then Compare(target, n) < 0 else Compare(target, n) > 0
  }

  lemma RootView(m: Mem, hdr: Node, l: Spine, t: Tree, r: Spine, d: Side)
    requires Splaying(m, hdr, l, t, r) && t.Branch?
    ensures m.root == t.node && t.node in m.at && KidAt(m, t.node, d) == RootOf(Kid(t, d))
    ensures Kid(t, d).Branch? ==> Kid(t, d).node in m.at && KidAt(m, Kid(t, d).node, d) == RootOf(Kid(Kid(t, d), d))
  {
    assert Rep(m, Kid(t, d));
  }

  function NodeSet(s: seq<Node>): set<Node> {
    set n | n in s
  }

  lemma InNodeSet(s: seq<Node>)
    ensures forall n :: n in s <==> n in NodeSet(s)
  {}

  lemma BranchKeys(t: Tree)
    requires t.Branch? && Sorted(Nodes(t))
    ensures Sorted(Nodes(t.left)) && Sorted(Nodes(t.right))
    ensures forall n :: n in Nodes(t.left) ==> n.key < t.node.key
    ensures forall n :: n in Nodes(t.right) ==> t.node.key < n.key
    ensures forall n :: n in Nodes(t) <==> n in Nodes(t.left) || n == t.node || n in Nodes(t.right)
  {
    SortedSplit(Nodes(t.left) + [t.node], Nodes(t.right));
    SortedSplit(Nodes(t.left), [t.node]);
    assert t.node in [t.node] && t.node in Nodes(t.left) + [t.node];
  }

  /** After splaying for a key, the key is at the root or nowhere, and the root
      divides the nodes below it from those above. */
  lemma ClosestKey(key: int, t: Tree)
    requires t.Branch? && Sorted(Nodes(t)) && Closest(Key(key), t)
    ensures t.node in NodeSet(Nodes(t))
    ensures t.node.key != key ==> forall n :: n in NodeSet(Nodes(t)) ==> n.key != key
    ensures key < t.node.key ==> forall n :: n in Nodes(t.left) ==> n.key < key
    ensures key > t.node.key ==> forall n :: n in Nodes(t.right) ==> key < n.key
  {
    BranchKeys(t);
  }

  lemma ClosestEnd(target: Target, t: Tree)
    requires t.Branch? && Sorted(Nodes(t)) && Closest(target, t) && !target.Key?
    ensures t.node in NodeSet(Nodes(t))
    ensures forall n :: n in NodeSet(Nodes(t)) ==> if target == Lowest then t.node.key <= n.key else n.key <= t.node.key
  {
    BranchKeys(t);
  }

  lemma StartOrder(t: Tree)
    ensures All(End, t, End) == Nodes(t)
  {}

  lemma SplayingSorted(m: Mem, hdr: Node, l: Spine, t: Tree, r: Spine)
    requires Splaying(m, hdr, l, t, r) && t.Branch?
    ensures Sorted(All(l, t, r)) && m.root == t.node && RootOf(Whole(l, t, r)) == t.node
  {}

  ghost function LinksOf(s: set<Node>): (at: map<Node, Links>)
    reads s
    ensures at.Keys == s
  {
    map n | n in s :: Links(n.left, n.right)
  }

  class SplayTree {
    var root: Node?
    ghost var nodes: set<Node>
    ghost var shape: Tree

    constructor ()
      ensures Valid() && nodes == {}
    {
      root := null;
      nodes, shape := {}, Leaf;
    }

    /** Memory, as far as the given nodes go. */
    ghost function Snap(s: set<Node>): (m: Mem)
      reads `root, s
      ensures m.root == root && m.at == LinksOf(s)
    {
      Mem(root, LinksOf(s))
    }

    ghost predicate Valid()
      reads this, nodes
    {
      && Rep(Snap(nodes), shape) && root == RootOf(shape) && Sorted(Nodes(shape)) && nodes == NodeSet(Nodes(shape))
    }

    function Child(n: Node, d: Side): Node?
      reads n
    {
      if d == Left then n.left else n.right
    }

    method SetKidOf(n: Node, d: Side, v: Node?, ghost s: set<Node>)
      requires n in s
      modifies n
      ensures Snap(s) == SetKid(old(Snap(s)), n, d, v)
    {
      if d == Left { n.left := v; } else { n.right := v; }
    }

    /** SPLAY_ROTATE_RIGHT for d = Left, and its mirror image. */
    method RotateTo(d: Side, ghost s: set<Node>)
      requires CanRotate(Snap(s), d)
      modifies this`root, s
      ensures Snap(s) == Rotated(old(Snap(s)), d)
    {
      var tmp := Child(root, d);
      SetKidOf(root, d, Child(tmp, Opposite(d)), s);
      SetKidOf(tmp, Opposite(d), root, s);
      root := tmp;
    }

    /** SPLAY_LINKLEFT for d = Left, and its mirror image. */
    method LinkTo(last: Node, d: Side, ghost s: set<Node>) returns (last': Node)
      requires last in s && root != null && root in s
      modifies this`root, s
      ensures Snap(s) == Linked(old(Snap(s)), last, d) && last' == old(root)
    {
      SetKidOf(last, d, root, s);
      last' := root;
      root := Child(root, d);
    }

    method Assembly(hdr: Node, left: Node, right: Node, ghost s: set<Node>)
      requires hdr in s && left in s && right in s && root != null && root in s
      modifies s
      ensures Snap(s) == Assembled(old(Snap(s)), hdr, left, right)
    {
      SetKidOf(left, Right, root.left, s);
      SetKidOf(right, Left, root.right, s);
      SetKidOf(root, Left, hdr.right, s);
      SetKidOf(root, Right, hdr.left, s);
    }

    /** One round of the search towards side d; stops where that side is empty. */
    method Round(d: Side, target: Target, left0: Node, right0: Node, ghost hdr: Node, ghost l0: Spine,
                 ghost t0: Tree, ghost r0: Spine, ghost s: set<Node>)
      returns (left: Node, right: Node, stop: bool, ghost l: Spine, ghost t: Tree, ghost r: Spine)
      requires Splaying(Snap(s), hdr, l0, t0, r0) && t0.Branch? && Bounds(target, l0, r0)
      requires left0 == Last(hdr, l0) && right0 == Last(hdr, r0) && Towards(target, t0.node, d)
      modifies this`root, s
      ensures Splaying(Snap(s), hdr, l, t, r) && t.Branch? && Bounds(target, l, r)
      ensures left == Last(hdr, l) && right == Last(hdr, r) && All(l, t, r) == All(l0, t0, r0)
      ensures if stop then Towards(target, t.node, d) && Kid(t, d) == Leaf else t < t0
    {
      hide Splaying, Bounds, All, Snap, Towards, Join;
      left, right, l, r := left0, right0, l0, r0;
      stop, t := RotateIfNeeded(d, target, hdr, l0, t0, r0, s);
      if !stop {
        left, right, l, r := PutRootAside(d, target, left, right, hdr, l0, t, r0, s);
        t := Kid(t, d);
      }
    }

    /** The rotation, when the target lies on the same side of the child. */
    method RotateIfNeeded(d: Side, target: Target, ghost hdr: Node, ghost l: Spine, ghost t0: Tree, ghost r: Spine,
                          ghost s: set<Node>)
      returns (stop: bool, ghost t: Tree)
      requires Splaying(Snap(s), hdr, l, t0, r) && t0.Branch? && Towards(target, t0.node, d)
      modifies this`root, s
      ensures Splaying(Snap(s), hdr, l, t, r) && t.Branch? && All(l, t, r) == All(l, t0, r)
      ensures Towards(target, t.node, d) && (stop <==> Kid(t, d) == Leaf) && (!stop ==> Kid(t, d) < t0)
    {
      hide Splaying, All, Towards, Rotated, CanRotate;
      t := t0;
      RootView(Snap(s), hdr, l, t, r, d);
      var tmp := Child(root, d);
      if tmp == null {
        return true, t;
      }
      if Towards(target, tmp, d) {
        ghost var o := Opposite(d);
        ghost var y, x := Kid(t, d), t.node;
        Rotate(Snap(s), hdr, l, r, d, Kid(y, d), y.node, Kid(y, o), x, Kid(t, o));
        RotateTo(d, s);
        t := Join(d, Kid(y, d), y.node, Join(d, Kid(y, o), x, Kid(t, o)));
        RootView(Snap(s), hdr, l, t, r, d);
        if Child(root, d) == null {
          return true, t;
        }
      }
      return false, t;
    }

    /** The link. */
    method PutRootAside(d: Side, target: Target, left0: Node, right0: Node, ghost hdr: Node, ghost l0: Spine,
                        ghost t: Tree, ghost r0: Spine, ghost s: set<Node>)
      returns (left: Node, right: Node, ghost l: Spine, ghost r: Spine)
      requires Splaying(Snap(s), hdr, l0, t, r0) && t.Branch? && Kid(t, d).Branch? && Bounds(target, l0, r0)
      requires left0 == Last(hdr, l0) && right0 == Last(hdr, r0) && Towards(target, t.node, d)
      modifies this`root, s
      ensures Splaying(Snap(s), hdr, l, Kid(t, d), r) && Bounds(target, l, r) && All(l, Kid(t, d), r) == All(l0, t, r0)
      ensures left == Last(hdr, l) && right == Last(hdr, r)
    {
      ghost var a, x, c := Kid(t, d), t.node, Kid(t, Opposite(d));
      PutAside(Snap(s), hdr, l0, r0, d, a, x, c);
      BoundsLink(target, l0, r0, d, a, x, c);
      hide Splaying, Bounds, All, Linked, Snap;
      left, right := left0, right0;
      if d == Left {
        right := LinkTo(right, d, s);
      } else {
        left := LinkTo(left, d, s);
      }
      l, r := LeftAside(d, l0, x, c), RightAside(d, r0, x, c);
    }

    /** SPLAY, and SPLAY_MINMAX for the two ends: the closest node becomes the
        root, and the order of the nodes stays. */
    method Splay(target: Target)
      requires Valid() && root != null
      modifies this`root, this`shape, nodes
      ensures Valid() && root != null && Nodes(shape) == Nodes(old(shape)) && Closest(target, shape)
    {
      hide Splaying, All, Snap, Nodes, Bounds, Valid, NodeSet, Closest;
      var hdr := new Node(0);
      var left, right := hdr, hdr;
      ghost var s := nodes + {hdr};
      ghost var l, t, r := End, shape, End;
      Begin(target, hdr, s);
      var comp := Compare(target, root);
      while comp != 0
        invariant Splaying(Snap(s), hdr, l, t, r) && t.Branch? && Bounds(target, l, r)
        invariant left == Last(hdr, l) && right == Last(hdr, r) && All(l, t, r) == Nodes(old(shape))
        invariant comp == Compare(target, t.node)
        modifies this`root, nodes, hdr
        decreases t
      {
        var stop;
        left, right, stop, l, t, r := Round(if comp < 0 then Left else Right, target, left, right, hdr, l, t, r, s);
        if stop {
          break;
        }
        RootView(Snap(s), hdr, l, t, r, Left);
        comp := Compare(target, root);
      }
      Finish(target, hdr, left, right, l, t, r, s);
    }

    /** The assembly, at the end of the search. */
    method Finish(ghost target: Target, hdr: Node, left: Node, right: Node, ghost l: Spine, ghost t: Tree,
                  ghost r: Spine, ghost s: set<Node>)
      requires Splaying(Snap(s), hdr, l, t, r) && t.Branch? && Bounds(target, l, r)
      requires s == nodes + {hdr} && hdr !in nodes
      requires left == Last(hdr, l) && right == Last(hdr, r) && NodeSet(All(l, t, r)) == nodes
      requires Compare(target, t.node) < 0 ==> t.left == Leaf
      requires Compare(target, t.node) > 0 ==> t.right == Leaf
      modifies this`shape, s
      ensures Valid() && root != null && Nodes(shape) == All(l, t, r) && Closest(target, shape)
    {
      hide All, Nodes, Bounds, Fold, Assembled, Splaying, Whole, Closest, Rep, Snap, NodeSet, Sorted;
      WholeClosest(target, l, t, r);
      WholeNodes(l, t, r);
      SplayingSorted(Snap(s), hdr, l, t, r);
      Close(hdr, left, right, l, t, r, s);
      shape := Whole(l, t, r);
      Without(hdr, s);
    }

    method Close(hdr: Node, left: Node, right: Node, ghost l: Spine, ghost t: Tree, ghost r: Spine, ghost s: set<Node>)
      requires Splaying(Snap(s), hdr, l, t, r) && t.Branch? && left == Last(hdr, l) && right == Last(hdr, r)
      modifies s
      ensures Rep(Snap(s), Whole(l, t, r)) && root == old(root)
    {
      hide All, Nodes, Fold, Assembled, Splaying, Whole, Rep, Snap;
      Assemble(Snap(s), hdr, l, t, r);
      Assembly(hdr, left, right, s);
    }

    lemma Without(hdr: Node, s: set<Node>)
      requires s == nodes + {hdr} && hdr !in nodes && nodes == NodeSet(Nodes(shape)) && Rep(Snap(s), shape)
      ensures Rep(Snap(nodes), shape)
    {
      RepFrame(Snap(s), Snap(nodes), shape);
    }

    lemma Begin(target: Target, hdr: Node, s: set<Node>)
      requires Valid() && s == nodes + {hdr} && hdr !in nodes && root != null
      ensures Splaying(Snap(s), hdr, End, shape, End) && All(End, shape, End) == Nodes(shape)
      ensures Bounds(target, End, End) && shape.Branch? && root == shape.node && nodes == NodeSet(Nodes(shape))
    {
      RepFrame(Snap(nodes), Snap(s), shape);
      hide Nodes, Rep;
      StartOrder(shape);
      assert hdr !in Nodes(shape) by { assert hdr !in NodeSet(Nodes(shape)); }
    }

    // ----- the operations -----

    /** SPLAY_FIND. */
    method Find(key: int) returns (found: Node?)
      requires Valid()
      modifies this`root, this`shape, nodes
      ensures Valid() && Nodes(shape) == Nodes(old(shape))
      ensures found != null ==> found in nodes && found.key == key
      ensures found == null ==> forall n :: n in nodes ==> n.key != key
    {
      hide Rep, Snap, Closest, Sorted;
      if root == null {
        return null;
      }
      Splay(Key(key));
      ClosestKey(key, shape);
      if root.key == key {
        return root;
      }
      return null;
    }

    /** SPLAY_MIN_MAX: the first or the last node, now at the root. */
    method MinMax(target: Target) returns (r: Node?)
      requires Valid() && !target.Key?
      modifies this`root, this`shape, nodes
      ensures Valid() && Nodes(shape) == Nodes(old(shape)) && (r == null <==> nodes == {})
      ensures r != null ==> r in nodes
      ensures r != null ==> forall n :: n in nodes ==> if target == Lowest then r.key <= n.key else n.key <= r.key
    {
      hide Rep, Snap, Closest, Sorted;
      if root != null {
        Splay(target);
        ClosestEnd(target, shape);
      }
      return root;
    }

    /** SPLAY_INSERT: a node with the same key is returned and none is added. */
    method Insert(elm: Node) returns (found: Node?)
      requires Valid()
      modifies this, nodes, elm
      ensures Valid()
      ensures found != null ==> found in nodes && found.key == elm.key && nodes == old(nodes)
      ensures found == null ==> nodes == old(nodes) + {elm} && forall n :: n in old(nodes) ==> n.key != elm.key
    {
      hide Rep, Snap, Closest, Sorted;
      if root == null {
        AddFirst(elm);
        return null;
      }
      Splay(Key(elm.key));
      ClosestKey(elm.key, shape);
      if root.key == elm.key {
        return root;
      }
      AddAtRoot(elm);
      return null;
    }

    /** SPLAY_REMOVE: of the nodes of the tree, only one with elm's key goes. */
    method Remove(elm: Node) returns (removed: Node?)
      requires Valid()
      modifies this, nodes
      ensures Valid() && nodes == old(set n | n in nodes && n.key != elm.key)
      ensures removed == if exists n :: n in old(nodes) && n.key == elm.key then elm else null
    {
      hide Rep, Snap, Closest, Sorted;
      if root == null {
        return null;
      }
      Splay(Key(elm.key));
      ClosestKey(elm.key, shape);
      if root.key == elm.key {
        OneKey(shape);
        DropRoot(elm.key);
        return elm;
      }
      return null;
    }

    /** The root goes; the highest node below it takes its place. */
    method DropRoot(key: int)
      requires Valid() && root != null && root.key == key
      modifies this, nodes
      ensures Valid() && nodes == old(nodes) - {old(root)}
    {
      hide Rep, Snap, Closest, Sorted, Nodes, NodeSet;
      ghost var t := shape;
      SplitRoot(t);
      Subtrees();
      if root.left == null {
        TakeChild(Right);
        LeafNodes();
      } else {
        var tmp := root.right;
        ghost var s := NodeSet(Nodes(t.right));
        ghost var m := Snap(s);
        TakeChild(Left);
        Splay(Key(key));
        HighestRoot(key, shape);
        SameRep(m, Snap(s), t.right);
        RootIn(shape);
        InNodeSet(Nodes(shape));
        Attach(tmp, t.right);
      }
    }

    method AddFirst(elm: Node)
      requires Valid() && root == null
      modifies this, elm
      ensures Valid() && nodes == {elm} && old(nodes) == {}
    {
      elm.left, elm.right := null, null;
      root := elm;
      shape, nodes := Branch(Leaf, elm, Leaf), {elm};
      assert Nodes(shape) == [elm];
    }

    /** The new node becomes the root, between the splayed root and its child. */
    method AddAtRoot(elm: Node)
      requires Valid() && root != null && elm !in nodes && root.key != elm.key
      requires elm.key < root.key ==> forall n :: n in Nodes(shape.left) ==> n.key < elm.key
      requires elm.key > root.key ==> forall n :: n in Nodes(shape.right) ==> elm.key < n.key
      modifies this, nodes, elm
      ensures Valid() && nodes == old(nodes) + {elm}
    {
      hide Nodes, Sorted, Rep, Snap, NodeSet, PlacedAtRoot, WithRoot, Keeps;
      ghost var m, m0, t := Snap(nodes), Snap(nodes + {elm}), shape;
      var d := if elm.key < root.key then Left else Right;
      InNodeSet(Nodes(t));
      MoreNodes(elm);
      AddedOrder(t, elm, d);
      AddedRep(m, m0, t, elm, d);
      nodes := nodes + {elm};
      PutAtRoot(elm, d);
      shape := WithRoot(t, elm, d);
    }

    method PutAtRoot(elm: Node, d: Side)
      requires elm in nodes && root != null && root in nodes
      modifies this`root, nodes
      ensures root == elm
      ensures Snap(nodes) == PlacedAtRoot(old(Snap(nodes)), elm, d)
    {
      hide Snap;
      ReadKid(root, d, nodes);
      SetKidOf(elm, d, Child(root, d), nodes);
      SetKidOf(elm, Opposite(d), root, nodes);
      SetKidOf(root, d, null, nodes);
      SetRoot(elm);
    }

    lemma Subtrees()
      requires Valid() && root != null
      ensures shape.Branch? && root == shape.node
      ensures root.left == RootOf(shape.left) && root.right == RootOf(shape.right)
      ensures Rep(Snap(NodeSet(Nodes(shape.left))), shape.left) && Rep(Snap(NodeSet(Nodes(shape.right))), shape.right)
    {
      JoinRep(Snap(nodes), Left, shape.left, shape.node, shape.right);
      RepFrame(Snap(nodes), Snap(NodeSet(Nodes(shape.left))), shape.left);
      RepFrame(Snap(nodes), Snap(NodeSet(Nodes(shape.right))), shape.right);
    }


    method TakeChild(d: Side)
      requires Valid() && root != null
      modifies this
      ensures Valid() && shape == Kid(old(shape), d) && nodes == NodeSet(Nodes(shape))
    {
      hide Nodes, Sorted, Rep, NodeSet, Snap;
      Subtrees();
      BranchKeys(shape);
      ghost var m := Snap(NodeSet(Nodes(Kid(shape, d))));
      root := Child(root, d);
      shape := Kid(shape, d);
      nodes := NodeSet(Nodes(shape));
      SameRep(m, Snap(nodes), shape);
    }

    method Attach(tmp: Node?, ghost rest: Tree)
      requires Valid() && root != null && shape.right == Leaf && tmp == RootOf(rest)
      requires Sorted(Nodes(shape) + Nodes(rest)) && Rep(Snap(NodeSet(Nodes(rest))), rest)
      modifies this`shape, this`nodes, root
      ensures Valid() && nodes == old(nodes) + NodeSet(Nodes(rest))
    {
      hide Nodes, Sorted, Rep, NodeSet, Snap;
      ghost var t := shape;
      ghost var s := nodes + NodeSet(Nodes(rest));
      AttachRep(rest, s);
      AttachedOrder(t, rest);
      InNodeSet(Nodes(t));
      nodes := s;
      SetKidOf(root, Right, tmp, nodes);
      shape := Branch(t.left, t.node, rest);
    }

    lemma AttachRep(rest: Tree, s: set<Node>)
      requires Valid() && root != null && shape.right == Leaf && s == nodes + NodeSet(Nodes(rest))
      requires Sorted(Nodes(shape) + Nodes(rest)) && Rep(Snap(NodeSet(Nodes(rest))), rest)
      ensures root in s && Rep(SetKid(Snap(s), root, Right, RootOf(rest)), Branch(shape.left, shape.node, rest))
    {
      hide Nodes, Sorted, Rep, NodeSet;
      InNodeSet(Nodes(shape));
      InNodeSet(Nodes(rest));
      RootIn(shape);
      AttachMem(Snap(nodes), Snap(NodeSet(Nodes(rest))), Snap(s), shape, rest);
    }

    lemma ReadKid(n: Node, d: Side, s: set<Node>)
      requires n in s
      ensures KidAt(Snap(s), n, d) == Child(n, d)
    {}

    lemma MoreNodes(elm: Node)
      ensures forall n, e :: n in Snap(nodes).at ==> Keeps(Snap(nodes), Snap(nodes + {elm}), n, e)
    {}

    method SetRoot(v: Node?)
      modifies this`root
      ensures root == v && Snap(nodes) == old(Snap(nodes)).(root := v)
    {
      root := v;
    }
  }

  /** elm above the old root, whose child on side d it takes. */
  function WithRoot(t: Tree, elm: Node, d: Side): Tree
    requires t.Branch?
  {
    Join(d, Kid(t, d), elm, Join(d, Leaf, t.node, Kid(t, Opposite(d))))
  }

  function PlacedAtRoot(m: Mem, elm: Node, d: Side): Mem
    requires m.root != null && m.root in m.at && elm in m.at
  {
    var m1 := SetKid(SetKid(m, elm, d, KidAt(m, m.root, d)), elm, Opposite(d), m.root);
    SetKid(m1, m.root, d, null).(root := elm)
  }

  lemma AddedRep(m: Mem, m0: Mem, t: Tree, elm: Node, d: Side)
    requires Rep(m, t) && t.Branch? && m.root == t.node && Sorted(Nodes(t)) && elm !in m.at && elm !in Nodes(t)
    requires m0.root == m.root && elm in m0.at && forall n, e :: n in m.at ==> Keeps(m, m0, n, e)
    ensures t.node in m0.at && Rep(PlacedAtRoot(m0, elm, d), WithRoot(t, elm, d))
  {
    BranchKeys(t);
    assert KidAt(m, t.node, Left) == RootOf(t.left) && KidAt(m, t.node, Right) == RootOf(t.right);
    assert Keeps(m, m0, t.node, Left) && Keeps(m, m0, t.node, Right);
    RepIn(m, t.left);
    RepIn(m, t.right);
    var m' := PlacedAtRoot(m0, elm, d);
    forall n, e | n in m.at && n != t.node
      ensures Keeps(m, m', n, e)
    {
      assert Keeps(m, m0, n, e);
    }
    RepFrame(m, m', t.left);
    RepFrame(m, m', t.right);
    hide Nodes, Sorted, Rep;
    assert Rep(m', Leaf) by { LeafRep(m'); }
    JoinRep(m', d, Leaf, t.node, Kid(t, Opposite(d)));
    JoinRep(m', d, Kid(t, d), elm, Join(d, Leaf, t.node, Kid(t, Opposite(d))));
  }

  lemma SameRep(m: Mem, m': Mem, t: Tree)
    requires Rep(m, t) && m.at == m'.at
    ensures Rep(m', t)
  {
    RepFrame(m, m', t);
  }

  lemma LeafNodes()
    ensures Nodes(Leaf) == [] && NodeSet([]) == {}
  {}

  lemma OneKey(t: Tree)
    requires t.Branch? && Sorted(Nodes(t))
    ensures forall n :: n in NodeSet(Nodes(t)) ==> (n.key == t.node.key <==> n == t.node)
  {
    BranchKeys(t);
  }

  /** What removing the root leaves. */
  lemma SplitRoot(t: Tree)
    requires t.Branch? && Sorted(Nodes(t))
    ensures var l, r := Nodes(t.left), Nodes(t.right);
      && NodeSet(Nodes(t)) - {t.node} == NodeSet(l) + NodeSet(r) && NodeSet(l) !! NodeSet(r) && Sorted(l + r)
      && forall n :: n in l ==> n.key < t.node.key
  {
    BranchKeys(t);
    SortedJoin(Nodes(t.left), Nodes(t.right), t.node.key);
  }

  lemma SortedJoin(l: seq<Node>, r: seq<Node>, key: int)
    requires Sorted(l) && Sorted(r) && (forall n :: n in l ==> n.key < key) && forall n :: n in r ==> key < n.key
    ensures Sorted(l + r)
  {
    var s := l + r;
    forall i, j | 0 <= i < j < |s|
      ensures s[i].key < s[j].key
    {
      if i < |l| { assert s[i] == l[i] && s[i] in l; } else { assert s[i] == r[i - |l|]; }
      if j < |l| { assert s[j] == l[j]; } else { assert s[j] == r[j - |l|] && s[j] in r; }
    }
  }

  lemma AttachedOrder(t: Tree, rest: Tree)
    requires t.Branch? && t.right == Leaf
    ensures var t' := Branch(t.left, t.node, rest);
      Nodes(t') == Nodes(t) + Nodes(rest) && NodeSet(Nodes(t')) == NodeSet(Nodes(t)) + NodeSet(Nodes(rest))
  {
    assert Nodes(t) == Nodes(t.left) + [t.node] by { LeafNodes(); }
  }

  /** Splaying for a key above all others leaves nothing on the right. */
  lemma HighestRoot(key: int, t: Tree)
    requires t.Branch? && Closest(Key(key), t) && forall n :: n in Nodes(t) ==> n.key < key
    ensures t.right == Leaf
  {
    RootIn(t);
    RootIn(t.right);
  }

  lemma RootIn(t: Tree)
    ensures t.Branch? ==> t.node in Nodes(t)
  {}

  lemma AttachMem(m: Mem, mr: Mem, m0: Mem, t: Tree, rest: Tree)
    requires Rep(m, t) && Rep(mr, rest) && t.Branch? && t.node in m0.at && Sorted(Nodes(t) + Nodes(rest))
    requires forall n, e :: n in Nodes(t) ==> Keeps(m, m0, n, e)
    requires forall n, e :: n in Nodes(rest) ==> Keeps(mr, m0, n, e)
    ensures Rep(SetKid(m0, t.node, Right, RootOf(rest)), Branch(t.left, t.node, rest))
  {
    hide Rep, Nodes, Sorted;
    AttachApart(t, rest);
    JoinRep(m, Left, t.left, t.node, t.right);
    var m' := SetKid(m0, t.node, Right, RootOf(rest));
    assert Keeps(m, m0, t.node, Left);
    forall n, e | n in Nodes(t.left)
      ensures Keeps(m, m', n, e)
    {
      assert Keeps(m, m0, n, e);
    }
    forall n, e | n in Nodes(rest)
      ensures Keeps(mr, m', n, e)
    {
      assert Keeps(mr, m0, n, e);
    }
    RepFrame(m, m', t.left);
    RepFrame(mr, m', rest);
    JoinRep(m', Left, t.left, t.node, rest);
  }

  lemma AttachApart(t: Tree, rest: Tree)
    requires t.Branch? && Sorted(Nodes(t) + Nodes(rest))
    ensures t.node in Nodes(t) && t.node !in Nodes(t.left) && t.node !in Nodes(rest)
    ensures forall n :: n in Nodes(t.left) ==> n in Nodes(t)
  {
    SortedSplit(Nodes(t), Nodes(rest));
    BranchKeys(t);
  }

  lemma LeafRep(m: Mem)
    ensures Rep(m, Leaf)
  {}

  lemma {:induction false} RepIn(m: Mem, t: Tree)
    requires Rep(m, t)
    ensures forall n :: n in Nodes(t) ==> n in m.at
  {
    if t.Branch? {
      RepIn(m, t.left);
      RepIn(m, t.right);
    }
  }

  /** Where a node is added at the root. */
  lemma AddedOrder(t: Tree, elm: Node, d: Side)
    requires t.Branch? && Sorted(Nodes(t)) && t.node.key != elm.key && (d == Left <==> elm.key < t.node.key)
    requires elm.key < t.node.key ==> forall n :: n in Nodes(t.left) ==> n.key < elm.key
    requires elm.key > t.node.key ==> forall n :: n in Nodes(t.right) ==> elm.key < n.key
    ensures Sorted(Nodes(WithRoot(t, elm, d))) && NodeSet(Nodes(WithRoot(t, elm, d))) == NodeSet(Nodes(t)) + {elm}
    ensures RootOf(WithRoot(t, elm, d)) == elm
  {
    hide Nodes, Sorted, NodeSet;
    BranchKeys(t);
    WithRootNodes(t, elm, d);
    var l, x, r := Nodes(t.left), t.node, Nodes(t.right);
    BranchNodes(t);
    if d == Left {
      assert l + [x] + r == l + ([x] + r);
      Added(l, elm, [x] + r, l + [x] + r);
    } else {
      Added(l + [x], elm, r, l + [x] + r);
    }
  }

  lemma BranchNodes(t: Tree)
    requires t.Branch?
    ensures Nodes(t) == Nodes(t.left) + [t.node] + Nodes(t.right)
  {}

  lemma WithRootNodes(t: Tree, elm: Node, d: Side)
    requires t.Branch?
    ensures var l, x, r := Nodes(t.left), t.node, Nodes(t.right);
      Nodes(WithRoot(t, elm, d)) == if d == Left then l + [elm] + ([x] + r) else (l + [x]) + [elm] + r
  {
    var inner := Join(d, Leaf, t.node, Kid(t, Opposite(d)));
    assert Nodes(inner) == if d == Left then [t.node] + Nodes(t.right) else Nodes(t.left) + [t.node];
  }

  lemma Added(a: seq<Node>, x: Node, b: seq<Node>, all: seq<Node>)
    requires Sorted(all) && all == a + b
    requires (forall n :: n in a ==> n.key < x.key) && (forall n :: n in b ==> x.key < n.key)
    ensures Sorted(a + [x] + b) && NodeSet(a + [x] + b) == NodeSet(all) + {x}
  {
    var s := a + [x] + b;
    forall i, j | 0 <= i < j < |s|
      ensures s[i].key < s[j].key
    {
      if i < |a| { assert s[i] in a && s[i] == all[i]; }
      if j > |a| { assert s[j] in b && s[j] == all[j - 1]; }
      if i > |a| { assert s[i] == all[i - 1]; }
      if j < |a| { assert s[j] == all[j]; }
    }
  }
}
