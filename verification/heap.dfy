/** The linked binary min-heap of heap-inl.h. The nodes in level order form a
    sequence; the node at position p, counted from 1, has its children at the
    positions 2p and 2p + 1. */
module Heaps {

  class HeapNode {
    /** Nodes are compared by rank; every strict weak order is of this kind. */
    const rank: int
    var left: HeapNode?
    var right: HeapNode?
    var parent: HeapNode?

    constructor (rank: int)
    {
      this.rank := rank;
      left, right, parent := null, null, null;
    }
  }

  datatype Links = Links(left: HeapNode?, right: HeapNode?, parent: HeapNode?)

  datatype Mem = Mem(min: HeapNode?, at: map<HeapNode, Links>)

  /** The node at position p, null if there is none. */
  function At(s: seq<HeapNode>, p: nat): HeapNode? {
    if 1 <= p <= |s| then s[p - 1] else null
  }

  ghost predicate Distinct(s: seq<HeapNode>) {
    forall i, j :: 0 <= i < j < |s| ==> s[i] != s[j]
  }

  ghost predicate Placed(m: Mem, s: seq<HeapNode>, p: nat) {
    1 <= p <= |s| ==>
      s[p - 1] in m.at && m.at[s[p - 1]] == Links(At(s, 2 * p), At(s, 2 * p + 1), At(s, p / 2))
  }

  /** Memory holds the complete tree whose level order is s. */
  ghost predicate Rep(m: Mem, s: seq<HeapNode>) {
    Distinct(s) && m.min == At(s, 1) && forall p: nat :: Placed(m, s, p)
  }

  // ----- order -----

  predicate Less(a: HeapNode, b: HeapNode) {
    a.rank < b.rank
  }

  /** The node at position q is not less than its parent. */
  ghost predicate InOrder(s: seq<HeapNode>, q: nat) {
    2 <= q <= |s| ==> !Less(s[q - 1], s[q / 2 - 1])
  }

  ghost predicate Ordered(s: seq<HeapNode>) {
    forall q: nat :: InOrder(s, q)
  }

  /** No node is less than the one at the top. */
  lemma {:induction false} TopIsLeast(s: seq<HeapNode>, q: nat)
    requires Ordered(s) && 1 <= q <= |s|
    ensures !Less(s[q - 1], s[0])
  {
    if q > 1 {
      assert InOrder(s, q);
      TopIsLeast(s, q / 2);
    }
  }

  // ----- exchanging a node with its child -----

  function SetParent(m: Mem, n: HeapNode?, v: HeapNode?): (m': Mem)
    requires n != null ==> n in m.at
    ensures m'.at.Keys == m.at.Keys
  {
    if n == null then m else m.(at := m.at[n := m.at[n].(parent := v)])
  }

  predicate InMemory(m: Mem, n: HeapNode?) {
    n != null ==> n in m.at
  }

  predicate CanSwap(m: Mem, parent: HeapNode, child: HeapNode) {
    && parent in m.at && child in m.at && parent != child
    && (child == m.at[parent].left || child == m.at[parent].right)
    && InMemory(m, m.at[parent].left) && InMemory(m, m.at[parent].right) && InMemory(m, m.at[parent].parent)
    && InMemory(m, m.at[child].left) && InMemory(m, m.at[child].right)
    && m.at[parent].left != m.at[parent].right && child != m.at[child].left && child != m.at[child].right
  }

  /** u is hung where v was, under z or at the top. */
  function Hung(m: Mem, z: HeapNode?, v: HeapNode, u: HeapNode?): (m': Mem)
    requires InMemory(m, z)
    ensures m'.at.Keys == m.at.Keys
  {
    if z == null then m.(min := u)
    else if m.at[z].left == v then m.(at := m.at[z := m.at[z].(left := u)])
    else m.(at := m.at[z := m.at[z].(right := u)])
  }

  function Swapped(m: Mem, parent: HeapNode, child: HeapNode): Mem
    requires CanSwap(m, parent, child)
  {
    var t := m.at[parent];
    var m1 := SetParent(Exchanged(m, parent, child), if t.left == child then t.right else t.left, child);
    var m2 := SetParent(m1, m.at[child].left, parent);
    var m3 := SetParent(m2, m.at[child].right, parent);
    Hung(m3, t.parent, parent, child)
  }

  function Exchanged(m: Mem, parent: HeapNode, child: HeapNode): (m': Mem)
    requires parent in m.at && child in m.at
    ensures m'.at.Keys == m.at.Keys
  {
    var t := m.at[parent];
    m.(at := m.at[parent := m.at[child].(parent := child)]
                 [child := if t.left == child then t.(left := parent) else t.(right := parent)])
  }

  function SwapAt(s: seq<HeapNode>, p: nat, c: nat): (r: seq<HeapNode>)
    requires 1 <= p <= |s| && 1 <= c <= |s|
    ensures |r| == |s|
  {
    s[p - 1 := s[c - 1]][c - 1 := s[p - 1]]
  }

  /** The effect of the swap, node by node. */
  lemma SwappedFields(m: Mem, a: HeapNode, b: HeapNode, l: HeapNode?, r: HeapNode?,
                      x: HeapNode?, y: HeapNode?, z: HeapNode?)
    requires CanSwap(m, a, b)
    requires m.at[a] == Links(l, r, z) && m.at[b] == Links(x, y, a) && (b == l || b == r) && (l != r)
    requires (x == null || (x != a && x != b && x != l && x != r && x != z && x != y))
    requires (y == null || (y != a && y != b && y != l && y != r && y != z))
    requires l != a && r != a && z != a && z != b && (z != null ==> z != l && z != r)
    ensures var m' := Swapped(m, a, b);
      && m'.at.Keys == m.at.Keys && m'.min == (if z == null then b else m.min)
      && m'.at[b] == (if b == l then Links(a, r, z) else Links(l, a, z))
      && m'.at[a] == Links(x, y, b)
      && (x != null ==> m'.at[x] == m.at[x].(parent := a))
      && (y != null ==> m'.at[y] == m.at[y].(parent := a))
      && (b == l && r != null ==> m'.at[r] == m.at[r].(parent := b))
      && (b == r && l != null ==> m'.at[l] == m.at[l].(parent := b))
      && (z != null ==> m'.at[z] == if m.at[z].left == a then m.at[z].(left := b) else m.at[z].(right := b))
      && (forall n :: n in m.at && n != a && n != b && n != l && n != r && n != x && n != y && n != z ==>
            m'.at[n] == m.at[n])
  {}

  lemma AtApart(s: seq<HeapNode>, i: nat, j: nat)
    requires Distinct(s) && i != j
    ensures At(s, i) != null ==> At(s, i) != At(s, j)
  {
    if 1 <= i <= |s| && 1 <= j <= |s| {
      if i < j { assert s[i - 1] != s[j - 1]; } else { assert s[j - 1] != s[i - 1]; }
    }
  }

  lemma PlacedAt(m: Mem, s: seq<HeapNode>, p: nat)
    requires Rep(m, s) && 1 <= p <= |s|
    ensures At(s, p) in m.at && m.at[At(s, p)] == Links(At(s, 2 * p), At(s, 2 * p + 1), At(s, p / 2))
    ensures InMemory(m, At(s, 2 * p)) && InMemory(m, At(s, 2 * p + 1)) && InMemory(m, At(s, p / 2))
  {
    assert Placed(m, s, p);
    if 2 * p <= |s| { assert Placed(m, s, 2 * p); }
    if 2 * p + 1 <= |s| { assert Placed(m, s, 2 * p + 1); }
    if p / 2 >= 1 { assert Placed(m, s, p / 2); }
  }

  lemma AllApart(s: seq<HeapNode>)
    requires Distinct(s)
    ensures forall i: nat, j: nat :: i != j && At(s, i) != null ==> At(s, i) != At(s, j)
  {
    forall i: nat, j: nat | i != j && At(s, i) != null
      ensures At(s, i) != At(s, j)
    {
      AtApart(s, i, j);
    }
  }

  predicate IsChild(c: nat, p: nat) {
    c == 2 * p || c == 2 * p + 1
  }

  lemma SwapReady(m: Mem, s: seq<HeapNode>, p: nat, c: nat)
    requires Rep(m, s) && 1 <= p && IsChild(c, p) && c <= |s|
    ensures CanSwap(m, At(s, p), At(s, c))
    ensures m.at[At(s, p)] == Links(At(s, 2 * p), At(s, 2 * p + 1), At(s, p / 2))
    ensures m.at[At(s, c)] == Links(At(s, 2 * c), At(s, 2 * c + 1), At(s, p))
    ensures InMemory(m, At(s, p / 2)) && InMemory(m, At(s, 2 * c + 1))
    ensures At(s, p / 2) != null ==>
      m.at[At(s, p / 2)].left == (if p % 2 == 0 then At(s, p) else At(s, p - 1))
      && m.at[At(s, p / 2)].right == (if p % 2 == 0 then At(s, p + 1) else At(s, p))
  {
    AtApart(s, p, c);
    PlacedAt(m, s, p);
    PlacedAt(m, s, c);
    if p / 2 >= 1 { PlacedAt(m, s, p / 2); }
  }

  /** The swap of a node and its child, in terms of positions. */
  lemma SwapFields(m: Mem, s: seq<HeapNode>, p: nat, c: nat) returns (m': Mem)
    requires Rep(m, s) && 1 <= p && IsChild(c, p) && c <= |s|
    ensures CanSwap(m, At(s, p), At(s, c)) && m' == Swapped(m, At(s, p), At(s, c)) && m'.at.Keys == m.at.Keys
    ensures m'.min == if p == 1 then At(s, c) else m.min
    ensures m'.at[At(s, c)] == if c == 2 * p then Links(At(s, p), At(s, 2 * p + 1), At(s, p / 2))
                               else Links(At(s, 2 * p), At(s, p), At(s, p / 2))
    ensures m'.at[At(s, p)] == Links(At(s, 2 * c), At(s, 2 * c + 1), At(s, c))
    ensures forall q: nat :: 1 <= q <= |s| && q != p && q != c ==> At(s, q) in m.at && SwapOther(m, m', s, p, c, q)
  {
    hide Swapped;
    SwapReady(m, s, p, c);
    AllApart(s);
    m' := Swapped(m, At(s, p), At(s, c));
    SwappedFields(m, At(s, p), At(s, c), At(s, 2 * p), At(s, 2 * p + 1), At(s, 2 * c), At(s, 2 * c + 1), At(s, p / 2));
    forall q: nat | 1 <= q <= |s| && q != p && q != c
      ensures At(s, q) in m.at && SwapOther(m, m', s, p, c, q)
    {
      PlacedAt(m, s, q);
    }
  }

  /** What happens to the node at another position q. */
  ghost predicate SwapOther(m: Mem, m': Mem, s: seq<HeapNode>, p: nat, c: nat, q: nat)
    requires 1 <= p <= |s| && 1 <= q <= |s| && At(s, q) in m.at && m'.at.Keys == m.at.Keys
  {
    var n := At(s, q);
    m'.at[n] ==
      if q / 2 == c then m.at[n].(parent := At(s, p))
      else if q / 2 == p then m.at[n].(parent := At(s, c))
      else if q == p / 2 then if p % 2 == 0 then m.at[n].(left := At(s, c)) else m.at[n].(right := At(s, c))
      else m.at[n]
  }

  lemma AtSwapped(s: seq<HeapNode>, p: nat, c: nat, q: nat)
    requires 1 <= p <= |s| && 1 <= c <= |s|
    ensures At(SwapAt(s, p, c), q) == if q == p then At(s, c) else if q == c then At(s, p) else At(s, q)
  {}

  lemma SwapDistinct(s: seq<HeapNode>, p: nat, c: nat)
    requires Distinct(s) && 1 <= p <= |s| && 1 <= c <= |s|
    ensures Distinct(SwapAt(s, p, c))
  {
    var r := SwapAt(s, p, c);
    forall i, j | 0 <= i < j < |r|
      ensures r[i] != r[j]
    {
      var i', j' := if i == p - 1 then c - 1 else if i == c - 1 then p - 1 else i,
                    if j == p - 1 then c - 1 else if j == c - 1 then p - 1 else j;
      assert r[i] == s[i'] && r[j] == s[j'] && i' != j';
    }
  }

  /** The swap of a node and its child exchanges the two positions. */
  lemma SwapRep(m: Mem, s: seq<HeapNode>, p: nat, c: nat)
    requires Rep(m, s) && 1 <= p && IsChild(c, p) && c <= |s|
    ensures CanSwap(m, At(s, p), At(s, c)) && Rep(Swapped(m, At(s, p), At(s, c)), SwapAt(s, p, c))
  {
    var m' := SwapFields(m, s, p, c);
    var s' := SwapAt(s, p, c);
    SwapDistinct(s, p, c);
    AtSwapped(s, p, c, 1);
    forall q: nat
      ensures Placed(m', s', q)
    {
      if 1 <= q <= |s| { SwapPlaced(m, m', s, p, c, q); }
    }
  }

  lemma SwapPlaced(m: Mem, m': Mem, s: seq<HeapNode>, p: nat, c: nat, q: nat)
    requires Rep(m, s) && 1 <= p && IsChild(c, p) && c <= |s| && 1 <= q <= |s| && m'.at.Keys == m.at.Keys
    requires At(s, p) in m.at && At(s, c) in m.at
    requires m'.at[At(s, c)] == if c == 2 * p then Links(At(s, p), At(s, 2 * p + 1), At(s, p / 2))
                                else Links(At(s, 2 * p), At(s, p), At(s, p / 2))
    requires m'.at[At(s, p)] == Links(At(s, 2 * c), At(s, 2 * c + 1), At(s, c))
    requires q != p && q != c ==> At(s, q) in m.at && SwapOther(m, m', s, p, c, q)
    ensures Placed(m', SwapAt(s, p, c), q)
  {
    AtSwapped(s, p, c, q);
    AtSwapped(s, p, c, 2 * q);
    AtSwapped(s, p, c, 2 * q + 1);
    AtSwapped(s, p, c, q / 2);
    PlacedAt(m, s, q);
    hide Rep, SwapAt;
  }

  // ----- adding and dropping the last position, replacing a node -----

  /** A pointer variable that points into the structure. */
  datatype Slot = MinSlot | LeftSlot(n: HeapNode) | RightSlot(n: HeapNode)

  function SlotOf(s: seq<HeapNode>, p: nat): Slot
    requires p >= 1 && (p >= 2 ==> p / 2 <= |s|)
  {
    if p == 1 then MinSlot else if p % 2 == 0 then LeftSlot(s[p / 2 - 1]) else RightSlot(s[p / 2 - 1])
  }

  function Stored(m: Mem, t: Slot, v: HeapNode?): (m': Mem)
    requires !t.MinSlot? ==> t.n in m.at
    ensures m'.at.Keys == m.at.Keys
  {
    match t
    case MinSlot => m.(min := v)
    case LeftSlot(n) => m.(at := m.at[n := m.at[n].(left := v)])
    case RightSlot(n) => m.(at := m.at[n := m.at[n].(right := v)])
  }

  function Loaded(m: Mem, t: Slot): HeapNode?
    requires !t.MinSlot? ==> t.n in m.at
  {
    match t
    case MinSlot => m.min
    case LeftSlot(n) => m.at[n].left
    case RightSlot(n) => m.at[n].right
  }

  /** The slot of a position holds the node there. */
  lemma SlotHolds(m: Mem, s: seq<HeapNode>, p: nat)
    requires Rep(m, s) && p >= 1 && (p >= 2 ==> p / 2 <= |s|)
    ensures var t := SlotOf(s, p); (!t.MinSlot? ==> t.n in m.at) && Loaded(m, t) == At(s, p)
  {
    if p >= 2 { PlacedAt(m, s, p / 2); }
  }

  lemma AppendRep(m: Mem, s: seq<HeapNode>, x: HeapNode)
    requires Rep(m, s) && x in m.at && x !in s && m.at[x] == Links(null, null, At(s, (|s| + 1) / 2))
    ensures var t := SlotOf(s, |s| + 1); (!t.MinSlot? ==> t.n in m.at) && Rep(Stored(m, t, x), s + [x])
  {
    var n := |s| + 1;
    var t, r := SlotOf(s, n), s + [x];
    SlotHolds(m, s, n);
    var m' := Stored(m, t, x);
    assert forall q: nat :: At(r, q) == if q == n then x else At(s, q);
    AllApart(s);
    forall q: nat
      ensures Placed(m', r, q)
    {
      if 1 <= q <= |s| { PlacedAt(m, s, q); }
    }
  }

  lemma DropRep(m: Mem, s: seq<HeapNode>)
    requires Rep(m, s) && |s| >= 1
    ensures var t := SlotOf(s, |s|); (!t.MinSlot? ==> t.n in m.at) && Rep(Stored(m, t, null), s[..|s| - 1])
  {
    var n := |s|;
    var t, r := SlotOf(s, n), s[..n - 1];
    SlotHolds(m, s, n);
    var m' := Stored(m, t, null);
    assert forall q: nat :: At(r, q) == if q == n then null else At(s, q);
    AllApart(s);
    forall q: nat
      ensures Placed(m', r, q)
    {
      if 1 <= q <= |r| { PlacedAt(m, s, q); }
    }
  }

  /** x takes over the links and the place of u. */
  function TakenOver(m: Mem, u: HeapNode, x: HeapNode): Mem
    requires u in m.at && x in m.at
    requires InMemory(m, m.at[u].left) && InMemory(m, m.at[u].right) && InMemory(m, m.at[u].parent)
  {
    var m1 := m.(at := m.at[x := m.at[u]]);
    Hung(SetParent(SetParent(m1, m.at[u].left, x), m.at[u].right, x), m.at[u].parent, u, x)
  }

  /** What node n holds once x has taken over the fields of u. */
  function TakenField(m: Mem, u: HeapNode, x: HeapNode, n: HeapNode): Links
    requires u in m.at && n in m.at
  {
    var f := m.at[u];
    if n == x then f
    else if n == f.left || n == f.right then m.at[n].(parent := x)
    else if n == f.parent then if m.at[n].left == u then m.at[n].(left := x) else m.at[n].(right := x)
    else m.at[n]
  }

  lemma TakenFields(m: Mem, u: HeapNode, x: HeapNode)
    requires u in m.at && x in m.at
    requires InMemory(m, m.at[u].left) && InMemory(m, m.at[u].right) && InMemory(m, m.at[u].parent)
    requires m.at[u].left != x && m.at[u].right != x && m.at[u].parent != x
    requires m.at[u].parent != null ==> m.at[u].parent != m.at[u].left && m.at[u].parent != m.at[u].right
    ensures var m', f := TakenOver(m, u, x), m.at[u];
      && m'.min == (if f.parent == null then x else m.min) && m'.at.Keys == m.at.Keys
      && forall n :: n in m.at ==> m'.at[n] == TakenField(m, u, x, n)
  {}

  lemma TakeOverRep(m: Mem, s: seq<HeapNode>, p: nat, x: HeapNode)
    requires Rep(m, s) && 1 <= p <= |s| && x in m.at && x !in s
    ensures var u := At(s, p);
      && u in m.at && InMemory(m, m.at[u].left) && InMemory(m, m.at[u].right) && InMemory(m, m.at[u].parent)
      && Rep(TakenOver(m, u, x), s[p - 1 := x])
  {
    hide TakenOver;
    PlacedAt(m, s, p);
    if p / 2 >= 1 { PlacedAt(m, s, p / 2); }
    var u, r := At(s, p), s[p - 1 := x];
    var m' := TakenOver(m, u, x);
    assert forall q: nat :: At(r, q) == if q == p then x else At(s, q);
    AllApart(s);
    ReplaceDistinct(s, p, x);
    TakenFields(m, u, x);
    forall q: nat
      ensures Placed(m', r, q)
    {
      if 1 <= q <= |s| { TakenPlaced(m, s, p, x, q); }
    }
  }

  lemma AtDiffers(s: seq<HeapNode>, i: nat, j: nat)
    requires Distinct(s)
    ensures At(s, i) != null && At(s, i) == At(s, j) ==> i == j
  {
    if i != j { AtApart(s, i, j); }
  }

  lemma AtReplaced(s: seq<HeapNode>, p: nat, x: HeapNode, k: nat)
    requires 1 <= p <= |s| && x !in s
    ensures At(s[p - 1 := x], k) == (if k == p then x else At(s, k)) && At(s, k) != x
    ensures 1 <= k <= |s| ==> s[p - 1 := x][k - 1] == At(s[p - 1 := x], k) && s[k - 1] == At(s, k)
  {}

  /** The place q, with x in the place of u. */
  lemma TakenPlaced(m: Mem, s: seq<HeapNode>, p: nat, x: HeapNode, q: nat)
    requires Rep(m, s) && 1 <= p <= |s| && x in m.at && x !in s && 1 <= q <= |s|
    requires var u := At(s, p);
      && u in m.at && InMemory(m, m.at[u].left) && InMemory(m, m.at[u].right) && InMemory(m, m.at[u].parent)
      && TakenOver(m, u, x).at.Keys == m.at.Keys
      && (forall n :: n in m.at ==> TakenOver(m, u, x).at[n] == TakenField(m, u, x, n))
    ensures Placed(TakenOver(m, At(s, p), x), s[p - 1 := x], q)
  {
    hide TakenOver, Rep, At;
    AtReplaced(s, p, x, q);
    AtReplaced(s, p, x, 2 * q);
    AtReplaced(s, p, x, 2 * q + 1);
    AtReplaced(s, p, x, q / 2);
    RepDistinct(m, s);
    PlacedAt(m, s, p);
    PlacedAt(m, s, q);
    AtDiffers(s, q, p);
    AtDiffers(s, q, 2 * p);
    AtDiffers(s, q, 2 * p + 1);
    AtDiffers(s, q, p / 2);
    AtDiffers(s, p, 2 * q);
    AtDiffers(s, p, 2 * q + 1);
    AtDiffers(s, p, q / 2);
  }

  lemma ReplaceDistinct(s: seq<HeapNode>, p: nat, x: HeapNode)
    requires Distinct(s) && 1 <= p <= |s| && x !in s
    ensures Distinct(s[p - 1 := x])
  {
    assert forall i :: 0 <= i < |s| ==> s[i] in s;
  }

  // ----- moving up and down keeps the rest in order -----

  /** In order except between p and its parent; the children of p are not less
      than that parent either. */
  ghost predicate OrderedUp(s: seq<HeapNode>, p: nat) {
    (forall q: nat :: q != p ==> InOrder(s, q)) && Grand(s, p)
  }

  /** In order except around p. */
  ghost predicate OrderedDown(s: seq<HeapNode>, p: nat) {
    (forall q: nat :: q != p && q / 2 != p ==> InOrder(s, q)) && Grand(s, p)
  }

  ghost predicate Grand(s: seq<HeapNode>, p: nat) {
    2 <= p <= |s| ==>
      (2 * p <= |s| ==> !Less(s[2 * p - 1], s[p / 2 - 1])) && (2 * p + 1 <= |s| ==> !Less(s[2 * p], s[p / 2 - 1]))
  }

  lemma UpStep(s: seq<HeapNode>, p: nat)
    requires OrderedUp(s, p) && 2 <= p <= |s| && Less(s[p - 1], s[p / 2 - 1])
    ensures OrderedUp(SwapAt(s, p / 2, p), p / 2)
  {
    var r := SwapAt(s, p / 2, p);
    forall q: nat | q != p / 2
      ensures InOrder(r, q)
    {
      if q != p { assert InOrder(s, q); }
    }
    assert InOrder(s, p / 2);
    assert InOrder(s, 2 * (p / 2)) || 2 * (p / 2) == p;
    assert InOrder(s, 2 * (p / 2) + 1) || 2 * (p / 2) + 1 == p;
  }

  lemma UpEnd(s: seq<HeapNode>, p: nat)
    requires OrderedUp(s, p) && InOrder(s, p)
    ensures Ordered(s)
  {}

  /** c is the lesser child of p, and less than p. */
  ghost predicate Smallest(s: seq<HeapNode>, p: nat, c: nat) {
    && 1 <= p && IsChild(c, p) && c <= |s| && Less(s[c - 1], s[p - 1])
    && (2 * p <= |s| ==> !Less(s[2 * p - 1], s[c - 1])) && (2 * p + 1 <= |s| ==> !Less(s[2 * p], s[c - 1]))
  }

  lemma DownStep(s: seq<HeapNode>, p: nat, c: nat)
    requires OrderedDown(s, p) && Smallest(s, p, c)
    ensures OrderedDown(SwapAt(s, p, c), c)
  {
    var r := SwapAt(s, p, c);
    forall q: nat | q != c && q / 2 != c
      ensures InOrder(r, q)
    {
      if q != p && q / 2 != p { assert InOrder(s, q); }
    }
    assert InOrder(s, 2 * c) && InOrder(s, 2 * c + 1);
  }

  lemma DownEnd(s: seq<HeapNode>, p: nat)
    requires OrderedDown(s, p) && InOrder(s, 2 * p) && InOrder(s, 2 * p + 1)
    ensures OrderedUp(s, p)
  {
    forall q: nat | q != p
      ensures InOrder(s, q)
    {
      if q / 2 == p { assert q == 2 * p || q == 2 * p + 1; }
    }
  }

  // ----- the way to a position -----

  /** From position i down k levels, taking the sides from the low bits of path. */
  function Walk(i: nat, path: nat, k: nat): nat
    decreases k
  {
    if k == 0 then i else Walk(2 * i + path % 2, path / 2, k - 1)
  }

  lemma {:induction false} WalkGrows(i: nat, path: nat, k: nat)
    requires i >= 1
    ensures Walk(i, path, k) >= i && (k > 0 ==> Walk(i, path, k) > i)
    decreases k
  {
    if k > 0 { WalkGrows(2 * i + path % 2, path / 2, k - 1); }
  }

  /** The bits of n, lowest first, reversed into a path. */
  method PathTo(last: nat) returns (path: nat, k: nat)
    requires last >= 1
    ensures Walk(1, path, k) == last
  {
    path, k := 0, 0;
    var n := last;
    while n >= 2
      invariant n >= 1 && Walk(n, path, k) == last
    {
      WalkStep(n, path, k);
      path := 2 * path + n % 2;
      k := k + 1;
      n := n / 2;
    }
  }

  lemma WalkStep(n: nat, path: nat, k: nat)
    ensures Walk(n / 2, 2 * path + n % 2, k + 1) == Walk(n, path, k)
  {
    assert (2 * path + n % 2) / 2 == path && (2 * path + n % 2) % 2 == n % 2;
    assert 2 * (n / 2) + n % 2 == n;
  }

  class Heap {
    var min: HeapNode?
    var nelts: nat
    ghost var nodes: set<HeapNode>
    ghost var order: seq<HeapNode>

    constructor ()
      ensures Valid() && nodes == {}
    {
      min, nelts := null, 0;
      nodes, order := {}, [];
    }

    ghost function Snap(): (m: Mem)
      reads `min, `nodes, nodes
      ensures m.min == min && m.at.Keys == nodes
    {
      Mem(min, map n | n in nodes :: Links(n.left, n.right, n.parent))
    }

    ghost predicate Valid()
      reads this, nodes
    {
      Rep(Snap(), order) && Ordered(order) && nelts == |order| && nodes == NodeSet(order)
    }

    function Load(t: Slot): HeapNode?
      reads this, if t.MinSlot? then {} else {t.n}
    {
      match t
      case MinSlot => min
      case LeftSlot(n) => n.left
      case RightSlot(n) => n.right
    }

    method Store(t: Slot, v: HeapNode?)
      requires !t.MinSlot? ==> t.n in nodes
      modifies this`min, nodes
      ensures Snap() == Stored(old(Snap()), t, v)
    {
      match t
      case MinSlot => min := v;
      case LeftSlot(n) => n.left := v;
      case RightSlot(n) => n.right := v;
    }

    /** heap_node_swap: the child moves towards the root. */
    method NodeSwap(parent: HeapNode, child: HeapNode)
      requires CanSwap(Snap(), parent, child)
      modifies this`min, nodes
      ensures Snap() == Swapped(old(Snap()), parent, child)
    {
      ReadNode(parent);
      ReadNode(child);
      hide Snap, SetParent, Hung, Exchanged;
      var sibling := Exchange(parent, child);
      SetParentIf(sibling, child);
      SetParentIf(parent.left, parent);
      SetParentIf(parent.right, parent);
      Hang(child.parent, parent, child);
    }

    lemma ReadNode(n: HeapNode)
      requires n in nodes
      ensures Snap().at[n] == Links(n.left, n.right, n.parent)
    {}

    /** The first half: the contents are exchanged and the two point at each
        other; returns the other child of the old parent. */
    method Exchange(parent: HeapNode, child: HeapNode) returns (sibling: HeapNode?)
      requires parent in nodes && child in nodes && parent != child
      modifies parent, child
      requires child != child.left && child != child.right && (child == parent.left || child == parent.right)
      ensures Snap() == Exchanged(old(Snap()), parent, child)
      ensures sibling == if old(parent.left) == child then old(parent.right) else old(parent.left)
      ensures parent.left == old(child.left) && parent.right == old(child.right) && child.parent == old(parent.parent)
    {
      var tl, tr, tp := parent.left, parent.right, parent.parent;
      parent.left, parent.right, parent.parent := child.left, child.right, child.parent;
      child.left, child.right, child.parent := tl, tr, tp;
      parent.parent := child;
      if child.left == child {
        child.left := parent;
        sibling := child.right;
      } else {
        child.right := parent;
        sibling := child.left;
      }
    }

    method SetParentIf(n: HeapNode?, v: HeapNode?)
      requires n != null ==> n in nodes
      modifies nodes
      ensures Snap() == SetParent(old(Snap()), n, v)
      ensures forall x :: x in nodes ==> x.left == old(x.left) && x.right == old(x.right)
      ensures forall x :: x in nodes && x != n ==> x.parent == old(x.parent)
    {
      if n != null { n.parent := v; }
    }

    method Hang(z: HeapNode?, v: HeapNode, u: HeapNode?)
      requires z != null ==> z in nodes
      modifies this`min, nodes
      ensures Snap() == Hung(old(Snap()), z, v, u)
    {
      if z == null {
        min := u;
      } else if z.left == v {
        z.left := u;
      } else {
        z.right := u;
      }
    }

    // ----- sifting -----

    /** The walk up: the node at position p rises until its parent is not greater. */
    method SiftUp(node: HeapNode, ghost p0: nat)
      requires Rep(Snap(), order) && OrderedUp(order, p0) && At(order, p0) == node
      modifies this`min, this`order, nodes
      ensures Rep(Snap(), order) && Ordered(order) && |order| == old(|order|) && NodeSet(order) == NodeSet(old(order))
    {
      hide Rep, OrderedUp, Ordered, NodeSet, SwapAt, Swapped, CanSwap, Snap, InOrder;
      ghost var p := p0;
      UpView(node, p);
      while node.parent != null && Less(node, node.parent)
        invariant Rep(Snap(), order) && OrderedUp(order, p) && At(order, p) == node
        invariant node in nodes && node.parent == At(order, p / 2)
        invariant |order| == old(|order|) && NodeSet(order) == NodeSet(old(order))
        decreases p
      {
        SwapRep(Snap(), order, p / 2, p);
        UpStep(order, p);
        SwapNodes(order, p / 2, p);
        AtSwapped(order, p / 2, p, p / 2);
        NodeSwap(node.parent, node);
        order := SwapAt(order, p / 2, p);
        p := p / 2;
        UpView(node, p);
      }
      UpEnd(order, p);
    }

    lemma UpView(node: HeapNode, p: nat)
      requires Rep(Snap(), order) && At(order, p) == node
      ensures node in nodes && node.parent == At(order, p / 2) && node.left == At(order, 2 * p)
      ensures node.right == At(order, 2 * p + 1)
    {
      PlacedAt(Snap(), order, p);
    }

    /** The walk down: the node at position p sinks below lesser children. */
    method SiftDown(child: HeapNode, ghost p0: nat) returns (ghost p: nat)
      requires Rep(Snap(), order) && OrderedDown(order, p0) && At(order, p0) == child
      modifies this`min, this`order, nodes
      ensures Rep(Snap(), order) && |order| == old(|order|) && NodeSet(order) == NodeSet(old(order))
      ensures OrderedUp(order, p) && At(order, p) == child
    {
      hide Rep, OrderedUp, OrderedDown, NodeSet, SwapAt, Swapped, CanSwap, Snap;
      p := p0;
      while true
        invariant Rep(Snap(), order) && OrderedDown(order, p) && At(order, p) == child
        invariant |order| == old(|order|) && NodeSet(order) == NodeSet(old(order))
        decreases |order| - p
      {
        UpView(child, p);
        var smallest := child;
        if child.left != null && Less(child.left, smallest) {
          smallest := child.left;
        }
        if child.right != null && Less(child.right, smallest) {
          smallest := child.right;
        }
        if smallest == child {
          break;
        }
        ghost var c := if smallest == child.left then 2 * p else 2 * p + 1;
        SwapRep(Snap(), order, p, c);
        DownStep(order, p, c);
        SwapNodes(order, p, c);
        AtSwapped(order, p, c, c);
        NodeSwap(child, smallest);
        order := SwapAt(order, p, c);
        p := c;
      }
      DownEnd(order, p);
    }

    // ----- insertion -----

    /** Follows the path to position n, from the top. */
    method FindSlot(path0: nat, k0: nat, ghost n: nat) returns (parent: Slot, child: Slot)
      requires Rep(Snap(), order) && Walk(1, path0, k0) == n && 1 <= n <= |order| + 1
      ensures child == SlotOf(order, n) && parent == if n == 1 then MinSlot else SlotOf(order, n / 2)
    {
      hide Rep;
      var path, k := path0, k0;
      parent, child := MinSlot, MinSlot;
      ghost var pos := 1;
      while k > 0
        invariant 1 <= pos && Walk(pos, path, k) == n
        invariant pos <= n && child == SlotOf(order, pos)
        invariant parent == if pos == 1 then MinSlot else SlotOf(order, pos / 2)
        decreases k
      {
        WalkGrows(pos, path, k);
        WalkGrows(2 * pos + path % 2, path / 2, k - 1);
        LoadSlot(child, pos);
        parent := child;
        child := if path % 2 == 1 then RightSlot(Load(child)) else LeftSlot(Load(child));
        pos := 2 * pos + path % 2;
        path := path / 2;
        k := k - 1;
      }
    }

    lemma LoadSlot(t: Slot, p: nat)
      requires Rep(Snap(), order) && p >= 1 && (p >= 2 ==> p / 2 <= |order|) && t == SlotOf(order, p)
      ensures (!t.MinSlot? ==> t.n in nodes) && Load(t) == At(order, p)
    {
      SlotHolds(Snap(), order, p);
    }

    /** heap_insert. */
    method Insert(newnode: HeapNode)
      requires Valid() && newnode !in nodes
      modifies this, nodes, newnode
      ensures Valid() && nodes == old(nodes) + {newnode}
    {
      hide Rep, OrderedUp, Ordered, NodeSet, Stored, Walk, Snap;
      ghost var n := |order| + 1;
      var path, k := PathTo(1 + nelts);
      var parent, child := FindSlot(path, k, n);
      LoadSlot(parent, if n == 1 then 1 else n / 2);
      AppendOrder(order, newnode);
      Place(newnode, Load(parent), child);
      nelts := nelts + 1;
      SiftUp(newnode, n);
    }

    /** The new node becomes the last one. */
    method Place(newnode: HeapNode, above: HeapNode?, child: Slot)
      requires Rep(Snap(), order) && nodes == NodeSet(order) && newnode !in nodes
      requires above == At(order, (|order| + 1) / 2) && child == SlotOf(order, |order| + 1)
      modifies this`min, this`order, this`nodes, nodes, newnode
      ensures order == old(order) + [newnode] && nodes == old(nodes) + {newnode} && Rep(Snap(), order)
    {
      hide Rep, NodeSet, Stored, Snap;
      InNodeSet(order);
      SlotHolds(Snap(), order, |order| + 1);
      Admit(newnode, above);
      AppendRep(Snap(), order, newnode);
      Store(child, newnode);
      order := order + [newnode];
    }

    method Admit(newnode: HeapNode, above: HeapNode?)
      requires Rep(Snap(), order) && newnode !in nodes && newnode !in order
      modifies this`nodes, newnode
      ensures nodes == old(nodes) + {newnode} && Rep(Snap(), order) && Snap().at[newnode] == Links(null, null, above)
    {
      ghost var m := Snap();
      newnode.left, newnode.right, newnode.parent := null, null, above;
      nodes := nodes + {newnode};
      RepFrame(m, Snap(), order);
    }

    // ----- removal -----

    /** heap_remove. */
    method Remove(node: HeapNode?)
      requires Valid() && (nelts > 0 ==> node != null && node in nodes)
      modifies this, nodes
      ensures Valid() && (if old(nelts) == 0 then nodes == old(nodes) else nodes == old(nodes) - {node})
    {
      if nelts == 0 {
        return;
      }
      hide Rep, Ordered, NodeSet, Snap;
      ghost var s := order;
      var child := TakeLast();
      if child == node {
        // heap->min is cleared already if this was the only node
        MinInOrder(child);
        assert min != child;
      } else {
        ReplaceBy(node, child, s);
      }
      Forget(node);
    }

    /** The node that was last takes the place of another, and moves from there. */
    method ReplaceBy(node: HeapNode, child: HeapNode, ghost s: seq<HeapNode>)
      requires Rep(Snap(), order) && s != [] && order == s[..|s| - 1] && s[|s| - 1] == child && child !in order
      requires Distinct(s) && Ordered(s) && node in NodeSet(s) && node != child && child in nodes
      modifies this`min, this`order, nodes
      ensures Rep(Snap(), order) && Ordered(order) && |order| == |s| - 1 && NodeSet(order) == NodeSet(s) - {node}
    {
      hide Rep, Ordered, NodeSet, OrderedUp, OrderedDown, Snap;
      ghost var i := PositionOf(order, s, node);
      ReplaceOrder(s, i);
      TakeOver(node, child, i);
      i := SiftDown(child, i);
      SiftUp(child, i);
    }

    /** Unlinks the last node of the level order. */
    method TakeLast() returns (child: HeapNode)
      requires Valid() && nelts > 0
      modifies this`min, this`order, this`nelts, nodes
      ensures old(|order|) > 0 && child == old(order)[old(|order|) - 1] && order == old(order)[..old(|order|) - 1]
      ensures Rep(Snap(), order) && Ordered(order) && nelts == |order|
      ensures child !in order && child in nodes && NodeSet(order) == NodeSet(old(order)) - {child}
      ensures Distinct(old(order))
    {
      hide Rep, Ordered, NodeSet, Snap, Walk;
      InNodeSet(order);
      RepDistinct(Snap(), order);
      LastOut(order);
      var path, k := PathTo(nelts);
      var _, max := FindSlot(path, k, |order|);
      LoadSlot(max, |order|);
      nelts := nelts - 1;
      child := Load(max);
      UnlinkLast(max);
    }

    lemma MinInOrder(x: HeapNode)
      requires Rep(Snap(), order) && x !in order
      ensures min != x
    {}

    method UnlinkLast(max: Slot)
      requires Rep(Snap(), order) && |order| >= 1 && max == SlotOf(order, |order|)
      modifies this`min, this`order, nodes
      ensures Rep(Snap(), order) && order == old(order)[..old(|order|) - 1]
    {
      hide Rep, Stored, Snap;
      DropRep(Snap(), order);
      order := order[..|order| - 1];
      Store(max, null);
    }

    /** The last node takes over the links and the place of the removed one. */
    method TakeOver(node: HeapNode, child: HeapNode, ghost i: nat)
      requires Rep(Snap(), order) && 1 <= i <= |order| && order[i - 1] == node && child in nodes && child !in order
      modifies this`min, this`order, nodes
      ensures Rep(Snap(), order) && order == old(order)[i - 1 := child]
    {
      hide Rep, Hung, SetParent, Snap;
      TakeOverRep(Snap(), order, i, child);
      UpView(node, i);
      NoSelfLinks(order, i);
      ReadNode(node);
      order := order[i - 1 := child];
      CopyLinks(node, child);
      SetParentIf(child.left, child);
      SetParentIf(child.right, child);
      Hang(node.parent, node, child);
    }

    method CopyLinks(node: HeapNode, child: HeapNode)
      requires node in nodes && child in nodes && node != child
      modifies child
      ensures Snap() == old(Snap()).(at := old(Snap()).at[child := old(Snap()).at[node]])
      ensures child.left == node.left && child.right == node.right && node.parent == old(node.parent)
    {
      child.left, child.right, child.parent := node.left, node.right, node.parent;
    }

    lemma NoSelfLinks(s: seq<HeapNode>, i: nat)
      requires Rep(Snap(), s) && 1 <= i <= |s|
      ensures At(s, 2 * i) != At(s, i) && At(s, 2 * i + 1) != At(s, i)
    {
      AtApart(s, i, 2 * i);
      AtApart(s, i, 2 * i + 1);
    }

    ghost method Forget(node: HeapNode)
      requires Rep(Snap(), order) && Ordered(order) && nelts == |order| && NodeSet(order) == nodes - {node}
      modifies this`nodes
      ensures Valid() && nodes == old(nodes) - {node}
    {
      ghost var m := Snap();
      InNodeSet(order);
      nodes := nodes - {node};
      RepFrame(m, Snap(), order);
    }

    /** heap_dequeue: a least node goes. */
    method Dequeue()
      requires Valid()
      modifies this, nodes
      ensures Valid()
      ensures old(min) == null ==> nodes == old(nodes) == {}
      ensures old(min) != null ==>
        nodes == old(nodes) - {old(min)} && old(min) in old(nodes) && forall n :: n in old(nodes) ==> !Less(n, old(min))
    {
      MinIsLeast();
      Remove(min);
    }

    /** heap_min is null for the empty heap, and otherwise a least node. */
    lemma MinIsLeast()
      requires Valid()
      ensures min == null <==> nodes == {}
      ensures min == null <==> nelts == 0
      ensures min != null ==> min in nodes && forall n :: n in nodes ==> !Less(n, min)
    {
      if order != [] {
        assert order[0] in NodeSet(order);
        forall n | n in nodes
          ensures !Less(n, min)
        {
          var q :| 0 <= q < |order| && order[q] == n;
          TopIsLeast(order, q + 1);
        }
      }
    }
  }

  lemma RepDistinct(m: Mem, s: seq<HeapNode>)
    requires Rep(m, s)
    ensures Distinct(s)
  {}

  lemma LastOut(s: seq<HeapNode>)
    requires Distinct(s) && Ordered(s) && s != []
    ensures var r, x := s[..|s| - 1], s[|s| - 1]; x !in r && Ordered(r) && NodeSet(r) == NodeSet(s) - {x}
  {
    var r := s[..|s| - 1];
    forall q: nat
      ensures InOrder(r, q)
    {
      assert InOrder(s, q);
    }
    assert s == r + [s[|s| - 1]];
  }

  lemma PositionOf(r: seq<HeapNode>, s: seq<HeapNode>, x: HeapNode) returns (i: nat)
    requires s != [] && r == s[..|s| - 1] && x in NodeSet(s) && x != s[|s| - 1]
    ensures 1 <= i <= |r| && r[i - 1] == x
  {
    var j :| 0 <= j < |s| && s[j] == x;
    i := j + 1;
  }

  /** With the last node in the place of the i-th, only that place can be out of
      order, and exactly the i-th node is gone. */
  lemma ReplaceOrder(s: seq<HeapNode>, i: nat)
    requires Distinct(s) && Ordered(s) && 1 <= i < |s|
    ensures var r := s[..|s| - 1][i - 1 := s[|s| - 1]];
      OrderedDown(r, i) && NodeSet(r) == NodeSet(s) - {s[i - 1]}
  {
    var n := |s| - 1;
    var r := s[..n][i - 1 := s[n]];
    forall q: nat | q != i && q / 2 != i
      ensures InOrder(r, q)
    {
      assert InOrder(s, q);
    }
    assert InOrder(s, i) && InOrder(s, 2 * i) && InOrder(s, 2 * i + 1);
    forall x | x in s && x != s[i - 1]
      ensures x in r
    {
      var j :| 0 <= j < |s| && s[j] == x;
      assert r[if j == n then i - 1 else j] == x;
    }
    assert s[i - 1] !in r;
  }

  lemma InNodeSet(s: seq<HeapNode>)
    ensures forall n :: n in s <==> n in NodeSet(s)
  {}

  lemma SwapNodes(s: seq<HeapNode>, p: nat, c: nat)
    requires 1 <= p <= |s| && 1 <= c <= |s|
    ensures NodeSet(SwapAt(s, p, c)) == NodeSet(s)
  {
    var r := SwapAt(s, p, c);
    forall n | n in s
      ensures n in r
    {
      var i :| 0 <= i < |s| && s[i] == n;
      assert r[if i == p - 1 then c - 1 else if i == c - 1 then p - 1 else i] == n;
    }
  }

  /** Nodes outside the tree do not matter. */
  lemma RepFrame(m: Mem, m': Mem, s: seq<HeapNode>)
    requires Rep(m, s) && m'.min == m.min
    requires forall n :: n in s && n in m.at ==> n in m'.at && m'.at[n] == m.at[n]
    ensures Rep(m', s)
  {
    forall p: nat
      ensures Placed(m', s, p)
    {
      assert Placed(m, s, p);
    }
  }

  /** A new last node can only be out of order with its parent. */
  lemma AppendOrder(s: seq<HeapNode>, x: HeapNode)
    requires Ordered(s)
    ensures OrderedUp(s + [x], |s| + 1) && NodeSet(s + [x]) == NodeSet(s) + {x}
  {
    forall q: nat | q != |s| + 1
      ensures InOrder(s + [x], q)
    {
      assert InOrder(s, q);
    }
  }

  function NodeSet(s: seq<HeapNode>): set<HeapNode> {
    set n | n in s
  }
}
