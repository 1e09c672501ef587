/** The intrusive circular queues of queue.h. A queue is a ring of linked nodes
    with its header in it; what it holds is the sequence of the other nodes. */
module Queues {

  class Link {
    var next: Link?
    var prev: Link?

    constructor ()
    {
      next := null;
      prev := null;
    }
  }

  ghost predicate Distinct(r: seq<Link>) {
    forall i, j :: 0 <= i < j < |r| ==> r[i] != r[j]
  }

  /** The nodes of r, header first, are linked forwards and backwards into one
      closed ring. */
  ghost predicate Ring(r: seq<Link>)
    reads r
  {
    && r != [] && Distinct(r)
    && (forall i :: 0 <= i < |r| - 1 ==> r[i].next == r[i + 1])
    && (forall i :: 0 < i < |r| ==> r[i].prev == r[i - 1])
    && r[|r| - 1].next == r[0]
    && r[0].prev == r[|r| - 1]
  }

  /** The node that precedes position k of the queue at header h. */
  ghost function Before(h: Link, c: seq<Link>, k: nat): Link
    requires k <= |c|
  {
    if k == 0 then h else c[k - 1]
  }

  /** The node at position k, which is the header after the last one. */
  ghost function From(h: Link, c: seq<Link>, k: nat): Link
    requires k <= |c|
  {
    if k == |c| then h else c[k]
  }

  /** What a queue holds is determined by the links alone: two readings of the
      ring at the same header agree. */
  lemma RingUnique(r: seq<Link>, t: seq<Link>)
    requires Ring(r) && Ring(t) && r[0] == t[0]
    ensures r == t
  {
    if |r| <= |t| {
      RingPrefix(r, t, |r| - 1);
      RingCloses(r, t);
    } else {
      RingPrefix(t, r, |t| - 1);
      RingCloses(t, r);
    }
  }

  lemma {:induction false} RingPrefix(r: seq<Link>, t: seq<Link>, k: nat)
    requires Ring(r) && Ring(t) && r[0] == t[0] && k < |r| <= |t|
    ensures r[..k + 1] == t[..k + 1]
  {
    if k > 0 {
      RingPrefix(r, t, k - 1);
      assert r[..k + 1] == r[..k] + [r[k]] && t[..k + 1] == t[..k] + [t[k]];
      assert r[k - 1] == r[..k][k - 1] == t[..k][k - 1] == t[k - 1];
      assert r[k - 1].next == r[k - 1 + 1] && t[k - 1].next == t[k - 1 + 1];
    }
  }

  lemma NextIsNotFirst(t: seq<Link>, n: nat)
    requires Ring(t) && n + 1 < |t|
    ensures t[n].next != t[0]
  {
    assert t[n].next == t[n + 1];
  }

  lemma RingCloses(r: seq<Link>, t: seq<Link>)
    requires Ring(r) && Ring(t) && |r| <= |t| && r[..|r|] == t[..|r|]
    ensures r == t
  {
    var n: nat := |r| - 1;
    assert r[n] == r[..|r|][n] == t[..|r|][n] == t[n];
    assert r[0] == r[..|r|][0] == t[..|r|][0] == t[0];
    if n + 1 < |t| { NextIsNotFirst(t, n); }
    assert t[..|t|] == t;
  }

  /** A node is linked to itself exactly when its ring holds nothing else. */
  method Empty(q: Link, ghost c: seq<Link>) returns (empty: bool)
    requires Ring([q] + c)
    ensures empty <==> c == []
  {
    ghost var r := [q] + c;
    assert c != [] ==> r[0].next == r[1] && r[1] == c[0];
    assert c == [] ==> r[|r| - 1] == q;
    empty := q.next == q;
  }

  method Head(h: Link, ghost c: seq<Link>) returns (q: Link)
    requires Ring([h] + c) && c != []
    ensures q == c[0]
  {
    ghost var r := [h] + c;
    assert r[0].next == r[0 + 1];
    q := h.next;
  }

  method Init(q: Link)
    modifies q
    ensures Ring([q])
  {
    q.next := q;
    q.prev := q;
  }

  /** Appending touches the header, the new node and the old last node only. */
  method InsertTail(h: Link, q: Link, ghost c: seq<Link>)
    requires Ring([h] + c) && q != h && q !in c
    modifies h`prev, q, Before(h, c, |c|)`next
    ensures Ring([h] + (c + [q]))
  {
    ghost var r := [h] + c;
    assert h == r[0] && h.prev == r[|r| - 1] && forall x :: x in c ==> x in r;
    q.next := h;
    q.prev := h.prev;
    q.prev.next := q;
    h.prev := q;
    ghost var t := [h] + (c + [q]);
    assert t == r + [q];
    assert Distinct(t);
  }

  /** The node becomes the first one. */
  method InsertHead(h: Link, q: Link, ghost c: seq<Link>)
    requires Ring([h] + c) && q != h && q !in c
    modifies h`next, q, From(h, c, 0)`prev
    ensures Ring([h] + ([q] + c))
  {
    ghost var r := [h] + c;
    assert h == r[0] && forall x :: x in c ==> x in r;
    assert c != [] ==> r[0].next == r[0 + 1];
    assert c != [] ==> r[1] == c[0];
    q.next := h.next;
    q.prev := h;
    q.next.prev := q;
    h.next := q;
    ghost var t := [h] + ([q] + c);
    assert forall i :: 2 <= i < |t| ==> t[i] == r[i - 1];
    assert Distinct(t);
  }

  /** Unlinking the k-th node joins its neighbours. The node keeps its own links,
      and a node linked only to itself stays that way. */
  method Remove(q: Link, ghost h: Link, ghost c: seq<Link>, ghost k: nat)
    requires Ring([h] + c) && k < |c| && c[k] == q
    modifies Before(h, c, k)`next, From(h, c, k + 1)`prev
    ensures Ring([h] + (c[..k] + c[k + 1..]))
    ensures q.next == old(q.next) && q.prev == old(q.prev)
  {
    ghost var r := [h] + c;
    assert q == r[k + 1] && r[k + 1].prev == r[k];
    assert k + 1 < |c| ==> r[k + 1].next == r[k + 2];
    assert k + 1 < |c| ==> r[k + 2] == c[k + 1];
    assert k + 1 == |c| ==> r[|r| - 1] == q;
    q.prev.next := q.next;
    q.next.prev := q.prev;
    ghost var t := [h] + (c[..k] + c[k + 1..]);
    assert forall i :: 0 <= i < |t| ==> t[i] == if i <= k then r[i] else r[i + 1];
    forall i, j | 0 <= i < j < |t|
      ensures t[i] != t[j]
    {
      var i', j' := if i <= k then i else i + 1, if j <= k then j else j + 1;
      assert t[i] == r[i'] && t[j] == r[j'] && i' < j';
    }
    forall i | 0 <= i < |t| - 1
      ensures t[i].next == t[i + 1] && t[i + 1].prev == t[i]
    {
      var i' := if i < k then i else i + 1;
      assert r[i'].next == r[i' + 1] && r[i' + 1].prev == if i == k then r[k] else r[i'];
    }
  }

  /** Cuts the queue before its k-th node; n becomes the header of the rest. */
  method Split(h: Link, q: Link, n: Link, ghost c: seq<Link>, ghost k: nat)
    requires Ring([h] + c) && k < |c| && c[k] == q && n != h && n !in c
    modifies h`prev, n, q`prev, Before(h, c, k)`next, Before(h, c, |c|)`next
    ensures Ring([h] + c[..k]) && Ring([n] + c[k..])
  {
    ghost var r := [h] + c;
    assert h == r[0] && q == r[k + 1] && r[k + 1].prev == r[k] && h.prev == r[|r| - 1];
    SplitNodes(h, n, c, k);
    n.prev := h.prev;
    n.prev.next := n;
    n.next := q;
    h.prev := q.prev;
    h.prev.next := h;
    q.prev := n;
  }

  lemma SplitNodes(h: Link, n: Link, c: seq<Link>, k: nat)
    requires Distinct([h] + c) && k < |c| && n != h && n !in c
    ensures var r, t, u := [h] + c, [h] + c[..k], [n] + c[k..];
      && Distinct(t) && Distinct(u) && (forall i :: 0 <= i < |r| ==> r[i] != n)
      && (forall i :: 0 <= i < |t| ==> t[i] == r[i]) && (forall i :: 1 <= i < |u| ==> u[i] == r[i + k])
  {
    var r, t, u := [h] + c, [h] + c[..k], [n] + c[k..];
    assert forall i :: 0 <= i < |t| ==> t[i] == r[i];
    assert forall i :: 1 <= i < |u| ==> u[i] == r[i + k];
    assert forall i :: 1 <= i < |r| ==> r[i] == c[i - 1] && c[i - 1] in c;
  }

  /** Moves everything the queue holds to the header n, and empties it. */
  method Move(h: Link, n: Link, ghost c: seq<Link>)
    requires Ring([h] + c) && n != h && n !in c
    modifies h, n, c
    ensures Ring([h]) && Ring([n] + c)
  {
    var empty := Empty(h, c);
    if empty {
      assert [h] + c == [h] && [n] + c == [n];
      Init(n);
    } else {
      var q := Head(h, c);
      Split(h, q, n, c, 0);
      assert [h] + c[..0] == [h] && c[0..] == c;
    }
  }

  lemma DistinctJoin(r: seq<Link>, n: Link, d: seq<Link>)
    requires Distinct(r) && Distinct([n] + d) && forall x :: x in r ==> x !in d
    ensures Distinct(r + d)
  {
    var s := [n] + d;
    forall i, j | 0 <= i < j < |r + d|
      ensures (r + d)[i] != (r + d)[j]
    {
      if i >= |r| {
        assert d[i - |r|] == s[i - |r| + 1] && d[j - |r|] == s[j - |r| + 1];
      } else if j >= |r| {
        assert r[i] in r && d[j - |r|] in d;
      }
    }
  }

  /** Appends what n holds to h. The header n itself is not relinked. */
  method Add(h: Link, n: Link, ghost c: seq<Link>, ghost d: seq<Link>)
    requires Ring([h] + c) && Ring([n] + d) && n != h && n !in c && h !in d
    requires forall x :: x in c ==> x !in d
    modifies h`prev, Before(h, c, |c|)`next, From(n, d, 0)`prev, Before(n, d, |d|)`next
    ensures Ring([h] + (c + d))
  {
    ghost var r, s := [h] + c, [n] + d;
    assert h == r[0] && h.prev == r[|r| - 1] && n == s[0] && n.prev == s[|s| - 1];
    assert d != [] ==> s[0].next == s[0 + 1] && s[1] == d[0];
    JoinedNodes(h, n, c, d);
    h.prev.next := n.next;
    n.next.prev := h.prev;
    h.prev := n.prev;
    h.prev.next := h;
  }

  lemma JoinedNodes(h: Link, n: Link, c: seq<Link>, d: seq<Link>)
    requires Distinct([h] + c) && Distinct([n] + d) && h !in d && forall x :: x in c ==> x !in d
    ensures var t, r, s := [h] + (c + d), [h] + c, [n] + d;
      Distinct(t) && forall i :: 0 <= i < |t| ==> t[i] == if i < |r| then r[i] else s[i - |r| + 1]
  {
    DistinctJoin([h] + c, n, d);
    assert [h] + (c + d) == [h] + c + d;
  }
}
