/** myinitramfs/mylib/util/list.c: circular doubly linked lists, and headers that count them. */
module LinkedList {
  import opened Common

  class Node {
    var prev: Node
    var next: Node

    /** INIT_LIST_S. */
    constructor ()
      ensures IsRing([this])
    {
      prev, next := this, this;
    }
  }

  ghost function Nodes(r: seq<Node>): set<Node> {
    set x | x in r
  }

  ghost predicate Distinct(r: seq<Node>) {
    forall i, j :: 0 <= i < j < |r| ==> r[i] != r[j]
  }

  ghost predicate Linked(a: Node, b: Node)
    reads a, b
  {
    a.next == b && b.prev == a
  }

  /** The nodes are a ring in this order, linked both ways. */
  ghost predicate IsRing(r: seq<Node>)
    reads r
  {
    && |r| > 0 && Distinct(r) && Linked(r[|r| - 1], r[0])
    && forall i :: 0 <= i < |r| - 1 ==> Linked(r[i], r[i + 1])
  }

  ghost function Rotated(r: seq<Node>, k: nat): seq<Node>
    requires k <= |r|
  {
    r[k..] + r[..k]
  }

  /** A ring can be read from any of its nodes on. */
  lemma RingRotates(r: seq<Node>, k: nat)
    requires IsRing(r) && k <= |r|
    ensures IsRing(Rotated(r, k))
  {
    var s := Rotated(r, k);
    forall i | 0 <= i < |s| - 1
      ensures Linked(s[i], s[i + 1])
    {
      if i == |r| - k - 1 {
        assert s[i] == r[|r| - 1] && s[i + 1] == r[0];
      } else {
        var j := if i < |r| - k then i + k else i + k - |r|;
        assert s[i] == r[j] && s[i + 1] == r[j + 1];
      }
    }
    if 0 < k < |r| {
      assert s[|s| - 1] == r[k - 1] && s[0] == r[k];
      assert Linked(r[k - 1], r[k - 1 + 1]);
    } else {
      assert s == r;
    }
  }

  /** list_del_init: takes the first node of a ring out and leaves it a ring of its own. */
  method DelInit(src: Node, ghost r: seq<Node>)
    requires IsRing(r) && r[0] == src
    modifies Nodes(r)
    ensures IsRing([src]) && (|r| > 1 ==> IsRing(r[1..]))
  {
    ghost var n := |r|;
    assert src.prev == r[n - 1];
    if n > 1 {
      assert Linked(r[0], r[0 + 1]);
    }
    src.prev.next := src.next;
    src.next.prev := src.prev;
    src.prev := src;
    src.next := src;
    forall i | 0 <= i < n - 2
      ensures Linked(r[1..][i], r[1..][i + 1])
    {
      assert old(Linked(r[i + 1], r[i + 1 + 1]));
    }
  }

  /** The links of list_insert_next: a node outside the ring behind its first node. */
  method LinkNext(dst: Node, src: Node, ghost r: seq<Node>)
    requires IsRing(r) && r[0] == dst && src !in r
    modifies Nodes(r), src
    ensures IsRing([dst, src] + r[1..])
  {
    ghost var n, s := |r|, [dst, src] + r[1..];
    if n > 1 {
      assert Linked(r[0], r[0 + 1]);
    }
    src.next := dst.next;
    src.prev := dst;
    src.next.prev := src;
    src.prev.next := src;
    forall i | 0 <= i < n
      ensures Linked(s[i], s[i + 1])
    {
      if i >= 2 {
        assert s[i] == r[i - 1] && s[i + 1] == r[i - 1 + 1];
        assert old(Linked(r[i - 1], r[i - 1 + 1]));
      }
    }
  }

  /** Those of list_insert_prev: before its first node, that is, at its end. */
  method LinkPrev(dst: Node, src: Node, ghost r: seq<Node>)
    requires IsRing(r) && r[0] == dst && src !in r
    modifies Nodes(r), src
    ensures IsRing(r + [src])
  {
    ghost var n, s := |r|, r + [src];
    src.next := dst;
    src.prev := dst.prev;
    src.next.prev := src;
    src.prev.next := src;
    forall i | 0 <= i < n
      ensures Linked(s[i], s[i + 1])
    {
      if i < n - 1 {
        assert old(Linked(r[i], r[i + 1]));
      }
    }
  }

  // ---------------------------------------------------------------- headers

  ghost function Without(s: seq<Node>, x: Node): seq<Node> {
    if s == [] then [] else if s[0] == x then s[1..] else [s[0]] + Without(s[1..], x)
  }

  lemma {:induction false} WithoutAt(s: seq<Node>, k: nat)
    requires Distinct(s) && k < |s|
    ensures Without(s, s[k]) == s[..k] + s[k + 1..]
  {
    if k > 0 {
      WithoutAt(s[1..], k - 1);
    }
  }

  lemma {:induction false} WithoutNone(s: seq<Node>, x: Node)
    requires x !in s
    ensures Without(s, x) == s
  {
    if s != [] {
      WithoutNone(s[1..], x);
    }
  }

  class Header {
    const anchor: Node
    var count: nat
    ghost var items: seq<Node>

    /** The anchor and the items are one ring. */
    ghost predicate Ring()
      reads this, anchor, items
    {
      IsRing([anchor] + items)
    }

    ghost predicate Valid()
      reads this, anchor, items
    {
      Ring() && count == |items|
    }

    /** INIT_LIST_HEADER_S. */
    constructor ()
      ensures Valid() && items == [] && fresh(anchor)
    {
      var node := new Node();
      anchor, count, items := node, 0, [];
    }

    /** `ring` is where a node to be taken out is linked: in this list, outside it, or it is the anchor
        of this list when nothing else is in it. */
    ghost predicate Removable(node: Node, ring: seq<Node>)
      reads this, anchor, items, ring
    {
      && IsRing(ring) && ring[0] == node
      && (node in items || Nodes(ring) !! Nodes([anchor] + items) || (node == anchor && items == []))
    }

    /** list_del_init, of a node of this list or of another ring, or of the anchor of an empty list. */
    method Detach(node: Node, ghost ring: seq<Node>)
      requires Ring() && Removable(node, ring)
      modifies this`items, anchor, Nodes(items), Nodes(ring)
      ensures Ring() && IsRing([node]) && node !in items && items == Without(old(items), node)
      ensures Nodes([anchor] + items) <= {anchor} + old(Nodes(items))
      ensures |items| == if node in old(items) then |old(items)| - 1 else |old(items)|
      ensures node !in old(items) && |ring| > 1 ==> IsRing(ring[1..])
    {
      hide IsRing, Distinct, Without, Rotated;
      RingFacts(anchor, items);
      ghost var k, own := 0, ring;
      if node in items {
        k :| 0 <= k < |items| && items[k] == node;
        own := Rotated([anchor] + items, k + 1);
        RingRotates([anchor] + items, k + 1);
        RotatedFirst(anchor, items, k);
      } else {
        RestOfRing(ring);
      }
      DelInit(node, own);
      if node in items {
        TurnedBack(anchor, items, k, own);
        WithoutAt(items, k);
      } else {
        WithoutNone(items, node);
        assert items == [] ==> [anchor] + items == [anchor];
      }
      WithoutIs(items, node);
      items := Without(items, node);
    }

    /** list_header_add_to_head. A node that is linked elsewhere is taken out there first, without
        that list's header knowing; one that is already in this list moves, but is counted again. */
    method AddToHead(node: Node, ghost ring: seq<Node>)
      requires Ring() && node != anchor && Removable(node, ring)
      modifies this, anchor, Nodes(items), Nodes(ring)
      ensures Ring() && items == [node] + Without(old(items), node) && count == old(count) + 1
      ensures old(Valid()) ==> (Valid() <==> node !in old(items))
      ensures node !in old(items) && |ring| > 1 ==> IsRing(ring[1..])
    {
      hide IsRing, Distinct, Without;
      RestOfRing(ring);
      NodesOf(anchor, items);
      Detach(node, ring);
      assert node !in old(items) ==> Nodes(ring[1..]) !! Nodes([anchor] + items) + {node};
      LinkNext(anchor, node, [anchor] + items);
      assert [anchor, node] + ([anchor] + items)[1..] == [anchor] + ([node] + items);
      items := [node] + items;
      count := count + 1;
    }

    method AddToTail(node: Node, ghost ring: seq<Node>)
      requires Ring() && node != anchor && Removable(node, ring)
      modifies this, anchor, Nodes(items), Nodes(ring)
      ensures Ring() && items == Without(old(items), node) + [node] && count == old(count) + 1
      ensures old(Valid()) ==> (Valid() <==> node !in old(items))
      ensures node !in old(items) && |ring| > 1 ==> IsRing(ring[1..])
    {
      hide IsRing, Distinct, Without;
      RestOfRing(ring);
      NodesOf(anchor, items);
      Detach(node, ring);
      assert node !in old(items) ==> Nodes(ring[1..]) !! Nodes([anchor] + items) + {node};
      LinkPrev(anchor, node, [anchor] + items);
      assert [anchor] + items + [node] == [anchor] + (items + [node]);
      items := items + [node];
      count := count + 1;
    }

    /** list_header_contains. */
    method Contains(node: Node) returns (found: bool)
      requires Ring()
      ensures found == (count > 0 && node in items)
    {
      if count > 0 {
        hide IsRing, Distinct;
        RingFacts(anchor, items);
        var next := anchor.next;
        ghost var k := 0;
        while next != anchor
          invariant 0 <= k <= |items| && next == if k == |items| then anchor else items[k]
          invariant node !in items[..k]
          decreases |items| - k
        {
          if next == node {
            return true;
          }
          next := next.next;
          k := k + 1;
        }
      }
      return false;
    }

    /** list_header_remove_head. If the count says there is a node when there is none, it is the
        anchor that comes back. */
    method RemoveHead() returns (node: Node?)
      requires Ring()
      modifies this, anchor, Nodes(items)
      ensures Ring() && (old(Valid()) ==> Valid())
      ensures if old(count) == 0 then node == null && items == old(items) && count == 0
              else && count == old(count) - 1
                   && (if old(items) == [] then node == anchor && items == []
                       else node == old(items[0]) && items == old(items[1..]))
                   && IsRing([node])
    {
      hide IsRing, Distinct, Without;
      if count > 0 {
        RingFacts(anchor, items);
        node := anchor.next;
        ghost var ring := RingFrom(anchor, items, 0);
        Detach(node, ring);
        count := count - 1;
        return;
      }
      return null;
    }

    /** list_header_remove_tail, likewise. */
    method RemoveTail() returns (node: Node?)
      requires Ring()
      modifies this, anchor, Nodes(items)
      ensures Ring() && (old(Valid()) ==> Valid())
      ensures if old(count) == 0 then node == null && items == old(items) && count == 0
              else && count == old(count) - 1
                   && (if old(items) == [] then node == anchor && items == []
                       else node == old(items[|items| - 1]) && items == old(items[..|items| - 1]))
                   && IsRing([node])
    {
      hide IsRing, Distinct, Without;
      if count > 0 {
        RingFacts(anchor, items);
        node := anchor.prev;
        ghost var ring := RingFrom(anchor, items, Max(|items| - 1, 0));
        Detach(node, ring);
        count := count - 1;
        return;
      }
      return null;
    }

    /** list_header_delete_node. */
    method DeleteNode(node: Node) returns (r: Node?)
      requires Ring()
      modifies this, anchor, Nodes(items)
      ensures Ring() && (old(Valid()) ==> Valid())
      ensures if old(count) > 0 && node in old(items)
              then r == node && IsRing([node]) && items == Without(old(items), node) && count == old(count) - 1
              else r == null && items == old(items) && count == old(count)
    {
      hide IsRing, Distinct, Without;
      RingFacts(anchor, items);
      var found := Contains(node);
      if found {
        ghost var k :| 0 <= k < |items| && items[k] == node;
        ghost var ring := RingFrom(anchor, items, k);
        Detach(node, ring);
        count := count - 1;
        return node;
      }
      return null;
    }
  }

  /** The ring read from item k on, or from the anchor when there are no items. */
  lemma RingFrom(anchor: Node, items: seq<Node>, k: nat) returns (ring: seq<Node>)
    requires IsRing([anchor] + items) && (k < |items| || items == [])
    ensures IsRing(ring) && Nodes(ring) <= {anchor} + Nodes(items)
    ensures ring[0] == (if items == [] then anchor else items[k])
    ensures Without(items, ring[0]) == if items == [] then [] else items[..k] + items[k + 1..]
  {
    hide IsRing, Without, Rotated;
    RingFacts(anchor, items);
    NodesOf(anchor, items);
    if items == [] {
      assert [anchor] + items == [anchor];
      WithoutNone(items, anchor);
      ring := [anchor];
    } else {
      RingRotates([anchor] + items, k + 1);
      RotatedFirst(anchor, items, k);
      WithoutAt(items, k);
      ring := Rotated([anchor] + items, k + 1);
    }
  }

  lemma NodesOf(anchor: Node, items: seq<Node>)
    ensures Nodes([anchor] + items) == {anchor} + Nodes(items)
  {
  }

  /** The rest of a ring is nowhere its first node is. */
  lemma RestOfRing(ring: seq<Node>)
    requires IsRing(ring)
    ensures |ring| > 0 && ring[0] in Nodes(ring)
    ensures ring[0] !in Nodes(ring[1..]) && Nodes(ring[1..]) <= Nodes(ring)
  {
  }

  /** How the items of a ring hang together. */
  lemma RingFacts(anchor: Node, items: seq<Node>)
    requires IsRing([anchor] + items)
    ensures Distinct(items) && anchor !in items
    ensures anchor.next == if items == [] then anchor else items[0]
    ensures anchor.prev == if items == [] then anchor else items[|items| - 1]
    ensures forall i :: 0 <= i < |items| ==> items[i].next == if i == |items| - 1 then anchor else items[i + 1]
  {
    var full := [anchor] + items;
    assert forall i :: 0 <= i < |items| ==> items[i] == full[i + 1];
    forall i, j | 0 <= i < j < |items|
      ensures items[i] != items[j]
    {
      assert full[i + 1] != full[j + 1];
    }
    if items != [] {
      assert Linked(full[0], full[0 + 1]);
    }
    forall i | 0 <= i < |items|
      ensures items[i].next == if i == |items| - 1 then anchor else items[i + 1]
    {
      if i < |items| - 1 {
        assert Linked(full[i + 1], full[i + 1 + 1]);
      }
    }
  }

  lemma RotatedFirst(anchor: Node, items: seq<Node>, k: nat)
    requires k < |items|
    ensures var ring := Rotated([anchor] + items, k + 1);
            |ring| > 1 && ring[0] == items[k] && Nodes(ring) <= {anchor} + Nodes(items)
  {
  }

  lemma {:induction false} WithoutIs(s: seq<Node>, x: Node)
    requires Distinct(s)
    ensures x !in Without(s, x) && |Without(s, x)| == (if x in s then |s| - 1 else |s|)
    ensures forall y :: y in Without(s, x) ==> y in s
  {
    if s != [] {
      assert Distinct(s[1..]);
      WithoutIs(s[1..], x);
    }
  }

  lemma TurnedBack(anchor: Node, items: seq<Node>, k: nat, ring: seq<Node>)
    requires k < |items| && ring == Rotated([anchor] + items, k + 1) && IsRing(ring[1..])
    ensures IsRing([anchor] + (items[..k] + items[k + 1..]))
  {
    var full, rest := [anchor] + items, ring[1..];
    assert rest == full[k + 2..] + full[..k + 1];
    RingRotates(rest, |items| - k - 1);
    assert Rotated(rest, |items| - k - 1) == full[..k + 1] + full[k + 2..] == [anchor] + (items[..k] + items[k + 1..]);
  }
}
