/** Singly linked chains of integers: the bucket representation of the hash
    table (the `LinkedList` of hashtable.c). A chain owns its nodes; the ghost
    fields give its abstract value (the stored integers, head to tail), the
    nodes in the same order, and the set of objects it uses. */
module Chains {

  /** The sequence `s` with its first occurrence of `x` removed, or `s`
      itself when `x` does not occur: what deleting from a chain means. */
  function RemoveFirst(s: seq<int>, x: int): (r: seq<int>)
    ensures |r| == if x in s then |s| - 1 else |s|
  {
    if s == [] then []
    else if s[0] == x then s[1..]
    else [s[0]] + RemoveFirst(s[1..], x)
  }

  /** When the first `x` of `s` sits at index `i`, removing it keeps every
      other entry in its original order. */
  lemma {:induction false} RemoveFirstAt(s: seq<int>, x: int, i: nat)
    requires i < |s| && s[i] == x && x !in s[..i]
    ensures RemoveFirst(s, x) == s[..i] + s[i + 1..]
  {
    if i > 0 {
      assert s[0] in s[..i];
      assert s[1..][..i - 1] == s[1..i];
      RemoveFirstAt(s[1..], x, i - 1);
      assert s[1..][i..] == s[i + 1..];
    }
  }

  /** Removing a value that does not occur changes nothing. */
  lemma {:induction false} RemoveFirstAbsent(s: seq<int>, x: int)
    requires x !in s
    ensures RemoveFirst(s, x) == s
  {
    if s != [] {
      assert x !in s[1..] by { assert forall y :: y in s[1..] ==> y in s; }
      RemoveFirstAbsent(s[1..], x);
    }
  }

  /** Removing never introduces a value. */
  lemma {:induction false} RemoveFirstSubset(s: seq<int>, x: int)
    ensures forall y :: y in RemoveFirst(s, x) ==> y in s
  {
    if s != [] && s[0] != x {
      RemoveFirstSubset(s[1..], x);
    }
  }

  /** Viewed as a multiset, removing the first `x` takes away exactly one
      copy of `x` (none if there is none). */
  lemma {:induction false} RemoveFirstMultiset(s: seq<int>, x: int)
    ensures multiset(RemoveFirst(s, x)) == multiset(s) - multiset{x}
  {
    if s != [] {
      assert s == [s[0]] + s[1..];
      if s[0] != x {
        RemoveFirstMultiset(s[1..], x);
      }
    }
  }

  /** A chain entry: one integer and the link to the next entry. The ghost
      `owner` is the chain the node was created for; it never changes, which
      keeps the nodes of different chains apart. */
  class Node {
    const data: int
    var next: Node?
    ghost const owner: Chain

    constructor (data: int, next: Node?, ghost owner: Chain)
      ensures this.data == data && this.next == next && this.owner == owner
    {
      this.data := data;
      this.next := next;
      this.owner := owner;
    }
  }

  class Chain {
    var head: Node?

    ghost var Contents: seq<int>   // the stored values, head to tail
    ghost var Nodes: seq<Node>     // the nodes holding them, in the same order
    ghost var Footprint: set<Node> // every node this chain owns

    /** The nodes reachable from `head` are exactly `Nodes`, pairwise distinct
        (so the chain is finite and acyclic), owned by this chain, and they
        hold `Contents`. */
    ghost predicate Valid()
      reads this, Footprint
    {
      (forall n :: n in Footprint ==> n.owner == this) &&
      (forall i :: 0 <= i < |Nodes| ==> Nodes[i] in Footprint) &&
      |Nodes| == |Contents| &&
      (forall i, j :: 0 <= i < j < |Nodes| ==> Nodes[i] != Nodes[j]) &&
      head == (if Nodes == [] then null else Nodes[0]) &&
      (forall i :: 0 <= i < |Nodes| ==> Nodes[i].data == Contents[i]) &&
      (forall i :: 0 <= i < |Nodes| - 1 ==> Nodes[i].next == Nodes[i + 1]) &&
      (Nodes != [] ==> Nodes[|Nodes| - 1].next == null)
    }

    /** The link out of the node at index `k`. */
    lemma NextLink(k: nat)
      requires Valid() && k < |Nodes|
      ensures Nodes[k].next == if k + 1 < |Nodes| then Nodes[k + 1] else null
    {
    }

    /** Two distinct valid chains share no node. */
    lemma Disjoint(other: Chain)
      requires Valid() && other.Valid() && other != this
      ensures Footprint !! other.Footprint
    {
    }

    /** LinkedList_create: an empty chain. */
    constructor ()
      ensures Valid() && Footprint == {}
      ensures Contents == []
    {
      head := null;
      Contents := [];
      Nodes := [];
      Footprint := {};
    }

    /** LinkedList_is_empty. */
    function IsEmpty(): (r: bool)
      requires Valid()
      reads this, Footprint
      ensures r <==> Contents == []
    {
      head == null
    }

    /** LinkedList_mem: scans from the head, stopping at the first match. */
    method Mem(x: int) returns (found: bool)
      requires Valid()
      ensures found <==> x in Contents
    {
      if IsEmpty() {
        return false;
      }
      var n: Node := head;
      ghost var i := 0;
      while n.next != null
        invariant 0 <= i < |Nodes| && n == Nodes[i]
        invariant x !in Contents[..i]
        decreases |Nodes| - i
      {
        if n.data == x {
          return true;
        }
        assert Contents[..i + 1] == Contents[..i] + [Contents[i]];
        n := n.next;
        i := i + 1;
      }
      NextLink(i);
      assert Contents == Contents[..i] + [Contents[i]];
      found := n.data == x;
    }

    /** LinkedList_push: a new node becomes the head. */
    method Push(x: int)
      requires Valid()
      modifies this
      ensures Valid() && fresh(Footprint - old(Footprint))
      ensures Contents == [x] + old(Contents)
    {
      var n := new Node(x, head, this);
      head := n;
      Nodes := [n] + Nodes;
      Contents := [x] + Contents;
      Footprint := Footprint + {n};
    }

    /** LinkedList_pop: the source asserts the chain is non-empty. */
    method Pop() returns (v: int)
      requires Valid() && Contents != []
      modifies this
      ensures Valid() && Footprint == old(Footprint)
      ensures v == old(Contents)[0] && Contents == old(Contents)[1..]
    {
      var first := head;
      v := first.data;
      head := first.next;
      Nodes := Nodes[1..];
      Contents := Contents[1..];
    }

    /** Bypasses the node `n` at index `i > 0` by redirecting its
        predecessor `prev` to its successor. */
    method UnlinkAfter(prev: Node, n: Node, ghost i: nat)
      requires Valid() && 0 < i < |Nodes| && prev == Nodes[i - 1] && n == Nodes[i]
      modifies this, prev
      ensures Valid() && Footprint == old(Footprint) && head == old(head)
      ensures Nodes == old(Nodes[..i] + Nodes[i + 1..])
      ensures Contents == old(Contents[..i] + Contents[i + 1..])
    {
      NextLink(i);
      prev.next := n.next;
      Nodes := Nodes[..i] + Nodes[i + 1..];
      Contents := Contents[..i] + Contents[i + 1..];
    }

    /** LinkedList_delete: unlinks the first node holding `x`, with separate
        paths for the empty chain, a single node, a match at the head, a match
        in the middle and a match at the tail. */
    method Delete(x: int)
      requires Valid()
      modifies this, Footprint
      ensures Valid() && Footprint == old(Footprint)
      ensures Contents == RemoveFirst(old(Contents), x)
    {
      if IsEmpty() {
        return;
      }
      var n: Node := head;
      if n.next == null {
        NextLink(0);
        assert Contents == [n.data];
        if n.data == x {
          head := null;
          Nodes, Contents := [], [];
        } else {
          RemoveFirstAbsent(Contents, x);
        }
        return;
      }
      var prev: Node := head;
      n := n.next;
      if prev.data == x {
        head := n;
        Nodes, Contents := Nodes[1..], Contents[1..];
        return;
      }
      ghost var i := 1;
      while n.next != null
        invariant Valid() && Footprint == old(Footprint)
        invariant Nodes == old(Nodes) && Contents == old(Contents) && head == old(head)
        invariant 1 <= i < |Nodes| && n == Nodes[i] && prev == Nodes[i - 1]
        invariant x !in Contents[..i]
        decreases |Nodes| - i
      {
        if n.data == x {
          RemoveFirstAt(Contents, x, i);
          UnlinkAfter(prev, n, i);
          return;
        }
        assert Contents[..i + 1] == Contents[..i] + [Contents[i]];
        n := n.next;
        prev := prev.next;
        i := i + 1;
      }
      NextLink(i);
      if n.data == x {
        // n is the last node, so its successor is null
        RemoveFirstAt(Contents, x, i);
        UnlinkAfter(prev, n, i);
      } else {
        assert Contents == Contents[..i] + [Contents[i]];
        RemoveFirstAbsent(Contents, x);
      }
    }
  }
}
