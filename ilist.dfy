/**
 * Model of br::ilist, the intrusive doubly-linked list of src/include/ilist.h.
 *
 * Every element embeds its own link (a Node): the neighbours `prev`/`next` and a
 * back-reference `owner` to the list it is linked into. The list owns two sentinel
 * nodes, `head` and `tail`, and a counter `entries`. The ghost sequence `Members`
 * is the list's abstract value: the linked elements from head to tail.
 *
 * The lock policy (MUTEX_LOCK) is left out: every operation is sequential code.
 */
module IntrusiveList {

  /** Position of the first occurrence of `x` in `s`. */
  function IndexOf<T(==)>(s: seq<T>, x: T): (k: nat)
    requires x in s
    ensures k < |s| && s[k] == x
    ensures forall j :: 0 <= j < k ==> s[j] != x
  {
    if s[0] == x then 0 else 1 + IndexOf(s[1..], x)
  }

  /** No element of `s` occurs twice. */
  ghost predicate Distinct<T>(s: seq<T>) {
    forall i, j :: 0 <= i < j < |s| ==> s[i] != s[j]
  }

  /** `s` with `x` inserted so that it ends up at position `k`. */
  function InsertAt<T>(s: seq<T>, k: nat, x: T): (r: seq<T>)
    requires k <= |s|
  {
    s[..k] + [x] + s[k..]
  }

  /** `s` without its element at position `k`; the others keep their order. */
  function RemoveAt<T>(s: seq<T>, k: nat): (r: seq<T>)
    requires k < |s|
  {
    s[..k] + s[k + 1..]
  }

  /** The first position of `x` in `s` is also its first position in `s + t`. */
  lemma {:induction false} IndexOfPrefix<T>(s: seq<T>, t: seq<T>, x: T)
    requires x in s
    ensures x in s + t && IndexOf(s + t, x) == IndexOf(s, x)
  {
    if s[0] != x {
      assert (s + t)[1..] == s[1..] + t;
      IndexOfPrefix(s[1..], t, x);
    }
  }

  /** Inserting into the members of a ring inserts into the ring one place later. */
  lemma InsertIntoRing<T>(h: T, m: seq<T>, t: T, k: nat, x: T)
    requires k <= |m|
    ensures [h] + InsertAt(m, k, x) + [t] == ([h] + m + [t])[..k + 1] + [x] + ([h] + m + [t])[k + 1..]
  {
    assert ([h] + m + [t])[..k + 1] == [h] + m[..k];
    assert ([h] + m + [t])[k + 1..] == m[k..] + [t];
  }

  /** Removing from the members of a ring removes from the ring one place later. */
  lemma RemoveFromRing<T>(h: T, m: seq<T>, t: T, k: nat)
    requires k < |m|
    ensures [h] + RemoveAt(m, k) + [t] == ([h] + m + [t])[..k + 1] + ([h] + m + [t])[k + 2..]
  {
    assert ([h] + m + [t])[..k + 1] == [h] + m[..k];
    assert ([h] + m + [t])[k + 2..] == m[k + 1..] + [t];
  }

  /**
   * ilist::node. Dafny classes have no inheritance here, so the `n_loops_`
   * counter that basic_expirable (src/include/timer_wheel.h) adds to the node
   * is the field `loops`; no list operation reads or writes it.
   */
  class Node {
    var prev: Node?
    var next: Node?
    var owner: IList?
    var loops: nat

    constructor ()
      ensures prev == null && next == null && owner == null && loops == 0
    {
      prev, next, owner, loops := null, null, null, 0;
    }

    /** The nodes whose links a call through this node's owner may rewire. */
    ghost function Span(node: Node): set<Node>
      reads this, owner
    {
      if owner == null then {} else owner.Nodes() + {node}
    }

    /** node::link_node_before: link `node` just before this node, in this node's list. */
    method LinkBefore(node: Node) returns (r: Node?)
      requires owner != null ==> owner.Valid() && this in owner.Members + [owner.tail]
      modifies owner, Span(node)`prev, Span(node)`next, Span(node)`owner
      ensures owner == old(owner)
      ensures old(owner) == null ==> r == null
      ensures old(owner) != null && old(node.owner) != null ==>
                r == null && owner.Valid() && owner.Members == old(owner.Members) && unchanged(node)
      ensures old(owner) != null && old(node.owner) == null ==>
                && r == node && owner.Valid() && node.owner == owner
                && node.next == this && prev == node
                && owner.Members == InsertAt(old(owner.Members), IndexOf(old(owner.Members) + [owner.tail], this), node)
    {
      if owner == null {
        return null;
      }
      r := owner.LinkNodeBefore(this, node);
    }

    /** node::link_node_after: link `node` just after this node, in this node's list. */
    method LinkAfter(node: Node) returns (r: Node?)
      requires owner != null ==> owner.Valid() && this in [owner.head] + owner.Members
      modifies owner, Span(node)`prev, Span(node)`next, Span(node)`owner
      ensures owner == old(owner)
      ensures old(owner) == null ==> r == null
      ensures old(owner) != null && old(node.owner) != null ==>
                r == null && owner.Valid() && owner.Members == old(owner.Members) && unchanged(node)
      ensures old(owner) != null && old(node.owner) == null ==>
                && r == node && owner.Valid() && node.owner == owner
                && node.prev == this && next == node
                && owner.Members == InsertAt(old(owner.Members), IndexOf([owner.head] + old(owner.Members), this), node)
    {
      if owner == null {
        return null;
      }
      r := owner.LinkNodeAfter(this, node);
    }

    /**
     * node::unlink, also what the node's destructor does: leave whatever list the
     * node is in. On a node that is in no list it does nothing.
     */
    method Unlink()
      requires owner != null ==> owner.Valid() && this in owner.Members
      modifies owner, Span(this)`prev, Span(this)`next, Span(this)`owner
      ensures owner == null
      ensures old(owner) == null ==> unchanged(this)
      ensures old(owner) != null ==>
                && old(owner).Valid() && prev == null && next == null
                && old(owner).Members == RemoveAt(old(owner.Members), IndexOf(old(owner.Members), this))
    {
      if owner != null {
        owner.UnlinkNode(this);
      }
    }
  }

  /** br::ilist. */
  class IList {
    var entries: nat
    const head: Node
    const tail: Node
    ghost var Members: seq<Node>

    /** The whole ring: the sentinels around the members. */
    ghost function Chain(): seq<Node>
      reads this`Members
    {
      [head] + Members + [tail]
    }

    ghost function Nodes(): set<Node>
      reads this`Members
    {
      {head, tail} + set n | n in Members
    }

    /**
     * The list invariant: the chain from `head` to `tail` is linked consistently
     * in both directions and has no repeated node, every node on it is owned by
     * this list, and the counter is the number of members.
     */
    ghost predicate Valid()
      reads this, Nodes()`prev, Nodes()`next, Nodes()`owner
    {
      && Distinct(Chain())
      && head.prev == null && tail.next == null
      && (forall i, j :: 0 <= i && j == i + 1 && j < |Chain()| ==> Chain()[i].next == Chain()[j] && Chain()[j].prev == Chain()[i])
      && head.owner == this && tail.owner == this
      && (forall i :: 0 <= i < |Members| ==> Members[i].owner == this)
      && entries == |Members|
    }

    /** ilist::ilist: an empty ring of the two sentinels, both owned by this list. */
    constructor ()
      ensures Valid() && fresh(Nodes()) && Members == []
      ensures head.next == tail && tail.prev == head && head.owner == this && tail.owner == this
    {
      entries := 0;
      head := new Node();
      tail := new Node();
      Members := [];
      new;
      head.next := tail;
      tail.prev := head;
      head.owner := this;
      tail.owner := this;
    }

    /** ilist::front: the node after `head`; on an empty list that is the `tail` sentinel. */
    function Front(): (r: Node)
      reads this, Nodes()`prev, Nodes()`next, Nodes()`owner
      requires Valid()
      ensures Members != [] ==> r == Members[0]
      ensures Members == [] ==> r == tail
    {
      assert Chain()[0].next == Chain()[1];
      head.next
    }

    /** ilist::back: the node before `tail`; on an empty list that is the `head` sentinel. */
    function Back(): (r: Node)
      reads this, Nodes()`prev, Nodes()`next, Nodes()`owner
      requires Valid()
      ensures Members != [] ==> r == Members[|Members| - 1]
      ensures Members == [] ==> r == head
    {
      assert Chain()[|Chain()| - 2].next == Chain()[|Chain()| - 1];
      tail.prev
    }

    /** ilist::size: the counter, which the invariant ties to the number of members. */
    function Size(): (r: nat)
      reads this, Nodes()`prev, Nodes()`next, Nodes()`owner
      requires Valid()
      ensures r == |Members|
    {
      entries
    }

    /** ilist::empty. */
    function Empty(): (r: bool)
      reads this, Nodes()`prev, Nodes()`next, Nodes()`owner
      requires Valid()
      ensures r <==> Members == []
    {
      entries == 0
    }

    /** Facts about the ring that follow from the invariant. */
    lemma ChainFacts()
      requires Valid()
      ensures |Chain()| == |Members| + 2 && Chain()[0] == head && Chain()[|Members| + 1] == tail
      ensures forall i :: 0 <= i < |Members| ==> Chain()[i + 1] == Members[i]
      ensures head != tail && head !in Members && tail !in Members
      ensures head.next == Chain()[1] && tail.prev == Chain()[|Members|]
    {
      assert Chain()[0] == head && Chain()[|Members| + 1] == tail;
      assert Chain()[0].next == Chain()[1] && Chain()[|Members|].next == Chain()[|Members| + 1];
      forall i | 0 <= i < |Members|
        ensures Members[i] != head && Members[i] != tail
      {
        assert Members[i] == Chain()[i + 1];
      }
    }

    /** The first node after `head` is the first member, or `tail`; the sentinels are not members. */
    lemma Ends()
      requires Valid()
      ensures head.next == (Members + [tail])[0] && head !in Members && tail !in Members
    {
      ChainFacts();
      assert Chain()[1] == (Members + [tail])[0];
    }

    /** The member at position `k` is followed by the next member, or by `tail`; it occurs only there. */
    lemma Successor(k: nat)
      requires Valid() && k < |Members|
      ensures Members[k].next == (Members + [tail])[k + 1] && IndexOf(Members, Members[k]) == k
      ensures tail !in Members
      ensures forall i :: 0 <= i < |Members| && i != k ==> Members[i] != Members[k]
    {
      var c := Chain();
      assert c[k + 1] == Members[k] && c[k + 2] == (Members + [tail])[k + 1];
      assert c[k + 1].next == c[k + 2];
      var i := IndexOf(Members, Members[k]);
      assert c[i + 1] == c[k + 1];
      forall i | 0 <= i < |Members| && i != k
        ensures Members[i] != Members[k]
      {
        assert c[i + 1] == Members[i];
      }
      forall j | 0 <= j < |Members|
        ensures Members[j] != tail
      {
        assert c[j + 1] == Members[j] && c[|Members| + 1] == tail;
      }
    }

    /**
     * Every node of the ring is owned by this list, so a node owned by no list,
     * or by another one, is not on it.
     */
    lemma NotOwnedNotLinked(n: Node)
      requires Valid() && n.owner != this
      ensures n !in Chain() && n !in Nodes()
    {
      forall i | 0 <= i < |Chain()|
        ensures Chain()[i].owner == this
      {
        if 0 < i < |Chain()| - 1 {
          assert Chain()[i] == Members[i - 1];
        }
      }
    }

    /**
     * Forward iteration, begin() to end(): start at `head.next`, step with
     * `next` (iterator::operator++), stop at `tail`.
     */
    method Walk() returns (visited: seq<Node>)
      requires Valid()
      ensures visited == Members
    {
      ChainFacts();
      visited := [];
      var it := head.next;
      while it != tail
        invariant |visited| <= |Members| && visited == Members[..|visited|]
        invariant it == Chain()[|visited| + 1]
        decreases |Members| - |visited|
      {
        assert Chain()[|visited| + 1].next == Chain()[|visited| + 1 + 1];
        visited := visited + [it];
        it := it.next;
      }
      assert Chain()[|visited| + 1] == Chain()[|Members| + 1];
    }

    /** ilist::push_front: head_.link_node_after(node). */
    method PushFront(node: Node)
      requires Valid()
      modifies this, Nodes()`prev, Nodes()`next, Nodes()`owner, node`prev, node`next, node`owner
      ensures Valid()
      ensures old(node.owner) == null ==> Members == [node] + old(Members) && node.owner == this
      ensures old(node.owner) != null ==> Members == old(Members) && unchanged(node)
    {
      var _ := head.LinkAfter(node);
    }

    /** ilist::push_back: tail_.link_node_before(node). */
    method PushBack(node: Node)
      requires Valid()
      modifies this, Nodes()`prev, Nodes()`next, Nodes()`owner, node`prev, node`next, node`owner
      ensures Valid()
      ensures old(node.owner) == null ==> Members == old(Members) + [node] && node.owner == this
      ensures old(node.owner) != null ==> Members == old(Members) && unchanged(node)
    {
      ChainFacts();
      assert IndexOf(Members + [tail], tail) == |Members|;
      var _ := tail.LinkBefore(node);
    }

    /** ilist::pop_front: unlink and return the first member, or null on an empty list. */
    method PopFront() returns (r: Node?)
      requires Valid()
      modifies this, Nodes()`prev, Nodes()`next, Nodes()`owner
      ensures Valid()
      ensures old(Members) == [] ==> r == null && Members == []
      ensures old(Members) != [] ==>
                && r == old(Members[0]) && Members == old(Members[1..])
                && r.owner == null && r.prev == null && r.next == null
    {
      ChainFacts();
      if head.next == tail {
        return null;
      }
      var node := head.next;
      assert IndexOf(Members, node) == 0;
      UnlinkNode(node);
      r := node;
    }

    /** ilist::pop_back: unlink and return the last member, or null on an empty list. */
    method PopBack() returns (r: Node?)
      requires Valid()
      modifies this, Nodes()`prev, Nodes()`next, Nodes()`owner
      ensures Valid()
      ensures old(Members) == [] ==> r == null && Members == []
      ensures old(Members) != [] ==>
                && r == old(Members[|Members| - 1]) && Members == old(Members[..|Members| - 1])
                && r.owner == null && r.prev == null && r.next == null
    {
      ChainFacts();
      if tail.prev == head {
        return null;
      }
      var node := tail.prev;
      ghost var k := IndexOf(Members, node);
      assert k == |Members| - 1 by {
        assert Distinct(Chain());
        assert Chain()[k + 1] == Chain()[|Members|];
      }
      UnlinkNode(node);
      r := node;
    }

    /**
     * ilist::clear: walk the chain nulling every member's owner, then close the
     * ring. The former members keep their stale `prev`/`next`.
     */
    method Clear()
      requires Valid()
      modifies this, Nodes()`prev, Nodes()`next, Nodes()`owner
      ensures Valid() && Members == []
      ensures forall n :: n in old(Members) ==> n.owner == null && n.prev == old(n.prev) && n.next == old(n.next)
    {
      ChainFacts();
      ghost var c := Chain();
      var node := head.next;
      ghost var i := 0;
      while node != tail
        modifies Nodes()`owner
        invariant i <= |Members| && node == c[i + 1]
        invariant forall j :: 0 <= j < |Members| ==> Members[j].owner == if j < i then null else this
        invariant head.owner == this && tail.owner == this && head.prev == null && tail.next == null
        decreases |Members| - i
      {
        assert c[i + 1] == Members[i];
        assert old(c[i + 1].next) == c[i + 2];
        node.owner := null;
        node := node.next;
        i := i + 1;
      }
      assert c[i + 1] == c[|Members| + 1];
      ghost var m := Members;
      forall n | n in m
        ensures n.owner == null && n != head && n != tail
      {
        var j := IndexOf(m, n);
      }
      entries := 0;
      head.next := tail;
      tail.prev := head;
      Members := [];
      assert Chain() == [head, tail];
    }

    /**
     * ilist::unlink_node / non_locking_unlink_node: splice `node` out of the
     * chain, decrement the counter and null the node's three links.
     */
    method UnlinkNode(node: Node)
      requires Valid() && node in Members
      modifies this, Nodes()`prev, Nodes()`next, Nodes()`owner
      ensures Valid()
      ensures Members == RemoveAt(old(Members), IndexOf(old(Members), node))
      ensures node.owner == null && node.prev == null && node.next == null
    {
      ghost var c := Chain();
      ghost var k := IndexOf(Members, node);
      ghost var a, b := c[k], c[k + 2];
      ChainOwned();
      assert c[k + 1] == node;
      assert a.next == node && node.prev == a;
      assert node.next == b && b.prev == node;
      if node.prev != null {
        node.prev.next := node.next;
      }
      if node.next != null {
        node.next.prev := node.prev;
      }
      entries := entries - 1;
      node.owner := null;
      node.prev := null;
      node.next := null;
      Members := RemoveAt(Members, k);
      forall i, j | 0 <= i && j == i + 1 && j < |c| && i != k && i != k + 1
        ensures c[i].next == c[j] && c[j].prev == c[i]
      {
        assert old(c[i].next) == c[j] && old(c[j].prev) == c[i];
      }
      forall i | 0 <= i < |c| && i != k + 1
        ensures c[i].owner == this
      {
        assert old(c[i].owner) == this;
      }
      RemovedChain(c, old(Members), k);
    }

    /** Every node of a valid ring, sentinels included, belongs to this list. */
    lemma ChainOwned()
      requires Valid()
      ensures forall i :: 0 <= i < |Chain()| ==> Chain()[i].owner == this
    {
      forall i | 0 <= i < |Chain()|
        ensures Chain()[i].owner == this
      {
        if 0 < i < |Chain()| - 1 {
          assert Chain()[i] == Members[i - 1];
        }
      }
    }

    /** Every node of a valid list, sentinels included, is owned by it. */
    lemma NodesOwned()
      requires Valid()
      ensures forall n :: n in Nodes() ==> n.owner == this
    {
      forall n | n in Nodes()
        ensures n.owner == this
      {
        if n in Members {
          var i := IndexOf(Members, n);
        }
      }
    }

    /** ilist::link_node_before: link the free `node` just before `current`. */
    method LinkNodeBefore(current: Node, node: Node) returns (r: Node?)
      requires Valid() && current in Members + [tail]
      modifies this, Nodes()`prev, Nodes()`next, Nodes()`owner, node`prev, node`next, node`owner
      ensures Valid()
      ensures old(node.owner) != null ==>
                r == null && Members == old(Members) && unchanged(this, node) && unchanged(Nodes())
      ensures old(node.owner) == null ==>
                && r == node && node.owner == this && current.owner == this
                && node.next == current && current.prev == node
                && Members == InsertAt(old(Members), IndexOf(old(Members) + [tail], current), node)
    {
      if node.owner != null {
        return null;
      }
      ghost var c := Chain();
      ghost var k := IndexOf(Members + [tail], current);
      ghost var m := InsertAt(Members, k, node);
      ghost var a := c[k];
      assert c[k + 1] == current;
      assert a.next == current && current.prev == a;
      ChainOwned();
      assert node !in c;
      node.owner := current.owner;
      node.next := current;
      node.prev := current.prev;
      entries := entries + 1;
      current.prev.next := node;
      current.prev := node;
      Members := m;
      forall i | 0 <= i < |c| - 1 && i != k
        ensures c[i].next == c[i + 1]
      {
        assert c[i] != c[k] && c[i] != node;
        assert old(c[i].next) == c[i + 1];
      }
      forall j | 1 <= j < |c| && j != k + 1
        ensures c[j].prev == c[j - 1]
      {
        assert c[j] != c[k + 1] && c[j] != node;
        assert old(c[j].prev) == c[j - 1];
      }
      forall i | 0 <= i < |c|
        ensures c[i].owner == this
      {
        assert c[i] != node;
        assert old(c[i].owner) == this;
      }
      InsertedChain(c, old(Members), k, node);
      r := node;
    }

    /** ilist::link_node_after: link the free `node` just after `current`. */
    method LinkNodeAfter(current: Node, node: Node) returns (r: Node?)
      requires Valid() && current in [head] + Members
      modifies this, Nodes()`prev, Nodes()`next, Nodes()`owner, node`prev, node`next, node`owner
      ensures Valid()
      ensures old(node.owner) != null ==>
                r == null && Members == old(Members) && unchanged(this, node) && unchanged(Nodes())
      ensures old(node.owner) == null ==>
                && r == node && node.owner == this && current.owner == this
                && node.prev == current && current.next == node
                && Members == InsertAt(old(Members), IndexOf([head] + old(Members), current), node)
    {
      if node.owner != null {
        return null;
      }
      ghost var c := Chain();
      IndexOfPrefix([head] + Members, [tail], current);
      ghost var k := IndexOf(c, current);
      ghost var m := InsertAt(Members, k, node);
      ghost var b := c[k + 1];
      assert current.next == b && b.prev == current;
      ChainOwned();
      assert node !in c;
      node.owner := current.owner;
      node.prev := current;
      node.next := current.next;
      entries := entries + 1;
      current.next.prev := node;
      current.next := node;
      Members := m;
      forall i | 0 <= i < |c| - 1 && i != k
        ensures c[i].next == c[i + 1]
      {
        assert c[i] != c[k] && c[i] != node;
        assert old(c[i].next) == c[i + 1];
      }
      forall j | 1 <= j < |c| && j != k + 1
        ensures c[j].prev == c[j - 1]
      {
        assert c[j] != c[k + 1] && c[j] != node;
        assert old(c[j].prev) == c[j - 1];
      }
      forall i | 0 <= i < |c|
        ensures c[i].owner == this
      {
        assert old(c[i].owner) == this;
      }
      InsertedChain(c, old(Members), k, node);
      r := node;
    }

    /**
     * The ring after `node` was spliced in between `c[k]` and `c[k + 1]` of the
     * former ring `c` is valid again, given that every other link of `c` still
     * holds and the new node is owned and linked both ways.
     */
    lemma InsertedChain(c: seq<Node>, m: seq<Node>, k: nat, node: Node)
      requires c == [head] + m + [tail] && k <= |m| && Distinct(c) && node !in c
      requires Members == InsertAt(m, k, node) && entries == |Members|
      requires forall i, j :: 0 <= i && j == i + 1 && j < |c| && i != k ==> c[i].next == c[j] && c[j].prev == c[i]
      requires c[k].next == node && node.prev == c[k] && node.next == c[k + 1] && c[k + 1].prev == node
      requires head.prev == null && tail.next == null
      requires forall i :: 0 <= i < |c| ==> c[i].owner == this
      requires node.owner == this
      ensures Valid()
    {
      var c' := Chain();
      InsertIntoRing(head, m, tail, k, node);
      forall i | 0 <= i < |c'|
        ensures c'[i] == if i <= k then c[i] else if i == k + 1 then node else c[i - 1]
      {
      }
      forall i, j | 0 <= i && j == i + 1 && j < |c'|
        ensures c'[i].next == c'[j] && c'[j].prev == c'[i]
      {
        if i > k + 1 {
          assert c'[i] == c[i - 1] && c'[j] == c[j - 1];
        }
      }
      assert Distinct(c');
      forall i | 0 <= i < |Members|
        ensures Members[i].owner == this
      {
        assert Members[i] == c'[i + 1];
      }
      assert c[0] == head && c[|c| - 1] == tail;
    }

    /**
     * The ring after `c[k + 1]` was spliced out of the former ring `c` is valid
     * again, given that every link of `c` not touching the removed node still
     * holds and its two neighbours are linked to each other.
     */
    lemma RemovedChain(c: seq<Node>, m: seq<Node>, k: nat)
      requires c == [head] + m + [tail] && k < |m| && Distinct(c)
      requires Members == RemoveAt(m, k) && entries == |Members|
      requires forall i, j :: 0 <= i && j == i + 1 && j < |c| && i != k && i != k + 1 ==> c[i].next == c[j] && c[j].prev == c[i]
      requires c[k].next == c[k + 2] && c[k + 2].prev == c[k]
      requires head.prev == null && tail.next == null
      requires forall i :: 0 <= i < |c| && i != k + 1 ==> c[i].owner == this
      ensures Valid()
    {
      var c' := Chain();
      RemoveFromRing(head, m, tail, k);
      forall i | 0 <= i < |c'|
        ensures c'[i] == if i <= k then c[i] else c[i + 1]
      {
      }
      forall i, j | 0 <= i && j == i + 1 && j < |c'|
        ensures c'[i].next == c'[j] && c'[j].prev == c'[i]
      {
        if i > k {
          assert c'[i] == c[i + 1] && c'[j] == c[j + 1];
        }
      }
      forall i, j | 0 <= i < j < |c'|
        ensures c'[i] != c'[j]
      {
        var i', j' := if i <= k then i else i + 1, if j <= k then j else j + 1;
        assert c'[i] == c[i'] && c'[j] == c[j'];
      }
      forall i | 0 <= i < |Members|
        ensures Members[i].owner == this
      {
        assert Members[i] == c'[i + 1];
      }
      assert c[0] == head && c[|c| - 1] == tail;
    }
  }
}
