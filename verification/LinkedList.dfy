/**
  The doubly linked list under the node cache, with its pointers rewritten in place, shown to
  refine a sequence.
 */
module LinkedLists {
  class ListNode {
    var next: ListNode?
    var prev: ListNode?
    const element: nat

    constructor (element: nat)
      ensures this.element == element && next == null && prev == null
    {
      this.element := element;
      next, prev := null, null;
    }
  }

  ghost predicate Distinct<T>(s: seq<T>) {
    forall i, j :: 0 <= i < j < |s| ==> s[i] != s[j]
  }

  lemma DistinctConcat(a: seq<ListNode>, A: set<ListNode>, b: seq<ListNode>, B: set<ListNode>)
    requires Distinct(a) && Distinct(b) && A !! B
    requires forall i :: 0 <= i < |a| ==> a[i] in A
    requires forall i :: 0 <= i < |b| ==> b[i] in B
    ensures Distinct(a + b)
  {
  }

  /** `s` without position `k`. */
  function Without<T>(s: seq<T>, k: nat): seq<T>
    requires k < |s|
  {
    s[..k] + s[k + 1..]
  }

  /** The elements of `s` for which `pred` answers `want`, in order. */
  function Filter(s: seq<nat>, pred: nat -> bool, want: bool): seq<nat> {
    if s == [] then []
    else Filter(s[..|s| - 1], pred, want) + (if pred(s[|s| - 1]) == want then [s[|s| - 1]] else [])
  }

  lemma FilterNext(s: seq<nat>, i: nat, pred: nat -> bool, want: bool)
    requires i < |s|
    ensures Filter(s[..i + 1], pred, want) == Filter(s[..i], pred, want) + if pred(s[i]) == want then [s[i]] else []
  {
    assert s[..i + 1][..i] == s[..i];
  }

  lemma NotElsewhere(s: seq<ListNode>, k: nat)
    requires Distinct(s) && k < |s|
    ensures s[k] !in Without(s, k)
  {
  }

  ghost function ElementsOf(nodes: seq<ListNode>): (s: seq<nat>)
    ensures |s| == |nodes|
  {
    seq(|nodes|, i requires 0 <= i < |nodes| => nodes[i].element)
  }

  /** Neighbours in `s` point at each other. */
  ghost predicate Threaded(s: seq<ListNode>)
    reads s
  {
    && (forall i {:trigger s[i].next} :: 0 <= i < |s| - 1 ==> s[i].next == s[i + 1])
    && (forall i {:trigger s[i].prev} :: 1 <= i < |s| ==> s[i].prev == s[i - 1])
  }

  /** Head, tail and length of a list whose nodes are `s`. */
  ghost predicate Chained(head: ListNode?, tail: ListNode?, len: nat, s: seq<ListNode>)
    reads s
  {
    && len == |s|
    && Distinct(s)
    && (s == [] ==> head == null && tail == null)
    && (s != [] ==>
          && head == s[0] && s[0].prev == null
          && tail == s[|s| - 1] && s[|s| - 1].next == null)
    && Threaded(s)
  }

  lemma NoneThreaded()
    ensures Distinct<ListNode>([]) && Threaded([])
  {
  }

  /** How far a draining walk over `was` has come after `i` nodes. */
  ghost predicate Draining(was: seq<ListNode>, i: nat, pred: nat -> bool, kept: seq<ListNode>, drained: seq<nat>) {
    && i <= |was|
    && drained == Filter(ElementsOf(was)[..i], pred, true)
    && ElementsOf(kept) == Filter(ElementsOf(was)[..i], pred, false)
  }

  lemma DrainOne(was: seq<ListNode>, i: nat, pred: nat -> bool, kept: seq<ListNode>, drained: seq<nat>)
    requires i < |was| && Draining(was, i, pred, kept, drained)
    ensures pred(was[i].element) ==> Draining(was, i + 1, pred, kept, drained + [was[i].element])
    ensures !pred(was[i].element) ==> Draining(was, i + 1, pred, kept + [was[i]], drained)
    ensures Without(kept + was[i..], |kept|) == kept + was[i + 1..]
    ensures kept + was[i..] == kept + [was[i]] + was[i + 1..]
  {
    FilterNext(ElementsOf(was), i, pred, true);
    FilterNext(ElementsOf(was), i, pred, false);
    assert ElementsOf(kept + [was[i]]) == ElementsOf(kept) + [was[i].element];
  }

  lemma DrainEnd(was: seq<ListNode>, i: nat, pred: nat -> bool, kept: seq<ListNode>, drained: seq<nat>)
    requires i == |was| && Draining(was, i, pred, kept, drained)
    ensures drained == Filter(ElementsOf(was), pred, true)
    ensures ElementsOf(kept + was[i..]) == Filter(ElementsOf(was), pred, false)
  {
    assert ElementsOf(was)[..i] == ElementsOf(was) && kept + was[i..] == kept;
  }

  class LinkedList {
    var head: ListNode?
    var tail: ListNode?
    var len: nat
    ghost var nodes: seq<ListNode>
    ghost var footprint: set<ListNode>

    /** The pointers spell out the node sequence `s`, forwards and backwards. */
    ghost predicate Spells(s: seq<ListNode>)
      reads this, s
    {
      Chained(head, tail, len, s)
    }

    ghost predicate Valid()
      reads this, footprint
    {
      && (forall i :: 0 <= i < |nodes| ==> nodes[i] in footprint)
      && Spells(nodes)
    }

    ghost function Elements(): seq<nat>
      reads this
    {
      ElementsOf(nodes)
    }

    constructor ()
      ensures Valid() && nodes == [] && footprint == {}
    {
      head, tail, len, nodes, footprint := null, null, 0, [], {};
    }

    method PushFrontNode(node: ListNode)
      requires Valid() && node !in nodes
      modifies this, footprint, node
      ensures Valid() && nodes == [node] + old(nodes) && head == node
      ensures footprint == old(footprint) + {node}
    {
      node.next := head;
      node.prev := null;
      if head == null {
        tail := node;
      } else {
        head.prev := node;
      }
      head := node;
      len := len + 1;
      nodes := [node] + nodes;
      footprint := footprint + {node};
    }

    method PushFront(element: nat)
      requires Valid()
      modifies this, footprint
      ensures Valid() && head != null && fresh(head) && head.element == element && nodes == [head] + old(nodes)
      ensures footprint == old(footprint) + {head}
    {
      var node := new ListNode(element);
      PushFrontNode(node);
    }

    method PushBackNode(node: ListNode)
      requires Valid() && node !in nodes
      modifies this, footprint, node
      ensures Valid() && nodes == old(nodes) + [node] && tail == node
      ensures footprint == old(footprint) + {node}
    {
      node.next := null;
      node.prev := tail;
      if tail == null {
        head := node;
      } else {
        tail.next := node;
      }
      tail := node;
      len := len + 1;
      nodes := nodes + [node];
      footprint := footprint + {node};
    }

    method PushBack(element: nat)
      requires Valid()
      modifies this, footprint
      ensures Valid() && tail != null && fresh(tail) && tail.element == element && nodes == old(nodes) + [tail]
      ensures footprint == old(footprint) + {tail}
    {
      var node := new ListNode(element);
      PushBackNode(node);
    }

    method PopFront() returns (popped: ListNode?)
      requires Valid()
      modifies this, footprint
      ensures Valid() && footprint == old(footprint)
      ensures old(nodes) == [] ==> popped == null && nodes == []
      ensures old(nodes) != [] ==> popped == old(nodes)[0] && nodes == old(nodes)[1..]
    {
      popped := head;
      if popped != null {
        head := popped.next;
        if head == null {
          tail := null;
        } else {
          head.prev := null;
        }
        len := len - 1;
        nodes := nodes[1..];
      }
    }

    method PopBack() returns (popped: ListNode?)
      requires Valid()
      modifies this, footprint
      ensures Valid() && footprint == old(footprint)
      ensures old(nodes) == [] ==> popped == null && nodes == []
      ensures old(nodes) != [] ==> popped == old(nodes)[|old(nodes)| - 1] && nodes == old(nodes)[..|old(nodes)| - 1]
    {
      popped := tail;
      if popped != null {
        tail := popped.prev;
        if tail == null {
          head := null;
        } else {
          tail.next := null;
        }
        len := len - 1;
        nodes := nodes[..|nodes| - 1];
      }
    }

    method UnlinkNode(node: ListNode, ghost k: nat)
      requires Valid()
      requires k < |nodes| && nodes[k] == node
      modifies this, footprint
      ensures Valid() && footprint == old(footprint) && nodes == Without(old(nodes), k)
      ensures node.next == old(node.next) && node.prev == old(node.prev)
    {
      if node.prev != null {
        node.prev.next := node.next;
      } else {
        head := node.next;
      }
      if node.next != null {
        node.next.prev := node.prev;
      } else {
        tail := node.prev;
      }
      len := len - 1;
      ghost var rest := Without(nodes, k);
      assert forall i {:trigger rest[i].next} :: 0 <= i < |rest| - 1 ==> rest[i].next == rest[i + 1];
      assert forall i {:trigger rest[i].prev} :: 1 <= i < |rest| ==> rest[i].prev == rest[i - 1];
      nodes := rest;
    }

    method MoveToHead(node: ListNode, ghost k: nat)
      requires Valid()
      requires k < |nodes| && nodes[k] == node
      modifies this, footprint
      ensures Valid() && footprint == old(footprint) && nodes == [node] + Without(old(nodes), k)
    {
      if node.prev == null {
        assert nodes == [node] + Without(nodes, 0);
        return;
      }
      NotElsewhere(nodes, k);
      hide LinkedList.Spells;
      UnlinkNode(node, k);
      PushFrontNode(node);
    }

    /**
      Moving a node to the tail works exactly when it is not there already: the tail case returns
      after the predecessor has been cut off, and then the pointers spell no sequence at all.
     */
    method MoveToTail(node: ListNode, ghost k: nat)
      requires Valid()
      requires k < |nodes| && nodes[k] == node
      modifies this, footprint
      ensures footprint == old(footprint)
      ensures old(tail) != node ==> Valid() && nodes == Without(old(nodes), k) + [node]
      ensures old(tail) == node ==> forall s: seq<ListNode> :: !Spells(s)
    {
      if node.next == null {
        CutTail(node);
        return;
      }
      NotElsewhere(nodes, k);
      UnlinkNode(node, k);
      PushBackNode(node);
    }

    /** The first half of an unlink at the tail, as `move_to_tail` leaves it. */
    method CutTail(node: ListNode)
      requires Valid() && tail == node
      modifies this, footprint
      ensures footprint == old(footprint)
      ensures forall s: seq<ListNode> :: !Spells(s)
    {
      if node.prev != null {
        node.prev.next := node.next;
      } else {
        head := node.next;
      }
      forall s: seq<ListNode> ensures !Spells(s) {
        if |s| >= 2 {
          ghost var last, before := s[|s| - 1].prev, s[|s| - 2].next;
        }
      }
    }

    /** Links the last node of `a` to the first of `b`. */
    static method Link(last: ListNode, first: ListNode, ghost a: seq<ListNode>, ghost b: seq<ListNode>)
      requires a != [] && b != [] && last == a[|a| - 1] && first == b[0] && Distinct(a + b)
      requires Threaded(a) && Threaded(b)
      modifies last`next, first`prev
      ensures Threaded(a + b)
      ensures a[0].prev == old(a[0].prev) && b[|b| - 1].next == old(b[|b| - 1].next)
    {
      ghost var all := a + b;
      assert forall i :: 0 <= i < |a| ==> all[i] == a[i];
      assert forall i :: 0 <= i < |b| ==> all[|a| + i] == b[i];
      last.next := first;
      first.prev := last;
      assert forall i {:trigger all[i].next} :: 0 <= i < |a| - 1 ==> all[i].next == a[i].next == a[i + 1];
      assert forall i {:trigger all[i].next} :: |a| <= i < |all| - 1 ==> all[i].next == b[i - |a|].next == b[i - |a| + 1];
      assert forall i {:trigger all[i].prev} :: 1 <= i < |a| ==> all[i].prev == a[i].prev == a[i - 1];
      assert forall i {:trigger all[i].prev} :: |a| < i < |all| ==> all[i].prev == b[i - |a|].prev == b[i - |a| - 1];
    }

    /** Links the first node of `other` behind the last node of this list. */
    method Splice(other: LinkedList)
      requires Valid() && other.Valid() && other != this
      requires footprint !! other.footprint && nodes != [] && other.nodes != []
      modifies this, other, footprint, other.footprint
      ensures Valid() && other.Valid()
      ensures nodes == old(nodes) + old(other.nodes) && other.nodes == []
      ensures footprint == old(footprint + other.footprint) && other.footprint == {}
    {
      hide Distinct;
      hide Threaded;
      DistinctConcat(nodes, footprint, other.nodes, other.footprint);
      NoneThreaded();
      Link(tail, other.head, nodes, other.nodes);
      tail := other.tail;
      len := len + other.len;
      nodes := nodes + other.nodes;
      footprint := footprint + other.footprint;
      other.head, other.tail, other.len := null, null, 0;
      other.nodes, other.footprint := [], {};
    }

    /** `mem::swap` of two lists. */
    method SwapWith(other: LinkedList)
      requires Valid() && other.Valid() && other != this
      modifies this, other
      ensures Valid() && other.Valid()
      ensures nodes == old(other.nodes) && other.nodes == old(nodes)
      ensures footprint == old(other.footprint) && other.footprint == old(footprint)
    {
      hide Chained;
      head, other.head := other.head, head;
      tail, other.tail := other.tail, tail;
      len, other.len := other.len, len;
      nodes, other.nodes := other.nodes, nodes;
      footprint, other.footprint := other.footprint, footprint;
    }

    /** Moves all of `other` to the end of this list. */
    method Append(other: LinkedList)
      requires Valid() && other.Valid() && other != this
      requires footprint !! other.footprint
      modifies this, other, footprint, other.footprint
      ensures Valid() && other.Valid()
      ensures nodes == old(nodes) + old(other.nodes) && other.nodes == []
      ensures footprint <= old(footprint + other.footprint) && other.footprint !! footprint
    {
      hide Distinct;
      if tail == null {
        SwapWith(other);
      } else if other.head != null {
        Splice(other);
      }
    }

    /** The forward iterator. */
    method Iter() returns (s: seq<nat>)
      requires Valid()
      ensures s == Elements()
    {
      s := [];
      var it := head;
      while it != null
        invariant |s| <= |nodes| && s == Elements()[..|s|]
        invariant |s| < |nodes| ==> it == nodes[|s|]
        invariant |s| == |nodes| ==> it == null
        decreases |nodes| - |s|
      {
        s := s + [it.element];
        it := it.next;
      }
    }

    /** One step of the draining walk: unlink the node at position `k` if it satisfies `pred`. */
    method DrainStep(node: ListNode, pred: nat -> bool, ghost k: nat) returns (next: ListNode?)
      requires Valid()
      requires k < |nodes| && nodes[k] == node
      modifies this, footprint
      ensures Valid() && footprint == old(footprint)
      ensures nodes == if pred(node.element) then Without(old(nodes), k) else old(nodes)
      ensures next == if k + 1 < |old(nodes)| then old(nodes)[k + 1] else null
    {
      next := node.next;
      if pred(node.element) {
        UnlinkNode(node, k);
      }
    }

    /** Unlinks, while walking, every node whose element satisfies `pred`. */
    method DrainFilter(pred: nat -> bool) returns (drained: seq<nat>)
      requires Valid()
      modifies this, footprint
      ensures Valid() && footprint == old(footprint)
      ensures drained == Filter(old(Elements()), pred, true)
      ensures Elements() == Filter(old(Elements()), pred, false)
    {
      drained := [];
      var it := head;
      assert it == if nodes == [] then null else nodes[0];
      ghost var was, kept: seq<ListNode>, i := nodes, [], 0;
      assert Draining(was, i, pred, kept, drained);
      hide LinkedList.Spells;
      hide Draining;
      while it != null
        invariant Valid() && 0 <= i <= |was|
        invariant footprint == old(footprint) && nodes == kept + was[i..]
        invariant it == (if i < |was| then was[i] else null)
        invariant Draining(was, i, pred, kept, drained)
        decreases |was| - i
      {
        var node: ListNode := it;
        assert node == was[i];
        DrainOne(was, i, pred, kept, drained);
        it := DrainStep(node, pred, |kept|);
        if pred(node.element) {
          drained := drained + [node.element];
        } else {
          kept := kept + [node];
        }
        i := i + 1;
      }
      DrainEnd(was, i, pred, kept, drained);
    }
  }
}
