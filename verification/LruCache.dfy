/**
  The node cache: a hash map of entries and a list of keys in use order, kept in step.
  Each entry points at its own list node, so an entry can be moved to the head in place.
 */
module LruCaches {
  import opened Options
  import opened LinkedLists

  datatype LruEntry<T> = LruEntry(nodeRef: ListNode, value: T)

  /** `s` without the first occurrence of `x`. */
  function Remove(s: seq<nat>, x: nat): seq<nat> {
    if s == [] then [] else if s[0] == x then s[1..] else [s[0]] + Remove(s[1..], x)
  }

  lemma {:induction false} RemoveAt(s: seq<nat>, k: nat)
    requires k < |s| && Distinct(s)
    ensures Remove(s, s[k]) == Without(s, k)
  {
    if k > 0 {
      RemoveAt(s[1..], k - 1);
      assert Without(s, k) == [s[0]] + Without(s[1..], k - 1);
    }
  }

  /**
    The map's keys are exactly the list's elements, which are distinct, and each entry points at
    its own list node.
   */
  ghost predicate InStep<T>(nodes: seq<ListNode>, entries: map<nat, LruEntry<T>>) {
    && Distinct(ElementsOf(nodes))
    && (forall i :: 0 <= i < |nodes| ==> nodes[i].element in entries && entries[nodes[i].element].nodeRef == nodes[i])
    && (forall k :: k in entries ==> k in ElementsOf(nodes))
  }

  ghost function ValuesOf<T>(entries: map<nat, LruEntry<T>>): map<nat, T> {
    map k | k in entries :: entries[k].value
  }

  lemma PushInStep<T>(nodes: seq<ListNode>, entries: map<nat, LruEntry<T>>, node: ListNode, value: T)
    requires InStep(nodes, entries) && node.element !in entries
    ensures InStep([node] + nodes, entries[node.element := LruEntry(node, value)])
    ensures ElementsOf([node] + nodes) == [node.element] + ElementsOf(nodes)
    ensures ValuesOf(entries[node.element := LruEntry(node, value)]) == ValuesOf(entries)[node.element := value]
  {
    var e := ElementsOf(nodes);
    assert forall i :: 0 <= i < |nodes| ==> e[i] == nodes[i].element;
    assert ElementsOf([node] + nodes) == [node.element] + e;
    assert forall k :: k in e ==> k in [node.element] + e;
  }

  lemma PopInStep<T>(nodes: seq<ListNode>, entries: map<nat, LruEntry<T>>, k: nat)
    requires InStep(nodes, entries) && k < |nodes|
    ensures InStep(Without(nodes, k), entries - {nodes[k].element})
    ensures ElementsOf(Without(nodes, k)) == Without(ElementsOf(nodes), k)
    ensures ValuesOf(entries - {nodes[k].element}) == ValuesOf(entries) - {nodes[k].element}
  {
    var e := ElementsOf(nodes);
    assert forall i :: 0 <= i < |nodes| ==> e[i] == nodes[i].element;
    assert ElementsOf(Without(nodes, k)) == Without(e, k);
    forall x | x in entries - {nodes[k].element}
      ensures x in Without(e, k)
    {
      WithoutOther(e, k, x);
    }
  }

  lemma WithoutOther(e: seq<nat>, k: nat, x: nat)
    requires k < |e| && x in e && x != e[k]
    ensures x in Without(e, k)
  {
    var i :| 0 <= i < |e| && e[i] == x;
    assert x == Without(e, k)[if i < k then i else i - 1];
  }

  lemma PopEndsInStep<T>(nodes: seq<ListNode>, entries: map<nat, LruEntry<T>>)
    requires InStep(nodes, entries) && nodes != []
    ensures var n := |nodes| - 1;
            var last := nodes[n].element;
            && last in entries && ElementsOf(nodes)[n] == last
            && InStep(nodes[..n], entries - {last}) && ElementsOf(nodes[..n]) == ElementsOf(nodes)[..n]
            && ValuesOf(entries - {last}) == ValuesOf(entries) - {last}
    ensures var first := nodes[0].element;
            && first in entries && ElementsOf(nodes)[0] == first
            && InStep(nodes[1..], entries - {first}) && ElementsOf(nodes[1..]) == ElementsOf(nodes)[1..]
            && ValuesOf(entries - {first}) == ValuesOf(entries) - {first}
  {
    var n := |nodes| - 1;
    PopInStep(nodes, entries, n);
    PopInStep(nodes, entries, 0);
    WithoutEnds(nodes);
    WithoutEnds(ElementsOf(nodes));
  }

  lemma WithoutEnds<A>(s: seq<A>)
    requires s != []
    ensures Without(s, |s| - 1) == s[..|s| - 1] && Without(s, 0) == s[1..]
  {
  }

  lemma MoveInStep<T>(nodes: seq<ListNode>, entries: map<nat, LruEntry<T>>, k: nat)
    requires InStep(nodes, entries) && k < |nodes|
    ensures InStep([nodes[k]] + Without(nodes, k), entries)
    ensures ElementsOf([nodes[k]] + Without(nodes, k)) == [nodes[k].element] + Remove(ElementsOf(nodes), nodes[k].element)
  {
    var e := ElementsOf(nodes);
    PopInStep(nodes, entries, k);
    assert e[k] == nodes[k].element;
    RemoveAt(e, k);
    var value := entries[nodes[k].element].value;
    var rest := entries - {nodes[k].element};
    PushInStep(Without(nodes, k), rest, nodes[k], value);
    assert rest[nodes[k].element := LruEntry(nodes[k], value)] == entries;
  }

  /** The entry of a cached key leads to the key's own list node. */
  lemma EntryPosition<T>(nodes: seq<ListNode>, entries: map<nat, LruEntry<T>>, key: nat) returns (k: nat)
    requires InStep(nodes, entries) && key in entries
    ensures k < |nodes| && nodes[k] == entries[key].nodeRef && nodes[k].element == key
    ensures key in ElementsOf(nodes)
  {
    k :| k < |nodes| && ElementsOf(nodes)[k] == key;
  }

  class LruCache<T> {
    const list: LinkedList
    var entries: map<nat, LruEntry<T>>
    var maxSize: nat
    ghost var order: seq<nat>
    ghost var values: map<nat, T>

    ghost predicate Valid()
      reads this, list, list.footprint
    {
      && list.Valid()
      && InStep(list.nodes, entries)
      && order == ElementsOf(list.nodes)
      && values == ValuesOf(entries)
    }

    constructor (capacity: nat)
      ensures Valid() && fresh(list) && fresh(list.footprint)
      ensures order == [] && values == map[] && maxSize == capacity
    {
      list := new LinkedList();
      entries, maxSize := map[], capacity;
      order, values := [], map[];
    }

    /** Adds an element first in the cache; an element that is already cached stays as it is. */
    method Push(key: nat, value: T) returns (isNone: bool)
      requires Valid()
      modifies this, list, list.footprint
      ensures Valid() && maxSize == old(maxSize) && fresh(list.footprint - old(list.footprint))
      ensures isNone == (key !in old(values))
      ensures isNone ==> order == [key] + old(order) && values == old(values)[key := value]
      ensures !isNone ==> order == old(order) && values == old(values)
    {
      hide InStep;
      hide LinkedList.Spells;
      isNone := key !in entries;
      if isNone {
        list.PushFront(key);
        PushInStep(old(list.nodes), entries, list.head, value);
        entries := entries[key := LruEntry(list.head, value)];
        order := [key] + order;
        values := values[key := value];
      }
    }

    method Find(key: nat) returns (r: Option<T>)
      requires Valid()
      ensures r == if key in values then Some(values[key]) else None
    {
      r := if key in entries then Some(entries[key].value) else None;
    }

    method Len() returns (n: nat)
      requires Valid()
      ensures n == |order|
    {
      n := list.len;
    }

    method Back() returns (r: Option<T>)
      requires Valid()
      ensures order == [] ==> r == None
      ensures order != [] ==> order[|order| - 1] in values && r == Some(values[order[|order| - 1]])
    {
      r := if list.tail == null then None else Some(entries[list.tail.element].value);
    }

    method PopBack() returns (r: Option<T>)
      requires Valid()
      modifies this, list, list.footprint
      ensures Valid() && maxSize == old(maxSize) && list.footprint == old(list.footprint)
      ensures old(order) == [] ==> r == None && order == [] && values == old(values)
      ensures old(order) != [] ==>
                && var last := old(order)[|old(order)| - 1];
                && last in old(values) && r == Some(old(values)[last])
                && order == old(order)[..|old(order)| - 1]
                && values == old(values) - {last}
    {
      hide InStep;
      hide LinkedList.Spells;
      if list.nodes != [] {
        PopEndsInStep(list.nodes, entries);
      }
      var popped := list.PopBack();
      if popped == null {
        r := None;
      } else {
        var key := popped.element;
        r := Some(entries[key].value);
        entries := entries - {key};
        order := order[..|order| - 1];
        values := values - {key};
      }
    }

    method PopFront() returns (r: Option<T>)
      requires Valid()
      modifies this, list, list.footprint
      ensures Valid() && maxSize == old(maxSize) && list.footprint == old(list.footprint)
      ensures old(order) == [] ==> r == None && order == [] && values == old(values)
      ensures old(order) != [] ==>
                && var first := old(order)[0];
                && first in old(values) && r == Some(old(values)[first])
                && order == old(order)[1..]
                && values == old(values) - {first}
    {
      hide InStep;
      hide LinkedList.Spells;
      if list.nodes != [] {
        PopEndsInStep(list.nodes, entries);
      }
      var popped := list.PopFront();
      if popped == null {
        r := None;
      } else {
        var key := popped.element;
        r := Some(entries[key].value);
        entries := entries - {key};
        order := order[1..];
        values := values - {key};
      }
    }

    /** Moves an element to the head; an element that is not cached is ignored. */
    method MoveToHead(key: nat)
      requires Valid()
      modifies this, list, list.footprint
      ensures Valid() && maxSize == old(maxSize) && list.footprint == old(list.footprint)
      ensures values == old(values)
      ensures order == if key in old(values) then [key] + Remove(old(order), key) else old(order)
    {
      hide InStep;
      hide LinkedList.Spells;
      if key in entries {
        ghost var k := EntryPosition(list.nodes, entries, key);
        MoveInStep(list.nodes, entries, k);
        list.MoveToHead(entries[key].nodeRef, k);
        order := [key] + Remove(order, key);
      }
    }

    /** Drops elements from the tail until the cache fits the new capacity. */
    method ChangeCapacity(capacity: nat)
      requires Valid()
      modifies this, list, list.footprint
      ensures Valid() && maxSize == capacity
      ensures order == old(order)[..if capacity < |old(order)| then capacity else |old(order)|]
      ensures forall k :: k in values ==> k in old(values) && values[k] == old(values)[k]
    {
      hide LruCache.Valid;
      var n := Len();
      if capacity < n {
        for i := capacity to n
          invariant Valid() && list.footprint == old(list.footprint)
          invariant |order| == n - (i - capacity) && order <= old(order)
          invariant forall k :: k in values ==> k in old(values) && values[k] == old(values)[k]
        {
          var _ := PopBack();
        }
      }
      SetCapacity(capacity);
    }

    method SetCapacity(capacity: nat)
      requires Valid()
      modifies `maxSize
      ensures Valid() && maxSize == capacity
    {
      hide InStep;
      hide LinkedList.Spells;
      maxSize := capacity;
    }

    /** The forward iterator's keys, from the head to the tail. */
    method Iter() returns (keys: seq<nat>)
      requires Valid()
      ensures keys == order
    {
      keys := list.Iter();
    }

    /** The cached keys are the listed ones, without repetition. */
    lemma KeysListed()
      requires Valid()
      ensures Distinct(order) && (forall k :: k in values <==> k in order)
    {
      hide LinkedList.Spells;
      assert forall i :: 0 <= i < |order| ==> order[i] == list.nodes[i].element;
    }
  }
}
