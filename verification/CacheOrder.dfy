/**
  The order of the cache.  Between operations each cached node has its non-root ancestors nearer
  the head, so evicting from the tail never drops an ancestor before its descendants.  Fetching a
  node breaks the order for a moment; bumping the ancestors, bottom-up, restores it.
 */
module CacheOrder {
  import opened Layout
  import opened Merkle
  import opened LinkedLists
  import opened LruCaches
  import opened FileState

  /** Every node's parent is the root or nearer the head. */
  ghost predicate Ordered(order: seq<nat>) {
    forall j :: 0 <= j < |order| ==>
      order[j] >= 2 && (Parent(order[j]) == ROOT_MHT_PHY_NUM || Parent(order[j]) in order[..j])
  }

  /** The same, except for parents that a bump starting at `a` will move to the head. */
  ghost predicate Near(order: seq<nat>, a: nat) {
    forall j :: 0 <= j < |order| ==>
      && order[j] >= 2
      && (Parent(order[j]) == ROOT_MHT_PHY_NUM || Parent(order[j]) in order[..j] || OnPath(Parent(order[j]), a))
  }

  lemma OrderedNear(order: seq<nat>, a: nat)
    requires Ordered(order)
    ensures Near(order, a)
  {
  }

  lemma NearRoot(order: seq<nat>)
    requires Near(order, ROOT_MHT_PHY_NUM)
    ensures Ordered(order)
  {
  }

  /** A node pushed in front of its parent's fetch. */
  lemma PushNear(order: seq<nat>, p: nat)
    requires p >= 2 && Near(order, Parent(p))
    ensures Near([p] + order, p)
    ensures Near([p] + order, Parent(p))
  {
    var next := [p] + order;
    ParentBelow(p);
    PathSelf(p);
    hide Parent;
    forall j | 0 <= j < |next|
      ensures next[j] >= 2
      ensures Parent(next[j]) == ROOT_MHT_PHY_NUM || Parent(next[j]) in next[..j] || OnPath(Parent(next[j]), Parent(p))
    {
      if j == 0 {
        if Parent(p) != ROOT_MHT_PHY_NUM {
          PathSelf(Parent(p));
        }
      } else {
        assert next[..j] == [p] + order[..j - 1];
        assert next[j] == order[j - 1];
      }
    }
    assert forall x :: OnPath(x, Parent(p)) ==> OnPath(x, p);
  }

  /** `a` was pushed last; or nothing was, and `a` is the root or was there before. */
  ghost predicate OnTop(before: seq<nat>, after: seq<nat>, a: nat) {
    if |after| <= |before| then a == ROOT_MHT_PHY_NUM || a in before else after[0] == a
  }

  /** Nodes were pushed on the cache, each under a parent that was there or was pushed just before it. */
  ghost predicate Stacks(before: seq<nat>, after: seq<nat>) {
    if |after| <= |before| then after == before
    else after[0] >= 2 && OnTop(before, after[1..], Parent(after[0])) && Stacks(before, after[1..])
  }

  lemma StackSelf(order: seq<nat>, a: nat)
    ensures Stacks(order, order)
    ensures a == ROOT_MHT_PHY_NUM || a in order ==> OnTop(order, order, a)
  {
  }

  lemma {:induction false} StackPush(before: seq<nat>, after: seq<nat>, p: nat)
    requires p >= 2 && Stacks(before, after) && OnTop(before, after, Parent(p))
    ensures Stacks(before, [p] + after) && OnTop(before, [p] + after, p)
  {
    hide Parent;
    assert ([p] + after)[1..] == after;
    StackLonger(before, after);
  }

  lemma StackLonger(before: seq<nat>, after: seq<nat>)
    requires Stacks(before, after)
    ensures |before| <= |after|
  {
  }

  /** Nothing was pushed, or one child of the root. */
  ghost predicate OneChild(before: seq<nat>, after: seq<nat>) {
    after == before || (|after| == |before| + 1 && after[0] >= 2 && Parent(after[0]) == ROOT_MHT_PHY_NUM)
  }

  /** A fetch that stops halfway leaves the order intact exactly when it pushed nothing, or one child of the root. */
  lemma StackOrdered(before: seq<nat>, after: seq<nat>)
    requires Ordered(before) && Stacks(before, after)
    ensures Ordered(after) <==> OneChild(before, after)
  {
    hide Parent;
    if |after| > |before| {
      var rest := after[1..];
      assert after == [after[0]] + rest && after[..0] == [];
      if |after| == |before| + 1 && Parent(after[0]) == ROOT_MHT_PHY_NUM {
        forall j | 0 <= j < |after|
          ensures after[j] >= 2 && (Parent(after[j]) == ROOT_MHT_PHY_NUM || Parent(after[j]) in after[..j])
        {
          if j > 0 {
            assert after[j] == before[j - 1];
            assert after[..j] == [after[0]] + before[..j - 1];
          }
        }
      }
    }
  }

  /** Positions in `Remove(order, order[k])` and what came before them. */
  lemma RemoveBefore(order: seq<nat>, k: nat, j: nat)
    requires Distinct(order) && k < |order| && j < |order| && j != k
    ensures var i := if j < k then j else j - 1;
            && i < |Remove(order, order[k])| && Remove(order, order[k])[i] == order[j]
            && (forall y :: y in order[..j] && y != order[k] ==> y in Remove(order, order[k])[..i])
  {
    RemoveAt(order, k);
    var r := Without(order, k);
    var i := if j < k then j else j - 1;
    forall y | y in order[..j] && y != order[k]
      ensures y in r[..i]
    {
      var h :| 0 <= h < j && order[h] == y;
      assert r[..i][if h < k then h else h - 1] == y;
    }
  }

  /** One bump: `a` moves to the head and the repair goes on at its parent. */
  lemma BumpNear(order: seq<nat>, k: nat)
    requires Distinct(order) && k < |order| && order[k] >= 2 && Near(order, order[k])
    ensures Near([order[k]] + Remove(order, order[k]), Parent(order[k]))
  {
    var a := order[k];
    var rest := Remove(order, a);
    var next := [a] + rest;
    RemoveAt(order, k);
    hide Parent;
    hide Remove;
    forall i | 0 <= i < |next|
      ensures next[i] >= 2
      ensures Parent(next[i]) == ROOT_MHT_PHY_NUM || Parent(next[i]) in next[..i] || OnPath(Parent(next[i]), Parent(a))
    {
      if i == 0 {
        ParentBelow(a);
        if Parent(a) != ROOT_MHT_PHY_NUM {
          PathSelf(Parent(a));
        }
      } else {
        BumpNearAt(order, k, if i - 1 < k then i - 1 else i);
      }
    }
  }

  lemma BumpNearAt(order: seq<nat>, k: nat, j: nat)
    requires Distinct(order) && k < |order| && order[k] >= 2 && Near(order, order[k])
    requires j < |order| && j != k
    ensures var a := order[k];
            var next, i := [a] + Remove(order, a), if j < k then j + 1 else j;
            && i < |next| && next[i] == order[j] && next[i] >= 2
            && (Parent(next[i]) == ROOT_MHT_PHY_NUM || Parent(next[i]) in next[..i] || OnPath(Parent(next[i]), Parent(a)))
  {
    var a := order[k];
    var next, i := [a] + Remove(order, a), if j < k then j + 1 else j;
    RemoveBefore(order, k, j);
    hide Parent;
    hide Remove;
    assert next[..i] == [a] + Remove(order, a)[..i - 1];
  }

  /** What bumping `a` and its ancestors, bottom-up, makes of the order. */
  ghost function Bumped(order: seq<nat>, a: nat): seq<nat>
    decreases a
  {
    if a < 2 then order
    else
      ParentBelow(a);
      Bumped([a] + Remove(order, a), Parent(a))
  }

  /** The non-root chain down to `a`, topmost first. */
  ghost function Chain(a: nat): seq<nat>
    decreases a
  {
    if a < 2 then [] else (ParentBelow(a); Chain(Parent(a)) + [a])
  }

  lemma {:induction false} ChainDepth(m: nat)
    ensures |Chain(MhtPhys(m))| == Depth(m)
    decreases m
  {
    if m > 0 {
      MhtNumbering(m);
      ChainDepth((m - 1) / CHILD_MHT_NODES_COUNT);
    }
  }

  lemma {:induction false} RemoveBehind(pre: seq<nat>, r: seq<nat>, x: nat)
    requires x !in pre
    ensures Remove(pre + r, x) == pre + Remove(r, x)
  {
    if pre == [] {
      assert pre + r == r && pre + Remove(r, x) == Remove(r, x);
    } else {
      RemoveBehind(pre[1..], r, x);
      assert (pre + r)[1..] == pre[1..] + r;
    }
  }

  lemma {:induction false} PathAtMost(x: nat, a: nat)
    requires OnPath(x, a)
    ensures 2 <= x <= a
    decreases a
  {
    if x != a {
      ParentBelow(a);
      PathAtMost(x, Parent(a));
    }
  }

  /** After the bump the chain is at the head, and a node that was first comes right behind it. */
  lemma {:induction false} FetchedBehindChain(pre: seq<nat>, r: seq<nat>, a: nat)
    requires r != [] && !OnPath(r[0], a)
    requires forall x :: x in pre ==> !OnPath(x, a)
    ensures var b := Bumped(pre + r, a);
            && |b| >= |Chain(a)| + |pre| + 1
            && b[..|Chain(a)| + |pre|] == Chain(a) + pre
            && b[|Chain(a)| + |pre|] == r[0]
    decreases a
  {
    hide Parent;
    hide IsDataNode;
    if a < 2 {
      assert (pre + r)[..|pre|] == pre;
    } else {
      ParentBelow(a);
      PathSelf(a);
      RemoveBehind(pre, r, a);
      var r' := Remove(r, a);
      assert [a] + (pre + r') == ([a] + pre) + r';
      assert !OnPath(a, Parent(a)) by {
        if OnPath(a, Parent(a)) {
          PathAtMost(a, Parent(a));
        }
      }
      FetchedBehindChain([a] + pre, r', Parent(a));
      assert Chain(Parent(a)) + ([a] + pre) == Chain(a) + pre;
    }
  }

  /** The evicted tail is nobody's parent. */
  lemma TailIsNoParent(order: seq<nat>, q: nat)
    requires Ordered(order) && Distinct(order) && q in order
    ensures Parent(q) != order[|order| - 1]
  {
    var j :| 0 <= j < |order| && order[j] == q;
    ParentBelow(q);
  }

  lemma OrderedPrefix(order: seq<nat>, n: nat)
    requires Ordered(order) && n <= |order|
    ensures Ordered(order[..n])
  {
    assert forall j :: 0 <= j < n ==> order[..n][..j] == order[..j];
  }

  lemma {:induction false} SubLength(a: seq<nat>, b: seq<nat>)
    requires Distinct(a) && (forall x :: x in a ==> x in b)
    ensures |a| <= |b|
  {
    if a != [] {
      var n, x := |a| - 1, a[|a| - 1];
      assert x in a && x in b;
      var k :| 0 <= k < |b| && b[k] == x;
      var c := Without(b, k);
      forall y | y in a[..n] ensures y in c {
        assert y in a && y in b;
        var i :| 0 <= i < |b| && b[i] == y;
        assert c[if i < k then i else i - 1] == y;
      }
      SubLength(a[..n], c);
    }
  }

  /** The first `n` elements, or all of them. */
  function Prefix(s: seq<nat>, n: nat): (r: seq<nat>)
    ensures |r| <= n && r <= s
  {
    if n < |s| then s[..n] else s
  }

  /** The node just fetched stays in the first `cap` places exactly when `cap` exceeds its depth. */
  lemma FetchedPlace(order: seq<nat>, p: nat, m: nat, cap: nat)
    requires order != [] && order[0] == p && p >= 2 && Parent(p) == MhtPhys(m) && Distinct(Bumped(order, Parent(p)))
    ensures var b := Bumped(order, Parent(p));
            && |b| > Depth(m)
            && (p in Prefix(b, cap) <==> Depth(m) < cap)
  {
    ParentBelow(p);
    if OnPath(p, Parent(p)) {
      PathAtMost(p, Parent(p));
    }
    ChainDepth(m);
    assert [] + order == order;
    FetchedBehindChain([], order, Parent(p));
    var b := Bumped(order, Parent(p));
    assert b[Depth(m)] == p;
  }
}
