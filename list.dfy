/**
 * The intrusive doubly-linked list `qhList<T>` of the quickhull builder. The
 * elements live in a pool and are named by index; their `prev` and `next`
 * fields are the two arrays below, and the list object itself holds only the
 * head and the count.
 */
module IntrusiveList {
  import opened HalfEdgeMesh

  /** `s` with the entry at position `k` taken out. */
  function RemoveAt(s: seq<nat>, k: nat): (r: seq<nat>)
    requires k < |s|
    ensures |r| == |s| - 1
    ensures forall i :: 0 <= i < k ==> r[i] == s[i]
    ensures forall i :: k <= i < |r| ==> r[i] == s[i + 1]
  {
    s[..k] + s[k + 1..]
  }

  /** The link that follows, or precedes, position `k` of the list `c`. */
  function After(c: seq<nat>, k: nat): Link
  {
    if k + 1 < |c| then Ptr(c[k + 1]) else Null
  }

  function Before(c: seq<nat>, k: nat): Link
    requires k <= |c|
  {
    if 0 < k then Ptr(c[k - 1]) else Null
  }

  /** The `prev` and `next` fields of the nodes of `c` link them in order,
    * with null before the first and after the last. */
  ghost predicate Linked(c: seq<nat>, prev: seq<Link>, next: seq<Link>)
  {
    && (forall k :: 0 <= k < |c| ==> c[k] < |prev| && c[k] < |next|)
    && (forall k {:trigger next[c[k]]} :: 0 <= k < |c| ==> next[c[k]] == After(c, k))
    && (forall k {:trigger prev[c[k]]} :: 0 <= k < |c| ==> prev[c[k]] == Before(c, k))
  }

  /** Splicing out the node at position `k` (pointing its neighbours at each
    * other and clearing its own links) leaves the other nodes linked in
    * order. */
  lemma UnlinkKeepsOrder(c: seq<nat>, prev: seq<Link>, next: seq<Link>, k: nat, prev': seq<Link>, next': seq<Link>)
    requires Distinct(c) && Linked(c, prev, next) && k < |c|
    requires next' == (if 0 < k then next[c[k - 1] := After(c, k)] else next)[c[k] := Null]
    requires prev' == (if k + 1 < |c| then prev[c[k + 1] := Before(c, k)] else prev)[c[k] := Null]
    ensures Distinct(RemoveAt(c, k)) && Linked(RemoveAt(c, k), prev', next')
  {
    var r := RemoveAt(c, k);
    forall i | 0 <= i < |r|
      ensures next'[r[i]] == After(r, i) && prev'[r[i]] == Before(r, i)
    {
      var j := if i < k then i else i + 1;  // position of r[i] in c
      assert r[i] == c[j] && c[j] != c[k];
      if j + 1 != k {
        assert next'[r[i]] == next[c[j]];
      }
      if j != k + 1 {
        assert prev'[r[i]] == prev[c[j]];
      }
    }
  }

  /** Linking a new node in front of the first one leaves all of them linked
    * in order. */
  lemma PushKeepsOrder(c: seq<nat>, prev: seq<Link>, next: seq<Link>, x: nat)
    requires Distinct(c) && Linked(c, prev, next) && x !in c && x < |prev| && x < |next|
    ensures
      var head := if c == [] then Null else Ptr(c[0]);
      var next' := next[x := head];
      var prev' := if c == [] then prev[x := Null] else prev[x := Null][c[0] := Ptr(x)];
      Linked([x] + c, prev', next')
  {
    var head := if c == [] then Null else Ptr(c[0]);
    var next' := next[x := head];
    var prev' := if c == [] then prev[x := Null] else prev[x := Null][c[0] := Ptr(x)];
    var r := [x] + c;
    forall i | 0 <= i < |r|
      ensures next'[r[i]] == After(r, i) && prev'[r[i]] == Before(r, i)
    {
      if i > 1 {
        assert r[i] == c[i - 1] && c[i - 1] != c[0];
      }
    }
  }

  /** A link that is null or names one of the `n` nodes of the pool. */
  predicate InPool(l: Link, n: nat)
  {
    l.Ptr? ==> l.index < n
  }

  class IndexList {
    /** The `prev` and `next` fields of the pool's nodes. */
    var prev: seq<Link>
    var next: seq<Link>
    var head: Link
    var count: nat

    /** The listed nodes from the head on. */
    ghost var Contents: seq<nat>

    ghost predicate Valid()
      reads this
    {
      && |prev| == |next|
      && count == |Contents|
      && Distinct(Contents)
      && (forall y :: 0 <= y < |next| ==> InPool(prev[y], |next|) && InPool(next[y], |next|))
      && head == (if Contents == [] then Null else Ptr(Contents[0]))
      && Linked(Contents, prev, next)
    }

    /** An empty list over a pool of `n` nodes. */
    constructor (n: nat)
      ensures Valid()
      ensures |prev| == n && Contents == [] && head == Null && count == 0
    {
      prev := seq(n, _ => Null);
      next := seq(n, _ => Null);
      head := Null;
      count := 0;
      Contents := [];
    }

    /** Inserts node `x`, which is not listed, at the head. */
    method PushFront(x: nat)
      requires Valid()
      requires x < |next| && x !in Contents
      modifies this
      ensures Valid()
      ensures Contents == [x] + old(Contents)
      ensures head == Ptr(x) && count == old(count) + 1
      ensures next == old(next)[x := old(head)]
      ensures prev == if old(head).Ptr? then old(prev)[x := Null][old(head).index := Ptr(x)]
                      else old(prev)[x := Null]
    {
      PushKeepsOrder(Contents, prev, next, x);
      ghost var oldPrev, oldNext := prev, next;
      prev := prev[x := Null];
      next := next[x := head];
      if head.Ptr? {
        prev := prev[head.index := Ptr(x)];
      }
      head := Ptr(x);
      count := count + 1;
      forall y | 0 <= y < |next|
        ensures InPool(prev[y], |next|) && InPool(next[y], |next|)
      {
        assert InPool(oldPrev[y], |next|) && InPool(oldNext[y], |next|);
      }
      Contents := [x] + Contents;
    }

    /** Unlinks node `x` from the list and returns the node that followed it.
      * The other nodes keep their order. */
    method Remove(x: nat) returns (r: Link)
      requires Valid()
      requires x in Contents
      modifies this
      ensures Valid()
      ensures r == old(next[x])
      ensures exists k :: 0 <= k < |old(Contents)| && old(Contents)[k] == x && Contents == RemoveAt(old(Contents), k)
      ensures head == if old(head) == Ptr(x) then old(next[x]) else old(head)
      ensures count == old(count) - 1
      ensures next == (if old(prev[x]).Ptr? then old(next)[old(prev[x]).index := old(next[x])] else old(next))[x := Null]
      ensures prev == (if old(next[x]).Ptr? then old(prev)[old(next[x]).index := old(prev[x])] else old(prev))[x := Null]
    {
      ghost var k :| 0 <= k < |Contents| && Contents[k] == x;
      ghost var c, oldPrev, oldNext := Contents, prev, next;
      assert prev[x] == Before(c, k) && next[x] == After(c, k);
      r := next[x];
      if prev[x].Ptr? {
        next := next[prev[x].index := next[x]];
      }
      if next[x].Ptr? {
        prev := prev[next[x].index := prev[x]];
      }
      if head == Ptr(x) {
        head := next[x];
      }
      prev := prev[x := Null];
      next := next[x := Null];
      count := count - 1;
      assert InPool(oldPrev[x], |next|) && InPool(oldNext[x], |next|);
      forall y | 0 <= y < |next|
        ensures InPool(prev[y], |next|) && InPool(next[y], |next|)
      {
        assert InPool(oldPrev[y], |next|) && InPool(oldNext[y], |next|);
      }
      UnlinkKeepsOrder(c, oldPrev, oldNext, k, prev, next);
      Contents := RemoveAt(c, k);
    }
  }
}
