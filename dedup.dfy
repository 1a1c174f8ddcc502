/**
 * The first pass of `b3QHull::Set`: the input points are copied into a local
 * buffer in order, skipping every point that is close to one already copied.
 * Closeness (a squared distance under a tolerance) is the parameter `close`.
 */
module PointDedup {
  import opened HalfEdgeMesh

  /** Some point of `kept` is close to `p`, with `p` as the first argument. */
  predicate NearAny(p: Vec3, kept: seq<Vec3>, close: (Vec3, Vec3) -> bool)
  {
    exists j :: 0 <= j < |kept| && close(p, kept[j])
  }

  /** The points of `s` that survive the pass, in input order. */
  function Dedup(s: seq<Vec3>, close: (Vec3, Vec3) -> bool): (r: seq<Vec3>)
  {
    if s == [] then []
    else
      var kept := Dedup(s[..|s| - 1], close);
      if NearAny(s[|s| - 1], kept, close) then kept else kept + [s[|s| - 1]]
  }

  /** `r` can be obtained from `s` by deleting entries. */
  predicate IsSubsequence(r: seq<Vec3>, s: seq<Vec3>)
    decreases |s|
  {
    if r == [] then true
    else if s == [] then false
    else if r[|r| - 1] == s[|s| - 1] then IsSubsequence(r[..|r| - 1], s[..|s| - 1])
    else IsSubsequence(r, s[..|s| - 1])
  }

  /** No more points are kept than were given. */
  lemma {:induction false} DedupLength(s: seq<Vec3>, close: (Vec3, Vec3) -> bool)
    ensures |Dedup(s, close)| <= |s|
  {
    if s != [] {
      DedupLength(s[..|s| - 1], close);
    }
  }

  /** Every kept point is not close to any point kept before it. */
  lemma {:induction false} DedupSeparated(s: seq<Vec3>, close: (Vec3, Vec3) -> bool)
    ensures forall i, j :: 0 <= i < j < |Dedup(s, close)| ==> !close(Dedup(s, close)[j], Dedup(s, close)[i])
  {
    if s != [] {
      DedupSeparated(s[..|s| - 1], close);
    }
  }

  /** The kept points are the input points with some deleted, in order. */
  lemma {:induction false} DedupIsSubsequence(s: seq<Vec3>, close: (Vec3, Vec3) -> bool)
    ensures IsSubsequence(Dedup(s, close), s)
  {
    if s != [] {
      var init := s[..|s| - 1];
      DedupIsSubsequence(init, close);
      SubsequenceOfLonger(Dedup(init, close), init, s[|s| - 1]);
      var r := Dedup(s, close);
      if r != Dedup(init, close) {
        assert r[..|r| - 1] == Dedup(init, close);
        assert s[..|s| - 1] == init;
      }
    }
  }

  /** A subsequence of `s` is a subsequence of `s` with one more point. */
  lemma {:induction false} SubsequenceOfLonger(r: seq<Vec3>, s: seq<Vec3>, x: Vec3)
    requires IsSubsequence(r, s)
    ensures IsSubsequence(r, s + [x])
    decreases |s|, 1
  {
    var t := s + [x];
    assert t[..|t| - 1] == s;
    if r != [] && r[|r| - 1] == x {
      // Matching x to the new last point leaves r minus its last point,
      // which is a subsequence of s because r is.
      SubsequenceDropLast(r, s);
    }
  }

  /** Dropping the last point of a subsequence keeps it a subsequence. */
  lemma {:induction false} SubsequenceDropLast(r: seq<Vec3>, s: seq<Vec3>)
    requires r != [] && IsSubsequence(r, s)
    ensures IsSubsequence(r[..|r| - 1], s)
    decreases |s|, 0
  {
    var init := s[..|s| - 1];
    if r[|r| - 1] == s[|s| - 1] {
      SubsequenceOfLonger(r[..|r| - 1], init, s[|s| - 1]);
      assert init + [s[|s| - 1]] == s;
    } else {
      SubsequenceDropLast(r, init);
      SubsequenceOfLonger(r[..|r| - 1], init, s[|s| - 1]);
      assert init + [s[|s| - 1]] == s;
    }
  }

  /** `p` is one of the points of `r`, or is close to one of them. */
  ghost predicate Covered(p: Vec3, r: seq<Vec3>, close: (Vec3, Vec3) -> bool)
  {
    exists j :: 0 <= j < |r| && (r[j] == p || close(p, r[j]))
  }

  /** Every input point is kept, or is close to a kept point. */
  lemma {:induction false} DedupCovers(s: seq<Vec3>, close: (Vec3, Vec3) -> bool)
    ensures forall k :: 0 <= k < |s| ==> Covered(s[k], Dedup(s, close), close)
  {
    if s != [] {
      var init := s[..|s| - 1];
      var kept := Dedup(init, close);
      var r := Dedup(s, close);
      DedupCovers(init, close);
      forall k | 0 <= k < |s|
        ensures Covered(s[k], r, close)
      {
        if k < |s| - 1 {
          assert s[k] == init[k] && Covered(init[k], kept, close);
          var j :| 0 <= j < |kept| && (kept[j] == init[k] || close(init[k], kept[j]));
          assert r[j] == kept[j];
        } else if NearAny(s[k], kept, close) {
          var j :| 0 <= j < |kept| && close(s[k], kept[j]);
          assert r[j] == kept[j];
        } else {
          assert r[|r| - 1] == s[k];
        }
      }
    }
  }

  /** The pass is idempotent: running it on its own output keeps every
    * point. */
  lemma {:induction false} DedupIdempotent(s: seq<Vec3>, close: (Vec3, Vec3) -> bool)
    ensures Dedup(Dedup(s, close), close) == Dedup(s, close)
  {
    DedupSeparated(s, close);
    SeparatedIsFixed(Dedup(s, close), close);
  }

  /** A point close to one already kept leaves the result unchanged. */
  lemma DedupSkips(u: seq<Vec3>, x: Vec3, close: (Vec3, Vec3) -> bool)
    requires NearAny(x, Dedup(u, close), close)
    ensures Dedup(u + [x], close) == Dedup(u, close)
  {
    assert (u + [x])[..|u + [x]| - 1] == u;
  }

  lemma AppendLast(s: seq<Vec3>, t: seq<Vec3>)
    requires t != []
    ensures s + t == (s + t[..|t| - 1]) + [t[|t| - 1]]
  {
    assert t == t[..|t| - 1] + [t[|t| - 1]];
  }

  /** Appending points already present in `s` changes nothing, whenever
    * every point counts as close to itself. */
  lemma {:induction false} DedupAbsorbs(s: seq<Vec3>, t: seq<Vec3>, close: (Vec3, Vec3) -> bool)
    requires forall p :: close(p, p)
    requires forall k :: 0 <= k < |t| ==> t[k] in s
    ensures Dedup(s + t, close) == Dedup(s, close)
  {
    if t == [] {
      assert s + t == s;
    } else {
      var init, x := t[..|t| - 1], t[|t| - 1];
      forall k | 0 <= k < |init| ensures init[k] in s { assert init[k] == t[k]; }
      DedupAbsorbs(s, init, close);
      var r := Dedup(s, close);
      DedupCovers(s, close);
      var i :| 0 <= i < |s| && s[i] == x;
      assert Covered(s[i], r, close);
      var j :| 0 <= j < |r| && (r[j] == x || close(x, r[j]));
      assert close(x, r[j]) by { assert close(x, x); }
      DedupSkips(s + init, x, close);
      AppendLast(s, t);
    }
  }


  /** A sequence none of whose points is close to an earlier one is left as
    * it is. */
  lemma {:induction false} SeparatedIsFixed(r: seq<Vec3>, close: (Vec3, Vec3) -> bool)
    requires forall i, j :: 0 <= i < j < |r| ==> !close(r[j], r[i])
    ensures Dedup(r, close) == r
  {
    if r != [] {
      var init := r[..|r| - 1];
      var last := r[|r| - 1];
      forall i, j | 0 <= i < j < |init|
        ensures !close(init[j], init[i])
      {
        assert init[j] == r[j] && init[i] == r[i];
      }
      SeparatedIsFixed(init, close);
      forall j | 0 <= j < |init|
        ensures !close(last, init[j])
      {
        assert init[j] == r[j];
      }
      assert !NearAny(last, init, close);
      assert Dedup(r, close) == Dedup(init, close) + [last];
      assert init + [last] == r;
    }
  }

  /** Copies `points[..n]` into a fresh buffer of `capacity` entries, skipping
    * each point close to one copied before; `count` entries are used. */
  method CopyUnique(points: seq<Vec3>, n: nat, capacity: nat, close: (Vec3, Vec3) -> bool)
    returns (ps: array<Vec3>, count: nat)
    requires n <= |points| && n <= capacity
    ensures fresh(ps) && ps.Length == capacity && count <= n
    ensures ps[..count] == Dedup(points[..n], close)
  {
    ps := new Vec3[capacity];
    count := 0;
    var i := 0;
    while i < n
      invariant i <= n && count <= i
      invariant ps[..count] == Dedup(points[..i], close)
    {
      var p := points[i];
      var unique := true;
      var j := 0;
      while j < count
        invariant j <= count
        invariant unique
        invariant forall k :: 0 <= k < j ==> !close(p, ps[k])
      {
        if close(p, ps[j]) {
          unique := false;
          break;
        }
        j := j + 1;
      }
      assert points[..i + 1][..i] == points[..i];
      assert unique <==> !NearAny(p, ps[..count], close);
      if unique {
        ps[count] := p;
        count := count + 1;
      }
      i := i + 1;
    }
  }
}
