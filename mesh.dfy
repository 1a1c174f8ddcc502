/**
 * The construction-time half-edge mesh of the quickhull builder, with every
 * pointer written as an index: vertex i, half-edge e and face f are positions
 * in the sequences below, and two pointers are equal exactly when the indices
 * are.
 */
module HalfEdgeMesh {

  datatype Vec3 = Vec3(x: real, y: real, z: real)

  /** A face plane: a normal and an offset from the origin. The model copies
    * planes and never computes one. */
  datatype Plane = Plane(normal: Vec3, offset: real)

  /** A nullable pointer into one of the arena's pools. */
  datatype Link = Null | Ptr(index: nat)

  datatype Mesh = Mesh(
    positions: seq<Vec3>,  // vertex -> position
    tail: seq<nat>,        // half-edge -> origin vertex
    twin: seq<nat>,        // half-edge -> the opposite half-edge
    next: seq<nat>,        // half-edge -> the next half-edge around its face
    faceEdge: seq<nat>,    // face -> its representative boundary half-edge
    planes: seq<Plane>)    // face -> its plane

  /** One step along `next`; an index outside the mesh stays where it is. */
  function Step(next: seq<nat>, e: nat): nat
  {
    if e < |next| then next[e] else e
  }

  /** The half-edge reached from `e` after `k` steps along `next`. */
  function Follow(next: seq<nat>, e: nat, k: nat): nat
  {
    if k == 0 then e else Step(next, Follow(next, e, k - 1))
  }

  /** No entry of `s` occurs twice. */
  ghost predicate Distinct(s: seq<nat>)
  {
    forall i, j :: 0 <= i < j < |s| ==> s[i] != s[j]
  }

  /** `loop` lists, in `next` order and without repetition, the boundary
    * half-edges of face `f`, starting at the face's representative edge. */
  ghost predicate IsFaceLoop(m: Mesh, f: nat, loop: seq<nat>)
  {
    && f < |m.faceEdge|
    && |m.tail| == |m.next|
    && |loop| > 0
    && loop[0] == m.faceEdge[f]
    && (forall i :: 0 <= i < |loop| ==> loop[i] < |m.next|)
    && (forall i {:trigger m.next[loop[i]]} :: 0 <= i < |loop| ==> m.next[loop[i]] == NextInLoop(loop, i))
    && Distinct(loop)
  }

  /** The entry after position `i` of a cyclic listing. */
  function NextInLoop(loop: seq<nat>, i: nat): nat
    requires i < |loop|
  {
    if i + 1 < |loop| then loop[i + 1] else loop[0]
  }

  /** Half-edge `e` runs from vertex `tail` to vertex `head`. */
  ghost predicate Joins(m: Mesh, e: nat, tail: nat, head: nat)
  {
    e < |m.next| && m.next[e] < |m.tail| && e < |m.tail| && m.tail[e] == tail && m.tail[m.next[e]] == head
  }

  /** Following `next` from the start of a face loop visits the loop in
    * order and is back at the start after one full turn. */
  lemma {:induction false} FollowAlongLoop(m: Mesh, f: nat, loop: seq<nat>, k: nat)
    requires IsFaceLoop(m, f, loop)
    requires k <= |loop|
    ensures Follow(m.next, loop[0], k) == if k < |loop| then loop[k] else loop[0]
  {
    if k > 0 {
      FollowAlongLoop(m, f, loop, k - 1);
      assert Follow(m.next, loop[0], k) == m.next[loop[k - 1]];
    }
  }

  /** The length of a face loop is the least number of steps that leads from
    * the representative edge back to itself, so it does not depend on which
    * listing of the loop is chosen. */
  lemma LoopLengthUnique(m: Mesh, f: nat, loop1: seq<nat>, loop2: seq<nat>)
    requires IsFaceLoop(m, f, loop1) && IsFaceLoop(m, f, loop2)
    ensures |loop1| == |loop2|
  {
    if |loop1| < |loop2| {
      FollowAlongLoop(m, f, loop1, |loop1|);
      FollowAlongLoop(m, f, loop2, |loop1|);
    } else if |loop2| < |loop1| {
      FollowAlongLoop(m, f, loop1, |loop2|);
      FollowAlongLoop(m, f, loop2, |loop2|);
    }
  }
}

/**
 * Member functions of a quickhull face that walk its boundary loop: each is a
 * do-while loop over `next` that stops on returning to the face's edge.
 */
module QhFace {
  import opened HalfEdgeMesh

  /** Counts the vertices around face `f`. */
  method GetVertexCount(m: Mesh, f: nat, ghost loop: seq<nat>) returns (count: nat)
    requires IsFaceLoop(m, f, loop)
    ensures count == |loop| && count >= 1
    ensures Follow(m.next, m.faceEdge[f], count) == m.faceEdge[f]
    ensures forall k :: 0 < k < count ==> Follow(m.next, m.faceEdge[f], k) != m.faceEdge[f]
  {
    count := 0;
    var e := m.faceEdge[f];
    while true
      invariant count < |loop| && e == loop[count]
      invariant e == Follow(m.next, m.faceEdge[f], count)
      invariant forall k :: 0 < k <= count ==> Follow(m.next, m.faceEdge[f], k) != m.faceEdge[f]
      decreases |loop| - count
    {
      count := count + 1;
      e := m.next[e];
      if e == m.faceEdge[f] {
        break;
      }
    }
  }

  /** Counts the half-edges around face `f`. */
  method GetEdgeCount(m: Mesh, f: nat, ghost loop: seq<nat>) returns (count: nat)
    requires IsFaceLoop(m, f, loop)
    ensures count == |loop| && count >= 1
    ensures Follow(m.next, m.faceEdge[f], count) == m.faceEdge[f]
    ensures forall k :: 0 < k < count ==> Follow(m.next, m.faceEdge[f], k) != m.faceEdge[f]
  {
    count := 0;
    var e := m.faceEdge[f];
    while true
      invariant count < |loop| && e == loop[count]
      invariant e == Follow(m.next, m.faceEdge[f], count)
      invariant forall k :: 0 < k <= count ==> Follow(m.next, m.faceEdge[f], k) != m.faceEdge[f]
      decreases |loop| - count
    {
      count := count + 1;
      e := m.next[e];
      if e == m.faceEdge[f] {
        break;
      }
    }
  }

  /** Finds the half-edge of face `f` that runs from `tail` to `head`: the
    * first one in loop order from the face's edge, or null if none does. */
  method FindTwin(m: Mesh, f: nat, tail: nat, head: nat, ghost loop: seq<nat>) returns (r: Link)
    requires IsFaceLoop(m, f, loop)
    ensures r.Ptr? ==> exists i :: 0 <= i < |loop| && loop[i] == r.index && Joins(m, r.index, tail, head)
                                   && forall j :: 0 <= j < i ==> !Joins(m, loop[j], tail, head)
    ensures r.Null? <==> forall i :: 0 <= i < |loop| ==> !Joins(m, loop[i], tail, head)
  {
    var e := m.faceEdge[f];
    ghost var i := 0;
    while true
      invariant i < |loop| && e == loop[i]
      invariant forall j :: 0 <= j < i ==> !Joins(m, loop[j], tail, head)
      decreases |loop| - i
    {
      var tail2 := m.tail[e];
      var head2 := m.tail[m.next[e]];
      if tail2 == tail && head2 == head {
        return Ptr(e);
      }
      e := m.next[e];
      i := i + 1;
      if e == m.faceEdge[f] {
        break;
      }
    }
    r := Null;
  }
}
