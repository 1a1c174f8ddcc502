/**
 * The construction-time hull `qhHull`: its arena sizing, its three typed
 * free-lists threaded through each element's `freeNext` field, its list of
 * live faces, and the hull-wide search for a half-edge.
 */
module Quickhull {
  import opened HalfEdgeMesh
  import opened IntrusiveList
  import QhFace

  /** 2^32: `u32` arithmetic is arithmetic modulo this number. */
  const U32: int := 0x1_0000_0000

  /** The byte size of each kind of element the arena holds. */
  datatype Sizes = Sizes(vertex: nat, halfEdge: nat, face: nat, edgePtr: nat, facePtr: nat)

  /** The number of bytes the arena needs for the hull of `pointCount`
    * points: by Euler's formula a simplicial polyhedron with V vertices has
    * E = 3V - 6 edges and F = 2V - 4 faces; the arena holds V vertices, two
    * sets of 2E half-edges and F faces (the hull and its scratch copies), and
    * 2E horizon-edge and 2E new-face pointers. Every step is `u32`
    * arithmetic, so the whole computation is exact arithmetic reduced once
    * modulo 2^32. */
  function GetBufferSize(pointCount: nat, sz: Sizes): (size: nat)
    requires pointCount < U32
    ensures size < U32
  {
    var V := pointCount as int;
    var E := 3 * V - 6;
    var HE := 2 * E;
    var F := 2 * V - 4;
    (V * sz.vertex + HE * sz.halfEdge + F * sz.face + HE * sz.halfEdge + F * sz.face
      + HE * sz.edgePtr + HE * sz.facePtr) % U32
  }

  /** The arena size as a linear function of the vertex count, before any
    * reduction modulo 2^32. */
  function LinearBufferSize(V: nat, sz: Sizes): int
  {
    V * (sz.vertex + 12 * sz.halfEdge + 4 * sz.face + 6 * sz.edgePtr + 6 * sz.facePtr)
      - (24 * sz.halfEdge + 8 * sz.face + 12 * sz.edgePtr + 12 * sz.facePtr)
  }

  /** From two points on, the edge and face counts do not underflow, so the
    * arena size is the linear function of V whenever it fits in 32 bits. */
  lemma BufferSizeIsLinear(V: nat, sz: Sizes)
    requires 2 <= V < U32
    requires LinearBufferSize(V, sz) < U32
    ensures 0 <= LinearBufferSize(V, sz)
    ensures GetBufferSize(V, sz) == LinearBufferSize(V, sz)
  {
    UnreducedSize(V, sz);
  }

  /** Before the reduction modulo 2^32, the size is not negative and equals
    * the linear function. */
  lemma UnreducedSize(V: nat, sz: Sizes)
    requires 2 <= V
    ensures var HE := 2 * (3 * V - 6);
            var F := 2 * V - 4;
            var exact := V * sz.vertex + HE * sz.halfEdge + F * sz.face + HE * sz.halfEdge + F * sz.face
              + HE * sz.edgePtr + HE * sz.facePtr;
            0 <= exact && exact == LinearBufferSize(V, sz)
  {
    var HE := 2 * (3 * V - 6);
    var F := 2 * V - 4;
    ScaledCount(V, sz.halfEdge);
    ScaledCount(V, sz.face);
    ScaledCount(V, sz.edgePtr);
    ScaledCount(V, sz.facePtr);
    PerVertexSplits(V, sz);
    NonNegativeProduct(HE, sz.halfEdge);
    NonNegativeProduct(F, sz.face);
    NonNegativeProduct(HE, sz.edgePtr);
    NonNegativeProduct(HE, sz.facePtr);
    NonNegativeProduct(V, sz.vertex);
  }

  /** The 2E half-edges and the F faces, at `a` bytes each, as multiples of
    * `V * a`. */
  lemma ScaledCount(V: int, a: int)
    ensures ((2 * (3 * V - 6)) * a == 6 * (V * a) - 12 * a)
    ensures ((2 * V - 4) * a == 2 * (V * a) - 4 * a)
  {
    calc {
      (2 * (3 * V - 6)) * a;
      (6 * V - 12) * a;
      6 * V * a - 12 * a;
      6 * (V * a) - 12 * a;
    }
    calc {
      (2 * V - 4) * a;
      2 * V * a - 4 * a;
      2 * (V * a) - 4 * a;
    }
  }

  /** The per-vertex size distributes over the element kinds. */
  lemma PerVertexSplits(V: nat, sz: Sizes)
    ensures LinearBufferSize(V, sz)
         == V * sz.vertex + 12 * (V * sz.halfEdge) + 4 * (V * sz.face) + 6 * (V * sz.edgePtr) + 6 * (V * sz.facePtr)
            - (24 * sz.halfEdge + 8 * sz.face + 12 * sz.edgePtr + 12 * sz.facePtr)
  {
  }

  lemma NonNegativeProduct(x: int, y: int)
    requires 0 <= x && 0 <= y
    ensures 0 <= x * y
  {
  }

  /** More points never need a smaller arena, as long as the larger size
    * fits in 32 bits. */
  lemma BufferSizeMonotone(V1: nat, V2: nat, sz: Sizes)
    requires 2 <= V1 <= V2 < U32
    requires LinearBufferSize(V2, sz) < U32
    ensures GetBufferSize(V1, sz) <= GetBufferSize(V2, sz)
  {
    var perVertex := sz.vertex + 12 * sz.halfEdge + 4 * sz.face + 6 * sz.edgePtr + 6 * sz.facePtr;
    assert V1 * perVertex <= V2 * perVertex;
    assert LinearBufferSize(V1, sz) <= LinearBufferSize(V2, sz);
    BufferSizeIsLinear(V1, sz);
    BufferSizeIsLinear(V2, sz);
  }

  /** The life-cycle tag of a face. */
  datatype FaceState = Active | Deleted

  /** `stack` is the free-list that starts at `head` and is threaded through
    * `freeNext`, most recently freed first. */
  ghost predicate Threaded(stack: seq<nat>, head: Link, freeNext: seq<Link>)
  {
    && Distinct(stack)
    && head == (if stack == [] then Null else Ptr(stack[0]))
    && (forall k :: 0 <= k < |stack| ==> stack[k] < |freeNext|)
    && (forall k {:trigger freeNext[stack[k]]} :: 0 <= k < |stack| ==> freeNext[stack[k]] == After(stack, k))
  }

  /** Pushing `x` on a free-list keeps it threaded. */
  lemma {:induction false} PushThreaded(stack: seq<nat>, head: Link, freeNext: seq<Link>, x: nat)
    requires Threaded(stack, head, freeNext)
    requires x < |freeNext| && x !in stack
    ensures Threaded([x] + stack, Ptr(x), freeNext[x := head])
  {
    var s := [x] + stack;
    forall k | 0 <= k < |s|
      ensures freeNext[x := head][s[k]] == After(s, k)
    {
      if k > 0 {
        assert s[k] == stack[k - 1] && s[k] != x;
      }
    }
  }

  /** Popping the head of a free-list keeps the rest threaded. */
  lemma {:induction false} PopThreaded(stack: seq<nat>, head: Link, freeNext: seq<Link>)
    requires Threaded(stack, head, freeNext) && stack != []
    ensures Threaded(stack[1..], freeNext[stack[0]], freeNext)
  {
    var s := stack[1..];
    assert freeNext[stack[0]] == After(stack, 0);
    forall k | 0 <= k < |s|
      ensures freeNext[s[k]] == After(s, k)
    {
      assert s[k] == stack[k + 1];
      assert freeNext[stack[k + 1]] == After(stack, k + 1);
    }
  }

  class QhHull {
    /** The half-edge mesh; the builder rewrites it as faces come and go. */
    var mesh: Mesh

    /** The live faces, most recently created first. */
    const faceList: IndexList

    /** Face id -> its boundary loop; meaningful for the live faces. */
    ghost var Loops: seq<seq<nat>>

    var faceState: seq<FaceState>

    var freeVertices: Link
    var vertexFreeNext: seq<Link>
    ghost var FreeVertexStack: seq<nat>

    var freeEdges: Link
    var edgeFreeNext: seq<Link>
    ghost var FreeEdgeStack: seq<nat>

    var freeFaces: Link
    var faceFreeNext: seq<Link>
    ghost var FreeFaceStack: seq<nat>

    ghost predicate Valid()
      reads this, faceList
    {
      && faceList.Valid()
      && |faceList.next| == |mesh.faceEdge| == |faceState| == |faceFreeNext| == |Loops|
      && |vertexFreeNext| == |mesh.positions|
      && |edgeFreeNext| == |mesh.tail|
      && Threaded(FreeVertexStack, freeVertices, vertexFreeNext)
      && Threaded(FreeEdgeStack, freeEdges, edgeFreeNext)
      && Threaded(FreeFaceStack, freeFaces, faceFreeNext)
      && (forall k :: 0 <= k < |faceList.Contents| ==>
            IsFaceLoop(mesh, faceList.Contents[k], Loops[faceList.Contents[k]]))
    }

    /** A hull over the mesh `m` with no live face and empty free-lists. */
    constructor (m: Mesh)
      ensures Valid()
      ensures mesh == m && faceList.Contents == [] && fresh(faceList)
      ensures FreeVertexStack == [] && FreeEdgeStack == [] && FreeFaceStack == []
    {
      mesh := m;
      faceList := new IndexList(|m.faceEdge|);
      Loops := seq(|m.faceEdge|, _ => []);
      faceState := seq(|m.faceEdge|, _ => Active);
      freeVertices, vertexFreeNext, FreeVertexStack := Null, seq(|m.positions|, _ => Null), [];
      freeEdges, edgeFreeNext, FreeEdgeStack := Null, seq(|m.tail|, _ => Null), [];
      freeFaces, faceFreeNext, FreeFaceStack := Null, seq(|m.faceEdge|, _ => Null), [];
    }

    /** Pops the most recently freed vertex. */
    method AllocateVertex() returns (v: nat)
      requires Valid() && FreeVertexStack != []
      modifies this
      ensures Valid()
      ensures v == old(FreeVertexStack[0]) && FreeVertexStack == old(FreeVertexStack[1..])
      ensures freeVertices == old(vertexFreeNext[v]) && vertexFreeNext == old(vertexFreeNext)
      ensures FreeEdgeStack == old(FreeEdgeStack) && FreeFaceStack == old(FreeFaceStack)
      ensures freeEdges == old(freeEdges) && freeFaces == old(freeFaces)
      ensures edgeFreeNext == old(edgeFreeNext) && faceFreeNext == old(faceFreeNext)
      ensures mesh == old(mesh) && faceState == old(faceState) && Loops == old(Loops)
    {
      PopThreaded(FreeVertexStack, freeVertices, vertexFreeNext);
      v := freeVertices.index;
      freeVertices := vertexFreeNext[v];
      FreeVertexStack := FreeVertexStack[1..];
    }

    /** Pushes vertex `v`, which is not free, on the vertex free-list. */
    method FreeVertex(v: nat)
      requires Valid() && v < |vertexFreeNext| && v !in FreeVertexStack
      modifies this
      ensures Valid()
      ensures FreeVertexStack == [v] + old(FreeVertexStack) && freeVertices == Ptr(v)
      ensures vertexFreeNext == old(vertexFreeNext)[v := old(freeVertices)]
      ensures FreeEdgeStack == old(FreeEdgeStack) && FreeFaceStack == old(FreeFaceStack)
      ensures freeEdges == old(freeEdges) && freeFaces == old(freeFaces)
      ensures edgeFreeNext == old(edgeFreeNext) && faceFreeNext == old(faceFreeNext)
      ensures mesh == old(mesh) && faceState == old(faceState) && Loops == old(Loops)
    {
      PushThreaded(FreeVertexStack, freeVertices, vertexFreeNext, v);
      vertexFreeNext := vertexFreeNext[v := freeVertices];
      freeVertices := Ptr(v);
      FreeVertexStack := [v] + FreeVertexStack;
    }

    /** Pops the most recently freed half-edge. */
    method AllocateEdge() returns (e: nat)
      requires Valid() && FreeEdgeStack != []
      modifies this
      ensures Valid()
      ensures e == old(FreeEdgeStack[0]) && FreeEdgeStack == old(FreeEdgeStack[1..])
      ensures freeEdges == old(edgeFreeNext[e]) && edgeFreeNext == old(edgeFreeNext)
      ensures FreeVertexStack == old(FreeVertexStack) && FreeFaceStack == old(FreeFaceStack)
      ensures freeVertices == old(freeVertices) && freeFaces == old(freeFaces)
      ensures vertexFreeNext == old(vertexFreeNext) && faceFreeNext == old(faceFreeNext)
      ensures mesh == old(mesh) && faceState == old(faceState) && Loops == old(Loops)
    {
      PopThreaded(FreeEdgeStack, freeEdges, edgeFreeNext);
      e := freeEdges.index;
      freeEdges := edgeFreeNext[e];
      FreeEdgeStack := FreeEdgeStack[1..];
    }

    /** Pushes half-edge `e`, which is not free, on the edge free-list. */
    method FreeEdge(e: nat)
      requires Valid() && e < |edgeFreeNext| && e !in FreeEdgeStack
      modifies this
      ensures Valid()
      ensures FreeEdgeStack == [e] + old(FreeEdgeStack) && freeEdges == Ptr(e)
      ensures edgeFreeNext == old(edgeFreeNext)[e := old(freeEdges)]
      ensures FreeVertexStack == old(FreeVertexStack) && FreeFaceStack == old(FreeFaceStack)
      ensures freeVertices == old(freeVertices) && freeFaces == old(freeFaces)
      ensures vertexFreeNext == old(vertexFreeNext) && faceFreeNext == old(faceFreeNext)
      ensures mesh == old(mesh) && faceState == old(faceState) && Loops == old(Loops)
    {
      PushThreaded(FreeEdgeStack, freeEdges, edgeFreeNext, e);
      edgeFreeNext := edgeFreeNext[e := freeEdges];
      freeEdges := Ptr(e);
      FreeEdgeStack := [e] + FreeEdgeStack;
    }

    /** Pops the most recently freed face. */
    method AllocateFace() returns (f: nat)
      requires Valid() && FreeFaceStack != []
      modifies this
      ensures Valid()
      ensures f == old(FreeFaceStack[0]) && FreeFaceStack == old(FreeFaceStack[1..])
      ensures freeFaces == old(faceFreeNext[f]) && faceFreeNext == old(faceFreeNext)
      ensures FreeVertexStack == old(FreeVertexStack) && FreeEdgeStack == old(FreeEdgeStack)
      ensures freeVertices == old(freeVertices) && freeEdges == old(freeEdges)
      ensures vertexFreeNext == old(vertexFreeNext) && edgeFreeNext == old(edgeFreeNext)
      ensures mesh == old(mesh) && faceState == old(faceState) && Loops == old(Loops)
    {
      PopThreaded(FreeFaceStack, freeFaces, faceFreeNext);
      f := freeFaces.index;
      freeFaces := faceFreeNext[f];
      FreeFaceStack := FreeFaceStack[1..];
    }

    /** Marks face `f`, which is not free, deleted and pushes it on the face
      * free-list. */
    method FreeFace(f: nat)
      requires Valid() && f < |faceFreeNext| && f !in FreeFaceStack
      modifies this
      ensures Valid()
      ensures FreeFaceStack == [f] + old(FreeFaceStack) && freeFaces == Ptr(f)
      ensures faceFreeNext == old(faceFreeNext)[f := old(freeFaces)]
      ensures faceState == old(faceState)[f := Deleted]
      ensures FreeVertexStack == old(FreeVertexStack) && FreeEdgeStack == old(FreeEdgeStack)
      ensures freeVertices == old(freeVertices) && freeEdges == old(freeEdges)
      ensures vertexFreeNext == old(vertexFreeNext) && edgeFreeNext == old(edgeFreeNext)
      ensures mesh == old(mesh) && Loops == old(Loops)
    {
      PushThreaded(FreeFaceStack, freeFaces, faceFreeNext, f);
      faceState := faceState[f := Deleted];
      faceFreeNext := faceFreeNext[f := freeFaces];
      freeFaces := Ptr(f);
      FreeFaceStack := [f] + FreeFaceStack;
    }

    /** Freeing a face and allocating one at once gives that face back and
      * leaves the face free-list as it was. */
    method RecycleFace(f: nat) returns (g: nat)
      requires Valid() && f < |faceFreeNext| && f !in FreeFaceStack
      modifies this
      ensures Valid()
      ensures g == f && FreeFaceStack == old(FreeFaceStack) && freeFaces == old(freeFaces)
      ensures faceState == old(faceState)[f := Deleted]
    {
      FreeFace(f);
      g := AllocateFace();
    }

    /** Searches the live faces, from the head of the face list, for a
      * half-edge from `tail` to `head`; returns the first one found, or null. */
    method FindTwin(tail: nat, head: nat) returns (r: Link)
      requires Valid()
      ensures r.Ptr? ==> Joins(mesh, r.index, tail, head)
      ensures r.Ptr? ==> exists i :: 0 <= i < |faceList.Contents| && FirstJoin(mesh, Loops[faceList.Contents[i]], r.index, tail, head)
                                     && forall j :: 0 <= j < i ==> NoEdgeJoins(mesh, Loops[faceList.Contents[j]], tail, head)
      ensures r.Null? <==> forall i :: 0 <= i < |faceList.Contents| ==> NoEdgeJoins(mesh, Loops[faceList.Contents[i]], tail, head)
    {
      ghost var c := faceList.Contents;
      var face := faceList.head;
      ghost var i := 0;
      while face.Ptr?
        invariant i <= |c| && face == (if i < |c| then Ptr(c[i]) else Null)
        invariant forall j :: 0 <= j < i ==> NoEdgeJoins(mesh, Loops[c[j]], tail, head)
        decreases |c| - i
      {
        var e := QhFace.FindTwin(mesh, face.index, tail, head, Loops[face.index]);
        if e.Ptr? {
          return e;
        }
        assert faceList.next[c[i]] == After(c, i);
        face := faceList.next[face.index];
        i := i + 1;
      }
      r := Null;
    }
  }

  /** `e` is the first half-edge of `loop`, in loop order, that runs from
    * `tail` to `head`. */
  ghost predicate FirstJoin(m: Mesh, loop: seq<nat>, e: nat, tail: nat, head: nat)
  {
    exists p :: 0 <= p < |loop| && loop[p] == e && Joins(m, e, tail, head)
                && forall q :: 0 <= q < p ==> !Joins(m, loop[q], tail, head)
  }

  /** No half-edge of `loop` runs from `tail` to `head`. */
  ghost predicate NoEdgeJoins(m: Mesh, loop: seq<nat>, tail: nat, head: nat)
  {
    forall i :: 0 <= i < |loop| ==> !Joins(m, loop[i], tail, head)
  }
}
