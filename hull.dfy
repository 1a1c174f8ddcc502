/**
 * The run-time convex hull `b3QHull` and its `Set` operation, which welds the
 * input points, lets the quickhull builder make a half-edge mesh of them, and
 * compacts that mesh into small index arrays: vertices, half-edges (emitted in
 * twin pairs 2k, 2k+1), faces and planes.
 *
 * The proof follows the compaction with two ghost sequences: `V[k]` is the
 * construction vertex copied into run-time vertex slot `k`, and `E[k]` the
 * construction half-edge that run-time half-edge `k` stands for.
 */
module RuntimeHull {
  import opened HalfEdgeMesh
  import opened PointerIndexMap
  import opened PointDedup

  /** The "no feature" index; a half-edge whose face is not yet known carries it. */
  const NullFeature: nat := 0xFF

  datatype HalfEdge = HalfEdge(origin: nat, twin: nat, face: nat, next: nat)

  /** What the builder hands back: its mesh and its face list, from the head. */
  datatype Construction = Construction(mesh: Mesh, faces: seq<nat>)

  /** A witness that a construction is a closed mesh: the boundary loop of
    * each listed face (by list position), and for each half-edge the list
    * position of its face and its position in that face's loop. */
  datatype Layout = Layout(loops: seq<seq<nat>>, faceOf: seq<nat>, posOf: seq<nat>)

  /** Twins pair the half-edges up: no half-edge is its own twin, and the
    * twin of a twin is the half-edge itself. */
  ghost predicate TwinsPaired(m: Mesh)
  {
    && |m.twin| == |m.tail|
    && (forall h {:trigger m.twin[h]} :: 0 <= h < |m.tail| ==> m.twin[h] < |m.tail| && m.twin[h] != h)
    && (forall h, g {:trigger m.twin[h], m.twin[g]} :: 0 <= h < |m.tail| && 0 <= g < |m.tail| && m.twin[h] == g ==> m.twin[g] == h)
  }

  /** Every half-edge starts at a vertex of the mesh. */
  ghost predicate TailsInRange(m: Mesh)
  {
    forall h {:trigger m.tail[h]} :: 0 <= h < |m.tail| ==> m.tail[h] < |m.positions|
  }

  /** The listed faces' boundary loops partition the half-edges. */
  ghost predicate LoopsCover(c: Construction, lay: Layout)
  {
    var m := c.mesh;
    var H := |m.tail|;
    && |m.next| == H && |lay.faceOf| == H && |lay.posOf| == H
    && |lay.loops| == |c.faces|
    && (forall a :: 0 <= a < |c.faces| ==> IsFaceLoop(m, c.faces[a], lay.loops[a]) && c.faces[a] < |m.planes|)
    && (forall a, i {:trigger lay.loops[a][i]} :: 0 <= a < |lay.loops| && 0 <= i < |lay.loops[a]| ==>
          lay.loops[a][i] < H && lay.faceOf[lay.loops[a][i]] == a && lay.posOf[lay.loops[a][i]] == i)
    && (forall h {:trigger lay.faceOf[h]} {:trigger lay.posOf[h]} :: 0 <= h < H ==>
          lay.faceOf[h] < |lay.loops| && lay.posOf[h] < |lay.loops[lay.faceOf[h]]|
          && lay.loops[lay.faceOf[h]][lay.posOf[h]] == h)
  }

  /** The builder's mesh is closed: every half-edge lies on exactly one listed
    * face loop, twins pair the half-edges up, and every index is in range. */
  ghost predicate Closed(c: Construction, lay: Layout)
  {
    TwinsPaired(c.mesh) && TailsInRange(c.mesh) && LoopsCover(c, lay)
  }

  ghost predicate Buildable(c: Construction)
  {
    exists lay :: Closed(c, lay)
  }

  /** The construction vertices that some half-edge starts at: the ones the
    * run-time hull gets. */
  ghost function Tails(m: Mesh): set<nat>
  {
    set h | 0 <= h < |m.tail| :: m.tail[h]
  }

  /** The construction does not fit run-time arrays of `maxVertices` vertices
    * and `maxEdges` half-edges: the last twin pair would leave no slot free,
    * or there are more tail vertices than slots. */
  ghost predicate Overflows(c: Construction, maxVertices: nat, maxEdges: nat)
  {
    (0 < |c.mesh.tail| && maxEdges <= |c.mesh.tail|) || maxVertices < |Tails(c.mesh)|
  }

  /** The twin slot of run-time half-edge `k`: pairs are (2j, 2j+1). */
  function Pair(k: nat): nat
  {
    if k % 2 == 0 then k + 1 else k - 1
  }

  /** Pairing stays among the first `n` slots when `n` is even, and is its
    * own inverse. */
  lemma PairInRange(k: nat, n: nat)
    requires k < n && n % 2 == 0
    ensures Pair(k) < n && Pair(Pair(k)) == k
  {
  }

  /** Half-edge `h` comes before position `i` of face `a` in the walk. */
  ghost predicate Visited(lay: Layout, a: nat, i: nat, h: nat)
    requires h < |lay.faceOf| && h < |lay.posOf|
  {
    lay.faceOf[h] < a || (lay.faceOf[h] == a && lay.posOf[h] < i)
  }

  /** One step of the walk visits exactly the half-edge it stands on. */
  lemma VisitedStep(c: Construction, lay: Layout, a: nat, i: nat, x: nat)
    requires Closed(c, lay) && a < |lay.loops| && i < |lay.loops[a]| && x < |c.mesh.tail|
    ensures Visited(lay, a, i + 1, x) <==> Visited(lay, a, i, x) || x == lay.loops[a][i]
  {
  }

  /** `x` occurs in `s`, checked from the end. */
  function Has(s: seq<nat>, x: nat): bool
  {
    s != [] && (s[|s| - 1] == x || Has(s[..|s| - 1], x))
  }

  lemma {:induction false} HasIsIn(s: seq<nat>, x: nat)
    ensures Has(s, x) <==> x in s
  {
    if s != [] {
      HasIsIn(s[..|s| - 1], x);
      assert s == s[..|s| - 1] + [s[|s| - 1]];
    }
  }

  /** `V` with `v` appended, unless `v` is in it already. */
  function AddNew(V: seq<nat>, v: nat): (r: seq<nat>)
    ensures V <= r && |r| <= |V| + 1
  {
    if Has(V, v) then V else V + [v]
  }

  /** After `AddNew`, `v` has a slot, and no vertex has two if none had. */
  lemma AddNewHolds(V: seq<nat>, v: nat)
    ensures v in AddNew(V, v)
    ensures Distinct(V) ==> Distinct(AddNew(V, v))
  {
    HasIsIn(V, v);
  }

  /** Which construction vertex each run-time vertex slot holds, and which
    * construction half-edge each run-time half-edge slot stands for. */
  datatype Numbering = Numbering(V: seq<nat>, E: seq<nat>)

  /** The numbering after the walk visits half-edge `h`: its tail, then its
    * twin's tail, get vertex slots when new, and `h` with its twin gets a
    * pair of half-edge slots when new. */
  ghost function VisitStep(m: Mesh, n: Numbering, h: nat): Numbering
    requires TwinsPaired(m) && h < |m.tail|
  {
    Numbering(AddNew(AddNew(n.V, m.tail[h]), m.tail[m.twin[h]]), if Has(n.E, h) then n.E else n.E + [h, m.twin[h]])
  }

  /** One step numbers both ends of `h` and `h` itself, keeps every earlier
    * slot, adds at most two of each kind, and never gives a vertex a second
    * slot. */
  lemma VisitStepNumbers(m: Mesh, n: Numbering, h: nat)
    requires TwinsPaired(m) && h < |m.tail|
    ensures n.V <= VisitStep(m, n, h).V && |VisitStep(m, n, h).V| <= |n.V| + 2
    ensures m.tail[h] in VisitStep(m, n, h).V && m.tail[m.twin[h]] in VisitStep(m, n, h).V
    ensures n.E <= VisitStep(m, n, h).E && |VisitStep(m, n, h).E| <= |n.E| + 2 && h in VisitStep(m, n, h).E
    ensures Distinct(n.V) ==> Distinct(VisitStep(m, n, h).V)
  {
    var V1 := AddNew(n.V, m.tail[h]);
    AddNewHolds(n.V, m.tail[h]);
    AddNewHolds(V1, m.tail[m.twin[h]]);
    HasIsIn(n.E, h);
  }

  /** The vertex map's entries `pis` and the vertex array `verts` hold, at
    * slot `k`, the construction vertex `V[k]`; no vertex has two slots. */
  ghost predicate VertexState(m: Mesh, V: seq<nat>, pis: seq<PointerIndex>, verts: seq<Vec3>, vc: nat)
  {
    && |pis| == |verts| && |V| == vc && vc <= |verts|
    && Distinct(V)
    && (forall k :: 0 <= k < vc ==> V[k] < |m.positions| && V[k] in Tails(m))
    && (forall k {:trigger pis[k]} :: 0 <= k < vc ==> pis[k] == PointerIndex(V[k], k))
    && (forall k {:trigger verts[k]} :: 0 <= k < vc ==> verts[k] == m.positions[V[k]])
  }

  /** The edge map's entries `pis` hold, at slot `k`, the construction
    * half-edge `E[k]`; no half-edge has two slots, paired slots hold twins,
    * and two more slots are always left free. */
  ghost predicate EdgeState(m: Mesh, E: seq<nat>, pis: seq<PointerIndex>, ec: nat)
  {
    && |m.twin| == |m.tail|
    && |E| == ec && ec % 2 == 0 && (ec == 0 || ec < |pis|)
    && Distinct(E)
    && (forall k :: 0 <= k < ec ==> E[k] < |m.tail|)
    && (forall k {:trigger pis[k]} :: 0 <= k < ec ==> pis[k] == PointerIndex(E[k], k))
    && (forall k {:trigger E[Pair(k)]} :: 0 <= k < ec && Pair(k) < ec ==> E[Pair(k)] == m.twin[E[k]])
  }

  /** The run-time half-edge records `recs` emitted so far, when the walk is
    * at position `i` of face `a` and the first `linked` half-edges of face
    * `a` have their `next` set: every visited half-edge has a slot, and each
    * slot carries its origin, its twin, its face once visited, and its `next`
    * once linked. */
  ghost predicate EdgeRecords(c: Construction, lay: Layout, a: nat, i: nat, linked: nat,
                              V: seq<nat>, E: seq<nat>, recs: seq<HalfEdge>)
    requires Closed(c, lay)
  {
    var m := c.mesh;
    && |E| <= |recs|
    && (forall h :: 0 <= h < |m.tail| && Visited(lay, a, i, h) ==> h in E)
    && (forall k :: 0 <= k < |E| ==> E[k] < |m.tail|)
    && (forall k {:trigger recs[k]} :: 0 <= k < |E| && E[k] < |m.tail| ==>
          && recs[k].origin < |V| && V[recs[k].origin] == m.tail[E[k]]
          && recs[k].twin == Pair(k)
          && recs[k].face == (if Visited(lay, a, i, E[k]) then lay.faceOf[E[k]] else NullFeature)
          && (Visited(lay, a, linked, E[k]) ==> recs[k].next < |E| && E[recs[k].next] == m.next[E[k]]))
  }

  /** The first `a` listed faces have their run-time face edge in `fs` and
    * their plane in `pls`. */
  ghost predicate FaceRecords(c: Construction, lay: Layout, a: nat, E: seq<nat>, fs: seq<nat>, pls: seq<Plane>)
    requires Closed(c, lay)
  {
    && a <= |c.faces| && a <= |fs| && a <= |pls|
    && (forall b :: 0 <= b < a ==>
          fs[b] < |E| && E[fs[b]] == lay.loops[b][0] && pls[b] == c.mesh.planes[c.faces[b]])
  }

  /** `fhs[..nfh]` holds the run-time slots of the first `i` half-edges of
    * face `a`. */
  ghost predicate FaceHalfEdges(lay: Layout, a: nat, i: nat, E: seq<nat>, fhs: seq<nat>, nfh: nat)
  {
    && nfh == i && a < |lay.loops| && i <= |lay.loops[a]| && nfh <= |fhs|
    && (forall j :: 0 <= j < i ==> fhs[j] < |E|)
    && (forall j {:trigger fhs[j]} :: 0 <= j < i && fhs[j] < |E| ==> E[fhs[j]] == lay.loops[a][j])
  }

  /** n distinct values below n leave no room for one more. */
  lemma {:induction false} Pigeonhole(s: seq<nat>, n: nat)
    requires Distinct(s)
    requires forall i :: 0 <= i < |s| ==> s[i] < n
    ensures |s| <= n
  {
    if |s| > 0 {
      assert s[0] < n;
      if k :| 0 <= k < |s| && s[k] == n - 1 {
        var t := s[..k] + s[k + 1..];
        forall i | 0 <= i < |t|
          ensures t[i] == s[if i < k then i else i + 1]
        {
        }
        Pigeonhole(t, n - 1);
      } else {
        Pigeonhole(s, n - 1);
      }
    }
  }

  /** Distinct entries all drawn from `S` are no more than `S` has members. */
  lemma {:induction false} DistinctWithin(s: seq<nat>, S: set<nat>)
    requires Distinct(s) && forall i :: 0 <= i < |s| ==> s[i] in S
    ensures |s| <= |S|
  {
    if s != [] {
      var init := s[..|s| - 1];
      var x := s[|s| - 1];
      forall i | 0 <= i < |init|
        ensures init[i] in S - {x}
      {
        assert init[i] == s[i] && s[i] != s[|s| - 1];
      }
      forall i, j | 0 <= i < j < |init|
        ensures init[i] != init[j]
      {
        assert init[i] == s[i] && init[j] == s[j];
      }
      DistinctWithin(init, S - {x});
    }
  }

  /** A set whose members all occur in `s` has no more members than `s` has
    * entries. */
  lemma {:induction false} CoveredBySeq(s: seq<nat>, S: set<nat>)
    requires forall x :: x in S ==> x in s
    ensures |S| <= |s|
  {
    if s == [] {
      assert S == {};
    } else {
      var init := s[..|s| - 1];
      var x := s[|s| - 1];
      forall y | y in S - {x}
        ensures y in init
      {
        var i :| 0 <= i < |s| && s[i] == y;
        assert init[i] == y;
      }
      CoveredBySeq(init, S - {x});
    }
  }

  /** A tail vertex that has no slot while the vertex map holds `|V|` distinct
    * tail vertices: there are more than `|V|` tail vertices. */
  lemma VertexOverflow(m: Mesh, V: seq<nat>, v: nat)
    requires Distinct(V) && forall k :: 0 <= k < |V| ==> V[k] in Tails(m)
    requires v in Tails(m) && v !in V
    ensures |V| < |Tails(m)|
  {
    var V' := V + [v];
    forall i, j | 0 <= i < j < |V'|
      ensures V'[i] != V'[j]
    {
      if j == |V| {
        assert V'[i] == V[i];
      }
    }
    DistinctWithin(V', Tails(m));
  }

  /** The twin of a half-edge that has no slot has none either. */
  lemma UnmappedTwin(m: Mesh, E: seq<nat>, pis: seq<PointerIndex>, h: nat)
    requires TwinsPaired(m) && EdgeState(m, E, pis, |E|)
    requires h < |m.tail| && h !in E
    ensures m.twin[h] !in E
  {
    var t := m.twin[h];
    assert m.twin[t] == h;
    forall k | 0 <= k < |E|
      ensures E[k] != t
    {
      PairInRange(k, |E|);
      assert E[Pair(k)] == m.twin[E[k]];
    }
  }

  /** A half-edge that has no slot, and its twin, still wait for two: the
    * mesh has at least two more half-edges than the edge map holds. */
  lemma EdgeOverflow(m: Mesh, E: seq<nat>, pis: seq<PointerIndex>, h: nat)
    requires TwinsPaired(m) && EdgeState(m, E, pis, |E|)
    requires h < |m.tail| && h !in E
    ensures |E| + 2 <= |m.tail|
  {
    var t := m.twin[h];
    UnmappedTwin(m, E, pis, h);
    var E' := E + [h, t];
    forall i, j | 0 <= i < j < |E'|
      ensures E'[i] != E'[j]
    {
      if j >= |E| {
        assert i < |E| ==> E'[i] == E[i];
      }
    }
    Pigeonhole(E', |m.tail|);
  }

  /** A new vertex `v` takes the next free slot. */
  lemma AddVertex(m: Mesh, V: seq<nat>, pis: seq<PointerIndex>, verts: seq<Vec3>, vc: nat, v: nat)
    requires VertexState(m, V, pis, verts, vc) && vc < |verts| && v < |m.positions| && v in Tails(m) && v !in V
    ensures VertexState(m, V + [v], pis[vc := PointerIndex(v, vc)], verts[vc := m.positions[v]], vc + 1)
  {
    var V' := V + [v];
    forall k | 0 <= k < vc
      ensures V'[k] == V[k] && V[k] < |m.positions| && V[k] in Tails(m)
      ensures pis[k] == PointerIndex(V[k], k) && verts[k] == m.positions[V[k]]
    {
    }
  }

  /** Mapping more vertices keeps the origins already recorded. */
  lemma KeepOrigins(c: Construction, lay: Layout, a: nat, i: nat, V: seq<nat>, V': seq<nat>, E: seq<nat>, recs: seq<HalfEdge>)
    requires Closed(c, lay) && V <= V'
    requires EdgeRecords(c, lay, a, i, 0, V, E, recs)
    ensures EdgeRecords(c, lay, a, i, 0, V', E, recs)
  {
  }

  /** Emitting more half-edges keeps the faces already recorded. */
  lemma KeepFaces(c: Construction, lay: Layout, a: nat, E: seq<nat>, E': seq<nat>, fs: seq<nat>, pls: seq<Plane>)
    requires Closed(c, lay) && E <= E'
    requires FaceRecords(c, lay, a, E, fs, pls)
    ensures FaceRecords(c, lay, a, E', fs, pls)
  {
  }

  /** The half-edge at position `i` of face `a`, found in slot `k`, has no
    * face yet; giving it face `a` moves the walk one step on. */
  lemma ClaimTwinRecords(c: Construction, lay: Layout, a: nat, i: nat, V: seq<nat>, E: seq<nat>, recs: seq<HalfEdge>, k: nat)
    requires Closed(c, lay) && a < |c.faces| && i < |lay.loops[a]|
    requires k < |E| && E[k] == lay.loops[a][i] && Distinct(E)
    requires EdgeRecords(c, lay, a, i, 0, V, E, recs)
    ensures k < |recs| && recs[k].face == NullFeature
    ensures EdgeRecords(c, lay, a, i + 1, 0, V, E, recs[k := recs[k].(face := a)])
  {
    var recs' := recs[k := recs[k].(face := a)];
    forall x | 0 <= x < |c.mesh.tail|
      ensures Visited(lay, a, i + 1, x) <==> Visited(lay, a, i, x) || x == E[k]
    {
      VisitedStep(c, lay, a, i, x);
    }
    forall k' | 0 <= k' < |E| && k' != k
      ensures recs'[k'] == recs[k'] && E[k'] != E[k]
    {
    }
  }

  /** A half-edge not in `E` and its twin take the next two slots of the
    * edge map. */
  lemma EmitPairState(m: Mesh, E: seq<nat>, pis: seq<PointerIndex>, h: nat)
    requires TwinsPaired(m) && EdgeState(m, E, pis, |E|)
    requires h < |m.tail| && h !in E && |E| + 2 < |pis|
    ensures m.twin[h] !in E
    ensures EdgeState(m, E + [h, m.twin[h]],
                      pis[|E| := PointerIndex(h, |E|)][|E| + 1 := PointerIndex(m.twin[h], |E| + 1)], |E| + 2)
  {
    var t := m.twin[h];
    var ec := |E|;
    var E' := E + [h, t];
    var pis' := pis[ec := PointerIndex(h, ec)][ec + 1 := PointerIndex(t, ec + 1)];
    UnmappedTwin(m, E, pis, h);
    forall k | 0 <= k < ec + 2
      ensures pis'[k] == PointerIndex(E'[k], k)
    {
    }
    forall k | 0 <= k < ec + 2 && Pair(k) < ec + 2
      ensures E'[Pair(k)] == m.twin[E'[k]]
    {
      if k < ec {
        PairInRange(k, ec);
      }
    }
  }

  /** The half-edge at position `i` of face `a` and its twin, both new, take
    * the next two slots: the half-edge with face `a` and origin `iv1`, its
    * twin with no face and origin `iv2`. */
  lemma EmitPairRecords(c: Construction, lay: Layout, a: nat, i: nat, V: seq<nat>, E: seq<nat>, recs: seq<HalfEdge>,
                        iv1: nat, iv2: nat)
    requires Closed(c, lay) && a < |c.faces| && i < |lay.loops[a]|
    requires lay.loops[a][i] !in E && c.mesh.twin[lay.loops[a][i]] !in E
    requires |E| % 2 == 0 && |E| + 2 <= |recs|
    requires iv1 < |V| && V[iv1] == c.mesh.tail[lay.loops[a][i]]
    requires iv2 < |V| && V[iv2] == c.mesh.tail[c.mesh.twin[lay.loops[a][i]]]
    requires EdgeRecords(c, lay, a, i, 0, V, E, recs)
    ensures EdgeRecords(c, lay, a, i + 1, 0, V, E + [lay.loops[a][i], c.mesh.twin[lay.loops[a][i]]],
                        recs[|E| := recs[|E|].(face := a, origin := iv1, twin := |E| + 1)]
                            [|E| + 1 := recs[|E| + 1].(face := NullFeature, origin := iv2, twin := |E|)])
  {
    var m := c.mesh;
    var h := lay.loops[a][i];
    var t := m.twin[h];
    var ec := |E|;
    var E' := E + [h, t];
    var recs' := recs[ec := recs[ec].(face := a, origin := iv1, twin := ec + 1)]
                     [ec + 1 := recs[ec + 1].(face := NullFeature, origin := iv2, twin := ec)];
    assert h < |m.tail| && lay.faceOf[h] == a && lay.posOf[h] == i;
    assert t < |m.tail| && t != h;
    assert !Visited(lay, a, i, t);
    VisitedStep(c, lay, a, i, h);
    VisitedStep(c, lay, a, i, t);
    forall x | 0 <= x < |m.tail| && Visited(lay, a, i + 1, x)
      ensures x in E'
    {
      VisitedStep(c, lay, a, i, x);
      if x != h {
        assert x in E;
      }
    }
    forall k | 0 <= k < |E'|
      ensures E'[k] < |m.tail|
    {
      if k < ec {
        assert E'[k] == E[k];
      }
    }
    forall k | 0 <= k < |E'| && E'[k] < |m.tail|
      ensures recs'[k].origin < |V| && V[recs'[k].origin] == m.tail[E'[k]]
      ensures recs'[k].twin == Pair(k)
      ensures recs'[k].face == (if Visited(lay, a, i + 1, E'[k]) then lay.faceOf[E'[k]] else NullFeature)
      ensures Visited(lay, a, 0, E'[k]) ==> recs'[k].next < |E'| && E'[recs'[k].next] == m.next[E'[k]]
    {
      if k < ec {
        assert recs'[k] == recs[k] && E'[k] == E[k];
        assert E[k] != h;
        VisitedStep(c, lay, a, i, E[k]);
      }
    }
  }

  /** One more half-edge of face `a`, distinct from the ones before it, is
    * recorded in `fhs`: the face's half-edges all have distinct slots, of
    * which there are fewer than `fhs` has entries, so it fits. */
  lemma RecordFaceHalfEdge(lay: Layout, a: nat, i: nat, E: seq<nat>, E': seq<nat>, ie: nat, fhs: seq<nat>, nfh: nat)
    requires a < |lay.loops| && i < |lay.loops[a]| && Distinct(lay.loops[a])
    requires FaceHalfEdges(lay, a, i, E, fhs, nfh) && E <= E'
    requires ie < |E'| && E'[ie] == lay.loops[a][i]
    requires Distinct(E') && |E'| < |fhs|
    ensures nfh < |fhs|
    ensures FaceHalfEdges(lay, a, i + 1, E', fhs[nfh := ie], nfh + 1)
  {
    var loop := lay.loops[a];
    var s := fhs[..i] + [ie];
    forall j | 0 <= j < |s|
      ensures s[j] < |E'| && E'[s[j]] == loop[j]
    {
      if j < i {
        assert s[j] == fhs[j];
      }
    }
    forall j1, j2 | 0 <= j1 < j2 < |s|
      ensures s[j1] != s[j2]
    {
      assert loop[j1] != loop[j2];
    }
    Pigeonhole(s, |E'|);
    var fhs' := fhs[nfh := ie];
    forall j | 0 <= j < i + 1
      ensures fhs'[j] == s[j]
    {
    }
  }

  /** Linking the `i`-th half-edge of face `a` to the `j`-th, the one after
    * it around the loop. */
  lemma LinkRecords(c: Construction, lay: Layout, a: nat, i: nat, j: nat, V: seq<nat>, E: seq<nat>,
                    recs: seq<HalfEdge>, fhs: seq<nat>)
    requires Closed(c, lay) && a < |c.faces|
    requires i < |lay.loops[a]| && j == (if i + 1 < |lay.loops[a]| then i + 1 else 0)
    requires FaceHalfEdges(lay, a, |lay.loops[a]|, E, fhs, |lay.loops[a]|) && Distinct(E)
    requires EdgeRecords(c, lay, a, |lay.loops[a]|, i, V, E, recs)
    ensures fhs[i] < |recs| && j < |fhs|
    ensures EdgeRecords(c, lay, a, |lay.loops[a]|, i + 1, V, E, recs[fhs[i] := recs[fhs[i]].(next := fhs[j])])
  {
    var loop := lay.loops[a];
    assert IsFaceLoop(c.mesh, c.faces[a], loop);
    assert c.mesh.next[loop[i]] == loop[j];
    var n := |loop|;
    var e := fhs[i];
    var recs' := recs[e := recs[e].(next := fhs[j])];
    assert e < |E| && E[e] == loop[i];
    assert fhs[j] < |E| && E[fhs[j]] == loop[j];
    forall k | 0 <= k < |E| && E[k] < |c.mesh.tail|
      ensures recs'[k].origin < |V| && V[recs'[k].origin] == c.mesh.tail[E[k]]
      ensures recs'[k].twin == Pair(k)
      ensures recs'[k].face == (if Visited(lay, a, n, E[k]) then lay.faceOf[E[k]] else NullFeature)
      ensures Visited(lay, a, i + 1, E[k]) ==> recs'[k].next < |E| && E[recs'[k].next] == c.mesh.next[E[k]]
    {
      VisitedStep(c, lay, a, i, E[k]);
      if k != e {
        assert recs'[k] == recs[k] && E[k] != loop[i];
      }
    }
  }

  /** Once face `a` is walked and linked, the walk moves on to face `a + 1`. */
  lemma NextFace(c: Construction, lay: Layout, a: nat, V: seq<nat>, E: seq<nat>, recs: seq<HalfEdge>)
    requires Closed(c, lay) && a < |c.faces|
    requires EdgeRecords(c, lay, a, |lay.loops[a]|, |lay.loops[a]|, V, E, recs)
    ensures EdgeRecords(c, lay, a + 1, 0, 0, V, E, recs)
  {
    forall x | 0 <= x < |c.mesh.tail|
      ensures Visited(lay, a, |lay.loops[a]|, x) == Visited(lay, a + 1, 0, x)
    {
    }
  }

  /** Face `a` gets its first half-edge's slot and its plane. */
  lemma RecordFace(c: Construction, lay: Layout, a: nat, E: seq<nat>, fs: seq<nat>, pls: seq<Plane>, fhs: seq<nat>)
    requires Closed(c, lay) && a < |c.faces| && a < |fs| && a < |pls|
    requires FaceRecords(c, lay, a, E, fs, pls)
    requires FaceHalfEdges(lay, a, |lay.loops[a]|, E, fhs, |lay.loops[a]|)
    ensures 0 < |lay.loops[a]| <= |fhs|
    ensures FaceRecords(c, lay, a + 1, E, fs[a := fhs[0]], pls[a := c.mesh.planes[c.faces[a]]])
  {
    assert IsFaceLoop(c.mesh, c.faces[a], lay.loops[a]);
  }

  /** Following `rnext` from slot `k` mirrors following `next` from `E[k]`,
    * when `E` carries every `rnext` step among the first `count` slots to a
    * `next` step. */
  lemma {:induction false} FollowMirrors(rnext: seq<nat>, next: seq<nat>, E: seq<nat>, count: nat, k: nat, n: nat)
    requires count <= |rnext| && count <= |E| && k < count
    requires forall j {:trigger rnext[j]} :: 0 <= j < count ==> rnext[j] < count && E[j] < |next| && E[rnext[j]] == next[E[j]]
    ensures Follow(rnext, k, n) < count && E[Follow(rnext, k, n)] == Follow(next, E[k], n)
  {
    if n > 0 {
      FollowMirrors(rnext, next, E, count, k, n - 1);
    }
  }

  /** The position of `x` in `s`. */
  ghost function Position(s: seq<nat>, x: nat): (k: nat)
    requires x in s
    ensures k < |s| && s[k] == x
  {
    var k :| 0 <= k < |s| && s[k] == x; k
  }

  /** The outcome of `Set`: which way it returned. */
  datatype Outcome = Degenerate | TooManyFaces | Overflow | Built

  class Hull {
    const vertices: array<Vec3>
    const edges: array<HalfEdge>
    const faces: array<nat>    // face -> one of its run-time half-edges
    const planes: array<Plane>
    var vertexCount: nat
    var edgeCount: nat
    var faceCount: nat

    /** Indices are stored in bytes: every vertex and half-edge index fits in
      * one, and every face index stays below the null feature. */
    ghost predicate Valid()
      reads this
    {
      && vertices.Length <= 256 && edges.Length <= 256
      && faces.Length < NullFeature && planes.Length == faces.Length
      && vertexCount <= vertices.Length && edgeCount <= edges.Length && faceCount <= faces.Length
    }

    /** An empty hull with the given capacities. */
    constructor (maxVertices: nat, maxEdges: nat, maxFaces: nat)
      requires maxVertices <= 256 && maxEdges <= 256 && maxFaces < NullFeature
      ensures Valid()
      ensures vertices.Length == maxVertices && edges.Length == maxEdges && faces.Length == maxFaces
      ensures vertexCount == 0 && edgeCount == 0 && faceCount == 0
      ensures fresh(vertices) && fresh(edges) && fresh(faces) && fresh(planes)
    {
      vertices := new Vec3[maxVertices];
      edges := new HalfEdge[maxEdges](_ => HalfEdge(0, 0, 0, 0));
      faces := new nat[maxFaces](_ => 0);
      planes := new Plane[maxFaces];
      vertexCount, edgeCount, faceCount := 0, 0, 0;
    }

    /** The hull is a compacted copy of the construction: run-time vertex `k`
      * is construction vertex `V[k]` and run-time half-edge `k` is
      * construction half-edge `E[k]`, each used once, every construction
      * half-edge used, and every origin, twin, face, `next` and face edge
      * carried across. */
    ghost predicate Converted(c: Construction, lay: Layout, V: seq<nat>, E: seq<nat>)
      requires Closed(c, lay)
      reads this, vertices, edges, faces, planes
    {
      Valid() && ConvertedVertices(c.mesh, V) && ConvertedEdges(c, lay, V, E) && ConvertedFaces(c, lay, E)
    }

    /** Run-time vertex `k` is at the position of construction vertex `V[k]`. */
    ghost predicate ConvertedVertices(m: Mesh, V: seq<nat>)
      reads this, vertices
    {
      && |V| == vertexCount && vertexCount <= vertices.Length && Distinct(V)
      && (forall k :: 0 <= k < vertexCount ==> V[k] < |m.positions| && V[k] in Tails(m))
      && (forall k {:trigger vertices[k]} :: 0 <= k < vertexCount ==> vertices[k] == m.positions[V[k]])
    }

    /** Run-time half-edge `k` mirrors construction half-edge `E[k]`, and
      * every construction half-edge has a slot. */
    ghost predicate ConvertedEdges(c: Construction, lay: Layout, V: seq<nat>, E: seq<nat>)
      requires Closed(c, lay)
      reads this, edges
    {
      var m := c.mesh;
      && |E| == edgeCount && (edgeCount == 0 || edgeCount < edges.Length) && Distinct(E)
      && (forall h :: 0 <= h < |m.tail| ==> h in E)
      && (forall k :: 0 <= k < edgeCount ==> E[k] < |m.tail|)
      && (forall k {:trigger edges[k]} :: 0 <= k < edgeCount ==>
            edges[k].twin == Pair(k) && edges[k].origin < |V| && edges[k].twin < edgeCount && edges[k].next < edgeCount)
      && (forall k {:trigger edges[k]} :: 0 <= k < edgeCount ==>
            && V[edges[k].origin] == m.tail[E[k]]
            && E[edges[k].twin] == m.twin[E[k]]
            && edges[k].face == lay.faceOf[E[k]]
            && E[edges[k].next] == m.next[E[k]])
    }

    /** Run-time face `b` is listed face `b`: its plane, and the slot of its
      * representative half-edge. */
    ghost predicate ConvertedFaces(c: Construction, lay: Layout, E: seq<nat>)
      requires Closed(c, lay)
      reads this, faces, planes
    {
      var m := c.mesh;
      && faceCount == |c.faces| && faceCount <= faces.Length && planes.Length == faces.Length
      && (forall b {:trigger faces[b]} :: 0 <= b < faceCount ==>
            faces[b] < |E| && E[faces[b]] == m.faceEdge[c.faces[b]] && planes[b] == m.planes[c.faces[b]])
    }

    /** The state of the compaction pass after the first `a` listed faces:
      * `vpis` and `epis` are the contents of the two pointer-index maps. */
    ghost predicate Walked(c: Construction, lay: Layout, a: nat, vpis: seq<PointerIndex>, epis: seq<PointerIndex>,
                           V: seq<nat>, E: seq<nat>)
      requires Closed(c, lay)
      reads this, vertices, edges, faces, planes
    {
      && Valid() && faceCount == a
      && VertexState(c.mesh, V, vpis, vertices[..], vertexCount)
      && EdgeState(c.mesh, E, epis, edgeCount) && |epis| == edges.Length
      && EdgeRecords(c, lay, a, 0, 0, V, E, edges[..])
      && FaceRecords(c, lay, a, E, faces[..], planes[..])
    }

    /** The `next` links of the run-time half-edges. */
    ghost function NextLinks(): (r: seq<nat>)
      reads this, edges
      ensures |r| == edges.Length && forall k :: 0 <= k < edges.Length ==> r[k] == edges[k].next
    {
      seq(edges.Length, k requires 0 <= k < edges.Length reads edges => edges[k].next)
    }

    /** Every tail vertex of the construction has a run-time slot. */
    lemma TailsMapped(c: Construction, lay: Layout, V: seq<nat>, E: seq<nat>)
      requires Closed(c, lay) && Converted(c, lay, V, E)
      ensures forall x :: x in Tails(c.mesh) ==> x in V
    {
      var m := c.mesh;
      forall x | x in Tails(m)
        ensures x in V
      {
        var h :| 0 <= h < |m.tail| && m.tail[h] == x;
        var j := Position(E, h);
        assert V[edges[j].origin] == m.tail[E[j]];
      }
    }

    /** Every run-time vertex is the origin of a run-time half-edge. */
    lemma EveryVertexUsed(c: Construction, lay: Layout, V: seq<nat>, E: seq<nat>)
      requires Closed(c, lay) && Converted(c, lay, V, E)
      ensures forall k :: 0 <= k < vertexCount ==> IsOrigin(k)
    {
      var m := c.mesh;
      forall k | 0 <= k < vertexCount
        ensures IsOrigin(k)
      {
        var h :| 0 <= h < |m.tail| && m.tail[h] == V[k];
        var j := Position(E, h);
        assert V[edges[j].origin] == m.tail[E[j]];
        assert edges[j].origin == k;
      }
    }

    /** Run-time vertex `k` is the origin of some run-time half-edge. */
    ghost predicate IsOrigin(k: nat)
      reads this, edges
    {
      exists j :: 0 <= j < edgeCount && j < edges.Length && edges[j].origin == k
    }

    /** A converted hull has one run-time half-edge per construction half-edge
      * and one run-time vertex per construction vertex that a half-edge
      * starts at; every run-time vertex is the origin of a run-time
      * half-edge. */
    lemma ConvertedCounts(c: Construction, lay: Layout, V: seq<nat>, E: seq<nat>)
      requires Closed(c, lay) && Converted(c, lay, V, E)
      ensures edgeCount == |c.mesh.tail| && vertexCount == |Tails(c.mesh)|
      ensures forall k :: 0 <= k < vertexCount ==> IsOrigin(k)
    {
      var H := |c.mesh.tail|;
      TailsMapped(c, lay, V, E);
      DistinctWithin(V, Tails(c.mesh));
      CoveredBySeq(V, Tails(c.mesh));
      EveryVertexUsed(c, lay, V, E);
      Pigeonhole(E, H);
      var s := seq(H, h requires 0 <= h < H => Position(E, h));
      forall j1, j2 | 0 <= j1 < j2 < |s|
        ensures s[j1] != s[j2]
      {
        assert E[s[j1]] == j1 && E[s[j2]] == j2;
      }
      Pigeonhole(s, edgeCount);
    }

    /** Each run-time face's half-edges form a cycle along `next` as long as
      * its construction loop: the walk from the face's edge is back after
      * that many steps and not before, and every half-edge on the way
      * belongs to the face. */
    lemma FaceCycle(c: Construction, lay: Layout, V: seq<nat>, E: seq<nat>, b: nat)
      requires Closed(c, lay) && Converted(c, lay, V, E) && b < faceCount
      ensures Follow(NextLinks(), faces[b], |lay.loops[b]|) == faces[b]
      ensures forall j :: 0 < j < |lay.loops[b]| ==> Follow(NextLinks(), faces[b], j) != faces[b]
      ensures forall j :: 0 <= j < |lay.loops[b]| ==>
                Follow(NextLinks(), faces[b], j) < edgeCount && edges[Follow(NextLinks(), faces[b], j)].face == b
    {
      var m := c.mesh;
      var rnext := NextLinks();
      var loop := lay.loops[b];
      assert IsFaceLoop(m, c.faces[b], loop);
      forall j | 0 <= j < edgeCount
        ensures rnext[j] < edgeCount && E[j] < |m.next| && E[rnext[j]] == m.next[E[j]]
      {
        assert edges[j].next < edgeCount;
      }
      forall j | 0 <= j <= |loop|
        ensures Follow(rnext, faces[b], j) < edgeCount
        ensures E[Follow(rnext, faces[b], j)] == if j < |loop| then loop[j] else loop[0]
      {
        FollowMirrors(rnext, m.next, E, edgeCount, faces[b], j);
        FollowAlongLoop(m, c.faces[b], loop, j);
      }
      forall j | 0 <= j < |loop|
        ensures edges[Follow(rnext, faces[b], j)].face == b
      {
        var k := Follow(rnext, faces[b], j);
        assert edges[k].face == lay.faceOf[E[k]];
      }
    }

    /** Replaces the hull by the convex hull of `points`. Points close to one
      * already kept are dropped; with fewer than four left, or with more faces
      * than the hull can hold, the hull is left as it was. Running out of
      * vertex or edge slots leaves an empty hull. */
    method Set(points: seq<Vec3>, close: (Vec3, Vec3) -> bool, construct: seq<Vec3> -> Construction)
      returns (ghost outcome: Outcome, ghost ps: seq<Vec3>, ghost lay: Layout,
               ghost vertexOf: seq<nat>, ghost edgeOf: seq<nat>)
      requires Valid()
      requires 4 <= |points| <= vertices.Length
      requires forall q :: 4 <= |q| ==> Buildable(construct(q))
      modifies this, vertices, edges, faces, planes
      ensures Valid()
      ensures ps == Dedup(points, close)
      ensures outcome == Degenerate <==> |ps| < 4
      ensures outcome == TooManyFaces <==> 4 <= |ps| && |construct(ps).faces| > faces.Length
      ensures outcome == Degenerate || outcome == TooManyFaces ==>
        && vertexCount == old(vertexCount) && edgeCount == old(edgeCount) && faceCount == old(faceCount)
        && unchanged(vertices) && unchanged(edges) && unchanged(faces) && unchanged(planes)
      ensures outcome == Overflow <==>
        4 <= |ps| && |construct(ps).faces| <= faces.Length && Overflows(construct(ps), vertices.Length, edges.Length)
      ensures outcome == Overflow ==> vertexCount == 0 && edgeCount == 0 && faceCount == 0
      ensures outcome == Built <==>
        4 <= |ps| && |construct(ps).faces| <= faces.Length && !Overflows(construct(ps), vertices.Length, edges.Length)
      ensures outcome == Built ==> Closed(construct(ps), lay) && Converted(construct(ps), lay, vertexOf, edgeOf)
    {
      lay, vertexOf, edgeOf := Layout([], [], []), [], [];
      var n := if |points| < vertices.Length then |points| else vertices.Length;
      var buf, psCount := CopyUnique(points, n, vertices.Length, close);
      assert points[..n] == points;
      ps := buf[..psCount];
      if psCount < 4 {
        outcome := Degenerate;
        return;
      }
      var c := construct(buf[..psCount]);
      if |c.faces| > faces.Length {
        outcome := TooManyFaces;
        return;
      }
      assert Buildable(c);
      lay :| Closed(c, lay);
      var ok;
      ok, vertexOf, edgeOf := Compact(c, lay);
      outcome := if ok then Built else Overflow;
    }

    /** Compacts a closed construction whose faces fit: it succeeds exactly
      * when the vertices and half-edges fit too, and then the hull is the
      * compacted copy of the construction; otherwise the hull is empty. */
    method Compact(c: Construction, ghost lay: Layout) returns (ok: bool, ghost V: seq<nat>, ghost E: seq<nat>)
      requires Valid() && Closed(c, lay) && |c.faces| <= faces.Length
      modifies this, vertices, edges, faces, planes
      ensures Valid()
      ensures ok <==> !Overflows(c, vertices.Length, edges.Length)
      ensures ok ==> Converted(c, lay, V, E)
      ensures !ok ==> vertexCount == 0 && edgeCount == 0 && faceCount == 0
    {
      ghost var vpis, epis;
      ok, V, E, vpis, epis := Convert(c, lay);
      if ok {
        Finish(c, lay, vpis, epis, V, E);
        ConvertedCounts(c, lay, V, E);
        assert edgeCount == 0 || edgeCount < edges.Length;
      }
    }

    /** With every count at zero, nothing has been walked yet. */
    lemma WalkStart(c: Construction, lay: Layout, vpis: seq<PointerIndex>, epis: seq<PointerIndex>)
      requires Valid() && Closed(c, lay) && vertexCount == 0 && edgeCount == 0 && faceCount == 0
      requires |vpis| == vertices.Length && |epis| == edges.Length
      ensures Walked(c, lay, 0, vpis, epis, [], [])
    {
    }

    /** The compaction pass: walks every listed face's loop once, numbering
      * vertices and half-edges as they are first met, then links each face's
      * half-edges into a cycle. */
    method Convert(c: Construction, ghost lay: Layout)
      returns (ok: bool, ghost V: seq<nat>, ghost E: seq<nat>, ghost vpis: seq<PointerIndex>, ghost epis: seq<PointerIndex>)
      requires Valid() && Closed(c, lay) && |c.faces| <= faces.Length
      modifies this, vertices, edges, faces, planes
      ensures Valid()
      ensures ok ==> Walked(c, lay, |c.faces|, vpis, epis, V, E)
      ensures !ok ==> vertexCount == 0 && edgeCount == 0 && faceCount == 0
      ensures !ok ==> Overflows(c, vertices.Length, edges.Length)
    {
      vertexCount, edgeCount, faceCount := 0, 0, 0;
      var vs := new PIMap(vertices.Length);
      var es := new PIMap(edges.Length);
      var fhs := new nat[edges.Length](_ => 0);
      V, E, vpis, epis := [], [], [], [];
      WalkStart(c, lay, vs.pis[..], es.pis[..]);
      var a := 0;
      while a < |c.faces|
        invariant a <= |c.faces|
        invariant fresh(vs) && fresh(vs.pis) && fresh(es) && fresh(es.pis) && fresh(fhs)
        invariant vs != es && vs.pis != es.pis && fhs.Length == edges.Length
        invariant Walked(c, lay, a, vs.pis[..], es.pis[..], V, E) && vs.count == vertexCount && es.count == edgeCount
      {
        ok, V, E := ConvertFace(c, lay, a, vs, es, fhs, V, E);
        if !ok {
          return;
        }
        a := a + 1;
      }
      ok, vpis, epis := true, vs.pis[..], es.pis[..];
    }

    /** Converts listed face `a`: walks its loop, then closes it. */
    method ConvertFace(c: Construction, ghost lay: Layout, a: nat, vs: PIMap, es: PIMap, fhs: array<nat>,
                       ghost V: seq<nat>, ghost E: seq<nat>)
      returns (ok: bool, ghost V': seq<nat>, ghost E': seq<nat>)
      requires Closed(c, lay) && a < |c.faces| && |c.faces| <= faces.Length
      requires vs != es && vs.pis != es.pis && fhs.Length == edges.Length && fhs != faces
      requires Walked(c, lay, a, vs.pis[..], es.pis[..], V, E) && vs.count == vertexCount && es.count == edgeCount
      modifies this, vertices, edges, faces, planes, vs, vs.pis, es, es.pis, fhs
      ensures Valid()
      ensures ok ==> Walked(c, lay, a + 1, vs.pis[..], es.pis[..], V', E') && vs.count == vertexCount && es.count == edgeCount
      ensures !ok ==> vertexCount == 0 && edgeCount == 0 && faceCount == 0
      ensures !ok ==> Overflows(c, vertices.Length, edges.Length)
    {
      var nfh;
      ok, nfh, V', E' := WalkFace(c, lay, a, vs, es, fhs, V, E);
      if !ok {
        return;
      }
      KeepFaces(c, lay, a, E, E', faces[..], planes[..]);
      CloseFace(c, lay, a, c.faces[a], fhs, nfh, vs.pis[..], es.pis[..], V', E');
    }

    /** The state of the walk at position `i` of listed face `a`: the first
      * `a` faces and the first `i` half-edges of face `a` have been visited,
      * and `fhs[..nfh]` holds the latter's run-time slots. */
    ghost predicate Walking(c: Construction, lay: Layout, a: nat, i: nat, vpis: seq<PointerIndex>, epis: seq<PointerIndex>,
                            V: seq<nat>, E: seq<nat>, fhs: seq<nat>, nfh: nat)
      requires Closed(c, lay)
      reads this, vertices, edges
    {
      && Valid() && faceCount == a
      && VertexState(c.mesh, V, vpis, vertices[..], vertexCount)
      && EdgeState(c.mesh, E, epis, edgeCount) && |epis| == edges.Length
      && EdgeRecords(c, lay, a, i, 0, V, E, edges[..])
      && FaceHalfEdges(lay, a, i, E, fhs, nfh)
    }

    /** Walks the boundary loop of listed face `a` once, from its edge,
      * visiting each half-edge. */
    method WalkFace(c: Construction, ghost lay: Layout, a: nat, vs: PIMap, es: PIMap, fhs: array<nat>,
                    ghost V: seq<nat>, ghost E: seq<nat>)
      returns (ok: bool, nfh: nat, ghost V': seq<nat>, ghost E': seq<nat>)
      requires Closed(c, lay) && a < |c.faces|
      requires vs != es && vs.pis != es.pis && fhs.Length == edges.Length
      requires Walking(c, lay, a, 0, vs.pis[..], es.pis[..], V, E, fhs[..], 0) && vs.count == vertexCount && es.count == edgeCount
      modifies this`vertexCount, this`edgeCount, this`faceCount, vertices, edges, vs, vs.pis, es, es.pis, fhs
      ensures Valid()
      ensures ok ==> E <= E' && vs.count == vertexCount && es.count == edgeCount
      ensures ok ==> Walking(c, lay, a, |lay.loops[a]|, vs.pis[..], es.pis[..], V', E', fhs[..], nfh)
      ensures !ok ==> vertexCount == 0 && edgeCount == 0 && faceCount == 0
      ensures !ok ==> Overflows(c, vertices.Length, edges.Length)
    {
      var f := c.faces[a];
      var h := c.mesh.faceEdge[f];
      ghost var loop := lay.loops[a];
      assert IsFaceLoop(c.mesh, f, loop);
      ghost var i := 0;
      nfh, V', E' := 0, V, E;
      while true
        invariant i < |loop| && h == loop[i]
        invariant Walking(c, lay, a, i, vs.pis[..], es.pis[..], V', E', fhs[..], nfh)
        invariant vs.count == vertexCount && es.count == edgeCount
        invariant E <= E'
        decreases |loop| - i
      {
        ghost var E0 := E';
        ok, nfh, V', E' := VisitEdge(c, lay, a, i, h, vs, es, fhs, nfh, V', E');
        if !ok {
          return;
        }
        PrefixTrans(E, E0, E');
        assert c.mesh.next[loop[i]] == NextInLoop(loop, i);
        h := c.mesh.next[h];
        i := i + 1;
        if h == c.mesh.faceEdge[f] {
          assert i == |loop|;
          break;
        }
      }
      ok := true;
    }

    /** Handles half-edge `h` at position `i` of face `a`: maps its two end
      * vertices, then places the half-edge. Running out of vertex slots
      * empties the hull. */
    method VisitEdge(c: Construction, ghost lay: Layout, ghost a: nat, ghost i: nat, h: nat,
                     vs: PIMap, es: PIMap, fhs: array<nat>, nfh: nat, ghost V: seq<nat>, ghost E: seq<nat>)
      returns (ok: bool, nfh': nat, ghost V': seq<nat>, ghost E': seq<nat>)
      requires Closed(c, lay)
      requires a < |c.faces| && i < |lay.loops[a]| && h == lay.loops[a][i]
      requires vs != es && vs.pis != es.pis && fhs.Length == edges.Length
      requires Walking(c, lay, a, i, vs.pis[..], es.pis[..], V, E, fhs[..], nfh) && vs.count == vertexCount && es.count == edgeCount
      modifies this`vertexCount, this`edgeCount, this`faceCount, vertices, edges, vs, vs.pis, es, es.pis, fhs
      ensures Valid()
      ensures ok ==> Numbering(V', E') == VisitStep(c.mesh, Numbering(V, E), h)
      ensures ok ==> E <= E' && vs.count == vertexCount && es.count == edgeCount
      ensures ok ==> Walking(c, lay, a, i + 1, vs.pis[..], es.pis[..], V', E', fhs[..], nfh')
      ensures !ok ==> vertexCount == 0 && edgeCount == 0 && faceCount == 0
      ensures !ok ==> Overflows(c, vertices.Length, edges.Length)
    {
      nfh', V', E' := nfh, V, E;
      var iv1, iv2;
      ok, iv1, iv2, V' := MapEnds(c.mesh, h, vs, V);
      if !ok {
        vertexCount, edgeCount, faceCount := 0, 0, 0;
        return;
      }
      KeepOrigins(c, lay, a, i, V, V', E, edges[..]);
      HasIsIn(E, h);
      ok, nfh', E' := PlaceEdge(c, lay, a, i, h, iv1, iv2, es, fhs, nfh, V', E);
    }

    /** Maps the two end vertices of half-edge `h`, its tail and its twin's
      * tail, in that order. */
    method MapEnds(m: Mesh, h: nat, vs: PIMap, ghost V: seq<nat>)
      returns (ok: bool, iv1: nat, iv2: nat, ghost V': seq<nat>)
      requires TwinsPaired(m) && TailsInRange(m) && h < |m.tail|
      requires VertexState(m, V, vs.pis[..], vertices[..], vertexCount) && vs.count == vertexCount
      modifies this`vertexCount, vertices, vs, vs.pis
      ensures ok ==> V' == AddNew(AddNew(V, m.tail[h]), m.tail[m.twin[h]])
      ensures ok ==> V <= V' && iv1 < |V'| && V'[iv1] == m.tail[h] && iv2 < |V'| && V'[iv2] == m.tail[m.twin[h]]
      ensures ok ==> VertexState(m, V', vs.pis[..], vertices[..], vertexCount) && vs.count == vertexCount
      ensures !ok ==> vertices.Length < |Tails(m)|
    {
      assert m.tail[h] in Tails(m) && m.tail[m.twin[h]] in Tails(m);
      iv2, V' := 0, V;
      HasIsIn(V, m.tail[h]);
      ok, iv1, V' := MapVertex(m, m.tail[h], vs, V);
      if !ok {
        return;
      }
      ghost var V1 := V';
      HasIsIn(V1, m.tail[m.twin[h]]);
      ok, iv2, V' := MapVertex(m, m.tail[m.twin[h]], vs, V');
      if !ok {
        return;
      }
      assert V'[iv1] == V1[iv1];
      PrefixTrans(V, V1, V');
    }

    /** Gives half-edge `h` its run-time slot, the one its twin's visit
      * emitted or the first of two new ones, and records that slot for face
      * `a`. Running out of edge slots empties the hull. */
    method PlaceEdge(c: Construction, ghost lay: Layout, ghost a: nat, ghost i: nat, h: nat, iv1: nat, iv2: nat,
                     es: PIMap, fhs: array<nat>, nfh: nat, ghost V: seq<nat>, ghost E: seq<nat>)
      returns (ok: bool, nfh': nat, ghost E': seq<nat>)
      requires Valid() && Closed(c, lay)
      requires a < |c.faces| && i < |lay.loops[a]| && h == lay.loops[a][i] && faceCount == a
      requires fhs.Length == edges.Length
      requires iv1 < |V| && V[iv1] == c.mesh.tail[h]
      requires iv2 < |V| && V[iv2] == c.mesh.tail[c.mesh.twin[h]]
      requires EdgeState(c.mesh, E, es.pis[..], edgeCount) && es.count == edgeCount && es.pis.Length == edges.Length
      requires EdgeRecords(c, lay, a, i, 0, V, E, edges[..])
      requires FaceHalfEdges(lay, a, i, E, fhs[..], nfh)
      modifies this`vertexCount, this`edgeCount, this`faceCount, edges, es, es.pis, fhs
      ensures Valid()
      ensures ok ==> vertexCount == old(vertexCount) && faceCount == a && es.count == edgeCount
      ensures ok ==> (h in E ==> E' == E) && (h !in E ==> E' == E + [h, c.mesh.twin[h]])
      ensures ok ==> EdgeState(c.mesh, E', es.pis[..], edgeCount)
      ensures ok ==> EdgeRecords(c, lay, a, i + 1, 0, V, E', edges[..])
      ensures ok ==> FaceHalfEdges(lay, a, i + 1, E', fhs[..], nfh')
      ensures !ok ==> vertexCount == 0 && edgeCount == 0 && faceCount == 0
      ensures !ok ==> h !in E && c.mesh.twin[h] !in E && old(edgeCount) + 2 >= edges.Length
      ensures !ok ==> Overflows(c, vertices.Length, edges.Length)
    {
      E' := E;
      var found := es.Find(h);
      var ie;
      if found.Ptr? {
        ie := ClaimTwin(c, lay, a, i, h, found.index, V, E, es);
      } else {
        forall k | 0 <= k < |E|
          ensures E[k] != h
        {
          assert es.pis[..][k] == PointerIndex(E[k], k);
        }
        if edgeCount + 2 >= edges.Length {
          EdgeOverflow(c.mesh, E, es.pis[..], h);
          UnmappedTwin(c.mesh, E, es.pis[..], h);
          vertexCount, edgeCount, faceCount := 0, 0, 0;
          return false, nfh, E';
        }
        ie, E' := EmitPair(c, lay, a, i, h, iv1, iv2, es, V, E);
      }
      assert IsFaceLoop(c.mesh, c.faces[a], lay.loops[a]);
      ghost var fhs0 := fhs[..];
      RecordFaceHalfEdge(lay, a, i, E, E', ie, fhs0, nfh);
      fhs[nfh] := ie;
      nfh' := nfh + 1;
      assert fhs[..] == fhs0[nfh := ie];
      ok := true;
    }

    /** Looks vertex `v` up in `vs`, adding it at the next free slot when it
      * is new; fails, changing nothing, when it is new and the slots are used
      * up. */
    method MapVertex(m: Mesh, v: nat, vs: PIMap, ghost V: seq<nat>) returns (ok: bool, iv: nat, ghost V': seq<nat>)
      requires v < |m.positions| && v in Tails(m)
      requires VertexState(m, V, vs.pis[..], vertices[..], vertexCount) && vs.count == vertexCount
      modifies this`vertexCount, vertices, vs, vs.pis
      ensures ok ==> V <= V' && (v in V ==> V' == V) && (v !in V ==> V' == V + [v])
      ensures ok ==> iv < |V'| && V'[iv] == v
      ensures ok ==> VertexState(m, V', vs.pis[..], vertices[..], vertexCount) && vs.count == vertexCount
      ensures !ok ==> v !in V && old(vertexCount) == vertices.Length && vertices.Length < |Tails(m)|
    {
      ghost var pis0, verts0 := vs.pis[..], vertices[..];
      var found := vs.Find(v);
      if found.Ptr? {
        iv := vs.pis[found.index].index;
        assert pis0[found.index] == PointerIndex(V[found.index], found.index);
        return true, iv, V;
      }
      forall k | 0 <= k < |V|
        ensures V[k] != v
      {
        assert pis0[k] == PointerIndex(V[k], k);
        assert vs.pis[k].pointer != v;
      }
      if vertexCount == vertices.Length {
        VertexOverflow(m, V, v);
        return false, 0, V;
      }
      AddVertex(m, V, pis0, verts0, vertexCount, v);
      vertices[vertexCount] := m.positions[v];
      iv := vertexCount;
      vertexCount := vertexCount + 1;
      vs.Add(PointerIndex(v, iv));
      V' := V + [v];
      assert vertices[..] == verts0[iv := m.positions[v]];
      ok := true;
    }

    /** Half-edge `h` was emitted, as the second of a pair, when its twin was
      * visited: it had no face yet, and gets the current one. */
    method ClaimTwin(c: Construction, ghost lay: Layout, ghost a: nat, ghost i: nat, h: nat, k: nat,
                     ghost V: seq<nat>, ghost E: seq<nat>, es: PIMap) returns (ie2: nat)
      requires Valid() && Closed(c, lay)
      requires a < |c.faces| && i < |lay.loops[a]| && h == lay.loops[a][i] && faceCount == a
      requires EdgeState(c.mesh, E, es.pis[..], edgeCount) && k < edgeCount && k < es.pis.Length && es.pis[k].pointer == h
      requires EdgeRecords(c, lay, a, i, 0, V, E, edges[..])
      modifies edges
      ensures ie2 < |E| && E[ie2] == h
      ensures ie2 < edges.Length && old(edges[ie2]).face == NullFeature
      ensures EdgeRecords(c, lay, a, i + 1, 0, V, E, edges[..])
    {
      ghost var recs0 := edges[..];
      assert es.pis[..][k] == PointerIndex(E[k], k);
      ie2 := es.pis[k].index;
      ClaimTwinRecords(c, lay, a, i, V, E, recs0, ie2);
      edges[ie2] := edges[ie2].(face := faceCount);
      assert edges[..] == recs0[ie2 := recs0[ie2].(face := a)];
    }

    /** Half-edge `h` and its twin are both new: they take the next two slots,
      * `h` with the current face and its twin with the null feature. */
    method EmitPair(c: Construction, ghost lay: Layout, ghost a: nat, ghost i: nat, h: nat, iv1: nat, iv2: nat,
                    es: PIMap, ghost V: seq<nat>, ghost E: seq<nat>) returns (ie1: nat, ghost E': seq<nat>)
      requires Valid() && Closed(c, lay)
      requires a < |c.faces| && i < |lay.loops[a]| && h == lay.loops[a][i] && faceCount == a
      requires EdgeState(c.mesh, E, es.pis[..], edgeCount) && es.count == edgeCount
      requires forall k :: 0 <= k < es.count ==> es.pis[k].pointer != h
      requires edgeCount + 2 < edges.Length && es.pis.Length == edges.Length
      requires iv1 < |V| && V[iv1] == c.mesh.tail[h]
      requires iv2 < |V| && V[iv2] == c.mesh.tail[c.mesh.twin[h]]
      requires EdgeRecords(c, lay, a, i, 0, V, E, edges[..])
      modifies this`edgeCount, edges, es, es.pis
      ensures edgeCount == old(edgeCount) + 2 && es.count == edgeCount
      ensures E' == E + [h, c.mesh.twin[h]] && ie1 == |E|
      ensures EdgeState(c.mesh, E', es.pis[..], edgeCount)
      ensures EdgeRecords(c, lay, a, i + 1, 0, V, E', edges[..])
    {
      var t := c.mesh.twin[h];
      ghost var pis0 := es.pis[..];
      forall k | 0 <= k < |E|
        ensures E[k] != h
      {
        assert pis0[k] == PointerIndex(E[k], k);
        assert es.pis[k].pointer != h;
      }
      EmitPairState(c.mesh, E, pis0, h);
      ie1 := edgeCount;
      var ie2 := edgeCount + 1;
      WritePair(c, lay, a, i, h, iv1, iv2, ie1, V, E);
      edgeCount := edgeCount + 2;
      es.Add(PointerIndex(h, ie1));
      ghost var pis1 := es.pis[..];
      es.Add(PointerIndex(t, ie2));
      E' := E + [h, t];
      assert es.pis[..] == pis1[ie2 := PointerIndex(t, ie2)] && pis1 == pis0[ie1 := PointerIndex(h, ie1)];
    }

    /** Writes the records of a new twin pair into slots `ie1` and `ie1 + 1`:
      * the half-edge with the current face and origin `iv1`, its twin with
      * the null feature and origin `iv2`, each naming the other as twin. */
    method WritePair(c: Construction, ghost lay: Layout, ghost a: nat, ghost i: nat, h: nat, iv1: nat, iv2: nat,
                     ie1: nat, ghost V: seq<nat>, ghost E: seq<nat>)
      requires Valid() && Closed(c, lay)
      requires a < |c.faces| && i < |lay.loops[a]| && h == lay.loops[a][i] && faceCount == a
      requires h !in E && c.mesh.twin[h] !in E && ie1 == |E| && |E| % 2 == 0 && ie1 + 2 < edges.Length
      requires iv1 < |V| && V[iv1] == c.mesh.tail[h]
      requires iv2 < |V| && V[iv2] == c.mesh.tail[c.mesh.twin[h]]
      requires EdgeRecords(c, lay, a, i, 0, V, E, edges[..])
      modifies edges
      ensures EdgeRecords(c, lay, a, i + 1, 0, V, E + [h, c.mesh.twin[h]], edges[..])
    {
      ghost var recs0 := edges[..];
      EmitPairRecords(c, lay, a, i, V, E, recs0, iv1, iv2);
      var ie2 := ie1 + 1;
      edges[ie1] := edges[ie1].(face := faceCount, origin := iv1, twin := ie2);
      edges[ie2] := edges[ie2].(face := NullFeature, origin := iv2, twin := ie1);
      assert edges[..] == recs0[ie1 := recs0[ie1].(face := a, origin := iv1, twin := ie2)]
                               [ie2 := recs0[ie2].(face := NullFeature, origin := iv2, twin := ie1)];
    }

    /** After its loop is walked, face `a` gets its plane and its first
      * half-edge, and each of its half-edges is linked to the one after it,
      * the last to the first. */
    method CloseFace(c: Construction, ghost lay: Layout, ghost a: nat, face: nat, fhs: array<nat>, nfh: nat,
                     ghost vpis: seq<PointerIndex>, ghost epis: seq<PointerIndex>, ghost V: seq<nat>, ghost E: seq<nat>)
      requires Closed(c, lay)
      requires a < |c.faces| && face == c.faces[a] && a < faces.Length && fhs != faces && nfh == |lay.loops[a]|
      requires Walking(c, lay, a, nfh, vpis, epis, V, E, fhs[..], nfh)
      requires FaceRecords(c, lay, a, E, faces[..], planes[..])
      modifies this`faceCount, faces, planes, edges
      ensures Walked(c, lay, a + 1, vpis, epis, V, E)
    {
      ghost var fs0, pls0 := faces[..], planes[..];
      RecordFace(c, lay, a, E, fs0, pls0, fhs[..]);
      planes[faceCount] := c.mesh.planes[face];
      var f := faceCount;
      faceCount := faceCount + 1;
      faces[f] := fhs[0];
      assert faces[..] == fs0[a := fhs[0]] && planes[..] == pls0[a := c.mesh.planes[face]];
      LinkFace(c, lay, a, fhs, nfh, V, E);
      NextFace(c, lay, a, V, E, edges[..]);
    }

    /** Links each half-edge of face `a` to the one after it, the last to the
      * first. */
    method LinkFace(c: Construction, ghost lay: Layout, ghost a: nat, fhs: array<nat>, nfh: nat,
                    ghost V: seq<nat>, ghost E: seq<nat>)
      requires Closed(c, lay) && a < |c.faces|
      requires nfh == |lay.loops[a]| && FaceHalfEdges(lay, a, nfh, E, fhs[..], nfh)
      requires Distinct(E)
      requires EdgeRecords(c, lay, a, nfh, 0, V, E, edges[..])
      modifies edges
      ensures EdgeRecords(c, lay, a, nfh, nfh, V, E, edges[..])
    {
      var i := 0;
      while i < nfh
        invariant i <= nfh
        invariant EdgeRecords(c, lay, a, nfh, i, V, E, edges[..])
      {
        LinkOne(c, lay, a, i, fhs, nfh, V, E);
        i := i + 1;
      }
    }

    /** Links the half-edge at position `i` of face `a` to the one after it. */
    method LinkOne(c: Construction, ghost lay: Layout, ghost a: nat, i: nat, fhs: array<nat>, nfh: nat,
                   ghost V: seq<nat>, ghost E: seq<nat>)
      requires Closed(c, lay) && a < |c.faces| && i < nfh
      requires nfh == |lay.loops[a]| && FaceHalfEdges(lay, a, nfh, E, fhs[..], nfh)
      requires Distinct(E)
      requires EdgeRecords(c, lay, a, nfh, i, V, E, edges[..])
      modifies edges
      ensures EdgeRecords(c, lay, a, nfh, i + 1, V, E, edges[..])
    {
      var edge := fhs[i];
      var j := if i < nfh - 1 then i + 1 else 0;
      ghost var recs := edges[..];
      LinkRecords(c, lay, a, i, j, V, E, recs, fhs[..]);
      edges[edge] := edges[edge].(next := fhs[j]);
      assert edges[..] == recs[edge := recs[edge].(next := fhs[j])];
    }

    /** Once every face is closed, the walk's invariants give the compacted
      * hull. */
    lemma Finish(c: Construction, lay: Layout, vpis: seq<PointerIndex>, epis: seq<PointerIndex>, V: seq<nat>, E: seq<nat>)
      requires Closed(c, lay) && Walked(c, lay, |c.faces|, vpis, epis, V, E)
      ensures Converted(c, lay, V, E)
    {
      var m := c.mesh;
      forall h | 0 <= h < |m.tail|
        ensures Visited(lay, |c.faces|, 0, h)
      {
      }
      forall k | 0 <= k < vertexCount
        ensures vertices[k] == m.positions[V[k]]
      {
        assert vertices[..][k] == vertices[k];
      }
      forall k | 0 <= k < edgeCount
        ensures Pair(k) < edgeCount && E[Pair(k)] == m.twin[E[k]]
        ensures edges[k] == edges[..][k]
      {
        PairInRange(k, edgeCount);
      }
      forall b | 0 <= b < |c.faces|
        ensures faces[b] == faces[..][b] && planes[b] == planes[..][b]
        ensures m.faceEdge[c.faces[b]] == lay.loops[b][0]
      {
        assert IsFaceLoop(m, c.faces[b], lay.loops[b]);
      }
    }
  }

  /** Being a prefix is transitive. */
  lemma PrefixTrans(s1: seq<nat>, s2: seq<nat>, s3: seq<nat>)
    requires s1 <= s2 && s2 <= s3
    ensures s1 <= s3
  {
    assert s1 == s2[..|s1|] && s2 == s3[..|s2|];
  }
}
