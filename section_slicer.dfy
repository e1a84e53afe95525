/**
 * Slicing one procedural-mesh section that straddles the slicing plane: the
 * vertex pass sends every base vertex to the kept half (positive distance) or
 * to the other half, the triangle pass keeps whole triangles on their side and
 * clips mixed ones along the plane into small fans, recording one cut edge for
 * each clipped triangle.
 */
module SectionSlicer {
  import opened MeshCommon
  import opened PlaneSlicer

  /** FUtilEdge3D: one segment of the outline the plane cuts through the mesh. */
  datatype ClipEdge = ClipEdge(V0: Vec3, V1: Vec3)

  /** The section's bounding box is the one grown over its vertices in order. */
  ghost predicate BoundsVertices(s: ProcMeshSection)
  {
    s.LocalBox == VertexBox(s.Vertices)
  }

  /** ProcVertexBuffer.Add followed by SectionLocalBox += Position. */
  function AddVertex(s: ProcMeshSection, v: ProcMeshVertex): (r: ProcMeshSection)
    ensures r.Vertices == s.Vertices + [v] && r.Indices == s.Indices
    ensures BoundsVertices(s) ==> BoundsVertices(r)
  {
    assert (s.Vertices + [v])[..|s.Vertices|] == s.Vertices;
    ProcMeshSection(s.Vertices + [v], s.Indices, BoxAdd(s.LocalBox, v.Position))
  }

  // ------------------------------------------------------------ the vertex pass

  /** The signed distance of every base vertex from the plane. */
  function Distances(verts: seq<ProcMeshVertex>, plane: Plane): (r: seq<real>)
    ensures |r| == |verts| && forall v | 0 <= v < |verts| :: r[v] == PlaneDot(plane, verts[v].Position)
  {
    seq(|verts|, v requires 0 <= v < |verts| => PlaneDot(plane, verts[v].Position))
  }

  /** The first `i` base vertices on the positive side (`above`) or on the other side, in order. */
  function SideVertices(dist: seq<real>, above: bool, i: nat): seq<nat>
    requires i <= |dist|
  {
    if i == 0 then []
    else SideVertices(dist, above, i - 1) + (if (dist[i - 1] > 0.0) == above then [i - 1] else [])
  }

  /** Each side lists exactly the vertices among the first `i` whose distance puts them there, all below `i`. */
  lemma {:induction false} SideVerticesMembers(dist: seq<real>, above: bool, i: nat)
    requires i <= |dist|
    ensures forall v: nat :: v in SideVertices(dist, above, i) <==> v < i && (dist[v] > 0.0) == above
    ensures forall k | 0 <= k < |SideVertices(dist, above, i)| :: SideVertices(dist, above, i)[k] < i
  {
    if i > 0 {
      SideVerticesMembers(dist, above, i - 1);
    }
  }

  /** Each side lists its vertices in increasing order. */
  lemma {:induction false} SideVerticesIncreasing(dist: seq<real>, above: bool, i: nat)
    requires i <= |dist|
    ensures StrictlyIncreasing(SideVertices(dist, above, i))
  {
    if i > 0 {
      SideVerticesIncreasing(dist, above, i - 1);
      SideVerticesMembers(dist, above, i - 1);
    }
  }

  /** The two sides split the first `i` vertices between them. */
  lemma {:induction false} SideVerticesSplit(dist: seq<real>, i: nat)
    requires i <= |dist|
    ensures |SideVertices(dist, true, i)| + |SideVertices(dist, false, i)| == i
  {
    if i > 0 {
      SideVerticesSplit(dist, i - 1);
    }
  }

  /** The vertices at the listed positions. */
  function Pick(verts: seq<ProcMeshVertex>, idx: seq<nat>): (r: seq<ProcMeshVertex>)
    requires forall k | 0 <= k < |idx| :: idx[k] < |verts|
    ensures |r| == |idx| && forall k | 0 <= k < |idx| :: r[k] == verts[idx[k]]
  {
    seq(|idx|, k requires 0 <= k < |idx| => verts[idx[k]])
  }

  /** Numbering one more position maps it to the next new index. */
  lemma PositionMapAppend(prov: map<nat, nat>, picked: seq<nat>, v: nat)
    ensures prov + PositionMap(picked + [v]) == (prov + PositionMap(picked))[|picked| := v]
  {
    var s := picked + [v];
    assert forall j: nat | j < |picked| :: s[j] == picked[j];
  }

  /**
   * Copying one base vertex to a half: it is appended and its box grows, the
   * half's base-to-new map numbers it next, and the caller's provenance map
   * records new-to-base (overwriting an entry with the same new index).
   */
  method AppendToSide(verts: seq<ProcMeshVertex>, v: nat, side: ProcMeshSection, toSide: map<nat, nat>,
                      prov: map<nat, nat>, ghost prov0: map<nat, nat>, ghost picked: seq<nat>)
    returns (nextSide: ProcMeshSection, nextToSide: map<nat, nat>, nextProv: map<nat, nat>)
    requires v < |verts| && forall k | 0 <= k < |picked| :: picked[k] < |verts|
    requires side.Vertices == Pick(verts, picked) && toSide == CompactIndexOf(picked) && prov == prov0 + PositionMap(picked)
    ensures nextSide.Vertices == Pick(verts, picked + [v]) && nextSide.Indices == side.Indices
    ensures BoundsVertices(side) ==> BoundsVertices(nextSide)
    ensures nextToSide == CompactIndexOf(picked + [v]) && nextProv == prov0 + PositionMap(picked + [v])
  {
    var index := |side.Vertices|;
    nextSide := AddVertex(side, verts[v]);
    nextToSide := toSide[v := index];
    nextProv := prov[index := v];
    CompactIndexOfAppend(picked, v);
    PositionMapAppend(prov0, picked, v);
  }

  /**
   * What the vertex pass builds for one half: the half's section, the map from
   * base vertex to its index there (BaseToSlicedVertIndex), and the caller's
   * map from new index back to base vertex.
   */
  datatype SidePass = SidePass(Section: ProcMeshSection, ToSide: map<nat, nat>, Prov: map<nat, nat>)

  /** A half after the first `i` vertices: its base vertices in order, their numbering and their provenance. */
  ghost predicate PassedSide(base: ProcMeshSection, dist: seq<real>, above: bool, i: nat, p: SidePass, prov0: map<nat, nat>)
    requires i <= |dist| == |base.Vertices|
  {
    var picked := SideVertices(dist, above, i);
    (forall k | 0 <= k < |picked| :: picked[k] < |base.Vertices|)
    && p.Section.Vertices == Pick(base.Vertices, picked) && p.Section.Indices == [] && BoundsVertices(p.Section)
    && p.ToSide == CompactIndexOf(picked) && p.Prov == prov0 + PositionMap(picked)
  }

  /** Both halves after the first `i` vertices; without the other half it stays empty and its provenance untouched. */
  ghost predicate Passed(base: ProcMeshSection, dist: seq<real>, createOther: bool, i: nat, kept: SidePass, other: SidePass,
                         slicedProv: map<nat, nat>, otherProv: map<nat, nat>)
    requires i <= |dist| == |base.Vertices|
  {
    PassedSide(base, dist, true, i, kept, slicedProv)
    && (createOther ==> PassedSide(base, dist, false, i, other, otherProv))
    && (!createOther ==> other == SidePass(EmptySection, map[], otherProv))
  }

  /** A vertex on the side is copied to that half. */
  method PassVertex(base: ProcMeshSection, ghost dist: seq<real>, above: bool, v: nat, p: SidePass, ghost prov0: map<nat, nat>)
    returns (next: SidePass)
    requires v < |dist| == |base.Vertices| && (dist[v] > 0.0) == above
    requires PassedSide(base, dist, above, v, p, prov0)
    ensures PassedSide(base, dist, above, v + 1, next, prov0)
  {
    SideVerticesMembers(dist, above, v);
    assert SideVertices(dist, above, v + 1) == SideVertices(dist, above, v) + [v];
    var section, toSide, prov := AppendToSide(base.Vertices, v, p.Section, p.ToSide, p.Prov, prov0, SideVertices(dist, above, v));
    next := SidePass(section, toSide, prov);
  }

  /** A vertex on the other side leaves a half as it was. */
  lemma PassOver(base: ProcMeshSection, dist: seq<real>, above: bool, v: nat, p: SidePass, prov0: map<nat, nat>)
    requires v < |dist| == |base.Vertices| && (dist[v] > 0.0) != above
    requires PassedSide(base, dist, above, v, p, prov0)
    ensures PassedSide(base, dist, above, v + 1, p, prov0)
  {
    assert SideVertices(dist, above, v + 1) == SideVertices(dist, above, v);
  }

  /** One vertex of the vertex pass: to the kept half when its distance is positive, else to the other half if wanted. */
  method PassStep(base: ProcMeshSection, ghost dist: seq<real>, createOther: bool, v: nat, d: real,
                  kept: SidePass, other: SidePass, ghost slicedProv: map<nat, nat>, ghost otherProv: map<nat, nat>)
    returns (nextKept: SidePass, nextOther: SidePass)
    requires v < |dist| == |base.Vertices| && d == dist[v]
    requires Passed(base, dist, createOther, v, kept, other, slicedProv, otherProv)
    ensures Passed(base, dist, createOther, v + 1, nextKept, nextOther, slicedProv, otherProv)
  {
    nextKept, nextOther := kept, other;
    if d > 0.0 {
      nextKept := PassVertex(base, dist, true, v, kept, slicedProv);
      if createOther {
        PassOver(base, dist, false, v, other, otherProv);
      }
    } else {
      PassOver(base, dist, true, v, kept, slicedProv);
      if createOther {
        nextOther := PassVertex(base, dist, false, v, other, otherProv);
      }
    }
  }

  /**
   * The vertex pass over a straddling section: every base vertex with a
   * positive distance is copied to the kept half, every other one to the
   * other half when it is wanted; each copy is numbered in the half's
   * base-to-new map and recorded in the new-to-base provenance map.
   */
  method PartitionVertices(base: ProcMeshSection, plane: Plane, createOther: bool,
                           slicedProv: map<nat, nat>, otherProv: map<nat, nat>)
    returns (dist: seq<real>, kept: SidePass, other: SidePass)
    ensures dist == Distances(base.Vertices, plane)
    ensures Passed(base, dist, createOther, |dist|, kept, other, slicedProv, otherProv)
  {
    var n := |base.Vertices|;
    ghost var full := Distances(base.Vertices, plane);
    dist := [];
    kept := SidePass(EmptySection, map[], slicedProv);
    other := SidePass(EmptySection, map[], otherProv);
    for v := 0 to n
      invariant DistancesSoFar(dist, full, v)
      invariant Passed(base, full, createOther, v, kept, other, slicedProv, otherProv)
    {
      var d := PlaneDot(plane, base.Vertices[v].Position);
      dist := AppendDistance(dist, full, v, d);
      kept, other := PassStep(base, full, createOther, v, d, kept, other, slicedProv, otherProv);
    }
  }

  /** The first `v` distances have been computed. */
  ghost predicate DistancesSoFar(dist: seq<real>, full: seq<real>, v: nat)
  {
    |dist| == v <= |full| && forall i | 0 <= i < v :: dist[i] == full[i]
  }

  /** Recording the distance of vertex `v`. */
  method AppendDistance(dist: seq<real>, ghost full: seq<real>, v: nat, d: real) returns (r: seq<real>)
    requires DistancesSoFar(dist, full, v) && v < |full| && d == full[v]
    ensures DistancesSoFar(r, full, v + 1)
  {
    r := dist + [d];
  }

  /**
   * After the whole vertex pass, a half's base-to-new map has exactly the base
   * vertices on its side as keys, each pointing into the half.
   */
  lemma PassedSideKeys(base: ProcMeshSection, dist: seq<real>, above: bool, p: SidePass, prov0: map<nat, nat>)
    requires |dist| == |base.Vertices|
    requires PassedSide(base, dist, above, |dist|, p, prov0)
    ensures forall v: nat :: v in p.ToSide <==> v < |dist| && (dist[v] > 0.0) == above
    ensures forall v | v in p.ToSide :: p.ToSide[v] < |p.Section.Vertices|
  {
    SideVerticesMembers(dist, above, |dist|);
    CompactIndexOfInverts(SideVertices(dist, above, |dist|));
  }

  // ------------------------------------------------------------ clipping one mixed triangle

  /** The corner after corner `i`, going round the triangle. */
  function Next(i: nat): nat
  {
    if i >= 2 then 0 else i + 1
  }

  /** Corner `i` of the triangle is on the positive side. */
  predicate Up(d: seq<real>, i: nat)
    requires |d| == 3 && i < 3
  {
    d[i] > 0.0
  }

  /** The edge from corner `i` to the next corner changes side. */
  predicate Crossing(d: seq<real>, i: nat)
    requires |d| == 3 && i < 3
  {
    Up(d, i) != Up(d, Next(i))
  }

  /** The corners of the triangle are not all on one side. */
  predicate Mixed(d: seq<real>)
    requires |d| == 3
  {
    !(Up(d, 0) == Up(d, 1) == Up(d, 2))
  }

  /** How many of the first `e` edges change side. */
  function CrossCount(d: seq<real>, e: nat): nat
    requires |d| == 3 && e <= 3
  {
    if e == 0 then 0 else CrossCount(d, e - 1) + (if Crossing(d, e - 1) then 1 else 0)
  }

  /** How many corners lie on the given side. */
  function CornersOn(d: seq<real>, above: bool): nat
    requires |d| == 3
  {
    (if Up(d, 0) == above then 1 else 0) + (if Up(d, 1) == above then 1 else 0) + (if Up(d, 2) == above then 1 else 0)
  }

  /** A mixed triangle crosses the plane on exactly two of its edges, and an unmixed one on none. */
  lemma MixedCrossesTwice(d: seq<real>)
    requires |d| == 3
    ensures CrossCount(d, 3) == if Mixed(d) then 2 else 0
  {
    assert CrossCount(d, 1) == if Crossing(d, 0) then 1 else 0;
    assert CrossCount(d, 2) == CrossCount(d, 1) + if Crossing(d, 1) then 1 else 0;
  }

  /** An edge that changes side comes after at most one other such edge. */
  lemma CrossingAfterAtMostOne(d: seq<real>, e: nat)
    requires |d| == 3 && e < 3
    ensures Crossing(d, e) ==> CrossCount(d, e) <= 1
  {
    assert CrossCount(d, 1) == if Crossing(d, 0) then 1 else 0;
    assert CrossCount(d, 2) == CrossCount(d, 1) + if Crossing(d, 1) then 1 else 0;
  }

  /** The distance along edge `i` where the plane lies: -d0 / (d1 - d0). */
  function EdgeAlpha(d: seq<real>, i: nat): real
    requires |d| == 3 && i < 3 && Crossing(d, i)
  {
    -d[i] / (d[Next(i)] - d[i])
  }

  /** On an edge that changes side the cut lies on the edge: its alpha is already in [0, 1], so the clamp never changes it. */
  lemma EdgeAlphaInRange(d: seq<real>, i: nat)
    requires |d| == 3 && i < 3 && Crossing(d, i)
    ensures 0.0 <= EdgeAlpha(d, i) <= 1.0
  {
    var d0, d1 := d[i], d[Next(i)];
    if d0 > 0.0 {
      assert EdgeAlpha(d, i) == d0 / (d0 - d1);
      DivInUnit(d0, d0 - d1);
    } else {
      assert EdgeAlpha(d, i) == (-d0) / (d1 - d0);
      DivInUnit(-d0, d1 - d0);
    }
  }

  lemma DivInUnit(x: real, y: real)
    requires 0.0 <= x <= y && y > 0.0
    ensures 0.0 <= x / y <= 1.0
  {
  }

  /** The vertex interpolated where the plane cuts edge `i`. */
  function EdgePoint(verts: seq<ProcMeshVertex>, cv: seq<nat>, d: seq<real>, i: nat): ProcMeshVertex
    requires |cv| == 3 && |d| == 3 && i < 3 && Crossing(d, i)
    requires forall j | 0 <= j < 3 :: cv[j] < |verts|
  {
    InterpolateVert(verts[cv[i]], verts[cv[Next(i)]], ClampReal(EdgeAlpha(d, i), 0.0, 1.0), true)
  }

  /** The interpolated vertices of the first `e` edges, in edge order. */
  function CrossPoints(verts: seq<ProcMeshVertex>, cv: seq<nat>, d: seq<real>, e: nat): (r: seq<ProcMeshVertex>)
    requires |cv| == 3 && |d| == 3 && e <= 3
    requires forall j | 0 <= j < 3 :: cv[j] < |verts|
    ensures |r| == CrossCount(d, e)
  {
    if e == 0 then []
    else CrossPoints(verts, cv, d, e - 1) + (if Crossing(d, e - 1) then [EdgePoint(verts, cv, d, e - 1)] else [])
  }

  /**
   * The clipped polygon on one side after `e` edges: each edge contributes its
   * start corner when that corner is on the side, then the cut vertex when the
   * edge changes side (numbered from `start` on).
   */
  function SidePoly(d: seq<real>, above: bool, mapped: seq<nat>, start: nat, e: nat): seq<nat>
    requires |d| == 3 && |mapped| == 3 && e <= 3
  {
    if e == 0 then []
    else SidePoly(d, above, mapped, start, e - 1)
         + (if Up(d, e - 1) == above then [mapped[e - 1]] else [])
         + (if Crossing(d, e - 1) then [start + CrossCount(d, e - 1)] else [])
  }

  /** The corners among the first `e` that lie on the given side. */
  function CornersUpTo(d: seq<real>, above: bool, e: nat): nat
    requires |d| == 3 && e <= 3
  {
    if e == 0 then 0 else CornersUpTo(d, above, e - 1) + (if Up(d, e - 1) == above then 1 else 0)
  }

  /** The polygon on a side has that side's corners plus the cut vertices. */
  lemma {:induction false} SidePolySize(d: seq<real>, above: bool, mapped: seq<nat>, start: nat, e: nat)
    requires |d| == 3 && |mapped| == 3 && e <= 3
    ensures |SidePoly(d, above, mapped, start, e)| == CrossCount(d, e) + CornersUpTo(d, above, e)
  {
    if e > 0 {
      SidePolySize(d, above, mapped, start, e - 1);
    }
  }

  /** Every entry of the polygon on a side indexes the side's vertex buffer once the cut vertices are appended. */
  lemma {:induction false} SidePolyBounded(d: seq<real>, above: bool, mapped: seq<nat>, start: nat, e: nat)
    requires |d| == 3 && |mapped| == 3 && e <= 3
    requires forall j | 0 <= j < 3 && Up(d, j) == above :: mapped[j] < start
    ensures forall k | 0 <= k < |SidePoly(d, above, mapped, start, e)| ::
              SidePoly(d, above, mapped, start, e)[k] < start + CrossCount(d, e)
  {
    if e > 0 {
      SidePolyBounded(d, above, mapped, start, e - 1);
    }
  }

  /** The fan over the polygon's vertices 0..k-1: triangles (0, j-1, j) for j from 2. */
  function Fan(poly: seq<nat>, k: nat): (r: seq<nat>)
    requires k <= |poly|
    ensures |r| == if k < 2 then 0 else 3 * (k - 2)
  {
    if k < 3 then [] else Fan(poly, k - 1) + [poly[0], poly[k - 2], poly[k - 1]]
  }

  /** A fan only uses the polygon's own entries. */
  lemma {:induction false} FanBounded(poly: seq<nat>, k: nat, bound: nat)
    requires k <= |poly| && forall j | 0 <= j < |poly| :: poly[j] < bound
    ensures forall j | 0 <= j < |Fan(poly, k)| :: Fan(poly, k)[j] < bound
  {
    if k >= 3 {
      FanBounded(poly, k - 1, bound);
    }
  }

  /** The corners' new indices in a half's vertex buffer (0 where a corner is not in that half). */
  function Mapped(cv: seq<nat>, toSide: map<nat, nat>): (r: seq<nat>)
    requires |cv| == 3
    ensures |r| == 3 && forall j | 0 <= j < 3 && cv[j] in toSide :: r[j] == toSide[cv[j]]
  {
    seq(3, j requires 0 <= j < 3 => if cv[j] in toSide then toSide[cv[j]] else 0)
  }

  /** One half during the clip loop after `e` edges: the cut vertices so far appended, its polygon so far built. */
  ghost predicate SideClipped(verts: seq<ProcMeshVertex>, cv: seq<nat>, d: seq<real>, above: bool, toSide: map<nat, nat>,
                              start: ProcMeshSection, side: ProcMeshSection, poly: seq<nat>, e: nat)
    requires |cv| == 3 && |d| == 3 && e <= 3 && forall j | 0 <= j < 3 :: cv[j] < |verts|
  {
    side.Vertices == start.Vertices + CrossPoints(verts, cv, d, e) && side.Indices == start.Indices
    && BoundsVertices(side)
    && poly == SidePoly(d, above, Mapped(cv, toSide), |start.Vertices|, e)
  }

  /** One edge of the clip loop, for one half: its corner if on the half's side, then the cut vertex if the edge changes side. */
  method ClipSideStep(verts: seq<ProcMeshVertex>, cv: seq<nat>, d: seq<real>, above: bool, toSide: map<nat, nat>,
                      ghost start: ProcMeshSection, side: ProcMeshSection, poly: seq<nat>, e: nat,
                      crosses: bool, interp: ProcMeshVertex)
    returns (nextSide: ProcMeshSection, nextPoly: seq<nat>)
    requires |cv| == 3 && |d| == 3 && e < 3 && forall j | 0 <= j < 3 :: cv[j] < |verts|
    requires forall j | 0 <= j < 3 :: cv[j] in toSide <==> Up(d, j) == above
    requires crosses == Crossing(d, e) && (crosses ==> interp == EdgePoint(verts, cv, d, e))
    requires SideClipped(verts, cv, d, above, toSide, start, side, poly, e)
    ensures SideClipped(verts, cv, d, above, toSide, start, nextSide, nextPoly, e + 1)
  {
    nextSide, nextPoly := side, poly;
    if cv[e] in toSide {
      nextPoly := nextPoly + [toSide[cv[e]]];
    }
    if crosses {
      nextPoly := nextPoly + [|nextSide.Vertices|];
      nextSide := AddVertex(nextSide, interp);
    }
  }

  /** The fan over a clipped polygon, appended to a half's index buffer. */
  method EmitFan(indices: seq<nat>, poly: seq<nat>) returns (out: seq<nat>)
    ensures out == indices + Fan(poly, |poly|)
  {
    out := indices;
    if |poly| < 3 {
      return;
    }
    for k := 2 to |poly|
      invariant out == indices + Fan(poly, k)
    {
      out := out + [poly[0], poly[k - 1], poly[k]];
    }
  }

  /** The cut edge recorded after `e` edges: the first cut point as V0, the second as V1. */
  ghost predicate EdgeSoFar(points: seq<ProcMeshVertex>, edge: ClipEdge, clipped: nat)
  {
    clipped == |points|
    && (|points| >= 1 ==> edge.V0 == points[0].Position)
    && (|points| >= 2 ==> edge.V1 == points[1].Position)
  }

  /** A mixed triangle's clipped polygon on a side has its corners there plus the two cut vertices. */
  lemma ClippedPolySize(d: seq<real>, above: bool, mapped: seq<nat>, start: nat)
    requires |d| == 3 && |mapped| == 3 && Mixed(d)
    ensures |SidePoly(d, above, mapped, start, 3)| == CornersOn(d, above) + 2
  {
    MixedCrossesTwice(d);
    SidePolySize(d, above, mapped, start, 3);
    assert CornersUpTo(d, above, 1) == if Up(d, 0) == above then 1 else 0;
    assert CornersUpTo(d, above, 2) == CornersUpTo(d, above, 1) + if Up(d, 1) == above then 1 else 0;
  }

  /** The two halves of a straddling section being built, and the cut edges found so far. */
  datatype Halves = Halves(Kept: ProcMeshSection, Other: ProcMeshSection, ClipEdges: seq<ClipEdge>)

  /** Both halves and the cut edge during the clip loop, after `e` edges. */
  ghost predicate Clipped(verts: seq<ProcMeshVertex>, cv: seq<nat>, d: seq<real>, toKept: map<nat, nat>, toOther: map<nat, nat>,
                          createOther: bool, h: Halves, kept: ProcMeshSection, other: ProcMeshSection,
                          finalVerts: seq<nat>, otherFinalVerts: seq<nat>, edge: ClipEdge, clipped: nat, e: nat)
    requires |cv| == 3 && |d| == 3 && e <= 3 && forall j | 0 <= j < 3 :: cv[j] < |verts|
  {
    SideClipped(verts, cv, d, true, toKept, h.Kept, kept, finalVerts, e)
    && (createOther ==> SideClipped(verts, cv, d, false, toOther, h.Other, other, otherFinalVerts, e))
    && (!createOther ==> other == h.Other)
    && EdgeSoFar(CrossPoints(verts, cv, d, e), edge, clipped)
  }

  /**
   * The loop over the triangle's three edges: each corner goes to the polygon
   * of its half, and where an edge changes side the vertex interpolated at the
   * plane joins both polygons and becomes an end of the cut edge.
   */
  method ClipEdgesOf(verts: seq<ProcMeshVertex>, cv: seq<nat>, d: seq<real>, toKept: map<nat, nat>,
                     toOther: map<nat, nat>, createOther: bool, h: Halves)
    returns (kept: ProcMeshSection, other: ProcMeshSection, finalVerts: seq<nat>, otherFinalVerts: seq<nat>, edge: ClipEdge)
    requires |cv| == 3 && |d| == 3 && forall j | 0 <= j < 3 :: cv[j] < |verts|
    requires forall j | 0 <= j < 3 :: cv[j] in toKept <==> Up(d, j)
    requires createOther ==> forall j | 0 <= j < 3 :: cv[j] in toOther <==> !Up(d, j)
    requires BoundsVertices(h.Kept) && (createOther ==> BoundsVertices(h.Other))
    ensures Clipped(verts, cv, d, toKept, toOther, createOther, h, kept, other, finalVerts, otherFinalVerts, edge, CrossCount(d, 3), 3)
  {
    kept, other := h.Kept, h.Other;
    finalVerts, otherFinalVerts := [], [];
    edge := ClipEdge(Zero3, Zero3);
    var clipped := 0;
    for e := 0 to 3
      invariant Clipped(verts, cv, d, toKept, toOther, createOther, h, kept, other, finalVerts, otherFinalVerts, edge, clipped, e)
    {
      var nextVert := Next(e);
      var crosses := (cv[e] in toKept) != (cv[nextVert] in toKept);
      var interp := verts[cv[e]];
      if crosses {
        var alpha := -d[e] / (d[nextVert] - d[e]);
        interp := InterpolateVert(verts[cv[e]], verts[cv[nextVert]], ClampReal(alpha, 0.0, 1.0), true);
      }
      kept, finalVerts := ClipSideStep(verts, cv, d, true, toKept, h.Kept, kept, finalVerts, e, crosses, interp);
      if createOther {
        other, otherFinalVerts := ClipSideStep(verts, cv, d, false, toOther, h.Other, other, otherFinalVerts, e, crosses, interp);
      }
      edge, clipped := RecordCut(verts, cv, d, e, edge, clipped, crosses, interp);
    }
  }

  /** The cut edge after one more edge: a cut vertex there becomes V0 if it is the first, V1 otherwise. */
  method RecordCut(verts: seq<ProcMeshVertex>, cv: seq<nat>, d: seq<real>, e: nat, edge: ClipEdge, clipped: nat,
                   crosses: bool, interp: ProcMeshVertex)
    returns (nextEdge: ClipEdge, nextClipped: nat)
    requires |cv| == 3 && |d| == 3 && e < 3 && forall j | 0 <= j < 3 :: cv[j] < |verts|
    requires crosses == Crossing(d, e) && (crosses ==> interp == EdgePoint(verts, cv, d, e))
    requires EdgeSoFar(CrossPoints(verts, cv, d, e), edge, clipped)
    ensures EdgeSoFar(CrossPoints(verts, cv, d, e + 1), nextEdge, nextClipped)
  {
    nextEdge, nextClipped := edge, clipped;
    CrossingAfterAtMostOne(d, e);
    if crosses {
      if clipped == 0 {
        nextEdge := edge.(V0 := interp.Position);
      } else {
        nextEdge := edge.(V1 := interp.Position);
      }
      nextClipped := clipped + 1;
    }
  }

  /** Appending the fan over a clipped polygon whose entries index the half's vertices keeps the half indexed. */
  method CloseSide(ghost start: ProcMeshSection, side: ProcMeshSection, poly: seq<nat>) returns (r: ProcMeshSection)
    requires side.Indices == start.Indices && |start.Vertices| <= |side.Vertices|
    requires forall k | 0 <= k < |poly| :: poly[k] < |side.Vertices|
    ensures r.Vertices == side.Vertices && r.LocalBox == side.LocalBox
    ensures r.Indices == start.Indices + Fan(poly, |poly|)
    ensures ValidSection(start) ==> ValidSection(r)
  {
    FanBounded(poly, |poly|, |side.Vertices|);
    var indices := EmitFan(side.Indices, poly);
    r := side.(Indices := indices);
  }

  /**
   * Clipping a mixed triangle: the two cut vertices are appended to the kept
   * half (and to the other half when it is wanted), each half receives the fan
   * over its clipped polygon (its corners there plus the two cut vertices), and
   * the cut edge between the two cut points is recorded.
   */
  method ClipTriangle(verts: seq<ProcMeshVertex>, cv: seq<nat>, d: seq<real>, toKept: map<nat, nat>,
                      toOther: map<nat, nat>, createOther: bool, h: Halves)
    returns (next: Halves)
    requires |cv| == 3 && |d| == 3 && Mixed(d) && forall j | 0 <= j < 3 :: cv[j] < |verts|
    requires forall j | 0 <= j < 3 :: cv[j] in toKept <==> Up(d, j)
    requires createOther ==> forall j | 0 <= j < 3 :: cv[j] in toOther <==> !Up(d, j)
    requires forall v | v in toKept :: toKept[v] < |h.Kept.Vertices|
    requires createOther ==> forall v | v in toOther :: toOther[v] < |h.Other.Vertices|
    requires BoundsVertices(h.Kept) && (createOther ==> BoundsVertices(h.Other))
    ensures var points := CrossPoints(verts, cv, d, 3);
      |points| == 2 && next.ClipEdges == h.ClipEdges + [ClipEdge(points[0].Position, points[1].Position)]
    ensures var poly := SidePoly(d, true, Mapped(cv, toKept), |h.Kept.Vertices|, 3);
      next.Kept.Vertices == h.Kept.Vertices + CrossPoints(verts, cv, d, 3)
      && |poly| == CornersOn(d, true) + 2
      && next.Kept.Indices == h.Kept.Indices + Fan(poly, |poly|)
      && BoundsVertices(next.Kept)
      && (ValidSection(h.Kept) ==> ValidSection(next.Kept))
    ensures createOther ==>
      var poly := SidePoly(d, false, Mapped(cv, toOther), |h.Other.Vertices|, 3);
      next.Other.Vertices == h.Other.Vertices + CrossPoints(verts, cv, d, 3)
      && |poly| == CornersOn(d, false) + 2
      && next.Other.Indices == h.Other.Indices + Fan(poly, |poly|)
      && BoundsVertices(next.Other)
      && (ValidSection(h.Other) ==> ValidSection(next.Other))
    ensures !createOther ==> next.Other == h.Other
  {
    var kept, other, finalVerts, otherFinalVerts, edge := ClipEdgesOf(verts, cv, d, toKept, toOther, createOther, h);
    MixedCrossesTwice(d);
    ClippedPolySize(d, true, Mapped(cv, toKept), |h.Kept.Vertices|);
    SidePolyBounded(d, true, Mapped(cv, toKept), |h.Kept.Vertices|, 3);
    kept := CloseSide(h.Kept, kept, finalVerts);
    if createOther {
      ClippedPolySize(d, false, Mapped(cv, toOther), |h.Other.Vertices|);
      SidePolyBounded(d, false, Mapped(cv, toOther), |h.Other.Vertices|, 3);
      other := CloseSide(h.Other, other, otherFinalVerts);
    }
    next := Halves(kept, other, h.ClipEdges + [edge]);
  }

  // ------------------------------------------------------------ the triangle pass

  /** The base-vertex corners of triangle `t` of the section. */
  function Corners(base: ProcMeshSection, t: nat): (cv: seq<nat>)
    requires ValidSection(base) && 3 * t + 3 <= |base.Indices|
    ensures |cv| == 3 && forall j | 0 <= j < 3 :: cv[j] < |base.Vertices|
  {
    [base.Indices[3 * t], base.Indices[3 * t + 1], base.Indices[3 * t + 2]]
  }

  /** The corners' distances from the plane. */
  function CornerDists(dist: seq<real>, cv: seq<nat>): (d: seq<real>)
    requires |cv| == 3 && forall j | 0 <= j < 3 :: cv[j] < |dist|
    ensures |d| == 3 && forall j | 0 <= j < 3 :: d[j] == dist[cv[j]]
  {
    [dist[cv[0]], dist[cv[1]], dist[cv[2]]]
  }

  /** The cut vertices a triangle appends to each half: the two of a mixed triangle, none otherwise. */
  function Added(verts: seq<ProcMeshVertex>, cv: seq<nat>, d: seq<real>): seq<ProcMeshVertex>
    requires |cv| == 3 && |d| == 3 && forall j | 0 <= j < 3 :: cv[j] < |verts|
  {
    if Mixed(d) then CrossPoints(verts, cv, d, 3) else []
  }

  /** The cut edge a triangle records: the segment between its two cut points when mixed, none otherwise. */
  function CutEdge(verts: seq<ProcMeshVertex>, cv: seq<nat>, d: seq<real>): seq<ClipEdge>
    requires |cv| == 3 && |d| == 3 && forall j | 0 <= j < 3 :: cv[j] < |verts|
  {
    if Mixed(d) then
      var points := CrossPoints(verts, cv, d, 3);
      MixedCrossesTwice(d);
      [ClipEdge(points[0].Position, points[1].Position)]
    else []
  }

  /**
   * The indices a triangle appends to a half: the whole triangle when all its
   * corners are on the half's side, nothing when none is, otherwise the fan over
   * its clipped polygon.
   */
  function SideIndices(d: seq<real>, above: bool, cv: seq<nat>, toSide: map<nat, nat>, start: nat): (r: seq<nat>)
    requires |d| == 3 && |cv| == 3
    ensures |r| == 3 * TrisOn(d, above)
  {
    if CornersOn(d, above) == 3 then Mapped(cv, toSide)
    else if CornersOn(d, above) == 0 then []
    else
      ClippedPolySize(d, above, Mapped(cv, toSide), start);
      var poly := SidePoly(d, above, Mapped(cv, toSide), start, 3);
      Fan(poly, |poly|)
  }

  /** How many triangles a triangle gives a half: 1 when wholly on its side, else one per corner there. */
  function TrisOn(d: seq<real>, above: bool): nat
    requires |d| == 3
  {
    if CornersOn(d, above) == 3 then 1 else CornersOn(d, above)
  }

  /**
   * One triangle of the triangle pass: kept whole when all its corners are
   * kept, given whole to the other half (when wanted) when none is, clipped
   * otherwise.
   */
  method RouteTriangle(verts: seq<ProcMeshVertex>, cv: seq<nat>, d: seq<real>, toKept: map<nat, nat>,
                       toOther: map<nat, nat>, createOther: bool, h: Halves)
    returns (next: Halves)
    requires |cv| == 3 && |d| == 3 && forall j | 0 <= j < 3 :: cv[j] < |verts|
    requires forall j | 0 <= j < 3 :: cv[j] in toKept <==> Up(d, j)
    requires createOther ==> forall j | 0 <= j < 3 :: cv[j] in toOther <==> !Up(d, j)
    requires forall v | v in toKept :: toKept[v] < |h.Kept.Vertices|
    requires createOther ==> forall v | v in toOther :: toOther[v] < |h.Other.Vertices|
    requires BoundsVertices(h.Kept) && (createOther ==> BoundsVertices(h.Other))
    ensures next.Kept.Vertices == h.Kept.Vertices + Added(verts, cv, d)
    ensures next.Kept.Indices == h.Kept.Indices + SideIndices(d, true, cv, toKept, |h.Kept.Vertices|)
    ensures BoundsVertices(next.Kept) && (ValidSection(h.Kept) ==> ValidSection(next.Kept))
    ensures createOther ==>
      next.Other.Vertices == h.Other.Vertices + Added(verts, cv, d)
      && next.Other.Indices == h.Other.Indices + SideIndices(d, false, cv, toOther, |h.Other.Vertices|)
      && BoundsVertices(next.Other) && (ValidSection(h.Other) ==> ValidSection(next.Other))
    ensures !createOther ==> next.Other == h.Other
    ensures next.ClipEdges == h.ClipEdges + CutEdge(verts, cv, d)
  {
    if cv[0] in toKept && cv[1] in toKept && cv[2] in toKept {
      next := h.(Kept := h.Kept.(Indices := h.Kept.Indices + [toKept[cv[0]], toKept[cv[1]], toKept[cv[2]]]));
    } else if cv[0] !in toKept && cv[1] !in toKept && cv[2] !in toKept {
      next := h;
      if createOther {
        next := h.(Other := h.Other.(Indices := h.Other.Indices + [toOther[cv[0]], toOther[cv[1]], toOther[cv[2]]]));
      }
    } else {
      next := ClipTriangle(verts, cv, d, toKept, toOther, createOther, h);
    }
  }

  /** The cut vertices the first `t` triangles append to each half. */
  function RoutedPoints(base: ProcMeshSection, dist: seq<real>, t: nat): seq<ProcMeshVertex>
    requires ValidSection(base) && |dist| == |base.Vertices| && 3 * t <= |base.Indices|
  {
    if t == 0 then []
    else
      var cv := Corners(base, t - 1);
      RoutedPoints(base, dist, t - 1) + Added(base.Vertices, cv, CornerDists(dist, cv))
  }

  /** The cut edges the first `t` triangles record. */
  function RoutedEdges(base: ProcMeshSection, dist: seq<real>, t: nat): seq<ClipEdge>
    requires ValidSection(base) && |dist| == |base.Vertices| && 3 * t <= |base.Indices|
  {
    if t == 0 then []
    else
      var cv := Corners(base, t - 1);
      RoutedEdges(base, dist, t - 1) + CutEdge(base.Vertices, cv, CornerDists(dist, cv))
  }

  /** The indices the first `t` triangles append to a half whose vertex pass left `start` vertices. */
  function RoutedIndices(base: ProcMeshSection, dist: seq<real>, above: bool, toSide: map<nat, nat>, start: nat, t: nat): (r: seq<nat>)
    requires ValidSection(base) && |dist| == |base.Vertices| && 3 * t <= |base.Indices|
    ensures |r| == 3 * TriCount(base, dist, above, t)
  {
    if t == 0 then []
    else
      var cv := Corners(base, t - 1);
      RoutedIndices(base, dist, above, toSide, start, t - 1)
      + SideIndices(CornerDists(dist, cv), above, cv, toSide, CutBase(base, dist, start, t - 1))
  }

  /** Where triangle `t`'s cut vertices start in a half whose vertex pass left `start` vertices. */
  function CutBase(base: ProcMeshSection, dist: seq<real>, start: nat, t: nat): nat
    requires ValidSection(base) && |dist| == |base.Vertices| && 3 * t <= |base.Indices|
  {
    start + 2 * MixedCount(base, dist, t)
  }

  /** How many of the first `t` triangles are mixed. */
  function MixedCount(base: ProcMeshSection, dist: seq<real>, t: nat): nat
    requires ValidSection(base) && |dist| == |base.Vertices| && 3 * t <= |base.Indices|
  {
    if t == 0 then 0
    else MixedCount(base, dist, t - 1) + (if Mixed(CornerDists(dist, Corners(base, t - 1))) then 1 else 0)
  }

  /** How many triangles the first `t` triangles give a half. */
  function TriCount(base: ProcMeshSection, dist: seq<real>, above: bool, t: nat): nat
    requires ValidSection(base) && |dist| == |base.Vertices| && 3 * t <= |base.Indices|
  {
    if t == 0 then 0
    else TriCount(base, dist, above, t - 1) + TrisOn(CornerDists(dist, Corners(base, t - 1)), above)
  }

  /** Every mixed triangle appends two cut vertices to each half and records one cut edge. */
  lemma {:induction false} RoutedPointsCount(base: ProcMeshSection, dist: seq<real>, t: nat)
    requires ValidSection(base) && |dist| == |base.Vertices| && 3 * t <= |base.Indices|
    ensures |RoutedPoints(base, dist, t)| == 2 * MixedCount(base, dist, t)
    ensures |RoutedEdges(base, dist, t)| == MixedCount(base, dist, t)
  {
    if t > 0 {
      RoutedPointsCount(base, dist, t - 1);
      MixedCrossesTwice(CornerDists(dist, Corners(base, t - 1)));
    }
  }

  /** The indices of the first `t` triangles are those of the first `t - 1` followed by triangle `t - 1`'s. */
  lemma RoutedIndicesUnfold(base: ProcMeshSection, dist: seq<real>, above: bool, toSide: map<nat, nat>, start: nat, t: nat)
    requires ValidSection(base) && |dist| == |base.Vertices| && 0 < t && 3 * t <= |base.Indices|
    ensures var cv := Corners(base, t - 1);
      RoutedIndices(base, dist, above, toSide, start, t)
      == RoutedIndices(base, dist, above, toSide, start, t - 1)
         + SideIndices(CornerDists(dist, cv), above, cv, toSide, CutBase(base, dist, start, t - 1))
  {
  }

  /** No triangle is lost or doubled: a whole one goes to exactly one half, a mixed one becomes three, split between the halves. */
  lemma {:induction false} TriCountSplit(base: ProcMeshSection, dist: seq<real>, t: nat)
    requires ValidSection(base) && |dist| == |base.Vertices| && 3 * t <= |base.Indices|
    ensures TriCount(base, dist, true, t) + TriCount(base, dist, false, t) == t + 2 * MixedCount(base, dist, t)
  {
    if t > 0 {
      TriCountSplit(base, dist, t - 1);
    }
  }

  /**
   * One half after the first `t` triangles: the routed cut vertices and
   * indices appended to what the vertex pass left, its box grown over all of
   * its vertices.
   */
  function RoutedSection(base: ProcMeshSection, dist: seq<real>, above: bool, toSide: map<nat, nat>,
                         s0: ProcMeshSection, t: nat): ProcMeshSection
    requires ValidSection(base) && |dist| == |base.Vertices| && 3 * t <= |base.Indices|
  {
    var verts := s0.Vertices + RoutedPoints(base, dist, t);
    ProcMeshSection(verts, s0.Indices + RoutedIndices(base, dist, above, toSide, |s0.Vertices|, t), VertexBox(verts))
  }

  /** The two halves after the first `t` triangles of the triangle pass; without the other half it stays as it was. */
  function RoutedHalves(base: ProcMeshSection, dist: seq<real>, toKept: map<nat, nat>, toOther: map<nat, nat>,
                        createOther: bool, h0: Halves, t: nat): Halves
    requires ValidSection(base) && |dist| == |base.Vertices| && 3 * t <= |base.Indices|
  {
    Halves(RoutedSection(base, dist, true, toKept, h0.Kept, t),
           if createOther then RoutedSection(base, dist, false, toOther, h0.Other, t) else h0.Other,
           h0.ClipEdges + RoutedEdges(base, dist, t))
  }

  /** Both halves are renderable (the other one only when it is built). */
  ghost predicate HalvesValid(h: Halves, createOther: bool)
  {
    ValidSection(h.Kept) && (createOther ==> ValidSection(h.Other))
  }

  lemma AppendAssoc<T>(a: seq<T>, b: seq<T>, c: seq<T>)
    ensures (a + b) + c == a + (b + c)
  {
  }

  /** Before the first triangle both halves are as the vertex pass left them. */
  lemma RoutedStart(base: ProcMeshSection, dist: seq<real>, toKept: map<nat, nat>, toOther: map<nat, nat>,
                    createOther: bool, h0: Halves)
    requires ValidSection(base) && |dist| == |base.Vertices|
    requires BoundsVertices(h0.Kept) && (createOther ==> BoundsVertices(h0.Other))
    ensures RoutedHalves(base, dist, toKept, toOther, createOther, h0, 0) == h0
  {
    assert h0.Kept.Vertices + [] == h0.Kept.Vertices && h0.Kept.Indices + [] == h0.Kept.Indices;
    assert h0.Other.Vertices + [] == h0.Other.Vertices && h0.Other.Indices + [] == h0.Other.Indices;
    assert h0.ClipEdges + [] == h0.ClipEdges;
  }

  /** A half after triangle `t`: its cut vertices and indices appended, its box grown over them. */
  function StepSection(base: ProcMeshSection, dist: seq<real>, above: bool, toSide: map<nat, nat>,
                       s: ProcMeshSection, t: nat): ProcMeshSection
    requires ValidSection(base) && |dist| == |base.Vertices| && 3 * t + 3 <= |base.Indices|
  {
    var cv := Corners(base, t);
    var d := CornerDists(dist, cv);
    var verts := s.Vertices + Added(base.Vertices, cv, d);
    ProcMeshSection(verts, s.Indices + SideIndices(d, above, cv, toSide, |s.Vertices|), VertexBox(verts))
  }

  /** Both halves and the cut edges after triangle `t`. */
  function StepHalves(base: ProcMeshSection, dist: seq<real>, toKept: map<nat, nat>, toOther: map<nat, nat>,
                      createOther: bool, h: Halves, t: nat): Halves
    requires ValidSection(base) && |dist| == |base.Vertices| && 3 * t + 3 <= |base.Indices|
  {
    var cv := Corners(base, t);
    Halves(StepSection(base, dist, true, toKept, h.Kept, t),
           if createOther then StepSection(base, dist, false, toOther, h.Other, t) else h.Other,
           h.ClipEdges + CutEdge(base.Vertices, cv, CornerDists(dist, cv)))
  }

  /** The halves after the first `t` triangles, one step at a time. */
  function RouteFold(base: ProcMeshSection, dist: seq<real>, toKept: map<nat, nat>, toOther: map<nat, nat>,
                     createOther: bool, h0: Halves, t: nat): Halves
    requires ValidSection(base) && |dist| == |base.Vertices| && 3 * t <= |base.Indices|
  {
    if t == 0 then h0
    else StepHalves(base, dist, toKept, toOther, createOther, RouteFold(base, dist, toKept, toOther, createOther, h0, t - 1), t - 1)
  }

  /** Routing triangle `t` into a half routed up to `t` gives the half routed up to `t + 1`. */
  lemma RoutedSectionStep(base: ProcMeshSection, dist: seq<real>, above: bool, toSide: map<nat, nat>,
                          s0: ProcMeshSection, t: nat)
    requires ValidSection(base) && |dist| == |base.Vertices| && 3 * t + 3 <= |base.Indices|
    ensures StepSection(base, dist, above, toSide, RoutedSection(base, dist, above, toSide, s0, t), t)
            == RoutedSection(base, dist, above, toSide, s0, t + 1)
  {
    var s := RoutedSection(base, dist, above, toSide, s0, t);
    var cv := Corners(base, t);
    var d := CornerDists(dist, cv);
    RoutedPointsCount(base, dist, t);
    assert |s.Vertices| == CutBase(base, dist, |s0.Vertices|, t);
    assert RoutedPoints(base, dist, t + 1) == RoutedPoints(base, dist, t) + Added(base.Vertices, cv, d);
    AppendAssoc(s0.Vertices, RoutedPoints(base, dist, t), Added(base.Vertices, cv, d));
    RoutedIndicesUnfold(base, dist, above, toSide, |s0.Vertices|, t + 1);
    AppendAssoc(s0.Indices, RoutedIndices(base, dist, above, toSide, |s0.Vertices|, t), SideIndices(d, above, cv, toSide, |s.Vertices|));
  }

  /** The triangle pass folded one step at a time ends where the closed form says. */
  lemma {:induction false} RouteFoldRouted(base: ProcMeshSection, dist: seq<real>, toKept: map<nat, nat>, toOther: map<nat, nat>,
                                           createOther: bool, h0: Halves, t: nat)
    requires ValidSection(base) && |dist| == |base.Vertices| && 3 * t <= |base.Indices|
    requires BoundsVertices(h0.Kept) && (createOther ==> BoundsVertices(h0.Other))
    ensures RouteFold(base, dist, toKept, toOther, createOther, h0, t) == RoutedHalves(base, dist, toKept, toOther, createOther, h0, t)
  {
    hide StepSection;
    hide RoutedSection;
    hide CutEdge;
    hide OnPlane;
    hide EdgesOnPlane;
    if t == 0 {
      RoutedStart(base, dist, toKept, toOther, createOther, h0);
    } else {
      RouteFoldRouted(base, dist, toKept, toOther, createOther, h0, t - 1);
      RoutedSectionStep(base, dist, true, toKept, h0.Kept, t - 1);
      if createOther {
        RoutedSectionStep(base, dist, false, toOther, h0.Other, t - 1);
      }
      var cv := Corners(base, t - 1);
      AppendAssoc(h0.ClipEdges, RoutedEdges(base, dist, t - 1), CutEdge(base.Vertices, cv, CornerDists(dist, cv)));
    }
  }

  /** One triangle of the triangle pass. */
  method RouteStep(base: ProcMeshSection, dist: seq<real>, toKept: map<nat, nat>, toOther: map<nat, nat>,
                   createOther: bool, h: Halves, t: nat)
    returns (next: Halves)
    requires ValidSection(base) && |dist| == |base.Vertices| && 3 * t + 3 <= |base.Indices|
    requires forall v: nat | v < |dist| :: v in toKept <==> dist[v] > 0.0
    requires createOther ==> forall v: nat | v < |dist| :: v in toOther <==> !(dist[v] > 0.0)
    requires forall v | v in toKept :: toKept[v] < |h.Kept.Vertices|
    requires createOther ==> forall v | v in toOther :: toOther[v] < |h.Other.Vertices|
    requires BoundsVertices(h.Kept) && (createOther ==> BoundsVertices(h.Other)) && HalvesValid(h, createOther)
    ensures next == StepHalves(base, dist, toKept, toOther, createOther, h, t) && HalvesValid(next, createOther)
    ensures |h.Kept.Vertices| <= |next.Kept.Vertices| && BoundsVertices(next.Kept)
    ensures createOther ==> |h.Other.Vertices| <= |next.Other.Vertices| && BoundsVertices(next.Other)
  {
    var cv := Corners(base, t);
    var d := CornerDists(dist, cv);
    next := RouteTriangle(base.Vertices, cv, d, toKept, toOther, createOther, h);
  }

  /**
   * The triangle pass: every base triangle, three indices at a time, is
   * routed to the kept half, the other half or clipped between them.
   */
  method RouteTriangles(base: ProcMeshSection, dist: seq<real>, toKept: map<nat, nat>, toOther: map<nat, nat>,
                        createOther: bool, h0: Halves)
    returns (h: Halves)
    requires ValidSection(base) && |dist| == |base.Vertices|
    requires forall v: nat | v < |dist| :: v in toKept <==> dist[v] > 0.0
    requires createOther ==> forall v: nat | v < |dist| :: v in toOther <==> !(dist[v] > 0.0)
    requires forall v | v in toKept :: toKept[v] < |h0.Kept.Vertices|
    requires createOther ==> forall v | v in toOther :: toOther[v] < |h0.Other.Vertices|
    requires BoundsVertices(h0.Kept) && (createOther ==> BoundsVertices(h0.Other)) && HalvesValid(h0, createOther)
    ensures h == RouteFold(base, dist, toKept, toOther, createOther, h0, |base.Indices| / 3)
    ensures HalvesValid(h, createOther)
  {
    hide StepHalves;
    h := h0;
    for t := 0 to |base.Indices| / 3
      invariant h == RouteFold(base, dist, toKept, toOther, createOther, h0, t)
      invariant Grown(h0, h, createOther) && HalvesValid(h, createOther)
    {
      h := RouteStep(base, dist, toKept, toOther, createOther, h, t);
    }
  }

  /** The halves only grow, and each keeps its box grown over its vertices. */
  ghost predicate Grown(h0: Halves, h: Halves, createOther: bool)
  {
    |h0.Kept.Vertices| <= |h.Kept.Vertices| && BoundsVertices(h.Kept)
    && (createOther ==> |h0.Other.Vertices| <= |h.Other.Vertices| && BoundsVertices(h.Other))
  }

  // ------------------------------------------------------------ one straddling section

  /** The base vertices on one side of the plane (positive distance for `above`), in order. */
  function SideOf(base: ProcMeshSection, plane: Plane, above: bool): (r: seq<nat>)
    ensures forall k | 0 <= k < |r| :: r[k] < |base.Vertices|
  {
    var dist := Distances(base.Vertices, plane);
    SideVerticesMembers(dist, above, |dist|);
    SideVertices(dist, above, |dist|)
  }

  /**
   * The half of a straddling section on one side of the plane: that side's base
   * vertices in order, then the two cut vertices of every mixed triangle; the
   * triangles routed to it; and the box grown over its vertices.
   */
  function HalfOf(base: ProcMeshSection, plane: Plane, above: bool): ProcMeshSection
    requires ValidSection(base)
  {
    var dist := Distances(base.Vertices, plane);
    var side := SideOf(base, plane, above);
    var verts := Pick(base.Vertices, side) + RoutedPoints(base, dist, |base.Indices| / 3);
    ProcMeshSection(verts, RoutedIndices(base, dist, above, CompactIndexOf(side), |side|, |base.Indices| / 3), VertexBox(verts))
  }

  /** The cut edges a straddling section records, one per mixed triangle in triangle order. */
  function CutEdges(base: ProcMeshSection, plane: Plane): seq<ClipEdge>
    requires ValidSection(base)
  {
    RoutedEdges(base, Distances(base.Vertices, plane), |base.Indices| / 3)
  }

  /**
   * USlicingSkeletalMeshLibrary::SliceProceduralMesh for one section whose box
   * straddles the plane: the kept half, the other half when it is wanted, the
   * cut edges, and both provenance maps extended with the base vertex of every
   * copied vertex.
   */
  method SliceStraddlingSection(base: ProcMeshSection, plane: Plane, createOther: bool,
                                slicedProv: map<nat, nat>, otherProv: map<nat, nat>)
    returns (kept: ProcMeshSection, other: ProcMeshSection, edges: seq<ClipEdge>,
             nextSliced: map<nat, nat>, nextOther: map<nat, nat>)
    requires ValidSection(base)
    ensures kept == HalfOf(base, plane, true) && ValidSection(kept)
    ensures edges == CutEdges(base, plane)
    ensures nextSliced == slicedProv + PositionMap(SideOf(base, plane, true))
    ensures createOther ==> other == HalfOf(base, plane, false) && ValidSection(other)
    ensures createOther ==> nextOther == otherProv + PositionMap(SideOf(base, plane, false))
    ensures !createOther ==> other == EmptySection && nextOther == otherProv
  {
    var dist, keptPass, otherPass := PartitionVertices(base, plane, createOther, slicedProv, otherProv);
    PassedSideKeys(base, dist, true, keptPass, slicedProv);
    if createOther {
      PassedSideKeys(base, dist, false, otherPass, otherProv);
    }
    var h0 := Halves(keptPass.Section, otherPass.Section, []);
    var h := RouteTriangles(base, dist, keptPass.ToSide, otherPass.ToSide, createOther, h0);
    RouteFoldRouted(base, dist, keptPass.ToSide, otherPass.ToSide, createOther, h0, |base.Indices| / 3);
    PassedHalf(base, plane, dist, true, keptPass, slicedProv);
    if createOther {
      PassedHalf(base, plane, dist, false, otherPass, otherProv);
    }
    assert [] + RoutedEdges(base, dist, |base.Indices| / 3) == RoutedEdges(base, dist, |base.Indices| / 3);
    kept, other, edges := h.Kept, h.Other, h.ClipEdges;
    nextSliced, nextOther := keptPass.Prov, otherPass.Prov;
  }

  /** Routing every triangle into what the vertex pass left of a half gives that half. */
  lemma PassedHalf(base: ProcMeshSection, plane: Plane, dist: seq<real>, above: bool, p: SidePass, prov0: map<nat, nat>)
    requires ValidSection(base) && dist == Distances(base.Vertices, plane)
    requires PassedSide(base, dist, above, |dist|, p, prov0)
    ensures RoutedSection(base, dist, above, p.ToSide, p.Section, |base.Indices| / 3) == HalfOf(base, plane, above)
  {
    var n := |base.Indices| / 3;
    var side := SideOf(base, plane, above);
    assert |p.Section.Vertices| == |side|;
    assert [] + RoutedIndices(base, dist, above, p.ToSide, |side|, n) == RoutedIndices(base, dist, above, p.ToSide, |side|, n);
  }

  /** Each of the first `t` triangles that is mixed gives every half at least one triangle. */
  lemma {:induction false} TriCountCoversMixed(base: ProcMeshSection, dist: seq<real>, above: bool, t: nat)
    requires ValidSection(base) && |dist| == |base.Vertices| && 3 * t <= |base.Indices|
    ensures TriCount(base, dist, above, t) >= MixedCount(base, dist, t)
  {
    if t > 0 {
      TriCountCoversMixed(base, dist, above, t - 1);
    }
  }

  /**
   * What slicing a section conserves: its vertices split between the halves
   * plus two new cut vertices per cut edge in each, its triangles split between
   * them plus two more per cut edge; and once any triangle is cut both halves
   * hold at least one triangle and two vertices.
   */
  lemma HalvesBalance(base: ProcMeshSection, plane: Plane)
    requires ValidSection(base)
    ensures |HalfOf(base, plane, true).Vertices| + |HalfOf(base, plane, false).Vertices| == |base.Vertices| + 4 * |CutEdges(base, plane)|
    ensures |HalfOf(base, plane, true).Indices| + |HalfOf(base, plane, false).Indices| == |base.Indices| + 6 * |CutEdges(base, plane)|
    ensures |CutEdges(base, plane)| > 0 ==>
      |HalfOf(base, plane, true).Indices| >= 3 && |HalfOf(base, plane, true).Vertices| >= 2
      && |HalfOf(base, plane, false).Indices| >= 3 && |HalfOf(base, plane, false).Vertices| >= 2
  {
    var dist := Distances(base.Vertices, plane);
    var t := |base.Indices| / 3;
    RoutedPointsCount(base, dist, t);
    SideVerticesSplit(dist, |dist|);
    TriCountSplit(base, dist, t);
    TriCountCoversMixed(base, dist, true, t);
    TriCountCoversMixed(base, dist, false, t);
  }

  /**
   * The leading vertices of a half are copies of exactly the base vertices on
   * its side, in order; the provenance map names the base vertex of each, and
   * the base-to-new map the triangles are renumbered with sends it back.
   */
  lemma HalfOfCopiesSide(base: ProcMeshSection, plane: Plane, above: bool)
    requires ValidSection(base)
    ensures forall v: nat :: v in SideOf(base, plane, above) <==> v < |base.Vertices| && (PlaneDot(plane, base.Vertices[v].Position) > 0.0) == above
    ensures StrictlyIncreasing(SideOf(base, plane, above))
    ensures forall j | 0 <= j < |SideOf(base, plane, above)| ::
      j in PositionMap(SideOf(base, plane, above)) && PositionMap(SideOf(base, plane, above))[j] == SideOf(base, plane, above)[j]
      && HalfOf(base, plane, above).Vertices[j] == base.Vertices[SideOf(base, plane, above)[j]]
      && SideOf(base, plane, above)[j] in CompactIndexOf(SideOf(base, plane, above))
      && CompactIndexOf(SideOf(base, plane, above))[SideOf(base, plane, above)[j]] == j
  {
    hide RoutedIndices;
    hide RoutedPoints;
    hide VertexBox;
    var dist := Distances(base.Vertices, plane);
    SideVerticesMembers(dist, above, |dist|);
    SideVerticesIncreasing(dist, above, |dist|);
    CompactIndexOfPositions(SideOf(base, plane, above));
  }

  // ------------------------------------------------------------ the cut lies on the plane

  /** Every vertex of `vs` lies on the plane. */
  ghost predicate OnPlane(plane: Plane, vs: seq<ProcMeshVertex>)
  {
    forall k | 0 <= k < |vs| :: PlaneDot(plane, vs[k].Position) == 0.0
  }

  /** A position is on the kept side of the plane (distance at least 0) or on the other side (at most 0). */
  predicate OnSide(plane: Plane, above: bool, p: Vec3)
  {
    if above then PlaneDot(plane, p) >= 0.0 else PlaneDot(plane, p) <= 0.0
  }

  /** The distance of a blended position is the same blend of the two distances. */
  lemma PlaneDotLerp(plane: Plane, a: Vec3, b: Vec3, t: real)
    ensures PlaneDot(plane, Lerp3(a, b, t)) == Lerp(PlaneDot(plane, a), PlaneDot(plane, b), t)
  {
    var n := plane.Normal;
    calc {
      PlaneDot(plane, Lerp3(a, b, t));
      n.X * (a.X + t * (b.X - a.X)) + n.Y * (a.Y + t * (b.Y - a.Y)) + n.Z * (a.Z + t * (b.Z - a.Z)) - plane.W;
      (n.X * a.X + n.Y * a.Y + n.Z * a.Z - plane.W)
        + t * ((n.X * b.X + n.Y * b.Y + n.Z * b.Z - plane.W) - (n.X * a.X + n.Y * a.Y + n.Z * a.Z - plane.W));
    }
  }

  /** Blending two distances at -d0 / (d1 - d0) gives zero. */
  lemma LerpAtRoot(d0: real, d1: real)
    requires d0 != d1
    ensures Lerp(d0, d1, -d0 / (d1 - d0)) == 0.0
  {
    var t := -d0 / (d1 - d0);
    assert t * (d1 - d0) == -d0;
  }

  /** The vertex interpolated where an edge changes side lies on the plane. */
  lemma CutOnPlane(verts: seq<ProcMeshVertex>, cv: seq<nat>, d: seq<real>, plane: Plane, i: nat)
    requires |cv| == 3 && |d| == 3 && i < 3 && Crossing(d, i)
    requires forall j | 0 <= j < 3 :: cv[j] < |verts| && d[j] == PlaneDot(plane, verts[cv[j]].Position)
    ensures PlaneDot(plane, EdgePoint(verts, cv, d, i).Position) == 0.0
  {
    EdgeAlphaInRange(d, i);
    PlaneDotLerp(plane, verts[cv[i]].Position, verts[cv[Next(i)]].Position, EdgeAlpha(d, i));
    LerpAtRoot(d[i], d[Next(i)]);
  }

  /** Every cut vertex of the first `e` edges lies on the plane. */
  lemma {:induction false} CrossPointsOnPlane(verts: seq<ProcMeshVertex>, cv: seq<nat>, d: seq<real>, plane: Plane, e: nat)
    requires |cv| == 3 && |d| == 3 && e <= 3
    requires forall j | 0 <= j < 3 :: cv[j] < |verts| && d[j] == PlaneDot(plane, verts[cv[j]].Position)
    ensures OnPlane(plane, CrossPoints(verts, cv, d, e))
  {
    if e > 0 {
      CrossPointsOnPlane(verts, cv, d, plane, e - 1);
      if Crossing(d, e - 1) {
        CutOnPlane(verts, cv, d, plane, e - 1);
      }
    }
  }

  /** Every cut vertex the first `t` triangles append to a half lies on the plane. */
  lemma {:induction false} RoutedPointsOnPlane(base: ProcMeshSection, plane: Plane, t: nat)
    requires ValidSection(base) && 3 * t <= |base.Indices|
    ensures OnPlane(plane, RoutedPoints(base, Distances(base.Vertices, plane), t))
  {
    if t > 0 {
      var dist := Distances(base.Vertices, plane);
      RoutedPointsOnPlane(base, plane, t - 1);
      var cv := Corners(base, t - 1);
      var d := CornerDists(dist, cv);
      if Mixed(d) {
        CrossPointsOnPlane(base.Vertices, cv, d, plane, 3);
      }
    }
  }

  /**
   * Geometry on the positive side of the plane is kept: every vertex of the
   * kept half lies on or above the plane and every vertex of the other half on
   * or below it; the cut vertices after a half's base vertices lie on the plane.
   */
  lemma HalfOnItsSide(base: ProcMeshSection, plane: Plane, above: bool)
    requires ValidSection(base)
    ensures forall k | 0 <= k < |HalfOf(base, plane, above).Vertices| :: OnSide(plane, above, HalfOf(base, plane, above).Vertices[k].Position)
    ensures forall k | |SideOf(base, plane, above)| <= k < |HalfOf(base, plane, above).Vertices| ::
              PlaneDot(plane, HalfOf(base, plane, above).Vertices[k].Position) == 0.0
  {
    hide RoutedIndices;
    hide VertexBox;
    var dist := Distances(base.Vertices, plane);
    var side := SideOf(base, plane, above);
    var picked := Pick(base.Vertices, side);
    var points := RoutedPoints(base, dist, |base.Indices| / 3);
    assert HalfOf(base, plane, above).Vertices == picked + points;
    SideVerticesMembers(dist, above, |dist|);
    RoutedPointsOnPlane(base, plane, |base.Indices| / 3);
    forall k | 0 <= k < |picked| ensures OnSide(plane, above, picked[k].Position) {
      assert side[k] in side;
    }
  }

  /** Both ends of every edge of `edges` lie on the plane. */
  ghost predicate EdgesOnPlane(plane: Plane, edges: seq<ClipEdge>)
  {
    forall k | 0 <= k < |edges| :: PlaneDot(plane, edges[k].V0) == 0.0 && PlaneDot(plane, edges[k].V1) == 0.0
  }

  /** Both ends of every cut edge of the first `t` triangles lie on the plane. */
  lemma {:induction false} RoutedEdgesOnPlane(base: ProcMeshSection, plane: Plane, t: nat)
    requires ValidSection(base) && 3 * t <= |base.Indices|
    ensures EdgesOnPlane(plane, RoutedEdges(base, Distances(base.Vertices, plane), t))
  {
    if t > 0 {
      var dist := Distances(base.Vertices, plane);
      RoutedEdgesOnPlane(base, plane, t - 1);
      var cv := Corners(base, t - 1);
      var d := CornerDists(dist, cv);
      var cut := CutEdge(base.Vertices, cv, d);
      assert RoutedEdges(base, dist, t) == RoutedEdges(base, dist, t - 1) + cut;
      if Mixed(d) {
        var points := CrossPoints(base.Vertices, cv, d, 3);
        CrossPointsOnPlane(base.Vertices, cv, d, plane, 3);
        MixedCrossesTwice(d);
        assert cut == [ClipEdge(points[0].Position, points[1].Position)];
        assert PlaneDot(plane, points[0].Position) == 0.0 && PlaneDot(plane, points[1].Position) == 0.0;
      }
    }
  }

  /** Both ends of every cut edge a straddling section records lie on the plane. */
  lemma CutEdgesOnPlane(base: ProcMeshSection, plane: Plane)
    requires ValidSection(base)
    ensures EdgesOnPlane(plane, CutEdges(base, plane))
  {
    RoutedEdgesOnPlane(base, plane, |base.Indices| / 3);
  }
}
