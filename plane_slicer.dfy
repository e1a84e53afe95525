/**
 * The helpers of the procedural-mesh slicer: which side of the slicing plane a
 * bounding box lies on, interpolation of a vertex along a cut edge, ear-clipping
 * of a cap polygon, and slicing of one convex collision hull.
 */
module PlaneSlicer {
  import opened MeshCommon

  // ------------------------------------------------------------ box against plane

  /** One axis's share of FVector::BoxPushOut. */
  function AxisPushOut(n: real, e: real): real { Abs(n * e) }

  /** FVector::BoxPushOut: the box's half-size measured along the plane normal. */
  function BoxPushOut(normal: Vec3, extents: Vec3): real
  {
    AxisPushOut(normal.X, extents.X) + AxisPushOut(normal.Y, extents.Y) + AxisPushOut(normal.Z, extents.Z)
  }

  /**
   * BoxPlaneCompare: 1 when the box centre lies further than the box's
   * push-out on the positive side, -1 when further on the negative side, 0 when
   * the plane may cut the box.
   */
  function BoxPlaneCompare(box: Box, plane: Plane): (r: int)
    ensures r == 1 || r == 0 || r == -1
  {
    var centreDist := PlaneDot(plane, BoxCenter(box));
    var size := BoxPushOut(plane.Normal, BoxExtent(box));
    if centreDist > size then 1 else if centreDist < -size then -1 else 0
  }

  /** One axis of the push-out bound: an offset within the half-extent moves the dot product by at most |n * e|. */
  lemma AxisBound(n: real, d: real, e: real)
    requires -e <= d <= e
    ensures -AxisPushOut(n, e) <= n * d <= AxisPushOut(n, e)
  {
    if n >= 0.0 {
      MulNonNegative(n, e - d);
      MulNonNegative(n, d + e);
    } else {
      MulNonNegative(-n, e - d);
      MulNonNegative(-n, d + e);
    }
  }

  /**
   * The classification is sound: every point of a box classified 1 lies
   * strictly on the positive side of the plane, and every point of a box
   * classified -1 strictly on the negative side.
   */
  lemma BoxPlaneCompareSound(box: Box, plane: Plane, p: Vec3)
    requires InBox(box, p)
    ensures BoxPlaneCompare(box, plane) == 1 ==> PlaneDot(plane, p) > 0.0
    ensures BoxPlaneCompare(box, plane) == -1 ==> PlaneDot(plane, p) < 0.0
  {
    var e, n := BoxExtent(box), plane.Normal;
    var s1, s2, s3 := PlaneDotNearCentre(box, plane, p);
    WithinPushOut(BoxPlaneCompare(box, plane), PlaneDot(plane, p), PlaneDot(plane, BoxCenter(box)), s1, s2, s3,
                  AxisPushOut(n.X, e.X), AxisPushOut(n.Y, e.Y), AxisPushOut(n.Z, e.Z));
  }

  /**
   * The plane distance of a point of a box is the centre's plus one share per
   * axis, each share within that axis's push-out.
   */
  lemma PlaneDotNearCentre(box: Box, plane: Plane, p: Vec3) returns (s1: real, s2: real, s3: real)
    requires InBox(box, p)
    ensures PlaneDot(plane, p) == PlaneDot(plane, BoxCenter(box)) + s1 + s2 + s3
    ensures -AxisPushOut(plane.Normal.X, BoxExtent(box).X) <= s1 <= AxisPushOut(plane.Normal.X, BoxExtent(box).X)
    ensures -AxisPushOut(plane.Normal.Y, BoxExtent(box).Y) <= s2 <= AxisPushOut(plane.Normal.Y, BoxExtent(box).Y)
    ensures -AxisPushOut(plane.Normal.Z, BoxExtent(box).Z) <= s3 <= AxisPushOut(plane.Normal.Z, BoxExtent(box).Z)
  {
    var c, e, n := BoxCenter(box), BoxExtent(box), plane.Normal;
    var dx, dy, dz := p.X - c.X, p.Y - c.Y, p.Z - c.Z;
    AxisBound(n.X, dx, e.X);
    AxisBound(n.Y, dy, e.Y);
    AxisBound(n.Z, dz, e.Z);
    DotShift(n, c, dx, dy, dz);
    assert p == Vec3(c.X + dx, c.Y + dy, c.Z + dz);
    s1, s2, s3 := n.X * dx, n.Y * dy, n.Z * dz;
  }

  /** Moving a point by (dx, dy, dz) moves its dot product with `n` by the per-axis products. */
  lemma DotShift(n: Vec3, c: Vec3, dx: real, dy: real, dz: real)
    ensures Dot(n, Vec3(c.X + dx, c.Y + dy, c.Z + dz)) == Dot(n, c) + n.X * dx + n.Y * dy + n.Z * dz
  {
    assert n.X * (c.X + dx) == n.X * c.X + n.X * dx;
    assert n.Y * (c.Y + dy) == n.Y * c.Y + n.Y * dy;
    assert n.Z * (c.Z + dz) == n.Z * c.Z + n.Z * dz;
  }

  lemma MulNonNegative(x: real, y: real)
    requires x >= 0.0 && y >= 0.0
    ensures x * y >= 0.0
  {
  }

  /** The linear step: a point's distance differs from the centre's by at most the push-out. */
  lemma WithinPushOut(r: int, pd: real, cd: real, s1: real, s2: real, s3: real, a1: real, a2: real, a3: real)
    requires -a1 <= s1 <= a1 && -a2 <= s2 <= a2 && -a3 <= s3 <= a3
    requires pd == cd + s1 + s2 + s3
    requires r == if cd > a1 + a2 + a3 then 1 else if cd < -(a1 + a2 + a3) then -1 else 0
    ensures r == 1 ==> pd > 0.0
    ensures r == -1 ==> pd < 0.0
  {
  }

  // ------------------------------------------------------------ interpolating a vertex

  /** FMath::TruncToInt: rounds toward zero. */
  function TruncToInt(x: real): int
  {
    if x >= 0.0 then x.Floor else -((-x).Floor)
  }

  /** One colour channel of an interpolated vertex: the truncated interpolation, clamped to [0, 255]. */
  function InterpolateChannel(c0: byte, c1: byte, alpha: real): (r: byte)
  {
    var t := TruncToInt(Lerp(c0 as real, c1 as real, alpha));
    if t < 0 then 0 else if t > 255 then 255 else t
  }

  /**
   * InterpolateVert: V1 unchanged when the alpha is NaN or infinite (modelled by
   * `alphaFinite`); otherwise position, normal, TangentX and UV are interpolated,
   * each colour channel is truncated and clamped, and the tangent-Y flip is V0's.
   */
  function InterpolateVert(v0: ProcMeshVertex, v1: ProcMeshVertex, alpha: real, alphaFinite: bool): (r: ProcMeshVertex)
    ensures !alphaFinite ==> r == v1
    ensures alphaFinite ==> r.FlipTangentY == v0.FlipTangentY && r.Position == Lerp3(v0.Position, v1.Position, alpha)
  {
    if !alphaFinite then v1
    else
      ProcMeshVertex(
        Lerp3(v0.Position, v1.Position, alpha),
        Lerp3(v0.Normal, v1.Normal, alpha),
        Lerp3(v0.TangentX, v1.TangentX, alpha),
        v0.FlipTangentY,
        Lerp2(v0.UV0, v1.UV0, alpha),
        Color(InterpolateChannel(v0.Color.R, v1.Color.R, alpha), InterpolateChannel(v0.Color.G, v1.Color.G, alpha),
              InterpolateChannel(v0.Color.B, v1.Color.B, alpha), InterpolateChannel(v0.Color.A, v1.Color.A, alpha)))
  }

  /** An interpolation with alpha in [0, 1] stays between its two ends. */
  lemma LerpBetween(a: real, b: real, t: real)
    requires 0.0 <= t <= 1.0
    ensures Min(a, b) <= Lerp(a, b, t) <= Max(a, b)
  {
    if a <= b {
      MulNonNegative(t, b - a);
      MulNonNegative(1.0 - t, b - a);
    } else {
      MulNonNegative(t, a - b);
      MulNonNegative(1.0 - t, a - b);
    }
  }

  /**
   * With alpha in [0, 1] an interpolated channel never leaves the range of its
   * two ends: clamping only matters for alphas outside [0, 1].
   */
  lemma InterpolateChannelBetween(c0: byte, c1: byte, alpha: real)
    requires 0.0 <= alpha <= 1.0
    ensures (if c0 <= c1 then c0 else c1) <= InterpolateChannel(c0, c1, alpha) <= (if c0 <= c1 then c1 else c0)
  {
    var x := Lerp(c0 as real, c1 as real, alpha);
    LerpBetween(c0 as real, c1 as real, alpha);
    assert x >= 0.0;
    assert TruncToInt(x) == x.Floor;
  }

  /** At alpha 0 the position and colour are V0's; at alpha 1 they are V1's. */
  lemma InterpolateVertEnds(v0: ProcMeshVertex, v1: ProcMeshVertex)
    ensures InterpolateVert(v0, v1, 0.0, true).Position == v0.Position
    ensures InterpolateVert(v0, v1, 0.0, true).Color == v0.Color
    ensures InterpolateVert(v0, v1, 1.0, true).Position == v1.Position
    ensures InterpolateVert(v0, v1, 1.0, true).Color == v1.Color
  {
    forall c0: byte, c1: byte ensures InterpolateChannel(c0, c1, 0.0) == c0 && InterpolateChannel(c0, c1, 1.0) == c1 {
      assert Lerp(c0 as real, c1 as real, 0.0) == c0 as real;
      assert Lerp(c0 as real, c1 as real, 1.0) == c1 as real;
      assert (c0 as real).Floor == c0 && (c1 as real).Floor == c1;
    }
  }

  // ------------------------------------------------------------ triangulating a cap polygon

  /** The ear test's determinant: (AB x AC) . normal; a positive value marks a reflex corner. */
  function TriangleDeterminant(a: Vec3, b: Vec3, c: Vec3, normal: Vec3): real
  {
    Dot(Cross(Sub3(b, a), Sub3(c, a)), normal)
  }

  /** The corner before position `e` of the remaining polygon (wrapping to the last). */
  function Before(n: nat, e: nat): nat
    requires e < n
  {
    if e == 0 then n - 1 else e - 1
  }

  /** The corner after position `e` of the remaining polygon (wrapping to the first). */
  function After(n: nat, e: nat): nat
    requires e < n
  {
    (e + 1) % n
  }

  /** Remaining-polygon position `k` is not one of the candidate triangle's corners and lies inside it. */
  predicate InsideEar(verts: seq<ProcMeshVertex>, idx: seq<nat>, e: nat, k: nat,
                      pointInTriangle: (Vec3, Vec3, Vec3, Vec3) -> bool)
    requires e < |idx| && k < |idx| && forall j | 0 <= j < |idx| :: idx[j] < |verts|
  {
    var a, c := Before(|idx|, e), After(|idx|, e);
    k != a && k != e && k != c
    && pointInTriangle(verts[idx[a]].Position, verts[idx[e]].Position, verts[idx[c]].Position, verts[idx[k]].Position)
  }

  /** Position `e` of the remaining polygon is an ear: a convex corner whose triangle holds no other remaining vertex. */
  predicate IsEar(verts: seq<ProcMeshVertex>, idx: seq<nat>, e: nat, normal: Vec3,
                  pointInTriangle: (Vec3, Vec3, Vec3, Vec3) -> bool)
    requires e < |idx| && forall j | 0 <= j < |idx| :: idx[j] < |verts|
  {
    var a, c := Before(|idx|, e), After(|idx|, e);
    TriangleDeterminant(verts[idx[a]].Position, verts[idx[e]].Position, verts[idx[c]].Position, normal) <= 0.0
    && !exists k | 0 <= k < |idx| :: InsideEar(verts, idx, e, k, pointInTriangle)
  }

  /**
   * The polygon from `vertBase` on is in convex position: every three of its
   * vertices, taken in polygon order, turn the same way about `normal`, so no
   * corner of it or of any polygon left after dropping vertices is reflex.
   */
  predicate ConvexPosition(verts: seq<ProcMeshVertex>, vertBase: nat, normal: Vec3)
  {
    forall i, j, k | vertBase <= i < j < k < |verts| ::
      TriangleDeterminant(verts[i].Position, verts[j].Position, verts[k].Position, normal) <= 0.0
  }

  /** The point-in-triangle test never puts one vertex of the polygon inside a triangle of three others. */
  predicate NoVertexInside(verts: seq<ProcMeshVertex>, vertBase: nat,
                           pointInTriangle: (Vec3, Vec3, Vec3, Vec3) -> bool)
  {
    forall i, j, k, l | vertBase <= i < |verts| && vertBase <= j < |verts| && vertBase <= k < |verts|
                        && vertBase <= l < |verts| && l != i && l != j && l != k ::
      !pointInTriangle(verts[i].Position, verts[j].Position, verts[k].Position, verts[l].Position)
  }

  /** The determinant is unchanged by rotating the triangle's corners. */
  lemma DeterminantRotates(a: Vec3, b: Vec3, c: Vec3, normal: Vec3)
    ensures TriangleDeterminant(a, b, c, normal) == TriangleDeterminant(b, c, a, normal)
  {
    var u, w := Cross(Sub3(b, a), Sub3(c, a)), Cross(Sub3(c, b), Sub3(a, b));
    assert u.X == a.Y * b.Z - a.Z * b.Y + b.Y * c.Z - b.Z * c.Y + c.Y * a.Z - c.Z * a.Y == w.X;
    assert u.Y == a.Z * b.X - a.X * b.Z + b.Z * c.X - b.X * c.Z + c.Z * a.X - c.X * a.Z == w.Y;
    assert u.Z == a.X * b.Y - a.Y * b.X + b.X * c.Y - b.Y * c.X + c.X * a.Y - c.Y * a.X == w.Z;
  }

  /** The scan over the remaining vertices for one inside the candidate triangle. */
  method FindVertInside(verts: seq<ProcMeshVertex>, idx: seq<nat>, e: nat,
                        pointInTriangle: (Vec3, Vec3, Vec3, Vec3) -> bool)
    returns (found: bool)
    requires e < |idx| && forall j | 0 <= j < |idx| :: idx[j] < |verts|
    ensures found <==> exists k | 0 <= k < |idx| :: InsideEar(verts, idx, e, k, pointInTriangle)
  {
    var a, c := Before(|idx|, e), After(|idx|, e);
    for k := 0 to |idx|
      invariant forall p | 0 <= p < k :: !InsideEar(verts, idx, e, p, pointInTriangle)
    {
      if k != a && k != e && k != c
         && pointInTriangle(verts[idx[a]].Position, verts[idx[e]].Position, verts[idx[c]].Position, verts[idx[k]].Position)
      {
        assert InsideEar(verts, idx, e, k, pointInTriangle);
        return true;
      }
    }
    return false;
  }

  /** The scan for the first ear of the remaining polygon, skipping reflex corners. */
  method FindEar(verts: seq<ProcMeshVertex>, idx: seq<nat>, normal: Vec3,
                 pointInTriangle: (Vec3, Vec3, Vec3, Vec3) -> bool)
    returns (ear: Option<nat>)
    requires |idx| >= 3 && forall j | 0 <= j < |idx| :: idx[j] < |verts|
    ensures ear.Some? ==> ear.value < |idx| && IsEar(verts, idx, ear.value, normal, pointInTriangle)
    ensures ear.Some? ==> forall e | 0 <= e < ear.value :: !IsEar(verts, idx, e, normal, pointInTriangle)
    ensures ear.None? ==> forall e | 0 <= e < |idx| :: !IsEar(verts, idx, e, normal, pointInTriangle)
  {
    for e := 0 to |idx|
      invariant forall p | 0 <= p < e :: !IsEar(verts, idx, p, normal, pointInTriangle)
    {
      var a, c := Before(|idx|, e), After(|idx|, e);
      if TriangleDeterminant(verts[idx[a]].Position, verts[idx[e]].Position, verts[idx[c]].Position, normal) > 0.0 {
        continue;
      }
      var inside := FindVertInside(verts, idx, e, pointInTriangle);
      if !inside {
        return Some(e);
      }
    }
    return None;
  }

  /**
   * On a polygon in convex position with no vertex inside a triangle of others,
   * the first remaining corner is an ear, as long as the remaining positions
   * still follow polygon order.
   */
  lemma ConvexCornerIsEar(verts: seq<ProcMeshVertex>, vertBase: nat, idx: seq<nat>, normal: Vec3,
                          pointInTriangle: (Vec3, Vec3, Vec3, Vec3) -> bool)
    requires |idx| >= 3 && forall j | 0 <= j < |idx| :: vertBase <= idx[j] < |verts|
    requires forall p, q | 0 <= p < q < |idx| :: idx[p] < idx[q]
    requires ConvexPosition(verts, vertBase, normal) && NoVertexInside(verts, vertBase, pointInTriangle)
    ensures IsEar(verts, idx, 0, normal, pointInTriangle)
  {
    var a, c := Before(|idx|, 0), After(|idx|, 0);
    assert idx[0] < idx[c] < idx[a];
    DeterminantRotates(verts[idx[a]].Position, verts[idx[0]].Position, verts[idx[c]].Position, normal);
    DeterminantRotates(verts[idx[0]].Position, verts[idx[c]].Position, verts[idx[a]].Position, normal);
    forall k | 0 <= k < |idx|
      ensures !InsideEar(verts, idx, 0, k, pointInTriangle)
    {
      if k != a && k != 0 && k != c {
        assert idx[k] != idx[a] && idx[k] != idx[0] && idx[k] != idx[c];
      }
    }
  }

  /** About +Z the determinant is the planar cross product of the two edges. */
  lemma DeterminantAboutZ(a: Vec3, b: Vec3, c: Vec3)
    ensures TriangleDeterminant(a, b, c, Vec3(0.0, 0.0, 1.0))
            == (b.X - a.X) * (c.Y - a.Y) - (b.Y - a.Y) * (c.X - a.X)
  {
  }

  /** A unit square listed clockwise about +Z is in convex position, and its corners turn strictly. */
  lemma UnitSquareInConvexPosition(sq: seq<ProcMeshVertex>)
    requires |sq| == 4 && sq[0].Position == Vec3(0.0, 0.0, 0.0) && sq[1].Position == Vec3(0.0, 1.0, 0.0)
    requires sq[2].Position == Vec3(1.0, 1.0, 0.0) && sq[3].Position == Vec3(1.0, 0.0, 0.0)
    ensures ConvexPosition(sq, 0, Vec3(0.0, 0.0, 1.0))
    ensures forall i, j, k | 0 <= i < j < k < 4 ::
      TriangleDeterminant(sq[i].Position, sq[j].Position, sq[k].Position, Vec3(0.0, 0.0, 1.0)) < 0.0
  {
    hide TriangleDeterminant;
    forall i, j, k | 0 <= i < j < k < 4
      ensures TriangleDeterminant(sq[i].Position, sq[j].Position, sq[k].Position, Vec3(0.0, 0.0, 1.0)) < 0.0
    {
      DeterminantAboutZ(sq[i].Position, sq[j].Position, sq[k].Position);
    }
  }

  /** Dropping one position of a strictly increasing index list leaves it strictly increasing. */
  lemma DropKeepsOrder(idx: seq<nat>, e: nat)
    requires e < |idx| && forall p, q | 0 <= p < q < |idx| :: idx[p] < idx[q]
    ensures var rest := idx[..e] + idx[e + 1..];
      |rest| == |idx| - 1 && (forall j | 0 <= j < |rest| :: rest[j] in idx)
      && forall p, q | 0 <= p < q < |rest| :: rest[p] < rest[q]
  {
    var rest := idx[..e] + idx[e + 1..];
    forall p, q | 0 <= p < q < |rest|
      ensures rest[p] < rest[q]
    {
      var p', q' := if p < e then p else p + 1, if q < e then q else q + 1;
      assert rest[p] == idx[p'] && rest[q] == idx[q'];
    }
  }

  /**
   * TriangulatePoly: ear-clipping of the polygon made of the vertices from
   * `vertBase` on. Fewer than three vertices append the fixed triangle
   * (0, 2, 1) and succeed. Otherwise each round clips one ear (appending its
   * corners as before, after, ear) and drops its vertex, so success appends
   * exactly 3(n - 2) indices, all inside the polygon; a round without an ear
   * truncates the output back to its length on entry and fails. A polygon in
   * convex position with no vertex inside a triangle of others always succeeds.
   */
  method TriangulatePoly(outTris: seq<nat>, verts: seq<ProcMeshVertex>, vertBase: nat, normal: Vec3,
                         pointInTriangle: (Vec3, Vec3, Vec3, Vec3) -> bool)
    returns (ok: bool, tris: seq<nat>)
    ensures |verts| < vertBase + 3 ==> ok && tris == outTris + [0, 2, 1]
    ensures |verts| >= vertBase + 3 && ok ==>
      |tris| == |outTris| + 3 * (|verts| - vertBase - 2) && tris[..|outTris|] == outTris
      && forall k | |outTris| <= k < |tris| :: vertBase <= tris[k] < |verts|
    ensures |verts| >= vertBase + 3 && !ok ==> tris == outTris
    ensures ConvexPosition(verts, vertBase, normal) && NoVertexInside(verts, vertBase, pointInTriangle) ==> ok
  {
    hide IsEar;
    hide InsideEar;
    hide ConvexPosition;
    hide NoVertexInside;
    if |verts| < vertBase + 3 {
      return true, outTris + [0, 2, 1];
    }
    var n := |verts| - vertBase;
    var idx := seq(n, j requires 0 <= j < n => vertBase + j);
    tris := outTris;
    ghost var convex := ConvexPosition(verts, vertBase, normal) && NoVertexInside(verts, vertBase, pointInTriangle);
    while |idx| >= 3
      invariant 2 <= |idx| <= n
      invariant forall j | 0 <= j < |idx| :: vertBase <= idx[j] < |verts|
      invariant forall p, q | 0 <= p < q < |idx| :: idx[p] < idx[q]
      invariant |tris| == |outTris| + 3 * (n - |idx|) && tris[..|outTris|] == outTris
      invariant forall k | |outTris| <= k < |tris| :: vertBase <= tris[k] < |verts|
      decreases |idx|
    {
      if convex {
        ConvexCornerIsEar(verts, vertBase, idx, normal, pointInTriangle);
      }
      var ear := FindEar(verts, idx, normal, pointInTriangle);
      if ear.None? {
        return false, outTris;
      }
      var e := ear.value;
      var a, c := Before(|idx|, e), After(|idx|, e);
      tris := tris + [idx[a], idx[c], idx[e]];
      DropKeepsOrder(idx, e);
      idx := idx[..e] + idx[e + 1..];
    }
    ok := true;
  }

  // ------------------------------------------------------------ slicing a collision hull

  /** FKConvexElem: the hull's bounding box and vertices. */
  datatype ConvexElem = ConvexElem(ElemBox: Box, VertexData: seq<Vec3>)

  /**
   * SliceConvexElem: a hull with at least four face planes gets the flipped
   * slicing plane added and is rebuilt from the planes; the rebuilt vertices
   * when that succeeds, nothing otherwise. The face planes and the rebuild are
   * the engine's (FKConvexElem::GetPlanes, HullFromPlanes) and are parameters.
   */
  function SliceConvexElem(elem: ConvexElem, slicePlane: Plane, getPlanes: ConvexElem -> seq<Plane>,
                           hullFromPlanes: (seq<Plane>, seq<Vec3>) -> Option<seq<Vec3>>): (r: seq<Vec3>)
    ensures |getPlanes(elem)| < 4 ==> r == []
    ensures r != [] ==> hullFromPlanes(getPlanes(elem) + [FlipPlane(slicePlane)], elem.VertexData) == Some(r)
  {
    var planes := getPlanes(elem);
    if |planes| >= 4 then
      match hullFromPlanes(planes + [FlipPlane(slicePlane)], elem.VertexData)
      case Some(verts) => verts
      case None => []
    else []
  }
}
