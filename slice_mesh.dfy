/**
 * Slicing a whole procedural-mesh component by a plane: every section is kept,
 * cleared, handed whole to the other half or cut in two; the outline the plane
 * cuts is capped; the convex collision hulls are split the same way; and when
 * asked for, a second component receives everything on the far side.
 */
module SliceMesh {
  import opened MeshCommon
  import opened PlaneSlicer
  import opened SectionSlicer

  /** EProcMeshSliceCapOption. */
  datatype CapOption = NoCap | CreateNewSectionForCap | UseLastSectionForCap

  // ------------------------------------------------------------ the component

  /** UProceduralMeshComponent::SetProcMeshSection: replace section `i`, first growing the list with empty sections. */
  function SetSectionAt(sections: seq<ProcMeshSection>, i: nat, s: ProcMeshSection): (r: seq<ProcMeshSection>)
    ensures |r| == if i < |sections| then |sections| else i + 1
    ensures r[i] == s
    ensures forall j | 0 <= j < |sections| && j != i :: r[j] == sections[j]
  {
    if i < |sections| then sections[i := s] else sections + seq(i - |sections|, _ => EmptySection) + [s]
  }

  /** FBox(TArray<FVector>): the box grown over the points in order, from the empty box. */
  function PointsBox(ps: seq<Vec3>): Box
  {
    if |ps| == 0 then EmptyBox else BoxAdd(PointsBox(ps[..|ps| - 1]), ps[|ps| - 1])
  }

  /** The hulls SetCollisionConvexMeshes installs: each list of points with the box around it. */
  function HullElems(hulls: seq<seq<Vec3>>): (r: seq<ConvexElem>)
    ensures |r| == |hulls| && forall k | 0 <= k < |hulls| :: r[k].VertexData == hulls[k]
  {
    seq(|hulls|, k requires 0 <= k < |hulls| => ConvexElem(PointsBox(hulls[k]), hulls[k]))
  }

  /** An installed hull's box holds every one of its points. */
  lemma {:induction false} PointsBoxHolds(ps: seq<Vec3>)
    ensures forall j | 0 <= j < |ps| :: InBox(PointsBox(ps), ps[j])
  {
    if |ps| > 0 {
      var init := ps[..|ps| - 1];
      PointsBoxHolds(init);
      BoxAddGrows(PointsBox(init), ps[|ps| - 1]);
      forall j | 0 <= j < |ps|
        ensures InBox(PointsBox(ps), ps[j])
      {
        if j < |ps| - 1 {
          assert ps[j] == init[j];
        }
      }
    }
  }

  /** The parts of a UProceduralMeshComponent the slice reads and writes. */
  class ProcMeshComponent {
    var Sections: seq<ProcMeshSection>
    var Materials: seq<Material>
    var ConvexElems: seq<ConvexElem>

    /** NewObject<UProceduralMeshComponent>: no sections, materials or collision. */
    constructor ()
      ensures Sections == [] && Materials == [] && ConvexElems == []
    {
      Sections, Materials, ConvexElems := [], [], [];
    }

    /** SetProcMeshSection. */
    method SetProcMeshSection(i: nat, s: ProcMeshSection)
      modifies this
      ensures Sections == SetSectionAt(old(Sections), i, s)
      ensures Materials == old(Materials) && ConvexElems == old(ConvexElems)
    {
      Sections := SetSectionAt(Sections, i, s);
    }

    /** ClearMeshSection: an existing section is reset to empty; an index past the end is ignored. */
    method ClearMeshSection(i: nat)
      modifies this
      ensures Sections == if i < |old(Sections)| then old(Sections)[i := EmptySection] else old(Sections)
      ensures Materials == old(Materials) && ConvexElems == old(ConvexElems)
    {
      if i < |Sections| {
        Sections := Sections[i := EmptySection];
      }
    }

    /** SetMaterial. */
    method SetMaterial(i: nat, m: Material)
      modifies this
      ensures Materials == SetMaterialAt(old(Materials), i, m)
      ensures Sections == old(Sections) && ConvexElems == old(ConvexElems)
    {
      Materials := SetMaterialAt(Materials, i, m);
    }

    /** SetCollisionConvexMeshes: the simple collision becomes one hull per list of points. */
    method SetCollisionConvexMeshes(hulls: seq<seq<Vec3>>)
      modifies this
      ensures ConvexElems == HullElems(hulls)
      ensures Sections == old(Sections) && Materials == old(Materials)
    {
      ConvexElems := HullElems(hulls);
    }
  }

  // ------------------------------------------------------------ what one section becomes

  /** A section with geometry: some indices and some vertices. */
  predicate HasGeometry(s: ProcMeshSection)
  {
    |s.Indices| > 0 && |s.Vertices| > 0
  }

  /**
   * The section the component holds after the section loop: untouched without
   * geometry or wholly on the kept side, cleared wholly on the other side, and
   * its kept half (cleared if that has no geometry) when it straddles.
   */
  function SectionAfter(base: ProcMeshSection, plane: Plane): ProcMeshSection
    requires ValidSection(base)
  {
    if !HasGeometry(base) then base
    else
      var compare := BoxPlaneCompare(base.LocalBox, plane);
      if compare == -1 then EmptySection
      else if compare == 1 then base
      else if HasGeometry(HalfOf(base, plane, true)) then HalfOf(base, plane, true)
      else EmptySection
  }

  /**
   * What a section gives the other half: all of it when wholly on the other
   * side, its other half when it straddles and that half has geometry, else nothing.
   */
  function OtherFrom(base: ProcMeshSection, plane: Plane): (r: seq<ProcMeshSection>)
    requires ValidSection(base)
    ensures |r| <= 1
  {
    if !HasGeometry(base) then []
    else
      var compare := BoxPlaneCompare(base.LocalBox, plane);
      if compare == -1 then [base]
      else if compare == 1 then []
      else if HasGeometry(HalfOf(base, plane, false)) then [HalfOf(base, plane, false)]
      else []
  }

  /** The cut edges a section records: those of its triangles when it straddles, none otherwise. */
  function EdgesFrom(base: ProcMeshSection, plane: Plane): seq<ClipEdge>
    requires ValidSection(base)
  {
    if HasGeometry(base) && BoxPlaneCompare(base.LocalBox, plane) == 0 then CutEdges(base, plane) else []
  }

  /** Every new index of the first `n` vertices names the same base index. */
  function Identity(n: nat): (m: map<nat, nat>)
    ensures forall j: nat :: j in m <==> j < n
  {
    PositionMap(seq(n, j => j))
  }

  /**
   * The provenance entries a section adds for the kept side: every vertex of a
   * section kept whole, the kept vertices of a straddling one (the source's
   * running offset stays 0, so each section's entries start at new index 0).
   */
  function SlicedEntries(base: ProcMeshSection, plane: Plane): map<nat, nat>
    requires ValidSection(base)
  {
    if !HasGeometry(base) then map[]
    else
      var compare := BoxPlaneCompare(base.LocalBox, plane);
      if compare == 1 then Identity(|base.Vertices|)
      else if compare == 0 then PositionMap(SideOf(base, plane, true))
      else map[]
  }

  /** The provenance entries a section adds for the other side, when the other half is wanted. */
  function OtherEntries(base: ProcMeshSection, plane: Plane): map<nat, nat>
    requires ValidSection(base)
  {
    if !HasGeometry(base) then map[]
    else
      var compare := BoxPlaneCompare(base.LocalBox, plane);
      if compare == -1 then Identity(|base.Vertices|)
      else if compare == 0 then PositionMap(SideOf(base, plane, false))
      else map[]
  }

  // ------------------------------------------------------------ the section loop, as folds

  /** All sections are renderable. */
  ghost predicate AllValid(sections: seq<ProcMeshSection>)
  {
    forall i | 0 <= i < |sections| :: ValidSection(sections[i])
  }

  /** The other-half sections the first `n` sections give, in order. */
  function OtherSectionsAfter(sections: seq<ProcMeshSection>, plane: Plane, n: nat): seq<ProcMeshSection>
    requires AllValid(sections) && n <= |sections|
  {
    if n == 0 then [] else OtherSectionsAfter(sections, plane, n - 1) + OtherFrom(sections[n - 1], plane)
  }

  /** The section each of those other-half sections came from. */
  function OtherSourcesAfter(sections: seq<ProcMeshSection>, plane: Plane, n: nat): seq<nat>
    requires AllValid(sections) && n <= |sections|
  {
    if n == 0 then []
    else OtherSourcesAfter(sections, plane, n - 1) + (if |OtherFrom(sections[n - 1], plane)| == 1 then [n - 1] else [])
  }

  /** The materials recorded for the other half: each section that gives it a section records its own material. */
  function OtherMaterialsAfter(sections: seq<ProcMeshSection>, mats: seq<Material>, plane: Plane, n: nat): seq<Material>
    requires AllValid(sections) && n <= |sections|
  {
    if n == 0 then []
    else
      OtherMaterialsAfter(sections, mats, plane, n - 1)
      + (if |OtherFrom(sections[n - 1], plane)| == 1 then [MaterialAt(mats, n - 1)] else [])
  }

  /**
   * The materials recorded as the source writes it: a straddling section
   * records its material before its other half is known, and dropping an empty
   * other half does not take the material back.
   */
  function OtherMaterialsAsWritten(sections: seq<ProcMeshSection>, mats: seq<Material>, plane: Plane, n: nat): seq<Material>
    requires AllValid(sections) && n <= |sections|
  {
    if n == 0 then []
    else
      var base := sections[n - 1];
      OtherMaterialsAsWritten(sections, mats, plane, n - 1)
      + (if HasGeometry(base) && BoxPlaneCompare(base.LocalBox, plane) != 1 then [MaterialAt(mats, n - 1)] else [])
  }

  /** The cut edges of the first `n` sections, in order. */
  function ClipEdgesAfter(sections: seq<ProcMeshSection>, plane: Plane, n: nat): seq<ClipEdge>
    requires AllValid(sections) && n <= |sections|
  {
    if n == 0 then [] else ClipEdgesAfter(sections, plane, n - 1) + EdgesFrom(sections[n - 1], plane)
  }

  /** The kept-side provenance map after the first `n` sections: later entries overwrite earlier ones. */
  function SlicedProvAfter(prov: map<nat, nat>, sections: seq<ProcMeshSection>, plane: Plane, n: nat): map<nat, nat>
    requires AllValid(sections) && n <= |sections|
  {
    if n == 0 then prov else SlicedProvAfter(prov, sections, plane, n - 1) + SlicedEntries(sections[n - 1], plane)
  }

  /** The other-side provenance map after the first `n` sections. */
  function OtherProvAfter(prov: map<nat, nat>, sections: seq<ProcMeshSection>, plane: Plane, n: nat): map<nat, nat>
    requires AllValid(sections) && n <= |sections|
  {
    if n == 0 then prov else OtherProvAfter(prov, sections, plane, n - 1) + OtherEntries(sections[n - 1], plane)
  }

  // ------------------------------------------------------------ properties of the section loop

  /**
   * Each other-half section is matched with the material of the section it
   * came from, and is either that whole section or that section's other half.
   */
  lemma {:induction false} OtherMaterialsAligned(sections: seq<ProcMeshSection>, mats: seq<Material>, plane: Plane, n: nat)
    requires AllValid(sections) && n <= |sections|
    ensures var others := OtherSectionsAfter(sections, plane, n);
      var sources := OtherSourcesAfter(sections, plane, n);
      var materials := OtherMaterialsAfter(sections, mats, plane, n);
      |others| == |sources| == |materials|
      && forall j | 0 <= j < |others| ::
        sources[j] < n && materials[j] == MaterialAt(mats, sources[j])
        && (others[j] == sections[sources[j]] || others[j] == HalfOf(sections[sources[j]], plane, false))
  {
    if n > 0 {
      OtherMaterialsAligned(sections, mats, plane, n - 1);
    }
  }

  /**
   * A cut edge means some section straddled the plane and had a triangle cut,
   * so that section exists and its other half has geometry and is kept.
   */
  lemma {:induction false} CutLeavesOtherSection(sections: seq<ProcMeshSection>, plane: Plane, n: nat)
    requires AllValid(sections) && n <= |sections|
    ensures |ClipEdgesAfter(sections, plane, n)| > 0 ==> n > 0 && |OtherSectionsAfter(sections, plane, n)| > 0
  {
    hide OtherFrom;
    hide EdgesFrom;
    if n > 0 {
      CutLeavesOtherSection(sections, plane, n - 1);
      EdgesLeaveOther(sections[n - 1], plane);
    }
  }

  /** A section that records a cut edge gives the other half a section. */
  lemma EdgesLeaveOther(base: ProcMeshSection, plane: Plane)
    requires ValidSection(base)
    ensures |EdgesFrom(base, plane)| > 0 ==> |OtherFrom(base, plane)| == 1
  {
    if HasGeometry(base) && BoxPlaneCompare(base.LocalBox, plane) == 0 {
      HalvesBalance(base, plane);
    }
  }

  /**
   * A section without geometry, or one whose box lies wholly on the kept side,
   * is left exactly as it was and gives the other half nothing; one whose box
   * lies wholly on the other side moves there whole. When the box holds the
   * vertices, the box test puts every vertex on the side it decided.
   */
  lemma UntouchedSections(base: ProcMeshSection, plane: Plane)
    requires ValidSection(base)
    requires forall v | 0 <= v < |base.Vertices| :: InBox(base.LocalBox, base.Vertices[v].Position)
    ensures !HasGeometry(base) ==> SectionAfter(base, plane) == base && OtherFrom(base, plane) == [] && EdgesFrom(base, plane) == []
    ensures HasGeometry(base) && BoxPlaneCompare(base.LocalBox, plane) == 1 ==>
      SectionAfter(base, plane) == base && OtherFrom(base, plane) == [] && EdgesFrom(base, plane) == []
      && forall v | 0 <= v < |base.Vertices| :: PlaneDot(plane, base.Vertices[v].Position) > 0.0
    ensures HasGeometry(base) && BoxPlaneCompare(base.LocalBox, plane) == -1 ==>
      SectionAfter(base, plane) == EmptySection && OtherFrom(base, plane) == [base] && EdgesFrom(base, plane) == []
      && forall v | 0 <= v < |base.Vertices| :: PlaneDot(plane, base.Vertices[v].Position) < 0.0
  {
    forall v | 0 <= v < |base.Vertices|
      ensures BoxPlaneCompare(base.LocalBox, plane) == 1 ==> PlaneDot(plane, base.Vertices[v].Position) > 0.0
      ensures BoxPlaneCompare(base.LocalBox, plane) == -1 ==> PlaneDot(plane, base.Vertices[v].Position) < 0.0
    {
      BoxPlaneCompareSound(base.LocalBox, plane, base.Vertices[v].Position);
    }
  }

  // ------------------------------------------------------------ the cap

  /** FUtilVertex2D: a cap polygon vertex in the plane's 2D frame, with its UV and colour. */
  datatype UtilVertex2D = UtilVertex2D(Pos: Vec2, UV: Vec2, Color: Color)

  /** FUtilPoly2D: one closed polygon of the cap outline. */
  datatype UtilPoly2D = UtilPoly2D(Verts: seq<UtilVertex2D>)

  /**
   * The polygon-to-world matrix of the cap outline (FUtilPoly2DSet::PolyToWorld):
   * its unit X, Y and Z axes and its origin.
   */
  datatype PolyFrame = PolyFrame(XAxis: Vec3, YAxis: Vec3, ZAxis: Vec3, Origin: Vec3)

  /** FMatrix::TransformPosition of (x, y, 0). */
  function FramePoint(frame: PolyFrame, p: Vec2): Vec3
  {
    Vec3(frame.Origin.X + p.X * frame.XAxis.X + p.Y * frame.YAxis.X,
         frame.Origin.Y + p.X * frame.XAxis.Y + p.Y * frame.YAxis.Y,
         frame.Origin.Z + p.X * frame.XAxis.Z + p.Y * frame.YAxis.Z)
  }

  /** The 3D cap vertex of a 2D polygon vertex: placed by the frame, facing -Z, tangent along X. */
  function CapVertex(frame: PolyFrame, v: UtilVertex2D): ProcMeshVertex
  {
    ProcMeshVertex(FramePoint(frame, v.Pos), Neg3(frame.ZAxis), frame.XAxis, false, v.UV, v.Color)
  }

  /** The 3D vertices of one polygon, in order. */
  function PolyVertices(frame: PolyFrame, poly: UtilPoly2D): (r: seq<ProcMeshVertex>)
    ensures |r| == |poly.Verts| && forall k | 0 <= k < |r| :: r[k] == CapVertex(frame, poly.Verts[k])
  {
    seq(|poly.Verts|, k requires 0 <= k < |poly.Verts| => CapVertex(frame, poly.Verts[k]))
  }

  /** The 3D vertices of the polygons, polygon after polygon. */
  function CapVertices(frame: PolyFrame, polys: seq<UtilPoly2D>): seq<ProcMeshVertex>
  {
    if |polys| == 0 then [] else CapVertices(frame, polys[..|polys| - 1]) + PolyVertices(frame, polys[|polys| - 1])
  }

  /**
   * Transform2DPolygonTo3D: each polygon vertex, placed in 3D, is appended to
   * the vertex buffer and grows the box.
   */
  method Transform2DPolygonTo3D(poly: UtilPoly2D, frame: PolyFrame, verts: seq<ProcMeshVertex>, box: Box)
    returns (outVerts: seq<ProcMeshVertex>, outBox: Box)
    ensures outVerts == verts + PolyVertices(frame, poly)
    ensures outBox == GrowBox(box, PolyVertices(frame, poly))
  {
    outVerts, outBox := verts, box;
    ghost var all := PolyVertices(frame, poly);
    for k := 0 to |poly.Verts|
      invariant outVerts == verts + all[..k] && outBox == GrowBox(box, all[..k])
    {
      var newVert := CapVertex(frame, poly.Verts[k]);
      outVerts := outVerts + [newVert];
      outBox := BoxAdd(outBox, newVert.Position);
      assert all[..k + 1][..k] == all[..k];
    }
    assert all[..|poly.Verts|] == all;
  }

  /**
   * A cap vertex lies in the frame's XY plane, through its origin: when the
   * axes are orthogonal, its offset from the origin has no Z component.
   */
  lemma CapVertexInFramePlane(frame: PolyFrame, v: UtilVertex2D)
    requires Dot(frame.XAxis, frame.ZAxis) == 0.0 && Dot(frame.YAxis, frame.ZAxis) == 0.0
    ensures Dot(frame.ZAxis, CapVertex(frame, v).Position) == Dot(frame.ZAxis, frame.Origin)
    ensures CapVertex(frame, v).Normal == Neg3(frame.ZAxis) && CapVertex(frame, v).TangentX == frame.XAxis
  {
    var x, y, z, o := frame.XAxis, frame.YAxis, frame.ZAxis, frame.Origin;
    var a, b := v.Pos.X, v.Pos.Y;
    calc {
      Dot(z, CapVertex(frame, v).Position);
      z.X * (o.X + a * x.X + b * y.X) + z.Y * (o.Y + a * x.Y + b * y.Y) + z.Z * (o.Z + a * x.Z + b * y.Z);
      Dot(z, o) + a * (x.X * z.X + x.Y * z.Y + x.Z * z.Z) + b * (y.X * z.X + y.Y * z.Y + y.Z * z.Z);
      Dot(z, o) + a * Dot(x, z) + b * Dot(y, z);
    }
  }

  /** No polygon of the outline is degenerate: each has at least three vertices. */
  ghost predicate NoDegeneratePolygon(polys: seq<UtilPoly2D>)
  {
    forall q | 0 <= q < |polys| :: |polys[q].Verts| >= 3
  }

  /** Every corner the cap added names a vertex the cap added. */
  ghost predicate NewCornersAreNewVertices(start: ProcMeshSection, cap: ProcMeshSection)
    requires |start.Indices| <= |cap.Indices|
  {
    forall k | |start.Indices| <= k < |cap.Indices| :: |start.Vertices| <= cap.Indices[k] < |cap.Vertices|
  }

  /** What building the cap keeps of the section it starts from and adds to it. */
  ghost predicate IsCap(start: ProcMeshSection, frame: PolyFrame, polys: seq<UtilPoly2D>, cap: ProcMeshSection)
  {
    cap.Vertices == start.Vertices + CapVertices(frame, polys)
    && cap.LocalBox == GrowBox(start.LocalBox, CapVertices(frame, polys))
    && |start.Indices| <= |cap.Indices| && cap.Indices[..|start.Indices|] == start.Indices
    && (|cap.Indices| - |start.Indices|) % 3 == 0
    && (NoDegeneratePolygon(polys) ==> NewCornersAreNewVertices(start, cap))
  }

  /**
   * The cap loop: each polygon's vertices are appended and the polygon is
   * triangulated over them; the start section is kept as a prefix, whole
   * triangles are added, and when no polygon is degenerate every new corner
   * is one of the new vertices.
   */
  method BuildCap(start: ProcMeshSection, frame: PolyFrame, polys: seq<UtilPoly2D>, normal: Vec3,
                  pointInTriangle: (Vec3, Vec3, Vec3, Vec3) -> bool)
    returns (cap: ProcMeshSection)
    ensures IsCap(start, frame, polys, cap)
  {
    cap := start;
    for p := 0 to |polys|
      invariant IsCap(start, frame, polys[..p], cap)
    {
      cap := CapPolygon(start, frame, polys, p, normal, pointInTriangle, cap);
    }
    assert polys[..|polys|] == polys;
  }

  /** One polygon of the cap loop. */
  method CapPolygon(start: ProcMeshSection, frame: PolyFrame, polys: seq<UtilPoly2D>, p: nat, normal: Vec3,
                    pointInTriangle: (Vec3, Vec3, Vec3, Vec3) -> bool, cap: ProcMeshSection)
    returns (next: ProcMeshSection)
    requires p < |polys| && IsCap(start, frame, polys[..p], cap)
    ensures IsCap(start, frame, polys[..p + 1], next)
  {
    var polyVertBase := |cap.Vertices|;
    var verts, box := Transform2DPolygonTo3D(polys[p], frame, cap.Vertices, cap.LocalBox);
    var ok, tris := TriangulatePoly(cap.Indices, verts, polyVertBase, normal, pointInTriangle);
    next := ProcMeshSection(verts, tris, box);
    CapVerticesStep(start, frame, polys, p);
    CapIndicesStep(start, cap, next, ok);
  }

  /** The vertices and box after one more polygon: its vertices follow the earlier polygons'. */
  lemma CapVerticesStep(start: ProcMeshSection, frame: PolyFrame, polys: seq<UtilPoly2D>, p: nat)
    requires p < |polys|
    ensures start.Vertices + CapVertices(frame, polys[..p + 1])
            == (start.Vertices + CapVertices(frame, polys[..p])) + PolyVertices(frame, polys[p])
    ensures GrowBox(start.LocalBox, CapVertices(frame, polys[..p + 1]))
            == GrowBox(GrowBox(start.LocalBox, CapVertices(frame, polys[..p])), PolyVertices(frame, polys[p]))
    ensures NoDegeneratePolygon(polys[..p + 1]) ==> NoDegeneratePolygon(polys[..p]) && |polys[p].Verts| >= 3
  {
    var before, added := CapVertices(frame, polys[..p]), PolyVertices(frame, polys[p]);
    assert polys[..p + 1][..p] == polys[..p];
    assert CapVertices(frame, polys[..p + 1]) == before + added;
    AppendAssoc(start.Vertices, before, added);
    GrowBoxAppend(start.LocalBox, before, added);
    if NoDegeneratePolygon(polys[..p + 1]) {
      assert polys[..p + 1][p] == polys[p];
    }
  }

  /** The index buffer after triangulating one more polygon, given what TriangulatePoly promises. */
  lemma CapIndicesStep(start: ProcMeshSection, cap: ProcMeshSection, next: ProcMeshSection, ok: bool)
    requires |start.Indices| <= |cap.Indices| && cap.Indices[..|start.Indices|] == start.Indices
    requires (|cap.Indices| - |start.Indices|) % 3 == 0 && |start.Vertices| <= |cap.Vertices| <= |next.Vertices|
    requires |next.Vertices| < |cap.Vertices| + 3 ==> next.Indices == cap.Indices + [0, 2, 1]
    requires |next.Vertices| >= |cap.Vertices| + 3 && ok ==>
      |next.Indices| == |cap.Indices| + 3 * (|next.Vertices| - |cap.Vertices| - 2) && next.Indices[..|cap.Indices|] == cap.Indices
      && forall k | |cap.Indices| <= k < |next.Indices| :: |cap.Vertices| <= next.Indices[k] < |next.Vertices|
    requires |next.Vertices| >= |cap.Vertices| + 3 && !ok ==> next.Indices == cap.Indices
    ensures |start.Indices| <= |next.Indices| && next.Indices[..|start.Indices|] == start.Indices
    ensures (|next.Indices| - |start.Indices|) % 3 == 0
    ensures |next.Vertices| >= |cap.Vertices| + 3 && NewCornersAreNewVertices(start, cap) ==> NewCornersAreNewVertices(start, next)
  {
    if |next.Vertices| < |cap.Vertices| + 3 {
      assert next.Indices[..|cap.Indices|] == cap.Indices;
    } else if ok {
      forall k | 0 <= k < |cap.Indices|
        ensures next.Indices[k] == cap.Indices[k]
      {
        assert next.Indices[..|cap.Indices|][k] == next.Indices[k];
      }
    }
  }

  // ------------------------------------------------------------ the other half's cap

  /** A cap vertex as the other half sees it: normal and tangent reversed. */
  function FlipVertex(v: ProcMeshVertex): ProcMeshVertex
  {
    v.(Normal := Neg3(v.Normal), TangentX := Neg3(v.TangentX))
  }

  /** Every vertex flipped. */
  function FlipVertices(vs: seq<ProcMeshVertex>): (r: seq<ProcMeshVertex>)
    ensures |r| == |vs| && forall k | 0 <= k < |vs| :: r[k] == FlipVertex(vs[k])
  {
    seq(|vs|, k requires 0 <= k < |vs| => FlipVertex(vs[k]))
  }

  /** Where corner `k` of the copied triangles comes from: the first corner stays, the other two swap. */
  function Swap(k: nat): nat
  {
    if k % 3 == 1 then k + 1 else if k % 3 == 2 then k - 1 else k
  }

  /**
   * The first `t` triangles of `idx` with their winding reversed, each index
   * shifted by `off` and stored as a uint32.
   */
  function ReversedTris(idx: seq<nat>, off: int, t: nat): (r: seq<nat>)
    requires 3 * t <= |idx|
    ensures |r| == 3 * t
  {
    if t == 0 then []
    else ReversedTris(idx, off, t - 1) + [Wrap32(idx[3 * t - 3] + off), Wrap32(idx[3 * t - 1] + off), Wrap32(idx[3 * t - 2] + off)]
  }

  /** Corner `k` of the reversed triangles is corner Swap(k) of the originals, shifted. */
  lemma {:induction false} ReversedTrisAt(idx: seq<nat>, off: int, t: nat)
    requires 3 * t <= |idx|
    ensures forall k | 0 <= k < 3 * t :: Swap(k) < 3 * t && ReversedTris(idx, off, t)[k] == Wrap32(idx[Swap(k)] + off)
  {
    if t > 0 {
      ReversedTrisAt(idx, off, t - 1);
    }
  }

  /** The other half's cap section: the cap's new vertices flipped and its new triangles reversed, appended. */
  function MirroredCap(otherCap: ProcMeshSection, cap: ProcMeshSection, capVertBase: nat, capIndexBase: nat): ProcMeshSection
    requires capVertBase <= |cap.Vertices| && capIndexBase <= |cap.Indices|
  {
    var flipped := FlipVertices(cap.Vertices[capVertBase..]);
    ProcMeshSection(otherCap.Vertices + flipped,
                    otherCap.Indices + ReversedTris(cap.Indices[capIndexBase..], |otherCap.Vertices| - capVertBase, (|cap.Indices| - capIndexBase) / 3),
                    GrowBox(otherCap.LocalBox, flipped))
  }

  /**
   * Copying the cap into the other half's cap section: every cap vertex from
   * the cap's start is appended with its normal and tangent reversed (growing
   * the box), then every new cap triangle with its winding reversed and its
   * indices moved by the difference between the two sections' start points.
   */
  method MirrorCap(otherCap: ProcMeshSection, cap: ProcMeshSection, capVertBase: nat, capIndexBase: nat)
    returns (r: ProcMeshSection)
    requires capVertBase <= |cap.Vertices| && capIndexBase <= |cap.Indices| && (|cap.Indices| - capIndexBase) % 3 == 0
    ensures r == MirroredCap(otherCap, cap, capVertBase, capIndexBase)
  {
    var otherCapVertBase := |otherCap.Vertices|;
    r := MirrorVertices(otherCap, cap.Vertices, capVertBase);
    var vertOffset := otherCapVertBase - capVertBase;
    var indices := MirrorIndices(r.Indices, cap.Indices, capIndexBase, vertOffset);
    r := r.(Indices := indices);
  }

  /** The vertex copy of MirrorCap: from `capVertBase` on, each cap vertex flipped and appended, growing the box. */
  method MirrorVertices(otherCap: ProcMeshSection, capVerts: seq<ProcMeshVertex>, capVertBase: nat) returns (r: ProcMeshSection)
    requires capVertBase <= |capVerts|
    ensures r == otherCap.(Vertices := otherCap.Vertices + FlipVertices(capVerts[capVertBase..]),
                           LocalBox := GrowBox(otherCap.LocalBox, FlipVertices(capVerts[capVertBase..])))
  {
    ghost var flipped := FlipVertices(capVerts[capVertBase..]);
    r := otherCap;
    for v := capVertBase to |capVerts|
      invariant r == otherCap.(Vertices := otherCap.Vertices + flipped[..v - capVertBase],
                               LocalBox := GrowBox(otherCap.LocalBox, flipped[..v - capVertBase]))
    {
      var otherCapVert := FlipVertex(capVerts[v]);
      r := r.(Vertices := r.Vertices + [otherCapVert], LocalBox := BoxAdd(r.LocalBox, otherCapVert.Position));
      assert flipped[..v + 1 - capVertBase][..v - capVertBase] == flipped[..v - capVertBase];
    }
    assert flipped[..|capVerts| - capVertBase] == flipped;
  }

  /** The index copy of MirrorCap: from `capIndexBase` on, each cap triangle reversed and shifted, appended. */
  method MirrorIndices(indices: seq<nat>, capIndices: seq<nat>, capIndexBase: nat, vertOffset: int) returns (r: seq<nat>)
    requires capIndexBase <= |capIndices| && (|capIndices| - capIndexBase) % 3 == 0
    ensures r == indices + ReversedTris(capIndices[capIndexBase..], vertOffset, (|capIndices| - capIndexBase) / 3)
  {
    ghost var idx := capIndices[capIndexBase..];
    r := indices;
    var i := capIndexBase;
    while i < |capIndices|
      invariant capIndexBase <= i <= |capIndices| && (i - capIndexBase) % 3 == 0
      invariant r == indices + ReversedTris(idx, vertOffset, (i - capIndexBase) / 3)
    {
      r := r + [Wrap32(capIndices[i] + vertOffset), Wrap32(capIndices[i + 2] + vertOffset), Wrap32(capIndices[i + 1] + vertOffset)];
      i := i + 3;
    }
  }

  /**
   * The mirrored cap shows every cap triangle from the other side: when the
   * cap's new triangles use only its new vertices and the other section stays
   * within uint32 range, corner `k` of the copied triangles is the flipped copy
   * of corner Swap(k) of the cap triangles, and every copied index names one of
   * the copied vertices.
   */
  lemma MirroredCapReversesTriangles(otherCap: ProcMeshSection, cap: ProcMeshSection, capVertBase: nat, capIndexBase: nat)
    requires capVertBase <= |cap.Vertices| && capIndexBase <= |cap.Indices| && (|cap.Indices| - capIndexBase) % 3 == 0
    requires forall k | capIndexBase <= k < |cap.Indices| :: capVertBase <= cap.Indices[k] < |cap.Vertices|
    requires |otherCap.Vertices| + |cap.Vertices| - capVertBase <= 0x1_0000_0000
    ensures var m := MirroredCap(otherCap, cap, capVertBase, capIndexBase);
      var n := |otherCap.Indices|;
      |m.Indices| == n + |cap.Indices| - capIndexBase
      && forall k | 0 <= k < |cap.Indices| - capIndexBase ::
        |otherCap.Vertices| <= m.Indices[n + k] < |m.Vertices|
        && m.Vertices[m.Indices[n + k]] == FlipVertex(cap.Vertices[cap.Indices[capIndexBase + Swap(k)]])
  {
    var idx := cap.Indices[capIndexBase..];
    var off := |otherCap.Vertices| - capVertBase;
    var t := (|cap.Indices| - capIndexBase) / 3;
    ReversedTrisAt(idx, off, t);
    var m := MirroredCap(otherCap, cap, capVertBase, capIndexBase);
    forall k | 0 <= k < |cap.Indices| - capIndexBase
      ensures |otherCap.Vertices| <= m.Indices[|otherCap.Indices| + k] < |m.Vertices|
      ensures m.Vertices[m.Indices[|otherCap.Indices| + k]] == FlipVertex(cap.Vertices[cap.Indices[capIndexBase + Swap(k)]])
    {
      var c := cap.Indices[capIndexBase + Swap(k)];
      assert idx[Swap(k)] == c;
      assert m.Indices[|otherCap.Indices| + k] == Wrap32(c + off) == c + off;
      assert m.Vertices[c + off] == FlipVertices(cap.Vertices[capVertBase..])[c - capVertBase];
    }
  }

  // ------------------------------------------------------------ collision

  /** The hulls an element gives the kept side: all of it, its slice when that has at least four points, or nothing. */
  function HullsFrom(elem: ConvexElem, plane: Plane, getPlanes: ConvexElem -> seq<Plane>,
                     hullFromPlanes: (seq<Plane>, seq<Vec3>) -> Option<seq<Vec3>>): (r: seq<seq<Vec3>>)
    ensures |r| <= 1
  {
    var compare := BoxPlaneCompare(elem.ElemBox, plane);
    if compare == -1 then []
    else if compare == 1 then [elem.VertexData]
    else
      var sliced := SliceConvexElem(elem, plane, getPlanes, hullFromPlanes);
      if |sliced| >= 4 then [sliced] else []
  }

  /** The hulls an element gives the other side: all of it, its slice by the flipped plane when that has at least four points, or nothing. */
  function OtherHullsFrom(elem: ConvexElem, plane: Plane, getPlanes: ConvexElem -> seq<Plane>,
                          hullFromPlanes: (seq<Plane>, seq<Vec3>) -> Option<seq<Vec3>>): (r: seq<seq<Vec3>>)
    ensures |r| <= 1
  {
    var compare := BoxPlaneCompare(elem.ElemBox, plane);
    if compare == -1 then [elem.VertexData]
    else if compare == 1 then []
    else
      var sliced := SliceConvexElem(elem, FlipPlane(plane), getPlanes, hullFromPlanes);
      if |sliced| >= 4 then [sliced] else []
  }

  /** The kept hulls of the first `n` elements, in order. */
  function KeptHulls(elems: seq<ConvexElem>, plane: Plane, getPlanes: ConvexElem -> seq<Plane>,
                     hullFromPlanes: (seq<Plane>, seq<Vec3>) -> Option<seq<Vec3>>, n: nat): seq<seq<Vec3>>
    requires n <= |elems|
  {
    if n == 0 then [] else KeptHulls(elems, plane, getPlanes, hullFromPlanes, n - 1) + HullsFrom(elems[n - 1], plane, getPlanes, hullFromPlanes)
  }

  /** The other side's hulls of the first `n` elements, in order. */
  function OtherHulls(elems: seq<ConvexElem>, plane: Plane, getPlanes: ConvexElem -> seq<Plane>,
                      hullFromPlanes: (seq<Plane>, seq<Vec3>) -> Option<seq<Vec3>>, n: nat): seq<seq<Vec3>>
    requires n <= |elems|
  {
    if n == 0 then [] else OtherHulls(elems, plane, getPlanes, hullFromPlanes, n - 1) + OtherHullsFrom(elems[n - 1], plane, getPlanes, hullFromPlanes)
  }

  /** Turning the plane round exchanges the box test's two sure answers. */
  lemma BoxPlaneCompareFlip(box: Box, plane: Plane)
    ensures BoxPlaneCompare(box, FlipPlane(plane)) == -BoxPlaneCompare(box, plane)
  {
    var c, n, e := BoxCenter(box), plane.Normal, BoxExtent(box);
    assert PlaneDot(FlipPlane(plane), c) == -PlaneDot(plane, c);
    assert AxisPushOut(-n.X, e.X) == AxisPushOut(n.X, e.X);
    assert AxisPushOut(-n.Y, e.Y) == AxisPushOut(n.Y, e.Y);
    assert AxisPushOut(-n.Z, e.Z) == AxisPushOut(n.Z, e.Z);
  }

  /** The other half's collision is exactly what the kept side would get from the flipped plane. */
  lemma {:induction false} OtherHullsAreFlippedKept(elems: seq<ConvexElem>, plane: Plane, getPlanes: ConvexElem -> seq<Plane>,
                                                    hullFromPlanes: (seq<Plane>, seq<Vec3>) -> Option<seq<Vec3>>, n: nat)
    requires n <= |elems|
    ensures OtherHulls(elems, plane, getPlanes, hullFromPlanes, n) == KeptHulls(elems, FlipPlane(plane), getPlanes, hullFromPlanes, n)
  {
    if n > 0 {
      OtherHullsAreFlippedKept(elems, plane, getPlanes, hullFromPlanes, n - 1);
      BoxPlaneCompareFlip(elems[n - 1].ElemBox, plane);
    }
  }

  /**
   * The collision loop: each convex element's box is compared with the plane;
   * an element wholly on one side goes whole to that side (the other side only
   * when wanted), a straddling one is sliced once for each side.
   */
  method SliceCollision(elems: seq<ConvexElem>, plane: Plane, createOther: bool, getPlanes: ConvexElem -> seq<Plane>,
                        hullFromPlanes: (seq<Plane>, seq<Vec3>) -> Option<seq<Vec3>>)
    returns (sliced: seq<seq<Vec3>>, other: seq<seq<Vec3>>)
    ensures sliced == KeptHulls(elems, plane, getPlanes, hullFromPlanes, |elems|)
    ensures other == if createOther then OtherHulls(elems, plane, getPlanes, hullFromPlanes, |elems|) else []
  {
    sliced, other := [], [];
    for c := 0 to |elems|
      invariant sliced == KeptHulls(elems, plane, getPlanes, hullFromPlanes, c)
      invariant other == if createOther then OtherHulls(elems, plane, getPlanes, hullFromPlanes, c) else []
    {
      var baseConvex := elems[c];
      var compare := BoxPlaneCompare(baseConvex.ElemBox, plane);
      if compare == -1 {
        if createOther {
          other := other + [baseConvex.VertexData];
        }
      } else if compare == 1 {
        sliced := sliced + [baseConvex.VertexData];
      } else {
        var slicedVerts := SliceConvexElem(baseConvex, plane, getPlanes, hullFromPlanes);
        if |slicedVerts| >= 4 {
          sliced := sliced + [slicedVerts];
        }
        if createOther {
          var otherVerts := SliceConvexElem(baseConvex, FlipPlane(plane), getPlanes, hullFromPlanes);
          if |otherVerts| >= 4 {
            other := other + [otherVerts];
          }
        }
      }
    }
  }

  // ------------------------------------------------------------ the section loop

  /** What the section loop does to a component section: leave it, clear it, or replace it. */
  datatype SectionOutcome = Untouched | Cleared | Replaced(Section: ProcMeshSection)

  /** The section an outcome leaves in place of `s`. */
  function Applied(outcome: SectionOutcome, s: ProcMeshSection): ProcMeshSection
  {
    match outcome
    case Untouched => s
    case Cleared => EmptySection
    case Replaced(r) => r
  }

  /**
   * The running state of the section loop: the other half's sections and
   * materials, the cut edges, both provenance maps, and the materials the
   * source records for the other half as written (`Recorded`), which keeps the
   * material of a dropped other half.
   */
  datatype LoopState = LoopState(OtherSections: seq<ProcMeshSection>, OtherMaterials: seq<Material>,
                                 ClipEdges: seq<ClipEdge>, Sliced: map<nat, nat>, Other: map<nat, nat>,
                                 Recorded: seq<Material>)

  /** The provenance loop of a section that moves whole: new index `v` names base vertex `v`, for every vertex. */
  method AddWholeSection(prov: map<nat, nat>, n: nat) returns (r: map<nat, nat>)
    ensures r == prov + Identity(n)
  {
    r := prov;
    for v := 0 to n
      invariant r == prov + Identity(v)
    {
      r := r[v := v];
      assert r == prov + Identity(v + 1);
    }
  }

  /**
   * One section of the section loop. A section without geometry is skipped. A
   * section whose box is wholly on the other side goes whole to the other half
   * (when wanted) and is cleared; one wholly on the kept side stays and records
   * its vertices as kept. A straddling one is cut: the kept half replaces it
   * (or it is cleared when that half is empty), and its other half, when wanted
   * and not empty, is added together with the section's material. As written,
   * the material is recorded for every section that is not wholly kept, even
   * when its other half is then dropped.
   */
  method SliceSection(base: ProcMeshSection, material: Material, plane: Plane, createOther: bool, st: LoopState)
    returns (outcome: SectionOutcome, next: LoopState)
    requires ValidSection(base)
    ensures Applied(outcome, base) == SectionAfter(base, plane) && ValidSection(Applied(outcome, base))
    ensures next.ClipEdges == st.ClipEdges + EdgesFrom(base, plane)
    ensures next.Sliced == st.Sliced + SlicedEntries(base, plane)
    ensures createOther ==>
      next.OtherSections == st.OtherSections + OtherFrom(base, plane)
      && next.OtherMaterials == st.OtherMaterials + (if |OtherFrom(base, plane)| == 1 then [material] else [])
      && next.Other == st.Other + OtherEntries(base, plane)
      && next.Recorded == st.Recorded + (if HasGeometry(base) && BoxPlaneCompare(base.LocalBox, plane) != 1 then [material] else [])
    ensures !createOther ==> next.OtherSections == st.OtherSections && next.OtherMaterials == st.OtherMaterials && next.Other == st.Other
    ensures !createOther ==> next.Recorded == st.Recorded
  {
    next := st;
    outcome := Untouched;
    if !(|base.Indices| > 0 && |base.Vertices| > 0) {
      return;
    }
    var boxCompare := BoxPlaneCompare(base.LocalBox, plane);
    if boxCompare == -1 {
      if createOther {
        var other := AddWholeSection(st.Other, |base.Vertices|);
        next := next.(Other := other, OtherSections := st.OtherSections + [base], OtherMaterials := st.OtherMaterials + [material],
                      Recorded := st.Recorded + [material]);
      }
      outcome := Cleared;
    } else if boxCompare == 1 {
      var sliced := AddWholeSection(st.Sliced, |base.Vertices|);
      next := next.(Sliced := sliced);
    } else {
      var kept, other, edges, sliced, otherProv := SliceStraddlingSection(base, plane, createOther, st.Sliced, st.Other);
      var otherSections, otherMaterials, recorded;
      outcome, otherSections, otherMaterials, recorded := FinishStraddle(kept, other, material, createOther, st);
      next := LoopState(otherSections, otherMaterials, st.ClipEdges + edges, sliced, otherProv, recorded);
    }
  }

  /**
   * The straddling case of SliceSection once the section is cut: the kept half
   * replaces the section, or the section is cleared when that half is empty;
   * the other half is recorded when it is wanted. The material list as written
   * (`nextRecorded`) gains the section's material whenever the other half is
   * wanted; the corrected list (`nextMats`) only when that half is kept.
   */
  method FinishStraddle(kept: ProcMeshSection, other: ProcMeshSection, material: Material, createOther: bool, st: LoopState)
    returns (outcome: SectionOutcome, nextSections: seq<ProcMeshSection>, nextMats: seq<Material>, nextRecorded: seq<Material>)
    ensures outcome == if HasGeometry(kept) then Replaced(kept) else Cleared
    ensures createOther ==>
      nextSections == st.OtherSections + (if HasGeometry(other) then [other] else [])
      && nextMats == st.OtherMaterials + (if HasGeometry(other) then [material] else [])
      && nextRecorded == st.Recorded + [material]
    ensures !createOther ==> nextSections == st.OtherSections && nextMats == st.OtherMaterials && nextRecorded == st.Recorded
  {
    nextSections, nextMats, nextRecorded := st.OtherSections, st.OtherMaterials, st.Recorded;
    if createOther {
      nextRecorded := nextRecorded + [material];
      nextSections, nextMats := RecordOtherHalf(nextSections, nextMats, other, material);
    }
    if |kept.Indices| > 0 && |kept.Vertices| > 0 {
      outcome := Replaced(kept);
    } else {
      outcome := Cleared;
    }
  }

  /**
   * Records a straddling section's other half: an empty placeholder and the
   * section's material are added first, the placeholder is then filled in,
   * or, when the half has no geometry, taken back together with its material.
   */
  method RecordOtherHalf(sections: seq<ProcMeshSection>, mats: seq<Material>, other: ProcMeshSection, material: Material)
    returns (nextSections: seq<ProcMeshSection>, nextMats: seq<Material>)
    ensures HasGeometry(other) ==> nextSections == sections + [other] && nextMats == mats + [material]
    ensures !HasGeometry(other) ==> nextSections == sections && nextMats == mats
  {
    nextSections, nextMats := sections + [EmptySection], mats + [material];
    if !(|other.Indices| > 0 && |other.Vertices| > 0) {
      nextSections, nextMats := nextSections[..|sections|], nextMats[..|mats|];
      assert nextSections == sections && nextMats == mats;
    } else {
      nextSections := nextSections[|sections| := other];
      assert nextSections == sections + [other];
    }
  }

  /** The first `n` sections as the section loop leaves them. */
  function SectionsAfter(sections: seq<ProcMeshSection>, plane: Plane, n: nat): (r: seq<ProcMeshSection>)
    requires AllValid(sections) && n <= |sections|
    ensures |r| == n
  {
    if n == 0 then [] else SectionsAfter(sections, plane, n - 1) + [SectionAfter(sections[n - 1], plane)]
  }

  /** Section `j` of SectionsAfter is what the loop made of section `j`. */
  lemma {:induction false} SectionsAfterAt(sections: seq<ProcMeshSection>, plane: Plane, n: nat, j: nat)
    requires AllValid(sections) && j < n <= |sections|
    ensures SectionsAfter(sections, plane, n)[j] == SectionAfter(sections[j], plane)
  {
    if j < n - 1 {
      SectionsAfterAt(sections, plane, n - 1, j);
    }
  }

  /** The component's sections after the section loop visited its first `i`. */
  ghost predicate SectionsUpTo(base: seq<ProcMeshSection>, plane: Plane, sections: seq<ProcMeshSection>, i: nat)
    requires AllValid(base) && i <= |base|
  {
    |sections| == |base| && AllValid(sections)
    && sections[..i] == SectionsAfter(base, plane, i) && sections[i..] == base[i..]
  }

  /** The loop state after the section loop visited the first `i` sections. */
  ghost predicate StateUpTo(base: seq<ProcMeshSection>, mats: seq<Material>, plane: Plane, createOther: bool,
                            slicedProv: map<nat, nat>, otherProv: map<nat, nat>, st: LoopState, i: nat)
    requires AllValid(base) && i <= |base|
  {
    st.ClipEdges == ClipEdgesAfter(base, plane, i)
    && st.Sliced == SlicedProvAfter(slicedProv, base, plane, i)
    && (createOther ==>
          st.OtherSections == OtherSectionsAfter(base, plane, i)
          && st.OtherMaterials == OtherMaterialsAfter(base, mats, plane, i)
          && st.Other == OtherProvAfter(otherProv, base, plane, i)
          && st.Recorded == OtherMaterialsAsWritten(base, mats, plane, i))
    && (!createOther ==> st.OtherSections == [] && st.OtherMaterials == [] && st.Other == otherProv && st.Recorded == [])
  }

  /** What SliceSection promises about one step, as a single fact. */
  ghost predicate Stepped(base: ProcMeshSection, material: Material, plane: Plane, createOther: bool,
                          st: LoopState, next: LoopState)
    requires ValidSection(base)
  {
    next.ClipEdges == st.ClipEdges + EdgesFrom(base, plane)
    && next.Sliced == st.Sliced + SlicedEntries(base, plane)
    && (createOther ==>
          next.OtherSections == st.OtherSections + OtherFrom(base, plane)
          && next.OtherMaterials == st.OtherMaterials + (if |OtherFrom(base, plane)| == 1 then [material] else [])
          && next.Other == st.Other + OtherEntries(base, plane)
          && next.Recorded == st.Recorded + (if HasGeometry(base) && BoxPlaneCompare(base.LocalBox, plane) != 1 then [material] else []))
    && (!createOther ==>
          next.OtherSections == st.OtherSections && next.OtherMaterials == st.OtherMaterials && next.Other == st.Other
          && next.Recorded == st.Recorded)
  }

  /** Replacing the visited section by what the loop makes of it extends SectionsUpTo by one. */
  lemma SectionsUpToStep(base: seq<ProcMeshSection>, plane: Plane, sections: seq<ProcMeshSection>, i: nat, s: ProcMeshSection)
    requires AllValid(base) && i < |base|
    requires SectionsUpTo(base, plane, sections, i)
    requires s == SectionAfter(base[i], plane) && ValidSection(s)
    ensures SectionsUpTo(base, plane, sections[i := s], i + 1)
  {
    var after := sections[i := s];
    assert after[..i + 1] == sections[..i] + [s];
    assert after[i + 1..] == base[i + 1..] by {
      assert sections[i + 1..] == base[i..][1..];
    }
  }

  /** One step of the section loop extends every fold by the section it visits. */
  lemma StateUpToStep(base: seq<ProcMeshSection>, mats: seq<Material>, plane: Plane, createOther: bool,
                      slicedProv: map<nat, nat>, otherProv: map<nat, nat>, st: LoopState, i: nat, next: LoopState)
    requires AllValid(base) && i < |base|
    requires StateUpTo(base, mats, plane, createOther, slicedProv, otherProv, st, i)
    requires Stepped(base[i], MaterialAt(mats, i), plane, createOther, st, next)
    ensures StateUpTo(base, mats, plane, createOther, slicedProv, otherProv, next, i + 1)
  {
  }

  /**
   * The section loop of SliceProceduralMesh: every section is sliced in turn
   * and the component's section updated in place; the materials and the
   * collision are not touched.
   */
  method SliceSections(mesh: ProcMeshComponent, plane: Plane, createOther: bool, slicedProv: map<nat, nat>, otherProv: map<nat, nat>)
    returns (st: LoopState)
    requires AllValid(mesh.Sections)
    modifies mesh
    ensures mesh.Materials == old(mesh.Materials) && mesh.ConvexElems == old(mesh.ConvexElems)
    ensures SectionsUpTo(old(mesh.Sections), plane, mesh.Sections, |old(mesh.Sections)|)
    ensures StateUpTo(old(mesh.Sections), mesh.Materials, plane, createOther, slicedProv, otherProv, st, |old(mesh.Sections)|)
  {
    ghost var base := mesh.Sections;
    st := LoopState([], [], [], slicedProv, otherProv, []);
    var n := |mesh.Sections|;
    for i := 0 to n
      invariant mesh.Materials == old(mesh.Materials) && mesh.ConvexElems == old(mesh.ConvexElems)
      invariant SectionsUpTo(base, plane, mesh.Sections, i)
      invariant StateUpTo(base, mesh.Materials, plane, createOther, slicedProv, otherProv, st, i)
    {
      var outcome, next := SliceSection(mesh.Sections[i], MaterialAt(mesh.Materials, i), plane, createOther, st);
      ghost var before := mesh.Sections;
      match outcome {
        case Untouched =>
        case Cleared => mesh.ClearMeshSection(i);
        case Replaced(s) => mesh.SetProcMeshSection(i, s);
      }
      assert mesh.Sections == before[i := Applied(outcome, base[i])];
      SectionsUpToStep(base, plane, before, i, Applied(outcome, base[i]));
      StateUpToStep(base, mesh.Materials, plane, createOther, slicedProv, otherProv, st, i, next);
      st := next;
    }
  }

  // ------------------------------------------------------------ SliceProceduralMesh

  /** The cut builds a cap: one is asked for and the section loop recorded cut edges. */
  ghost predicate Capped(base: seq<ProcMeshSection>, plane: Plane, capOption: CapOption)
    requires AllValid(base)
  {
    capOption != NoCap && |ClipEdgesAfter(base, plane, |base|)| > 0
  }

  /**
   * The cap step on plain values. Without a cap nothing changes. Otherwise
   * `cap` is the cap outline's polygons triangulated onto an empty section
   * (CreateNewSectionForCap), set as a new last section with the cap material,
   * or onto the last section (UseLastSectionForCap), set in its place. When the
   * other half is wanted, the cap is also mirrored into a new last other
   * section with the cap material, or onto the last other section.
   */
  ghost predicate CappedAs(after: seq<ProcMeshSection>, mats: seq<Material>, others: seq<ProcMeshSection>, otherMats: seq<Material>,
                           capped: bool, capOption: CapOption, capMaterial: Material, shape: (PolyFrame, seq<UtilPoly2D>),
                           createOther: bool, cap: ProcMeshSection, sections: seq<ProcMeshSection>, materials: seq<Material>,
                           nextOthers: seq<ProcMeshSection>, nextOtherMats: seq<Material>)
  {
    if !capped then
      sections == after && materials == mats
      && (createOther ==> nextOthers == others && nextOtherMats == otherMats)
    else if capOption == CreateNewSectionForCap then
      IsCap(EmptySection, shape.0, shape.1, cap)
      && sections == after + [cap] && materials == SetMaterialAt(mats, |after|, capMaterial)
      && (createOther ==>
            nextOthers == others + [MirroredCap(EmptySection, cap, 0, 0)] && nextOtherMats == otherMats + [capMaterial])
    else
      |after| > 0 && IsCap(after[|after| - 1], shape.0, shape.1, cap)
      && sections == after[|after| - 1 := cap] && materials == mats
      && (createOther ==>
            |others| > 0
            && nextOthers == others[|others| - 1 := MirroredCap(others[|others| - 1], cap,
                                                                  |after[|after| - 1].Vertices|, |after[|after| - 1].Indices|)]
            && nextOtherMats == otherMats)
  }

  /** The cap step of SliceProceduralMesh, on the component after the section loop. */
  method AddCap(mesh: ProcMeshComponent, capped: bool, capOption: CapOption, capMaterial: Material,
                shape: (PolyFrame, seq<UtilPoly2D>), createOther: bool, normal: Vec3,
                pointInTriangle: (Vec3, Vec3, Vec3, Vec3) -> bool,
                others: seq<ProcMeshSection>, otherMats: seq<Material>)
    returns (nextOthers: seq<ProcMeshSection>, nextOtherMats: seq<Material>, ghost cap: ProcMeshSection)
    requires capped ==> capOption != NoCap
    requires capped && capOption == UseLastSectionForCap ==> |mesh.Sections| > 0 && (createOther ==> |others| > 0)
    modifies mesh
    ensures mesh.ConvexElems == old(mesh.ConvexElems)
    ensures CappedAs(old(mesh.Sections), old(mesh.Materials), others, otherMats, capped, capOption, capMaterial, shape,
                     createOther, cap, mesh.Sections, mesh.Materials, nextOthers, nextOtherMats)
  {
    hide IsCap; hide MirroredCap;
    nextOthers, nextOtherMats, cap := others, otherMats, EmptySection;
    if !capped {
      return;
    }
    var capStart, capIndex := EmptySection, |mesh.Sections|;
    if capOption == UseLastSectionForCap {
      capIndex := |mesh.Sections| - 1;
      capStart := mesh.Sections[capIndex];
    }
    var capSection := BuildCap(capStart, shape.0, shape.1, normal, pointInTriangle);
    cap := capSection;
    mesh.SetProcMeshSection(capIndex, capSection);
    if capOption == CreateNewSectionForCap {
      mesh.SetMaterial(capIndex, capMaterial);
    }
    if createOther {
      if capOption == CreateNewSectionForCap {
        nextOthers, nextOtherMats := nextOthers + [EmptySection], nextOtherMats + [capMaterial];
      }
      var last := |nextOthers| - 1;
      var otherCap := MirrorCap(nextOthers[last], capSection, |capStart.Vertices|, |capStart.Indices|);
      nextOthers := nextOthers[last := otherCap];
    }
  }

  /**
   * USlicingSkeletalMeshLibrary::SliceProceduralMesh, with the plane already in
   * the component's local space. The section loop slices every section; a cap
   * is built from the cut edges when asked for; the simple collision is
   * sliced; and the other half, when wanted, becomes a new component holding
   * the other sections, their materials and the other collision hulls. The
   * provenance maps gain an entry for every vertex each half receives. The
   * other half's materials are the corrected list, one per other section; the
   * list the source builds (`recorded`, before the cap's material) is also
   * returned and relates to it by OtherMaterialsDrift. The cap outline (edge projection and polygon building), the point-in-triangle
   * test and the convex hull builder are parameters.
   */
  method SliceProceduralMesh(mesh: ProcMeshComponent?, plane: Plane, createOther: bool, capOption: CapOption,
                             capMaterial: Material, outline: seq<ClipEdge> -> (PolyFrame, seq<UtilPoly2D>),
                             pointInTriangle: (Vec3, Vec3, Vec3, Vec3) -> bool, getPlanes: ConvexElem -> seq<Plane>,
                             hullFromPlanes: (seq<Plane>, seq<Vec3>) -> Option<seq<Vec3>>,
                             slicedProv: map<nat, nat>, otherProv: map<nat, nat>)
    returns (otherHalf: ProcMeshComponent?, nextSliced: map<nat, nat>, nextOther: map<nat, nat>,
             ghost cap: ProcMeshSection, ghost others: seq<ProcMeshSection>, ghost otherMats: seq<Material>,
             ghost recorded: seq<Material>)
    requires mesh != null ==> AllValid(mesh.Sections)
    modifies mesh
    ensures mesh == null || !createOther ==> otherHalf == null
    ensures mesh == null ==> nextSliced == slicedProv && nextOther == otherProv
    ensures mesh != null ==>
      var base, n := old(mesh.Sections), |old(mesh.Sections)|;
      CappedAs(SectionsAfter(base, plane, n), old(mesh.Materials),
               OtherSectionsAfter(base, plane, n), OtherMaterialsAfter(base, old(mesh.Materials), plane, n),
               Capped(base, plane, capOption), capOption, capMaterial, outline(ClipEdgesAfter(base, plane, n)),
               createOther, cap, mesh.Sections, mesh.Materials, others, otherMats)
      && mesh.ConvexElems == HullElems(KeptHulls(old(mesh.ConvexElems), plane, getPlanes, hullFromPlanes, |old(mesh.ConvexElems)|))
      && nextSliced == SlicedProvAfter(slicedProv, base, plane, n)
      && nextOther == (if createOther then OtherProvAfter(otherProv, base, plane, n) else otherProv)
    ensures mesh != null && createOther ==>
      otherHalf != null && fresh(otherHalf)
      && otherHalf.Sections == others && otherHalf.Materials == otherMats
      && otherHalf.ConvexElems == HullElems(OtherHulls(old(mesh.ConvexElems), plane, getPlanes, hullFromPlanes, |old(mesh.ConvexElems)|))
      && recorded == OtherMaterialsAsWritten(old(mesh.Sections), old(mesh.Materials), plane, |old(mesh.Sections)|)
  {
    hide SectionsAfter;
    hide OtherSectionsAfter;
    hide OtherMaterialsAfter;
    hide OtherMaterialsAsWritten;
    hide ClipEdgesAfter;
    hide SlicedProvAfter;
    hide OtherProvAfter;
    hide KeptHulls;
    hide OtherHulls;
    hide IsCap;
    hide MirroredCap;
    cap, others, otherMats, recorded := EmptySection, [], [], [];
    if mesh == null {
      return null, slicedProv, otherProv, cap, others, otherMats, recorded;
    }
    ghost var base, mats := mesh.Sections, mesh.Materials;
    var st := SliceSections(mesh, plane, createOther, slicedProv, otherProv);
    assert mesh.Sections == SectionsAfter(base, plane, |base|);
    var capped := capOption != NoCap && |st.ClipEdges| > 0;
    if capped {
      CutLeavesOtherSection(base, plane, |base|);
    }
    var otherSections, otherMaterials;
    otherSections, otherMaterials, cap := AddCap(mesh, capped, capOption, capMaterial, outline(st.ClipEdges), createOther,
                                                 plane.Normal, pointInTriangle, st.OtherSections, st.OtherMaterials);
    others, otherMats := otherSections, otherMaterials;
    var slicedHulls, otherHulls := SliceCollision(mesh.ConvexElems, plane, createOther, getPlanes, hullFromPlanes);
    mesh.SetCollisionConvexMeshes(slicedHulls);
    otherHalf := null;
    if createOther {
      OtherMaterialsAligned(base, mats, plane, |base|);
      otherHalf := CreateOtherHalf(otherSections, otherMaterials, otherHulls);
    }
    nextSliced, nextOther, recorded := st.Sliced, st.Other, st.Recorded;
  }

  /**
   * The other half component: each recorded section and its material set in
   * turn on a new component, then the other collision hulls.
   */
  method CreateOtherHalf(sections: seq<ProcMeshSection>, materials: seq<Material>, hulls: seq<seq<Vec3>>)
    returns (c: ProcMeshComponent)
    requires |materials| == |sections|
    ensures fresh(c)
    ensures c.Sections == sections && c.Materials == materials && c.ConvexElems == HullElems(hulls)
  {
    c := new ProcMeshComponent();
    for i := 0 to |sections|
      invariant c.Sections == sections[..i] && c.Materials == materials[..i] && c.ConvexElems == []
    {
      c.SetProcMeshSection(i, sections[i]);
      c.SetMaterial(i, materials[i]);
      assert c.Sections == sections[..i + 1];
      assert c.Materials == materials[..i + 1];
    }
    assert sections[..|sections|] == sections && materials[..|materials|] == materials;
    c.SetCollisionConvexMeshes(hulls);
  }

  // ------------------------------------------------------------ the other half's materials as written

  /** The section straddles the plane yet leaves the other half no geometry, so that half is dropped. */
  ghost predicate DropsOtherHalf(base: ProcMeshSection, plane: Plane)
    requires ValidSection(base)
  {
    HasGeometry(base) && BoxPlaneCompare(base.LocalBox, plane) == 0 && !HasGeometry(HalfOf(base, plane, false))
  }

  /**
   * A section gives the other half a section exactly when the source records
   * a material for it, unless its other half is dropped.
   */
  lemma OtherFromRecorded(base: ProcMeshSection, plane: Plane)
    requires ValidSection(base)
    ensures |OtherFrom(base, plane)| == 1
            <==> HasGeometry(base) && BoxPlaneCompare(base.LocalBox, plane) != 1 && !DropsOtherHalf(base, plane)
  {
  }

  /** How many of the first `n` sections drop their other half. */
  ghost function EmptyOtherHalves(sections: seq<ProcMeshSection>, plane: Plane, n: nat): nat
    requires AllValid(sections) && n <= |sections|
  {
    if n == 0 then 0
    else EmptyOtherHalves(sections, plane, n - 1) + (if DropsOtherHalf(sections[n - 1], plane) then 1 else 0)
  }

  /**
   * As written, the other half's material list runs ahead of its section list
   * by one for every straddling section whose other half is dropped; when no
   * such section occurs, it agrees with the corrected list.
   */
  lemma {:induction false} OtherMaterialsDrift(sections: seq<ProcMeshSection>, mats: seq<Material>, plane: Plane, n: nat)
    requires AllValid(sections) && n <= |sections|
    ensures |OtherMaterialsAsWritten(sections, mats, plane, n)|
            == |OtherSectionsAfter(sections, plane, n)| + EmptyOtherHalves(sections, plane, n)
    ensures EmptyOtherHalves(sections, plane, n) == 0 ==>
            OtherMaterialsAsWritten(sections, mats, plane, n) == OtherMaterialsAfter(sections, mats, plane, n)
  {
    hide HalfOf;
    if n > 0 {
      OtherMaterialsDrift(sections, mats, plane, n - 1);
      OtherFromRecorded(sections[n - 1], plane);
    }
  }

  /** A vertex at `p` with every other attribute zero. */
  function PlainVertex(p: Vec3): ProcMeshVertex
  {
    ProcMeshVertex(p, Zero3, Zero3, false, Vec2(0.0, 0.0), Color(0, 0, 0, 0))
  }

  /** The plane x + y + z = 0.9. */
  const DiagonalPlane := Plane(Vec3(1.0, 1.0, 1.0), 0.9)

  /** The triangle (1,0,0), (0,1,0), (0,0,1) with its box [0,1]^3. */
  const CornerTriangle := ProcMeshSection(
    [PlainVertex(Vec3(1.0, 0.0, 0.0)), PlainVertex(Vec3(0.0, 1.0, 0.0)), PlainVertex(Vec3(0.0, 0.0, 1.0))],
    [0, 1, 2], Box(Vec3(0.0, 0.0, 0.0), Vec3(1.0, 1.0, 1.0), true))

  /** A triangle at z = -5 with its box. */
  const LowTriangle := ProcMeshSection(
    [PlainVertex(Vec3(0.0, 0.0, -5.0)), PlainVertex(Vec3(1.0, 0.0, -5.0)), PlainVertex(Vec3(0.0, 1.0, -5.0))],
    [0, 1, 2], Box(Vec3(0.0, 0.0, -5.0), Vec3(1.0, 1.0, -5.0), true))

  /** With every vertex above the plane no triangle is mixed, so no triangle adds a cut vertex. */
  lemma {:induction false} AboveAddsNoCutPoints(base: ProcMeshSection, dist: seq<real>, t: nat)
    requires ValidSection(base) && |dist| == |base.Vertices| && 3 * t <= |base.Indices|
    requires forall v | 0 <= v < |dist| :: dist[v] > 0.0
    ensures RoutedPoints(base, dist, t) == []
  {
    if t > 0 {
      AboveAddsNoCutPoints(base, dist, t - 1);
      var d := CornerDists(dist, Corners(base, t - 1));
      assert Up(d, 0) && Up(d, 1) && Up(d, 2);
    }
  }

  /**
   * A section whose box straddles the plane while every vertex lies above it
   * leaves the other half nothing: its other half is dropped.
   */
  lemma AboveDropsOtherHalf(base: ProcMeshSection, plane: Plane)
    requires ValidSection(base) && HasGeometry(base) && BoxPlaneCompare(base.LocalBox, plane) == 0
    requires forall v | 0 <= v < |base.Vertices| :: PlaneDot(plane, base.Vertices[v].Position) > 0.0
    ensures DropsOtherHalf(base, plane) && OtherFrom(base, plane) == []
  {
    hide RoutedIndices;
    hide VertexBox;
    var dist := Distances(base.Vertices, plane);
    SideVerticesMembers(dist, false, |dist|);
    AboveAddsNoCutPoints(base, dist, |base.Indices| / 3);
    assert HalfOf(base, plane, false).Vertices == [];
  }

  /** CornerTriangle has geometry and its box straddles DiagonalPlane, yet every vertex is above it. */
  lemma CornerTriangleAbove()
    ensures ValidSection(CornerTriangle) && HasGeometry(CornerTriangle)
    ensures BoxPlaneCompare(CornerTriangle.LocalBox, DiagonalPlane) == 0
    ensures forall v | 0 <= v < |CornerTriangle.Vertices| :: PlaneDot(DiagonalPlane, CornerTriangle.Vertices[v].Position) > 0.0
  {
  }

  /** LowTriangle has geometry and its box lies wholly below DiagonalPlane. */
  lemma LowTriangleBelow()
    ensures ValidSection(LowTriangle) && HasGeometry(LowTriangle)
    ensures BoxPlaneCompare(LowTriangle.LocalBox, DiagonalPlane) == -1
  {
  }

  /**
   * A straddling section with every vertex above the plane, followed by a
   * section wholly below it: the other half's only section is the second, yet
   * as written it is paired with the first section's material; the corrected
   * list pairs it with its own. CornerTriangle and LowTriangle under
   * DiagonalPlane are such a pair.
   */
  lemma OtherMaterialMismatch(s0: ProcMeshSection, s1: ProcMeshSection, plane: Plane, m0: Material, m1: Material)
    requires ValidSection(s0) && HasGeometry(s0) && BoxPlaneCompare(s0.LocalBox, plane) == 0
    requires forall v | 0 <= v < |s0.Vertices| :: PlaneDot(plane, s0.Vertices[v].Position) > 0.0
    requires ValidSection(s1) && HasGeometry(s1) && BoxPlaneCompare(s1.LocalBox, plane) == -1
    ensures AllValid([s0, s1])
    ensures OtherSectionsAfter([s0, s1], plane, 2) == [s1]
    ensures OtherMaterialsAsWritten([s0, s1], [m0, m1], plane, 2) == [m0, m1]
    ensures OtherMaterialsAfter([s0, s1], [m0, m1], plane, 2) == [m1]
  {
    AboveDropsOtherHalf(s0, plane);
    assert OtherFrom(s1, plane) == [s1];
    var sections, mats := [s0, s1], [m0, m1];
    assert sections[0] == s0 && sections[1] == s1;
    assert OtherSectionsAfter(sections, plane, 1) == [];
    assert OtherMaterialsAfter(sections, mats, plane, 1) == [];
    assert OtherMaterialsAsWritten(sections, mats, plane, 1) == [m0];
  }
}
