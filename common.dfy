/**
 * Values shared by the skeletal-mesh extraction, slicing and skinning models:
 * engine vectors, colours, bounding boxes, planes and procedural-mesh sections.
 * Floating point is modelled by `real`; NaN is modelled only where the source
 * tests for it (see PlaneSlicer.InterpolateVert).
 */
module MeshCommon {

  datatype Option<T> = None | Some(value: T)

  /** Unreal's INDEX_NONE sentinel for "no bone" / "not found". */
  const INDEX_NONE: int := -1

  /** Unreal's KINDA_SMALL_NUMBER. */
  const KINDA_SMALL_NUMBER: real := 0.0001

  /** The range of an unsigned 16-bit engine integer (bone indices, raw weights). */
  type uint16 = x: int | 0 <= x < 0x1_0000

  /** An 8-bit colour channel. */
  type byte = x: int | 0 <= x < 0x100

  /** Unsigned 32-bit arithmetic wraps modulo 2^32. */
  function Wrap32(x: int): (r: nat)
    ensures r < 0x1_0000_0000
    ensures 0 <= x < 0x1_0000_0000 ==> r == x
  {
    x % 0x1_0000_0000
  }

  // ---------------------------------------------------------------- vectors

  datatype Vec3 = Vec3(X: real, Y: real, Z: real)
  datatype Vec2 = Vec2(X: real, Y: real)

  const Zero3: Vec3 := Vec3(0.0, 0.0, 0.0)

  function Add3(a: Vec3, b: Vec3): Vec3 { Vec3(a.X + b.X, a.Y + b.Y, a.Z + b.Z) }
  function Sub3(a: Vec3, b: Vec3): Vec3 { Vec3(a.X - b.X, a.Y - b.Y, a.Z - b.Z) }
  function Neg3(a: Vec3): Vec3 { Vec3(-a.X, -a.Y, -a.Z) }
  function Dot(a: Vec3, b: Vec3): real { a.X * b.X + a.Y * b.Y + a.Z * b.Z }
  function Cross(a: Vec3, b: Vec3): Vec3
  {
    Vec3(a.Y * b.Z - a.Z * b.Y, a.Z * b.X - a.X * b.Z, a.X * b.Y - a.Y * b.X)
  }

  /** FMath::Lerp: A + Alpha * (B - A). */
  function Lerp(a: real, b: real, t: real): real { a + t * (b - a) }
  function Lerp3(a: Vec3, b: Vec3, t: real): Vec3
  {
    Vec3(Lerp(a.X, b.X, t), Lerp(a.Y, b.Y, t), Lerp(a.Z, b.Z, t))
  }
  function Lerp2(a: Vec2, b: Vec2, t: real): Vec2
  {
    Vec2(Lerp(a.X, b.X, t), Lerp(a.Y, b.Y, t))
  }

  function Abs(x: real): real { if x < 0.0 then -x else x }

  /** FMath::Clamp. */
  function ClampReal(x: real, lo: real, hi: real): real
  {
    if x < lo then lo else if x > hi then hi else x
  }

  // ---------------------------------------------------------------- colours

  /** FColor: four 8-bit channels. */
  datatype Color = Color(R: byte, G: byte, B: byte, A: byte)

  /** FLinearColor: four float channels. */
  datatype LinearColor = LinearColor(R: real, G: real, B: real, A: real)

  const White: LinearColor := LinearColor(1.0, 1.0, 1.0, 1.0)

  /** FColor::ReinterpretAsLinear: every channel divided by 255. */
  function ReinterpretAsLinear(c: Color): LinearColor
  {
    LinearColor(c.R as real / 255.0, c.G as real / 255.0, c.B as real / 255.0, c.A as real / 255.0)
  }

  // ---------------------------------------------------------------- boxes and planes

  /** FBox: a possibly-invalid axis-aligned box. */
  datatype Box = Box(Min: Vec3, Max: Vec3, IsValid: bool)

  const EmptyBox: Box := Box(Zero3, Zero3, false)

  /** FBox::operator+=(FVector): grow the box to hold `p`. */
  function BoxAdd(b: Box, p: Vec3): Box
  {
    if b.IsValid then
      Box(Vec3(Min(b.Min.X, p.X), Min(b.Min.Y, p.Y), Min(b.Min.Z, p.Z)),
          Vec3(Max(b.Max.X, p.X), Max(b.Max.Y, p.Y), Max(b.Max.Z, p.Z)), true)
    else
      Box(p, p, true)
  }

  /** The grown box holds the new point and everything the old box held. */
  lemma BoxAddGrows(b: Box, p: Vec3)
    ensures InBox(BoxAdd(b, p), p)
    ensures forall q :: InBox(b, q) ==> InBox(BoxAdd(b, p), q)
  {
  }

  function Min(a: real, b: real): real { if a <= b then a else b }
  function Max(a: real, b: real): real { if a >= b then a else b }

  ghost predicate InBox(b: Box, p: Vec3)
  {
    b.IsValid && b.Min.X <= p.X <= b.Max.X && b.Min.Y <= p.Y <= b.Max.Y && b.Min.Z <= p.Z <= b.Max.Z
  }

  /** FBox::GetCenter. */
  function BoxCenter(b: Box): Vec3
  {
    Vec3((b.Min.X + b.Max.X) / 2.0, (b.Min.Y + b.Max.Y) / 2.0, (b.Min.Z + b.Max.Z) / 2.0)
  }

  /** FBox::GetExtent. */
  function BoxExtent(b: Box): Vec3
  {
    Vec3((b.Max.X - b.Min.X) / 2.0, (b.Max.Y - b.Min.Y) / 2.0, (b.Max.Z - b.Min.Z) / 2.0)
  }

  /** FPlane: points P with Dot(Normal, P) == W. */
  datatype Plane = Plane(Normal: Vec3, W: real)

  /** FPlane(InBase, InNormal). */
  function PlaneThrough(base: Vec3, normal: Vec3): Plane { Plane(normal, Dot(base, normal)) }

  /** FPlane::PlaneDot: signed distance (scaled by the normal's length). */
  function PlaneDot(pl: Plane, p: Vec3): real { Dot(pl.Normal, p) - pl.W }

  /** FPlane::Flip. */
  function FlipPlane(pl: Plane): Plane { Plane(Neg3(pl.Normal), -pl.W) }

  // ---------------------------------------------------------------- procedural meshes

  /** FProcMeshVertex. */
  datatype ProcMeshVertex = ProcMeshVertex(
    Position: Vec3, Normal: Vec3, TangentX: Vec3, FlipTangentY: bool, UV0: Vec2, Color: Color)

  /** FProcMeshSection: vertex buffer, index buffer (three per triangle) and local bounds. */
  datatype ProcMeshSection = ProcMeshSection(Vertices: seq<ProcMeshVertex>, Indices: seq<nat>, LocalBox: Box)

  /** A freshly constructed (or reset) section. */
  const EmptySection: ProcMeshSection := ProcMeshSection([], [], EmptyBox)

  /** A renderable section: whole triangles whose corners index its own vertex buffer. */
  ghost predicate ValidSection(s: ProcMeshSection)
  {
    |s.Indices| % 3 == 0 && forall k | 0 <= k < |s.Indices| :: s.Indices[k] < |s.Vertices|
  }

  /** The box `b` after `+= Position` for each vertex of `vs` in order. */
  function GrowBox(b: Box, vs: seq<ProcMeshVertex>): Box
  {
    if |vs| == 0 then b else BoxAdd(GrowBox(b, vs[..|vs| - 1]), vs[|vs| - 1].Position)
  }

  /** The box a section accumulates over its vertices in order, from the empty box. */
  function VertexBox(vs: seq<ProcMeshVertex>): Box
  {
    if |vs| == 0 then EmptyBox else BoxAdd(VertexBox(vs[..|vs| - 1]), vs[|vs| - 1].Position)
  }

  /** The accumulated box is the empty box grown over the vertices. */
  lemma {:induction false} VertexBoxGrows(vs: seq<ProcMeshVertex>)
    ensures VertexBox(vs) == GrowBox(EmptyBox, vs)
  {
    if |vs| > 0 {
      VertexBoxGrows(vs[..|vs| - 1]);
    }
  }

  /** A grown box holds every vertex it was grown over. */
  lemma {:induction false} GrowBoxHolds(b: Box, vs: seq<ProcMeshVertex>)
    ensures forall j | 0 <= j < |vs| :: InBox(GrowBox(b, vs), vs[j].Position)
    ensures forall q :: InBox(b, q) ==> InBox(GrowBox(b, vs), q)
  {
    if |vs| > 0 {
      var init := vs[..|vs| - 1];
      GrowBoxHolds(b, init);
      BoxAddGrows(GrowBox(b, init), vs[|vs| - 1].Position);
      forall j | 0 <= j < |vs|
        ensures InBox(GrowBox(b, vs), vs[j].Position)
      {
        if j < |vs| - 1 {
          assert vs[j] == init[j];
        }
      }
    }
  }

  /** Growing over two runs of vertices in turn is growing over both. */
  lemma {:induction false} GrowBoxAppend(b: Box, xs: seq<ProcMeshVertex>, ys: seq<ProcMeshVertex>)
    ensures GrowBox(GrowBox(b, xs), ys) == GrowBox(b, xs + ys)
  {
    if |ys| > 0 {
      GrowBoxAppend(b, xs, ys[..|ys| - 1]);
      assert (xs + ys)[..|xs + ys| - 1] == xs + ys[..|ys| - 1];
    } else {
      assert xs + ys == xs;
    }
  }

  /** UMaterialInterface*: a material asset or null. */
  datatype Material = NullMaterial | MaterialAsset(Id: nat)

  /** UPrimitiveComponent::SetMaterial: grows the override list with nulls when needed. */
  function SetMaterialAt(mats: seq<Material>, i: nat, m: Material): (r: seq<Material>)
    ensures |r| == if i < |mats| then |mats| else i + 1
    ensures r[i] == m
    ensures forall j | 0 <= j < |mats| && j != i :: r[j] == mats[j]
  {
    if i < |mats| then mats[i := m] else mats + seq(i - |mats|, _ => NullMaterial) + [m]
  }

  /** UPrimitiveComponent::GetMaterial: the override at `i`, or null past the end. */
  function MaterialAt(mats: seq<Material>, i: int): Material
  {
    if 0 <= i < |mats| then mats[i] else NullMaterial
  }

  // ---------------------------------------------------------------- sums

  function Sum(s: seq<real>): real
  {
    if |s| == 0 then 0.0 else Sum(s[..|s| - 1]) + s[|s| - 1]
  }

  // ---------------------------------------------------------------- compact renumbering

  /**
   * The old-to-new map built by `Add(Original, Counter++)` while copying the
   * selected vertices `kept` in order: later occurrences of an original index
   * overwrite earlier ones.
   */
  function CompactIndexOf(kept: seq<nat>): map<nat, nat>
  {
    if |kept| == 0 then map[] else CompactIndexOf(kept[..|kept| - 1])[kept[|kept| - 1] := |kept| - 1]
  }

  /** The map's keys are the kept vertices, and each points back to a position holding it. */
  lemma {:induction false} CompactIndexOfInverts(kept: seq<nat>)
    ensures forall v :: v in CompactIndexOf(kept) <==> v in kept
    ensures forall v | v in CompactIndexOf(kept) :: CompactIndexOf(kept)[v] < |kept| && kept[CompactIndexOf(kept)[v]] == v
  {
    if |kept| > 0 {
      CompactIndexOfInverts(kept[..|kept| - 1]);
      assert kept == kept[..|kept| - 1] + [kept[|kept| - 1]];
    }
  }

  /** Numbering one more kept vertex maps it to the next position. */
  lemma CompactIndexOfAppend(kept: seq<nat>, v: nat)
    ensures CompactIndexOf(kept + [v]) == CompactIndexOf(kept)[v := |kept|]
  {
    var s := kept + [v];
    assert s[..|s| - 1] == kept;
    assert s[|s| - 1] == v;
  }

  predicate StrictlyIncreasing(s: seq<nat>)
  {
    forall i, j | 0 <= i < j < |s| :: s[i] < s[j]
  }

  /** In a list without repeats, each element is numbered by its own position. */
  lemma {:induction false} CompactIndexOfPositions(kept: seq<nat>)
    requires StrictlyIncreasing(kept)
    ensures forall j | 0 <= j < |kept| :: kept[j] in CompactIndexOf(kept) && CompactIndexOf(kept)[kept[j]] == j
  {
    if |kept| > 0 {
      var init := kept[..|kept| - 1];
      CompactIndexOfPositions(init);
      forall j | 0 <= j < |kept| ensures kept[j] in CompactIndexOf(kept) && CompactIndexOf(kept)[kept[j]] == j {
        if j < |kept| - 1 {
          assert init[j] == kept[j];
        }
      }
    }
  }

  /** The new-to-old map: compact position `j` came from original vertex `kept[j]`. */
  function PositionMap(kept: seq<nat>): (m: map<nat, nat>)
    ensures forall j: nat :: j in m <==> j < |kept|
    ensures forall j: nat | j < |kept| :: m[j] == kept[j]
  {
    map j: nat | j < |kept| :: kept[j]
  }
}
