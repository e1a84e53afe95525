/**
 * One LOD of a skeletal mesh's render data and the two questions both
 * bone-filtered extractions ask of it: which original vertices are kept (their
 * weight for the target bone exceeds the threshold), and which original
 * triangles survive (all three corners were kept), remapped to the compact
 * numbering of the kept vertices.
 */
module SkeletalLod {
  import opened MeshCommon
  import opened SkinWeights

  /** The static vertex buffers of one vertex: position, normal (TangentZ), TangentX and UV channel 0. */
  datatype StaticVertex = StaticVertex(Position: Vec3, TangentZ: Vec3, TangentX: Vec3, UV0: Vec2)

  /** FSkeletalMeshLODRenderData. */
  datatype LodRenderData = LodRenderData(
    RenderSections: seq<RenderSection>,
    StaticVertices: seq<StaticVertex>,
    ColorBuffer: Option<seq<Color>>,
    IndexBuffer: seq<nat>,
    SkinWeights: Option<SkinWeightBuffer>,
    ActiveBoneIndices: seq<uint16>)

  function NumLodVertices(lod: LodRenderData): nat { |lod.StaticVertices| }

  /** The skin-weight buffer has at least one vertex. */
  predicate HasSkinWeights(lod: LodRenderData)
  {
    lod.SkinWeights.Some? && NumSkinVertices(lod.SkinWeights.value) > 0
  }

  /** Every vertex of the section can be looked up in `buf`. */
  predicate SectionReadable(sec: RenderSection, buf: Option<SkinWeightBuffer>)
  {
    buf.None? || NumSkinVertices(buf.value) == 0 || sec.BaseVertexIndex + sec.NumVertices <= NumSkinVertices(buf.value)
  }

  predicate SectionsReadable(sections: seq<RenderSection>, buf: Option<SkinWeightBuffer>)
  {
    forall s | 0 <= s < |sections| :: SectionReadable(sections[s], buf)
  }

  /**
   * The engine's layout of a LOD: every section's vertex range lies inside the
   * static vertex buffers and inside the skin-weight buffer when that has vertices.
   */
  predicate WellFormedLod(lod: LodRenderData)
  {
    SectionsReadable(lod.RenderSections, lod.SkinWeights)
    && forall s | 0 <= s < |lod.RenderSections| ::
         lod.RenderSections[s].BaseVertexIndex + lod.RenderSections[s].NumVertices <= |lod.StaticVertices|
  }

  // ------------------------------------------------------------ reference skeleton

  /** FReferenceSkeleton: bone names and each bone's parent index (INDEX_NONE for the root). */
  datatype ReferenceSkeleton = ReferenceSkeleton(BoneNames: seq<FName>, ParentIndices: seq<int>)

  /** The skeleton's tables line up and every bone's parent is INDEX_NONE (the root) or an earlier bone. */
  predicate WellFormedSkeleton(sk: ReferenceSkeleton)
  {
    |sk.ParentIndices| == |sk.BoneNames|
    && forall b | 0 <= b < |sk.ParentIndices| :: sk.ParentIndices[b] == INDEX_NONE || 0 <= sk.ParentIndices[b] < b
  }

  /** FReferenceSkeleton::FindBoneIndex: the first bone with that name; INDEX_NONE for NAME_None or an unknown name. */
  function FindBoneIndex(sk: ReferenceSkeleton, name: FName): (r: int)
    ensures r == INDEX_NONE || (0 <= r < |sk.BoneNames| && sk.BoneNames[r] == name)
    ensures r == INDEX_NONE <==> name == NameNone || name !in sk.BoneNames
    ensures r != INDEX_NONE ==> forall b | 0 <= b < r :: sk.BoneNames[b] != name
  {
    if name == NameNone then INDEX_NONE else FindBoneFrom(sk.BoneNames, name, 0)
  }

  function FindBoneFrom(names: seq<FName>, name: FName, i: nat): (r: int)
    requires i <= |names|
    ensures r == INDEX_NONE || (i <= r < |names| && names[r] == name)
    ensures r == INDEX_NONE <==> name !in names[i..]
    ensures r != INDEX_NONE ==> forall b | i <= b < r :: names[b] != name
    decreases |names| - i
  {
    if i == |names| then INDEX_NONE
    else if names[i] == name then i
    else FindBoneFrom(names, name, i + 1)
  }

  /** FReferenceSkeleton::GetParentIndex. */
  function ParentIndex(sk: ReferenceSkeleton, bone: nat): (r: int)
    requires WellFormedSkeleton(sk) && bone < |sk.BoneNames|
    ensures r == INDEX_NONE || 0 <= r < bone
  {
    sk.ParentIndices[bone]
  }

  // ------------------------------------------------------------ kept vertices

  /** The filter's test for one vertex of a section. */
  predicate KeepsVertex(sec: RenderSection, buf: Option<SkinWeightBuffer>, target: int, threshold: real, v: int)
    requires Readable(buf, v)
  {
    BoneWeightOf(buf, sec, v, target) > threshold
  }

  /** The original indices of the first `i` vertices of the section that pass the filter, in order. */
  function KeptInSection(sec: RenderSection, buf: Option<SkinWeightBuffer>, target: int, threshold: real, i: nat): seq<nat>
    requires i <= sec.NumVertices && SectionReadable(sec, buf)
  {
    if i == 0 then []
    else KeptInSection(sec, buf, target, threshold, i - 1)
         + (if KeepsVertex(sec, buf, target, threshold, sec.BaseVertexIndex + i - 1)
            then [sec.BaseVertexIndex + i - 1] else [])
  }

  /** The original indices of every kept vertex, section by section: the extraction's output order. */
  function KeptVertices(sections: seq<RenderSection>, buf: Option<SkinWeightBuffer>, target: int, threshold: real): seq<nat>
    requires SectionsReadable(sections, buf)
  {
    if |sections| == 0 then []
    else KeptVertices(sections[..|sections| - 1], buf, target, threshold)
         + KeptInSection(sections[|sections| - 1], buf, target, threshold, sections[|sections| - 1].NumVertices)
  }

  /** A vertex of a section is kept by the section's scan exactly when it passes the filter. */
  lemma {:induction false} KeptInSectionMembership(sec: RenderSection, buf: Option<SkinWeightBuffer>, target: int, threshold: real, i: nat)
    requires i <= sec.NumVertices && SectionReadable(sec, buf)
    ensures forall v :: v in KeptInSection(sec, buf, target, threshold, i) <==>
      sec.BaseVertexIndex <= v < sec.BaseVertexIndex + i && KeepsVertex(sec, buf, target, threshold, v)
  {
    if i > 0 {
      KeptInSectionMembership(sec, buf, target, threshold, i - 1);
    }
  }

  /**
   * Every kept vertex is a vertex of some section that passes that section's
   * filter, and every such vertex is kept.
   */
  lemma {:induction false} KeptVerticesMembership(sections: seq<RenderSection>, buf: Option<SkinWeightBuffer>, target: int, threshold: real)
    requires SectionsReadable(sections, buf)
    ensures forall v :: v in KeptVertices(sections, buf, target, threshold) <==>
      exists s | 0 <= s < |sections| :: Holds(sections[s], v) && KeepsVertex(sections[s], buf, target, threshold, v)
  {
    if |sections| > 0 {
      var init := sections[..|sections| - 1];
      var last := sections[|sections| - 1];
      KeptVerticesMembership(init, buf, target, threshold);
      KeptInSectionMembership(last, buf, target, threshold, last.NumVertices);
      forall v ensures v in KeptVertices(sections, buf, target, threshold) <==>
        exists s | 0 <= s < |sections| :: Holds(sections[s], v) && KeepsVertex(sections[s], buf, target, threshold, v)
      {
        if v in KeptVertices(sections, buf, target, threshold) {
          if v in KeptVertices(init, buf, target, threshold) {
            var s :| 0 <= s < |init| && Holds(init[s], v) && KeepsVertex(init[s], buf, target, threshold, v);
            assert sections[s] == init[s];
          } else {
            assert Holds(sections[|sections| - 1], v);
          }
        }
        if exists s | 0 <= s < |sections| :: Holds(sections[s], v) && KeepsVertex(sections[s], buf, target, threshold, v) {
          var s :| 0 <= s < |sections| && Holds(sections[s], v) && KeepsVertex(sections[s], buf, target, threshold, v);
          if s < |init| {
            assert init[s] == sections[s];
          }
        }
      }
    }
  }

  /** Kept vertices index the LOD's vertex buffers. */
  lemma {:induction false} KeptVerticesInLod(lod: LodRenderData, buf: Option<SkinWeightBuffer>, target: int, threshold: real)
    requires WellFormedLod(lod) && SectionsReadable(lod.RenderSections, buf)
    ensures forall k | 0 <= k < |KeptVertices(lod.RenderSections, buf, target, threshold)| ::
      KeptVertices(lod.RenderSections, buf, target, threshold)[k] < NumLodVertices(lod)
  {
    var kept := KeptVertices(lod.RenderSections, buf, target, threshold);
    KeptVerticesMembership(lod.RenderSections, buf, target, threshold);
    forall k | 0 <= k < |kept| ensures kept[k] < NumLodVertices(lod) {
      assert kept[k] in kept;
      var s :| 0 <= s < |lod.RenderSections| && Holds(lod.RenderSections[s], kept[k])
        && KeepsVertex(lod.RenderSections[s], buf, target, threshold, kept[k]);
    }
  }

  /**
   * With INDEX_NONE as the target bone (no bone name, or a name the skeleton
   * lacks) every lookup yields -1, so no vertex passes a threshold of -1 or more.
   */
  lemma {:induction false} NoBoneKeepsNothing(sections: seq<RenderSection>, buf: Option<SkinWeightBuffer>, threshold: real)
    requires SectionsReadable(sections, buf) && threshold >= -1.0
    ensures KeptVertices(sections, buf, INDEX_NONE, threshold) == []
  {
    KeptVerticesMembership(sections, buf, INDEX_NONE, threshold);
    var kept := KeptVertices(sections, buf, INDEX_NONE, threshold);
    if |kept| > 0 {
      assert kept[0] in kept;
      var s :| 0 <= s < |sections| && Holds(sections[s], kept[0]) && KeepsVertex(sections[s], buf, INDEX_NONE, threshold, kept[0]);
      NoBoneHasNoWeight(buf, sections[s], kept[0]);
      assert false;
    }
  }

  /**
   * Without a skin-weight buffer every lookup yields -1: the filter keeps all
   * vertices of every section when the threshold is below -1, and none otherwise.
   */
  lemma {:induction false} NoBufferAllOrNothing(sec: RenderSection, target: int, threshold: real, i: nat)
    requires i <= sec.NumVertices
    ensures threshold >= -1.0 ==> KeptInSection(sec, None, target, threshold, i) == []
    ensures threshold < -1.0 ==> KeptInSection(sec, None, target, threshold, i)
                                 == seq(i, j requires 0 <= j < i => sec.BaseVertexIndex + j)
  {
    if i > 0 {
      NoBufferAllOrNothing(sec, target, threshold, i - 1);
    }
  }

  // ------------------------------------------------------------ section order

  /** The one-past-the-end vertex of a section's range. */
  function SectionEnd(sec: RenderSection): nat { sec.BaseVertexIndex + sec.NumVertices }

  /** The engine's layout of render sections: consecutive, non-overlapping vertex ranges in ascending order. */
  predicate SectionsAscending(sections: seq<RenderSection>)
  {
    forall s | 0 < s < |sections| :: SectionEnd(sections[s - 1]) <= sections[s].BaseVertexIndex
  }

  /** A section's scan lists its kept vertices in increasing order, all inside its first `i` vertices. */
  lemma {:induction false} KeptInSectionIncreasing(sec: RenderSection, buf: Option<SkinWeightBuffer>, target: int, threshold: real, i: nat)
    requires i <= sec.NumVertices && SectionReadable(sec, buf)
    ensures StrictlyIncreasing(KeptInSection(sec, buf, target, threshold, i))
    ensures forall k | 0 <= k < |KeptInSection(sec, buf, target, threshold, i)| ::
      sec.BaseVertexIndex <= KeptInSection(sec, buf, target, threshold, i)[k] < sec.BaseVertexIndex + i
  {
    if i > 0 {
      KeptInSectionIncreasing(sec, buf, target, threshold, i - 1);
    }
  }

  /** Two increasing lists, every element of the first below every element of the second, concatenate to an increasing list. */
  lemma ConcatIncreasing(a: seq<nat>, b: seq<nat>, bound: nat)
    requires StrictlyIncreasing(a) && StrictlyIncreasing(b)
    requires forall k | 0 <= k < |a| :: a[k] < bound
    requires forall k | 0 <= k < |b| :: bound <= b[k]
    ensures StrictlyIncreasing(a + b)
  {
    forall i, j | 0 <= i < j < |a + b| ensures (a + b)[i] < (a + b)[j] {
      if j < |a| {
      } else if i >= |a| {
        assert (a + b)[i] == b[i - |a|] && (a + b)[j] == b[j - |a|];
      } else {
        assert (a + b)[i] == a[i] && (a + b)[j] == b[j - |a|];
      }
    }
  }

  /**
   * With ascending sections the extraction meets every original vertex at
   * most once: the kept list is strictly increasing and ends before the last
   * section does.
   */
  lemma {:induction false} KeptVerticesIncreasing(sections: seq<RenderSection>, buf: Option<SkinWeightBuffer>, target: int, threshold: real)
    requires SectionsReadable(sections, buf) && SectionsAscending(sections)
    ensures StrictlyIncreasing(KeptVertices(sections, buf, target, threshold))
    ensures |sections| > 0 ==> forall k | 0 <= k < |KeptVertices(sections, buf, target, threshold)| ::
      KeptVertices(sections, buf, target, threshold)[k] < SectionEnd(sections[|sections| - 1])
  {
    if |sections| > 0 {
      var init := sections[..|sections| - 1];
      var last := sections[|sections| - 1];
      assert SectionsAscending(init) by {
        forall s | 0 < s < |init| ensures SectionEnd(init[s - 1]) <= init[s].BaseVertexIndex {
          assert init[s - 1] == sections[s - 1] && init[s] == sections[s];
        }
      }
      KeptVerticesIncreasing(init, buf, target, threshold);
      KeptInSectionIncreasing(last, buf, target, threshold, last.NumVertices);
      var a := KeptVertices(init, buf, target, threshold);
      var b := KeptInSection(last, buf, target, threshold, last.NumVertices);
      if |init| > 0 {
        assert SectionEnd(init[|init| - 1]) <= last.BaseVertexIndex;
      }
      ConcatIncreasing(a, b, last.BaseVertexIndex);
    }
  }

  // ------------------------------------------------------------ surviving triangles

  /** The index-buffer offset of the section's triangle `t`. */
  function TriangleOffset(sec: RenderSection, t: nat): nat { sec.BaseIndex + 3 * t }

  /** Triangle `t` of the section can be read and all three corners were kept. */
  predicate Survives(ib: seq<nat>, sec: RenderSection, m: map<nat, nat>, t: nat)
  {
    var o := TriangleOffset(sec, t);
    o + 2 < |ib| && ib[o] in m && ib[o + 1] in m && ib[o + 2] in m
  }

  /** The remapped corners of the first `t` triangles of the section that survive. */
  function RemapTriangles(ib: seq<nat>, sec: RenderSection, m: map<nat, nat>, t: nat): seq<nat>
  {
    if t == 0 then []
    else RemapTriangles(ib, sec, m, t - 1)
         + (if Survives(ib, sec, m, t - 1) then
              var o := TriangleOffset(sec, t - 1); [m[ib[o]], m[ib[o + 1]], m[ib[o + 2]]]
            else [])
  }

  /** The numbers, in order, of the first `t` triangles of the section that survive. */
  function SurvivingTriangles(ib: seq<nat>, sec: RenderSection, m: map<nat, nat>, t: nat): seq<nat>
  {
    if t == 0 then []
    else SurvivingTriangles(ib, sec, m, t - 1) + (if Survives(ib, sec, m, t - 1) then [t - 1] else [])
  }

  /**
   * The rebuilt index list is exactly the surviving triangles, in order, each
   * with its three corners renumbered through the map; a triangle is listed
   * exactly when it survives.
   */
  lemma {:induction false} RemapTrianglesMeaning(ib: seq<nat>, sec: RenderSection, m: map<nat, nat>, t: nat)
    ensures var r := RemapTriangles(ib, sec, m, t); var s := SurvivingTriangles(ib, sec, m, t);
      |r| == 3 * |s|
      && (forall j | 0 <= j < |s| ::
            Survives(ib, sec, m, s[j])
            && r[3 * j] == m[ib[TriangleOffset(sec, s[j])]]
            && r[3 * j + 1] == m[ib[TriangleOffset(sec, s[j]) + 1]]
            && r[3 * j + 2] == m[ib[TriangleOffset(sec, s[j]) + 2]])
      && (forall u: nat :: u in s <==> u < t && Survives(ib, sec, m, u))
  {
    hide Survives;
    hide TriangleOffset;
    if t > 0 {
      RemapTrianglesMeaning(ib, sec, m, t - 1);
    }
  }

  /** Renumbered corners index the compact vertex list when every map value does. */
  lemma {:induction false} RemapTrianglesBounded(ib: seq<nat>, sec: RenderSection, m: map<nat, nat>, t: nat, bound: nat)
    requires forall v | v in m :: m[v] < bound
    ensures forall k | 0 <= k < |RemapTriangles(ib, sec, m, t)| :: RemapTriangles(ib, sec, m, t)[k] < bound
    ensures |RemapTriangles(ib, sec, m, t)| % 3 == 0
  {
    if t > 0 {
      RemapTrianglesBounded(ib, sec, m, t - 1, bound);
    }
  }

  // ------------------------------------------------------------ extraction result

  /**
   * The arrays an extraction fills for CreateMeshSection: per kept vertex a
   * position, normal, TangentX (tangent-Y flip always false) and UV, the
   * colour array, and per render section its material index and rebuilt indices.
   * A colour slot holding None was sized but never written (SetNumUninitialized).
   */
  datatype FilteredMesh = FilteredMesh(
    Vertices: seq<Vec3>, Normals: seq<Vec3>, Tangents: seq<Vec3>, UV0: seq<Vec2>,
    VertexColors: seq<Option<LinearColor>>,
    SectionMaterialIndices: seq<int>, SectionIndices: seq<seq<nat>>)

  const NoMesh: FilteredMesh := FilteredMesh([], [], [], [], [], [], [])

  /** The per-vertex arrays of `mesh` are the static data of the original vertices `kept`, in order. */
  ghost predicate CopiesVertices(mesh: FilteredMesh, lod: LodRenderData, kept: seq<nat>)
  {
    |mesh.Vertices| == |mesh.Normals| == |mesh.Tangents| == |mesh.UV0| == |kept|
    && forall j | 0 <= j < |kept| ::
         kept[j] < |lod.StaticVertices|
         && mesh.Vertices[j] == lod.StaticVertices[kept[j]].Position
         && mesh.Normals[j] == lod.StaticVertices[kept[j]].TangentZ
         && mesh.Tangents[j] == lod.StaticVertices[kept[j]].TangentX
         && mesh.UV0[j] == lod.StaticVertices[kept[j]].UV0
  }

  /** Every render section keeps its slot, its material index and its surviving triangles. */
  ghost predicate RebuildsSections(mesh: FilteredMesh, lod: LodRenderData, m: map<nat, nat>)
  {
    |mesh.SectionMaterialIndices| == |mesh.SectionIndices| == |lod.RenderSections|
    && forall s | 0 <= s < |lod.RenderSections| ::
         mesh.SectionMaterialIndices[s] == lod.RenderSections[s].MaterialIndex
         && mesh.SectionIndices[s] == RemapTriangles(lod.IndexBuffer, lod.RenderSections[s], m, lod.RenderSections[s].NumTriangles)
  }

  /** Some render section kept at least one triangle. */
  predicate AnyTriangles(sectionIndices: seq<seq<nat>>)
  {
    exists s | 0 <= s < |sectionIndices| :: |sectionIndices[s]| > 0
  }

  /** Colour slots sized to the LOD's vertex count when copying colours from an initialised buffer. */
  function PresizedColors(lod: LodRenderData, copyVertexColors: bool): seq<Option<LinearColor>>
  {
    if copyVertexColors && lod.ColorBuffer.Some? then seq(NumLodVertices(lod), _ => None) else []
  }

  /** The LOD an operation works on exists: the asset has render data and the LOD index is valid. */
  predicate LodExists(renderData: Option<seq<LodRenderData>>, lodIndex: int)
  {
    renderData.Some? && 0 <= lodIndex < |renderData.value|
  }

  /** Every section's triangles lie inside the LOD's index buffer (read without a bounds check). */
  predicate IndexBufferCovers(lod: LodRenderData)
  {
    forall s | 0 <= s < |lod.RenderSections| ::
      lod.RenderSections[s].BaseIndex + 3 * lod.RenderSections[s].NumTriangles <= |lod.IndexBuffer|
  }

  // ------------------------------------------------------------ the two passes both extractions make

  /** The extraction's vertex pass: section by section, every vertex that passes the filter is appended and numbered. */
  method CopyKeptVertices(lod: LodRenderData, buf: Option<SkinWeightBuffer>, target: int, threshold: real)
    returns (vertices: seq<Vec3>, normals: seq<Vec3>, tangents: seq<Vec3>, uvs: seq<Vec2>,
             oldToNew: map<nat, nat>, originals: seq<nat>)
    requires WellFormedLod(lod) && SectionsReadable(lod.RenderSections, buf)
    ensures originals == KeptVertices(lod.RenderSections, buf, target, threshold)
    ensures CopiesVertices(FilteredMesh(vertices, normals, tangents, uvs, [], [], []), lod, KeptVertices(lod.RenderSections, buf, target, threshold))
    ensures oldToNew == CompactIndexOf(KeptVertices(lod.RenderSections, buf, target, threshold))
    ensures |vertices| == |originals|
  {
    var acc := NoMesh;
    oldToNew, originals := map[], [];
    var sections := lod.RenderSections;
    for s := 0 to |sections|
      invariant originals == KeptVertices(sections[..s], buf, target, threshold)
      invariant CopiesVertices(acc, lod, originals) && oldToNew == CompactIndexOf(originals)
      invariant acc.VertexColors == [] && acc.SectionMaterialIndices == [] && acc.SectionIndices == []
    {
      hide CopiesVertices;
      hide CompactIndexOf;
      hide KeptVertices;
      KeptVerticesSnoc(sections, buf, target, threshold, s);
      acc, oldToNew, originals := CopySectionVertices(lod, buf, target, threshold, sections[s], acc, oldToNew, originals);
    }
    assert sections[..|sections|] == sections;
    vertices, normals, tangents, uvs := acc.Vertices, acc.Normals, acc.Tangents, acc.UV0;
  }

  /** The kept vertices of one more section follow those of the sections before it. */
  lemma KeptVerticesSnoc(sections: seq<RenderSection>, buf: Option<SkinWeightBuffer>, target: int, threshold: real, s: nat)
    requires SectionsReadable(sections, buf) && s < |sections|
    ensures SectionReadable(sections[s], buf) && SectionsReadable(sections[..s], buf) && SectionsReadable(sections[..s + 1], buf)
    ensures KeptVertices(sections[..s + 1], buf, target, threshold)
            == KeptVertices(sections[..s], buf, target, threshold) + KeptInSection(sections[s], buf, target, threshold, sections[s].NumVertices)
  {
    assert sections[..s + 1][..s] == sections[..s];
  }

  /** The vertex pass over one section: kept vertices are appended after `kept`, numbered from the counter on. */
  method CopySectionVertices(lod: LodRenderData, buf: Option<SkinWeightBuffer>, target: int, threshold: real,
                             sec: RenderSection, acc: FilteredMesh, oldToNew: map<nat, nat>, kept: seq<nat>)
    returns (next: FilteredMesh, nextOldToNew: map<nat, nat>, k: seq<nat>)
    requires SectionReadable(sec, buf) && sec.BaseVertexIndex + sec.NumVertices <= |lod.StaticVertices|
    requires CopiesVertices(acc, lod, kept) && oldToNew == CompactIndexOf(kept)
    ensures k == kept + KeptInSection(sec, buf, target, threshold, sec.NumVertices)
    ensures CopiesVertices(next, lod, kept + KeptInSection(sec, buf, target, threshold, sec.NumVertices))
    ensures nextOldToNew == CompactIndexOf(kept + KeptInSection(sec, buf, target, threshold, sec.NumVertices))
    ensures next.VertexColors == acc.VertexColors && next.SectionMaterialIndices == acc.SectionMaterialIndices
    ensures next.SectionIndices == acc.SectionIndices
  {
    next, nextOldToNew := acc, oldToNew;
    var counter: nat := |acc.Vertices|;
    k := kept;
    assert kept + [] == kept;
    for i := 0 to sec.NumVertices
      invariant SectionCopied(lod, buf, target, threshold, sec, acc, kept, i, next, nextOldToNew, k)
      invariant counter == |next.Vertices|
    {
      hide SectionCopied;
      next, nextOldToNew, k, counter := CopyVertexStep(lod, buf, target, threshold, sec, acc, kept, i, next, nextOldToNew, k, counter);
    }
  }

  /** The first `i` vertices of a section have been passed: the kept ones appended after `kept` and numbered. */
  ghost predicate SectionCopied(lod: LodRenderData, buf: Option<SkinWeightBuffer>, target: int, threshold: real,
                                sec: RenderSection, acc: FilteredMesh, kept: seq<nat>, i: nat,
                                next: FilteredMesh, nextOldToNew: map<nat, nat>, k: seq<nat>)
    requires i <= sec.NumVertices && SectionReadable(sec, buf)
  {
    k == kept + KeptInSection(sec, buf, target, threshold, i)
    && CopiesVertices(next, lod, k) && nextOldToNew == CompactIndexOf(k)
    && next.VertexColors == acc.VertexColors && next.SectionMaterialIndices == acc.SectionMaterialIndices
    && next.SectionIndices == acc.SectionIndices
  }

  /** Vertex `i` of a section: appended and numbered when its weight on the bone passes the threshold. */
  method CopyVertexStep(lod: LodRenderData, buf: Option<SkinWeightBuffer>, target: int, threshold: real,
                        sec: RenderSection, ghost acc: FilteredMesh, ghost kept: seq<nat>, i: nat,
                        mesh: FilteredMesh, oldToNew: map<nat, nat>, k: seq<nat>, counter: nat)
    returns (next: FilteredMesh, nextOldToNew: map<nat, nat>, nextK: seq<nat>, nextCounter: nat)
    requires SectionReadable(sec, buf) && i < sec.NumVertices && sec.BaseVertexIndex + sec.NumVertices <= |lod.StaticVertices|
    requires SectionCopied(lod, buf, target, threshold, sec, acc, kept, i, mesh, oldToNew, k) && counter == |mesh.Vertices|
    ensures SectionCopied(lod, buf, target, threshold, sec, acc, kept, i + 1, next, nextOldToNew, nextK)
    ensures nextCounter == |next.Vertices|
  {
    hide CopiesVertices;
    hide CompactIndexOf;
    next, nextOldToNew, nextK, nextCounter := mesh, oldToNew, k, counter;
    var original := sec.BaseVertexIndex + i;
    var weight := GetBoneWeightForVertex(original, target, sec, buf);
    if weight > threshold {
      ghost var before := KeptInSection(sec, buf, target, threshold, i);
      assert KeptInSection(sec, buf, target, threshold, i + 1) == before + [original];
      assert kept + (before + [original]) == (kept + before) + [original];
      next, nextOldToNew := AppendVertex(lod, mesh, oldToNew, k, original);
      nextCounter := counter + 1;
      nextK := k + [original];
    } else {
      assert KeptInSection(sec, buf, target, threshold, i + 1) == KeptInSection(sec, buf, target, threshold, i);
    }
  }

  /** Appending one original vertex: its static data is copied and it is numbered next. */
  method AppendVertex(lod: LodRenderData, mesh: FilteredMesh, oldToNew: map<nat, nat>, ghost kept: seq<nat>, v: nat)
    returns (next: FilteredMesh, nextOldToNew: map<nat, nat>)
    requires CopiesVertices(mesh, lod, kept) && oldToNew == CompactIndexOf(kept) && v < |lod.StaticVertices|
    ensures CopiesVertices(next, lod, kept + [v]) && nextOldToNew == CompactIndexOf(kept + [v])
    ensures |next.Vertices| == |mesh.Vertices| + 1
    ensures next.VertexColors == mesh.VertexColors && next.SectionMaterialIndices == mesh.SectionMaterialIndices
    ensures next.SectionIndices == mesh.SectionIndices
  {
    var sv := lod.StaticVertices[v];
    next := mesh.(Vertices := mesh.Vertices + [sv.Position], Normals := mesh.Normals + [sv.TangentZ],
                  Tangents := mesh.Tangents + [sv.TangentX], UV0 := mesh.UV0 + [sv.UV0]);
    nextOldToNew := oldToNew[v := |mesh.Vertices|];
    CompactIndexOfAppend(kept, v);
  }

  /**
   * The extraction's index pass: every render section keeps its material and
   * its surviving, renumbered triangles. A triangle whose last index lies past
   * the index buffer is skipped (USlicingSkelMeshComponent checks this; in
   * USkelToProcMeshComponent, which reads without a check, the caller's index
   * buffer always covers the sections).
   */
  method RebuildSectionIndices(lod: LodRenderData, oldToNew: map<nat, nat>)
    returns (materialIndices: seq<int>, sectionIndices: seq<seq<nat>>)
    ensures RebuildsSections(FilteredMesh([], [], [], [], [], materialIndices, sectionIndices), lod, oldToNew)
  {
    var sections := lod.RenderSections;
    var ib := lod.IndexBuffer;
    materialIndices := seq(|sections|, _ => 0);
    sectionIndices := seq(|sections|, _ => []);
    for s := 0 to |sections|
      invariant |sectionIndices| == |materialIndices| == |sections|
      invariant forall p | 0 <= p < s :: materialIndices[p] == sections[p].MaterialIndex
      invariant forall p | 0 <= p < s :: sectionIndices[p] == RemapTriangles(ib, sections[p], oldToNew, sections[p].NumTriangles)
    {
      var sec := sections[s];
      var current: seq<nat> := [];
      for t := 0 to sec.NumTriangles
        invariant current == RemapTriangles(ib, sec, oldToNew, t)
      {
        var offset := TriangleOffset(sec, t);
        if offset + 2 >= |ib| {
          continue;
        }
        var v0, v1, v2 := ib[offset], ib[offset + 1], ib[offset + 2];
        if v0 in oldToNew && v1 in oldToNew && v2 in oldToNew {
          current := current + [oldToNew[v0], oldToNew[v1], oldToNew[v2]];
        }
      }
      materialIndices := materialIndices[s := sec.MaterialIndex];
      sectionIndices := sectionIndices[s := current];
    }
  }

  /** Whether any section kept a triangle. */
  method FindAnyTriangles(sectionIndices: seq<seq<nat>>) returns (found: bool)
    ensures found == AnyTriangles(sectionIndices)
  {
    found := false;
    var s := 0;
    while s < |sectionIndices|
      invariant 0 <= s <= |sectionIndices|
      invariant forall p | 0 <= p < s :: |sectionIndices[p]| == 0
    {
      if |sectionIndices[s]| > 0 {
        return true;
      }
      s := s + 1;
    }
  }
}
