/**
 * USlicingSkelMeshComponent: the component that copies the part of a skeletal
 * mesh weighted to one bone into a procedural mesh, remembering for every
 * procedural vertex the skeletal vertex it was copied from, and that after the
 * slice checks the cut bone and its parent and records per-vertex weight maps
 * for the two fragments.
 */
module SlicingComponent {
  import opened MeshCommon
  import opened SkinWeights
  import opened SkeletalLod
  import opened WeightRemap

  /** FColor(0, 0, 0, 255) as a linear colour: the colour written for every kept vertex. */
  const OpaqueBlack: LinearColor := LinearColor(0.0, 0.0, 0.0, 1.0)

  /**
   * The buffer the filter's weight lookups read: none when the bone name is
   * NAME_None or unknown (filtering is switched off), the LOD's buffer otherwise.
   */
  function FilterBuffer(lod: LodRenderData, skeleton: ReferenceSkeleton, boneName: FName): Option<SkinWeightBuffer>
  {
    if FindBoneIndex(skeleton, boneName) == INDEX_NONE then None else lod.SkinWeights
  }

  /**
   * The filter's early exits: no asset or render data, an invalid LOD, an
   * empty skin-weight buffer while filtering, or a LOD without vertices.
   */
  predicate FilterRejects(hasAsset: bool, renderData: Option<seq<LodRenderData>>, lodIndex: int,
                          skeleton: ReferenceSkeleton, boneName: FName)
  {
    !hasAsset || !LodExists(renderData, lodIndex)
    || (FindBoneIndex(skeleton, boneName) != INDEX_NONE && !HasSkinWeights(renderData.value[lodIndex]))
    || NumLodVertices(renderData.value[lodIndex]) == 0
  }

  /** A name SliceMeshInternal may attach a fragment to: not NAME_None, and a socket or a bone of the mesh. */
  predicate AttachTargetValid(name: FName, sockets: set<FName>, skeleton: ReferenceSkeleton)
  {
    name != NameNone && (name in sockets || FindBoneIndex(skeleton, name) != INDEX_NONE)
  }

  /** The parent-bone name after the lookup: the parent's name, or the previous value for a root bone. */
  function ParentNameAfter(skeleton: ReferenceSkeleton, target: nat, current: FName): FName
    requires WellFormedSkeleton(skeleton) && target < |skeleton.BoneNames|
  {
    var parent := ParentIndex(skeleton, target);
    if parent == INDEX_NONE then current else skeleton.BoneNames[parent]
  }

  /**
   * Without a filtering bone every lookup reads no buffer and yields -1, so no
   * vertex passes a threshold of -1 or more.
   */
  lemma {:induction false} NoBufferKeepsNothing(sections: seq<RenderSection>, target: int, threshold: real)
    requires threshold >= -1.0
    ensures KeptVertices(sections, None, target, threshold) == []
  {
    if |sections| > 0 {
      var last := sections[|sections| - 1];
      NoBufferKeepsNothing(sections[..|sections| - 1], target, threshold);
      NoBufferAllOrNothing(last, target, threshold, last.NumVertices);
    }
  }

  /**
   * With the engine's ascending sections, the procedural-to-skeletal entries
   * the filter writes and its skeletal-to-procedural map are mutually inverse:
   * procedural vertex `j` came from skeletal vertex `kept[j]`, which the local
   * map sends back to `j`, and every skeletal vertex in the local map is sent
   * to a procedural vertex whose entry names it.
   */
  lemma FilterMapsInverse(lod: LodRenderData, buf: Option<SkinWeightBuffer>, target: int, threshold: real)
    requires SectionsReadable(lod.RenderSections, buf) && SectionsAscending(lod.RenderSections)
    ensures var kept := KeptVertices(lod.RenderSections, buf, target, threshold);
      var newToOld := PositionMap(kept); var oldToNew := CompactIndexOf(kept);
      (forall j | j in newToOld :: newToOld[j] in oldToNew && oldToNew[newToOld[j]] == j)
      && (forall v | v in oldToNew :: oldToNew[v] in newToOld && newToOld[oldToNew[v]] == v)
  {
    var kept := KeptVertices(lod.RenderSections, buf, target, threshold);
    KeptVerticesIncreasing(lod.RenderSections, buf, target, threshold);
    CompactIndexOfPositions(kept);
    CompactIndexOfInverts(kept);
  }

  /**
   * A target bone at the root leaves the parent name as it was, so when that
   * was NAME_None the other half has nothing to attach to.
   */
  lemma RootBoneCannotAttach(skeleton: ReferenceSkeleton, target: nat, sockets: set<FName>)
    requires WellFormedSkeleton(skeleton) && target < |skeleton.BoneNames|
    requires ParentIndex(skeleton, target) == INDEX_NONE
    ensures !AttachTargetValid(ParentNameAfter(skeleton, target, NameNone), sockets, skeleton)
  {
  }

  class SlicingSkelMeshComponent {
    var TargetLODIndex: int
    var CopyVertexColors: bool
    var TargetBoneName: FName
    var ParentBoneName: FName
    var Threshold: real
    /** PMC_SkeletalVerticesMap: procedural vertex to the skeletal vertex it was copied from. */
    var PmcSkeletalVerticesMap: map<nat, nat>
    /** SlicedPMC_BoneWeightMap: per vertex of the kept fragment, its weight on the cut bone. */
    var SlicedBoneWeightMap: map<nat, real>
    /** OtherHalfPMC_BoneWeightMap: per vertex of the other half, its weight on the cut bone's parent. */
    var OtherHalfBoneWeightMap: map<nat, real>

    /** The component's defaults: LOD 0, colours copied, no bone names, threshold 0.01, empty maps. */
    constructor()
      ensures TargetLODIndex == 0 && CopyVertexColors && TargetBoneName == NameNone && ParentBoneName == NameNone
      ensures Threshold == 0.01
      ensures PmcSkeletalVerticesMap == map[] && SlicedBoneWeightMap == map[] && OtherHalfBoneWeightMap == map[]
    {
      TargetLODIndex := 0;
      CopyVertexColors := true;
      TargetBoneName := NameNone;
      ParentBoneName := NameNone;
      Threshold := 0.01;
      PmcSkeletalVerticesMap := map[];
      SlicedBoneWeightMap := map[];
      OtherHalfBoneWeightMap := map[];
    }

    /**
     * USlicingSkelMeshComponent::GetFilteredSkeletalMeshDataByBoneName, with the
     * member LOD, bone name and threshold (`minWeight` is ignored). Past the
     * early exits it always succeeds: the kept vertices are copied in
     * section order, each gets an opaque black colour after the presized
     * slots, the member map records procedural-to-skeletal pairs over the
     * previous entries, and every section keeps its material and its
     * surviving triangles, whether or not any triangle survived.
     */
    method GetFilteredSkeletalMeshDataByBoneName(hasAsset: bool, renderData: Option<seq<LodRenderData>>,
                                                 skeleton: ReferenceSkeleton, minWeight: real)
      returns (ok: bool, mesh: FilteredMesh)
      requires LodExists(renderData, TargetLODIndex) ==> WellFormedLod(renderData.value[TargetLODIndex])
      modifies this`PmcSkeletalVerticesMap
      ensures ok == !FilterRejects(hasAsset, renderData, TargetLODIndex, skeleton, TargetBoneName)
      ensures !ok ==> mesh == NoMesh && PmcSkeletalVerticesMap == old(PmcSkeletalVerticesMap)
      ensures ok ==>
        var lod := renderData.value[TargetLODIndex];
        var kept := KeptVertices(lod.RenderSections, FilterBuffer(lod, skeleton, TargetBoneName),
                                 FindBoneIndex(skeleton, TargetBoneName), Threshold);
        CopiesVertices(mesh, lod, kept)
        && mesh.VertexColors == PresizedColors(lod, CopyVertexColors) + seq(|kept|, _ => Some(OpaqueBlack))
        && RebuildsSections(mesh, lod, CompactIndexOf(kept))
        && (forall s, k | 0 <= s < |mesh.SectionIndices| && 0 <= k < |mesh.SectionIndices[s]| ::
              mesh.SectionIndices[s][k] < |mesh.Vertices|)
        && PmcSkeletalVerticesMap == old(PmcSkeletalVerticesMap) + PositionMap(kept)
    {
      hide KeptVertices;
      hide RemapTriangles;
      hide CompactIndexOf;
      ok, mesh := false, NoMesh;
      if !hasAsset || renderData.None? || !(0 <= TargetLODIndex < |renderData.value|) {
        return;
      }
      var lod := renderData.value[TargetLODIndex];
      var target := INDEX_NONE;
      var buf: Option<SkinWeightBuffer> := None;
      if TargetBoneName != NameNone {
        target := FindBoneIndex(skeleton, TargetBoneName);
        if target != INDEX_NONE {
          if !HasSkinWeights(lod) {
            return;
          }
          buf := lod.SkinWeights;
        }
      }
      if NumLodVertices(lod) == 0 {
        return;
      }
      var colors := if CopyVertexColors && lod.ColorBuffer.Some? then seq(NumLodVertices(lod), _ => None) else [];
      var vertices, normals, tangents, uvs, oldToNew, kept := CopyKeptVertices(lod, buf, target, Threshold);
      colors := RecordKeptVertices(kept, colors);
      CompactIndexOfInverts(kept);
      var materialIndices, sectionIndices := RebuildSectionIndices(lod, oldToNew);
      forall s | 0 <= s < |sectionIndices|
        ensures forall k | 0 <= k < |sectionIndices[s]| :: sectionIndices[s][k] < |vertices|
      {
        RemapTrianglesBounded(lod.IndexBuffer, lod.RenderSections[s], oldToNew, lod.RenderSections[s].NumTriangles, |vertices|);
      }
      mesh := FilteredMesh(vertices, normals, tangents, uvs, colors, materialIndices, sectionIndices);
      ok := true;
    }

    /**
     * The per-kept-vertex bookkeeping of the vertex pass: procedural vertex `j`
     * is recorded as coming from `kept[j]`, overwriting an earlier entry for
     * `j`, and an opaque black colour is appended.
     */
    method RecordKeptVertices(kept: seq<nat>, colors: seq<Option<LinearColor>>) returns (next: seq<Option<LinearColor>>)
      modifies this`PmcSkeletalVerticesMap
      ensures next == colors + seq(|kept|, _ => Some(OpaqueBlack))
      ensures PmcSkeletalVerticesMap == old(PmcSkeletalVerticesMap) + PositionMap(kept)
    {
      next := colors;
      for j := 0 to |kept|
        invariant next == colors + seq(j, _ => Some(OpaqueBlack))
        invariant PmcSkeletalVerticesMap == old(PmcSkeletalVerticesMap) + PositionMap(kept[..j])
      {
        assert PositionMap(kept[..j + 1]) == PositionMap(kept[..j])[j := kept[j]];
        PmcSkeletalVerticesMap := PmcSkeletalVerticesMap[j := kept[j]];
        next := next + [Some(OpaqueBlack)];
      }
      assert kept[..|kept|] == kept;
    }

    /**
     * The bone and parent validation of USlicingSkelMeshComponent::SliceMeshInternal
     * and the two weight maps it records. It fails when the target bone is
     * neither a socket nor a bone, when the slice produced no other half, when
     * the bone is missing from the reference skeleton, or when the parent name
     * (looked up from the skeleton, or left as it was for a root bone) is not
     * a valid attach target. On success the kept fragment's map is computed
     * against the cut bone and the other half's against its parent, both
     * through the member procedural-to-skeletal map.
     */
    method AttachAndMapWeights(skeleton: ReferenceSkeleton, sockets: set<FName>, otherHalfCreated: bool,
                               hasAsset: bool, renderData: Option<seq<LodRenderData>>,
                               slicedToPmc: map<nat, nat>, otherToPmc: map<nat, nat>)
      returns (ok: bool)
      requires WellFormedSkeleton(skeleton)
      requires LodExists(renderData, TargetLODIndex) ==> WellFormedLod(renderData.value[TargetLODIndex])
      modifies this`ParentBoneName, this`SlicedBoneWeightMap, this`OtherHalfBoneWeightMap
      ensures var target := FindBoneIndex(skeleton, TargetBoneName);
        if target == INDEX_NONE || !otherHalfCreated then
          !ok && ParentBoneName == old(ParentBoneName)
        else
          ParentBoneName == ParentNameAfter(skeleton, target, old(ParentBoneName))
          && (ok <==> AttachTargetValid(ParentBoneName, sockets, skeleton))
      ensures !ok ==> SlicedBoneWeightMap == old(SlicedBoneWeightMap) && OtherHalfBoneWeightMap == old(OtherHalfBoneWeightMap)
      ensures ok ==>
        var target := FindBoneIndex(skeleton, TargetBoneName);
        IsBoneWeightMap(SlicedBoneWeightMap, TargetLODIndex, hasAsset, renderData, target, slicedToPmc, PmcSkeletalVerticesMap)
        && IsBoneWeightMap(OtherHalfBoneWeightMap, TargetLODIndex, hasAsset, renderData,
                           ParentIndex(skeleton, target), otherToPmc, PmcSkeletalVerticesMap)
    {
      ok := false;
      var target := FindBoneIndex(skeleton, TargetBoneName);
      if !(TargetBoneName in sockets) && target == INDEX_NONE {
        return;
      }
      if !otherHalfCreated {
        return;
      }
      if target == INDEX_NONE {
        return;
      }
      var parent := ParentIndex(skeleton, target);
      if parent != INDEX_NONE {
        ParentBoneName := skeleton.BoneNames[parent];
      }
      var attachOther := ParentBoneName;
      if !AttachTargetValid(attachOther, sockets, skeleton) {
        return;
      }
      SlicedBoneWeightMap := GetBoneWeightMapForProceduralVertices(TargetLODIndex, hasAsset, renderData, target,
                                                                   slicedToPmc, PmcSkeletalVerticesMap);
      OtherHalfBoneWeightMap := GetBoneWeightMapForProceduralVertices(TargetLODIndex, hasAsset, renderData, parent,
                                                                      otherToPmc, PmcSkeletalVerticesMap);
      ok := true;
    }
  }
}
