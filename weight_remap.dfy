/**
 * Chaining a sliced procedural mesh back to the skeletal mesh it was copied
 * from: a sliced vertex names the pre-slice procedural vertex it came from, that
 * vertex names the skeletal-mesh vertex it was copied from, and the skeletal
 * vertex's render section (found by a range test) decides how its skin weights
 * are read.
 */
module WeightRemap {
  import opened MeshCommon
  import opened SkinWeights
  import opened SkeletalLod

  /** The uint32 value a provenance map uses for "no pre-slice vertex" (-1 read as int32). */
  const NoSource: nat := 0xFFFF_FFFF

  /**
   * The first render section that holds `v`, by a scan that stops at the first
   * match; the same answer as SectionContaining.
   */
  method FindSection(sections: seq<RenderSection>, v: nat) returns (r: Option<nat>)
    ensures r == SectionContaining(sections, v)
  {
    for s := 0 to |sections|
      invariant forall p | 0 <= p < s :: !Holds(sections[p], v)
    {
      if sections[s].BaseVertexIndex <= v < sections[s].BaseVertexIndex + sections[s].NumVertices {
        return Some(s);
      }
    }
    return None;
  }

  /** The pre-slice-to-skeletal chain leads from `pre` to a skeletal vertex inside some render section. */
  predicate ChainReaches(lod: LodRenderData, pmcToSkeletal: map<nat, nat>, pre: nat)
  {
    pre != NoSource && pre in pmcToSkeletal && SectionContaining(lod.RenderSections, pmcToSkeletal[pre]).Some?
  }

  /**
   * The weight recorded for a sliced vertex whose pre-slice vertex is `pre`:
   * 0 for the "no vertex" sentinel, an unknown pre-slice vertex or a skeletal
   * vertex outside every section, otherwise the single-bone lookup (which may
   * be -1 when no influence names the bone).
   */
  function ChainedWeight(lod: LodRenderData, target: int, pmcToSkeletal: map<nat, nat>, pre: nat): real
    requires WellFormedLod(lod)
  {
    if !ChainReaches(lod, pmcToSkeletal, pre) then 0.0
    else
      var skel := pmcToSkeletal[pre];
      var s := SectionContaining(lod.RenderSections, skel).value;
      assert SectionReadable(lod.RenderSections[s], lod.SkinWeights);
      BoneWeightOf(lod.SkinWeights, lod.RenderSections[s], skel, target)
  }

  /** The early checks of both map builders pass: the LOD exists and has a skin-weight buffer. */
  predicate MapInputsValid(hasAsset: bool, renderData: Option<seq<LodRenderData>>, lodIndex: int)
  {
    hasAsset && LodExists(renderData, lodIndex) && renderData.value[lodIndex].SkinWeights.Some?
  }

  /**
   * A broken chain records 0, and a complete one records the bone's weight in
   * (0, 1] or -1 when no influence of the skeletal vertex names the bone.
   */
  lemma ChainedWeightRange(lod: LodRenderData, target: int, pmcToSkeletal: map<nat, nat>, pre: nat)
    requires WellFormedLod(lod)
    ensures !ChainReaches(lod, pmcToSkeletal, pre) ==> ChainedWeight(lod, target, pmcToSkeletal, pre) == 0.0
    ensures var w := ChainedWeight(lod, target, pmcToSkeletal, pre); w == -1.0 || 0.0 <= w <= 1.0
  {
    if ChainReaches(lod, pmcToSkeletal, pre) {
      var skel := pmcToSkeletal[pre];
      var s := SectionContaining(lod.RenderSections, skel).value;
      assert SectionReadable(lod.RenderSections[s], lod.SkinWeights);
      if lod.SkinWeights.Some? && NumSkinVertices(lod.SkinWeights.value) > 0 {
        WeightFromRange(lod.SkinWeights.value.Influences[skel], lod.RenderSections[s].BoneMap, target, 0);
      }
    }
  }

  /**
   * What the single-bone weight map holds: nothing when the inputs are invalid
   * or the bone is INDEX_NONE; otherwise one entry per key of the slice map.
   */
  ghost predicate IsBoneWeightMap(weights: map<nat, real>, lodIndex: int, hasAsset: bool, renderData: Option<seq<LodRenderData>>,
                                  target: int, sliceToPmc: map<nat, nat>, pmcToSkeletal: map<nat, nat>)
    requires LodExists(renderData, lodIndex) ==> WellFormedLod(renderData.value[lodIndex])
  {
    if !MapInputsValid(hasAsset, renderData, lodIndex) || target == INDEX_NONE then weights == map[]
    else
      weights.Keys == sliceToPmc.Keys
      && forall k | k in weights :: weights[k] == ChainedWeight(renderData.value[lodIndex], target, pmcToSkeletal, sliceToPmc[k])
  }

  /**
   * USlicingSkeletalMeshLibrary::GetBoneWeightMapForProceduralVertices: an
   * empty map when the component or asset is missing, the bone is INDEX_NONE,
   * there is no render data, the LOD is invalid or its skin-weight buffer is
   * missing; otherwise exactly one entry per key of the slice map, holding the
   * chained weight of that key's pre-slice vertex.
   */
  method GetBoneWeightMapForProceduralVertices(
    lodIndex: int, hasAsset: bool, renderData: Option<seq<LodRenderData>>, target: int,
    sliceToPmc: map<nat, nat>, pmcToSkeletal: map<nat, nat>)
    returns (weights: map<nat, real>)
    requires LodExists(renderData, lodIndex) ==> WellFormedLod(renderData.value[lodIndex])
    ensures IsBoneWeightMap(weights, lodIndex, hasAsset, renderData, target, sliceToPmc, pmcToSkeletal)
  {
    weights := map[];
    if !hasAsset || target == INDEX_NONE || renderData.None? || |renderData.value| == 0 {
      return;
    }
    if !(0 <= lodIndex < |renderData.value|) {
      return;
    }
    var lod := renderData.value[lodIndex];
    var buf := lod.SkinWeights;
    if buf.None? {
      return;
    }
    var remaining := sliceToPmc.Keys;
    while remaining != {}
      invariant remaining <= sliceToPmc.Keys
      invariant weights.Keys == sliceToPmc.Keys - remaining
      invariant forall k | k in weights :: weights[k] == ChainedWeight(lod, target, pmcToSkeletal, sliceToPmc[k])
      decreases |remaining|
    {
      var key :| key in remaining;
      var pre := sliceToPmc[key];
      if pre == NoSource {
        weights := weights[key := 0.0];
      } else if pre in pmcToSkeletal {
        var skel := pmcToSkeletal[pre];
        var weight := 0.0;
        var section := FindSection(lod.RenderSections, skel);
        if section.Some? {
          assert SectionReadable(lod.RenderSections[section.value], buf);
          weight := GetBoneWeightForVertex(skel, target, lod.RenderSections[section.value], buf);
        }
        weights := weights[key := weight];
      } else {
        weights := weights[key := 0.0];
      }
      remaining := remaining - {key};
    }
  }

  /** Every bone map of the LOD names bones of the reference skeleton (the unchecked GetBoneName read). */
  predicate LodBonesNamed(lod: LodRenderData, names: seq<FName>)
  {
    forall s | 0 <= s < |lod.RenderSections| :: NamesBones(lod.RenderSections[s].BoneMap, names)
  }

  /** The influences recorded for a sliced vertex that names skeletal vertex `skel`: its section's info, or none outside every section. */
  function ChainedInfo(lod: LodRenderData, names: seq<FName>, skel: nat): BoneWeightsInfo
    requires WellFormedLod(lod) && LodBonesNamed(lod, names)
  {
    match SectionContaining(lod.RenderSections, skel)
    case None => EmptyInfo
    case Some(s) =>
      assert SectionReadable(lod.RenderSections[s], lod.SkinWeights);
      BoneWeightsInfoOf(lod.SkinWeights, lod.RenderSections[s], names, skel)
  }

  /**
   * Every recorded info pairs each influencing bone with one weight in [0, 1]
   * and with that bone's skeleton name, the bone drawn from the section's bone map.
   */
  lemma ChainedInfoMeaning(lod: LodRenderData, names: seq<FName>, skel: nat)
    requires WellFormedLod(lod) && LodBonesNamed(lod, names)
    ensures var info := ChainedInfo(lod, names, skel);
      |info.InfluencingBoneIndices| == |info.BoneWeights| == |info.BoneNames|
      && (forall j | 0 <= j < |info.BoneWeights| :: 0.0 <= info.BoneWeights[j] <= 1.0)
      && (forall j | 0 <= j < |info.BoneNames| :: info.BoneNames[j] == names[info.InfluencingBoneIndices[j]])
    ensures SectionContaining(lod.RenderSections, skel).Some? ==>
      var info := ChainedInfo(lod, names, skel);
      forall j | 0 <= j < |info.InfluencingBoneIndices| ::
        info.InfluencingBoneIndices[j] in lod.RenderSections[SectionContaining(lod.RenderSections, skel).value].BoneMap
  {
    match SectionContaining(lod.RenderSections, skel)
    case None =>
    case Some(s) =>
      assert SectionReadable(lod.RenderSections[s], lod.SkinWeights);
      if lod.SkinWeights.Some? && NumSkinVertices(lod.SkinWeights.value) > 0 {
        InfoOfSlotsMeaning(lod.SkinWeights.value.Influences[skel], lod.RenderSections[s].BoneMap, names);
      }
  }

  /**
   * USlicingSkeletalMeshLibrary::GetBoneWeightsInfoMapForSlicedProcMeshVertices:
   * an empty map when the component or asset is missing, there is no render
   * data, the LOD is invalid or its skin-weight buffer is missing; otherwise
   * exactly one entry per key of the map, holding the influences of the
   * skeletal vertex it names, with bone names from the component's reference
   * skeleton (the source's `>= 0` test on an unsigned index always passes).
   */
  method GetBoneWeightsInfoMapForSlicedProcMeshVertices(
    lodIndex: int, hasAsset: bool, skeleton: ReferenceSkeleton, renderData: Option<seq<LodRenderData>>,
    sliceToSkeletal: map<nat, nat>)
    returns (results: map<nat, BoneWeightsInfo>)
    requires LodExists(renderData, lodIndex) ==>
      WellFormedLod(renderData.value[lodIndex]) && LodBonesNamed(renderData.value[lodIndex], skeleton.BoneNames)
    ensures !MapInputsValid(hasAsset, renderData, lodIndex) ==> results == map[]
    ensures MapInputsValid(hasAsset, renderData, lodIndex) ==>
      results.Keys == sliceToSkeletal.Keys
      && forall k | k in results :: results[k] == ChainedInfo(renderData.value[lodIndex], skeleton.BoneNames, sliceToSkeletal[k])
  {
    results := map[];
    if !hasAsset || renderData.None? || |renderData.value| == 0 || !(0 <= lodIndex < |renderData.value|) {
      return;
    }
    var lod := renderData.value[lodIndex];
    var buf := lod.SkinWeights;
    if buf.None? {
      return;
    }
    var remaining := sliceToSkeletal.Keys;
    while remaining != {}
      invariant remaining <= sliceToSkeletal.Keys
      invariant results.Keys == sliceToSkeletal.Keys - remaining
      invariant forall k | k in results :: results[k] == ChainedInfo(lod, skeleton.BoneNames, sliceToSkeletal[k])
      decreases |remaining|
    {
      var key :| key in remaining;
      var skel := sliceToSkeletal[key];
      var info := EmptyInfo;
      var section := FindSection(lod.RenderSections, skel);
      if section.Some? {
        assert SectionReadable(lod.RenderSections[section.value], buf);
        info := GetBoneWeightsForVertex(skeleton.BoneNames, skel, lod.RenderSections[section.value], buf);
      }
      results := results[key := info];
      remaining := remaining - {key};
    }
  }
}
