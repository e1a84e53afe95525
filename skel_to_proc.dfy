/**
 * USkelToProcMeshComponent: copying the part of a skeletal mesh LOD that a
 * bone drives into procedural-mesh arrays, building per-vertex skinning data
 * for the copy, and hiding the original vertices through a vertex-colour
 * override.
 *
 * The component's settings that these operations read (Threshold,
 * bCopyVertexColors, the OriginalToMainProcVertexMap member) are parameters.
 */
module SkelToProc {
  import opened MeshCommon
  import opened SkinWeights
  import opened SkeletalLod

  // ------------------------------------------------------------ extraction

  /**
   * GetFilteredSkeletalMeshDataByBoneName: fails without an asset, a valid LOD
   * or a non-empty skin-weight buffer; otherwise copies every vertex whose
   * weight for the bone exceeds the threshold, records where each original
   * vertex went, and re-emits each section's triangles whose three corners
   * were all copied. It succeeds when some vertex and some triangle survive.
   * An unknown bone name only logs: the lookup then uses INDEX_NONE.
   * `minWeight` is accepted and not used; the threshold decides.
   */
  method GetFilteredSkeletalMeshDataByBoneName(
    renderData: Option<seq<LodRenderData>>, skeleton: ReferenceSkeleton, targetBoneName: FName,
    minWeight: real, lodIndex: int, threshold: real, copyVertexColors: bool)
    returns (ok: bool, mesh: FilteredMesh, originalToProc: map<nat, nat>)
    requires LodExists(renderData, lodIndex) ==>
      WellFormedLod(renderData.value[lodIndex]) && IndexBufferCovers(renderData.value[lodIndex])
    ensures !LodExists(renderData, lodIndex) || !HasSkinWeights(renderData.value[lodIndex]) ==>
      !ok && mesh == NoMesh && originalToProc == map[]
    ensures LodExists(renderData, lodIndex) && HasSkinWeights(renderData.value[lodIndex]) ==>
      var lod := renderData.value[lodIndex];
      var kept := KeptVertices(lod.RenderSections, lod.SkinWeights, FindBoneIndex(skeleton, targetBoneName), threshold);
      CopiesVertices(mesh, lod, kept)
      && mesh.VertexColors == PresizedColors(lod, copyVertexColors)
      && originalToProc == CompactIndexOf(kept)
      && RebuildsSections(mesh, lod, originalToProc)
      && (forall s, k | 0 <= s < |mesh.SectionIndices| && 0 <= k < |mesh.SectionIndices[s]| ::
            mesh.SectionIndices[s][k] < |mesh.Vertices|)
      && ok == (|mesh.Vertices| > 0 && AnyTriangles(mesh.SectionIndices))
  {
    hide KeptVertices;
    hide RemapTriangles;
    hide CompactIndexOf;
    if !LodExists(renderData, lodIndex) {
      return false, NoMesh, map[];
    }
    var lod := renderData.value[lodIndex];
    var target := FindBoneIndex(skeleton, targetBoneName);
    var buf := lod.SkinWeights;
    if buf.None? || NumSkinVertices(buf.value) == 0 {
      return false, NoMesh, map[];
    }
    var colors := if copyVertexColors && lod.ColorBuffer.Some? then seq(NumLodVertices(lod), _ => None) else [];

    var vertices, normals, tangents, uvs, oldToNew, kept := CopyKeptVertices(lod, buf, target, threshold);
    CompactIndexOfInverts(kept);
    var materialIndices, sectionIndices := RebuildSectionIndices(lod, oldToNew);
    forall s | 0 <= s < |sectionIndices|
      ensures forall k | 0 <= k < |sectionIndices[s]| :: sectionIndices[s][k] < |vertices|
    {
      RemapTrianglesBounded(lod.IndexBuffer, lod.RenderSections[s], oldToNew, lod.RenderSections[s].NumTriangles, |vertices|);
    }
    var foundAnyTriangles := FindAnyTriangles(sectionIndices);
    mesh := FilteredMesh(vertices, normals, tangents, uvs, colors, materialIndices, sectionIndices);
    originalToProc := oldToNew;
    ok := |vertices| > 0 && foundAnyTriangles;
  }

  // ------------------------------------------------------------ skin weights of one vertex

  /** FProceduralVertexSkinningData: a bind-pose position with parallel bone/weight arrays. */
  datatype SkinningData = SkinningData(LocalBindPosePosition: Vec3, BoneMapIndices: seq<uint16>, BoneWeights: seq<real>)

  const DefaultSkinning: SkinningData := SkinningData(Zero3, [], [])

  /** A slot that contributes to skinning: a positive raw weight and a valid active-bone index. */
  predicate Contributes(s: Influence, activeBones: seq<uint16>)
  {
    s.RawWeight > 0 && s.BoneIndex < |activeBones|
  }

  /** The weight skinning reads from a slot (raw over 255). */
  function SkinSlotWeight(s: Influence): real { s.RawWeight as real / 255.0 }

  /** The contributing slots of a vertex, in slot order. */
  function ContributingSlots(slots: seq<Influence>, activeBones: seq<uint16>): (r: seq<Influence>)
    ensures forall j | 0 <= j < |r| :: Contributes(r[j], activeBones)
  {
    if |slots| == 0 then []
    else ContributingSlots(slots[..|slots| - 1], activeBones)
         + (if Contributes(slots[|slots| - 1], activeBones) then [slots[|slots| - 1]] else [])
  }

  function SkeletonBones(c: seq<Influence>, activeBones: seq<uint16>): seq<uint16>
    requires forall j | 0 <= j < |c| :: c[j].BoneIndex < |activeBones|
  {
    seq(|c|, j requires 0 <= j < |c| => activeBones[c[j].BoneIndex])
  }

  function RawSkinWeights(c: seq<Influence>): seq<real>
  {
    seq(|c|, j requires 0 <= j < |c| => SkinSlotWeight(c[j]))
  }

  /** Each weight divided by `total`. */
  function Scaled(w: seq<real>, total: real): (r: seq<real>)
    requires total != 0.0
    ensures |r| == |w|
  {
    seq(|w|, j requires 0 <= j < |w| => w[j] / total)
  }

  /** The weights are renormalised when their total is positive but not already within KINDA_SMALL_NUMBER of 1. */
  predicate NeedsNormalising(total: real)
  {
    total > KINDA_SMALL_NUMBER && Abs(total - 1.0) > KINDA_SMALL_NUMBER
  }

  function FinalWeights(raw: seq<real>): seq<real>
  {
    if NeedsNormalising(Sum(raw)) then Scaled(raw, Sum(raw)) else raw
  }

  /** The bones and weights read for an original vertex, or None when it cannot be read. */
  function SkinWeightsFor(buf: Option<SkinWeightBuffer>, activeBones: seq<uint16>, v: int): Option<(seq<uint16>, seq<real>)>
  {
    if buf.None? || !(0 <= v < NumSkinVertices(buf.value)) then None
    else
      var c := ContributingSlots(buf.value.Influences[v], activeBones);
      Some((SkeletonBones(c, activeBones), FinalWeights(RawSkinWeights(c))))
  }

  lemma {:induction false} SumScaled(w: seq<real>, total: real)
    requires total != 0.0
    ensures Sum(Scaled(w, total)) == Sum(w) / total
  {
    if |w| > 0 {
      var init := w[..|w| - 1];
      SumScaled(init, total);
      assert Scaled(w, total)[..|w| - 1] == Scaled(init, total);
    }
  }

  lemma DivSelf(x: real)
    requires x > 0.0
    ensures x / x == 1.0
  {
  }

  lemma {:induction false} SumNonNegative(w: seq<real>)
    requires forall j | 0 <= j < |w| :: w[j] >= 0.0
    ensures Sum(w) >= 0.0
  {
    if |w| > 0 {
      SumNonNegative(w[..|w| - 1]);
    }
  }

  /**
   * The skinning weights of a readable vertex: one per contributing slot, in
   * order, each non-negative, naming the skeleton bone through the LOD's
   * active-bone table; whenever their raw total exceeds KINDA_SMALL_NUMBER they
   * sum to 1 within KINDA_SMALL_NUMBER (exactly 1 after renormalising).
   */
  lemma {:induction false} SkinWeightsForMeaning(buf: Option<SkinWeightBuffer>, activeBones: seq<uint16>, v: int)
    requires SkinWeightsFor(buf, activeBones, v).Some?
    ensures var c := ContributingSlots(buf.value.Influences[v], activeBones);
      var (bones, weights) := SkinWeightsFor(buf, activeBones, v).value;
      |bones| == |weights| == |c|
      && (forall j | 0 <= j < |c| :: bones[j] == activeBones[c[j].BoneIndex] && weights[j] >= 0.0)
      && (Sum(RawSkinWeights(c)) > KINDA_SMALL_NUMBER ==> Abs(Sum(weights) - 1.0) <= KINDA_SMALL_NUMBER)
      && (NeedsNormalising(Sum(RawSkinWeights(c))) ==> Sum(weights) == 1.0)
  {
    var c := ContributingSlots(buf.value.Influences[v], activeBones);
    var raw := RawSkinWeights(c);
    SumNonNegative(raw);
    if NeedsNormalising(Sum(raw)) {
      var total := Sum(raw);
      SumScaled(raw, total);
      DivSelf(total);
    }
  }

  /** An entry with its bone and weight arrays replaced by `weights`, when there are any. */
  function WithSkinWeights(entry: SkinningData, weights: Option<(seq<uint16>, seq<real>)>): SkinningData
  {
    match weights
    case None => entry
    case Some((b, w)) => SkinningData(entry.LocalBindPosePosition, b, w)
  }

  /**
   * GetSkinWeightsForOriginalVertex: fails, leaving the entry as it was, when
   * there is no buffer or the vertex is past its end; otherwise replaces the
   * entry's bone and weight arrays with the contributing slots (the position
   * is kept) and succeeds when at least one bone was found.
   */
  method GetSkinWeightsForOriginalVertex(v: nat, lod: LodRenderData, buf: Option<SkinWeightBuffer>, entry: SkinningData)
    returns (ok: bool, result: SkinningData)
    ensures result == WithSkinWeights(entry, SkinWeightsFor(buf, lod.ActiveBoneIndices, v))
    ensures ok <==> SkinWeightsFor(buf, lod.ActiveBoneIndices, v).Some? && |SkinWeightsFor(buf, lod.ActiveBoneIndices, v).value.0| > 0
  {
    if buf.None? || v >= NumSkinVertices(buf.value) {
      return false, entry;
    }
    var slots := buf.value.Influences[v];
    var active := lod.ActiveBoneIndices;
    var bones: seq<uint16> := [];
    var weights: seq<real> := [];
    var total := 0.0;
    for i := 0 to |slots|
      invariant bones == SkeletonBones(ContributingSlots(slots[..i], active), active)
      invariant weights == RawSkinWeights(ContributingSlots(slots[..i], active))
      invariant total == Sum(weights)
    {
      assert slots[..i + 1][..i] == slots[..i];
      var raw := slots[i].RawWeight;
      if raw > 0 {
        var activeIndex := slots[i].BoneIndex;
        if activeIndex < |active| {
          bones := bones + [active[activeIndex]];
          var weight := raw as real / 255.0;
          assert (weights + [weight])[..|weights|] == weights;
          weights := weights + [weight];
          total := total + weight;
        }
      }
    }
    assert slots[..|slots|] == slots;
    ghost var raw := weights;
    if total > KINDA_SMALL_NUMBER && Abs(total - 1.0) > KINDA_SMALL_NUMBER {
      for i := 0 to |weights|
        invariant |weights| == |raw|
        invariant forall j | 0 <= j < i :: weights[j] == raw[j] / total
        invariant forall j | i <= j < |weights| :: weights[j] == raw[j]
      {
        weights := weights[i := weights[i] / total];
      }
      assert weights == Scaled(raw, total);
    }
    result := SkinningData(entry.LocalBindPosePosition, bones, weights);
    ok := |bones| > 0;
  }

  // ------------------------------------------------------------ skinning data for the copy

  /** No two original vertices map to the same copied vertex. */
  predicate Injective(m: map<nat, nat>)
  {
    forall a, b | a in m && b in m && a != b :: m[a] != m[b]
  }

  /** The entry an original vertex fills in for copied vertex `p`, starting from a default entry. */
  function FilledEntry(lod: LodRenderData, procVertices: seq<Vec3>, original: nat, p: nat): SkinningData
    requires p < |procVertices|
  {
    WithSkinWeights(SkinningData(procVertices[p], [], []), SkinWeightsFor(lod.SkinWeights, lod.ActiveBoneIndices, original))
  }

  /**
   * BuildSkinningDataForProceduralMesh: fails, leaving the output as it was,
   * without an asset, a valid LOD or a non-empty skin-weight buffer. Otherwise
   * it sizes the output to the copied vertices with default entries and, for
   * every pair of the component's OriginalToMainProcVertexMap member (not the
   * map passed in) whose copied index is in range, sets that entry's position
   * and skin weights. Entries no pair names stay default.
   */
  method BuildSkinningDataForProceduralMesh(
    renderData: Option<seq<LodRenderData>>, lodIndex: int, procVertices: seq<Vec3>,
    inOriginalToProcVertexMap: map<nat, nat>, originalToMainProcVertexMap: map<nat, nat>,
    skinning: seq<SkinningData>)
    returns (ok: bool, out: seq<SkinningData>)
    ensures !LodExists(renderData, lodIndex) || !HasSkinWeights(renderData.value[lodIndex]) ==> !ok && out == skinning
    ensures LodExists(renderData, lodIndex) && HasSkinWeights(renderData.value[lodIndex]) ==>
      var lod := renderData.value[lodIndex];
      var m := originalToMainProcVertexMap;
      ok && |out| == |procVertices|
      && (forall p | 0 <= p < |out| && p !in m.Values :: out[p] == DefaultSkinning)
      && (forall p | 0 <= p < |out| && p in m.Values :: out[p].LocalBindPosePosition == procVertices[p])
      && (Injective(m) ==> forall o | o in m && m[o] < |out| :: out[m[o]] == FilledEntry(lod, procVertices, o, m[o]))
  {
    if !LodExists(renderData, lodIndex) {
      return false, skinning;
    }
    var lod := renderData.value[lodIndex];
    var buf := lod.SkinWeights;
    if buf.None? || NumSkinVertices(buf.value) == 0 {
      return false, skinning;
    }
    out := FillSkinningEntries(lod, procVertices, originalToMainProcVertexMap);
    ok := true;
  }

  /** The copied positions (below `n`) that the pairs of `done` name. */
  ghost function Hits(m: map<nat, nat>, done: set<nat>, n: nat): set<nat>
    requires done <= m.Keys
  {
    set o | o in done && m[o] < n :: m[o]
  }

  /** Entries no pair of `done` names are default; named entries have their copied position. */
  ghost predicate Positioned(entries: seq<SkinningData>, hit: set<nat>, procVertices: seq<Vec3>)
    requires |entries| == |procVertices|
  {
    (forall p | 0 <= p < |entries| && p !in hit :: entries[p] == DefaultSkinning)
    && (forall p | p in hit && p < |entries| :: entries[p].LocalBindPosePosition == procVertices[p])
  }

  /** With an injective map, each pair of `done` has filled its entry. */
  ghost predicate FilledFrom(entries: seq<SkinningData>, m: map<nat, nat>, done: set<nat>, lod: LodRenderData, procVertices: seq<Vec3>)
    requires |entries| == |procVertices| && done <= m.Keys
  {
    Injective(m) ==> forall o | o in done && m[o] < |entries| :: entries[m[o]] == FilledEntry(lod, procVertices, o, m[o])
  }

  /** The entries the member map's pairs fill in, over an output of default entries sized to the copy. */
  method FillSkinningEntries(lod: LodRenderData, procVertices: seq<Vec3>, m: map<nat, nat>)
    returns (out: seq<SkinningData>)
    ensures |out| == |procVertices|
    ensures forall p | 0 <= p < |out| && p !in m.Values :: out[p] == DefaultSkinning
    ensures forall p | 0 <= p < |out| && p in m.Values :: out[p].LocalBindPosePosition == procVertices[p]
    ensures Injective(m) ==> forall o | o in m && m[o] < |out| :: out[m[o]] == FilledEntry(lod, procVertices, o, m[o])
  {
    var n := |procVertices|;
    var entries := seq(n, _ => DefaultSkinning);
    var remaining := m.Keys;
    ghost var done: set<nat> := {};
    while remaining != {}
      invariant remaining + done == m.Keys && remaining !! done
      invariant |entries| == n
      invariant Positioned(entries, Hits(m, done, n), procVertices)
      invariant FilledFrom(entries, m, done, lod, procVertices)
      decreases |remaining|
    {
      hide Positioned;
      hide FilledFrom;
      hide Hits;
      var original :| original in remaining;
      entries := FillEntry(entries, m, done, lod, procVertices, original);
      remaining := remaining - {original};
      done := done + {original};
    }
    out := entries;
    HitsAll(m, n);
  }

  /** The loop body: fill the entry one pair names, when its copied index is in range. */
  method FillEntry(entries: seq<SkinningData>, m: map<nat, nat>, ghost done: set<nat>,
                   lod: LodRenderData, procVertices: seq<Vec3>, original: nat)
    returns (next: seq<SkinningData>)
    requires |entries| == |procVertices| && done <= m.Keys && original in m && original !in done
    requires Positioned(entries, Hits(m, done, |entries|), procVertices)
    requires FilledFrom(entries, m, done, lod, procVertices)
    ensures |next| == |entries|
    ensures Positioned(next, Hits(m, done + {original}, |entries|), procVertices)
    ensures FilledFrom(next, m, done + {original}, lod, procVertices)
  {
    var n := |entries|;
    var p := m[original];
    if p < n {
      var before := entries[p].(LocalBindPosePosition := procVertices[p]);
      var success, filled := GetSkinWeightsForOriginalVertex(original, lod, lod.SkinWeights, before);
      FillStep(entries, m, done, lod, procVertices, original, filled);
      next := entries[p := filled];
    } else {
      assert Hits(m, done + {original}, n) == Hits(m, done, n);
      next := entries;
    }
  }

  /** Once every pair is done, the hit positions are the map's values below `n`. */
  lemma HitsAll(m: map<nat, nat>, n: nat)
    ensures forall p :: p in Hits(m, m.Keys, n) <==> p in m.Values && p < n
  {
    forall p | p in m.Values && p < n ensures p in Hits(m, m.Keys, n) {
      var o :| o in m && m[o] == p;
    }
  }

  /** One pair's update keeps the loop's facts. */
  lemma FillStep(entries: seq<SkinningData>, m: map<nat, nat>, done: set<nat>,
                 lod: LodRenderData, procVertices: seq<Vec3>, original: nat, filled: SkinningData)
    requires |entries| == |procVertices| && done <= m.Keys && original in m && original !in done
    requires m[original] < |entries|
    requires Positioned(entries, Hits(m, done, |entries|), procVertices)
    requires FilledFrom(entries, m, done, lod, procVertices)
    requires filled == WithSkinWeights(entries[m[original]].(LocalBindPosePosition := procVertices[m[original]]),
                                       SkinWeightsFor(lod.SkinWeights, lod.ActiveBoneIndices, original))
    ensures Hits(m, done + {original}, |entries|) == Hits(m, done, |entries|) + {m[original]}
    ensures Positioned(entries[m[original] := filled], Hits(m, done + {original}, |entries|), procVertices)
    ensures FilledFrom(entries[m[original] := filled], m, done + {original}, lod, procVertices)
  {
    var p := m[original];
    var n := |entries|;
    var next := entries[p := filled];
    assert Hits(m, done + {original}, n) == Hits(m, done, n) + {p};
    if Injective(m) {
      forall o | o in done + {original} && m[o] < n
        ensures next[m[o]] == FilledEntry(lod, procVertices, o, m[o])
      {
        if o != original {
          assert m[o] != p;
        }
      }
    }
  }


  // ------------------------------------------------------------ hiding the original vertices

  /** What hiding did to the component's vertex-colour override. */
  datatype HideOutcome =
    | Failed
    | OverrideApplied(Colors: seq<LinearColor>)
    | OverrideCleared
    | Unchanged

  /** The override colour a vertex starts from: its existing colour when the buffer has one, else white. */
  function BaseOverrideColor(lod: LodRenderData, v: nat): LinearColor
  {
    if lod.ColorBuffer.Some? && v < |lod.ColorBuffer.value| then ReinterpretAsLinear(lod.ColorBuffer.value[v]) else White
  }

  /** The vertices hidden: those whose weight, read through the bone map of render section `lodIndex`, exceeds the threshold. */
  function HiddenVertices(lod: LodRenderData, lodIndex: nat, target: int, threshold: real, n: nat): (r: seq<nat>)
    requires lodIndex < |lod.RenderSections| && n <= NumLodVertices(lod)
    requires forall v | 0 <= v < n :: Readable(lod.SkinWeights, v)
    ensures forall v: nat :: v in r <==> v < n && BoneWeightOf(lod.SkinWeights, lod.RenderSections[lodIndex], v, target) > threshold
    ensures forall k | 0 <= k < |r| :: r[k] < n
  {
    if n == 0 then []
    else HiddenVertices(lod, lodIndex, target, threshold, n - 1)
         + (if BoneWeightOf(lod.SkinWeights, lod.RenderSections[lodIndex], n - 1, target) > threshold then [n - 1] else [])
  }

  /** The LOD the hide operation reads can be indexed the way the source indexes it. */
  predicate HideReadable(renderData: Option<seq<LodRenderData>>, lodIndex: int)
  {
    renderData.Some? ==>
      0 <= lodIndex < |renderData.value|
      && var lod := renderData.value[lodIndex];
         (NumLodVertices(lod) > 0 && lod.SkinWeights.Some? ==>
            lodIndex < |lod.RenderSections|
            && (NumSkinVertices(lod.SkinWeights.value) == 0 || NumLodVertices(lod) <= NumSkinVertices(lod.SkinWeights.value)))
  }

  /**
   * HideOriginalMeshVerticesByBone (USkelToProcMeshComponent, and the same body
   * in USlicingSkelMeshComponent): fails for a missing asset, an unknown bone,
   * missing render data, an empty LOD or a missing skin-weight buffer. If some
   * vertex's weight exceeds the threshold, it submits an override with one
   * colour per LOD vertex, the existing colour (or white) with alpha 0 exactly
   * at the hidden vertices; otherwise it clears the override when asked.
   * The bone map used for every vertex is that of render section number
   * `lodIndex`, as the source indexes it.
   */
  method HideOriginalMeshVerticesByBone(
    hasAsset: bool, skeleton: ReferenceSkeleton, renderData: Option<seq<LodRenderData>>,
    lodIndex: int, targetBoneName: FName, threshold: real, clearOverride: bool)
    returns (ok: bool, outcome: HideOutcome)
    requires HideReadable(renderData, lodIndex)
    ensures ok <==> !outcome.Failed?
    ensures !hasAsset || FindBoneIndex(skeleton, targetBoneName) == INDEX_NONE || renderData.None? ==> !ok
    ensures hasAsset && FindBoneIndex(skeleton, targetBoneName) != INDEX_NONE && renderData.Some? ==>
      var lod := renderData.value[lodIndex];
      if NumLodVertices(lod) == 0 || lod.SkinWeights.None? then !ok
      else
        var hidden := HiddenVertices(lod, lodIndex, FindBoneIndex(skeleton, targetBoneName), threshold, NumLodVertices(lod));
        if |hidden| > 0 then
          outcome.OverrideApplied? && |outcome.Colors| == NumLodVertices(lod)
          && forall v | 0 <= v < NumLodVertices(lod) ::
               outcome.Colors[v] == if v in hidden then BaseOverrideColor(lod, v).(A := 0.0) else BaseOverrideColor(lod, v)
        else outcome == if clearOverride then OverrideCleared else Unchanged
  {
    if !hasAsset {
      return false, Failed;
    }
    var target := FindBoneIndex(skeleton, targetBoneName);
    if target == INDEX_NONE {
      return false, Failed;
    }
    if renderData.None? || NumLodVertices(renderData.value[lodIndex]) == 0 {
      return false, Failed;
    }
    var lod := renderData.value[lodIndex];
    var buf := lod.SkinWeights;
    if buf.None? {
      return false, Failed;
    }
    var n := NumLodVertices(lod);
    var section := lod.RenderSections[lodIndex];
    var toHide: seq<nat> := [];
    for v := 0 to n
      invariant toHide == HiddenVertices(lod, lodIndex, target, threshold, v)
    {
      var weight := GetBoneWeightForVertex(v, target, section, buf);
      if weight > threshold {
        toHide := toHide + [v];
      }
    }
    if |toHide| > 0 {
      var colors := OverrideColors(lod, toHide);
      return true, OverrideApplied(colors);
    } else if clearOverride {
      return true, OverrideCleared;
    }
    return true, Unchanged;
  }

  /**
   * The override colours: every LOD vertex starts from its existing colour (or
   * white), and each listed vertex inside the array gets alpha 0.
   */
  method OverrideColors(lod: LodRenderData, toHide: seq<nat>) returns (colors: seq<LinearColor>)
    ensures |colors| == NumLodVertices(lod)
    ensures forall v | 0 <= v < |colors| ::
      colors[v] == if v in toHide then BaseOverrideColor(lod, v).(A := 0.0) else BaseOverrideColor(lod, v)
  {
    var n := NumLodVertices(lod);
    var a := new LinearColor[n](_ => White);
    for i := 0 to n
      invariant forall v | 0 <= v < i :: a[v] == BaseOverrideColor(lod, v)
    {
      if lod.ColorBuffer.Some? && i < |lod.ColorBuffer.value| {
        a[i] := ReinterpretAsLinear(lod.ColorBuffer.value[i]);
      } else {
        a[i] := White;
      }
    }
    for k := 0 to |toHide|
      invariant forall v | 0 <= v < n ::
        a[v] == if v in toHide[..k] then BaseOverrideColor(lod, v).(A := 0.0) else BaseOverrideColor(lod, v)
    {
      var h := toHide[k];
      if h < a.Length {
        a[h] := a[h].(A := 0.0);
      }
      assert toHide[..k + 1] == toHide[..k] + [h];
    }
    assert toHide[..|toHide|] == toHide;
    colors := a[..];
  }
}
