/**
 * Reading bone influences out of a skeletal mesh's skin-weight buffer.
 *
 * Each vertex of the buffer holds the buffer's fixed number of influence slots
 * (GetMaxBoneInfluences); a slot names a bone by its index into the render
 * section's BoneMap and carries a raw 16-bit weight.
 */
module SkinWeights {
  import opened MeshCommon

  /** FSkelMeshRenderSection: the vertex and index ranges of one section and its bone map. */
  datatype RenderSection = RenderSection(
    BaseVertexIndex: nat, NumVertices: nat, BaseIndex: nat, NumTriangles: nat,
    MaterialIndex: int, BoneMap: seq<uint16>)

  /** FName: NAME_None or a name. */
  datatype FName = NameNone | Name(Text: string)

  /** One influence slot: a section-local bone index and a raw weight. */
  datatype Influence = Influence(BoneIndex: uint16, RawWeight: uint16)

  /** FSkinWeightVertexBuffer: the influence slots of every vertex. */
  datatype SkinWeightBuffer = SkinWeightBuffer(Influences: seq<seq<Influence>>)

  function NumSkinVertices(b: SkinWeightBuffer): nat { |b.Influences| }

  /** The vertex may be looked up: the buffer is missing or empty, or the vertex is inside it. */
  predicate Readable(buf: Option<SkinWeightBuffer>, v: int)
  {
    buf.None? || NumSkinVertices(buf.value) == 0 || 0 <= v < NumSkinVertices(buf.value)
  }

  /** The weight read for a slot by the bone-weight lookups (raw over 65535). */
  function SlotWeight(s: Influence): real { s.RawWeight as real / 65535.0 }

  /** A slot that names a bone inside the section's bone map. */
  predicate InRange(s: Influence, boneMap: seq<uint16>) { s.BoneIndex < |boneMap| }

  /** A slot that the single-bone lookup accepts: in range, the target bone, a positive weight. */
  predicate Matches(s: Influence, boneMap: seq<uint16>, target: int)
  {
    InRange(s, boneMap) && boneMap[s.BoneIndex] as int == target && SlotWeight(s) > 0.0
  }

  // ------------------------------------------------------------ single-bone weight

  /** The lookup's scan from slot `i` on: the first matching slot's weight, else -1. */
  function WeightFrom(slots: seq<Influence>, boneMap: seq<uint16>, target: int, i: nat): real
    requires i <= |slots|
    decreases |slots| - i
  {
    if i == |slots| then -1.0
    else if !InRange(slots[i], boneMap) then WeightFrom(slots, boneMap, target, i + 1)
    else if Matches(slots[i], boneMap, target) then SlotWeight(slots[i])
    else WeightFrom(slots, boneMap, target, i + 1)
  }

  /** GetBoneWeightForVertex as a value: -1 when the buffer is missing or empty. */
  function BoneWeightOf(buf: Option<SkinWeightBuffer>, section: RenderSection, v: int, target: int): real
    requires Readable(buf, v)
  {
    if buf.None? || NumSkinVertices(buf.value) == 0 then -1.0
    else WeightFrom(buf.value.Influences[v], section.BoneMap, target, 0)
  }

  /** The scan returns the first matching slot's weight, and -1 exactly when no slot matches. */
  lemma {:induction false} WeightFromFirstMatch(slots: seq<Influence>, boneMap: seq<uint16>, target: int, i: nat)
    requires i <= |slots|
    ensures WeightFrom(slots, boneMap, target, i) == -1.0 <==>
              forall j | i <= j < |slots| :: !Matches(slots[j], boneMap, target)
    ensures forall j | i <= j < |slots| && Matches(slots[j], boneMap, target)
              && (forall k | i <= k < j :: !Matches(slots[k], boneMap, target)) ::
              WeightFrom(slots, boneMap, target, i) == SlotWeight(slots[j])
    decreases |slots| - i
  {
    if i < |slots| {
      WeightFromFirstMatch(slots, boneMap, target, i + 1);
    }
  }

  /** A found weight lies in (0, 1]; otherwise the result is the -1 sentinel. */
  lemma {:induction false} WeightFromRange(slots: seq<Influence>, boneMap: seq<uint16>, target: int, i: nat)
    requires i <= |slots|
    ensures var w := WeightFrom(slots, boneMap, target, i); w == -1.0 || 0.0 < w <= 1.0
    decreases |slots| - i
  {
    if i < |slots| {
      WeightFromRange(slots, boneMap, target, i + 1);
    }
  }

  /** Asking for INDEX_NONE never matches: bone-map entries are unsigned. */
  lemma {:induction false} NoBoneHasNoWeight(buf: Option<SkinWeightBuffer>, section: RenderSection, v: int)
    requires Readable(buf, v)
    ensures BoneWeightOf(buf, section, v, INDEX_NONE) == -1.0
  {
    if buf.Some? && NumSkinVertices(buf.value) > 0 {
      var slots := buf.value.Influences[v];
      forall j | 0 <= j < |slots| ensures !Matches(slots[j], section.BoneMap, INDEX_NONE) { }
      WeightFromFirstMatch(slots, section.BoneMap, INDEX_NONE, 0);
    }
  }

  /**
   * USlicingSkeletalMeshLibrary::GetBoneWeightForVertex (and the identical
   * USkelToProcMeshComponent::GetBoneWeightForVertex): the weight of the first
   * in-range slot that names the target bone with a positive weight, or -1.
   */
  method GetBoneWeightForVertex(v: int, target: int, section: RenderSection, buf: Option<SkinWeightBuffer>)
    returns (w: real)
    requires Readable(buf, v)
    ensures w == BoneWeightOf(buf, section, v, target)
    ensures w == -1.0 || 0.0 < w <= 1.0
  {
    if buf.None? || NumSkinVertices(buf.value) == 0 {
      return -1.0;
    }
    var slots := buf.value.Influences[v];
    var boneMap := section.BoneMap;
    var i := 0;
    while i < |slots|
      invariant 0 <= i <= |slots|
      invariant WeightFrom(slots, boneMap, target, 0) == WeightFrom(slots, boneMap, target, i)
    {
      var local := slots[i].BoneIndex;
      if local >= |boneMap| {
        i := i + 1;
        continue;
      }
      var global := boneMap[local];
      var weight := slots[i].RawWeight as real / 65535.0;
      if global as int == target && weight > 0.0 {
        return weight;
      }
      i := i + 1;
    }
    WeightFromRange(slots, boneMap, target, 0);
    return -1.0;
  }

  // ------------------------------------------------------------ all influences of a vertex

  /** FBoneWeightsInfo: parallel arrays of influencing global bones, their weights and their names. */
  datatype BoneWeightsInfo = BoneWeightsInfo(InfluencingBoneIndices: seq<uint16>, BoneWeights: seq<real>, BoneNames: seq<FName>)

  const EmptyInfo: BoneWeightsInfo := BoneWeightsInfo([], [], [])

  /** Every global bone of the bone map names a bone of the reference skeleton's name table. */
  predicate NamesBones(boneMap: seq<uint16>, names: seq<FName>)
  {
    forall j | 0 <= j < |boneMap| :: boneMap[j] as int < |names|
  }

  /** The slots of a vertex whose bone index is inside the bone map, in slot order. */
  function InRangeSlots(slots: seq<Influence>, boneMap: seq<uint16>): (r: seq<Influence>)
    ensures |r| <= |slots|
    ensures forall j | 0 <= j < |r| :: InRange(r[j], boneMap)
  {
    if |slots| == 0 then []
    else InRangeSlots(slots[..|slots| - 1], boneMap)
         + (if InRange(slots[|slots| - 1], boneMap) then [slots[|slots| - 1]] else [])
  }

  /** The info a vertex yields: one entry per in-range slot, zero weights included, with the skeleton's name of its bone. */
  function InfoOfSlots(slots: seq<Influence>, boneMap: seq<uint16>, names: seq<FName>): BoneWeightsInfo
    requires NamesBones(boneMap, names)
  {
    var kept := InRangeSlots(slots, boneMap);
    BoneWeightsInfo(seq(|kept|, j requires 0 <= j < |kept| => boneMap[kept[j].BoneIndex]),
                    seq(|kept|, j requires 0 <= j < |kept| => SlotWeight(kept[j])),
                    seq(|kept|, j requires 0 <= j < |kept| => names[boneMap[kept[j].BoneIndex]]))
  }

  function BoneWeightsInfoOf(buf: Option<SkinWeightBuffer>, section: RenderSection, names: seq<FName>, v: int): BoneWeightsInfo
    requires Readable(buf, v) && NamesBones(section.BoneMap, names)
  {
    if buf.None? || NumSkinVertices(buf.value) == 0 then EmptyInfo
    else InfoOfSlots(buf.value.Influences[v], section.BoneMap, names)
  }

  /** Every in-range slot of the vertex appears, in order, with a weight in [0, 1] and the name of its bone. */
  lemma {:induction false} InfoOfSlotsMeaning(slots: seq<Influence>, boneMap: seq<uint16>, names: seq<FName>)
    requires NamesBones(boneMap, names)
    ensures var info := InfoOfSlots(slots, boneMap, names);
      |info.InfluencingBoneIndices| == |info.BoneWeights| == |info.BoneNames| == |InRangeSlots(slots, boneMap)|
      && (forall j | 0 <= j < |info.BoneWeights| :: 0.0 <= info.BoneWeights[j] <= 1.0)
      && (forall j | 0 <= j < |info.InfluencingBoneIndices| ::
            info.InfluencingBoneIndices[j] in boneMap && info.BoneNames[j] == names[info.InfluencingBoneIndices[j]])
    ensures (forall j | 0 <= j < |slots| :: InRange(slots[j], boneMap)) ==> InRangeSlots(slots, boneMap) == slots
  {
    if |slots| > 0 {
      InfoOfSlotsMeaning(slots[..|slots| - 1], boneMap, names);
      assert slots[..|slots| - 1] + [slots[|slots| - 1]] == slots;
    }
  }

  /**
   * USlicingSkeletalMeshLibrary::GetBoneWeightsForVertex: every in-range slot,
   * zero weights included, with its bone's name from the component's reference
   * skeleton (`names`); an empty info when the buffer is missing or empty.
   */
  method GetBoneWeightsForVertex(names: seq<FName>, v: int, section: RenderSection, buf: Option<SkinWeightBuffer>)
    returns (info: BoneWeightsInfo)
    requires Readable(buf, v) && NamesBones(section.BoneMap, names)
    ensures info == BoneWeightsInfoOf(buf, section, names, v)
    ensures |info.InfluencingBoneIndices| == |info.BoneWeights| == |info.BoneNames|
  {
    if buf.None? || NumSkinVertices(buf.value) == 0 {
      return EmptyInfo;
    }
    var slots := buf.value.Influences[v];
    var boneMap := section.BoneMap;
    var bones: seq<uint16> := [];
    var weights: seq<real> := [];
    var boneNames: seq<FName> := [];
    ghost var kept: seq<Influence> := [];
    for i := 0 to |slots|
      invariant kept == InRangeSlots(slots[..i], boneMap)
      invariant |bones| == |weights| == |boneNames| == |kept|
      invariant forall j | 0 <= j < |kept| ::
        bones[j] == boneMap[kept[j].BoneIndex] && weights[j] == SlotWeight(kept[j]) && boneNames[j] == names[bones[j]]
    {
      assert slots[..i + 1][..i] == slots[..i];
      var local := slots[i].BoneIndex;
      if local >= |boneMap| {
        continue;
      }
      var weight := slots[i].RawWeight as real / 65535.0;
      weights := weights + [weight];
      bones := bones + [boneMap[local]];
      boneNames := boneNames + [names[boneMap[local]]];
      kept := kept + [slots[i]];
    }
    assert slots[..|slots|] == slots;
    info := BoneWeightsInfo(bones, weights, boneNames);
  }

  // ------------------------------------------------------------ section search

  /** The section's vertex range [BaseVertexIndex, BaseVertexIndex + NumVertices) holds `v`. */
  predicate Holds(section: RenderSection, v: int)
  {
    section.BaseVertexIndex <= v < section.BaseVertexIndex + section.NumVertices
  }

  /** The first render section whose vertex range holds `v`. */
  function SectionContaining(sections: seq<RenderSection>, v: int): (r: Option<nat>)
    ensures r.Some? ==> r.value < |sections| && Holds(sections[r.value], v)
    ensures r.Some? ==> forall s | 0 <= s < r.value :: !Holds(sections[s], v)
    ensures r.None? ==> forall s | 0 <= s < |sections| :: !Holds(sections[s], v)
  {
    if |sections| == 0 then None
    else if Holds(sections[0], v) then Some(0)
    else match SectionContaining(sections[1..], v)
      case None => None
      case Some(k) => Some(k + 1)
  }
}
