# AdvancedActionFeature mesh cutting, modelled in Dafny

This project models the core of the AdvancedActionFeature Unreal Engine plugin.
The plugin turns the part of a skeletal mesh weighted to one bone into a procedural mesh.
It cuts procedural meshes with a plane, and it carries skin weights from the skeletal vertices over to the cut pieces.
Engine buffers become Dafny sequences and maps, floats become `real`s, and the engine routines whose bodies are not part of this model become function parameters.

The modules follow the plugin's source files:

- `common.dfy` (`MeshCommon`) holds the shared value types: vectors, colours, boxes, planes, procedural vertices and sections. It also holds the old-to-new and new-to-old vertex maps that every copy loop builds.
- `skin_weights.dfy` (`SkinWeights`) covers render sections, influence slots and the single-bone weight lookup (`GetBoneWeightForVertex`). The lookup is a first-match scan, stated as a recursive function and implemented as a loop. It also covers the per-vertex influence info (`GetBoneWeightsForVertex`): bones, weights and the bones' names.
- `skel_lod.dfy` (`SkeletalLod`) holds the LOD data and the specification of bone filtering, which both filter variants share. A vertex is kept when its weight exceeds the threshold. Kept vertices get consecutive indices, and a triangle survives when all three corners were kept.
- `skel_to_proc.dfy` (`SkelToProc`) covers `USkelToProcMeshComponent`: the filter, the skin weights of one original vertex (normalised to sum to one), the skinning data array, and the colour override that hides the cut-off vertices.
- `slicing_component.dfy` (`SlicingComponent`) covers `USlicingSkelMeshComponent` as a class. Its member maps are updated by the filter variant that records both directions, and by the bone and parent validation of `SliceMeshInternal`, which then records the two fragments' weight maps.
- `weight_remap.dfy` (`WeightRemap`) chains the slice provenance through the procedural-to-skeletal map to look up weights and influence infos.
- `plane_slicer.dfy` (`PlaneSlicer`) holds the library's helpers: `BoxPlaneCompare`, `InterpolateVert`, the ear-clipping `TriangulatePoly` and `SliceConvexElem`.
- `section_slicer.dfy` (`SectionSlicer`) cuts one straddling section. It partitions the vertices by the sign of their plane distance and routes each triangle: whole to one side, or clipped into two fans with one clip edge. The triangle loop is proved equal to a closed form, and the closed form is characterised by lemmas. Among them: the cut vertices and clip edges lie on the plane, and every vertex of the kept half is on or above the plane, every vertex of the other half on or below it (the promise of SlicingSkeletalMeshLibrary.h:44).
- `slice_mesh.dfy` (`SliceMesh`) covers `SliceProceduralMesh` over a `ProcMeshComponent` class: the section loop, the cap and its mirrored copy for the other half, the convex-hull collision and the creation of the other-half component.

The provenance maps follow the code: the "global" vertex offsets of `SliceProceduralMesh` are never advanced. Keys are therefore section-local, and a later section's entry replaces an earlier one (map update `+`).
The other-half component is created whenever it is asked for, even when nothing crossed the plane.

Where the plugin's description and its code disagree, the model follows the code. With a target bone that is NAME_None or unknown, the description says `USkelToProcMeshComponent`'s filter keeps every vertex. The code looks the weights up for INDEX_NONE; every lookup then yields -1, so no vertex is kept and the extraction fails (`SkeletalLod.NoBoneKeepsNothing`).

## Model

| member | source | states |
|---|---|---|
| MeshCommon.Wrap32 | Plugins/AdvancedActionFeature/Source/AdvancedActionFeature/Private/SlicingSkeletalMeshLibrary.cpp:598-606 | the mirrored cap index (index plus a possibly negative offset, stored as uint32) is below 2^32 and equals the plain sum when that sum is in range |
| MeshCommon.BoxAddGrows | Plugins/AdvancedActionFeature/Source/AdvancedActionFeature/Private/SlicingSkeletalMeshLibrary.cpp:328 | adding a point to a box yields a box that holds the point and every point the old box held |
| MeshCommon.VertexBoxGrows | Plugins/AdvancedActionFeature/Source/AdvancedActionFeature/Private/SlicingSkeletalMeshLibrary.cpp:326-339 | the box built from a section's vertices is the empty box grown by each vertex in order |
| MeshCommon.GrowBoxHolds | Plugins/AdvancedActionFeature/Source/AdvancedActionFeature/Private/SlicingSkeletalMeshLibrary.cpp:326-339 | a box grown over a list of vertices holds every one of them and everything it held before |
| MeshCommon.GrowBoxAppend | Plugins/AdvancedActionFeature/Source/AdvancedActionFeature/Private/SlicingSkeletalMeshLibrary.cpp:543-556 | growing a box over two lists in turn equals growing it over their concatenation (the cap box grown polygon by polygon) |
| MeshCommon.SetMaterialAt | Plugins/AdvancedActionFeature/Source/AdvancedActionFeature/Private/SlicingSkeletalMeshLibrary.cpp:562-565 | setting a material at i leaves a list long enough to hold i, with the new material at i and every other old entry unchanged |
| MeshCommon.CompactIndexOfInverts | Plugins/AdvancedActionFeature/Source/AdvancedActionFeature/Private/SlicingSkeletalMeshLibrary.cpp:326-339 | the old-to-new vertex map holds exactly the copied vertices and sends each to a position holding that vertex |
| MeshCommon.CompactIndexOfAppend | Plugins/AdvancedActionFeature/Source/AdvancedActionFeature/Private/SlicingSkeletalMeshLibrary.cpp:330 | copying one more vertex adds exactly the entry from that vertex to the next free position |
| MeshCommon.CompactIndexOfPositions | Plugins/AdvancedActionFeature/Source/AdvancedActionFeature/Private/SkelToProcMeshComponent.cpp:267-303 | for vertices copied in increasing order, the old-to-new map sends the j-th copied vertex to j |
| MeshCommon.PositionMap | Plugins/AdvancedActionFeature/Source/AdvancedActionFeature/Private/SlicingSkeletalMeshLibrary.cpp:331 | the new-to-old provenance map has a key for every copied position and no other, and names the base vertex copied there |
| SkinWeights.WeightFromFirstMatch | Plugins/AdvancedActionFeature/Source/AdvancedActionFeature/Private/SlicingSkeletalMeshLibrary.cpp:693-714 | the slot scan yields -1 exactly when no slot names the bone with a positive weight, and otherwise the weight of the first slot that does |
| SkinWeights.WeightFromRange | Plugins/AdvancedActionFeature/Source/AdvancedActionFeature/Private/SlicingSkeletalMeshLibrary.cpp:693-714 | the slot scan yields -1 or a weight in (0, 1] |
| SkinWeights.NoBoneHasNoWeight | Plugins/AdvancedActionFeature/Source/AdvancedActionFeature/Private/SkelToProcMeshComponent.cpp:368-388 | a lookup for INDEX_NONE yields -1 for every readable vertex |
| SkinWeights.GetBoneWeightForVertex | Plugins/AdvancedActionFeature/Source/AdvancedActionFeature/Private/SlicingSkeletalMeshLibrary.cpp:693-714 | the loop returns the first-match weight of the specification function, and that weight is -1 or in (0, 1] (the SkelToProc copy at SkelToProcMeshComponent.cpp:368-388 is the same procedure) |
| SkinWeights.InRangeSlots | Plugins/AdvancedActionFeature/Source/AdvancedActionFeature/Private/SlicingSkeletalMeshLibrary.cpp:716-737 | the slots kept for the info are no more than the vertex has, and each names an index inside the section's bone map |
| SkinWeights.InfoOfSlotsMeaning | Plugins/AdvancedActionFeature/Source/AdvancedActionFeature/Private/SlicingSkeletalMeshLibrary.cpp:716-737 | the info has as many bones, weights and bone names as in-range slots, each weight in [0, 1], each bone taken from the section's bone map and each name the skeleton's name of that bone; with every slot in range none is dropped |
| SkinWeights.GetBoneWeightsForVertex | Plugins/AdvancedActionFeature/Source/AdvancedActionFeature/Private/SlicingSkeletalMeshLibrary.cpp:716-737 | the loop returns the info of the specification function, with equally long bone, weight and bone-name arrays |
| SkinWeights.SectionContaining | Plugins/AdvancedActionFeature/Source/AdvancedActionFeature/Private/SlicingSkeletalMeshLibrary.cpp:794-801 | the section found is the first whose vertex range holds the vertex; none is found exactly when no section holds it |
| SkeletalLod.FindBoneIndex | Plugins/AdvancedActionFeature/Source/AdvancedActionFeature/Private/SkelToProcMeshComponent.cpp:222-231 | the index found names the bone and is the first such; INDEX_NONE exactly when the name is NAME_None or not in the skeleton |
| SkeletalLod.FindBoneFrom | Plugins/AdvancedActionFeature/Source/AdvancedActionFeature/Private/SkelToProcMeshComponent.cpp:222-231 | the scan from i finds the first position at or after i holding the name, or INDEX_NONE when none does |
| SkeletalLod.ParentIndex | Plugins/AdvancedActionFeature/Source/AdvancedActionFeature/Private/SlicingSkelMeshComponent.cpp:187-207 | a bone's parent is INDEX_NONE or a bone with a smaller index |
| SkeletalLod.KeptInSectionMembership | Plugins/AdvancedActionFeature/Source/AdvancedActionFeature/Private/SkelToProcMeshComponent.cpp:267-303 | a vertex is kept from a section exactly when it lies in the section's range scanned so far and its weight for the bone exceeds the threshold |
| SkeletalLod.KeptVerticesMembership | Plugins/AdvancedActionFeature/Source/AdvancedActionFeature/Private/SkelToProcMeshComponent.cpp:267-303 | a vertex is kept exactly when some render section holds it and its weight for the bone in that section exceeds the threshold |
| SkeletalLod.KeptVerticesInLod | Plugins/AdvancedActionFeature/Source/AdvancedActionFeature/Private/SkelToProcMeshComponent.cpp:267-303 | every kept vertex is a vertex of the LOD |
| SkeletalLod.NoBoneKeepsNothing | Plugins/AdvancedActionFeature/Source/AdvancedActionFeature/Private/SkelToProcMeshComponent.cpp:226-231 | with an unknown bone (INDEX_NONE) and a threshold of -1 or more, no vertex is kept |
| SkeletalLod.NoBufferAllOrNothing | Plugins/AdvancedActionFeature/Source/AdvancedActionFeature/Private/SlicingSkeletalMeshLibrary.cpp:693-714 | without a skin-weight buffer every weight is -1, so a section keeps nothing for a threshold of -1 or more and every vertex for a lower one |
| SkeletalLod.KeptInSectionIncreasing | Plugins/AdvancedActionFeature/Source/AdvancedActionFeature/Private/SkelToProcMeshComponent.cpp:267-303 | a section's kept vertices are strictly increasing and lie in the section's range |
| SkeletalLod.KeptVerticesIncreasing | Plugins/AdvancedActionFeature/Source/AdvancedActionFeature/Private/SkelToProcMeshComponent.cpp:267-303 | with ascending, disjoint sections the kept vertices are strictly increasing and end before the last section ends |
| SkeletalLod.RemapTrianglesMeaning | Plugins/AdvancedActionFeature/Source/AdvancedActionFeature/Private/SkelToProcMeshComponent.cpp:307-340 | the rebuilt index list has three entries per surviving triangle, in order, each corner remapped through the old-to-new map; a triangle survives exactly when its three corners are in the buffer and in the map |
| SkeletalLod.RemapTrianglesBounded | Plugins/AdvancedActionFeature/Source/AdvancedActionFeature/Private/SkelToProcMeshComponent.cpp:307-340 | every rebuilt index is below any bound of the map's values, and the list is whole triangles |
| SkeletalLod.CopyKeptVertices | Plugins/AdvancedActionFeature/Source/AdvancedActionFeature/Private/SkelToProcMeshComponent.cpp:267-303 | the vertex loop copies exactly the kept vertices' positions, normals, tangents and UVs in order and returns the matching old-to-new map |
| SkeletalLod.KeptVerticesSnoc | Plugins/AdvancedActionFeature/Source/AdvancedActionFeature/Private/SkelToProcMeshComponent.cpp:267-303 | the kept vertices of one more section are those of the earlier sections followed by the new section's |
| SkeletalLod.CopySectionVertices | Plugins/AdvancedActionFeature/Source/AdvancedActionFeature/Private/SkelToProcMeshComponent.cpp:271-302 | one section's pass appends exactly that section's kept vertices and extends the map, leaving colours and section data alone |
| SkeletalLod.CopyVertexStep | Plugins/AdvancedActionFeature/Source/AdvancedActionFeature/Private/SkelToProcMeshComponent.cpp:275-301 | one vertex step keeps the copy invariant: the vertex is appended exactly when its weight exceeds the threshold |
| SkeletalLod.AppendVertex | Plugins/AdvancedActionFeature/Source/AdvancedActionFeature/Private/SkelToProcMeshComponent.cpp:280-300 | appending a vertex copies its four attributes and maps it to the next free position |
| SkeletalLod.RebuildSectionIndices | Plugins/AdvancedActionFeature/Source/AdvancedActionFeature/Private/SkelToProcMeshComponent.cpp:307-340 | each section gets its material index and exactly its surviving triangles remapped |
| SkeletalLod.FindAnyTriangles | Plugins/AdvancedActionFeature/Source/AdvancedActionFeature/Private/SkelToProcMeshComponent.cpp:341-349 | the scan reports whether some section has an index |
| SkelToProc.GetFilteredSkeletalMeshDataByBoneName | Plugins/AdvancedActionFeature/Source/AdvancedActionFeature/Private/SkelToProcMeshComponent.cpp:209-355 | fails with empty outputs without a valid LOD or skin weights; otherwise copies exactly the kept vertices, presizes colours, returns the old-to-new map, rebuilds every section, keeps every index in range, and succeeds exactly when some vertex and some triangle survive |
| SkelToProc.ContributingSlots | Plugins/AdvancedActionFeature/Source/AdvancedActionFeature/Private/SkelToProcMeshComponent.cpp:598-622 | every slot kept for the skin weights names an active bone with a positive weight |
| SkelToProc.Scaled | Plugins/AdvancedActionFeature/Source/AdvancedActionFeature/Private/SkelToProcMeshComponent.cpp:624-631 | normalising keeps the number of weights |
| SkelToProc.SumScaled | Plugins/AdvancedActionFeature/Source/AdvancedActionFeature/Private/SkelToProcMeshComponent.cpp:624-631 | dividing every weight by the total divides the sum by the total |
| SkelToProc.SumNonNegative | Plugins/AdvancedActionFeature/Source/AdvancedActionFeature/Private/SkelToProcMeshComponent.cpp:598-622 | weights that are all non-negative have a non-negative sum |
| SkelToProc.SkinWeightsForMeaning | Plugins/AdvancedActionFeature/Source/AdvancedActionFeature/Private/SkelToProcMeshComponent.cpp:581-634 | the bones and weights pair up one per contributing slot, each bone mapped through the active-bone list and each weight non-negative; a total above KINDA_SMALL_NUMBER is left within KINDA_SMALL_NUMBER of 1, and a total that needs normalising is scaled to exactly 1 |
| SkelToProc.GetSkinWeightsForOriginalVertex | Plugins/AdvancedActionFeature/Source/AdvancedActionFeature/Private/SkelToProcMeshComponent.cpp:581-634 | the loop fills the entry with the specification's weights and succeeds exactly when the vertex is readable and some bone contributes |
| SkelToProc.BuildSkinningDataForProceduralMesh | Plugins/AdvancedActionFeature/Source/AdvancedActionFeature/Private/SkelToProcMeshComponent.cpp:520-578 | fails and leaves the data alone without a LOD with skin weights; otherwise one entry per copied vertex, default where no pair names it, positioned where a pair does, and filled from that original vertex when the member map is injective |
| SkelToProc.FillSkinningEntries | Plugins/AdvancedActionFeature/Source/AdvancedActionFeature/Private/SkelToProcMeshComponent.cpp:541-575 | the member-map loop yields one entry per vertex: default entries no pair names, the copied position where a pair does, and the original vertex's skin weights for an injective map |
| SkelToProc.FillEntry | Plugins/AdvancedActionFeature/Source/AdvancedActionFeature/Private/SkelToProcMeshComponent.cpp:557-575 | one pair fills its entry and keeps the fill invariant |
| SkelToProc.HitsAll | Plugins/AdvancedActionFeature/Source/AdvancedActionFeature/Private/SkelToProcMeshComponent.cpp:557-575 | after every pair, the entries written are exactly the in-range values of the map |
| SkelToProc.FillStep | Plugins/AdvancedActionFeature/Source/AdvancedActionFeature/Private/SkelToProcMeshComponent.cpp:557-575 | writing one pair's entry adds its position to those written and keeps every earlier entry's meaning |
| SkelToProc.HiddenVertices | Plugins/AdvancedActionFeature/Source/AdvancedActionFeature/Private/SkelToProcMeshComponent.cpp:459-470 | a vertex is hidden exactly when it is a LOD vertex whose weight for the bone, read with the bone map of render section LODIndex, exceeds the threshold |
| SkelToProc.HideOriginalMeshVerticesByBone | Plugins/AdvancedActionFeature/Source/AdvancedActionFeature/Private/SkelToProcMeshComponent.cpp:412-518 | fails without an asset, a known bone, render data, vertices or a skin-weight buffer; otherwise, when some vertex is hidden, submits one colour per vertex that is the existing colour (or white) with alpha 0 exactly at the hidden vertices, and else clears the override when asked (the component copy at SlicingSkelMeshComponent.cpp:511-616 is the same procedure) |
| SkelToProc.OverrideColors | Plugins/AdvancedActionFeature/Source/AdvancedActionFeature/Private/SkelToProcMeshComponent.cpp:472-507 | the override has one colour per LOD vertex: the base colour, with alpha 0 exactly at the vertices to hide |
| SlicingComponent.NoBufferKeepsNothing | Plugins/AdvancedActionFeature/Source/AdvancedActionFeature/Private/SlicingSkelMeshComponent.cpp:313-335 | with filtering switched off no buffer is read, so no vertex passes a threshold of -1 or more |
| SlicingComponent.FilterMapsInverse | Plugins/AdvancedActionFeature/Source/AdvancedActionFeature/Private/SlicingSkelMeshComponent.cpp:375-392 | the procedural-to-skeletal map and the skeletal-to-procedural map built by the filter are inverse to each other |
| SlicingComponent.RootBoneCannotAttach | Plugins/AdvancedActionFeature/Source/AdvancedActionFeature/Private/SlicingSkelMeshComponent.cpp:187-232 | cutting at a root bone while the parent name is still NAME_None always fails the attach check |
| SlicingComponent.SlicingSkelMeshComponent.constructor | Plugins/AdvancedActionFeature/Source/AdvancedActionFeature/Public/SlicingSkelMeshComponent.h:36-118 | the component starts at LOD 0, copying colours, with no target or parent bone, a threshold of 0.01 and empty maps |
| SlicingComponent.SlicingSkelMeshComponent.GetFilteredSkeletalMeshDataByBoneName | Plugins/AdvancedActionFeature/Source/AdvancedActionFeature/Private/SlicingSkelMeshComponent.cpp:297-507 | succeeds exactly when no early check rejects; then copies exactly the kept vertices in order, one opaque black colour per kept vertex after the presized slots, every section with its material and surviving triangles, every index in range, and records the procedural-to-skeletal map over the old one |
| SlicingComponent.SlicingSkelMeshComponent.RecordKeptVertices | Plugins/AdvancedActionFeature/Source/AdvancedActionFeature/Private/SlicingSkelMeshComponent.cpp:388-412 | procedural vertex j is recorded as coming from the j-th kept vertex and one opaque black colour is added per vertex |
| SlicingComponent.SlicingSkelMeshComponent.AttachAndMapWeights | Plugins/AdvancedActionFeature/Source/AdvancedActionFeature/Private/SlicingSkelMeshComponent.cpp:187-260 | fails for an unknown bone or a missing other half; otherwise stores the parent name and succeeds exactly when it is a valid attach target, then records the bone-weight maps for the cut bone and its parent |
| WeightRemap.FindSection | Plugins/AdvancedActionFeature/Source/AdvancedActionFeature/Private/SlicingSkeletalMeshLibrary.cpp:794-801 | the loop finds the first section holding the vertex, as the specification function does |
| WeightRemap.ChainedWeightRange | Plugins/AdvancedActionFeature/Source/AdvancedActionFeature/Private/SlicingSkeletalMeshLibrary.cpp:772-815 | a vertex whose chain of maps does not reach a skeletal vertex gets weight 0; every weight is -1 or in [0, 1] |
| WeightRemap.GetBoneWeightMapForProceduralVertices | Plugins/AdvancedActionFeature/Source/AdvancedActionFeature/Private/SlicingSkeletalMeshLibrary.cpp:739-818 | empty on every early return; otherwise one entry per key of the slice map holding the chained weight of that key's pre-slice vertex |
| WeightRemap.ChainedInfoMeaning | Plugins/AdvancedActionFeature/Source/AdvancedActionFeature/Private/SlicingSkeletalMeshLibrary.cpp:822-881 | every info has as many bones as weights and names, each weight in [0, 1], each name the skeleton's name of its bone, each bone from the bone map of the section holding the vertex |
| WeightRemap.GetBoneWeightsInfoMapForSlicedProcMeshVertices | Plugins/AdvancedActionFeature/Source/AdvancedActionFeature/Private/SlicingSkeletalMeshLibrary.cpp:822-881 | empty on every early return; otherwise exactly the keys of the map, each holding the influences of the skeletal vertex it names |
| PlaneSlicer.BoxPlaneCompare | Plugins/AdvancedActionFeature/Source/AdvancedActionFeature/Private/SlicingSkeletalMeshLibrary.cpp:26-49 | the comparison is 1, 0 or -1 |
| PlaneSlicer.BoxPlaneCompareSound | Plugins/AdvancedActionFeature/Source/AdvancedActionFeature/Private/SlicingSkeletalMeshLibrary.cpp:26-49 | when the box is wholly in front (1) or wholly behind (-1), every point in it is strictly in front or strictly behind |
| PlaneSlicer.PlaneDotNearCentre | Plugins/AdvancedActionFeature/Source/AdvancedActionFeature/Private/SlicingSkeletalMeshLibrary.cpp:26-49 | a point's plane distance differs from the centre's by at most the box's push-out along each axis |
| PlaneSlicer.InterpolateVert | Plugins/AdvancedActionFeature/Source/AdvancedActionFeature/Private/SlicingSkeletalMeshLibrary.cpp:52-78 | a non-finite alpha returns the second vertex unchanged; otherwise the position is the linear blend and the flip flag comes from the first vertex |
| PlaneSlicer.LerpBetween | Plugins/AdvancedActionFeature/Source/AdvancedActionFeature/Private/SlicingSkeletalMeshLibrary.cpp:52-78 | a blend with alpha in [0, 1] lies between its two ends |
| PlaneSlicer.InterpolateChannelBetween | Plugins/AdvancedActionFeature/Source/AdvancedActionFeature/Private/SlicingSkeletalMeshLibrary.cpp:72-75 | a blended colour channel with alpha in [0, 1] lies between the two channels |
| PlaneSlicer.InterpolateVertEnds | Plugins/AdvancedActionFeature/Source/AdvancedActionFeature/Private/SlicingSkeletalMeshLibrary.cpp:52-78 | alpha 0 gives the first vertex's position and colour, alpha 1 the second's |
| PlaneSlicer.FindVertInside | Plugins/AdvancedActionFeature/Source/AdvancedActionFeature/Private/SlicingSkeletalMeshLibrary.cpp:156-170 | the scan reports whether some remaining vertex lies inside the candidate ear |
| PlaneSlicer.FindEar | Plugins/AdvancedActionFeature/Source/AdvancedActionFeature/Private/SlicingSkeletalMeshLibrary.cpp:132-186 | the scan returns the first ear corner, or none when no corner is an ear |
| PlaneSlicer.DeterminantRotates | Plugins/AdvancedActionFeature/Source/AdvancedActionFeature/Private/SlicingSkeletalMeshLibrary.cpp:148-151 | the ear test's determinant (AB x AC) . normal is the same for a triangle's corners taken from any of its three starting points |
| PlaneSlicer.DropKeepsOrder | Plugins/AdvancedActionFeature/Source/AdvancedActionFeature/Private/SlicingSkeletalMeshLibrary.cpp:179-180 | removing the clipped corner keeps the remaining vertex indices in polygon order, each one of the old ones, one fewer |
| PlaneSlicer.UnitSquareInConvexPosition | Plugins/AdvancedActionFeature/Source/AdvancedActionFeature/Private/SlicingSkeletalMeshLibrary.cpp:148-153 | a unit square listed clockwise about +Z is in convex position, every triple of its corners in order turning strictly, so the success clause of `TriangulatePoly` covers real polygons |
| PlaneSlicer.ConvexCornerIsEar | Plugins/AdvancedActionFeature/Source/AdvancedActionFeature/Private/SlicingSkeletalMeshLibrary.cpp:136-172 | when the remaining vertices are in polygon order, the polygon is in convex position (every triple in order turns the same way) and no vertex lies inside a triangle of three others, the first remaining corner passes both the convexity and the inside tests |
| PlaneSlicer.TriangulatePoly | Plugins/AdvancedActionFeature/Source/AdvancedActionFeature/Private/SlicingSkeletalMeshLibrary.cpp:106-196 | fewer than three vertices append 0, 2, 1; success appends n - 2 triangles over the polygon's vertices after the old triangles; failure leaves the old triangles; a polygon in convex position with no vertex inside a triangle of three others always succeeds |
| PlaneSlicer.SliceConvexElem | Plugins/AdvancedActionFeature/Source/AdvancedActionFeature/Private/SlicingSkeletalMeshLibrary.cpp:199-218 | a hull with fewer than four planes gives nothing; a result is the hull rebuilt from its planes plus the flipped slice plane |
| SectionSlicer.AddVertex | Plugins/AdvancedActionFeature/Source/AdvancedActionFeature/Private/SlicingSkeletalMeshLibrary.cpp:326-328 | adding a vertex appends it and keeps the indices and the box invariant |
| SectionSlicer.Distances | Plugins/AdvancedActionFeature/Source/AdvancedActionFeature/Private/SlicingSkeletalMeshLibrary.cpp:316-320 | one plane distance per vertex |
| SectionSlicer.SideVerticesMembers | Plugins/AdvancedActionFeature/Source/AdvancedActionFeature/Private/SlicingSkeletalMeshLibrary.cpp:316-341 | a vertex goes to the kept side exactly when its distance is positive, to the other side otherwise |
| SectionSlicer.SideVerticesIncreasing | Plugins/AdvancedActionFeature/Source/AdvancedActionFeature/Private/SlicingSkeletalMeshLibrary.cpp:316-341 | each side receives its vertices in increasing order |
| SectionSlicer.SideVerticesSplit | Plugins/AdvancedActionFeature/Source/AdvancedActionFeature/Private/SlicingSkeletalMeshLibrary.cpp:316-341 | the two sides together receive every vertex exactly once |
| SectionSlicer.Pick | Plugins/AdvancedActionFeature/Source/AdvancedActionFeature/Private/SlicingSkeletalMeshLibrary.cpp:326-336 | the side's vertices are the base vertices at the picked positions |
| SectionSlicer.PositionMapAppend | Plugins/AdvancedActionFeature/Source/AdvancedActionFeature/Private/SlicingSkeletalMeshLibrary.cpp:331-339 | recording one more vertex adds exactly the entry for its new position |
| SectionSlicer.AppendToSide | Plugins/AdvancedActionFeature/Source/AdvancedActionFeature/Private/SlicingSkeletalMeshLibrary.cpp:323-340 | copying a vertex to a side appends it, extends the base-to-side map and records its provenance |
| SectionSlicer.PassVertex | Plugins/AdvancedActionFeature/Source/AdvancedActionFeature/Private/SlicingSkeletalMeshLibrary.cpp:323-340 | one vertex on its side keeps the pass invariant |
| SectionSlicer.PassOver | Plugins/AdvancedActionFeature/Source/AdvancedActionFeature/Private/SlicingSkeletalMeshLibrary.cpp:323-340 | a vertex on the other side leaves this side's pass invariant intact |
| SectionSlicer.PassStep | Plugins/AdvancedActionFeature/Source/AdvancedActionFeature/Private/SlicingSkeletalMeshLibrary.cpp:316-341 | one step of the vertex pass keeps the invariant for both sides |
| SectionSlicer.PartitionVertices | Plugins/AdvancedActionFeature/Source/AdvancedActionFeature/Private/SlicingSkeletalMeshLibrary.cpp:316-341 | the vertex pass returns the plane distances and leaves each side holding exactly its vertices with their maps and provenance |
| SectionSlicer.AppendDistance | Plugins/AdvancedActionFeature/Source/AdvancedActionFeature/Private/SlicingSkeletalMeshLibrary.cpp:320 | one more distance is recorded |
| SectionSlicer.PassedSideKeys | Plugins/AdvancedActionFeature/Source/AdvancedActionFeature/Private/SlicingSkeletalMeshLibrary.cpp:316-341 | after the pass the base-to-side map holds exactly the side's vertices, each mapped into the side |
| SectionSlicer.MixedCrossesTwice | Plugins/AdvancedActionFeature/Source/AdvancedActionFeature/Private/SlicingSkeletalMeshLibrary.cpp:481-487 | a mixed triangle has exactly two crossing edges; any other has none |
| SectionSlicer.CrossingAfterAtMostOne | Plugins/AdvancedActionFeature/Source/AdvancedActionFeature/Private/SlicingSkeletalMeshLibrary.cpp:448-458 | a crossing edge is met with at most one crossing before it |
| SectionSlicer.EdgeAlphaInRange | Plugins/AdvancedActionFeature/Source/AdvancedActionFeature/Private/SlicingSkeletalMeshLibrary.cpp:425-427 | the interpolation alpha of a crossing edge lies in [0, 1] |
| SectionSlicer.CrossPoints | Plugins/AdvancedActionFeature/Source/AdvancedActionFeature/Private/SlicingSkeletalMeshLibrary.cpp:425-458 | one cut point per crossing edge met so far |
| SectionSlicer.SidePolySize | Plugins/AdvancedActionFeature/Source/AdvancedActionFeature/Private/SlicingSkeletalMeshLibrary.cpp:402-458 | the side polygon has one corner per crossing plus one per corner on that side |
| SectionSlicer.SidePolyBounded | Plugins/AdvancedActionFeature/Source/AdvancedActionFeature/Private/SlicingSkeletalMeshLibrary.cpp:402-458 | every corner of the side polygon is an existing or a newly added vertex |
| SectionSlicer.Fan | Plugins/AdvancedActionFeature/Source/AdvancedActionFeature/Private/SlicingSkeletalMeshLibrary.cpp:463-478 | a fan over k corners has k - 2 triangles |
| SectionSlicer.FanBounded | Plugins/AdvancedActionFeature/Source/AdvancedActionFeature/Private/SlicingSkeletalMeshLibrary.cpp:463-478 | a fan uses only the polygon's corners |
| SectionSlicer.Mapped | Plugins/AdvancedActionFeature/Source/AdvancedActionFeature/Private/SlicingSkeletalMeshLibrary.cpp:352-361 | each corner on a side is mapped to its index in that side |
| SectionSlicer.ClipSideStep | Plugins/AdvancedActionFeature/Source/AdvancedActionFeature/Private/SlicingSkeletalMeshLibrary.cpp:402-446 | one edge step adds the corner on this side and, for a crossing edge, the interpolated vertex |
| SectionSlicer.EmitFan | Plugins/AdvancedActionFeature/Source/AdvancedActionFeature/Private/SlicingSkeletalMeshLibrary.cpp:463-478 | emitting the fan appends exactly the fan triangles |
| SectionSlicer.ClippedPolySize | Plugins/AdvancedActionFeature/Source/AdvancedActionFeature/Private/SlicingSkeletalMeshLibrary.cpp:386-478 | the clipped polygon of a mixed triangle has its corners on that side plus two |
| SectionSlicer.ClipEdgesOf | Plugins/AdvancedActionFeature/Source/AdvancedActionFeature/Private/SlicingSkeletalMeshLibrary.cpp:402-458 | the edge loop leaves both sides and the clip edge as the per-edge invariant describes |
| SectionSlicer.RecordCut | Plugins/AdvancedActionFeature/Source/AdvancedActionFeature/Private/SlicingSkeletalMeshLibrary.cpp:448-458 | the first cut point becomes V0 and the second V1 |
| SectionSlicer.CloseSide | Plugins/AdvancedActionFeature/Source/AdvancedActionFeature/Private/SlicingSkeletalMeshLibrary.cpp:463-478 | closing a side appends its fan and keeps the section valid |
| SectionSlicer.ClipTriangle | Plugins/AdvancedActionFeature/Source/AdvancedActionFeature/Private/SlicingSkeletalMeshLibrary.cpp:386-488 | a mixed triangle adds two cut points to each side, fans each side's polygon, and records one clip edge between the two cut points |
| SectionSlicer.Corners | Plugins/AdvancedActionFeature/Source/AdvancedActionFeature/Private/SlicingSkeletalMeshLibrary.cpp:352-361 | a triangle's three corners are vertices of the section |
| SectionSlicer.CornerDists | Plugins/AdvancedActionFeature/Source/AdvancedActionFeature/Private/SlicingSkeletalMeshLibrary.cpp:397-400 | each corner gets its vertex's distance |
| SectionSlicer.SideIndices | Plugins/AdvancedActionFeature/Source/AdvancedActionFeature/Private/SlicingSkeletalMeshLibrary.cpp:368-478 | a triangle contributes three indices per triangle on that side |
| SectionSlicer.RouteTriangle | Plugins/AdvancedActionFeature/Source/AdvancedActionFeature/Private/SlicingSkeletalMeshLibrary.cpp:352-488 | a triangle wholly on one side is copied there; a mixed one is clipped; the clip edge is recorded only for a mixed one |
| SectionSlicer.RoutedIndices | Plugins/AdvancedActionFeature/Source/AdvancedActionFeature/Private/SlicingSkeletalMeshLibrary.cpp:345-489 | the indices routed so far are three per triangle routed to that side |
| SectionSlicer.RoutedPointsCount | Plugins/AdvancedActionFeature/Source/AdvancedActionFeature/Private/SlicingSkeletalMeshLibrary.cpp:345-489 | the triangle pass adds two cut points per mixed triangle and one clip edge per mixed triangle |
| SectionSlicer.RoutedIndicesUnfold | Plugins/AdvancedActionFeature/Source/AdvancedActionFeature/Private/SlicingSkeletalMeshLibrary.cpp:345-489 | the indices after t + 1 triangles are those after t followed by the next triangle's |
| SectionSlicer.TriCountSplit | Plugins/AdvancedActionFeature/Source/AdvancedActionFeature/Private/SlicingSkeletalMeshLibrary.cpp:345-489 | the triangles produced on the two sides number the triangles seen plus two per mixed one |
| SectionSlicer.RoutedStart | Plugins/AdvancedActionFeature/Source/AdvancedActionFeature/Private/SlicingSkeletalMeshLibrary.cpp:345 | before the triangle pass nothing is routed |
| SectionSlicer.RoutedSectionStep | Plugins/AdvancedActionFeature/Source/AdvancedActionFeature/Private/SlicingSkeletalMeshLibrary.cpp:345-489 | routing one more triangle takes the closed form at t to the closed form at t + 1 |
| SectionSlicer.RouteFoldRouted | Plugins/AdvancedActionFeature/Source/AdvancedActionFeature/Private/SlicingSkeletalMeshLibrary.cpp:345-489 | the triangle-by-triangle fold equals the closed form for every t |
| SectionSlicer.RouteStep | Plugins/AdvancedActionFeature/Source/AdvancedActionFeature/Private/SlicingSkeletalMeshLibrary.cpp:345-489 | one triangle step is the fold step and keeps both sides valid and growing |
| SectionSlicer.RouteTriangles | Plugins/AdvancedActionFeature/Source/AdvancedActionFeature/Private/SlicingSkeletalMeshLibrary.cpp:345-489 | the triangle loop yields the fold over all triangles and leaves both sides valid |
| SectionSlicer.SideOf | Plugins/AdvancedActionFeature/Source/AdvancedActionFeature/Private/SlicingSkeletalMeshLibrary.cpp:316-341 | every vertex copied to a side is a base vertex |
| SectionSlicer.SliceStraddlingSection | Plugins/AdvancedActionFeature/Source/AdvancedActionFeature/Private/SlicingSkeletalMeshLibrary.cpp:290-489 | a straddling section is split into the kept half and, when wanted, the other half, each a valid section, with the cut edges and the provenance of every vertex copied |
| SectionSlicer.PassedHalf | Plugins/AdvancedActionFeature/Source/AdvancedActionFeature/Private/SlicingSkeletalMeshLibrary.cpp:316-489 | the routed section after the vertex pass and all triangles is the half the specification defines |
| SectionSlicer.TriCountCoversMixed | Plugins/AdvancedActionFeature/Source/AdvancedActionFeature/Private/SlicingSkeletalMeshLibrary.cpp:386-488 | each side gets at least one triangle per mixed triangle |
| SectionSlicer.HalvesBalance | Plugins/AdvancedActionFeature/Source/AdvancedActionFeature/Private/SlicingSkeletalMeshLibrary.cpp:345-489 | the two halves together hold the base vertices plus four per cut edge and the base indices plus six per cut edge; with a cut, each half has a triangle |
| SectionSlicer.HalfOfCopiesSide | Plugins/AdvancedActionFeature/Source/AdvancedActionFeature/Private/SlicingSkeletalMeshLibrary.cpp:316-341 | a half holds exactly its side's vertices in increasing base order, and its provenance and base-to-half maps are inverse |
| SectionSlicer.CutOnPlane | Plugins/AdvancedActionFeature/Source/AdvancedActionFeature/Private/SlicingSkeletalMeshLibrary.cpp:425-427 | the vertex interpolated on an edge that changes side lies on the plane |
| SectionSlicer.CrossPointsOnPlane | Plugins/AdvancedActionFeature/Source/AdvancedActionFeature/Private/SlicingSkeletalMeshLibrary.cpp:402-456 | every cut vertex the edge loop of a triangle creates lies on the plane |
| SectionSlicer.RoutedPointsOnPlane | Plugins/AdvancedActionFeature/Source/AdvancedActionFeature/Private/SlicingSkeletalMeshLibrary.cpp:345-488 | every cut vertex the triangle pass appends to a half lies on the plane |
| SectionSlicer.HalfOnItsSide | Plugins/AdvancedActionFeature/Source/AdvancedActionFeature/Private/SlicingSkeletalMeshLibrary.cpp:316-488 | geometry on the positive side is kept: every vertex of the kept half has a distance of at least 0, every vertex of the other half at most 0, and the cut vertices after the base vertices lie on the plane |
| SectionSlicer.RoutedEdgesOnPlane | Plugins/AdvancedActionFeature/Source/AdvancedActionFeature/Private/SlicingSkeletalMeshLibrary.cpp:402-487 | both ends of every clip edge of the triangle pass lie on the plane |
| SectionSlicer.CutEdgesOnPlane | Plugins/AdvancedActionFeature/Source/AdvancedActionFeature/Private/SlicingSkeletalMeshLibrary.cpp:345-488 | both ends of every clip edge a straddling section records lie on the plane |
| SliceMesh.SetSectionAt | Plugins/AdvancedActionFeature/Source/AdvancedActionFeature/Private/SlicingSkeletalMeshLibrary.cpp:498-507 | setting a section at i grows the list to hold i, places it there and leaves every other section |
| SliceMesh.HullElems | Plugins/AdvancedActionFeature/Source/AdvancedActionFeature/Private/SlicingSkeletalMeshLibrary.cpp:661 | one installed hull per point list, holding those points |
| SliceMesh.PointsBoxHolds | Plugins/AdvancedActionFeature/Source/AdvancedActionFeature/Private/SlicingSkeletalMeshLibrary.cpp:661 | an installed hull's box holds all its points |
| SliceMesh.ProcMeshComponent.constructor | Plugins/AdvancedActionFeature/Source/AdvancedActionFeature/Private/SlicingSkeletalMeshLibrary.cpp:667 | a new component has no sections, materials or hulls |
| SliceMesh.ProcMeshComponent.SetProcMeshSection | Plugins/AdvancedActionFeature/Source/AdvancedActionFeature/Private/SlicingSkeletalMeshLibrary.cpp:501 | sets one section and nothing else |
| SliceMesh.ProcMeshComponent.ClearMeshSection | Plugins/AdvancedActionFeature/Source/AdvancedActionFeature/Private/SlicingSkeletalMeshLibrary.cpp:277 | empties one existing section and nothing else |
| SliceMesh.ProcMeshComponent.SetMaterial | Plugins/AdvancedActionFeature/Source/AdvancedActionFeature/Private/SlicingSkeletalMeshLibrary.cpp:564 | sets one material and nothing else |
| SliceMesh.ProcMeshComponent.SetCollisionConvexMeshes | Plugins/AdvancedActionFeature/Source/AdvancedActionFeature/Private/SlicingSkeletalMeshLibrary.cpp:661 | replaces the hulls and nothing else |
| SliceMesh.OtherFrom | Plugins/AdvancedActionFeature/Source/AdvancedActionFeature/Private/SlicingSkeletalMeshLibrary.cpp:262-303 | a section gives the other half at most one section |
| SliceMesh.Identity | Plugins/AdvancedActionFeature/Source/AdvancedActionFeature/Private/SlicingSkeletalMeshLibrary.cpp:267-285 | a whole section's provenance has a key for each of its vertices |
| SliceMesh.OtherMaterialsAligned | Plugins/AdvancedActionFeature/Source/AdvancedActionFeature/Private/SlicingSkeletalMeshLibrary.cpp:272-303 | with the corrected bookkeeping the other half's sections, their source sections and their materials line up one to one, each material that of the section it came from |
| SliceMesh.CutLeavesOtherSection | Plugins/AdvancedActionFeature/Source/AdvancedActionFeature/Private/SlicingSkeletalMeshLibrary.cpp:484-495 | when some clip edge was recorded, the other half holds at least one section |
| SliceMesh.EdgesLeaveOther | Plugins/AdvancedActionFeature/Source/AdvancedActionFeature/Private/SlicingSkeletalMeshLibrary.cpp:484-495 | a section that yields a clip edge always gives the other half a section |
| SliceMesh.UntouchedSections | Plugins/AdvancedActionFeature/Source/AdvancedActionFeature/Private/SlicingSkeletalMeshLibrary.cpp:253-288 | a section without geometry is untouched; one wholly in front is kept with every vertex in front; one wholly behind is cleared and goes whole to the other half with every vertex behind |
| SliceMesh.PolyVertices | Plugins/AdvancedActionFeature/Source/AdvancedActionFeature/Private/SlicingSkeletalMeshLibrary.cpp:81-103 | one 3D cap vertex per polygon vertex |
| SliceMesh.Transform2DPolygonTo3D | Plugins/AdvancedActionFeature/Source/AdvancedActionFeature/Private/SlicingSkeletalMeshLibrary.cpp:81-103 | appends the polygon's vertices placed in 3D and grows the box over them |
| SliceMesh.CapVertexInFramePlane | Plugins/AdvancedActionFeature/Source/AdvancedActionFeature/Private/SlicingSkeletalMeshLibrary.cpp:81-103 | every cap vertex lies in the cap plane, faces against the plane normal and carries the frame's X axis as tangent |
| SliceMesh.BuildCap | Plugins/AdvancedActionFeature/Source/AdvancedActionFeature/Private/SlicingSkeletalMeshLibrary.cpp:539-556 | the cap loop appends every polygon's vertices and triangles as the cap predicate describes |
| SliceMesh.CapPolygon | Plugins/AdvancedActionFeature/Source/AdvancedActionFeature/Private/SlicingSkeletalMeshLibrary.cpp:543-556 | one polygon step keeps the cap predicate |
| SliceMesh.CapVerticesStep | Plugins/AdvancedActionFeature/Source/AdvancedActionFeature/Private/SlicingSkeletalMeshLibrary.cpp:543-556 | the cap vertices of one more polygon are the earlier ones followed by its own |
| SliceMesh.CapIndicesStep | Plugins/AdvancedActionFeature/Source/AdvancedActionFeature/Private/SlicingSkeletalMeshLibrary.cpp:543-556 | after a polygon the old indices are untouched, the list is whole triangles, and new corners are new vertices |
| SliceMesh.FlipVertices | Plugins/AdvancedActionFeature/Source/AdvancedActionFeature/Private/SlicingSkeletalMeshLibrary.cpp:583-595 | each mirrored vertex has its normal and tangent negated |
| SliceMesh.ReversedTris | Plugins/AdvancedActionFeature/Source/AdvancedActionFeature/Private/SlicingSkeletalMeshLibrary.cpp:598-607 | the mirrored indices have three per triangle |
| SliceMesh.ReversedTrisAt | Plugins/AdvancedActionFeature/Source/AdvancedActionFeature/Private/SlicingSkeletalMeshLibrary.cpp:598-607 | the mirrored triangle lists each triangle's corners in the order 0, 2, 1, offset and wrapped to 32 bits |
| SliceMesh.MirrorCap | Plugins/AdvancedActionFeature/Source/AdvancedActionFeature/Private/SlicingSkeletalMeshLibrary.cpp:568-608 | the other cap is the mirrored cap |
| SliceMesh.MirrorVertices | Plugins/AdvancedActionFeature/Source/AdvancedActionFeature/Private/SlicingSkeletalMeshLibrary.cpp:580-595 | appends the flipped cap vertices and grows the box over them |
| SliceMesh.MirrorIndices | Plugins/AdvancedActionFeature/Source/AdvancedActionFeature/Private/SlicingSkeletalMeshLibrary.cpp:598-607 | appends the reversed cap triangles |
| SliceMesh.MirroredCapReversesTriangles | Plugins/AdvancedActionFeature/Source/AdvancedActionFeature/Private/SlicingSkeletalMeshLibrary.cpp:568-608 | every mirrored triangle corner is a new vertex of the other cap that is the flipped copy of the matching corner, in reversed winding |
| SliceMesh.HullsFrom | Plugins/AdvancedActionFeature/Source/AdvancedActionFeature/Private/SlicingSkeletalMeshLibrary.cpp:617-646 | a hull gives the kept half at most one hull |
| SliceMesh.OtherHullsFrom | Plugins/AdvancedActionFeature/Source/AdvancedActionFeature/Private/SlicingSkeletalMeshLibrary.cpp:624-657 | a hull gives the other half at most one hull |
| SliceMesh.BoxPlaneCompareFlip | Plugins/AdvancedActionFeature/Source/AdvancedActionFeature/Private/SlicingSkeletalMeshLibrary.cpp:26-49 | flipping the plane negates the box comparison |
| SliceMesh.OtherHullsAreFlippedKept | Plugins/AdvancedActionFeature/Source/AdvancedActionFeature/Private/SlicingSkeletalMeshLibrary.cpp:612-661 | the other half's hulls are exactly the kept hulls for the flipped plane |
| SliceMesh.SliceCollision | Plugins/AdvancedActionFeature/Source/AdvancedActionFeature/Private/SlicingSkeletalMeshLibrary.cpp:612-661 | the collision loop returns the kept hulls and, when wanted, the other half's hulls |
| SliceMesh.AddWholeSection | Plugins/AdvancedActionFeature/Source/AdvancedActionFeature/Private/SlicingSkeletalMeshLibrary.cpp:267-285 | a whole section adds identity provenance over the old map |
| SliceMesh.SliceSection | Plugins/AdvancedActionFeature/Source/AdvancedActionFeature/Private/SlicingSkeletalMeshLibrary.cpp:251-508 | one section ends as the specification's section after the cut, its clip edges and provenance are recorded; the other half gains its section and material only when that section is kept, while the list as written gains the material for every section not wholly kept (lines 273 and 302) |
| SliceMesh.FinishStraddle | Plugins/AdvancedActionFeature/Source/AdvancedActionFeature/Private/SlicingSkeletalMeshLibrary.cpp:492-507 | the kept half replaces the section when it has geometry and clears it otherwise; the other half and its material are recorded only when the other half has geometry, while the list as written keeps the material in every case |
| SliceMesh.RecordOtherHalf | Plugins/AdvancedActionFeature/Source/AdvancedActionFeature/Private/SlicingSkeletalMeshLibrary.cpp:492-495 | the corrected bookkeeping adds the other half and its material together, or neither |
| SliceMesh.SectionsAfter | Plugins/AdvancedActionFeature/Source/AdvancedActionFeature/Private/SlicingSkeletalMeshLibrary.cpp:249-510 | the section loop leaves one section per original section |
| SliceMesh.SectionsAfterAt | Plugins/AdvancedActionFeature/Source/AdvancedActionFeature/Private/SlicingSkeletalMeshLibrary.cpp:249-510 | section j after the loop is the cut of original section j |
| SliceMesh.SectionsUpToStep | Plugins/AdvancedActionFeature/Source/AdvancedActionFeature/Private/SlicingSkeletalMeshLibrary.cpp:249-510 | one loop step keeps the sections invariant |
| SliceMesh.StateUpToStep | Plugins/AdvancedActionFeature/Source/AdvancedActionFeature/Private/SlicingSkeletalMeshLibrary.cpp:249-510 | one loop step keeps the bookkeeping invariant |
| SliceMesh.SliceSections | Plugins/AdvancedActionFeature/Source/AdvancedActionFeature/Private/SlicingSkeletalMeshLibrary.cpp:249-510 | the section loop cuts every section and leaves the bookkeeping as the specification functions describe, both the corrected material list and the list as written (`OtherMaterialsAsWritten`), with the component's materials and hulls unchanged |
| SliceMesh.AddCap | Plugins/AdvancedActionFeature/Source/AdvancedActionFeature/Private/SlicingSkeletalMeshLibrary.cpp:513-609 | without a cap nothing changes; a new cap section goes after the sections with the cap material; the last-section option caps that section; the other half gets the mirrored cap |
| SliceMesh.SliceProceduralMesh | Plugins/AdvancedActionFeature/Source/AdvancedActionFeature/Private/SlicingSkeletalMeshLibrary.cpp:221-691 | with a mesh, the sections, materials, cap, hulls and both provenance maps are those of the specification functions; with the other half wanted, a fresh component holds the other sections, the corrected materials and the hulls, and the material list as written is returned as `OtherMaterialsAsWritten`; with no mesh nothing changes |
| SliceMesh.CreateOtherHalf | Plugins/AdvancedActionFeature/Source/AdvancedActionFeature/Private/SlicingSkeletalMeshLibrary.cpp:664-689 | the new component holds the given sections, materials and hulls |
| SliceMesh.OtherFromRecorded | Plugins/AdvancedActionFeature/Source/AdvancedActionFeature/Private/SlicingSkeletalMeshLibrary.cpp:262-303 | a section gives the other half a section exactly when it has geometry, is not wholly in front, and its other half is not dropped |
| SliceMesh.OtherMaterialsDrift | Plugins/AdvancedActionFeature/Source/AdvancedActionFeature/Private/SlicingSkeletalMeshLibrary.cpp:492-495 | as written, the other material list is longer than the other section list by the number of dropped other halves, and equals the corrected list when none is dropped |
| SliceMesh.AboveAddsNoCutPoints | Plugins/AdvancedActionFeature/Source/AdvancedActionFeature/Private/SlicingSkeletalMeshLibrary.cpp:345-489 | with every vertex above the plane no cut vertex is added |
| SliceMesh.AboveDropsOtherHalf | Plugins/AdvancedActionFeature/Source/AdvancedActionFeature/Private/SlicingSkeletalMeshLibrary.cpp:492-495 | a straddling box whose vertices are all above the plane drops its other half |
| SliceMesh.OtherMaterialMismatch | Plugins/AdvancedActionFeature/Source/AdvancedActionFeature/Private/SlicingSkeletalMeshLibrary.cpp:673-676 | for a dropped other half followed by a section wholly behind, the as-written materials are [m0, m1] while the only other section needs m1 |

## Left out

- Engine plumbing is not modelled: component creation and registration, `CreateMeshSection_LinearColor`, attachment, physics and ragdoll calls, `BreakConstraint`, collision profiles, logging and the submission of colour overrides. The models return the values these calls would receive.
- The section creation and material fallback loop of `SliceMeshInternal` (SlicingSkelMeshComponent.cpp:74-134) and its call into the slice are engine calls over the filter's output and are not modelled; only its bone, parent and attach checks and the two weight maps are (`AttachAndMapWeights`).
- Matrix and transform math is not modelled: the world-to-local plane transform and `GetSafeNormal` (the plane is given in local space), `UpdateProceduralMeshesSkinning`, `PerformVertexSkinning` and the bind-pose matrices.
- The geometry routines `FGeomTools::ProjectEdges`, `Buid2DPolysFromEdges`, `GeneratePlanarTilingPolyUVs`, `PointInTriangle`, `FKConvexElem::GetPlanes` and `HullFromPlanes` are function parameters; their bodies are not part of this model.
- Floats are `real`s: rounding, NaN and infinity are not modelled. `InterpolateVert` takes "alpha is finite" as a boolean input.
- `DrawDebugBoneWeightsOnVertices`, the LearnShader plugin and the game-module files are not part of this model.
- `TickComponent`, `BeginPlay` and `SliceMesh` only schedule and forward calls and are not modelled.
- The headers are not modelled; where they disagree with the .cpp files (the `HideOriginalMeshVerticesByBone` return type, map names, the `GetBoneWeightsForVertex` signature and the `BoneNames` array of `FBoneWeightsInfo`, which the header lacks), the .cpp bodies are followed. Of the `SkelComp` argument of `GetBoneWeightsForVertex` only its reference skeleton's bone names are used, and they are passed as a sequence.
- `USlicingSkelMeshComponent::HideOriginalMeshVerticesByBone` (SlicingSkelMeshComponent.cpp:511-616) is the same procedure as the SkelToProc one with the component's fields as arguments, and is modelled once, by `SkelToProc.HideOriginalMeshVerticesByBone`.
- `GetBoneIndex` on the component is treated as the reference skeleton's `FindBoneIndex`.
- `SkelToProc.HideOriginalMeshVerticesByBone` and `SkelToProc.HiddenVertices`: the component's `GetSkinWeightBuffer(LODIndex)` (SkelToProcMeshComponent.cpp:440, SlicingSkelMeshComponent.cpp:539) is treated as the LOD render data's own skin-weight buffer; per-instance override skin weights and skin-weight profiles are not modelled.
- The out-parameter arrays of both filters are assumed empty on entry, as every caller passes fresh locals.
- Out-of-bounds engine reads that the source leaves unchecked (a skin-weight buffer shorter than a section, an index buffer shorter than a section, `RenderSections[LODIndex]` in the hide loop, a bone-map entry outside the reference skeleton in `GetBoneName`) are excluded by preconditions rather than modelled as crashes.
- `PlaneSlicer.TriangulatePoly`: when fewer than three vertices remain after `VertBase`, the source appends the constant indices 0, 2, 1 rather than indices relative to `VertBase`; this is modelled as written and not flagged as a finding. It assumes that `Buid2DPolysFromEdges`, a parameter here, only yields polygons of at least three vertices; the model does not establish this.
- `PlaneSlicer.TriangulatePoly`: the convexity test is the determinant computed as in the source; the point-in-triangle test (`FGeomTools::PointInTriangle`) is engine code and a parameter. Success is proved for a polygon in convex position whose vertices the point-in-triangle test never puts inside a triangle of three others, not for every simple polygon.
- `SliceMesh.SliceProceduralMesh`: the other-half component receives the corrected material list, one material per other section. The list the source installs at lines 673-676 is the list as written plus the cap material (line 575), read for the first `OtherSections.Num()` entries. The model returns the list as written (`recorded`, equal to `OtherMaterialsAsWritten`) but does not state the component's materials from it; `OtherMaterialsDrift` relates the two lists.
- `SliceMesh.SliceSection`, `SliceMesh.FinishStraddle` and `SliceMesh.SliceSections` keep the corrected list in `OtherMaterials`, and the list the source builds in `Recorded`. The model's other half uses the corrected list (see Findings).
- `SliceMesh.SliceProceduralMesh`: the cap outline is a parameter applied to the clip edges, so the model does not show that the cap covers the cut.

## Findings

| source | as written | input that shows it | evidently intended | confidence | as-written member | corrected member |
|---|---|---|---|---|---|---|
| Plugins/AdvancedActionFeature/Source/AdvancedActionFeature/Private/SlicingSkeletalMeshLibrary.cpp:492-495 | a straddling section records a material for the other half (lines 297-302); when that other half ends up empty its section is removed but its material is not, so `OtherMaterials` runs ahead of `OtherSections` and the other-half component (lines 673-676) gives later sections the wrong material | two sections with materials m0, m1 cut by the plane x + y + z = 0.9: the triangle (1,0,0), (0,1,0), (0,0,1) with box [0,1]^3 (box straddles, every vertex above) and a triangle at z = -5 (wholly behind); the other half's only section gets m0 instead of m1 | remove the material together with the empty section, so each other-half section keeps its own material | not executed | SliceMesh.OtherMaterialMismatch (with SliceMesh.OtherMaterialsAsWritten and SliceMesh.OtherMaterialsDrift) | SliceMesh.RecordOtherHalf (with SliceMesh.OtherMaterialsAligned) |
