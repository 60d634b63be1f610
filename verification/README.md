# Cycles path state, closures, image slots and cryptomatte; compositor multi-input nodes

A Dafny model of seven self-contained pieces of Blender 2.78. They come from the
Cycles renderer and from the compositor. Each piece is written as immutable datatypes
and pure functions, and a few loops are written as methods over sequences. Lemmas
prove properties about the model.

- **Path state** (`PathStates`, `path_state.dfy`). This is the per-ray state machine of
  the path tracer:
  - the flag set and the bounce counters;
  - the random-number offset;
  - the volume-bounds pass-through counter;
  - the ray visibility mask;
  - the russian-roulette continuation probability.

  C bit sets become Dafny sets of enumerated flags.
- **Closure array** (`Closure`, `ClosureMerge`, `ClosureSampling`, `ShaderEval`). A
  shading point carries a sequence of typed, weighted closures. The model covers:
  - the in-place merge of indistinguishable closures;
  - the choice of one closure by cumulative sampling weight;
  - the one-sample multi-closure evaluation with its pdf normalisation;
  - the linear accumulations (transparency, alpha, diffuse, glossy, ...);
  - disabling transparency;
  - the evaluation entry points that reset the array and refill it from the shader
    program.

  The per-lobe routines `bsdf_sample`, `bsdf_eval`, `volume_phase_*` and
  `bsdf_merge`, and the node interpreter, are function parameters. Colours and
  weights are reals.
- **Image manager** (`ImageManager`, `image_manager.dfy`). The model covers:
  - the flat slot numbering, including the CUDA Fermi special case;
  - the per-type slot tables with de-duplication, first-free-slot allocation,
    reference counts and capacity limits;
  - reload tagging and slot freeing;
  - texture option bits and type names.
- **Cryptomatte** (`Cryptomatte`, `cryptomatte.dfy`). The model covers:
  - the id/weight slot table that `kernel_write_id_slots` fills;
  - the sorting, leftover folding and slot limit of `flatten_coverage`;
  - the CPU capability string.
- **Multi-mix node** (`MultiMixNode`). The socket counter never drops below two
  inputs, and the sockets are named "Image k".
- **Multi-add operation** (`MultiAdd`). The channel-wise pixel sum keeps the first
  input's alpha; the operation also chooses which input supplies the resolution.
- **Multi-mix clamp** (`MultiMixOperation`). An optional clamp of RGBA into [0, 1].

Undefined behaviour in the source appears as `None` of an `Option` result:
- indexing position -1 of an empty capability string;
- indexing entry -1 of a pixel that has entries but no slots.

Constants whose definitions are in headers outside this model are parameters:
- `PRNG_BASE_NUM`, `PRNG_BOUNCE_NUM` and `VOLUME_BOUNDS_MAX`;
- `PATH_RAY_ALL_VISIBILITY`;
- `TEX_NUM_MAX` and the Fermi texture caps;
- `ID_NONE`;
- the closure capacity.

Behaviour of the code worth knowing:
- In `path_state_next` (kernel_path_state.h:128-141), a singular event sets GLOSSY and
  SINGULAR together. A volume scatter (lines 98-104) clears DIFFUSE, GLOSSY and
  SINGULAR all at once. So after a singular bounce two lobe flags are set, and after a
  volume scatter none is; `PathStates.Next` states this.
- Outside Fermi mode, `add_image` refuses only when the image count *exceeds*
  `max_num_images`. So a manager that is already full still accepts one more image
  (`ImageManager.NonFermiLimitAdmitsOneMore`).
- Under Fermi limits, a FLOAT4 slot of 4 encodes to 4, and 4 decodes to BYTE4 slot -1
  (`ImageManager.FermiFloat4SlotFourMisdecodes`). Removing by key goes through the flat
  number, so it can reach an image other than the one it found
  (`ImageManager.FermiRemoveByKeyMisroutes`). Whether either case can arise depends on
  the Fermi caps, which are defined outside this model. Both are modelled as written.

## Model

| member | source | states |
|---|---|---|
| PathStates.Init | intern/cycles/kernel/kernel_path_state.h:19-76 | The flag set is exactly {CAMERA, MIS_SKIP}, plus STORE_SHADOW_INFO exactly when the denoising pass is on. The denoising feature weight is 1 with that pass and 0 without it. Every bounce counter is 0. The RNG offset is the PRNG base, the minimum ray pdf is FLT_MAX and the ray pdf is 0. The volume stack comes from the stack initialiser only when volumes are in use; otherwise it is the terminated stack. |
| PathStates.CategoryFlags | intern/cycles/kernel/kernel_path_state.h:97-141 | After a non-transparent event, exactly one of VOLUME_SCATTER, REFLECT and TRANSMIT is set, chosen by the label, and CAMERA and TRANSPARENT are cleared. The lobe flags follow the label: diffuse, glossy, singular or volume. DIFFUSE_ANCESTOR is never lost, and it is gained only on a diffuse surface event. STORE_SHADOW_INFO is untouched. |
| PathStates.Next | intern/cycles/kernel/kernel_path_state.h:78-150 | A transparent event adds TRANSPARENT, and adds MIS_SKIP exactly when transparent shadows are off. It raises only the transparent counter and leaves the RNG offset alone. Any other event raises the total and exactly the one counter its label selects: volume, diffuse, glossy or transmission. It advances the RNG offset by one stride and leaves exactly one category flag set. DIFFUSE_ANCESTOR is sticky, and only a diffuse surface event can set it. STORE_SHADOW_INFO is never set. It is cleared when the feature weight is zero and kept as it was otherwise. The history fields are untouched. |
| PathStates.VolumeNext | intern/cycles/kernel/kernel_path_state.h:152-167 | Only the volume-bounds counter goes up. The result is false exactly when the new count exceeds the cap, and then the RNG offset is unchanged. Otherwise the offset advances exactly when the count is above 1. |
| PathStates.RayVisibility | intern/cycles/kernel/kernel_path_state.h:169-181 | Without TRANSMIT in the mask, every masked flag stays visible. With TRANSMIT, neither DIFFUSE nor GLOSSY is visible unless a volume scatter brings DIFFUSE back. DIFFUSE is visible exactly when the path volume-scattered or it is masked without TRANSMIT. GLOSSY is visible exactly when it is masked without TRANSMIT. Every other masked flag stays, and nothing outside the mask appears except DIFFUSE. |
| PathStates.TerminateProbability | intern/cycles/kernel/kernel_path_state.h:183-222 | On a transparent path the result is 0 at or above the transparent maximum, and 1 at or below the transparent minimum. On other paths it is 0 when any counter has reached its maximum, where the shader's overrides replace the diffuse, glossy and transmission maxima. Otherwise it is 1 at or below the minimum bounce. In every remaining case it is the average throughput. |
| PathStates.TerminateProbabilityInUnitRange | intern/cycles/kernel/kernel_path_state.h:183-222 | With throughput channels in [0, 1], the continuation probability lies in [0, 1]. |
| PathStates.ModifyBounce | intern/cycles/kernel/kernel_path_state.h:225-232 | Only the total bounce count moves, by +1 or -1. |
| PathStates.ModifyBounceRestores | intern/cycles/kernel/kernel_path_state.h:225-232 | An increase followed by a decrease, in either order, gives back the same state. |
| PathStates.RunCountsRealBounces | intern/cycles/kernel/kernel_path_state.h:82-95 | Over any sequence of events, the total bounce count grows by the number of non-transparent events. The RNG offset grows by that number times the stride, and the transparent counter grows by the number of transparent events. |
| PathStates.RunKeepsDiffuseAncestor | intern/cycles/kernel/kernel_path_state.h:128-132 | Once DIFFUSE_ANCESTOR is set, it stays set for every later event. |
| PathStates.RunNeverRestoresShadowInfo | intern/cycles/kernel/kernel_path_state.h:145-149 | Shadow-info storage never comes back once it is off. A path with zero feature weight loses it at its first real bounce. |
| PathStates.NoDenoisingNoShadowInfo | intern/cycles/kernel/kernel_path_state.h:36-43 | Without the denoising pass, no path ever stores shadow information. |
| PathStates.FourDiffuseBouncesTerminate | intern/cycles/kernel/kernel_path_state.h:195-204 | A single worked scenario, not a general property: with a maximum of four bounces, four diffuse reflections from a fresh path give probability 0, whatever the throughput. |
| Closure.AccumulateWeights | intern/cycles/kernel/kernel_shader.h:854-866 | The accumulation loop of the `shader_bsdf_*` queries computes the recursive reference sum of the weights of the matching closures. |
| ClosureMerge.MergeClosures | intern/cycles/kernel/kernel_shader.h:612-641 | The in-place nested loop, with its shifting and `j--`, computes the reference merge. It never makes the array longer, and it leaves no pair i < j that the lower one could absorb. |
| ClosureMerge.AbsorbAt | intern/cycles/kernel/kernel_shader.h:618-638 | The inner loop for one index leaves the earlier closures alone and yields the absorbing closure and the survivors of the reference absorption. |
| ClosureMerge.Merge | intern/cycles/kernel/kernel_shader.h:612-641 | The merge never grows the array. A non-empty array stays non-empty, with the first closure's identity first. |
| ClosureMerge.MergeLeavesNoMergeablePair | intern/cycles/kernel/kernel_shader.h:615-638 | After merging, no remaining pair has equal types and a true merge test. |
| ClosureMerge.MergeIdempotent | intern/cycles/kernel/kernel_shader.h:612-641 | Merging twice gives the same array as merging once. |
| ClosureMerge.MergeOfMergedIsIdentity | intern/cycles/kernel/kernel_shader.h:612-641 | An array with no mergeable pair is its own merge. |
| ClosureMerge.MergeKeepsOrder | intern/cycles/kernel/kernel_shader.h:623-638 | The identities of the survivors are a subsequence of the input identities, in the same order. |
| ClosureMerge.AbsorbKeepsOrder | intern/cycles/kernel/kernel_shader.h:618-638 | The closures that one pass does not absorb keep their order. None of them could have been absorbed. |
| ClosureMerge.MergeKeysFromInput | intern/cycles/kernel/kernel_shader.h:623-638 | Every surviving closure has the type and parameters of some input closure. |
| ClosureMerge.MergeConservesWeight | intern/cycles/kernel/kernel_shader.h:626-627 | For every class of closures that merging cannot cross, the total colour weight and the total sampling weight are the same before and after. |
| ClosureMerge.MergeConservesTypeWeight | intern/cycles/kernel/kernel_shader.h:621-627 | In particular, every type-based total (diffuse, glossy, BSDF, phase, ...) is conserved. |
| ClosureSampling.Select | intern/cycles/kernel/kernel_shader.h:736-769 | With one closure, index 0 is used. With several, a closure is found exactly when some closure of the kind reaches `randb` times the kind's total weight. The one found is the lowest index of the kind whose running sum reaches that point. |
| ClosureSampling.Scan | intern/cycles/kernel/kernel_shader.h:752-766 | The second selection loop returns the first reaching index at or after its start, or none when no index reaches. |
| ClosureSampling.SelectionSucceeds | intern/cycles/kernel/kernel_shader.h:736-769 | Over the reals, with non-negative weights and `randb` in [0, 1], selection fails only when no closure of the kind exists. |
| ClosureSampling.MultiEval | intern/cycles/kernel/kernel_shader.h:646-671 | The loop computes the seeded sums over the closures of the kind, skipping one index. A closure with zero pdf still adds its weight to the denominator. The pdf is the ratio of the sums, or 0 when the weight sum is not positive. |
| ClosureSampling.SampleKind | intern/cycles/kernel/kernel_shader.h:728-787 | A failed selection gives no label and pdf 0. Otherwise the label is the picked lobe's. A zero pdf from the lobe gives pdf 0 and no `BsdfEval`. With a non-zero pdf, several closures and re-evaluation on, the result is the seeded re-evaluation: the picked lobe's value and pdf times its sampling weight start the sums, and every other closure of the kind is evaluated in the sampled direction. In every other case the lobe's own pdf and value are reported. |
| ClosureSampling.BsdfSample | intern/cycles/kernel/kernel_shader.h:728-787 | With a single closure the label, pdf and weighted value are that closure's own. With several closures and a non-zero pdf, the result is the seeded re-evaluation of all other BSDFs in the sampled direction. |
| ClosureSampling.PhaseSample | intern/cycles/kernel/kernel_shader.h:1151-1202 | Phase sampling reports the picked lobe's own pdf and its unweighted value, with no re-evaluation. |
| ClosureSampling.SampleClosure | intern/cycles/kernel/kernel_shader.h:789-803 | Sampling a given closure reports its label and pdf. A value is present exactly when the pdf is non-zero. |
| ClosureSampling.SampleAgreesWithEval | intern/cycles/kernel/kernel_shader.h:774-786 | Suppose the picked lobe evaluates in the sampled direction to what it sampled. Then the value and pdf that sampling returns equal the plain evaluation of all BSDFs in that direction. |
| ClosureSampling.SampleAgreesWithBsdfEval | intern/cycles/kernel/kernel_shader.h:704-787 | When the picked lobe evaluates to what it sampled, the value `shader_bsdf_sample` returns equals `shader_bsdf_eval` without MIS in the sampled direction, in either integrator. |
| ClosureSampling.ReevaluateIsFullEval | intern/cycles/kernel/kernel_shader.h:777-783 | Seeding the sums with the picked lobe and skipping its index is the same as evaluating every closure. |
| ClosureSampling.SkipThenSeed | intern/cycles/kernel/kernel_shader.h:646-671 | Moving one closure from the loop into the seed does not change the sums. |
| ClosureSampling.MultiAccWeightIsSelectionTotal | intern/cycles/kernel/kernel_shader.h:646-671 | The weight sum of the evaluation loop equals the running total of the selection loop. |
| ClosureSampling.CombinedPdfNonNegative | intern/cycles/kernel/kernel_shader.h:646-671 | With non-negative lobe pdfs and weights, the combined pdf is non-negative. |
| ClosureSampling.PhaseEval | intern/cycles/kernel/kernel_shader.h:1118-1149 | The colour is the sum of the unweighted phase values over the phase closures whose pdf in the direction is non-zero; closure weights play no part. The combined pdf times the phase closures' total sampling weight (the total the selection uses) is the sum of each phase pdf times its sampling weight. The pdf is 0 when that total is not positive. |
| ClosureSampling.PhaseSampleAgreesWithEval | intern/cycles/kernel/kernel_shader.h:1143-1202 | When the picked closure is the only phase closure, carries positive sampling weight and evaluates to what it sampled, phase sampling returns the value and pdf that phase evaluation gives in the sampled direction. |
| ClosureSampling.PhaseEvalUniformPdf | intern/cycles/kernel/kernel_shader.h:1118-1149 | The combined phase pdf is a weighted average: when every phase closure has the same non-zero pdf and the phase closures carry sampling weight, the combined pdf is that pdf. |
| ClosureSampling.BsdfEval | intern/cycles/kernel/kernel_shader.h:674-726 | Without MIS, the branched and the one-sample integrators both give the plain sum of the weighted BSDF values. With MIS the one-sample integrator scales that sum once, by the heuristic of the light pdf against the combined pdf. The branched integrator weights closure by closure, so a heuristic that is one everywhere leaves the plain sum. |
| ClosureSampling.BranchedUniformPdf | intern/cycles/kernel/kernel_shader.h:674-695 | When every BSDF has the same pdf in the direction, the branched integrator's per-closure MIS weights are all equal, so its sum is the plain sum scaled once by that weight. |
| ClosureSampling.BranchedAgreesOnUniformPdf | intern/cycles/kernel/kernel_shader.h:674-726 | With MIS, when every BSDF has the same non-zero pdf and the BSDFs carry sampling weight, the branched and the one-sample integrators return the same value. |
| ShaderEval.Transparency | intern/cycles/kernel/kernel_shader.h:815-830 | A volume-only shader is fully transparent. Otherwise the transparency is the summed weight of the transparent BSDFs, which becomes zero once transparency is disabled (`DisableTransparencyEffect`). |
| ShaderEval.Alpha | intern/cycles/kernel/kernel_shader.h:844-852 | Alpha lies in [0, 1] on every channel. It is exactly one minus the transparency when the transparency is in range. A channel whose transparency is at least 1 has alpha 0, and one whose transparency is at most 0 has alpha 1. |
| ShaderEval.DisableTransparency | intern/cycles/kernel/kernel_shader.h:832-842 | The length, types and parameters are kept. Exactly the transparent closures lose their colour and sampling weight, and every other closure is unchanged. |
| ShaderEval.DisableTransparencyEffect | intern/cycles/kernel/kernel_shader.h:832-842 | Afterwards the transparent totals are zero. Every total over a class without the transparent BSDF is unchanged. |
| ShaderEval.DisabledTransparencyIsOpaque | intern/cycles/kernel/kernel_shader.h:832-852 | After disabling transparency, alpha is one on every channel. |
| ShaderEval.AoSum | intern/cycles/kernel/kernel_shader.h:910-936 | The AO value is the diffuse total scaled by the AO factor, plus the AO-closure total. |
| ShaderEval.EmissiveSum | intern/cycles/kernel/kernel_shader.h:971-989 | The emission is the emitted value times the total emission weight. |
| ShaderEval.BssrdfSum | intern/cycles/kernel/kernel_shader.h:939-966 | The BSSRDF sum plus the BSSRDF-backed BSDFs is the subsurface pass of `shader_bsdf_subsurface` (896-908). |
| ShaderEval.BsdfTotalSplits | intern/cycles/kernel/kernel_shader.h:854-908 | The BSDF total is the sum of the diffuse, glossy, transmission, BSSRDF-backed and transparent totals. |
| ShaderEval.EvalSurface | intern/cycles/kernel/kernel_shader.h:1009-1034 | The array is emptied before the surface program runs, so it holds only that program's closures, up to the capacity. The closure-selection number is stored. |
| ShaderEval.EvalBackground | intern/cycles/kernel/kernel_shader.h:1038-1069 | After a reset, the result is the background-closure total of what the program emitted. |
| ShaderEval.EvalAoEnv | intern/cycles/kernel/kernel_shader.h:1073-1112 | The array is reset and holds only the AO program's closures. With the OSL interpreter the result is always white. With SVM, a program that emits nothing gives white, and otherwise the result is the background total. |
| ShaderEval.EvalDisplacement | intern/cycles/kernel/kernel_shader.h:1305-1322 | The array holds only the displacement program's closures. |
| ShaderEval.EvalVolume | intern/cycles/kernel/kernel_shader.h:1222-1299 | The array is reset once and never exceeds the capacity. With no layer containing the point, it ends empty. When the last evaluated layer is not slot 0, no two closures can be merged. When everything fits, every type's total weight is what the evaluated layers emitted. |
| ShaderEval.EvalVolumeIgnoresOldClosures | intern/cycles/kernel/kernel_shader.h:1244-1248 | Whatever the closure array held before the call, the volume evaluation gives the same result. |
| ShaderEval.VolumeLoop | intern/cycles/kernel/kernel_shader.h:1250-1298 | From any start, the loop never pushes an array within capacity past it, and it leaves the ray length and the selection number alone. |
| ShaderEval.Evaluated | intern/cycles/kernel/kernel_shader.h:1250-1254 | The loop evaluates, in strictly ascending order, only layers before the last slot that contain the point. |
| ShaderEval.EvaluatedExactly | intern/cycles/kernel/kernel_shader.h:1250-1254 | A layer is evaluated exactly when it lies before the last slot, no SHADER_NONE entry precedes it, and it contains the point. |
| ShaderEval.NoLayerNoClosures | intern/cycles/kernel/kernel_shader.h:1250-1254 | When no layer contains the point, the state is unchanged: an empty array after the reset. |
| ShaderEval.VolumeEndsMerged | intern/cycles/kernel/kernel_shader.h:1295-1297 | When the last evaluated layer is not at index 0, no two remaining closures can be merged. |
| ShaderEval.VolumeConservesWeight | intern/cycles/kernel/kernel_shader.h:1250-1297 | When everything fits, the per-type weight at the end is the weight the evaluated layers emitted: merging between layers loses nothing. |
| ImageManager.EncodeDecodeRoundTrip | intern/cycles/render/image.cpp:282-311 | Outside Fermi mode, decoding an encoded (slot, type) gives it back, and the low three bits are the type. |
| ImageManager.DecodeEncodeRoundTrip | intern/cycles/render/image.cpp:282-311 | Outside Fermi mode, every non-negative flat number is the encoding of its decoding. |
| ImageManager.Encode | intern/cycles/render/image.cpp:282-294 | Outside Fermi mode, the flat number is non-negative and decodes back to the type and slot. Under Fermi, a BYTE4 slot decodes back to itself, and any other type's slot below 4 decodes as a FLOAT4 slot. |
| ImageManager.Decode | intern/cycles/render/image.cpp:296-311 | Outside Fermi mode, the type is the low three bits and the slot is the rest. Under Fermi, the type is BYTE4 exactly from 4 up and FLOAT4 below. |
| ImageManager.FermiRoundTrip | intern/cycles/render/image.cpp:284-306 | Under Fermi, a BYTE4 slot always round-trips, and a FLOAT4 slot round-trips below 4. |
| ImageManager.FermiFloat4SlotFourMisdecodes | intern/cycles/render/image.cpp:284-306 | FLOAT4 slot 4 encodes to 4, which decodes to BYTE4 slot -1. |
| ImageManager.NewManager | intern/cycles/render/image.cpp:36-72 | Fermi limits apply exactly to CUDA without bindless textures; the first member decides for a multi-device. Half images exist exactly outside Fermi and OpenCL. Every table is empty, every counter is zero and an update is pending. |
| ImageManager.StorageType | intern/cycles/render/image.cpp:367-382 | Without half support, HALF4 becomes FLOAT4 and HALF becomes FLOAT (FLOAT4 under Fermi). Under Fermi, FLOAT becomes FLOAT4 and BYTE becomes BYTE4. Every other type is kept: FLOAT4, BYTE4, USHORT4 and USHORT always, the half types when half support is present, and FLOAT and BYTE outside Fermi. |
| ImageManager.StorageTypeIdempotent | intern/cycles/render/image.cpp:367-382 | A type already in storage form is stored as itself, so converting twice is converting once. |
| ImageManager.FindImage | intern/cycles/render/image.cpp:385-405 | The lowest occupied slot holding an equal image, or none when there is no such slot. |
| ImageManager.FreeSlot | intern/cycles/render/image.cpp:408-411 | The lowest empty slot, or the table length when every slot is occupied. |
| ImageManager.AddImage | intern/cycles/render/image.cpp:347-461 | `is_float` is decided by the type the file reports, before normalisation. |
| ImageManager.AddImageExisting | intern/cycles/render/image.cpp:385-405 | For an equal image already stored, the user count goes up by one, and a reload is requested exactly when the frame or alpha setting changed (or one was pending). That image's flat slot is returned. No entry is added, the counters and the update flag are unchanged, and every other slot and table is unchanged. |
| ImageManager.AddImageRefused | intern/cycles/render/image.cpp:414-434 | A new image over the limit gets -1 and changes nothing. |
| ImageManager.AddImageNew | intern/cycles/render/image.cpp:408-460 | A new image within the limit goes into the lowest empty slot, or is appended. It has one user and a pending load. Its type's counter grows by one and an update is requested; nothing else changes. |
| ImageManager.AddImageKeepsCounts | intern/cycles/render/image.cpp:347-461 | Adding keeps every type's counter equal to the number of its occupied slots. |
| ImageManager.NonFermiLimitAdmitsOneMore | intern/cycles/render/image.cpp:426-434 | A non-Fermi manager that already holds exactly the maximum number of images still accepts a new one, and then holds one more than the maximum. |
| ImageManager.RemoveImage | intern/cycles/render/image.cpp:463-479 | The decoded slot's image loses one user and stays in place. An update is requested once its user count reaches zero, and nothing else changes. |
| ImageManager.RemoveImageKeepsCounts | intern/cycles/render/image.cpp:463-479 | Removing a user keeps the counters equal to the occupied slots. |
| ImageManager.AddThenRemoveRestoresUsers | intern/cycles/render/image.cpp:347-479 | Outside Fermi mode, adding an image and removing it by the returned slot leaves the user count where it was before, or zero for a new image. |
| ImageManager.FindAny | intern/cycles/render/image.cpp:489-502 | The first equal image in type order: its type and slot, or none when no table holds one. |
| ImageManager.RemoveImageByKey | intern/cycles/render/image.cpp:481-503 | With no equal image, nothing changes. Outside Fermi mode, the first equal image loses one user and nothing else changes. |
| ImageManager.FermiRemoveByKeyMisroutes | intern/cycles/render/image.cpp:481-503 | Under Fermi limits, removing a USHORT4 image at slot 0 by key lowers the users of the FLOAT4 image at slot 0 instead. |
| ImageManager.TagReloadImage | intern/cycles/render/image.cpp:509-529 | In each type's table, exactly the first equal image is marked for loading. Nothing else changes. |
| ImageManager.TagReloadIdempotent | intern/cycles/render/image.cpp:509-529 | Tagging twice is tagging once. |
| ImageManager.DeviceFreeImage | intern/cycles/render/image.cpp:1096-1181 | An occupied slot is emptied and its type's counter drops by one. An empty slot is left alone. |
| ImageManager.DeviceFreeKeepsCounts | intern/cycles/render/image.cpp:1178-1180 | Freeing keeps every counter equal to the occupied slots. |
| ImageManager.PackImageOptions | intern/cycles/render/image.cpp:1293-1311 | Bit 0 is set exactly for closest interpolation. Bits 1, 2 and 3 are set exactly for repeat, extend and clip respectively, and no higher bit is set. |
| ImageManager.PackImageOptionsRoundTrip | intern/cycles/render/image.cpp:1293-1311 | The extension and the closest flag can be read back from the packed byte. |
| ImageManager.NameFromTypeInjective | intern/cycles/render/image.cpp:313-331 | The eight types have eight different names. |
| ImageManager.NameFromType | intern/cycles/render/image.cpp:313-331 | Unknown codes are named "byte4". Every known code's name reads back as the type of that code. |
| Cryptomatte.FirstFit | intern/cycles/device/device_cpu.cpp:82-98 | The first slot that is empty or holds the id, or none when no slot does. |
| Cryptomatte.WriteIdSlots | intern/cycles/device/device_cpu.cpp:65-99 | With weight 0 the buffer is returned unchanged, even when `init` is set. Otherwise the buffer is optionally reset, and only the first empty or matching slot changes: it gets the id, or the added weight. When there is no such slot the weight is dropped. |
| Cryptomatte.WriteIdSlotsLoop | intern/cycles/device/device_cpu.cpp:65-99 | The reset and scan loops compute the slot table of the reference definition. |
| Cryptomatte.WriteIdSlotsKeepsPacked | intern/cycles/device/device_cpu.cpp:82-98 | Ids stay distinct, and empty slots hold only ID_NONE and come after the filled ones. So an empty slot reached by the scan holds ID_NONE, as the source asserts. |
| Cryptomatte.WriteIdSlotsTotal | intern/cycles/device/device_cpu.cpp:73-98 | The slot weights grow by the weight exactly when a slot was found. |
| Cryptomatte.SortDesc | intern/cycles/device/device_cpu.cpp:117-121 | The result is sorted by descending weight and is a permutation of the input. |
| Cryptomatte.LeftoverLoop | intern/cycles/device/device_cpu.cpp:124-127 | The loop sums the weights of the entries past the slot limit. |
| Cryptomatte.FoldLeftover | intern/cycles/device/device_cpu.cpp:123-129 | The ids and length are kept, and a pixel within the limit is unchanged. Beyond the limit, every entry except the last one that gets a slot is unchanged. With `FoldConservesTotal`, that last entry therefore absorbs the weight of all entries past the limit. |
| Cryptomatte.FoldConservesTotal | intern/cycles/device/device_cpu.cpp:123-130 | The entries that get a slot carry the pixel's whole weight. |
| Cryptomatte.FlattenPixel | intern/cycles/device/device_cpu.cpp:109-134 | An empty pixel writes nothing. The result is undefined exactly for a non-empty pixel with no slots. |
| Cryptomatte.FlattenPixelLayout | intern/cycles/device/device_cpu.cpp:117-134 | The slots hold the heaviest entries, one per slot, in descending order of their weight before folding. The last used slot also holds the folded leftover. The remaining slots are empty. |
| Cryptomatte.FlattenPixelConservesWeight | intern/cycles/device/device_cpu.cpp:117-134 | The pixel's slots stay packed and hold its entire weight. |
| Cryptomatte.FlattenCoverage | intern/cycles/device/device_cpu.cpp:103-141 | A defined tile has one buffer per pixel, and the result is `use_cryptomatte & 255`. |
| Cryptomatte.FlattenCoveragePixel | intern/cycles/device/device_cpu.cpp:107-137 | Every pixel of a defined tile gets what flattening that pixel alone gives. |
| Cryptomatte.FlattenCoverageUndefined | intern/cycles/device/device_cpu.cpp:110-128 | The tile is undefined exactly when there are no slots and some pixel has entries. |
| Cryptomatte.Capabilities | intern/cycles/device/device_cpu.cpp:1100-1111 | The string is undefined exactly when no extension is supported. Otherwise it neither starts nor ends with a space. |
| Cryptomatte.CapabilitiesJoinsNames | intern/cycles/device/device_cpu.cpp:1100-1111 | The string is the supported names, in the order SSE2, SSE3, SSE41, AVX, AVX2, separated by single spaces. |
| MultiMixNode.Init | source/blender/nodes/composite/nodes/node_composite_multimix.c:44-52 | A fresh node has two inputs, named "Image 1" and "Image 2", after the template's sockets. |
| MultiMixNode.AddSocket | source/blender/nodes/composite/nodes/node_composite_multimix.c:67-75 | The count goes up by one, and one socket named after the new count is appended. |
| MultiMixNode.RemoveSocket | source/blender/nodes/composite/nodes/node_composite_multimix.c:77-86 | Below three inputs, 0 is returned and nothing changes. Otherwise the last socket goes, the count drops and 1 is returned. |
| MultiMixNode.SocketNameInjective | source/blender/nodes/composite/nodes/node_composite_multimix.c:72 | Different counts give different socket names. |
| MultiMixNode.InitValid | source/blender/nodes/composite/nodes/node_composite_multimix.c:44-52 | A fresh node has at least two inputs, named "Image 1" up to "Image n". |
| MultiMixNode.AddSocketValid | source/blender/nodes/composite/nodes/node_composite_multimix.c:67-75 | Adding keeps that shape. |
| MultiMixNode.RemoveSocketValid | source/blender/nodes/composite/nodes/node_composite_multimix.c:77-86 | Removing keeps that shape and never leaves fewer than two inputs. |
| MultiMixNode.AddThenRemoveRestores | source/blender/nodes/composite/nodes/node_composite_multimix.c:67-86 | An add followed by a remove gives back the node. |
| MultiAdd.New | source/blender/compositor/operations/COM_MultiAddOperation.cpp:31-39 | The operation has one colour input per requested input and one colour output, and clamping is off. |
| MultiAdd.ExecutePixel | source/blender/compositor/operations/COM_MultiAddOperation.cpp:48-70 | With inputs, the pixel is the clamped channel-wise RGB sum, in input order, with the first input's alpha. Without inputs, the buffer's previous value is clamped. The clamp is applied once, after the fold. |
| MultiAdd.SingleInputPassesThrough | source/blender/compositor/operations/COM_MultiAddOperation.cpp:56-61 | With one input the pre-clamp pixel is that input. |
| MultiAdd.AlphaFromFirstInput | source/blender/compositor/operations/COM_MultiAddOperation.cpp:56-66 | Changing a later input's alpha changes nothing. |
| MultiAdd.ResolutionInput | source/blender/compositor/operations/COM_MultiAddOperation.cpp:78-85 | The lowest input whose width and height are both non-zero, or none exactly when no such input exists. |
| MultiMixOperation.ClampIfNeeded | source/blender/compositor/operations/COM_MultiMixOperation.h:35-43 | With the clamp on, all four channels end in [0, 1]. With it off the colour is unchanged, and a colour already in range is always unchanged. |
| MultiMixOperation.ClampIdempotent | source/blender/compositor/operations/COM_MultiMixOperation.h:35-43 | Clamping twice is clamping once. |
| MultiMixOperation.ClampIsNearest | source/blender/compositor/operations/COM_MultiMixOperation.h:38-41 | A channel below 0 becomes 0 and a channel above 1 becomes 1. |
| MultiMixOperation.SetUseClamp | source/blender/compositor/operations/COM_MultiMixOperation.h:70 | The flag becomes exactly the given value, and the input count is unchanged. |

## Left out

- Image file I/O, metadata and texture upload: these are OpenImageIO, filesystem and device plumbing. The type that `get_image_metadata` reports is a parameter of `add_image`.
- The CPU device class, task splitting, threading and kernel dispatch: this is concurrency and foreign-call glue. The CPU feature probes are a parameter of `device_cpu_capabilities`.
- The `shader_setup_*` functions, volume motion blur and the normals and texture blur of `shader_bsdf_ao` and `shader_bssrdf_sum`: these are float-vector geometry. Only the colour sums are modelled.
- The internals of `bsdf_eval`, `bsdf_sample`, `bsdf_merge`, `volume_phase_*`, `power_heuristic`, `emissive_simple_eval` and `kernel_volume_stack_init`: these are parameters. So are the closures that the SVM or OSL node interpreter emits. Which interpreter runs matters to the model only in `shader_eval_ao_env`, where it is a flag.
- Light-pass splitting inside `BsdfEval` (`bsdf_eval_accum` per closure type): the model keeps one summed colour.
- `closure_alloc` is not part of this model. `ShaderEval.Allocate` keeps the emitted closures up to a capacity parameter and drops the rest.
- Float rounding: weights, pdfs and colours are reals. In single precision the running sum of the selection loop can fall short of `randb` times the total, and the selection then fails; over the reals it cannot (`ClosureSampling.SelectionSucceeds`).
- Integer width: counters, slots and offsets are unbounded integers. The 32-bit wrap-around of `slot << 3` and of the counters is not modelled.
- Debug-only `kernel_assert`s are not preconditions. `path_state_next` treats any non-reflect label as transmit, and any label that is neither diffuse nor glossy as singular. `remove_image`'s `assert` is kept as its precondition.
- The order in which `std::sort` leaves entries of equal weight is not specified: `Cryptomatte.SortDesc` is one sort that meets the comparator.
- The tile stride, pass stride and pass offset of `flatten_coverage`: each pixel's slot table is its own sequence.
- The "Image" input template and the Blender socket structs of the multi-mix node: a node's inputs are a sequence of socket names.
- COM_MultiAddOperation.h is not part of this model. `Operation` holds only the clamp flag and the input count.
- ClosureSampling.Select: requires at least one closure. With none, `shader_bsdf_sample` reads slot 0 of the closure storage, whose content is left over from earlier evaluations.
- ClosureSampling.SampleKind: requires at least one closure, for the same reason.
- ClosureSampling.BsdfSample: requires at least one closure, for the same reason.
- ClosureSampling.PhaseSample: requires at least one closure, for the same reason.
- ClosureSampling.BsdfEval: for the branched integrator with MIS, the contract gives the result only when the heuristic is one everywhere. When the BSDF pdfs differ, each closure's own MIS weight is stated by the summing function `BranchedSum` and by `BranchedUniformPdf` and `BranchedAgreesOnUniformPdf`, not by a closed form in the contract.
- ImageManager.AddImage: its own contract states only well-formedness and `is_float`. The found, refused and new cases are stated by `AddImageExisting`, `AddImageRefused` and `AddImageNew`, which keeps each proof small.
- ImageManager.PackImageOptions: takes the image's interpolation and extension rather than looking them up by type and slot.
- ShaderEval.EvalDisplacement: the displacement program's change to the position is not modelled.
- MultiMixNode.SocketName: its contract gives only a lower bound on the length. That the name is "Image " followed by the decimal count is used through `SocketNameInjective` and `Init`.
