# Duplicate lighting-GUID scan of the GuidFixer editor plugins

The GuidFixer and SwarmGuidFixer plugins add an editor command that walks
every loaded material once, in the order the engine's object iterator yields
them, and gives a fresh lighting GUID to every material whose GUID an earlier
material already holds, marking it modified so the next "save all" writes
the change. The first holder of each GUID is recorded in a seen-map
(`TMap<FGuid, UMaterialInterface*>`) and left alone.

On a collision only the later material is rewritten. The first holder keeps its
GUID, and there is no path exclusion and no separate pass for empty GUIDs.
The only trace of a later revision is the header
`Source/GuidFixer/Public/GuidFixer.h:18-28`, which declares a texture fix and a
path filter with no implementation in these sources. This model follows the
loop as written in the two module files.

Both plugins contain the same loop (`PluginButtonClicked`, lines 68-83 of
each module file). One model serves both.

- `guid.dfy` (module `Guids`): the 128-bit `FGuid` as four 32-bit words, and the all-zero GUID.
- `scan_spec.dfy` (module `ScanSpec`): what the scan computes, stated on the sequence of
  lighting GUIDs before the scan, and the lemmas about it:
  - `IsRepeat(s, i)`: some earlier material holds the same GUID.
  - `Rank(s, i)`: how many GUIDs have been drawn before position i.
  - `Fixed(s, newGuid)`: the GUIDs after the scan.
  - `FirstSeen(s)`: the seen-map after the scan.
- `swarm_guid_fixer.dfy` (module `SwarmGuidFixer`): the loop, as a method over two arrays.
  - `lightingGuids[i]` is the lighting GUID of the i-th material the iterator yields. `GetLightingGuid` reads it and `SetLightingGuid` writes it.
  - `modified[i]` is the material's dirty flag, which `Modify()` sets.
  - The material pointer stored in the seen-map is modelled as the material's position.
- `guid_fixer.dfy` (module `GuidFixer`): the GuidFixer plugin's command, which runs the same loop.

The engine's GUID generator behind `SetLightingGuid()` is a parameter
`newGuid: nat -> Guid`: the k-th GUID drawn during a scan (counting from 0)
is `newGuid(k)`. The engine's GUIDs are random and unique. The lemmas
therefore state that uniqueness as a precondition, `FreshSupply`: each
drawn GUID differs from every original GUID and from every other drawn GUID.

## Model

| member | source | states |
|---|---|---|
| `SwarmGuidFixer.PluginButtonClicked` | SwarmGuidFixer/Source/SwarmGuidFixer/Private/SwarmGuidFixer.cpp:68-83 | A material whose GUID is not yet a seen-map key keeps its GUID and its dirty flag. A material whose GUID is already a key gets the next generated GUID and is marked modified. The returned seen-map is `FirstSeen` of the original GUIDs. |
| `GuidFixer.PluginButtonClicked` | Source/GuidFixer/Private/GuidFixer.cpp:68-83 | Same contract as the SwarmGuidFixer loop, which is identical: non-repeats untouched, repeats regenerated and marked modified, seen-map equal to `FirstSeen` of the originals. |
| `SwarmGuidFixer.ScanStep` | SwarmGuidFixer/Source/SwarmGuidFixer/Private/SwarmGuidFixer.cpp:72-82 | One iteration: `Find` misses exactly when no earlier material holds this GUID. On a miss, the map gains this GUID mapped to this material. On a hit, the map is unchanged. |
| `ScanSpec.FirstSeenIsFirstHolder` | SwarmGuidFixer/Source/SwarmGuidFixer/Private/SwarmGuidFixer.cpp:70-83 | At the end, the seen-map's keys are exactly the distinct original GUIDs, and each key maps to the first material in iteration order that held it. |
| `ScanSpec.SeenEntriesNeverChange` | SwarmGuidFixer/Source/SwarmGuidFixer/Private/SwarmGuidFixer.cpp:68-77 | Entries are only added: a key present after i materials is still present, with the same value, after any later number of materials. |
| `ScanSpec.RewrittenExactlyWhenSeenBefore` | SwarmGuidFixer/Source/SwarmGuidFixer/Private/SwarmGuidFixer.cpp:72-82 | With a fresh supply, a material's GUID changes value exactly when some earlier material held the same original GUID (both directions). |
| `ScanSpec.RegeneratedNeverKeyed` | Source/GuidFixer/Private/GuidFixer.cpp:76-80 | With a fresh supply, no GUID given to a rewritten material is a key of the final seen-map. Only original GUIDs are ever inserted. |
| `ScanSpec.ModifiedCount` | SwarmGuidFixer/Source/SwarmGuidFixer/Private/SwarmGuidFixer.cpp:70-83 | The number of positions marked modified is n minus the number of distinct original GUIDs. |
| `ScanSpec.RankCountsRepeats` | Source/GuidFixer/Private/GuidFixer.cpp:78-82 | The number of GUIDs drawn before position i equals the number of rewritten positions before i. |
| `ScanSpec.RepeatCount` | Source/GuidFixer/Private/GuidFixer.cpp:70-83 | After the first i materials, the GUIDs drawn number i minus the distinct GUIDs among those materials. |
| `ScanSpec.FixedDistinct` | SwarmGuidFixer/Source/SwarmGuidFixer/Private/SwarmGuidFixer.cpp:70-83 | With a fresh supply, all lighting GUIDs are pairwise distinct after the scan. |
| `ScanSpec.KeptOnlyByFirstHolder` | Source/GuidFixer/Private/GuidFixer.cpp:70-83 | With a fresh supply, each original GUID is held after the scan by exactly one material: the first holder recorded in the seen-map. With two holders A before B of one GUID, A keeps it and B gets a new one. |
| `ScanSpec.EmptyGuidKeptOnlyByFirstHolder` | SwarmGuidFixer/Source/SwarmGuidFixer/Private/SwarmGuidFixer.cpp:72-82 | The all-zero GUID has no special case (the instance of `KeptOnlyByFirstHolder` at the zero GUID). With a fresh supply, a holder of it keeps it exactly when no earlier material holds it. |
| `ScanSpec.NoRepeatsNoChange` | Source/GuidFixer/Private/GuidFixer.cpp:70-83 | The scan marks nothing modified exactly when the GUIDs are already pairwise distinct. In that case the scan leaves every GUID as it is. |
| `ScanSpec.SecondScanIsNoOp` | Source/GuidFixer/Private/GuidFixer.cpp:70-83 | With a fresh supply, a second scan right after the first finds no duplicate and changes nothing. |
| `ScanSpec.RankStep` | SwarmGuidFixer/Source/SwarmGuidFixer/Private/SwarmGuidFixer.cpp:78-81 | Each rewrite draws a new GUID: a rewritten position draws strictly fewer GUIDs before it than any later position. |

## Left out

- Module start-up and shut-down, menu and toolbar extension, command registration and the Slate style set are engine glue with no logic of their own.
- The completion dialog shown after the loop is UI output.
- How the engine generates a GUID is left out. It is the parameter `newGuid`, and its uniqueness is the `FreshSupply` precondition of the lemmas.
- The order in which the object iterator yields materials is taken as given: it is the array order.
- The undo transaction and package-dirtying machinery behind `Modify()` is left out. It is modelled as a boolean flag set to true.
- `FixMaterialGuids`, `FixTextureGuids`, `RegisterMenus`, `ShouldObjectBeUpdated`, `SetMaterialLightingGuid` and `SetTextureLightingGuid` are only declared in `Source/GuidFixer/Public/GuidFixer.h` (lines 18-28). Their implementation is not part of this model, so no texture scan, path exclusion filter or empty-GUID pass is modelled.
- That header does not declare the `PluginButtonClicked`, `AddMenuExtension` and `AddToolbarExtension` that `Source/GuidFixer/Private/GuidFixer.cpp` defines (lines 57, 88, 93): header and module file come from different revisions. The model follows the module file.
- A material reference that the iterator yields as null is not modelled: every position holds a material.
