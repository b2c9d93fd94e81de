/**
 The "fix material GUIDs" command of the SwarmGuidFixer plugin.

 The loaded materials, in the order the engine's object iterator yields them,
 are position 0 .. n-1 of two arrays: lightingGuids holds each material's
 lighting GUID and modified its dirty flag. The seen-map sends a GUID to the
 position of the material recorded for it.
 */
module SwarmGuidFixer {
  import opened Guids
  import opened ScanSpec

  /** One iteration's effect on the seen-map, for the material at position i. */
  lemma ScanStep(orig: seq<Guid>, i: nat)
    requires i < |orig|
    ensures (orig[i] in FirstSeen(orig[..i])) == IsRepeat(orig, i)
    ensures FirstSeen(orig[..i + 1]) ==
              if orig[i] in FirstSeen(orig[..i]) then FirstSeen(orig[..i])
              else FirstSeen(orig[..i])[orig[i] := i]
  {
    FirstSeenIsFirstHolder(orig[..i]);
    assert orig[..i + 1][..i] == orig[..i];
  }

  /**
   Walks the materials once. A material whose GUID is not yet a key of the
   seen-map is recorded under it and left alone; a material whose GUID is
   already a key gets the next GUID from newGuid and is marked modified. The
   k-th GUID drawn (from 0) is newGuid(k). Returns the seen-map as it stands
   when the walk ends.
   */
  method PluginButtonClicked(lightingGuids: array<Guid>, modified: array<bool>, newGuid: nat -> Guid)
    returns (seen: map<Guid, nat>)
    requires lightingGuids.Length == modified.Length
    modifies lightingGuids, modified
    ensures lightingGuids[..] == Fixed(old(lightingGuids[..]), newGuid)
    ensures forall i :: 0 <= i < modified.Length ==>
              modified[i] == (old(modified[i]) || IsRepeat(old(lightingGuids[..]), i))
    ensures seen == FirstSeen(old(lightingGuids[..]))
  {
    ghost var orig := lightingGuids[..];
    seen := map[];
    var drawn: nat := 0;
    var i := 0;
    while i < lightingGuids.Length
      invariant 0 <= i <= lightingGuids.Length
      invariant drawn == Rank(orig, i)
      invariant forall k :: 0 <= k < i ==> lightingGuids[k] == FixedAt(orig, newGuid, k)
      invariant forall k :: i <= k < lightingGuids.Length ==> lightingGuids[k] == orig[k]
      invariant forall k :: 0 <= k < i ==> modified[k] == (old(modified[k]) || IsRepeat(orig, k))
      invariant forall k :: i <= k < modified.Length ==> modified[k] == old(modified[k])
      invariant seen == FirstSeen(orig[..i])
    {
      var g := lightingGuids[i];
      ScanStep(orig, i);
      if g !in seen {
        seen := seen[g := i];
      } else {
        lightingGuids[i] := newGuid(drawn);
        drawn := drawn + 1;
        modified[i] := true;
      }
      i := i + 1;
    }
    FixedPointwise(lightingGuids[..], orig, newGuid);
    assert orig[..i] == orig;
  }
}
