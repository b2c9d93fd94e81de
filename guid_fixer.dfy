/**
 The "fix material GUIDs" command of the GuidFixer plugin. Its loop is the
 same as SwarmGuidFixer's, so it runs that model on the same state.
 */
module GuidFixer {
  import opened Guids
  import opened ScanSpec
  import SwarmGuidFixer

  method PluginButtonClicked(lightingGuids: array<Guid>, modified: array<bool>, newGuid: nat -> Guid)
    returns (seen: map<Guid, nat>)
    requires lightingGuids.Length == modified.Length
    modifies lightingGuids, modified
    ensures lightingGuids[..] == Fixed(old(lightingGuids[..]), newGuid)
    ensures forall i :: 0 <= i < modified.Length ==>
              modified[i] == (old(modified[i]) || IsRepeat(old(lightingGuids[..]), i))
    ensures seen == FirstSeen(old(lightingGuids[..]))
  {
    seen := SwarmGuidFixer.PluginButtonClicked(lightingGuids, modified, newGuid);
  }
}
