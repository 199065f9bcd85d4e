/** The decision the mutation observer's callback makes for one batch of
    mutation records: scan in order and, at the first record that qualifies,
    re-apply the branding once and stop. */
module Watcher {
  import opened Dom
  import Branding

  /** A record qualifies when it is a structural or character-data change, or
      an attribute change whose name (`attributeName || ''`) is tracked. */
  predicate Qualifies(m: MutationRecord)
  {
    || m.kind == ChildList
    || m.kind == CharacterData
    || (m.kind == Attributes && m.attributeName.GetOr("") in Branding.AttributeTargets)
  }

  /** How many times the callback calls `applyBranding` for `batch`: at most
      once, and exactly once when some record qualifies. */
  function Reapplications(batch: seq<MutationRecord>): (n: nat)
    ensures n <= 1
    ensures n == 1 <==> exists j :: 0 <= j < |batch| && Qualifies(batch[j])
    decreases |batch|
  {
    if batch == [] then 0
    else if batch[0].kind == ChildList || batch[0].kind == CharacterData then 1
    else if batch[0].kind == Attributes && batch[0].attributeName.GetOr("") in Branding.AttributeTargets then 1
    else
      var n := Reapplications(batch[1..]);
      assert forall j :: 1 <= j < |batch| ==> batch[j] == batch[1..][j - 1];
      n
  }

  /** The index at which the scan stops: the first qualifying record, if any. */
  function FirstQualifying(batch: seq<MutationRecord>): (r: Option<nat>)
    ensures r.Some? ==> r.value < |batch| && Qualifies(batch[r.value])
    ensures r.Some? ==> forall j :: 0 <= j < r.value ==> !Qualifies(batch[j])
    ensures r.None? <==> Reapplications(batch) == 0
    decreases |batch|
  {
    if batch == [] then None
    else if Qualifies(batch[0]) then Some(0)
    else
      match FirstQualifying(batch[1..])
      case None => None
      case Some(j) => Some(j + 1)
  }

  /** Records after the first qualifying one are never examined: a batch that
      already triggers a re-apply triggers exactly one however it continues,
      and one that does not defers to what follows. Two batches merged into one
      re-apply at most once, and do so exactly when either would alone. */
  lemma {:induction false} ReapplicationsConcat(first: seq<MutationRecord>, rest: seq<MutationRecord>)
    ensures Reapplications(first + rest) ==
      if Reapplications(first) == 1 then 1 else Reapplications(rest)
    decreases |first|
  {
    if first == [] {
      assert first + rest == rest;
    } else if !Qualifies(first[0]) {
      assert (first + rest)[1..] == first[1..] + rest;
      ReapplicationsConcat(first[1..], rest);
    }
  }
}
