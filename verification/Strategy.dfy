/** Which versions a compaction keeps. */
module Strategy {
  import opened InternalKeys

  datatype KeepDecision = Keep | Drop

  datatype Policy = Bottommost | SnapshotAware(snapshotSeqno: nat) | Passthrough

  datatype Decision = Decision(kept: bool, verdict: KeepDecision)

  // One decision. `kept` is the snapshot strategy's memory that it already holds a version of the
  // current user key the snapshot can see; the other strategies carry it unchanged.
  function Decide(policy: Policy, kept: bool, ik: InternalKey, isFirstForKey: bool): Decision {
    match policy
    case Bottommost =>
      Decision(kept, if !isFirstForKey || ik.valueType in {Deletion, SingleDeletion} then Drop else Keep)
    case SnapshotAware(snapshot) =>
      var visible := ik.sequence <= snapshot;
      if isFirstForKey then Decision(visible, Keep)
      else if !kept && visible then Decision(true, Keep)
      else Decision(kept, Drop)
    case Passthrough => Decision(kept, Keep)
  }

  class CompactionStrategy {
    const policy: Policy
    var keptVisibleVersionForCurrentKey: bool

    constructor (policy: Policy)
      ensures this.policy == policy && !keptVisibleVersionForCurrentKey
    {
      this.policy, keptVisibleVersionForCurrentKey := policy, false;
    }

    method DecideNext(ik: InternalKey, isFirstForKey: bool) returns (verdict: KeepDecision)
      modifies this
      ensures Decision(keptVisibleVersionForCurrentKey, verdict) ==
              Decide(policy, old(keptVisibleVersionForCurrentKey), ik, isFirstForKey)
    {
      match policy
      case Bottommost =>
        if !isFirstForKey {
          return Drop;
        }
        return if ik.valueType in {Deletion, SingleDeletion} then Drop else Keep;
      case SnapshotAware(snapshot) =>
        if isFirstForKey {
          keptVisibleVersionForCurrentKey := false;
          if ik.sequence <= snapshot {
            keptVisibleVersionForCurrentKey := true;
          }
          return Keep;
        }
        if keptVisibleVersionForCurrentKey {
          return Drop;
        }
        if ik.sequence <= snapshot {
          keptVisibleVersionForCurrentKey := true;
          return Keep;
        }
        return Drop;
      case Passthrough =>
        return Keep;
    }
  }
}
