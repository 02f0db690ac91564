/**
 Compaction of merged entries: the walk over the merge output, and what it keeps said without any
 walk, as a property of the set of versions.
 */
module Compaction {
  import opened Wrappers
  import opened ByteStrings
  import opened InternalKeys
  import opened Comparators
  import opened Lists
  import opened Merging
  import opened Sources
  import opened MergeInputs
  import opened Strategy
  import opened LoserTree

  const IK := InternalKeyComparator

  // ----- The walk

  datatype WalkState = WalkState(hasLast: bool, lastUserKey: Bytes, kept: bool, output: seq<Entry>)

  // One entry of the merge output; a malformed key is skipped without a trace.
  function WalkStep(policy: Policy, s: WalkState, e: Entry): WalkState {
    match Split(e.key)
    case Failure(_) => s
    case Success(ik) =>
      var isFirstForKey := !s.hasLast || s.lastUserKey != ik.userKey;
      var d := Decide(policy, s.kept, ik, isFirstForKey);
      WalkState(true, ik.userKey, d.kept, if d.verdict == Drop then s.output else s.output + [e])
  }

  function Walk(policy: Policy, kept: bool, es: seq<Entry>): WalkState {
    if es == [] then WalkState(false, [], kept, [])
    else WalkStep(policy, Walk(policy, kept, es[..|es| - 1]), es[|es| - 1])
  }

  // What a compaction of these sources writes: the reference merge, walked.
  function Compacted(policy: Policy, sources: seq<seq<Entry>>): seq<Entry>
    requires AllAccepted(IK, Flatten(sources))
  {
    Walk(policy, false, Merged(IK, sources)).output
  }

  // ----- What survives, without the walk

  ghost function Members(es: seq<Entry>): set<Entry> {
    set e | e in es
  }

  ghost predicate Keyed(versions: set<Entry>) {
    forall e :: e in versions ==> IsInternalKey(e.key)
  }

  // No version of e's user key is newer than e.
  ghost predicate Newest(versions: set<Entry>, e: Entry)
    requires Keyed(versions) && IsInternalKey(e.key)
  {
    forall x :: x in versions && UserKey(x.key) == UserKey(e.key) ==> Packed(x.key) <= Packed(e.key)
  }

  // e is what a read of its user key at sequence number s finds.
  ghost predicate VisibleAt(versions: set<Entry>, e: Entry, s: nat)
    requires Keyed(versions) && IsInternalKey(e.key)
  {
    Sequence(e.key) <= s &&
    forall x :: x in versions && UserKey(x.key) == UserKey(e.key) && Sequence(x.key) <= s ==>
      Packed(x.key) <= Packed(e.key)
  }

  ghost predicate Survives(policy: Policy, versions: set<Entry>, e: Entry)
    requires Keyed(versions) && IsInternalKey(e.key)
  {
    match policy
    case Bottommost => Newest(versions, e) && !IsTombstone(e.key)
    case SnapshotAware(s) => Newest(versions, e) || VisibleAt(versions, e, s)
    case Passthrough => true
  }

  // ----- Point reads

  // Sequence numbers have 56 bits.
  const MAX_SEQUENCE := 0xff_ffff_ffff_ffff

  lemma NoSequenceAbove(key: Bytes)
    requires IsInternalKey(key)
    ensures Sequence(key) <= MAX_SEQUENCE
  {
    MakeKeyRoundTrip(key, [], 0);
  }

  // The first version of user key u, in internal-key order, that sequence number s may see.
  function Read(es: seq<Entry>, u: Bytes, s: nat): (r: Option<Entry>)
    requires AllAccepted(IK, es)
    ensures r.Some? ==> IsInternalKey(r.value.key) && UserKey(r.value.key) == u && Sequence(r.value.key) <= s
  {
    if es == [] then None
    else if UserKey(es[0].key) == u && Sequence(es[0].key) <= s then Some(es[0])
    else Read(es[1..], u, s)
  }

  lemma {:induction false} ReadFindsSome(es: seq<Entry>, u: Bytes, s: nat)
    requires AllAccepted(IK, es)
    ensures Read(es, u, s).None? <==> forall x :: x in es && UserKey(x.key) == u ==> Sequence(x.key) > s
    ensures Read(es, u, s).Some? ==> Read(es, u, s).value in es
  {
    if es != [] {
      ReadFindsSome(es[1..], u, s);
      assert es == [es[0]] + es[1..];
    }
  }

  // A further entry is found exactly when nothing before it was.
  lemma {:induction false} ReadSnoc(es: seq<Entry>, e: Entry, u: Bytes, s: nat)
    requires AllAccepted(IK, es) && IsInternalKey(e.key)
    ensures AllAccepted(IK, es + [e])
    ensures Read(es + [e], u, s) ==
            if Read(es, u, s).Some? then Read(es, u, s)
            else if UserKey(e.key) == u && Sequence(e.key) <= s then Some(e) else None
  {
    if es != [] {
      ReadSnoc(es[1..], e, u, s);
      assert (es + [e])[1..] == es[1..] + [e];
    }
  }

  // Nothing newer that s may see comes after what the read finds.
  lemma {:induction false} ReadFindsNewest(es: seq<Entry>, u: Bytes, s: nat, x: Entry)
    requires Sorted(IK, es) && Read(es, u, s).Some?
    requires x in es && IsInternalKey(x.key) && UserKey(x.key) == u && Sequence(x.key) <= s
    ensures Packed(x.key) <= Packed(Read(es, u, s).value.key)
  {
    var i :| 0 <= i < |es| && es[i] == x;
    if Read(es, u, s) == Some(es[0]) {
      if i > 0 {
        VersionsDescend(es, 0, i);
      }
    } else {
      assert x == es[1..][i - 1];
      ReadFindsNewest(es[1..], u, s, x);
    }
  }

  // What the read finds, as a property of the set of versions.
  lemma ReadFindsVisible(es: seq<Entry>, u: Bytes, s: nat)
    requires Sorted(IK, es)
    ensures Keyed(Members(es))
    ensures Read(es, u, s).None? <==> forall x :: x in es && UserKey(x.key) == u ==> Sequence(x.key) > s
    ensures Read(es, u, s).Some? ==>
              Read(es, u, s).value in es && VisibleAt(Members(es), Read(es, u, s).value, s)
  {
    SortedMembersKeyed(es);
    ReadFindsSome(es, u, s);
    if Read(es, u, s).Some? {
      forall x | x in Members(es) && UserKey(x.key) == u && Sequence(x.key) <= s
        ensures Packed(x.key) <= Packed(Read(es, u, s).value.key)
      {
        ReadFindsNewest(es, u, s, x);
      }
    }
  }

  lemma SortedMembersKeyed(es: seq<Entry>)
    requires AllAccepted(IK, es)
    ensures Keyed(Members(es))
  {
  }

  // ----- Versions of one user key in sorted order

  // They stand side by side and never get newer.
  lemma VersionsDescend(es: seq<Entry>, i: nat, j: nat)
    requires Sorted(IK, es) && i < j < |es| && UserKey(es[i].key) == UserKey(es[j].key)
    ensures UserKey(es[j - 1].key) == UserKey(es[j].key)
    ensures Packed(es[i].key) >= Packed(es[j].key)
  {
    CompareReverse(IK, es[i].key, es[j].key);
    VersionsNewestFirst(es[j].key, es[i].key);
    if i < j - 1 {
      CompareReverse(IK, es[i].key, es[j - 1].key);
      CompareReverse(IK, es[j - 1].key, es[j].key);
      VersionsAreContiguous(es[i].key, es[j - 1].key, es[j].key);
    }
  }

  // What `is_first_for_key` says of position j.
  predicate FirstAt(es: seq<Entry>, j: nat)
    requires AllAccepted(IK, es) && j < |es|
  {
    j == 0 || UserKey(es[j - 1].key) != UserKey(es[j].key)
  }

  // In any merge output the flag is raised at exactly one position per user key: the first one holding a
  // version of it, and that version is a newest one.
  lemma FirstFlagOnce(es: seq<Entry>, j: nat) returns (first: nat)
    requires Sorted(IK, es) && j < |es|
    ensures FirstAt(es, j) <==> forall i :: 0 <= i < j ==> UserKey(es[i].key) != UserKey(es[j].key)
    ensures first <= j && UserKey(es[first].key) == UserKey(es[j].key) && FirstAt(es, first)
    ensures Keyed(Members(es)) && Newest(Members(es), es[first])
  {
    SortedMembersKeyed(es);
    forall i | 0 <= i < j ensures UserKey(es[i].key) == UserKey(es[j].key) ==> !FirstAt(es, j) {
      if UserKey(es[i].key) == UserKey(es[j].key) {
        VersionsDescend(es, i, j);
      }
    }
    first := j;
    while !FirstAt(es, first)
      invariant first <= j && UserKey(es[first].key) == UserKey(es[j].key)
      decreases first
    {
      first := first - 1;
    }
    forall x | x in Members(es) && UserKey(x.key) == UserKey(es[first].key) ensures Packed(x.key) <= Packed(es[first].key) {
      var i :| 0 <= i < |es| && es[i] == x;
      if i < first {
        VersionsDescend(es, i, first);
      } else if first < i {
        VersionsDescend(es, first, i);
      }
    }
  }

  // ----- What the walk keeps

  // By point reads: of each user key the version a current read finds, the one a read at the snapshot finds,
  // or all versions.
  ghost predicate IsKept(policy: Policy, es: seq<Entry>, e: Entry)
    requires AllAccepted(IK, es) && IsInternalKey(e.key)
  {
    match policy
    case Bottommost => Read(es, UserKey(e.key), MAX_SEQUENCE) == Some(e) && !IsTombstone(e.key)
    case SnapshotAware(s) => Read(es, UserKey(e.key), MAX_SEQUENCE) == Some(e) || Read(es, UserKey(e.key), s) == Some(e)
    case Passthrough => e in es
  }

  ghost predicate OutputIs(policy: Policy, es: seq<Entry>, out: seq<Entry>)
    requires AllAccepted(IK, es)
  {
    AllAccepted(IK, out) && (policy.Passthrough? ==> out == es) && (!policy.Passthrough? ==> StrictlySorted(IK, out)) &&
    forall e :: e in out <==> IsInternalKey(e.key) && IsKept(policy, es, e)
  }

  ghost predicate WalkInvariant(policy: Policy, es: seq<Entry>, s: WalkState)
    requires AllAccepted(IK, es)
  {
    (s.hasLast <==> es != []) &&
    (es != [] ==> s.lastUserKey == UserKey(es[|es| - 1].key)) &&
    (policy.SnapshotAware? && es != [] ==> (s.kept <==> Read(es, s.lastUserKey, policy.snapshotSeqno).Some?)) &&
    OutputIs(policy, es, s.output)
  }

  // A version that may come next is the first of its user key exactly when a read finds none before it.
  lemma FirstIffUnread(es: seq<Entry>, e: Entry)
    requires Sorted(IK, es + [e]) && AllAccepted(IK, es) && IsInternalKey(e.key)
    ensures Read(es, UserKey(e.key), MAX_SEQUENCE).None? <==>
            es == [] || UserKey(es[|es| - 1].key) != UserKey(e.key)
  {
    ReadFindsSome(es, UserKey(e.key), MAX_SEQUENCE);
    if x :| x in es && UserKey(x.key) == UserKey(e.key) {
      NoSequenceAbove(x.key);
      LastSharesUserKey(es, e, x);
    } else if es != [] {
      assert es[|es| - 1] in es;
    }
  }

  lemma LastSharesUserKey(es: seq<Entry>, e: Entry, x: Entry)
    requires Sorted(IK, es + [e]) && x in es && IsInternalKey(x.key) && IsInternalKey(e.key) && UserKey(x.key) == UserKey(e.key)
    ensures IsInternalKey(es[|es| - 1].key) && UserKey(es[|es| - 1].key) == UserKey(e.key)
  {
    var all := es + [e];
    var i :| 0 <= i < |es| && es[i] == x;
    assert all[i] == x && all[|es|] == e && all[|es| - 1] == es[|es| - 1];
    VersionsDescend(all, i, |es|);
  }

  // Whether the walk keeps e when it comes to it, in terms of reads of what came before.
  ghost predicate KeepsNext(policy: Policy, es: seq<Entry>, e: Entry)
    requires AllAccepted(IK, es) && IsInternalKey(e.key)
  {
    match policy
    case Bottommost => Read(es, UserKey(e.key), MAX_SEQUENCE).None? && !IsTombstone(e.key)
    case SnapshotAware(s) =>
      Read(es, UserKey(e.key), MAX_SEQUENCE).None? || (Read(es, UserKey(e.key), s).None? && Sequence(e.key) <= s)
    case Passthrough => true
  }

  lemma VerdictIs(policy: Policy, es: seq<Entry>, e: Entry, s: WalkState)
    requires Sorted(IK, es + [e]) && AllAccepted(IK, es) && IsInternalKey(e.key) && WalkInvariant(policy, es, s)
    ensures WalkStep(policy, s, e).output == if KeepsNext(policy, es, e) then s.output + [e] else s.output
    ensures var s' := WalkStep(policy, s, e);
            s'.hasLast && s'.lastUserKey == UserKey(e.key) &&
            (policy.SnapshotAware? ==>
               (s'.kept <==> Read(es, UserKey(e.key), policy.snapshotSeqno).Some? || Sequence(e.key) <= policy.snapshotSeqno))
  {
    FirstIffUnread(es, e);
    if policy.SnapshotAware? && Read(es, UserKey(e.key), MAX_SEQUENCE).None? {
      ReadFindsSome(es, UserKey(e.key), MAX_SEQUENCE);
      ReadFindsSome(es, UserKey(e.key), policy.snapshotSeqno);
      forall x | x in es && UserKey(x.key) == UserKey(e.key) ensures false {
        NoSequenceAbove(x.key);
      }
    }
  }

  // Appending e adds e to what is kept, or nothing.
  lemma KeptStep(policy: Policy, es: seq<Entry>, e: Entry, x: Entry)
    requires AllAccepted(IK, es) && IsInternalKey(e.key) && IsInternalKey(x.key)
    ensures AllAccepted(IK, es + [e])
    ensures IsKept(policy, es + [e], x) <==> IsKept(policy, es, x) || (x == e && KeepsNext(policy, es, e))
  {
    NoSequenceAbove(e.key);
    ReadSnoc(es, e, UserKey(x.key), MAX_SEQUENCE);
    if policy.SnapshotAware? {
      ReadSnoc(es, e, UserKey(x.key), policy.snapshotSeqno);
    }
  }

  // What is kept next sorts strictly after what is kept already.
  lemma KeptAfter(policy: Policy, es: seq<Entry>, e: Entry, x: Entry)
    requires Sorted(IK, es + [e]) && AllAccepted(IK, es) && IsInternalKey(e.key) && !policy.Passthrough?
    requires IsInternalKey(x.key) && IsKept(policy, es, x) && KeepsNext(policy, es, e)
    ensures IK.Lt(x.key, e.key)
  {
    ReadFindsSome(es, UserKey(x.key), MAX_SEQUENCE);
    if policy.SnapshotAware? {
      ReadFindsSome(es, UserKey(x.key), policy.snapshotSeqno);
    }
    BeforeLast(es, e, x);
    if UserKey(x.key) == UserKey(e.key) {
      NoSequenceAbove(x.key);
      VersionsNewestFirst(x.key, e.key);
    }
  }

  lemma BeforeLast(es: seq<Entry>, e: Entry, x: Entry)
    requires Sorted(IK, es + [e]) && x in es && IsInternalKey(x.key) && IsInternalKey(e.key)
    ensures UserKey(x.key) != UserKey(e.key) ==> IK.Lt(x.key, e.key)
  {
    var i :| 0 <= i < |es| && es[i] == x;
    assert (es + [e])[i] == x && (es + [e])[|es|] == e;
    CompareReverse(IK, x.key, e.key);
    CompareBytesReverse(UserKey(x.key), UserKey(e.key));
  }

  lemma OutputStep(policy: Policy, es: seq<Entry>, e: Entry, out: seq<Entry>)
    requires Sorted(IK, es + [e]) && AllAccepted(IK, es) && IsInternalKey(e.key) && OutputIs(policy, es, out)
    ensures OutputIs(policy, es + [e], if KeepsNext(policy, es, e) then out + [e] else out)
  {
    var keeps := KeepsNext(policy, es, e);
    var out' := if keeps then out + [e] else out;
    forall x: Entry ensures x in out' <==> IsInternalKey(x.key) && IsKept(policy, es + [e], x) {
      if IsInternalKey(x.key) {
        KeptStep(policy, es, e, x);
      }
    }
    if keeps && !policy.Passthrough? {
      forall x: Entry | x in out ensures IK.Lt(x.key, e.key) {
        KeptAfter(policy, es, e, x);
      }
      StrictSnoc(IK, out, e);
    }
  }

  lemma WalkStepKeeps(policy: Policy, es: seq<Entry>, e: Entry, s: WalkState)
    requires Sorted(IK, es + [e]) && AllAccepted(IK, es) && IsInternalKey(e.key) && WalkInvariant(policy, es, s)
    ensures WalkInvariant(policy, es + [e], WalkStep(policy, s, e))
  {
    VerdictIs(policy, es, e, s);
    OutputStep(policy, es, e, s.output);
    assert (es + [e])[|es|] == e;
    if policy.SnapshotAware? {
      ReadSnoc(es, e, UserKey(e.key), policy.snapshotSeqno);
    }
  }

  // Over any merge output, equal internal keys included, and from any state of the strategy.
  lemma {:induction false} WalkKeeps(policy: Policy, kept: bool, es: seq<Entry>)
    requires Sorted(IK, es)
    ensures WalkInvariant(policy, es, Walk(policy, kept, es))
    decreases |es|
  {
    if es != [] {
      var front, e := es[..|es| - 1], es[|es| - 1];
      assert es == front + [e];
      WalkKeeps(policy, kept, front);
      WalkStepKeeps(policy, front, e, Walk(policy, kept, front));
    }
  }

  // Nothing the strategy remembers from before reaches the output.
  lemma StateDoesNotLeak(policy: Policy, k1: bool, k2: bool, es: seq<Entry>)
    requires Sorted(IK, es)
    ensures Walk(policy, k1, es).output == Walk(policy, k2, es).output
  {
    WalkKeeps(policy, k1, es);
    WalkKeeps(policy, k2, es);
    if !policy.Passthrough? {
      StrictUnique(IK, Walk(policy, k1, es).output, Walk(policy, k2, es).output);
    }
  }

  // ----- The same as a property of the set of versions, when no internal key occurs twice

  lemma SameVersionAs(es: seq<Entry>, a: Entry, b: Entry)
    requires StrictlySorted(IK, es) && a in es && b in es && UserKey(a.key) == UserKey(b.key) && Packed(a.key) == Packed(b.key)
    ensures a == b
  {
    KeyDeterminedByParts(a.key, b.key);
    StrictIsSorted(IK, es);
  }

  // What a read at s finds is the version visible at s.
  lemma ReadIsVisible(es: seq<Entry>, e: Entry, s: nat)
    requires StrictlySorted(IK, es) && IsInternalKey(e.key)
    ensures Keyed(Members(es))
    ensures Read(es, UserKey(e.key), s) == Some(e) <==> e in es && VisibleAt(Members(es), e, s)
  {
    StrictIsSorted(IK, es);
    ReadFindsVisible(es, UserKey(e.key), s);
    if e in es && VisibleAt(Members(es), e, s) {
      var found := Read(es, UserKey(e.key), s).value;
      assert found in Members(es) && e in Members(es);
      SameVersionAs(es, found, e);
    }
  }

  lemma NewestIsVisible(es: seq<Entry>, e: Entry)
    requires Keyed(Members(es)) && IsInternalKey(e.key)
    ensures Newest(Members(es), e) <==> VisibleAt(Members(es), e, MAX_SEQUENCE)
  {
    NoSequenceAbove(e.key);
    forall x | x in Members(es) ensures Sequence(x.key) <= MAX_SEQUENCE {
      NoSequenceAbove(x.key);
    }
  }

  lemma KeptIsSurvivor(policy: Policy, es: seq<Entry>, e: Entry)
    requires StrictlySorted(IK, es) && IsInternalKey(e.key)
    ensures Keyed(Members(es))
    ensures IsKept(policy, es, e) <==> e in es && Survives(policy, Members(es), e)
  {
    ReadIsVisible(es, e, MAX_SEQUENCE);
    NewestIsVisible(es, e);
    if policy.SnapshotAware? {
      ReadIsVisible(es, e, policy.snapshotSeqno);
    }
  }

  lemma WalkKeepsSurvivors(policy: Policy, kept: bool, es: seq<Entry>)
    requires StrictlySorted(IK, es)
    ensures Keyed(Members(es)) && StrictlySorted(IK, Walk(policy, kept, es).output)
    ensures forall e :: e in Walk(policy, kept, es).output <==> e in es && Survives(policy, Members(es), e)
  {
    StrictIsSorted(IK, es);
    SortedMembersKeyed(es);
    WalkKeeps(policy, kept, es);
    forall e ensures e in Walk(policy, kept, es).output <==> e in es && Survives(policy, Members(es), e) {
      if IsInternalKey(e.key) {
        KeptIsSurvivor(policy, es, e);
      }
    }
  }

  // ----- What a compaction keeps

  // With distinct internal keys, the output is the sorted list of the survivors and nothing else,
  // whatever state the strategy started with.
  lemma CompactedSurvivors(policy: Policy, kept: bool, sources: seq<seq<Entry>>)
    requires AllAccepted(IK, Flatten(sources)) && DistinctKeys(Flatten(sources))
    ensures Keyed(Members(Flatten(sources))) && StrictlySorted(IK, Compacted(policy, sources))
    ensures forall e :: e in Compacted(policy, sources) <==>
              e in Flatten(sources) && Survives(policy, Members(Flatten(sources)), e)
    ensures Walk(policy, kept, Merged(IK, sources)).output == Compacted(policy, sources)
  {
    var all, merged := Flatten(sources), Merged(IK, sources);
    SortedMembersKeyed(all);
    MergedProperties(IK, sources);
    assert Members(merged) == Members(all);
    WalkKeepsSurvivors(policy, false, merged);
    WalkKeepsSurvivors(policy, kept, merged);
    StrictUnique(IK, Walk(policy, kept, merged).output, Compacted(policy, sources));
  }

  // A tombstone survives a snapshot-aware compaction exactly when it is the newest version of its user key
  // or what the snapshot sees; being no newer than the snapshot does not save it.
  lemma TombstoneSurvivesIff(S: nat, sources: seq<seq<Entry>>, t: Entry)
    requires AllAccepted(IK, Flatten(sources)) && DistinctKeys(Flatten(sources))
    requires t in Flatten(sources) && IsInternalKey(t.key) && IsTombstone(t.key)
    ensures Keyed(Members(Flatten(sources)))
    ensures t in Compacted(SnapshotAware(S), sources) <==>
            Newest(Members(Flatten(sources)), t) || VisibleAt(Members(Flatten(sources)), t, S)
  {
    CompactedSurvivors(SnapshotAware(S), false, sources);
  }

  // ----- The compaction itself, up to writing the file

  // `merged` and `trace` record the merge that was walked.
  method CompactEntries(sources: seq<ArenaSource>, strategy: CompactionStrategy)
    returns (output: seq<Entry>, ghost merged: seq<Entry>, ghost trace: seq<nat>)
    requires ValidSources(sources) && forall i :: 0 <= i < |sources| ==> Sorted(IK, sources[i].Remaining())
    modifies sources, strategy
    ensures IsMerge(IK, old(Remainders(sources)), merged, trace)
    ensures output == Walk(strategy.policy, old(strategy.keptVisibleVersionForCurrentKey), merged).output
  {
    ghost var kept0, all := strategy.keptVisibleVersionForCurrentKey, Remainders(sources);
    var merger := new LoserTreeMerger(IK, sources);
    var pairs, tr := merger.Run();
    merged, trace := pairs, tr;
    output := [];
    var lastUserKey: Bytes := [];
    var hasLastUserKey := false;
    for n := 0 to |pairs|
      invariant Walk(strategy.policy, kept0, pairs[..n]) ==
                WalkState(hasLastUserKey, lastUserKey, strategy.keptVisibleVersionForCurrentKey, output)
    {
      assert pairs[..n + 1][..n] == pairs[..n];
      var e := pairs[n];
      var ik := Split(e.key);
      if ik.Success? {
        var isFirstForKey := !hasLastUserKey || lastUserKey != ik.value.userKey;
        lastUserKey := ik.value.userKey;
        hasLastUserKey := true;
        var verdict := strategy.DecideNext(ik.value, isFirstForKey);
        if verdict == Keep {
          output := output + [e];
        }
      }
    }
    assert pairs[..|pairs|] == pairs;
  }
}
