/** Point reads at a sequence number, before and after a snapshot-aware compaction; repeated compactions. */
module SnapshotReads {
  import opened Wrappers
  import opened ByteStrings
  import opened InternalKeys
  import opened Comparators
  import opened Lists
  import opened Merging
  import opened Strategy
  import opened Compaction

  function Min(a: nat, b: nat): nat {
    if a < b then a else b
  }

  function Max(a: nat, b: nat): nat {
    if a < b then b else a
  }

  // Reads of u at s do not notice a compaction for snapshot S: s sees no version, or s sees the newest
  // version, or no version was written between S and s.
  ghost predicate Undisturbed(es: seq<Entry>, u: Bytes, S: nat, s: nat)
    requires AllAccepted(IK, es)
  {
    (forall x :: x in es && UserKey(x.key) == u ==> Sequence(x.key) > s) ||
    (forall x :: x in es && UserKey(x.key) == u ==> Sequence(x.key) <= s) ||
    (forall x :: x in es && UserKey(x.key) == u ==> !(Min(s, S) < Sequence(x.key) <= Max(s, S)))
  }

  ghost function Kept(es: seq<Entry>, S: nat): seq<Entry> {
    Walk(SnapshotAware(S), false, es).output
  }

  // After the compaction a read finds what it found before if that version survived, and never
  // something else in its place.
  lemma ReadAfter(es: seq<Entry>, u: Bytes, S: nat, s: nat)
    requires Sorted(IK, es)
    ensures StrictlySorted(IK, Kept(es, S))
    ensures Read(es, u, s).None? ==> Read(Kept(es, S), u, s).None?
    ensures Read(es, u, s).Some? ==>
              (Read(Kept(es, S), u, s) == Read(es, u, s) <==>
               Read(es, u, s) == Read(es, u, MAX_SEQUENCE) || Read(es, u, s) == Read(es, u, S))
  {
    var out := Kept(es, S);
    WalkKeeps(SnapshotAware(S), false, es);
    StrictIsSorted(IK, out);
    KeptIsFromInput(es, S);
    ReadFindsVisible(es, u, s);
    ReadFindsVisible(out, u, s);
    if Read(es, u, s).Some? && Read(es, u, s).value in out {
      SameFound(es, out, u, s);
    }
  }

  lemma KeptIsFromInput(es: seq<Entry>, S: nat)
    requires Sorted(IK, es)
    ensures forall e :: e in Kept(es, S) ==> e in es
  {
    WalkKeeps(SnapshotAware(S), false, es);
    forall e | e in Kept(es, S) ensures e in es {
      ReadFindsSome(es, UserKey(e.key), MAX_SEQUENCE);
      ReadFindsSome(es, UserKey(e.key), S);
    }
  }

  // Both reads find a newest visible version, and the output holds only one.
  lemma SameFound(es: seq<Entry>, out: seq<Entry>, u: Bytes, s: nat)
    requires Sorted(IK, es) && StrictlySorted(IK, out) && (forall e :: e in out ==> e in es)
    requires Read(es, u, s).Some? && Read(es, u, s).value in out
    ensures Read(out, u, s) == Read(es, u, s)
  {
    var e := Read(es, u, s).value;
    StrictIsSorted(IK, out);
    ReadFindsSome(out, u, s);
    var found := Read(out, u, s).value;
    ReadFindsNewest(es, u, s, found);
    ReadFindsNewest(out, u, s, e);
    SameVersionAs(out, found, e);
  }

  // Reads that see the same versions find the same one.
  lemma {:induction false} ReadsAgree(es: seq<Entry>, u: Bytes, s: nat, t: nat)
    requires AllAccepted(IK, es)
    requires forall x :: x in es && UserKey(x.key) == u ==> (Sequence(x.key) <= s <==> Sequence(x.key) <= t)
    ensures Read(es, u, s) == Read(es, u, t)
  {
    if es != [] {
      assert es == [es[0]] + es[1..];
      ReadsAgree(es[1..], u, s, t);
    }
  }

  // What a read at s finds is also found at t exactly when no version lies between them.
  lemma FoundAtBothIff(es: seq<Entry>, u: Bytes, s: nat, t: nat)
    requires Sorted(IK, es) && Read(es, u, s).Some?
    ensures Read(es, u, s) == Read(es, u, t) <==>
            forall x :: x in es && UserKey(x.key) == u ==> !(Min(s, t) < Sequence(x.key) <= Max(s, t))
  {
    if forall x :: x in es && UserKey(x.key) == u ==> !(Min(s, t) < Sequence(x.key) <= Max(s, t)) {
      ReadsAgree(es, u, s, t);
    }
    if Read(es, u, s) == Read(es, u, t) {
      forall x | x in es && UserKey(x.key) == u ensures !(Min(s, t) < Sequence(x.key) <= Max(s, t)) {
        if Min(s, t) < Sequence(x.key) <= Max(s, t) {
          ReadFindsNewest(es, u, Max(s, t), x);
        }
      }
    }
  }

  lemma NoneAboveIff(es: seq<Entry>, u: Bytes, s: nat)
    requires Sorted(IK, es) && Read(es, u, s).Some?
    ensures Read(es, u, s) == Read(es, u, MAX_SEQUENCE) <==>
            forall x :: x in es && UserKey(x.key) == u ==> Sequence(x.key) <= s
  {
    FoundAtBothIff(es, u, s, MAX_SEQUENCE);
    ReadFindsSome(es, u, s);
    forall x | x in es ensures Sequence(x.key) <= MAX_SEQUENCE {
      NoSequenceAbove(x.key);
    }
  }

  // Exactly which reads a snapshot-aware compaction preserves, over any merge output.
  lemma ReadPreservedIff(es: seq<Entry>, u: Bytes, S: nat, s: nat)
    requires Sorted(IK, es)
    ensures AllAccepted(IK, Kept(es, S))
    ensures Read(Kept(es, S), u, s) == Read(es, u, s) <==> Undisturbed(es, u, S, s)
  {
    ReadAfter(es, u, S, s);
    ReadFindsSome(es, u, s);
    if Read(es, u, s).Some? {
      NoneAboveIff(es, u, s);
      FoundAtBothIff(es, u, s, S);
    }
  }

  // A read between the snapshot and the newest version can change: of versions 3, 2 and 1, compacted for
  // snapshot 1, version 2 is gone, and a read at 2 finds something else.
  lemma MiddleReadLost(u: Bytes, v3: Bytes, v2: Bytes, v1: Bytes)
    ensures var es := [Entry(MakeKey(u, 0x301), v3), Entry(MakeKey(u, 0x201), v2), Entry(MakeKey(u, 0x101), v1)];
            StrictlySorted(IK, es) && AllAccepted(IK, Kept(es, 1)) && Read(Kept(es, 1), u, 2) != Read(es, u, 2)
  {
    MakeKeyRoundTrip(MakeKey(u, 0), u, 0x301);
    MakeKeyRoundTrip(MakeKey(u, 0), u, 0x201);
    MakeKeyRoundTrip(MakeKey(u, 0), u, 0x101);
    MiddleVersionLost(u, Entry(MakeKey(u, 0x301), v3), Entry(MakeKey(u, 0x201), v2), Entry(MakeKey(u, 0x101), v1));
  }

  lemma MiddleVersionLost(u: Bytes, a: Entry, b: Entry, d: Entry)
    requires IsInternalKey(a.key) && IsInternalKey(b.key) && IsInternalKey(d.key)
    requires UserKey(a.key) == UserKey(b.key) == UserKey(d.key) == u
    requires Packed(a.key) == 0x301 && Packed(b.key) == 0x201 && Packed(d.key) == 0x101
    ensures StrictlySorted(IK, [a, b, d]) && AllAccepted(IK, Kept([a, b, d], 1))
    ensures Read(Kept([a, b, d], 1), u, 2) != Read([a, b, d], u, 2)
  {
    var es := [a, b, d];
    VersionsSorted(a, b, d);
    StrictIsSorted(IK, es);
    assert !Undisturbed(es, u, 1, 2) by {
      assert a in es && b in es && d in es;
    }
    ReadPreservedIff(es, u, 1, 2);
  }

  lemma VersionsSorted(a: Entry, b: Entry, d: Entry)
    requires IsInternalKey(a.key) && IsInternalKey(b.key) && IsInternalKey(d.key)
    requires UserKey(a.key) == UserKey(b.key) == UserKey(d.key) && Packed(a.key) > Packed(b.key) > Packed(d.key)
    ensures StrictlySorted(IK, [a, b, d])
  {
    CompareBytesReverse(UserKey(a.key), UserKey(b.key));
    assert IK.Lt(a.key, b.key) && IK.Lt(b.key, d.key) && IK.Lt(a.key, d.key);
  }

  // A tombstone no newer than the snapshot can be dropped: here a value at sequence 2 stands above it, and
  // the snapshot sees the value.
  lemma OldTombstoneDropped(u: Bytes, value: Bytes)
    ensures var put, tombstone := Entry(MakeKey(u, 0x201), value), Entry(MakeKey(u, 0x100), []);
            Sorted(IK, [put, tombstone]) && IsTombstone(tombstone.key) && Sequence(tombstone.key) <= 2 &&
            tombstone !in Kept([put, tombstone], 2)
  {
    var put, tombstone := Entry(MakeKey(u, 0x201), value), Entry(MakeKey(u, 0x100), []);
    MakeKeyRoundTrip(put.key, u, 0x201);
    MakeKeyRoundTrip(tombstone.key, u, 0x100);
    PairSorted(put, tombstone);
    WalkKeeps(SnapshotAware(2), false, [put, tombstone]);
  }

  lemma PairSorted(a: Entry, b: Entry)
    requires IsInternalKey(a.key) && IsInternalKey(b.key) && UserKey(a.key) == UserKey(b.key) && Packed(a.key) > Packed(b.key)
    ensures Sorted(IK, [a, b])
  {
    VersionsNewestFirst(a.key, b.key);
    CompareReverse(IK, a.key, b.key);
  }

  // In particular the snapshot's own reads, and current reads, see the same version, tombstones included.
  lemma PromisedReadsPreserved(es: seq<Entry>, u: Bytes, S: nat, s: nat)
    requires Sorted(IK, es)
    requires s == S || forall x :: x in es && UserKey(x.key) == u ==> Sequence(x.key) <= s
    ensures AllAccepted(IK, Kept(es, S)) && Read(Kept(es, S), u, s) == Read(es, u, s)
  {
    ReadPreservedIff(es, u, S, s);
  }

  // No user key has versions at three positions of the output.
  lemma AtMostTwoVersions(es: seq<Entry>, S: nat, i: nat, j: nat, k: nat)
    requires Sorted(IK, es) && i < j < k < |Kept(es, S)|
    ensures AllAccepted(IK, Kept(es, S))
    ensures !(UserKey(Kept(es, S)[i].key) == UserKey(Kept(es, S)[j].key) == UserKey(Kept(es, S)[k].key))
  {
    var out := Kept(es, S);
    WalkKeeps(SnapshotAware(S), false, es);
    StrictIsSorted(IK, out);
    assert out[i] in out && out[j] in out && out[k] in out;
  }

  // ----- Compacting again

  // The snapshot's and the current reads are all that is kept, and they are preserved.
  lemma KeptTwice(es: seq<Entry>, S: nat)
    requires Sorted(IK, es)
    ensures Kept(Kept(es, S), S) == Kept(es, S)
  {
    var once := Kept(es, S);
    WalkKeeps(SnapshotAware(S), false, es);
    StrictIsSorted(IK, once);
    WalkKeeps(SnapshotAware(S), false, once);
    forall e: Entry | IsInternalKey(e.key) ensures IsKept(SnapshotAware(S), once, e) <==> IsKept(SnapshotAware(S), es, e) {
      forall x | x in es ensures Sequence(x.key) <= MAX_SEQUENCE {
        NoSequenceAbove(x.key);
      }
      PromisedReadsPreserved(es, UserKey(e.key), S, MAX_SEQUENCE);
      PromisedReadsPreserved(es, UserKey(e.key), S, S);
    }
    StrictUnique(IK, Kept(once, S), once);
  }

  // The versions a user key's reads can find are still there.
  lemma {:induction false} BestSurvivor(es: seq<Entry>, x: Entry, s: nat) returns (newest: Entry, visible: Entry)
    requires StrictlySorted(IK, es) && x in es && Keyed(Members(es))
    ensures newest in es && UserKey(newest.key) == UserKey(x.key) && Newest(Members(es), newest)
    ensures Sequence(x.key) <= s ==>
              visible in es && UserKey(visible.key) == UserKey(x.key) && VisibleAt(Members(es), visible, s)
  {
    var u := UserKey(x.key);
    StrictIsSorted(IK, es);
    ReadFindsVisible(es, u, MAX_SEQUENCE);
    NoSequenceAbove(x.key);
    newest := Read(es, u, MAX_SEQUENCE).value;
    NewestIsVisible(es, newest);
    ReadFindsVisible(es, u, s);
    visible := if Read(es, u, s).Some? then Read(es, u, s).value else x;
  }

  // Surviving among the survivors of A together with B is surviving among A and B.
  lemma SurvivesInStages(a: seq<Entry>, b: set<Entry>, S: nat, e: Entry)
    requires StrictlySorted(IK, a) && Keyed(Members(a) + b) && IsInternalKey(e.key)
    ensures Keyed(Members(Kept(a, S)) + b)
    ensures e in Members(Kept(a, S)) + b && Survives(SnapshotAware(S), Members(Kept(a, S)) + b, e) <==>
            e in Members(a) + b && Survives(SnapshotAware(S), Members(a) + b, e)
  {
    WalkKeepsSurvivors(SnapshotAware(S), false, a);
    var before, after := Members(a) + b, Members(Kept(a, S)) + b;
    assert after <= before;
    forall x | x in a
      ensures exists y :: y in after && UserKey(y.key) == UserKey(x.key) && Packed(y.key) >= Packed(x.key)
      ensures Sequence(x.key) <= S ==>
                exists y :: y in after && UserKey(y.key) == UserKey(x.key) && Packed(y.key) >= Packed(x.key) && Sequence(y.key) <= S
    {
      var n, v := BestSurvivor(a, x, S);
      assert n in Members(a) && x in Members(a) && n in after;
      if Sequence(x.key) <= S {
        assert v in Members(a) && v in after;
      }
    }
    if e in after && Newest(after, e) {
      assert Newest(before, e);
    }
    if e in after && VisibleAt(after, e, S) {
      assert VisibleAt(before, e, S);
    }
    if e in Members(a) && Survives(SnapshotAware(S), before, e) {
      assert Survives(SnapshotAware(S), Members(a), e);
    }
  }

  lemma AcceptedMembers(es: seq<Entry>)
    ensures AllAccepted(IK, es) <==> Keyed(Members(es))
  {
    if Keyed(Members(es)) {
      forall i | 0 <= i < |es| ensures IK.Accepts(es[i].key) {
        assert es[i] in Members(es);
      }
    }
  }

  // Compacting some sources first and the rest with the result is compacting everything at once.
  lemma CompactionComposes(a: seq<seq<Entry>>, b: seq<seq<Entry>>, S: nat)
    requires AllAccepted(IK, Flatten(a + b)) && DistinctKeys(Flatten(a + b))
    ensures AllAccepted(IK, Flatten(a))
    ensures var staged := [Compacted(SnapshotAware(S), a)] + b;
            AllAccepted(IK, Flatten(staged)) && DistinctKeys(Flatten(staged)) &&
            Compacted(SnapshotAware(S), staged) == Compacted(SnapshotAware(S), a + b)
  {
    var policy := SnapshotAware(S);
    var fa, fb := Flatten(a), Flatten(b);
    FlattenAppend(a, b);
    assert Members(fa + fb) == Members(fa) + Members(fb);
    AcceptedMembers(fa + fb);
    AcceptedMembers(fa);
    DistinctParts(fa, fb);
    CompactedSurvivors(policy, false, a);
    MergedProperties(IK, a);
    var first, merged := Compacted(policy, a), Merged(IK, a);
    assert Members(merged) == Members(fa);
    StrictIsSorted(IK, first);
    DistinctParts(fa, fb);
    DistinctConcat(fa, fb, first, fb);
    var staged := [first] + b;
    assert Flatten(staged) == first + fb by {
      FlattenAppend([first], b);
      assert Flatten([first]) == first + Flatten<Entry>([]);
    }
    assert Members(first + fb) == Members(first) + Members(fb);
    AcceptedMembers(first + fb);
    CompactedSurvivors(policy, false, staged);
    CompactedSurvivors(policy, false, a + b);
    forall e ensures e in Compacted(policy, staged) <==> e in Compacted(policy, a + b) {
      if e in Compacted(policy, staged) || e in Compacted(policy, a + b) {
        assert e in Members(fa + fb) || e in Members(first + fb);
        SurvivesInStages(merged, Members(fb), S, e);
        assert e in Members(first + fb) <==> e in Flatten(staged);
        assert e in Members(fa + fb) <==> e in Flatten(a + b);
      }
    }
    StrictUnique(IK, Compacted(policy, staged), Compacted(policy, a + b));
  }

  // Compacting twice changes nothing more.
  lemma CompactionIdempotent(a: seq<seq<Entry>>, S: nat)
    requires AllAccepted(IK, Flatten(a)) && DistinctKeys(Flatten(a))
    ensures var once := Compacted(SnapshotAware(S), a);
            AllAccepted(IK, Flatten([once])) && Compacted(SnapshotAware(S), [once]) == once
  {
    assert a + [] == a;
    CompactionComposes(a, [], S);
    assert [Compacted(SnapshotAware(S), a)] + [] == [Compacted(SnapshotAware(S), a)];
  }
}
