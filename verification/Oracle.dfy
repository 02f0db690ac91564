/**
 The independent reference compaction: one map from user key to the best version seen, no merge.
 The ordered map is a list of slots kept in strictly ascending key order.
 */
module Oracle {
  import opened Wrappers
  import opened ByteStrings
  import opened InternalKeys
  import opened Comparators
  import opened Lists
  import opened Merging
  import opened Strategy
  import opened Compaction

  datatype Slot = Slot(userKey: Bytes, seqno: nat, value: Bytes, tombstone: bool)

  ghost predicate Ordered(tree: seq<Slot>) {
    forall i, j :: 0 <= i < j < |tree| ==> CompareBytes(tree[i].userKey, tree[j].userKey) == Less
  }

  function TreeGet(tree: seq<Slot>, u: Bytes): Option<Slot> {
    if tree == [] then None
    else if tree[0].userKey == u then Some(tree[0])
    else TreeGet(tree[1..], u)
  }

  function TreeInsert(tree: seq<Slot>, s: Slot): seq<Slot> {
    if tree == [] || CompareBytes(s.userKey, tree[0].userKey) == Less then [s] + tree
    else if tree[0].userKey == s.userKey then [s] + tree[1..]
    else [tree[0]] + TreeInsert(tree[1..], s)
  }

  // The oracle's own reading of the type byte: it only tells tombstones apart.
  function SlotOf(e: Entry): Slot
    requires IsInternalKey(e.key)
  {
    Slot(UserKey(e.key), Sequence(e.key), e.value, TypeByte(e.key) == 0x0 || TypeByte(e.key) == 0x7)
  }

  // The two readings of the type byte agree on what a tombstone is.
  lemma TombstonesAgree(e: Entry)
    requires IsInternalKey(e.key)
    ensures SlotOf(e).tombstone <==> IsTombstone(e.key)
  {
    var t := TypeByte(e.key);
    assert ValueTypeFromByte(t) == Deletion <==> t == 0x0;
    assert ValueTypeFromByte(t) == SingleDeletion <==> t == 0x7;
  }

  // Insert unless the map already holds a version at least as new.
  function BestStep(tree: seq<Slot>, e: Entry): seq<Slot>
    requires IsInternalKey(e.key)
  {
    var s := SlotOf(e);
    match TreeGet(tree, s.userKey)
    case Some(existing) => if existing.seqno >= s.seqno then tree else TreeInsert(tree, s)
    case None => TreeInsert(tree, s)
  }

  function Best(es: seq<Entry>): seq<Slot>
    requires AllAccepted(IK, es)
  {
    if es == [] then [] else BestStep(Best(es[..|es| - 1]), es[|es| - 1])
  }

  // Filter out tombstones, keep user key and value.
  function Live(tree: seq<Slot>): seq<Entry> {
    if tree == [] then []
    else (if tree[0].tombstone then [] else [Entry(tree[0].userKey, tree[0].value)]) + Live(tree[1..])
  }

  lemma BestSnoc(es: seq<Entry>, e: Entry)
    requires AllAccepted(IK, es) && IsInternalKey(e.key)
    ensures AllAccepted(IK, es + [e]) && Best(es + [e]) == BestStep(Best(es), e)
  {
    assert (es + [e])[..|es|] == es;
  }

  lemma BestStepAt(seen: seq<Entry>, source: seq<Entry>, j: nat)
    requires j < |source| && AllAccepted(IK, seen + source[..j]) && IsInternalKey(source[j].key)
    ensures AllAccepted(IK, seen + source[..j + 1])
    ensures Best(seen + source[..j + 1]) == BestStep(Best(seen + source[..j]), source[j])
  {
    BestSnoc(seen + source[..j], source[j]);
    assert seen + source[..j + 1] == seen + source[..j] + [source[j]];
  }

  // The inner loop: one source's entries into the map.
  method AbsorbSource(tree: seq<Slot>, source: seq<Entry>, ghost seen: seq<Entry>) returns (best: seq<Slot>)
    requires AllAccepted(IK, seen) && AllAccepted(IK, source) && tree == Best(seen)
    ensures AllAccepted(IK, seen + source) && best == Best(seen + source)
  {
    best := tree;
    assert seen + source[..0] == seen;
    for j := 0 to |source|
      invariant AllAccepted(IK, seen + source[..j]) && best == Best(seen + source[..j])
    {
      BestStepAt(seen, source, j);
      best := BestStep(best, source[j]);
    }
    TakeAll(source);
  }

  lemma FlattenStep(sources: seq<seq<Entry>>, i: nat)
    requires i < |sources|
    ensures Flatten(sources[..i + 1]) == Flatten(sources[..i]) + sources[i]
  {
    TakeSnoc(sources, i);
    FlattenSnoc(sources[..i], sources[i]);
  }

  method NaiveCompact(sources: seq<seq<Entry>>) returns (r: seq<Entry>)
    requires forall i :: 0 <= i < |sources| ==> AllAccepted(IK, sources[i])
    ensures AllAccepted(IK, Flatten(sources)) && r == Live(Best(Flatten(sources)))
  {
    var best: seq<Slot> := [];
    for i := 0 to |sources|
      invariant AllAccepted(IK, Flatten(sources[..i])) && best == Best(Flatten(sources[..i]))
    {
      best := AbsorbSource(best, sources[i], Flatten(sources[..i]));
      FlattenStep(sources, i);
    }
    assert sources[..|sources|] == sources;
    r := Live(best);
  }

  // ----- The ordered map

  lemma {:induction false} TreeGetFinds(tree: seq<Slot>, u: Bytes)
    ensures TreeGet(tree, u).Some? ==> TreeGet(tree, u).value in tree && TreeGet(tree, u).value.userKey == u
    ensures TreeGet(tree, u).None? ==> forall s :: s in tree ==> s.userKey != u
  {
    if tree != [] {
      TreeGetFinds(tree[1..], u);
      assert tree == [tree[0]] + tree[1..];
    }
  }

  lemma {:induction false} TreeInsertMembers(tree: seq<Slot>, s: Slot)
    requires Ordered(tree)
    ensures forall x :: x in TreeInsert(tree, s) <==> x == s || (x in tree && x.userKey != s.userKey)
    ensures Ordered(TreeInsert(tree, s))
  {
    if tree == [] {
    } else {
      assert tree == [tree[0]] + tree[1..];
      CompareBytesReverse(s.userKey, tree[0].userKey);
      forall x | x in tree[1..] ensures CompareBytes(tree[0].userKey, x.userKey) == Less {
      }
      if CompareBytes(s.userKey, tree[0].userKey) == Less {
        forall x | x in tree ensures CompareBytes(s.userKey, x.userKey) == Less {
          if x != tree[0] {
            CompareBytesTransitive(s.userKey, tree[0].userKey, x.userKey);
          }
        }
        OrderedCons(s, tree);
      } else if tree[0].userKey == s.userKey {
        OrderedCons(s, tree[1..]);
      } else {
        TreeInsertMembers(tree[1..], s);
        OrderedCons(tree[0], TreeInsert(tree[1..], s));
      }
    }
  }

  lemma OrderedCons(s: Slot, tree: seq<Slot>)
    requires Ordered(tree) && forall x :: x in tree ==> CompareBytes(s.userKey, x.userKey) == Less
    ensures Ordered([s] + tree)
    ensures forall x :: x in tree ==> x.userKey != s.userKey
  {
    assert forall i :: 0 <= i < |tree| ==> tree[i] in tree;
    forall x | x in tree ensures x.userKey != s.userKey {
      CompareBytesReverse(s.userKey, x.userKey);
    }
  }

  // ----- What the map holds

  // b is the first met among the entries of its user key with the greatest sequence number.
  ghost predicate MetFirst(es: seq<Entry>, b: Entry) {
    IsInternalKey(b.key) && exists i {:trigger es[i]} :: 0 <= i < |es| && es[i] == b && FirstGreatestAt(es, i)
  }

  ghost predicate FirstGreatestAt(es: seq<Entry>, i: nat)
    requires i < |es| && IsInternalKey(es[i].key)
  {
    (forall j :: 0 <= j < i && IsInternalKey(es[j].key) && UserKey(es[j].key) == UserKey(es[i].key) ==>
       Sequence(es[j].key) < Sequence(es[i].key)) &&
    forall j :: i < j < |es| && IsInternalKey(es[j].key) && UserKey(es[j].key) == UserKey(es[i].key) ==>
      Sequence(es[j].key) <= Sequence(es[i].key)
  }

  lemma MetFirstUnique(es: seq<Entry>, a: Entry, b: Entry)
    requires MetFirst(es, a) && MetFirst(es, b) && UserKey(a.key) == UserKey(b.key)
    ensures a == b
  {
    var i :| 0 <= i < |es| && es[i] == a && FirstGreatestAt(es, i);
    var j :| 0 <= j < |es| && es[j] == b && FirstGreatestAt(es, j);
  }

  lemma MetFirstIsGreatest(es: seq<Entry>, b: Entry, x: Entry)
    requires MetFirst(es, b) && x in es && IsInternalKey(x.key) && UserKey(x.key) == UserKey(b.key)
    ensures b in es && Sequence(x.key) <= Sequence(b.key)
  {
    var i :| 0 <= i < |es| && es[i] == b && FirstGreatestAt(es, i);
    var j :| 0 <= j < |es| && es[j] == x;
    if j < i {
      assert Sequence(es[j].key) < Sequence(es[i].key);
    }
  }

  // A further entry takes over exactly when it is newer than all of its user key so far.
  lemma TakesOver(es: seq<Entry>, e: Entry)
    requires IsInternalKey(e.key)
    requires forall x :: x in es && IsInternalKey(x.key) && UserKey(x.key) == UserKey(e.key) ==> Sequence(x.key) < Sequence(e.key)
    ensures MetFirst(es + [e], e)
  {
    var all := es + [e];
    forall j | 0 <= j < |es| ensures all[j] in es {
    }
    assert all[|es|] == e && FirstGreatestAt(all, |es|);
  }

  lemma StaysFirst(es: seq<Entry>, e: Entry, b: Entry)
    requires IsInternalKey(e.key) && MetFirst(es, b)
    requires UserKey(b.key) == UserKey(e.key) ==> Sequence(e.key) <= Sequence(b.key)
    ensures MetFirst(es + [e], b)
  {
    var i :| 0 <= i < |es| && es[i] == b && FirstGreatestAt(es, i);
    var all := es + [e];
    assert all[i] == b;
    assert forall j :: 0 <= j < |es| ==> all[j] == es[j];
    assert FirstGreatestAt(all, i);
  }

  lemma WasFirst(es: seq<Entry>, e: Entry, b: Entry)
    requires IsInternalKey(e.key) && MetFirst(es + [e], b) && b != e
    ensures MetFirst(es, b) && (UserKey(b.key) == UserKey(e.key) ==> Sequence(e.key) <= Sequence(b.key))
  {
    var all := es + [e];
    var i :| 0 <= i < |all| && all[i] == b && FirstGreatestAt(all, i);
    assert all[|es|] == e && es[i] == b;
    assert forall j :: 0 <= j < |es| ==> all[j] == es[j];
    assert FirstGreatestAt(es, i);
  }

  // Every user key met has such an entry.
  lemma {:induction false} SomeMetFirst(es: seq<Entry>, x: Entry) returns (b: Entry)
    requires AllAccepted(IK, es) && x in es
    ensures MetFirst(es, b) && UserKey(b.key) == UserKey(x.key)
    decreases |es|
  {
    var front, e := es[..|es| - 1], es[|es| - 1];
    assert es == front + [e];
    if y :| y in front && UserKey(y.key) == UserKey(x.key) {
      b := SomeMetFirst(front, y);
      if UserKey(b.key) == UserKey(e.key) && Sequence(e.key) > Sequence(b.key) {
        forall z | z in front && UserKey(z.key) == UserKey(e.key) ensures Sequence(z.key) < Sequence(e.key) {
          MetFirstIsGreatest(front, b, z);
        }
        TakesOver(front, e);
        b := e;
      } else {
        StaysFirst(front, e, b);
      }
    } else {
      TakesOver(front, e);
      b := e;
    }
  }

  ghost predicate Backed(es: seq<Entry>, s: Slot) {
    exists e :: MetFirst(es, e) && s == SlotOf(e)
  }

  // One slot per user key met, holding the first entry met among those with the greatest sequence number.
  ghost predicate Holds(es: seq<Entry>, tree: seq<Slot>) {
    Ordered(tree) && forall s {:trigger Backed(es, s)} {:trigger s in tree} :: s in tree <==> Backed(es, s)
  }

  lemma SlotOfUserKey(es: seq<Entry>, tree: seq<Slot>, x: Entry)
    requires AllAccepted(IK, es) && Holds(es, tree) && x in es
    ensures exists b :: MetFirst(es, b) && UserKey(b.key) == UserKey(x.key) && SlotOf(b) in tree
  {
    var b := SomeMetFirst(es, x);
    assert Backed(es, SlotOf(b));
  }

  // The slot already there is kept when it is at least as new.
  lemma HoldsKept(es: seq<Entry>, tree: seq<Slot>, e: Entry, b: Entry)
    requires AllAccepted(IK, es) && IsInternalKey(e.key) && Holds(es, tree)
    requires MetFirst(es, b) && UserKey(b.key) == UserKey(e.key) && Sequence(e.key) <= Sequence(b.key)
    ensures Holds(es + [e], tree)
  {
    StaysFirst(es, e, b);
    forall s ensures Backed(es, s) <==> Backed(es + [e], s) {
      if Backed(es, s) {
        var x :| MetFirst(es, x) && s == SlotOf(x);
        if UserKey(x.key) == UserKey(e.key) {
          MetFirstUnique(es, x, b);
        }
        StaysFirst(es, e, x);
      }
      if Backed(es + [e], s) {
        var x :| MetFirst(es + [e], x) && s == SlotOf(x);
        if UserKey(x.key) == UserKey(e.key) {
          MetFirstUnique(es + [e], x, b);
        } else {
          WasFirst(es, e, x);
        }
      }
    }
  }

  // Otherwise the new entry's slot takes its place.
  lemma HoldsTakenOver(es: seq<Entry>, tree: seq<Slot>, e: Entry)
    requires AllAccepted(IK, es) && IsInternalKey(e.key) && Holds(es, tree)
    requires forall x :: x in es && UserKey(x.key) == UserKey(e.key) ==> Sequence(x.key) < Sequence(e.key)
    ensures Holds(es + [e], TreeInsert(tree, SlotOf(e)))
  {
    TreeInsertMembers(tree, SlotOf(e));
    TakesOver(es, e);
    forall s ensures s in TreeInsert(tree, SlotOf(e)) <==> Backed(es + [e], s) {
      if s in tree && s.userKey != UserKey(e.key) {
        assert Backed(es, s);
        var x :| MetFirst(es, x) && s == SlotOf(x);
        StaysFirst(es, e, x);
      }
      if Backed(es + [e], s) {
        var x :| MetFirst(es + [e], x) && s == SlotOf(x);
        if UserKey(x.key) == UserKey(e.key) {
          MetFirstUnique(es + [e], x, e);
        } else {
          WasFirst(es, e, x);
          assert Backed(es, s);
        }
      }
    }
  }

  lemma HoldsStep(es: seq<Entry>, tree: seq<Slot>, e: Entry)
    requires AllAccepted(IK, es) && IsInternalKey(e.key) && Holds(es, tree)
    ensures Holds(es + [e], BestStep(tree, e))
  {
    var u := UserKey(e.key);
    TreeGetFinds(tree, u);
    match TreeGet(tree, u)
    case Some(existing) =>
      assert Backed(es, existing);
      var b :| MetFirst(es, b) && existing == SlotOf(b);
      if existing.seqno >= Sequence(e.key) {
        HoldsKept(es, tree, e, b);
      } else {
        forall x | x in es && UserKey(x.key) == u ensures Sequence(x.key) < Sequence(e.key) {
          MetFirstIsGreatest(es, b, x);
        }
        HoldsTakenOver(es, tree, e);
      }
    case None =>
      forall x | x in es ensures UserKey(x.key) != u {
        SlotOfUserKey(es, tree, x);
      }
      HoldsTakenOver(es, tree, e);
  }

  lemma {:induction false} BestHolds(es: seq<Entry>)
    requires AllAccepted(IK, es)
    ensures Holds(es, Best(es))
    decreases |es|
  {
    if es == [] {
    } else {
      var front, e := es[..|es| - 1], es[|es| - 1];
      assert es == front + [e];
      BestHolds(front);
      HoldsStep(front, Best(front), e);
    }
  }

  lemma {:induction false} LiveHolds(tree: seq<Slot>)
    requires Ordered(tree)
    ensures forall p :: p in Live(tree) <==> exists s :: s in tree && !s.tombstone && p == Entry(s.userKey, s.value)
    ensures StrictlySorted(BytewiseComparator, Live(tree))
  {
    if tree != [] {
      var rest := Live(tree[1..]);
      assert tree == [tree[0]] + tree[1..];
      LiveHolds(tree[1..]);
      forall p ensures p in Live(tree) <==> exists s :: s in tree && !s.tombstone && p == Entry(s.userKey, s.value) {
        if p in rest {
          var s :| s in tree[1..] && !s.tombstone && p == Entry(s.userKey, s.value);
          assert s in tree;
        }
      }
      if !tree[0].tombstone {
        forall p | p in rest ensures BytewiseComparator.Lt(tree[0].userKey, p.key) {
          var s :| s in tree[1..] && !s.tombstone && p == Entry(s.userKey, s.value);
        }
        StrictCons(BytewiseComparator, Entry(tree[0].userKey, tree[0].value), rest);
      }
    }
  }

  // ----- When compaction and oracle agree

  function StripEntry(e: Entry): Entry
    requires IsInternalKey(e.key)
  {
    Entry(UserKey(e.key), e.value)
  }

  // Internal-key suffixes removed, as the comparison with the oracle does.
  function Strip(es: seq<Entry>): (r: seq<Entry>)
    requires AllAccepted(IK, es)
    ensures |r| == |es| && forall i :: 0 <= i < |r| ==> r[i] == StripEntry(es[i])
  {
    seq(|es|, i requires 0 <= i < |es| && IsInternalKey(es[i].key) => StripEntry(es[i]))
  }

  // Both are dropped, or both are kept with the same value.
  ghost predicate SameOutcome(a: Entry, b: Entry)
    requires IsInternalKey(a.key) && IsInternalKey(b.key)
  {
    (IsTombstone(a.key) <==> IsTombstone(b.key)) && (!IsTombstone(a.key) ==> a.value == b.value)
  }

  // The version the merge output puts first for its user key.
  ghost predicate PutFirst(merged: seq<Entry>, a: Entry)
    requires AllAccepted(IK, merged)
  {
    IsInternalKey(a.key) && Read(merged, UserKey(a.key), MAX_SEQUENCE) == Some(a)
  }

  // At every user key, what the merge puts first and what the oracle met first have the same outcome.
  ghost predicate FirstsAgree(merged: seq<Entry>, all: seq<Entry>)
    requires AllAccepted(IK, merged)
  {
    forall a, b :: PutFirst(merged, a) && MetFirst(all, b) && UserKey(a.key) == UserKey(b.key) ==> SameOutcome(a, b)
  }

  lemma InStrip(es: seq<Entry>, p: Entry)
    requires AllAccepted(IK, es)
    ensures p in Strip(es) <==> exists a :: a in es && IsInternalKey(a.key) && p == StripEntry(a)
  {
    if p in Strip(es) {
      var i :| 0 <= i < |es| && Strip(es)[i] == p;
      assert es[i] in es;
    }
    if a :| a in es && IsInternalKey(a.key) && p == StripEntry(a) {
      var i :| 0 <= i < |es| && es[i] == a;
      assert Strip(es)[i] == p;
    }
  }

  lemma StrippedOutput(kept: bool, merged: seq<Entry>, p: Entry)
    requires Sorted(IK, merged)
    ensures var out := Walk(Bottommost, kept, merged).output;
            AllAccepted(IK, out) &&
            (p in Strip(out) <==> exists a :: PutFirst(merged, a) && !IsTombstone(a.key) && p == StripEntry(a))
  {
    WalkKeeps(Bottommost, kept, merged);
    var out := Walk(Bottommost, kept, merged).output;
    assert forall a :: a in out <==> PutFirst(merged, a) && !IsTombstone(a.key);
    InStrip(out, p);
  }

  lemma LiveSlots(all: seq<Entry>, p: Entry)
    requires AllAccepted(IK, all)
    ensures p in Live(Best(all)) <==> exists b :: MetFirst(all, b) && !IsTombstone(b.key) && p == StripEntry(b)
  {
    var tree := Best(all);
    BestHolds(all);
    LiveHolds(tree);
    if p in Live(tree) {
      var s :| s in tree && !s.tombstone && p == Entry(s.userKey, s.value);
      assert Backed(all, s);
      var b :| MetFirst(all, b) && s == SlotOf(b);
      TombstonesAgree(b);
    }
    if b :| MetFirst(all, b) && !IsTombstone(b.key) && p == StripEntry(b) {
      TombstonesAgree(b);
      assert Backed(all, SlotOf(b));
    }
  }

  // With one version per user key left, the order of internal keys is the order of user keys.
  lemma StripSorted(kept: bool, merged: seq<Entry>)
    requires Sorted(IK, merged)
    ensures var out := Walk(Bottommost, kept, merged).output;
            AllAccepted(IK, out) && StrictlySorted(BytewiseComparator, Strip(out))
  {
    var out := Walk(Bottommost, kept, merged).output;
    WalkKeeps(Bottommost, kept, merged);
    StrictIsSorted(IK, out);
    forall i, j | 0 <= i < j < |out| ensures CompareBytes(UserKey(out[i].key), UserKey(out[j].key)) == Less {
      assert out[i] in out && out[j] in out && IK.Lt(out[i].key, out[j].key);
      CompareBytesReverse(UserKey(out[i].key), UserKey(out[j].key));
    }
  }

  lemma PutFirstExists(merged: seq<Entry>, x: Entry) returns (a: Entry)
    requires AllAccepted(IK, merged) && x in merged
    ensures PutFirst(merged, a) && UserKey(a.key) == UserKey(x.key) && a in merged
  {
    ReadFindsSome(merged, UserKey(x.key), MAX_SEQUENCE);
    NoSequenceAbove(x.key);
    a := Read(merged, UserKey(x.key), MAX_SEQUENCE).value;
  }

  // Whatever merge output is walked: bottommost compaction, suffixes stripped, is what the oracle returns if
  // and only if the firsts agree.
  lemma OracleAgreesIff(kept: bool, merged: seq<Entry>, all: seq<Entry>)
    requires Sorted(IK, merged) && AllAccepted(IK, all) && forall e :: e in merged <==> e in all
    ensures AllAccepted(IK, Walk(Bottommost, kept, merged).output)
    ensures Strip(Walk(Bottommost, kept, merged).output) == Live(Best(all)) <==> FirstsAgree(merged, all)
  {
    StripSorted(kept, merged);
    var kept', live := Strip(Walk(Bottommost, kept, merged).output), Live(Best(all));
    BestHolds(all);
    LiveHolds(Best(all));
    if FirstsAgree(merged, all) {
      forall p ensures p in kept' <==> p in live {
        AgreeOn(kept, merged, all, p);
      }
      StrictUnique(BytewiseComparator, kept', live);
    }
    if kept' == live {
      forall a, b | PutFirst(merged, a) && MetFirst(all, b) && UserKey(a.key) == UserKey(b.key) ensures SameOutcome(a, b) {
        SameListSameOutcome(kept, merged, all, a, b);
      }
    }
  }

  lemma AgreeOn(kept: bool, merged: seq<Entry>, all: seq<Entry>, p: Entry)
    requires Sorted(IK, merged) && AllAccepted(IK, all) && (forall e :: e in merged <==> e in all) && FirstsAgree(merged, all)
    ensures AllAccepted(IK, Walk(Bottommost, kept, merged).output)
    ensures p in Strip(Walk(Bottommost, kept, merged).output) <==> p in Live(Best(all))
  {
    StrippedOutput(kept, merged, p);
    LiveSlots(all, p);
    if a :| PutFirst(merged, a) && !IsTombstone(a.key) && p == StripEntry(a) {
      ReadFindsSome(merged, UserKey(a.key), MAX_SEQUENCE);
      var b := SomeMetFirst(all, a);
      assert SameOutcome(a, b);
    }
    if b :| MetFirst(all, b) && !IsTombstone(b.key) && p == StripEntry(b) {
      MetFirstIsGreatest(all, b, b);
      var a := PutFirstExists(merged, b);
      assert SameOutcome(a, b);
    }
  }

  lemma SameListSameOutcome(kept: bool, merged: seq<Entry>, all: seq<Entry>, a: Entry, b: Entry)
    requires Sorted(IK, merged) && AllAccepted(IK, all)
    requires AllAccepted(IK, Walk(Bottommost, kept, merged).output)
    requires Strip(Walk(Bottommost, kept, merged).output) == Live(Best(all))
    requires PutFirst(merged, a) && MetFirst(all, b) && UserKey(a.key) == UserKey(b.key)
    ensures SameOutcome(a, b)
  {
    StrippedOutput(kept, merged, StripEntry(a));
    LiveSlots(all, StripEntry(a));
    StrippedOutput(kept, merged, StripEntry(b));
    LiveSlots(all, StripEntry(b));
    if !IsTombstone(a.key) {
      var b' :| MetFirst(all, b') && !IsTombstone(b'.key) && StripEntry(a) == StripEntry(b');
      MetFirstUnique(all, b, b');
    }
  }

  // ----- When the oracle does not depend on the order of its inputs

  lemma SameSlotOutcome(es: seq<Entry>, es': seq<Entry>, a: Entry, b: Entry)
    requires AllAccepted(IK, es) && AllAccepted(IK, es') && Live(Best(es)) == Live(Best(es'))
    requires MetFirst(es, a) && MetFirst(es', b) && UserKey(a.key) == UserKey(b.key)
    ensures !IsTombstone(a.key) ==> !IsTombstone(b.key) && a.value == b.value
  {
    if !IsTombstone(a.key) {
      LiveSlots(es, StripEntry(a));
      LiveSlots(es', StripEntry(a));
      var b' :| MetFirst(es', b') && !IsTombstone(b'.key) && StripEntry(a) == StripEntry(b');
      MetFirstUnique(es', b, b');
    }
  }

  ghost predicate MetFirstsAgree(es: seq<Entry>, es': seq<Entry>) {
    forall a, b :: MetFirst(es, a) && MetFirst(es', b) && UserKey(a.key) == UserKey(b.key) ==> SameOutcome(a, b)
  }

  lemma LiveIn(es: seq<Entry>, es': seq<Entry>, p: Entry)
    requires AllAccepted(IK, es) && AllAccepted(IK, es') && (forall e :: e in es ==> e in es') && MetFirstsAgree(es, es')
    ensures p in Live(Best(es)) ==> p in Live(Best(es'))
  {
    LiveSlots(es, p);
    LiveSlots(es', p);
    if a :| MetFirst(es, a) && !IsTombstone(a.key) && p == StripEntry(a) {
      MetFirstIsGreatest(es, a, a);
      var b := SomeMetFirst(es', a);
      assert SameOutcome(a, b);
    }
  }

  lemma EqualResultsAgree(es: seq<Entry>, es': seq<Entry>, a: Entry, b: Entry)
    requires AllAccepted(IK, es) && AllAccepted(IK, es') && Live(Best(es)) == Live(Best(es'))
    requires MetFirst(es, a) && MetFirst(es', b) && UserKey(a.key) == UserKey(b.key)
    ensures SameOutcome(a, b)
  {
    SameSlotOutcome(es, es', a, b);
    SameSlotOutcome(es', es, b, a);
  }

  lemma LiveStrict(es: seq<Entry>)
    requires AllAccepted(IK, es)
    ensures StrictlySorted(BytewiseComparator, Live(Best(es)))
  {
    BestHolds(es);
    LiveHolds(Best(es));
  }

  lemma FirstsAgreeBack(es: seq<Entry>, es': seq<Entry>)
    requires MetFirstsAgree(es, es')
    ensures MetFirstsAgree(es', es)
  {
    forall a, b | MetFirst(es', a) && MetFirst(es, b) && UserKey(a.key) == UserKey(b.key) ensures SameOutcome(a, b) {
      assert SameOutcome(b, a);
    }
  }

  lemma FirstsMakeResultsEqual(es: seq<Entry>, es': seq<Entry>)
    requires AllAccepted(IK, es) && AllAccepted(IK, es') && (forall e :: e in es <==> e in es') && MetFirstsAgree(es, es')
    ensures Live(Best(es)) == Live(Best(es'))
  {
    FirstsAgreeBack(es, es');
    forall p ensures p in Live(Best(es)) <==> p in Live(Best(es')) {
      LiveIn(es, es', p);
      LiveIn(es', es, p);
    }
    LiveStrict(es);
    LiveStrict(es');
    StrictUnique(BytewiseComparator, Live(Best(es)), Live(Best(es')));
  }

  // Two orders of the same entries give the same result exactly when what is met first has the same outcome.
  lemma OrdersAgreeIff(es: seq<Entry>, es': seq<Entry>)
    requires AllAccepted(IK, es) && AllAccepted(IK, es') && forall e :: e in es <==> e in es'
    ensures Live(Best(es)) == Live(Best(es')) <==> MetFirstsAgree(es, es')
  {
    if Live(Best(es)) == Live(Best(es')) {
      forall a, b | MetFirst(es, a) && MetFirst(es', b) && UserKey(a.key) == UserKey(b.key) ensures SameOutcome(a, b) {
        EqualResultsAgree(es, es', a, b);
      }
    }
    if MetFirstsAgree(es, es') {
      FirstsMakeResultsEqual(es, es');
    }
  }

  // No version of a's user key has a greater sequence number.
  ghost predicate AtTop(es: seq<Entry>, a: Entry)
    requires AllAccepted(IK, es)
  {
    a in es && IsInternalKey(a.key) && forall x :: x in es && UserKey(x.key) == UserKey(a.key) ==> Sequence(x.key) <= Sequence(a.key)
  }

  ghost predicate TopTiesAgree(es: seq<Entry>)
    requires AllAccepted(IK, es)
  {
    forall a, b :: AtTop(es, a) && AtTop(es, b) && UserKey(a.key) == UserKey(b.key) ==> SameOutcome(a, b)
  }

  // The same entries with a in front.
  function Fronted(es: seq<Entry>, i: nat): (r: seq<Entry>)
    requires i < |es|
    ensures multiset(r) == multiset(es)
  {
    assert es == es[..i] + [es[i]] + es[i + 1..];
    [es[i]] + es[..i] + es[i + 1..]
  }

  lemma SameMultisetMembers(es: seq<Entry>, es': seq<Entry>)
    requires multiset(es) == multiset(es') && AllAccepted(IK, es)
    ensures AllAccepted(IK, es') && forall e :: e in es <==> e in es'
  {
    forall e ensures e in es <==> e in es' {
      assert e in es <==> e in multiset(es);
      assert e in es' <==> e in multiset(es');
    }
    forall i | 0 <= i < |es'| ensures IK.Accepts(es'[i].key) {
      assert es'[i] in es;
    }
  }

  lemma FrontedMetFirst(es: seq<Entry>, i: nat)
    requires AllAccepted(IK, es) && i < |es| && AtTop(es, es[i])
    ensures AllAccepted(IK, Fronted(es, i)) && MetFirst(Fronted(es, i), es[i])
  {
    var r := Fronted(es, i);
    SameMultisetMembers(es, r);
    forall j | 0 <= j < |r| ensures r[j] in es {
    }
    assert r[0] == es[i] && FirstGreatestAt(r, 0);
  }

  // Every order of the entries gives one result.
  ghost predicate OrderIndependent(es: seq<Entry>)
    requires AllAccepted(IK, es)
  {
    forall es' {:trigger Best(es')} :: AllAccepted(IK, es') && multiset(es') == multiset(es) ==> Live(Best(es')) == Live(Best(es))
  }

  lemma TiesMakeOrdersAgree(es: seq<Entry>, es': seq<Entry>)
    requires AllAccepted(IK, es) && AllAccepted(IK, es') && multiset(es') == multiset(es) && TopTiesAgree(es)
    ensures Live(Best(es')) == Live(Best(es))
  {
    SameMultisetMembers(es, es');
    forall a, b | MetFirst(es', a) && MetFirst(es, b) && UserKey(a.key) == UserKey(b.key) ensures SameOutcome(a, b) {
      forall x | x in es && UserKey(x.key) == UserKey(a.key)
        ensures Sequence(x.key) <= Sequence(a.key) && Sequence(x.key) <= Sequence(b.key)
      {
        MetFirstIsGreatest(es', a, x);
        MetFirstIsGreatest(es, b, x);
      }
      MetFirstIsGreatest(es', a, a);
      MetFirstIsGreatest(es, b, b);
      assert AtTop(es, a) && AtTop(es, b);
    }
    FirstsMakeResultsEqual(es', es);
  }

  lemma TopLikeFirst(es: seq<Entry>, a: Entry, first: Entry)
    requires AllAccepted(IK, es) && AtTop(es, a) && MetFirst(es, first) && UserKey(first.key) == UserKey(a.key)
    requires OrderIndependent(es)
    ensures SameOutcome(a, first)
  {
    var i :| 0 <= i < |es| && es[i] == a;
    FrontedMetFirst(es, i);
    assert Live(Best(Fronted(es, i))) == Live(Best(es));
    EqualResultsAgree(Fronted(es, i), es, a, first);
  }

  lemma TopsAlike(es: seq<Entry>, a: Entry, b: Entry)
    requires AllAccepted(IK, es) && AtTop(es, a) && AtTop(es, b) && UserKey(a.key) == UserKey(b.key)
    requires OrderIndependent(es)
    ensures SameOutcome(a, b)
  {
    var first := SomeMetFirst(es, a);
    TopLikeFirst(es, a, first);
    TopLikeFirst(es, b, first);
  }

  // The oracle does not depend on the order of its inputs if and only if all versions tied for a user key's
  // greatest sequence number have the same outcome.
  lemma OrderIndependentIff(es: seq<Entry>)
    requires AllAccepted(IK, es)
    ensures OrderIndependent(es) <==> TopTiesAgree(es)
  {
    if TopTiesAgree(es) {
      forall es' | AllAccepted(IK, es') && multiset(es') == multiset(es) ensures Live(Best(es')) == Live(Best(es)) {
        TiesMakeOrdersAgree(es, es');
      }
    }
    if OrderIndependent(es) {
      forall a, b | AtTop(es, a) && AtTop(es, b) && UserKey(a.key) == UserKey(b.key) ensures SameOutcome(a, b) {
        TopsAlike(es, a, b);
      }
    }
  }

  // ----- On the inputs themselves

  // At every user key, the newest version and the one the oracle met first have the same outcome. Ties below
  // the greatest sequence number do not matter, nor do ties with the same outcome.
  ghost predicate TiesAgree(all: seq<Entry>)
    requires AllAccepted(IK, all) && Keyed(Members(all))
  {
    forall a, b ::
      (a in all && IsInternalKey(a.key) && Newest(Members(all), a) && MetFirst(all, b) && UserKey(a.key) == UserKey(b.key)) ==>
      SameOutcome(a, b)
  }

  lemma PutFirstIsNewest(sources: seq<seq<Entry>>, a: Entry)
    requires AllAccepted(IK, Flatten(sources)) && DistinctKeys(Flatten(sources)) && IsInternalKey(a.key)
    ensures AllAccepted(IK, Merged(IK, sources)) && Keyed(Members(Flatten(sources)))
    ensures PutFirst(Merged(IK, sources), a) <==> a in Flatten(sources) && Newest(Members(Flatten(sources)), a)
  {
    var all, merged := Flatten(sources), Merged(IK, sources);
    MergedProperties(IK, sources);
    assert Members(merged) == Members(all);
    ReadIsVisible(merged, a, MAX_SEQUENCE);
    NewestIsVisible(merged, a);
  }

  // With distinct internal keys, compaction and oracle agree if and only if ties do.
  lemma CompactionAgreesIff(sources: seq<seq<Entry>>)
    requires AllAccepted(IK, Flatten(sources)) && DistinctKeys(Flatten(sources))
    ensures AllAccepted(IK, Compacted(Bottommost, sources)) && Keyed(Members(Flatten(sources)))
    ensures Strip(Compacted(Bottommost, sources)) == Live(Best(Flatten(sources))) <==> TiesAgree(Flatten(sources))
  {
    var all, merged := Flatten(sources), Merged(IK, sources);
    SortedMembersKeyed(all);
    MergedProperties(IK, sources);
    StrictIsSorted(IK, merged);
    OracleAgreesIff(false, merged, all);
    forall a: Entry | IsInternalKey(a.key)
      ensures PutFirst(merged, a) <==> a in all && Newest(Members(all), a)
    {
      PutFirstIsNewest(sources, a);
    }
  }

  ghost predicate UniqueVersions(es: seq<Entry>)
    requires AllAccepted(IK, es)
  {
    forall i, j :: 0 <= i < j < |es| ==>
      !(UserKey(es[i].key) == UserKey(es[j].key) && Sequence(es[i].key) == Sequence(es[j].key))
  }

  lemma UniqueIsDistinct(es: seq<Entry>)
    requires AllAccepted(IK, es) && UniqueVersions(es)
    ensures DistinctKeys(es)
  {
  }

  lemma SameVersion(es: seq<Entry>, a: Entry, b: Entry)
    requires AllAccepted(IK, es) && UniqueVersions(es) && a in es && b in es
    requires UserKey(a.key) == UserKey(b.key) && Sequence(a.key) == Sequence(b.key)
    ensures a == b
  {
  }

  lemma UniqueTiesAgree(all: seq<Entry>)
    requires AllAccepted(IK, all) && UniqueVersions(all) && Keyed(Members(all))
    ensures TiesAgree(all)
  {
    forall a, b | a in all && IsInternalKey(a.key) && Newest(Members(all), a) && MetFirst(all, b) &&
                  UserKey(a.key) == UserKey(b.key)
      ensures SameOutcome(a, b)
    {
      MetFirstIsGreatest(all, b, a);
      assert b in Members(all);
      SameVersion(all, a, b);
    }
  }

  // In particular without shared sequence numbers.
  lemma CompactionRefinesOracle(sources: seq<seq<Entry>>)
    requires AllAccepted(IK, Flatten(sources)) && UniqueVersions(Flatten(sources))
    ensures AllAccepted(IK, Compacted(Bottommost, sources))
    ensures Strip(Compacted(Bottommost, sources)) == Live(Best(Flatten(sources)))
  {
    UniqueIsDistinct(Flatten(sources));
    CompactionAgreesIff(sources);
    UniqueTiesAgree(Flatten(sources));
  }

  // Of two entries sharing user key and sequence number the oracle keeps the first.
  lemma FirstOfPair(a: Entry, b: Entry)
    requires IsInternalKey(a.key) && IsInternalKey(b.key) && UserKey(a.key) == UserKey(b.key)
    requires Sequence(a.key) == Sequence(b.key)
    ensures Best([a, b]) == [SlotOf(a)]
  {
    OneBest(a);
    StepKeeps(SlotOf(a), b);
    assert [a, b][..1] == [a];
  }

  lemma OneBest(a: Entry)
    requires IsInternalKey(a.key)
    ensures Best([a]) == [SlotOf(a)]
  {
    assert [a][..0] == [];
  }

  lemma StepKeeps(s: Slot, e: Entry)
    requires IsInternalKey(e.key) && s.userKey == UserKey(e.key) && s.seqno >= Sequence(e.key)
    ensures BestStep([s], e) == [s]
  {
  }

  lemma LiveOne(s: Slot)
    ensures Live([s]) == if s.tombstone then [] else [Entry(s.userKey, s.value)]
  {
    assert [s][1..] == [];
  }

  lemma FlattenPair(a: Entry, b: Entry)
    ensures Flatten([[a], [b]]) == [a, b]
  {
    assert [[a], [b]] == [] + [[a]] + [[b]];
    FlattenSnoc([[a]], [b]);
    FlattenSnoc<Entry>([], [a]);
  }

  // Two versions sharing user key and sequence: only the greater type byte is newest.
  lemma OnlyPutSurvives(deletion: Entry, put: Entry)
    requires IsInternalKey(deletion.key) && IsInternalKey(put.key) && UserKey(deletion.key) == UserKey(put.key)
    requires Packed(deletion.key) == 0x100 && Packed(put.key) == 0x101
    ensures AllAccepted(IK, Flatten([[deletion], [put]])) && DistinctKeys(Flatten([[deletion], [put]]))
    ensures Compacted(Bottommost, [[deletion], [put]]) == [put]
  {
    FlattenPair(deletion, put);
    CompactedSurvivors(Bottommost, false, [[deletion], [put]]);
    var out := Compacted(Bottommost, [[deletion], [put]]);
    assert put in Members([deletion, put]);
    assert StrictlySorted(IK, [put]);
    assert out == [put] by {
      forall e ensures e in out <==> e in [put] {
      }
      StrictUnique(IK, out, [put]);
    }
  }

  lemma PairResult(a: Entry, b: Entry)
    requires IsInternalKey(a.key) && IsInternalKey(b.key) && UserKey(a.key) == UserKey(b.key)
    requires Sequence(a.key) == Sequence(b.key)
    ensures AllAccepted(IK, Flatten([[a], [b]]))
    ensures Live(Best(Flatten([[a], [b]]))) == if SlotOf(a).tombstone then [] else [StripEntry(a)]
  {
    FlattenPair(a, b);
    FirstOfPair(a, b);
    LiveOne(SlotOf(a));
  }

  // The oracle depends on the order of its inputs ...
  lemma OrderMatters(deletion: Entry, put: Entry)
    requires IsInternalKey(deletion.key) && IsInternalKey(put.key) && UserKey(deletion.key) == UserKey(put.key)
    requires Packed(deletion.key) == 0x100 && Packed(put.key) == 0x101
    ensures AllAccepted(IK, Flatten([[deletion], [put]])) && Live(Best(Flatten([[deletion], [put]]))) == []
    ensures AllAccepted(IK, Flatten([[put], [deletion]])) && Live(Best(Flatten([[put], [deletion]]))) == [StripEntry(put)]
  {
    PairResult(deletion, put);
    PairResult(put, deletion);
  }

  // ... and for one order differs from the compaction: of a value and a deletion sharing user key and sequence
  // number it keeps whichever came first, while the merge puts the greater type byte first.
  lemma SharedSequenceDiffers(userKey: Bytes, value: Bytes)
    ensures var deletion, put := Entry(MakeKey(userKey, 0x100), []), Entry(MakeKey(userKey, 0x101), value);
            AllAccepted(IK, Flatten([[deletion], [put]])) && DistinctKeys(Flatten([[deletion], [put]])) &&
            AllAccepted(IK, Flatten([[put], [deletion]])) &&
            Live(Best(Flatten([[deletion], [put]]))) == [] &&
            Live(Best(Flatten([[put], [deletion]]))) == [Entry(userKey, value)] &&
            Compacted(Bottommost, [[deletion], [put]]) == [put]
  {
    var deletion, put := Entry(MakeKey(userKey, 0x100), []), Entry(MakeKey(userKey, 0x101), value);
    MakeKeyRoundTrip(deletion.key, userKey, 0x100);
    MakeKeyRoundTrip(put.key, userKey, 0x101);
    OrderMatters(deletion, put);
    OnlyPutSurvives(deletion, put);
  }
}
