/** Splitting one compaction into shards at common user-key boundaries. */
module Sharding {
  import opened ByteStrings
  import opened InternalKeys
  import opened Comparators
  import opened Lists
  import opened Merging
  import opened Sources
  import opened MergeInputs
  import opened Strategy
  import opened Compaction

  // ----- Choosing boundaries

  // The index of the longest source, the last one among equals.
  function Longest(lens: seq<nat>): (r: nat)
    requires lens != []
    ensures r < |lens| && forall i :: 0 <= i < |lens| ==> lens[i] <= lens[r] && (i > r ==> lens[i] < lens[r])
  {
    if |lens| == 1 then 0
    else
      var n := |lens| - 1;
      var r := Longest(lens[..n]);
      assert forall i :: 0 <= i < n ==> lens[..n][i] == lens[i];
      if lens[n] >= lens[r] then n else r
  }

  function SampleIndex(n: nat, numShards: nat, i: nat): (idx: nat)
    requires n > 0 && numShards > 0
    ensures idx < n
  {
    var idx := (n * i) / numShards;
    if idx < n - 1 then idx else n - 1
  }

  function EvenKeys(es: seq<Entry>, numShards: nat): seq<Bytes>
    requires numShards > 0
  {
    if |es| == 0 then []
    else seq(numShards - 1, i requires 0 <= i => es[SampleIndex(|es|, numShards, i + 1)].key)
  }

  function Boundaries(sources: seq<seq<Entry>>, numShards: nat): seq<Bytes>
    requires sources != [] && numShards > 0
  {
    EvenKeys(sources[Longest(Lengths(sources))], numShards)
  }

  function Lengths(sources: seq<seq<Entry>>): (lens: seq<nat>)
    ensures |lens| == |sources| && forall i :: 0 <= i < |lens| ==> lens[i] == |sources[i]|
  {
    seq(|sources|, i requires 0 <= i < |sources| => |sources[i]|)
  }

  ghost predicate Ascending(bs: seq<Bytes>) {
    (forall i :: 0 <= i < |bs| ==> IsInternalKey(bs[i])) &&
    forall i, j :: 0 <= i <= j < |bs| ==> CompareUserKeys(bs[i], bs[j]) != Greater
  }

  // The key i of numShards parts of the way through the entries.
  ghost predicate IsSample(b: Bytes, es: seq<Entry>, numShards: nat, i: nat) {
    exists k: nat {:trigger es[k]} :: k < |es| && b == es[k].key && k * numShards <= |es| * i < (k + 1) * numShards
  }

  // The boundaries cut the entries into numShards even parts; of no entries there are no parts to cut.
  ghost predicate EvenlySampled(bs: seq<Bytes>, es: seq<Entry>, numShards: nat)
    requires numShards > 0
  {
    |bs| == (if es == [] then 0 else numShards - 1) &&
    forall i :: 0 <= i < |bs| ==> IsSample(bs[i], es, numShards, i + 1)
  }

  lemma LessProduct(n: nat, i: nat, d: nat)
    requires n > 0 && i < d
    ensures n * i < n * d
  {
  }

  lemma LessFactor(d: nat, q: nat, n: nat)
    requires d * q < d * n
    ensures q < n
  {
    assert q >= n ==> d * q >= d * n;
  }

  lemma SampleIndexIs(n: nat, numShards: nat, i: nat)
    requires n > 0 && 1 <= i < numShards
    ensures var k := SampleIndex(n, numShards, i); k * numShards <= n * i < (k + 1) * numShards
  {
    var q, r := (n * i) / numShards, (n * i) % numShards;
    assert n * i == numShards * q + r;
    LessProduct(n, i, numShards);
    LessFactor(numShards, q, n);
    assert (q + 1) * numShards == numShards * q + numShards;
  }

  lemma EvenKeysAreEven(es: seq<Entry>, numShards: nat)
    requires numShards > 0
    ensures EvenlySampled(EvenKeys(es, numShards), es, numShards)
  {
    var bs := EvenKeys(es, numShards);
    forall i | 0 <= i < |bs| ensures IsSample(bs[i], es, numShards, i + 1) {
      SampleIndexIs(|es|, numShards, i + 1);
      assert bs[i] == es[SampleIndex(|es|, numShards, i + 1)].key;
    }
  }

  // At most numShards - 1 boundaries of the longest source, and at the right places.
  lemma BoundariesAreEven(sources: seq<seq<Entry>>, numShards: nat)
    requires sources != [] && numShards > 0
    ensures EvenlySampled(Boundaries(sources, numShards), sources[Longest(Lengths(sources))], numShards)
  {
    EvenKeysAreEven(sources[Longest(Lengths(sources))], numShards);
  }

  lemma SampleMonotone(n: nat, numShards: nat, i: nat, j: nat)
    requires n > 0 && numShards > 0 && i <= j
    ensures SampleIndex(n, numShards, i) <= SampleIndex(n, numShards, j)
  {
    assert n * i <= n * j;
    DivMonotone(n * i, n * j, numShards);
  }

  lemma DivMonotone(a: nat, b: nat, d: nat)
    requires a <= b && d > 0
    ensures a / d <= b / d
  {
    QuotientsOrdered(a / d, a % d, b / d, b % d, d);
  }

  lemma QuotientsOrdered(qa: nat, ra: nat, qb: nat, rb: nat, d: nat)
    requires d > 0 && ra < d && rb < d && d * qa + ra <= d * qb + rb
    ensures qa <= qb
  {
    assert d * (qb + 1) == d * qb + d;
    assert qa > qb ==> d * qa >= d * (qb + 1);
  }

  lemma EvenKeysAscend(es: seq<Entry>, numShards: nat)
    requires Sorted(IK, es) && numShards > 0
    ensures Ascending(EvenKeys(es, numShards))
  {
    var bs := EvenKeys(es, numShards);
    forall i, j | 0 <= i <= j < |bs| ensures CompareUserKeys(bs[i], bs[j]) != Greater {
      SampleMonotone(|es|, numShards, i + 1, j + 1);
      SortedUserKeys(es, SampleIndex(|es|, numShards, i + 1), SampleIndex(|es|, numShards, j + 1));
    }
  }

  // ----- Cutting a source

  // Where shard j starts in a source: 0, then the lower bound of each boundary, then the end.
  function CutAt(es: seq<Entry>, bs: seq<Bytes>, j: nat): (r: nat)
    requires AllAccepted(IK, es) && (forall i :: 0 <= i < |bs| ==> IsInternalKey(bs[i])) && j <= |bs| + 1
    ensures r <= |es|
  {
    if j == 0 then 0 else if j <= |bs| then FirstNotBelow(es, bs[j - 1]) else |es|
  }

  // A user key belongs to shard j: not below the boundary before, below the boundary after.
  ghost predicate InShard(bs: seq<Bytes>, j: nat, key: Bytes)
    requires Ascending(bs) && IsInternalKey(key) && j <= |bs|
  {
    (j > 0 ==> CompareUserKeys(key, bs[j - 1]) != Less) && (j < |bs| ==> CompareUserKeys(key, bs[j]) == Less)
  }

  // The `shard` assertion holds: cuts never go backwards.
  lemma CutsAscend(es: seq<Entry>, bs: seq<Bytes>, j: nat)
    requires Sorted(IK, es) && Ascending(bs) && j <= |bs|
    ensures CutAt(es, bs, j) <= CutAt(es, bs, j + 1)
  {
    if 0 < j < |bs| {
      var lo, hi := bs[j - 1], bs[j];
      FirstNotBelowSplits(es, lo);
      FirstNotBelowSplits(es, hi);
      var r := FirstNotBelow(es, hi);
      if r < FirstNotBelow(es, lo) {
        assert CompareUserKeys(lo, hi) != Greater;
        CompareBytesTransitive(UserKey(es[r].key), UserKey(lo), UserKey(hi));
        CompareBytesReverse(UserKey(es[r].key), UserKey(hi));
      }
    }
  }

  function ShardOf(es: seq<Entry>, bs: seq<Bytes>, j: nat): seq<Entry>
    requires AllAccepted(IK, es) && (forall i :: 0 <= i < |bs| ==> IsInternalKey(bs[i])) && j <= |bs|
    requires CutAt(es, bs, j) <= CutAt(es, bs, j + 1)
  {
    es[CutAt(es, bs, j)..CutAt(es, bs, j + 1)]
  }

  // The entries before a cut are those below the boundary.
  lemma CutSeparates(es: seq<Entry>, boundary: Bytes, i: nat)
    requires Sorted(IK, es) && IsInternalKey(boundary) && i < |es|
    ensures i < FirstNotBelow(es, boundary) <==> CompareUserKeys(es[i].key, boundary) == Less
  {
    FirstNotBelowSplits(es, boundary);
    var r := FirstNotBelow(es, boundary);
    if i >= r && CompareUserKeys(es[i].key, boundary) == Less {
      BelowIsDownClosed(es, boundary, r, i);
    }
  }

  // A shard of a source is exactly its entries whose user key belongs to the shard.
  lemma ShardMembers(es: seq<Entry>, bs: seq<Bytes>, j: nat)
    requires Sorted(IK, es) && Ascending(bs) && j <= |bs|
    ensures CutAt(es, bs, j) <= CutAt(es, bs, j + 1) && Sorted(IK, ShardOf(es, bs, j))
    ensures forall e :: e in ShardOf(es, bs, j) <==> e in es && IsInternalKey(e.key) && InShard(bs, j, e.key)
  {
    CutsAscend(es, bs, j);
    var lo, hi := CutAt(es, bs, j), CutAt(es, bs, j + 1);
    var shard := ShardOf(es, bs, j);
    forall i | 0 <= i < |es| ensures lo <= i < hi <==> InShard(bs, j, es[i].key) {
      if j > 0 {
        CutSeparates(es, bs[j - 1], i);
      }
      if j < |bs| {
        CutSeparates(es, bs[j], i);
      }
    }
    forall e ensures e in shard <==> e in es && IsInternalKey(e.key) && InShard(bs, j, e.key) {
      InSlice(es, lo, hi, e);
    }
  }

  // ----- Shards of one source are even

  ghost predicate DistinctUserKeys(es: seq<Entry>)
    requires AllAccepted(IK, es)
  {
    forall i, j :: 0 <= i < j < |es| ==> UserKey(es[i].key) != UserKey(es[j].key)
  }

  lemma CutAtSample(es: seq<Entry>, boundary: Bytes, k: nat)
    requires Sorted(IK, es) && DistinctUserKeys(es) && k < |es| && boundary == es[k].key
    ensures FirstNotBelow(es, boundary) == k
  {
    forall i | 0 <= i < k ensures CompareUserKeys(es[i].key, boundary) == Less {
      SortedUserKeys(es, i, k);
      CompareBytesReverse(UserKey(es[i].key), UserKey(boundary));
    }
    CompareBytesReverse(UserKey(boundary), UserKey(boundary));
    FirstNotBelowIs(es, boundary, k);
  }

  lemma CutsAreEven(es: seq<Entry>, bs: seq<Bytes>, numShards: nat, j: nat)
    requires Sorted(IK, es) && DistinctUserKeys(es) && es != [] && j <= numShards && 0 < numShards
    requires EvenlySampled(bs, es, numShards) && Ascending(bs)
    ensures var cut := CutAt(es, bs, j); cut * numShards <= |es| * j < (cut + 1) * numShards
  {
    if 0 < j < numShards {
      assert IsSample(bs[j - 1], es, numShards, j - 1 + 1);
      var k: nat :| k < |es| && bs[j - 1] == es[k].key && k * numShards <= |es| * j < (k + 1) * numShards;
      CutAtSample(es, bs[j - 1], k);
    } else if j == numShards {
      assert (|es| + 1) * numShards == |es| * numShards + numShards;
    }
  }

  // A source whose user keys are distinct is cut into shards whose sizes are its length divided by their number,
  // rounded down or up.
  lemma ShardsAreEven(es: seq<Entry>, bs: seq<Bytes>, numShards: nat, j: nat)
    requires Sorted(IK, es) && DistinctUserKeys(es) && es != [] && j < numShards
    requires EvenlySampled(bs, es, numShards) && Ascending(bs)
    ensures CutAt(es, bs, j) <= CutAt(es, bs, j + 1)
    ensures var size := |ShardOf(es, bs, j)|; size * numShards < |es| + numShards && |es| < (size + 1) * numShards
  {
    CutsAscend(es, bs, j);
    CutsAreEven(es, bs, numShards, j);
    CutsAreEven(es, bs, numShards, j + 1);
    EvenGap(CutAt(es, bs, j), CutAt(es, bs, j + 1), |es|, j, numShards);
  }

  lemma EvenGap(lo: nat, hi: nat, n: nat, j: nat, d: nat)
    requires lo <= hi && lo * d <= n * j < (lo + 1) * d && hi * d <= n * (j + 1) < (hi + 1) * d
    ensures (hi - lo) * d < n + d && n < (hi - lo + 1) * d
  {
    assert n * (j + 1) == n * j + n;
    assert (lo + 1) * d == lo * d + d && (hi + 1) * d == hi * d + d;
    assert (hi - lo) * d == hi * d - lo * d && (hi - lo + 1) * d == (hi - lo) * d + d;
  }

  // ----- Every user key has exactly one shard

  lemma {:induction false} SomeShard(bs: seq<Bytes>, key: Bytes, n: nat) returns (j: nat)
    requires Ascending(bs) && IsInternalKey(key) && n <= |bs|
    requires n < |bs| ==> CompareUserKeys(key, bs[n]) == Less
    ensures j <= n && InShard(bs, j, key)
  {
    if n == 0 || CompareUserKeys(key, bs[n - 1]) != Less {
      return n;
    }
    j := SomeShard(bs, key, n - 1);
  }

  // User keys of an earlier shard are below those of a later one.
  lemma ShardsAreOrdered(bs: seq<Bytes>, j: nat, k: nat, a: Bytes, b: Bytes)
    requires Ascending(bs) && j < k <= |bs| && IsInternalKey(a) && IsInternalKey(b)
    requires InShard(bs, j, a) && InShard(bs, k, b)
    ensures CompareUserKeys(a, b) == Less && UserKey(a) != UserKey(b) && IK.Lt(a, b)
  {
    CompareBytesTransitive(UserKey(a), UserKey(bs[j]), UserKey(bs[k - 1]));
    CompareBytesReverse(UserKey(b), UserKey(bs[k - 1]));
    CompareBytesTransitive(UserKey(a), UserKey(bs[k - 1]), UserKey(b));
    CompareBytesReverse(UserKey(a), UserKey(b));
  }

  // ----- Shard inputs

  function ShardInput(sources: seq<seq<Entry>>, bs: seq<Bytes>, j: nat): (r: seq<seq<Entry>>)
    requires (forall i :: 0 <= i < |bs| ==> IsInternalKey(bs[i])) && j <= |bs|
    requires forall i :: 0 <= i < |sources| ==> AllAccepted(IK, sources[i]) && CutAt(sources[i], bs, j) <= CutAt(sources[i], bs, j + 1)
    ensures |r| == |sources| && forall i :: 0 <= i < |r| ==> r[i] == ShardOf(sources[i], bs, j)
  {
    seq(|sources|, i requires 0 <= i < |sources| => ShardOf(sources[i], bs, j))
  }

  ghost predicate SortedSources(sources: seq<seq<Entry>>) {
    forall i :: 0 <= i < |sources| ==> Sorted(IK, sources[i])
  }

  lemma {:induction false} FlattenAccepted(sources: seq<seq<Entry>>)
    requires SortedSources(sources)
    ensures AllAccepted(IK, Flatten(sources))
  {
    if sources != [] {
      FlattenAccepted(sources[1..]);
    }
  }

  lemma CutsFit(sources: seq<seq<Entry>>, bs: seq<Bytes>, j: nat)
    requires SortedSources(sources) && Ascending(bs) && j <= |bs|
    ensures forall i :: 0 <= i < |sources| ==> CutAt(sources[i], bs, j) <= CutAt(sources[i], bs, j + 1)
    ensures SortedSources(ShardInput(sources, bs, j))
  {
    forall i | 0 <= i < |sources|
      ensures CutAt(sources[i], bs, j) <= CutAt(sources[i], bs, j + 1) && Sorted(IK, ShardOf(sources[i], bs, j))
    {
      ShardMembers(sources[i], bs, j);
    }
  }

  lemma ShardInputMembers(sources: seq<seq<Entry>>, bs: seq<Bytes>, j: nat, e: Entry)
    requires SortedSources(sources) && Ascending(bs) && j <= |bs|
    requires forall i :: 0 <= i < |sources| ==> CutAt(sources[i], bs, j) <= CutAt(sources[i], bs, j + 1)
    ensures e in Flatten(ShardInput(sources, bs, j)) <==>
            e in Flatten(sources) && IsInternalKey(e.key) && InShard(bs, j, e.key)
  {
    var input := ShardInput(sources, bs, j);
    InFlatten(input, e);
    InFlatten(sources, e);
    if e in Flatten(input) {
      var i :| 0 <= i < |input| && e in input[i];
      ShardMembers(sources[i], bs, j);
    }
    if e in Flatten(sources) && IsInternalKey(e.key) && InShard(bs, j, e.key) {
      var i :| 0 <= i < |sources| && e in sources[i];
      ShardMembers(sources[i], bs, j);
      assert e in input[i];
    }
  }

  lemma {:induction false} ShardInputDistinct(sources: seq<seq<Entry>>, bs: seq<Bytes>, j: nat)
    requires SortedSources(sources) && Ascending(bs) && j <= |bs| && DistinctKeys(Flatten(sources))
    requires forall i :: 0 <= i < |sources| ==> CutAt(sources[i], bs, j) <= CutAt(sources[i], bs, j + 1)
    ensures DistinctKeys(Flatten(ShardInput(sources, bs, j)))
  {
    if sources != [] {
      var input := ShardInput(sources, bs, j);
      DistinctParts(sources[0], Flatten(sources[1..]));
      ShardInputDistinct(sources[1..], bs, j);
      assert input[1..] == ShardInput(sources[1..], bs, j);
      forall e | e in Flatten(input[1..]) ensures e in Flatten(sources[1..]) {
        ShardInputMembers(sources[1..], bs, j, e);
      }
      DistinctConcat(sources[0], Flatten(sources[1..]), input[0], Flatten(input[1..]));
    }
  }

  // ----- Sharding preserves meaning

  // All versions of a user key are in its shard, so what survives there is what survives overall.
  lemma SurvivalIsLocal(policy: Policy, all: set<Entry>, part: set<Entry>, bs: seq<Bytes>, j: nat, e: Entry)
    requires Keyed(all) && Keyed(part) && Ascending(bs) && j <= |bs| && IsInternalKey(e.key) && InShard(bs, j, e.key)
    requires forall x :: x in part <==> x in all && InShard(bs, j, x.key)
    ensures Survives(policy, part, e) <==> Survives(policy, all, e)
  {
    forall x | x in all && UserKey(x.key) == UserKey(e.key) ensures x in part {
    }
  }

  lemma ShardSurvivors(policy: Policy, sources: seq<seq<Entry>>, bs: seq<Bytes>, j: nat)
    requires SortedSources(sources) && Ascending(bs) && j <= |bs| && DistinctKeys(Flatten(sources))
    ensures AllAccepted(IK, Flatten(sources)) && Keyed(Members(Flatten(sources)))
    ensures forall i :: 0 <= i < |sources| ==> CutAt(sources[i], bs, j) <= CutAt(sources[i], bs, j + 1)
    ensures var input := ShardInput(sources, bs, j);
            AllAccepted(IK, Flatten(input)) && DistinctKeys(Flatten(input)) &&
            StrictlySorted(IK, Compacted(policy, input)) &&
            forall e :: e in Compacted(policy, input) <==>
              e in Flatten(sources) && IsInternalKey(e.key) && InShard(bs, j, e.key) &&
              Survives(policy, Members(Flatten(sources)), e)
  {
    CutsFit(sources, bs, j);
    var input := ShardInput(sources, bs, j);
    FlattenAccepted(sources);
    FlattenAccepted(input);
    ShardInputDistinct(sources, bs, j);
    CompactedSurvivors(policy, false, input);
    SortedMembersKeyed(Flatten(sources));
    forall e
      ensures e in Flatten(input) <==> e in Flatten(sources) && IsInternalKey(e.key) && InShard(bs, j, e.key)
    {
      ShardInputMembers(sources, bs, j, e);
    }
    forall e | e in Flatten(input)
      ensures Survives(policy, Members(Flatten(input)), e) <==> Survives(policy, Members(Flatten(sources)), e)
    {
      SurvivalIsLocal(policy, Members(Flatten(sources)), Members(Flatten(input)), bs, j, e);
    }
  }

  // What each shard writes.
  ghost function ShardOutputs(policy: Policy, sources: seq<seq<Entry>>, bs: seq<Bytes>): (outs: seq<seq<Entry>>)
    requires SortedSources(sources) && Ascending(bs) && DistinctKeys(Flatten(sources))
    ensures |outs| == |bs| + 1
  {
    seq(|bs| + 1, j requires 0 <= j <= |bs| =>
      ShardSurvivors(policy, sources, bs, j); Compacted(policy, ShardInput(sources, bs, j)))
  }

  lemma ShardOutputMembers(policy: Policy, sources: seq<seq<Entry>>, bs: seq<Bytes>, j: nat)
    requires SortedSources(sources) && Ascending(bs) && DistinctKeys(Flatten(sources)) && j <= |bs|
    ensures AllAccepted(IK, Flatten(sources)) && Keyed(Members(Flatten(sources)))
    ensures StrictlySorted(IK, ShardOutputs(policy, sources, bs)[j])
    ensures forall e :: e in ShardOutputs(policy, sources, bs)[j] <==>
              e in Flatten(sources) && IsInternalKey(e.key) && InShard(bs, j, e.key) &&
              Survives(policy, Members(Flatten(sources)), e)
  {
    ShardSurvivors(policy, sources, bs, j);
  }

  lemma OutputFromMerged(policy: Policy, kept: bool, merged: seq<Entry>, e: Entry)
    requires Sorted(IK, merged) && e in Walk(policy, kept, merged).output
    ensures IsInternalKey(e.key) && e in merged
  {
    WalkKeeps(policy, kept, merged);
    ReadFindsSome(merged, UserKey(e.key), MAX_SEQUENCE);
    if policy.SnapshotAware? {
      ReadFindsSome(merged, UserKey(e.key), policy.snapshotSeqno);
    }
  }

  // A version in shard j's output, whatever merge of its input was walked, belongs to shard j.
  lemma OutputInShard(policy: Policy, kept: bool, sources: seq<seq<Entry>>, bs: seq<Bytes>, j: nat,
                      merged: seq<Entry>, trace: seq<nat>, e: Entry)
    requires SortedSources(sources) && Ascending(bs) && j <= |bs|
    requires forall i :: 0 <= i < |sources| ==> CutAt(sources[i], bs, j) <= CutAt(sources[i], bs, j + 1)
    requires IsMerge(IK, ShardInput(sources, bs, j), merged, trace) && e in Walk(policy, kept, merged).output
    ensures IsInternalKey(e.key) && InShard(bs, j, e.key)
  {
    OutputFromMerged(policy, kept, merged, e);
    MergePermutes(IK, ShardInput(sources, bs, j), merged, trace);
    SameElements(merged, Flatten(ShardInput(sources, bs, j)));
    ShardInputMembers(sources, bs, j, e);
  }

  // No user key is written by two shards, and shards come in key order, whichever way equal internal keys
  // come out of the shards' merges.
  lemma ShardOutputsOrdered(policy: Policy, kept: bool, sources: seq<seq<Entry>>, bs: seq<Bytes>, j: nat, k: nat,
                            mergedJ: seq<Entry>, traceJ: seq<nat>, mergedK: seq<Entry>, traceK: seq<nat>, e: Entry, d: Entry)
    requires SortedSources(sources) && Ascending(bs) && j < k <= |bs|
    requires forall i :: 0 <= i < |sources| ==>
               CutAt(sources[i], bs, j) <= CutAt(sources[i], bs, j + 1) && CutAt(sources[i], bs, k) <= CutAt(sources[i], bs, k + 1)
    requires IsMerge(IK, ShardInput(sources, bs, j), mergedJ, traceJ) && e in Walk(policy, kept, mergedJ).output
    requires IsMerge(IK, ShardInput(sources, bs, k), mergedK, traceK) && d in Walk(policy, kept, mergedK).output
    ensures IsInternalKey(e.key) && IsInternalKey(d.key)
    ensures CompareUserKeys(e.key, d.key) == Less && UserKey(e.key) != UserKey(d.key) && IK.Lt(e.key, d.key)
  {
    OutputInShard(policy, kept, sources, bs, j, mergedJ, traceJ, e);
    OutputInShard(policy, kept, sources, bs, k, mergedK, traceK, d);
    ShardsAreOrdered(bs, j, k, e.key, d.key);
  }

  // What survives is in its shard's output.
  lemma ShardedMember(policy: Policy, sources: seq<seq<Entry>>, bs: seq<Bytes>, e: Entry)
    requires SortedSources(sources) && Ascending(bs) && DistinctKeys(Flatten(sources))
    ensures AllAccepted(IK, Flatten(sources))
    ensures e in Flatten(ShardOutputs(policy, sources, bs)) <==> e in Compacted(policy, sources)
  {
    var outs := ShardOutputs(policy, sources, bs);
    FlattenAccepted(sources);
    CompactedSurvivors(policy, false, sources);
    InFlatten(outs, e);
    if e in Flatten(outs) {
      var j :| 0 <= j < |outs| && e in outs[j];
      ShardOutputMembers(policy, sources, bs, j);
    }
    if e in Compacted(policy, sources) {
      assert e in Members(Flatten(sources));
      var j := SomeShard(bs, e.key, |bs|);
      ShardOutputMembers(policy, sources, bs, j);
      assert e in outs[j];
    }
  }

  lemma ShardedOutput(policy: Policy, sources: seq<seq<Entry>>, bs: seq<Bytes>)
    requires SortedSources(sources) && Ascending(bs) && DistinctKeys(Flatten(sources))
    ensures AllAccepted(IK, Flatten(sources))
    ensures Flatten(ShardOutputs(policy, sources, bs)) == Compacted(policy, sources)
  {
    var outs := ShardOutputs(policy, sources, bs);
    FlattenAccepted(sources);
    CompactedSurvivors(policy, false, sources);
    forall j | 0 <= j < |outs| ensures StrictlySorted(IK, outs[j]) {
      ShardOutputMembers(policy, sources, bs, j);
    }
    forall j, k, e: Entry, d: Entry | 0 <= j < k < |outs| && e in outs[j] && d in outs[k]
      ensures IK.Accepts(e.key) && IK.Accepts(d.key) && IK.Lt(e.key, d.key)
    {
      ShardOutputMembers(policy, sources, bs, j);
      ShardOutputMembers(policy, sources, bs, k);
      ShardsAreOrdered(bs, j, k, e.key, d.key);
    }
    FlattenStrict(IK, outs);
    forall e ensures e in Flatten(outs) <==> e in Compacted(policy, sources) {
      ShardedMember(policy, sources, bs, e);
    }
    StrictUnique(IK, Flatten(outs), Compacted(policy, sources));
  }

  // For every shard count: the shards' outputs, in shard order, are the unsharded output.
  lemma ShardingPreservesMeaning(policy: Policy, sources: seq<seq<Entry>>, numShards: nat)
    requires SortedSources(sources) && DistinctKeys(Flatten(sources)) && sources != [] && numShards > 0
    ensures AllAccepted(IK, Flatten(sources)) && Ascending(Boundaries(sources, numShards))
    ensures Flatten(ShardOutputs(policy, sources, Boundaries(sources, numShards))) == Compacted(policy, sources)
  {
    EvenKeysAscend(sources[Longest(Lengths(sources))], numShards);
    ShardedOutput(policy, sources, Boundaries(sources, numShards));
  }

  // ----- On the sources themselves

  ghost function AllEntries(sources: seq<ArenaSource>): (ess: seq<seq<Entry>>)
    requires ValidSources(sources)
    ensures |ess| == |sources| && forall i :: 0 <= i < |ess| ==> ess[i] == sources[i].Entries()
  {
    seq(|sources|, i requires 0 <= i < |sources| && sources[i].Valid() => sources[i].Entries())
  }

  function TotalLens(sources: seq<ArenaSource>): (lens: seq<nat>)
    requires ValidSources(sources)
    ensures lens == Lengths(AllEntries(sources))
  {
    seq(|sources|, i requires 0 <= i < |sources| && sources[i].Valid() => sources[i].TotalLen())
  }

  function SampledKeys(source: ArenaSource, numShards: nat): (bs: seq<Bytes>)
    requires source.Valid() && numShards > 0
    ensures bs == EvenKeys(source.Entries(), numShards)
  {
    var n := source.TotalLen();
    if n == 0 then []
    else seq(numShards - 1, i requires 0 <= i && source.Valid() && n == source.TotalLen() =>
           source.KeyAt(SampleIndex(n, numShards, i + 1)))
  }

  function PickShardBoundaries(sources: seq<ArenaSource>, numShards: nat): (bs: seq<Bytes>)
    requires ValidSources(sources) && sources != [] && numShards > 0
    ensures bs == Boundaries(AllEntries(sources), numShards)
    ensures EvenlySampled(bs, sources[Longest(TotalLens(sources))].Entries(), numShards)
  {
    EvenKeysAreEven(sources[Longest(TotalLens(sources))].Entries(), numShards);
    SampledKeys(sources[Longest(TotalLens(sources))], numShards)
  }

  // Shard j of a source with these entries.
  ghost predicate IsShard(s: ArenaSource, es: seq<Entry>, bs: seq<Bytes>, j: nat)
    reads s
    requires Sorted(IK, es) && Ascending(bs) && j <= |bs|
  {
    CutAt(es, bs, j) <= CutAt(es, bs, j + 1) && s.Valid() && s.Remaining() == ShardOf(es, bs, j)
  }

  // The first shards of a source, each in an object of its own.
  ghost predicate ShardsSoFar(shards: seq<ArenaSource>, es: seq<Entry>, bs: seq<Bytes>)
    reads shards
    requires Sorted(IK, es) && Ascending(bs)
  {
    |shards| <= |bs| + 1 &&
    (forall j, k :: 0 <= j < k < |shards| ==> shards[j] != shards[k]) &&
    forall j :: 0 <= j < |shards| ==> IsShard(shards[j], es, bs, j)
  }

  lemma OneMoreShard(shards: seq<ArenaSource>, es: seq<Entry>, bs: seq<Bytes>, s: ArenaSource)
    requires Sorted(IK, es) && Ascending(bs) && ShardsSoFar(shards, es, bs) && |shards| <= |bs| && s !in shards
    requires IsShard(s, es, bs, |shards|)
    ensures ShardsSoFar(shards + [s], es, bs)
  {
    var shards' := shards + [s];
    forall j | 0 <= j < |shards'| ensures IsShard(shards'[j], es, bs, j) {
      assert shards'[j] == if j < |shards| then shards[j] else s;
    }
    forall j, k | 0 <= j < k < |shards'| ensures shards'[j] != shards'[k] {
      assert shards'[j] == shards[j] && shards[j] in shards;
    }
  }

  // The window from one cut to the next.
  method CutShard(source: ArenaSource, bs: seq<Bytes>, j: nat, start: nat) returns (s: ArenaSource, end: nat)
    requires source.Valid() && Sorted(IK, source.Entries()) && Ascending(bs) && j <= |bs|
    requires start == CutAt(source.Entries(), bs, j)
    ensures fresh(s) && IsShard(s, source.Entries(), bs, j) && end == CutAt(source.Entries(), bs, j + 1)
  {
    CutsAscend(source.Entries(), bs, j);
    if j < |bs| {
      end := source.LowerBound(bs[j]);
    } else {
      end := source.TotalLen();
    }
    s := source.Shard(start, end);
  }

  // One source cut at every boundary.
  method ShardSource(source: ArenaSource, bs: seq<Bytes>) returns (shards: seq<ArenaSource>)
    requires source.Valid() && Sorted(IK, source.Entries()) && Ascending(bs)
    ensures |shards| == |bs| + 1 && fresh(set s | s in shards) && ShardsSoFar(shards, source.Entries(), bs)
  {
    shards := [];
    var start := 0;
    for j := 0 to |bs| + 1
      invariant start == CutAt(source.Entries(), bs, j) && |shards| == j && fresh(set s | s in shards)
      invariant ShardsSoFar(shards, source.Entries(), bs)
    {
      var s, end := CutShard(source, bs, j, start);
      OneMoreShard(shards, source.Entries(), bs, s);
      shards := shards + [s];
      start := end;
    }
  }
}
