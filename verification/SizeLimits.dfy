/**
 When the 4 GiB limits are met: a bound on the length of a file by the number and size of its entries,
 and so a condition on the inputs of a compaction that can be read off them beforehand.
 */
module SizeLimits {
  import opened Wrappers
  import opened ByteStrings
  import opened InternalKeys
  import opened Lists
  import opened Varint
  import opened Merging
  import opened Strategy
  import opened Compaction
  import opened Sharding
  import opened Footer
  import opened Metaindex
  import opened SstBuilder
  import opened SstLoader
  import opened Pipeline
  import D = DataBlock
  import I = IndexBlock

  // ----- Sizes of entry lists

  lemma ArenaSizeSnoc(es: seq<Entry>, e: Entry)
    ensures ArenaSize(es + [e]) == ArenaSize(es) + |e.key| + |e.value|
  {
    assert (es + [e])[..|es|] == es;
  }

  lemma {:induction false} ArenaSizeConcat(a: seq<Entry>, b: seq<Entry>)
    ensures ArenaSize(a + b) == ArenaSize(a) + ArenaSize(b)
    decreases |b|
  {
    if b == [] {
      assert a + b == a;
    } else {
      var front, e := b[..|b| - 1], b[|b| - 1];
      ArenaSizeConcat(a, front);
      ArenaSizeSnoc(a + front, e);
      assert a + b == a + front + [e];
    }
  }

  lemma MemberFits(es: seq<Entry>, i: nat)
    requires i < |es|
    ensures |es[i].key| + |es[i].value| <= ArenaSize(es)
  {
    ArenaSizeStep(es, i);
    ArenaSizeMonotone(es, i + 1);
  }

  // Equal multisets have equal sizes.
  lemma {:induction false} ArenaSizePermutes(a: seq<Entry>, b: seq<Entry>)
    requires multiset(a) == multiset(b)
    ensures |a| == |b| && ArenaSize(a) == ArenaSize(b)
    decreases |a|
  {
    assert |a| == |multiset(a)| == |multiset(b)| == |b|;
    if a != [] {
      var n := |a| - 1;
      assert a == a[..n] + [a[n]];
      assert a[n] in multiset(b);
      var i :| 0 <= i < |b| && b[i] == a[n];
      RemoveAt(b, i);
      assert multiset(a[..n]) == multiset(a) - multiset{a[n]};
      ArenaSizePermutes(a[..n], b[..i] + b[i + 1..]);
      ArenaSizeSnoc(a[..n], a[n]);
    }
  }

  lemma RemoveAt(b: seq<Entry>, i: nat)
    requires i < |b|
    ensures multiset(b[..i] + b[i + 1..]) == multiset(b) - multiset{b[i]}
    ensures ArenaSize(b) == ArenaSize(b[..i] + b[i + 1..]) + |b[i].key| + |b[i].value|
  {
    assert b == b[..i] + [b[i]] + b[i + 1..];
    ArenaSizeSnoc(b[..i], b[i]);
    ArenaSizeConcat(b[..i] + [b[i]], b[i + 1..]);
    ArenaSizeConcat(b[..i], b[i + 1..]);
  }

  // ----- Sizes of blocks

  lemma EntrySize(shared: nat, e: Entry)
    requires shared <= |e.key| < U32_LIMIT && |e.value| < U32_LIMIT
    ensures |D.EncodeEntry(shared, e)| <= 30 + |e.key| + |e.value|
  {
    EncodedIsShort(shared);
    EncodedIsShort(|e.key| - shared);
    EncodedIsShort(|e.value|);
  }

  lemma {:induction false} EncodeSize(es: seq<Entry>, interval: nat)
    requires interval >= 1 && D.FitEntries(es)
    ensures |D.Encode(es, interval)| <= 30 * |es| + ArenaSize(es)
    ensures |D.Restarts(es, interval)| <= |es| + 1
    decreases |es|
  {
    if es != [] {
      var n := |es| - 1;
      EncodeSize(es[..n], interval);
      TakeSnoc(es, n);
      TakeAll(es);
      ArenaSizeSnoc(es[..n], es[n]);
      D.EncodeSnoc(es[..n], es[n], interval);
      EntrySize(D.SharedAt(es, interval, n), es[n]);
    }
  }

  lemma RawBlockSize(es: seq<Entry>)
    requires D.FitEntries(es) && es != []
    ensures |RawBlock(es)| <= 42 * |es| + ArenaSize(es)
  {
    EncodeSize(es, DATA_BLOCK_RESTART_INTERVAL);
  }

  lemma {:induction false} DataSize(opts: SstBuilderOptions, bs: seq<seq<Entry>>)
    requires NonEmpty(bs) && D.FitEntries(Flatten(bs))
    ensures |DataBytes(opts, bs)| <= 47 * |Flatten(bs)| + ArenaSize(Flatten(bs)) && |bs| <= |Flatten(bs)|
    decreases |bs|
  {
    if bs != [] {
      var front, last := bs[..|bs| - 1], bs[|bs| - 1];
      assert bs == front + [last];
      FlattenSnoc(front, last);
      FitParts(Flatten(front), last);
      DataSize(opts, front);
      RawBlockSize(last);
      ArenaSizeConcat(Flatten(front), last);
    }
  }

  lemma FitParts(a: seq<Entry>, b: seq<Entry>)
    requires D.FitEntries(a + b)
    ensures D.FitEntries(a) && D.FitEntries(b)
  {
    assert forall i :: 0 <= i < |a| ==> a[i] == (a + b)[i];
    assert forall i :: 0 <= i < |b| ==> b[i] == (a + b)[|a| + i];
  }

  lemma HandleSize(full: bool, h: I.BlockHandle, prev: Option<I.BlockHandle>)
    requires full || prev.Some?
    ensures |I.HandleBytes(full, h, prev)| <= 20
  {
    EncodedIsShort(h.offset);
    EncodedIsShort(h.size);
    if !full {
      EncodedIsShort(ZigZag(I.WrapI64(h.size - prev.value.size)));
    }
  }

  lemma IndexEntrySize(shared: nat, e: I.IndexEntry, prev: Option<I.BlockHandle>)
    requires shared <= |e.key| < U32_LIMIT && (shared > 0 ==> prev.Some?)
    ensures |I.EncodeEntry(shared, e, prev)| <= 40 + |e.key|
  {
    EncodedIsShort(shared);
    EncodedIsShort(|e.key| - shared);
    HandleSize(shared == 0, e.handle, prev);
  }

  // An index names one key of each block.
  lemma {:induction false} IndexSize(opts: SstBuilderOptions, bs: seq<seq<Entry>>)
    requires NonEmpty(bs) && D.FitEntries(Flatten(bs))
    ensures |bs| <= |Flatten(bs)|
    ensures |I.Encode(IndexOf(opts, bs), INDEX_BLOCK_RESTART_INTERVAL)| <= 40 * |bs| + ArenaSize(Flatten(bs))
    ensures |I.Restarts(IndexOf(opts, bs), INDEX_BLOCK_RESTART_INTERVAL)| <= |bs| + 1
    decreases |bs|
  {
    if bs != [] {
      var n := |bs| - 1;
      var front, last := bs[..n], bs[n];
      assert bs == front + [last];
      FlattenSnoc(front, last);
      FitParts(Flatten(front), last);
      IndexSize(opts, front);
      ArenaSizeConcat(Flatten(front), last);
      MemberFits(last, |last| - 1);
      IndexOfStep(opts, front, last);
    }
  }

  lemma IndexOfStep(opts: SstBuilderOptions, front: seq<seq<Entry>>, last: seq<Entry>)
    requires NonEmpty(front) && last != [] && |last[|last| - 1].key| < U32_LIMIT
    ensures NonEmpty(front + [last])
    ensures |I.Encode(IndexOf(opts, front + [last]), INDEX_BLOCK_RESTART_INTERVAL)| <=
            |I.Encode(IndexOf(opts, front), INDEX_BLOCK_RESTART_INTERVAL)| + 40 + |last[|last| - 1].key|
    ensures |I.Restarts(IndexOf(opts, front + [last]), INDEX_BLOCK_RESTART_INTERVAL)| <=
            |I.Restarts(IndexOf(opts, front), INDEX_BLOCK_RESTART_INTERVAL)| + 1
  {
    BlockAppended(opts, front, last);
    IndexStep(IndexOf(opts, front), IndexOf(opts, front + [last])[|front|]);
  }

  lemma IndexStep(front: seq<I.IndexEntry>, e: I.IndexEntry)
    requires |e.key| < U32_LIMIT
    ensures |I.Encode(front + [e], INDEX_BLOCK_RESTART_INTERVAL)| <=
            |I.Encode(front, INDEX_BLOCK_RESTART_INTERVAL)| + 40 + |e.key|
    ensures |I.Restarts(front + [e], INDEX_BLOCK_RESTART_INTERVAL)| <= |I.Restarts(front, INDEX_BLOCK_RESTART_INTERVAL)| + 1
  {
    var es := front + [e];
    I.EncodeSnoc(front, e, INDEX_BLOCK_RESTART_INTERVAL);
    IndexEntrySize(I.SharedAt(es, INDEX_BLOCK_RESTART_INTERVAL, |front|), e, I.LastHandle(front));
  }

  // ----- Size of a file

  lemma PairSize(a: Entry, b: Entry)
    ensures ArenaSize([a, b]) == |a.key| + |a.value| + |b.key| + |b.value|
  {
    assert [a, b] == [] + [a] + [b];
    ArenaSizeSnoc([], a);
    ArenaSizeSnoc([a], b);
  }

  lemma MetaindexSize(opts: SstBuilderOptions, es: seq<Entry>)
    ensures |MetaindexRaw(opts, es)| <= 160
  {
    var xs := MetaHandles(opts, es);
    forall x | x in xs ensures |x.name| <= 18 {
    }
    TwoHandlesSize(xs);
  }

  lemma TwoHandlesSize(xs: seq<NamedHandle>)
    requires |xs| == 2 && forall x :: x in xs ==> |x.name| <= 18
    ensures |MetaindexBytes(xs)| <= 160
  {
    var sorted := SortByName(xs);
    SortMembers(xs);
    assert sorted[0] in sorted && sorted[1] in sorted;
    TwoEntriesSize(MetaEntries(sorted), sorted[0], sorted[1]);
  }

  lemma TwoEntriesSize(es: seq<Entry>, x: NamedHandle, y: NamedHandle)
    requires es == [Entry(x.name, I.EncodeHandle(x.handle)), Entry(y.name, I.EncodeHandle(y.handle))]
    requires |x.name| <= 18 && |y.name| <= 18
    ensures |D.BlockBytes(es, METAINDEX_RESTART_INTERVAL)| <= 160
  {
    EncodedHandleIsShort(x.handle);
    EncodedHandleIsShort(y.handle);
    PairSize(es[0], es[1]);
    EncodeSize(es, METAINDEX_RESTART_INTERVAL);
  }

  // The length of a file is bounded by the number and size of its entries and its properties block.
  lemma FileSize(opts: SstBuilderOptions, es: seq<Entry>)
    requires D.FitEntries(es)
    ensures |FileBytes(opts, es)| <= 91 * |es| + 2 * ArenaSize(es) + |PropertiesRaw(opts, es)| + 240
  {
    DataBlocksKeepEntries(es);
    DataSize(opts, DataBlocks(es));
    IndexSize(opts, DataBlocks(es));
    MetaindexSize(opts, es);
  }

  // ----- Compactions that fit

  // No properties block is longer than `limit`.
  ghost predicate PropertiesWithin(opts: SstBuilderOptions, limit: nat) {
    forall input :: |opts.propertiesBlock(input)| <= limit
  }

  ghost predicate SmallEnough(es: seq<Entry>, limit: nat) {
    91 * |es| + 2 * ArenaSize(es) + limit + 240 < U32_LIMIT
  }

  lemma {:induction false} ZeroedSize(es: seq<Entry>)
    requires AllAccepted(IK, es)
    ensures ArenaSize(ZeroEntries(es)) == ArenaSize(es)
    decreases |es|
  {
    if es != [] {
      var n := |es| - 1;
      ZeroedSize(es[..n]);
      ZeroedStep(es);
      ZeroedKeySize(es[n].key);
      ArenaSizeSnoc(ZeroEntries(es[..n]), ZeroEntries(es)[n]);
      TakeSnoc(es, n);
      ArenaSizeSnoc(es[..n], es[n]);
    }
  }

  lemma ZeroedStep(es: seq<Entry>)
    requires AllAccepted(IK, es) && es != []
    ensures var n := |es| - 1;
            ZeroEntries(es) == ZeroEntries(es[..n]) + [Entry(ZeroOutSeqno(es[n].key), es[n].value)]
  {
  }

  lemma ZeroedKeySize(key: Bytes)
    requires IsInternalKey(key)
    ensures |ZeroOutSeqno(key)| == |key|
  {
    assert |UserKey(key)| == |UserKey(ZeroOutSeqno(key))|;
  }

  lemma PreparedSize(opts: SstBuilderOptions, es: seq<Entry>)
    requires AllAccepted(IK, es) && ArenaSize(es) < U32_LIMIT
    ensures Preparable(opts, es) && ArenaSize(Prepared(opts, es)) == ArenaSize(es) && D.FitEntries(Prepared(opts, es))
  {
    var prepared := Prepared(opts, es);
    ZeroedSize(es);
    forall i | 0 <= i < |prepared| ensures |prepared[i].key| < U32_LIMIT && |prepared[i].value| < U32_LIMIT {
      MemberFits(prepared, i);
    }
  }

  lemma PropertiesSize(opts: SstBuilderOptions, es: seq<Entry>, limit: nat)
    requires PropertiesWithin(opts, limit)
    ensures |PropertiesRaw(opts, es)| <= limit
  {
  }

  lemma SmallFileFits(opts: SstBuilderOptions, es: seq<Entry>, limit: nat)
    requires D.FitEntries(es) && PropertiesWithin(opts, limit) && SmallEnough(es, limit)
    ensures FileFits(opts, es)
  {
    FileSize(opts, es);
    PropertiesSize(opts, es, limit);
  }

  lemma SmallHasRoom(opts: SstBuilderOptions, es: seq<Entry>, limit: nat)
    requires AllAccepted(IK, es) && PropertiesWithin(opts, limit) && SmallEnough(es, limit)
    ensures Room(opts, es)
  {
    PreparedSize(opts, es);
    SmallFileFits(opts, Prepared(opts, es), limit);
  }

  // A compaction writes nothing it did not read.
  lemma {:induction false} WalkSize(policy: Policy, kept: bool, es: seq<Entry>)
    requires AllAccepted(IK, es)
    ensures var out := Walk(policy, kept, es).output;
            AllAccepted(IK, out) && |out| <= |es| && ArenaSize(out) <= ArenaSize(es)
    decreases |es|
  {
    if es != [] {
      var n := |es| - 1;
      WalkSize(policy, kept, es[..n]);
      WalkStepSize(policy, Walk(policy, kept, es[..n]), es[n]);
      TakeSnoc(es, n);
      ArenaSizeSnoc(es[..n], es[n]);
    }
  }

  lemma WalkStepOutput(policy: Policy, s: WalkState, e: Entry)
    requires AllAccepted(IK, s.output) && IsInternalKey(e.key)
    ensures WalkStep(policy, s, e).output == s.output || WalkStep(policy, s, e).output == s.output + [e]
  {
  }

  lemma WalkStepSize(policy: Policy, s: WalkState, e: Entry)
    requires AllAccepted(IK, s.output) && IsInternalKey(e.key)
    ensures var out := WalkStep(policy, s, e).output;
            AllAccepted(IK, out) && |out| <= |s.output| + 1 && ArenaSize(out) <= ArenaSize(s.output) + |e.key| + |e.value|
  {
    WalkStepOutput(policy, s, e);
    ArenaSizeSnoc(s.output, e);
  }

  lemma OutputSize(policy: Policy, kept: bool, sources: seq<seq<Entry>>, output: seq<Entry>)
    requires MergesInto(policy, kept, sources, output)
    ensures AllAccepted(IK, output) && |output| <= |Flatten(sources)| && ArenaSize(output) <= ArenaSize(Flatten(sources))
  {
    var merged, trace :| IsMerge(IK, sources, merged, trace) && output == Walk(policy, kept, merged).output;
    MergePermutes(IK, sources, merged, trace);
    ArenaSizePermutes(merged, Flatten(sources));
    WalkSize(policy, kept, merged);
  }

  // Whatever the policy and the order of equal keys, sources that are small enough compact to a file
  // within the limits.
  lemma SmallSourcesFit(opts: SstBuilderOptions, policy: Policy, kept: bool, sources: seq<seq<Entry>>, limit: nat)
    requires PropertiesWithin(opts, limit) && SmallEnough(Flatten(sources), limit)
    ensures EveryMergeFits(opts, policy, kept, sources)
  {
    forall output | MergesInto(policy, kept, sources, output) ensures Room(opts, output) {
      OutputSize(policy, kept, sources, output);
      SmallHasRoom(opts, output, limit);
    }
  }

  lemma SliceSize(es: seq<Entry>, lo: nat, hi: nat)
    requires lo <= hi <= |es|
    ensures ArenaSize(es[lo..hi]) <= ArenaSize(es)
  {
    assert es == es[..lo] + (es[lo..hi] + es[hi..]);
    ArenaSizeConcat(es[..lo], es[lo..hi] + es[hi..]);
    ArenaSizeConcat(es[lo..hi], es[hi..]);
  }

  lemma {:induction false} ShardSize(sources: seq<seq<Entry>>, bs: seq<Bytes>, j: nat)
    requires SortedSources(sources) && Ascending(bs) && j <= |bs|
    ensures var part := Flatten(InputOf(sources, bs, j));
            |part| <= |Flatten(sources)| && ArenaSize(part) <= ArenaSize(Flatten(sources))
  {
    if sources != [] {
      var input := InputOf(sources, bs, j);
      CutsFit(sources, bs, j);
      ShardSize(sources[1..], bs, j);
      assert input[1..] == InputOf(sources[1..], bs, j);
      SliceSize(sources[0], CutAt(sources[0], bs, j), CutAt(sources[0], bs, j + 1));
      ArenaSizeConcat(input[0], Flatten(input[1..]));
      ArenaSizeConcat(sources[0], Flatten(sources[1..]));
    }
  }

  // And every shard of them, for every shard count.
  lemma SmallShardsFit(opts: SstBuilderOptions, sources: seq<seq<Entry>>, numShards: nat, limit: nat)
    requires SortedSources(sources) && PropertiesWithin(opts, limit) && SmallEnough(Flatten(sources), limit)
    ensures EveryShardFits(opts, ShardsOf(sources, numShards))
  {
    ShardBoundariesAscend(sources, numShards);
    var bs := ShardBoundaries(sources, numShards);
    forall j | 0 <= j <= |bs| ensures EveryMergeFits(opts, Bottommost, false, InputOf(sources, bs, j)) {
      ShardSize(sources, bs, j);
      SmallSourcesFit(opts, Bottommost, false, InputOf(sources, bs, j), limit);
    }
  }

  // And the file can be loaded again as a source: it is long enough to hold a footer, reads back, and its
  // entries fit an arena.
  lemma CompactedFileLoads(opts: SstBuilderOptions, policy: Policy, kept: bool, sources: seq<seq<Entry>>, limit: nat, file: Bytes)
    requires PropertiesWithin(opts, limit) && SmallEnough(Flatten(sources), limit)
    requires CompactsTo(opts, policy, kept, sources, file)
    ensures FOOTER_LEN <= |file| < U64_LIMIT
    ensures LoadFile(opts.foreign, file).Success? && ArenaSize(LoadFile(opts.foreign, file).value) < U32_LIMIT
  {
    SmallSourcesFit(opts, policy, kept, sources, limit);
    var output := CompactedReadsBack(opts, policy, kept, sources, file);
    OutputSize(policy, kept, sources, output);
    PreparedSize(opts, output);
  }
}
