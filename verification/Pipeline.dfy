/** Compaction end to end: sources in, files out, and what reading those files gives. */
module Pipeline {
  import opened Wrappers
  import opened ByteStrings
  import opened InternalKeys
  import opened Lists
  import opened Merging
  import opened Sources
  import opened MergeInputs
  import opened Strategy
  import opened Compaction
  import opened Oracle
  import opened Sharding
  import opened Footer
  import opened SstBuilder
  import opened SstLoader

  // ----- One compaction

  ghost predicate Room(opts: SstBuilderOptions, es: seq<Entry>) {
    Preparable(opts, es) && FileFits(opts, Prepared(opts, es))
  }

  // What the walk can put out: equal keys may leave the merge in any order.
  ghost predicate MergesInto(policy: Policy, kept: bool, sources: seq<seq<Entry>>, output: seq<Entry>) {
    exists merged, trace {:trigger IsMerge(IK, sources, merged, trace)} ::
      IsMerge(IK, sources, merged, trace) && output == Walk(policy, kept, merged).output
  }

  // Whatever that order, the file stays within the 4 GiB limits.
  ghost predicate EveryMergeFits(opts: SstBuilderOptions, policy: Policy, kept: bool, sources: seq<seq<Entry>>) {
    forall output :: MergesInto(policy, kept, sources, output) ==> Room(opts, output)
  }

  // The file holds the walked output of some merge of the sources.
  ghost predicate CompactsTo(opts: SstBuilderOptions, policy: Policy, kept: bool, sources: seq<seq<Entry>>, file: Bytes) {
    exists output :: MergesInto(policy, kept, sources, output) && Preparable(opts, output) && file == SstBytes(opts, output)
  }

  method CompactWithStrategy(sources: seq<ArenaSource>, opts: SstBuilderOptions, strategy: CompactionStrategy)
    returns (file: Bytes)
    requires ValidSources(sources) && SortedSources(Remainders(sources))
    requires EveryMergeFits(opts, strategy.policy, strategy.keptVisibleVersionForCurrentKey, Remainders(sources))
    modifies sources, strategy
    ensures CompactsTo(opts, strategy.policy, old(strategy.keptVisibleVersionForCurrentKey), old(Remainders(sources)), file)
  {
    var output, merged, trace := CompactEntries(sources, strategy);
    assert MergesInto(strategy.policy, old(strategy.keptVisibleVersionForCurrentKey), old(Remainders(sources)), output);
    file := BuildSst(opts, output);
  }

  method Compact(sources: seq<ArenaSource>, opts: SstBuilderOptions) returns (file: Bytes)
    requires ValidSources(sources) && SortedSources(Remainders(sources))
    requires EveryMergeFits(opts, Bottommost, false, Remainders(sources))
    modifies sources
    ensures CompactsTo(opts, Bottommost, false, old(Remainders(sources)), file)
  {
    var strategy := new CompactionStrategy(Bottommost);
    file := CompactWithStrategy(sources, opts, strategy);
  }

  // A file that fits reads back.
  lemma OutputReadsBack(opts: SstBuilderOptions, output: seq<Entry>)
    requires Room(opts, output)
    ensures FOOTER_LEN <= |SstBytes(opts, output)| < U64_LIMIT
    ensures LoadFile(opts.foreign, SstBytes(opts, output)) == Success(Prepared(opts, output))
  {
    FileRoundTrip(opts, Prepared(opts, output));
  }

  // A compacted file reads back as the walked output of some merge, rewritten in ingest mode.
  lemma CompactedReadsBack(opts: SstBuilderOptions, policy: Policy, kept: bool, sources: seq<seq<Entry>>, file: Bytes)
    returns (output: seq<Entry>)
    requires EveryMergeFits(opts, policy, kept, sources) && CompactsTo(opts, policy, kept, sources, file)
    ensures MergesInto(policy, kept, sources, output) && Preparable(opts, output)
    ensures FOOTER_LEN <= |file| < U64_LIMIT && LoadFile(opts.foreign, file) == Success(Prepared(opts, output))
  {
    output :| MergesInto(policy, kept, sources, output) && Preparable(opts, output) && file == SstBytes(opts, output);
    OutputReadsBack(opts, output);
  }

  lemma OnlyOutput(policy: Policy, kept: bool, sources: seq<seq<Entry>>, output: seq<Entry>)
    requires AllAccepted(IK, Flatten(sources)) && DistinctKeys(Flatten(sources))
    requires MergesInto(policy, kept, sources, output)
    ensures output == Compacted(policy, sources)
  {
    var merged, trace :| IsMerge(IK, sources, merged, trace) && output == Walk(policy, kept, merged).output;
    MergeIsUnique(IK, sources, merged, trace);
    CompactedSurvivors(policy, kept, sources);
  }

  // With distinct internal keys the output is determined: it is what survives, in order.
  lemma CompactedFileReadsBack(opts: SstBuilderOptions, policy: Policy, kept: bool, sources: seq<seq<Entry>>, file: Bytes)
    requires AllAccepted(IK, Flatten(sources)) && DistinctKeys(Flatten(sources))
    requires EveryMergeFits(opts, policy, kept, sources) && CompactsTo(opts, policy, kept, sources, file)
    ensures Preparable(opts, Compacted(policy, sources)) && FOOTER_LEN <= |file| < U64_LIMIT
    ensures LoadFile(opts.foreign, file) == Success(Prepared(opts, Compacted(policy, sources)))
  {
    var output := CompactedReadsBack(opts, policy, kept, sources, file);
    OnlyOutput(policy, kept, sources, output);
  }

  lemma StripPrepared(opts: SstBuilderOptions, es: seq<Entry>)
    requires AllAccepted(IK, es) && Preparable(opts, es)
    ensures AllAccepted(IK, Prepared(opts, es)) && Strip(Prepared(opts, es)) == Strip(es)
  {
  }

  // From sources to the entries read back from the file: the live user keys and values of the oracle, if and
  // only if ties at the greatest sequence numbers agree.
  lemma CompactionEndToEnd(opts: SstBuilderOptions, sources: seq<seq<Entry>>, file: Bytes)
    requires AllAccepted(IK, Flatten(sources)) && DistinctKeys(Flatten(sources))
    requires EveryMergeFits(opts, Bottommost, false, sources) && CompactsTo(opts, Bottommost, false, sources, file)
    ensures FOOTER_LEN <= |file| < U64_LIMIT && Keyed(Members(Flatten(sources)))
    ensures var loaded := LoadFile(opts.foreign, file);
            loaded.Success? && AllAccepted(IK, loaded.value) &&
            (Strip(loaded.value) == Live(Best(Flatten(sources))) <==> TiesAgree(Flatten(sources)))
  {
    CompactedFileReadsBack(opts, Bottommost, false, sources, file);
    CompactionAgreesIff(sources);
    StripPrepared(opts, Compacted(Bottommost, sources));
  }

  // ----- Sharded compaction

  // No boundaries, hence one shard, unless several shards are wanted and there is something to shard.
  function ShardBoundaries(sources: seq<seq<Entry>>, numShards: nat): seq<Bytes> {
    if numShards <= 1 || sources == [] then [] else Boundaries(sources, numShards)
  }

  lemma ShardBoundariesAscend(sources: seq<seq<Entry>>, numShards: nat)
    requires SortedSources(sources)
    ensures Ascending(ShardBoundaries(sources, numShards))
  {
    if numShards > 1 && sources != [] {
      EvenKeysAscend(sources[Longest(Lengths(sources))], numShards);
    }
  }

  ghost function InputOf(sources: seq<seq<Entry>>, bs: seq<Bytes>, j: nat): (r: seq<seq<Entry>>)
    requires SortedSources(sources) && Ascending(bs) && j <= |bs|
    ensures SortedSources(r)
  {
    CutsFit(sources, bs, j);
    ShardInput(sources, bs, j)
  }

  lemma InputOfSnoc(sources: seq<seq<Entry>>, source: seq<Entry>, bs: seq<Bytes>, j: nat)
    requires SortedSources(sources) && Sorted(IK, source) && Ascending(bs) && j <= |bs|
    ensures SortedSources(sources + [source]) && CutAt(source, bs, j) <= CutAt(source, bs, j + 1)
    ensures InputOf(sources + [source], bs, j) == InputOf(sources, bs, j) + [ShardOf(source, bs, j)]
  {
    CutsFit(sources, bs, j);
    CutsFit(sources + [source], bs, j);
    CutsAscend(source, bs, j);
    forall i | 0 <= i <= |sources|
      ensures InputOf(sources + [source], bs, j)[i] == (InputOf(sources, bs, j) + [ShardOf(source, bs, j)])[i]
    {
    }
  }

  // Without boundaries the only shard is everything.
  lemma InputOfAll(sources: seq<seq<Entry>>)
    requires SortedSources(sources)
    ensures InputOf(sources, [], 0) == sources
  {
    forall i | 0 <= i < |sources| ensures InputOf(sources, [], 0)[i] == sources[i] {
    }
  }

  // A shard's sources, ready to be merged.
  ghost predicate Ready(inputs: seq<ArenaSource>, rest: seq<seq<Entry>>)
    reads inputs
  {
    ValidSources(inputs) && Remainders(inputs) == rest
  }

  ghost predicate Apart(a: seq<ArenaSource>, b: seq<ArenaSource>) {
    forall s :: s in a ==> s !in b
  }

  lemma OneMoreReady(inputs: seq<ArenaSource>, rest: seq<seq<Entry>>, s: ArenaSource)
    requires Ready(inputs, rest) && s.Valid() && s !in inputs
    ensures Ready(inputs + [s], rest + [s.Remaining()])
  {
  }

  ghost function Footprint(inputs: seq<seq<ArenaSource>>): (all: set<ArenaSource>)
  {
    set j, s | 0 <= j < |inputs| && s in inputs[j] :: s
  }

  lemma InFootprint(inputs: seq<seq<ArenaSource>>, j: nat)
    requires j < |inputs|
    ensures forall s :: s in inputs[j] ==> s in Footprint(inputs)
  {
  }

  // Shard j holds its piece of each of `sources`, in objects no other shard has.
  ghost predicate SplitAt(inputs: seq<seq<ArenaSource>>, sources: seq<seq<Entry>>, bs: seq<Bytes>)
    reads Footprint(inputs)
    requires SortedSources(sources) && Ascending(bs)
  {
    |inputs| == |bs| + 1 &&
    (forall j :: 0 <= j < |inputs| ==> (InFootprint(inputs, j); Ready(inputs[j], InputOf(sources, bs, j)))) &&
    forall j, k :: 0 <= j < k < |inputs| ==> Apart(inputs[j], inputs[k])
  }

  function Pushed(inputs: seq<seq<ArenaSource>>, shards: seq<ArenaSource>): (r: seq<seq<ArenaSource>>)
    requires |inputs| == |shards|
    ensures |r| == |inputs| && forall j :: 0 <= j < |r| ==> r[j] == inputs[j] + [shards[j]]
  {
    seq(|inputs|, j requires 0 <= j < |inputs| => inputs[j] + [shards[j]])
  }

  lemma PushedSplit(inputs: seq<seq<ArenaSource>>, shards: seq<ArenaSource>, sources: seq<seq<Entry>>, source: seq<Entry>,
                    bs: seq<Bytes>)
    requires SortedSources(sources) && Sorted(IK, source) && Ascending(bs) && SplitAt(inputs, sources, bs)
    requires |shards| == |inputs| && ShardsSoFar(shards, source, bs)
    requires forall j, k :: 0 <= j < |inputs| && 0 <= k < |shards| ==> shards[k] !in inputs[j]
    ensures SortedSources(sources + [source]) && SplitAt(Pushed(inputs, shards), sources + [source], bs)
  {
    forall j | 0 <= j < |inputs| ensures Ready(inputs[j] + [shards[j]], InputOf(sources + [source], bs, j)) {
      assert IsShard(shards[j], source, bs, j);
      OneMoreReady(inputs[j], InputOf(sources, bs, j), shards[j]);
      InputOfSnoc(sources, source, bs, j);
    }
  }

  lemma PushedFootprint(inputs: seq<seq<ArenaSource>>, shards: seq<ArenaSource>)
    requires |inputs| == |shards|
    ensures Footprint(Pushed(inputs, shards)) == Footprint(inputs) + set s | s in shards
  {
    var pushed := Pushed(inputs, shards);
    forall s | s in Footprint(inputs) ensures s in Footprint(pushed) {
      var j :| 0 <= j < |inputs| && s in inputs[j];
      assert s in pushed[j];
    }
    forall s | s in shards ensures s in Footprint(pushed) {
      var j :| 0 <= j < |shards| && shards[j] == s;
      assert s in pushed[j];
    }
  }

  // One more source cut at the boundaries.
  method SplitOne(inputs: seq<seq<ArenaSource>>, source: ArenaSource, bs: seq<Bytes>, ghost before: seq<seq<Entry>>)
    returns (inputs': seq<seq<ArenaSource>>)
    requires source.Valid() && SortedSources(before) && Sorted(IK, source.Entries()) && Ascending(bs)
    requires SplitAt(inputs, before, bs)
    ensures SplitAt(inputs', before + [source.Entries()], bs)
    ensures fresh(Footprint(inputs') - Footprint(inputs))
  {
    var shards := ShardSource(source, bs);
    assert forall j :: 0 <= j < |shards| ==> shards[j] in shards;
    PushedSplit(inputs, shards, before, source.Entries(), bs);
    PushedFootprint(inputs, shards);
    inputs' := Pushed(inputs, shards);
  }

  // Every source cut at the same boundaries.
  method SplitSources(sources: seq<ArenaSource>, bs: seq<Bytes>) returns (inputs: seq<seq<ArenaSource>>)
    requires ValidSources(sources) && SortedSources(AllEntries(sources)) && Ascending(bs)
    ensures fresh(Footprint(inputs)) && SplitAt(inputs, AllEntries(sources), bs)
  {
    ghost var ess := AllEntries(sources);
    inputs := seq(|bs| + 1, _ => []);
    for i := 0 to |sources|
      invariant fresh(Footprint(inputs)) && SplitAt(inputs, ess[..i], bs)
    {
      inputs := SplitOne(inputs, sources[i], bs, ess[..i]);
      TakeSnoc(ess, i);
    }
    TakeAll(ess);
  }

  ghost predicate EveryShardFits(opts: SstBuilderOptions, shards: seq<seq<seq<Entry>>>) {
    forall j :: 0 <= j < |shards| ==> EveryMergeFits(opts, Bottommost, false, shards[j])
  }

  // One file per shard, in shard order.
  ghost predicate ShardsCompactTo(opts: SstBuilderOptions, shards: seq<seq<seq<Entry>>>, files: seq<Bytes>) {
    |files| == |shards| && forall j :: 0 <= j < |shards| ==> CompactsTo(opts, Bottommost, false, shards[j], files[j])
  }

  // `writes` is implied by compacting a shard to a file; all the loop over the shards needs to know of it.
  ghost predicate Covers(opts: SstBuilderOptions, writes: (seq<seq<Entry>>, Bytes) -> bool) {
    forall shard, file {:trigger CompactsTo(opts, Bottommost, false, shard, file)} ::
      CompactsTo(opts, Bottommost, false, shard, file) ==> writes(shard, file)
  }

  ghost function InputsOf(sources: seq<seq<Entry>>, bs: seq<Bytes>): (r: seq<seq<seq<Entry>>>)
    requires SortedSources(sources) && Ascending(bs)
    ensures |r| == |bs| + 1 && forall j :: 0 <= j < |r| ==> r[j] == InputOf(sources, bs, j)
  {
    seq(|bs| + 1, j requires 0 <= j <= |bs| => InputOf(sources, bs, j))
  }

  ghost function ShardsOf(sources: seq<seq<Entry>>, numShards: nat): seq<seq<seq<Entry>>>
    requires SortedSources(sources)
  {
    ShardBoundariesAscend(sources, numShards);
    InputsOf(sources, ShardBoundaries(sources, numShards))
  }

  // Compacting one shard leaves the others as they were.
  twostate predicate Untouched(inputs: seq<ArenaSource>)
    reads inputs
  {
    forall s :: s in inputs ==> s.pos == old(s.pos)
  }

  method CompactShard(inputs: seq<ArenaSource>, ghost shard: seq<seq<Entry>>, opts: SstBuilderOptions,
                      ghost writes: (seq<seq<Entry>>, Bytes) -> bool) returns (file: Bytes)
    requires Ready(inputs, shard) && SortedSources(shard) && EveryMergeFits(opts, Bottommost, false, shard)
    requires Covers(opts, writes)
    modifies inputs
    ensures writes(shard, file)
  {
    file := Compact(inputs, opts);
  }

  // Every shard's sources, in objects of its own.
  ghost predicate AllReady(inputs: seq<seq<ArenaSource>>, shards: seq<seq<seq<Entry>>>)
    reads Footprint(inputs)
  {
    |inputs| == |shards| &&
    (forall j :: 0 <= j < |inputs| ==> (InFootprint(inputs, j); Ready(inputs[j], shards[j])) && SortedSources(shards[j])) &&
    forall j, k :: 0 <= j < k < |inputs| ==> Apart(inputs[j], inputs[k])
  }

  // The shards run as independent calls, joined in shard order.
  method CompactShards(inputs: seq<seq<ArenaSource>>, ghost shards: seq<seq<seq<Entry>>>, opts: SstBuilderOptions,
                       ghost writes: (seq<seq<Entry>>, Bytes) -> bool) returns (files: seq<Bytes>)
    requires AllReady(inputs, shards) && EveryShardFits(opts, shards) && Covers(opts, writes)
    modifies Footprint(inputs)
    ensures Pairwise(writes, shards, files)
  {
    files := [];
    for j := 0 to |inputs|
      invariant forall k :: j <= k < |inputs| ==> Untouched(inputs[k])
      invariant Pairwise(writes, shards[..j], files)
    {
      InFootprint(inputs, j);
      var file := CompactShard(inputs[j], shards[j], opts, writes);
      PairwiseSnoc(writes, shards, files, j, file);
      files := files + [file];
    }
    TakeAll(shards);
  }

  lemma SingleShard(sources: seq<seq<Entry>>, numShards: nat)
    requires SortedSources(sources) && (numShards <= 1 || sources == [])
    ensures |ShardsOf(sources, numShards)| == 1 && ShardsOf(sources, numShards)[0] == sources
  {
    InputOfAll(sources);
  }

  // What is asked of the sources: nothing consumed yet, all in order.
  ghost predicate Unsharded(sources: seq<ArenaSource>)
    reads sources
  {
    ValidSources(sources) && Remainders(sources) == AllEntries(sources) && SortedSources(AllEntries(sources))
  }

  method CompactInShards(sources: seq<ArenaSource>, numShards: nat, opts: SstBuilderOptions) returns (files: seq<Bytes>)
    requires Unsharded(sources) && EveryShardFits(opts, ShardsOf(AllEntries(sources), numShards))
    requires numShards > 1 && sources != []
    ensures ShardsCompactTo(opts, ShardsOf(AllEntries(sources), numShards), files)
  {
    ghost var ess := AllEntries(sources);
    ShardBoundariesAscend(ess, numShards);
    var bs := PickShardBoundaries(sources, numShards);
    var inputs := SplitSources(sources, bs);
    files := CompactShards(inputs, InputsOf(ess, bs), opts, (shard, file) => CompactsTo(opts, Bottommost, false, shard, file));
  }

  lemma OnlyFile(opts: SstBuilderOptions, shards: seq<seq<seq<Entry>>>, file: Bytes)
    requires |shards| == 1 && CompactsTo(opts, Bottommost, false, shards[0], file)
    ensures ShardsCompactTo(opts, shards, [file])
  {
  }

  // How many files a compaction comes to: as many as asked for, unless there is nothing to shard.
  lemma ShardCount(sources: seq<seq<Entry>>, numShards: nat)
    requires SortedSources(sources)
    ensures |ShardsOf(sources, numShards)| ==
            if numShards > 1 && exists i :: 0 <= i < |sources| && sources[i] != [] then numShards else 1
  {
    if numShards > 1 && sources != [] {
      BoundariesAreEven(sources, numShards);
      var r := Longest(Lengths(sources));
      assert forall i :: 0 <= i < |sources| ==> |sources[i]| <= |sources[r]|;
    }
  }

  // Shard j holds, of every source, the entries between two boundaries that cut the longest source evenly.
  lemma ShardsAreCutEvenly(sources: seq<seq<Entry>>, numShards: nat)
    requires SortedSources(sources) && numShards > 1 && sources != []
    ensures var bs := ShardBoundaries(sources, numShards);
            Ascending(bs) && EvenlySampled(bs, sources[Longest(Lengths(sources))], numShards) &&
            |ShardsOf(sources, numShards)| == |bs| + 1 &&
            forall j :: 0 <= j <= |bs| ==> ShardsOf(sources, numShards)[j] == InputOf(sources, bs, j)
  {
    ShardBoundariesAscend(sources, numShards);
    BoundariesAreEven(sources, numShards);
  }

  method CompactSharded(sources: seq<ArenaSource>, numShards: nat, opts: SstBuilderOptions) returns (files: seq<Bytes>)
    requires Unsharded(sources) && EveryShardFits(opts, ShardsOf(AllEntries(sources), numShards))
    modifies sources
    ensures ShardsCompactTo(opts, ShardsOf(AllEntries(sources), numShards), files)
    ensures |files| == if numShards > 1 && exists i :: 0 <= i < |sources| && AllEntries(sources)[i] != [] then numShards else 1
  {
    ShardCount(AllEntries(sources), numShards);
    if numShards <= 1 || |sources| == 0 {
      ghost var ess := AllEntries(sources);
      SingleShard(ess, numShards);
      var file := Compact(sources, opts);
      OnlyFile(opts, ShardsOf(ess, numShards), file);
      return [file];
    }
    files := CompactInShards(sources, numShards, opts);
  }

  // Reading the shard files in shard order and joining what they hold.
  function LoadFiles(opts: SstBuilderOptions, files: seq<Bytes>): Result<seq<Entry>>
    requires forall j :: 0 <= j < |files| ==> FOOTER_LEN <= |files[j]| < U64_LIMIT
  {
    if files == [] then Success([])
    else
      var first :- LoadFile(opts.foreign, files[0]);
      var rest :- LoadFiles(opts, files[1..]);
      Success(first + rest)
  }

  lemma {:induction false} AllFilesRead(opts: SstBuilderOptions, files: seq<Bytes>, outs: seq<seq<Entry>>)
    requires |files| == |outs|
    requires forall j :: 0 <= j < |files| ==>
               FOOTER_LEN <= |files[j]| < U64_LIMIT && LoadFile(opts.foreign, files[j]) == Success(outs[j])
    ensures LoadFiles(opts, files) == Success(Flatten(outs))
  {
    if files != [] {
      AllFilesRead(opts, files[1..], outs[1..]);
    }
  }

  ghost function PreparedAll(opts: SstBuilderOptions, outs: seq<seq<Entry>>): (r: seq<seq<Entry>>)
    requires AllAccepted(IK, Flatten(outs))
    ensures |r| == |outs| && forall j :: 0 <= j < |r| ==> AllAccepted(IK, outs[j]) && r[j] == Prepared(opts, outs[j])
  {
    PartsAccepted(outs);
    seq(|outs|, j requires 0 <= j < |outs| => Prepared(opts, outs[j]))
  }

  lemma SplitAccepted(outs: seq<seq<Entry>>)
    requires outs != [] && AllAccepted(IK, Flatten(outs))
    ensures AllAccepted(IK, outs[0]) && AllAccepted(IK, Flatten(outs[1..])) && Flatten(outs) == outs[0] + Flatten(outs[1..])
  {
    forall i | 0 <= i < |outs[0]| ensures IK.Accepts(outs[0][i].key) {
      assert Flatten(outs)[i] == outs[0][i];
    }
    forall i | 0 <= i < |Flatten(outs[1..])| ensures IK.Accepts(Flatten(outs[1..])[i].key) {
      assert Flatten(outs)[|outs[0]| + i] == Flatten(outs[1..])[i];
    }
  }

  lemma {:induction false} PartsAccepted(outs: seq<seq<Entry>>)
    requires AllAccepted(IK, Flatten(outs))
    ensures forall j :: 0 <= j < |outs| ==> AllAccepted(IK, outs[j])
  {
    if outs != [] {
      SplitAccepted(outs);
      PartsAccepted(outs[1..]);
    }
  }

  lemma PreparedConcat(opts: SstBuilderOptions, a: seq<Entry>, b: seq<Entry>)
    requires AllAccepted(IK, a) && AllAccepted(IK, b)
    ensures AllAccepted(IK, a + b) && Prepared(opts, a + b) == Prepared(opts, a) + Prepared(opts, b)
  {
  }

  // Rewriting for ingestion works entry by entry, so it does not matter where the shards were cut.
  lemma {:induction false} PreparedFlatten(opts: SstBuilderOptions, outs: seq<seq<Entry>>)
    requires AllAccepted(IK, Flatten(outs))
    ensures Flatten(PreparedAll(opts, outs)) == Prepared(opts, Flatten(outs))
  {
    PartsAccepted(outs);
    if outs != [] {
      SplitAccepted(outs);
      PreparedFlatten(opts, outs[1..]);
      assert PreparedAll(opts, outs)[1..] == PreparedAll(opts, outs[1..]);
      PreparedConcat(opts, outs[0], Flatten(outs[1..]));
    }
  }

  // Sharding is invisible to a reader: the shard files, read in order, hold exactly what the one file of an
  // unsharded compaction would hold.
  lemma ShardedEndToEnd(opts: SstBuilderOptions, sources: seq<seq<Entry>>, numShards: nat, files: seq<Bytes>)
    requires SortedSources(sources) && DistinctKeys(Flatten(sources))
    requires EveryShardFits(opts, ShardsOf(sources, numShards)) && ShardsCompactTo(opts, ShardsOf(sources, numShards), files)
    ensures AllAccepted(IK, Flatten(sources))
    ensures forall j :: 0 <= j < |files| ==> FOOTER_LEN <= |files[j]| < U64_LIMIT
    ensures Preparable(opts, Compacted(Bottommost, sources))
    ensures LoadFiles(opts, files) == Success(Prepared(opts, Compacted(Bottommost, sources)))
  {
    ShardBoundariesAscend(sources, numShards);
    var bs := ShardBoundaries(sources, numShards);
    var outs := ShardOutputs(Bottommost, sources, bs);
    ShardedOutput(Bottommost, sources, bs);
    CompactedSurvivors(Bottommost, false, sources);
    var held := PreparedAll(opts, outs);
    forall j | 0 <= j < |files|
      ensures FOOTER_LEN <= |files[j]| < U64_LIMIT && LoadFile(opts.foreign, files[j]) == Success(held[j])
    {
      ShardSurvivors(Bottommost, sources, bs, j);
      CompactedFileReadsBack(opts, Bottommost, false, InputOf(sources, bs, j), files[j]);
    }
    AllFilesRead(opts, files, held);
    PreparedFlatten(opts, outs);
  }
}
