/** Assembling a file: data blocks cut at a target size, index, properties, metaindex and footer. */
module SstBuilder {
  import opened Wrappers
  import opened ByteStrings
  import opened InternalKeys
  import opened Lists
  import opened Blocks
  import opened BlockTrailer
  import opened Footer
  import opened Metaindex
  import D = DataBlock
  import I = IndexBlock

  const DATA_BLOCK_RESTART_INTERVAL := 16
  const INDEX_BLOCK_RESTART_INTERVAL := 1
  const TARGET_BLOCK_SIZE := 4096
  const FORMAT_VERSION: u32 := 7

  datatype PropertiesInput = PropertiesInput(
    numEntries: nat, rawKeySize: nat, rawValueSize: nat, dataSize: nat, indexSize: nat, externalSstGlobalSeqno: Option<u64>)

  // `propertiesBlock` stands for the properties encoder: here the block is only bytes behind a handle.
  datatype SstBuilderOptions = SstBuilderOptions(
    checksumType: ChecksumType, baseContextChecksum: u32, externalSstGlobalSeqno: Option<u64>,
    foreign: Foreign, propertiesBlock: PropertiesInput -> Bytes)

  // ----- Cutting blocks

  function RawBlock(es: seq<Entry>): Bytes {
    D.BlockBytes(es, DATA_BLOCK_RESTART_INTERVAL)
  }

  datatype Cut = Cut(done: seq<seq<Entry>>, pending: seq<Entry>)

  // A block is closed as soon as its encoding, trailer included, reaches the target size.
  function CutStep(before: Cut, e: Entry): Cut {
    var pending := before.pending + [e];
    if |RawBlock(pending)| >= TARGET_BLOCK_SIZE then Cut(before.done + [pending], []) else Cut(before.done, pending)
  }

  function CutBlocks(es: seq<Entry>): Cut {
    if es == [] then Cut([], []) else CutStep(CutBlocks(es[..|es| - 1]), es[|es| - 1])
  }

  function DataBlocks(es: seq<Entry>): seq<seq<Entry>> {
    var cut := CutBlocks(es);
    if cut.pending == [] then cut.done else cut.done + [cut.pending]
  }

  ghost predicate NonEmpty(bs: seq<seq<Entry>>) {
    forall j :: 0 <= j < |bs| ==> bs[j] != []
  }

  ghost predicate CutOf(cut: Cut, es: seq<Entry>) {
    Flatten(cut.done) + cut.pending == es && NonEmpty(cut.done) &&
    (cut.pending != [] ==> |RawBlock(cut.pending)| < TARGET_BLOCK_SIZE)
  }

  lemma CutStepKeeps(before: Cut, es: seq<Entry>, e: Entry)
    requires CutOf(before, es)
    ensures CutOf(CutStep(before, e), es + [e])
  {
    FlattenSnoc(before.done, before.pending + [e]);
    assert Flatten(before.done) + (before.pending + [e]) == Flatten(before.done) + before.pending + [e];
  }

  // Cutting loses, adds and reorders nothing; blocks are non-empty, and what is pending is below the target.
  lemma {:induction false} CutKeepsEntries(es: seq<Entry>)
    ensures CutOf(CutBlocks(es), es)
    decreases |es|
  {
    if es != [] {
      var n := |es| - 1;
      CutKeepsEntries(es[..n]);
      CutStepKeeps(CutBlocks(es[..n]), es[..n], es[n]);
      TakeSnoc(es, n);
    }
  }

  lemma DataBlocksKeepEntries(es: seq<Entry>)
    ensures Flatten(DataBlocks(es)) == es && NonEmpty(DataBlocks(es))
  {
    CutKeepsEntries(es);
    FlattenSnoc(CutBlocks(es).done, CutBlocks(es).pending);
  }

  // ----- Where blocks are cut

  // No non-empty part of the block before its last entry reaches the target size.
  ghost predicate SmallInside(b: seq<Entry>) {
    forall k :: 0 < k < |b| ==> |RawBlock(b[..k])| < 4096
  }

  // Every block but the last reaches the target size, and none does before its last entry.
  ghost predicate CutAtTarget(bs: seq<seq<Entry>>) {
    (forall j :: 0 <= j < |bs| - 1 ==> |RawBlock(bs[j])| >= 4096) &&
    forall j :: 0 <= j < |bs| ==> SmallInside(bs[j])
  }

  ghost predicate IsCutting(bs: seq<seq<Entry>>, es: seq<Entry>) {
    Flatten(bs) == es && NonEmpty(bs) && CutAtTarget(bs)
  }

  ghost predicate Full(b: seq<Entry>) {
    |RawBlock(b)| >= 4096 && SmallInside(b)
  }

  ghost predicate CutsFull(cut: Cut) {
    (forall j :: 0 <= j < |cut.done| ==> Full(cut.done[j])) && SmallInside(cut.pending)
  }

  lemma StillSmallInside(b: seq<Entry>, e: Entry)
    requires SmallInside(b) && (b != [] ==> |RawBlock(b)| < 4096)
    ensures SmallInside(b + [e])
  {
    forall k | 0 < k < |b + [e]| ensures |RawBlock((b + [e])[..k])| < 4096 {
      SnocPrefix(b, e, k);
    }
  }

  lemma CloseFull(bs: seq<seq<Entry>>, b: seq<Entry>)
    requires (forall j :: 0 <= j < |bs| ==> Full(bs[j])) && SmallInside(b)
    ensures |RawBlock(b)| >= TARGET_BLOCK_SIZE ==> CutsFull(Cut(bs + [b], []))
    ensures CutsFull(Cut(bs, b))
  {
  }

  lemma CutStepFull(before: Cut, e: Entry)
    requires CutsFull(before) && (before.pending != [] ==> |RawBlock(before.pending)| < 4096)
    ensures CutsFull(CutStep(before, e))
  {
    StillSmallInside(before.pending, e);
    CloseFull(before.done, before.pending + [e]);
  }

  lemma {:induction false} CutBlocksFull(es: seq<Entry>)
    ensures CutsFull(CutBlocks(es))
    decreases |es|
  {
    if es != [] {
      var n := |es| - 1;
      CutBlocksFull(es[..n]);
      CutKeepsEntries(es[..n]);
      CutStepFull(CutBlocks(es[..n]), es[n]);
    }
  }

  lemma LastMayBeSmall(bs: seq<seq<Entry>>, b: seq<Entry>)
    requires CutsFull(Cut(bs, b))
    ensures CutAtTarget(bs) && CutAtTarget(bs + [b])
  {
    assert forall j :: 0 <= j < |bs| ==> Full(bs[j]);
  }

  lemma DataBlocksAreCut(es: seq<Entry>)
    ensures IsCutting(DataBlocks(es), es)
  {
    DataBlocksKeepEntries(es);
    CutBlocksFull(es);
    LastMayBeSmall(CutBlocks(es).done, CutBlocks(es).pending);
  }

  // Of two ways to cut, the first blocks are equally long ...
  lemma ShorterIsPrefix(bs: seq<seq<Entry>>, bs': seq<seq<Entry>>, es: seq<Entry>)
    requires Flatten(bs) == es == Flatten(bs') && bs != [] && bs' != []
    ensures |bs[0]| < |bs'[0]| ==> |bs| > 1 && bs'[0][..|bs[0]|] == bs[0]
  {
    var b, b' := bs[0], bs'[0];
    assert es == b + Flatten(bs[1..]) && es == b' + Flatten(bs'[1..]);
    assert |b| < |b'| ==> b'[..|b|] == es[..|b|] == b;
    assert |bs| == 1 ==> bs[1..] == [];
  }

  lemma FirstBlockNotShorter(bs: seq<seq<Entry>>, bs': seq<seq<Entry>>, es: seq<Entry>)
    requires IsCutting(bs, es) && IsCutting(bs', es) && bs != [] && bs' != []
    ensures |bs[0]| >= |bs'[0]|
  {
    ShorterIsPrefix(bs, bs', es);
    assert SmallInside(bs'[0]);
  }

  lemma RestIsCutting(bs: seq<seq<Entry>>, es: seq<Entry>)
    requires IsCutting(bs, es) && bs != []
    ensures |bs[0]| <= |es| && es[..|bs[0]|] == bs[0] && IsCutting(bs[1..], es[|bs[0]|..])
  {
    assert es == bs[0] + Flatten(bs[1..]);
  }

  // ... and so there is only one way.
  lemma {:induction false} CuttingUnique(bs: seq<seq<Entry>>, bs': seq<seq<Entry>>, es: seq<Entry>)
    requires IsCutting(bs, es) && IsCutting(bs', es)
    ensures bs == bs'
    decreases |bs|
  {
    if bs != [] && bs' != [] {
      FirstBlockNotShorter(bs, bs', es);
      FirstBlockNotShorter(bs', bs, es);
      RestIsCutting(bs, es);
      RestIsCutting(bs', es);
      CuttingUnique(bs[1..], bs'[1..], es[|bs[0]|..]);
      SamePieces(bs, bs');
    } else {
      NoBlocksNoEntries(bs, es);
      NoBlocksNoEntries(bs', es);
    }
  }

  lemma NoBlocksNoEntries(bs: seq<seq<Entry>>, es: seq<Entry>)
    requires IsCutting(bs, es)
    ensures bs == [] <==> es == []
  {
    if bs != [] {
      assert es == bs[0] + Flatten(bs[1..]);
    }
  }

  // The data blocks are the only way to cut the entries at the target size.
  lemma DataBlocksAreTheCut(es: seq<Entry>, bs: seq<seq<Entry>>)
    ensures IsCutting(bs, es) <==> bs == DataBlocks(es)
  {
    DataBlocksAreCut(es);
    if IsCutting(bs, es) {
      CuttingUnique(bs, DataBlocks(es), es);
    }
  }

  // ----- Layout

  function WithTrailer(opts: SstBuilderOptions, raw: Bytes, offset: nat): (b: Bytes)
    ensures |b| == |raw| + I.BLOCK_TRAILER_SIZE
  {
    EncodeBlockWithTrailer(opts.foreign, raw, I.WrapU64(offset), opts.checksumType, opts.baseContextChecksum)
  }

  function HandleOf(offset: nat, raw: Bytes): I.BlockHandle {
    I.BlockHandle(I.WrapU64(offset), I.WrapU64(|raw|))
  }

  lemma HandleKeeps(offset: nat, raw: Bytes)
    requires offset < U64_LIMIT && |raw| < U32_LIMIT
    ensures HandleOf(offset, raw).offset == offset && HandleOf(offset, raw).size == |raw| == AsU32(|raw|)
  {
    AsU32Keeps(|raw|);
    I.WrapKeeps(offset);
    I.WrapKeeps(|raw|);
  }

  function DataBytes(opts: SstBuilderOptions, bs: seq<seq<Entry>>): Bytes {
    if bs == [] then []
    else
      var before := DataBytes(opts, bs[..|bs| - 1]);
      before + WithTrailer(opts, RawBlock(bs[|bs| - 1]), |before|)
  }

  // One separator per block: its last key.
  function IndexOf(opts: SstBuilderOptions, bs: seq<seq<Entry>>): (r: seq<I.IndexEntry>)
    requires NonEmpty(bs)
    ensures |r| == |bs|
  {
    if bs == [] then []
    else
      var front, last := bs[..|bs| - 1], bs[|bs| - 1];
      IndexOf(opts, front) + [I.IndexEntry(last[|last| - 1].key, HandleOf(|DataBytes(opts, front)|, RawBlock(last)))]
  }

  function DataPart(opts: SstBuilderOptions, es: seq<Entry>): Bytes {
    DataBytes(opts, DataBlocks(es))
  }

  function IndexRaw(opts: SstBuilderOptions, es: seq<Entry>): Bytes {
    DataBlocksKeepEntries(es);
    I.BlockBytes(IndexOf(opts, DataBlocks(es)), INDEX_BLOCK_RESTART_INTERVAL)
  }

  function UpToIndex(opts: SstBuilderOptions, es: seq<Entry>): Bytes {
    DataPart(opts, es) + WithTrailer(opts, IndexRaw(opts, es), |DataPart(opts, es)|)
  }

  function TotalKeySize(es: seq<Entry>): nat {
    if es == [] then 0 else TotalKeySize(es[..|es| - 1]) + |es[|es| - 1].key|
  }

  function TotalValueSize(es: seq<Entry>): nat {
    if es == [] then 0 else TotalValueSize(es[..|es| - 1]) + |es[|es| - 1].value|
  }

  function PropertiesRaw(opts: SstBuilderOptions, es: seq<Entry>): Bytes {
    opts.propertiesBlock(PropertiesInput(|es|, TotalKeySize(es), TotalValueSize(es), |DataPart(opts, es)|,
                                         |IndexRaw(opts, es)|, opts.externalSstGlobalSeqno))
  }

  function UpToProperties(opts: SstBuilderOptions, es: seq<Entry>): Bytes {
    UpToIndex(opts, es) + WithTrailer(opts, PropertiesRaw(opts, es), |UpToIndex(opts, es)|)
  }

  function MetaHandles(opts: SstBuilderOptions, es: seq<Entry>): seq<NamedHandle> {
    [NamedHandle(PROPERTIES_BLOCK_NAME, HandleOf(|UpToIndex(opts, es)|, PropertiesRaw(opts, es))),
     NamedHandle(INDEX_BLOCK_NAME, HandleOf(|DataPart(opts, es)|, IndexRaw(opts, es)))]
  }

  function MetaindexRaw(opts: SstBuilderOptions, es: seq<Entry>): Bytes {
    MetaindexBytes(MetaHandles(opts, es))
  }

  function UpToMetaindex(opts: SstBuilderOptions, es: seq<Entry>): Bytes {
    UpToProperties(opts, es) + WithTrailer(opts, MetaindexRaw(opts, es), |UpToProperties(opts, es)|)
  }

  function FileBytes(opts: SstBuilderOptions, es: seq<Entry>): Bytes {
    UpToMetaindex(opts, es) +
    FooterBytes(opts.foreign, FORMAT_VERSION, opts.checksumType, AsU32(|MetaindexRaw(opts, es)|), opts.baseContextChecksum,
                I.WrapU64(|UpToMetaindex(opts, es)|))
  }

  // ----- Ingest mode: every sequence number becomes zero

  function ZeroOutSeqno(key: Bytes): (k: Bytes)
    requires IsInternalKey(key)
    ensures IsInternalKey(k) && UserKey(k) == UserKey(key) && Sequence(k) == 0 && TypeByte(k) == TypeByte(key)
  {
    MakeKeyRoundTrip(key, UserKey(key), Packed(key) % 256);
    UserKey(key) + LittleEndian(Packed(key) % 256, SUFFIX_LEN)
  }

  function ZeroEntries(es: seq<Entry>): (r: seq<Entry>)
    requires forall i :: 0 <= i < |es| ==> IsInternalKey(es[i].key)
    ensures |r| == |es| && forall i :: 0 <= i < |r| ==> r[i] == Entry(ZeroOutSeqno(es[i].key), es[i].value)
  {
    seq(|es|, i requires 0 <= i < |es| && IsInternalKey(es[i].key) => Entry(ZeroOutSeqno(es[i].key), es[i].value))
  }

  // What ingest mode demands of the caller: keys long enough to rewrite.
  ghost predicate Preparable(opts: SstBuilderOptions, es: seq<Entry>) {
    opts.externalSstGlobalSeqno.Some? ==> forall i :: 0 <= i < |es| ==> IsInternalKey(es[i].key)
  }

  function Prepared(opts: SstBuilderOptions, es: seq<Entry>): (r: seq<Entry>)
    requires Preparable(opts, es)
    ensures |r| == |es|
  {
    if opts.externalSstGlobalSeqno.Some? then ZeroEntries(es) else es
  }

  // ----- Building

  // The 4 GiB limits: lengths and restart offsets are 32-bit.
  ghost predicate FileFits(opts: SstBuilderOptions, es: seq<Entry>) {
    D.FitEntries(es) && |FileBytes(opts, es)| < U32_LIMIT
  }

  lemma PartsFit(opts: SstBuilderOptions, es: seq<Entry>)
    requires |FileBytes(opts, es)| < U32_LIMIT
    ensures |DataPart(opts, es)| < U32_LIMIT && |IndexRaw(opts, es)| < U32_LIMIT && |MetaindexRaw(opts, es)| < U32_LIMIT
    ensures |PropertiesRaw(opts, es)| < U32_LIMIT && |UpToMetaindex(opts, es)| < U32_LIMIT
    ensures |UpToIndex(opts, es)| < U32_LIMIT && |UpToProperties(opts, es)| < U32_LIMIT
  {
  }

  lemma CutSnoc(es: seq<Entry>, i: nat)
    requires i < |es|
    ensures CutBlocks(es[..i + 1]) == CutStep(CutBlocks(es[..i]), es[i])
  {
    TakeSnoc(es, i);
    assert (es[..i] + [es[i]])[..i] == es[..i];
  }

  lemma ClosedStayClosed(before: Cut, e: Entry)
    ensures before.done <= CutStep(before, e).done
  {
  }

  lemma {:induction false} CutPrefix(es: seq<Entry>, i: nat)
    requires i <= |es|
    ensures CutBlocks(es[..i]).done <= DataBlocks(es)
    decreases |es| - i
  {
    if i == |es| {
      assert es[..i] == es;
    } else {
      CutSnoc(es, i);
      ClosedStayClosed(CutBlocks(es[..i]), es[i]);
      CutPrefix(es, i + 1);
      PrefixTransitive(CutBlocks(es[..i]).done, CutBlocks(es[..i + 1]).done, DataBlocks(es));
    }
  }

  lemma BlockAppended(opts: SstBuilderOptions, bs: seq<seq<Entry>>, es: seq<Entry>)
    requires NonEmpty(bs) && es != []
    ensures NonEmpty(bs + [es])
    ensures DataBytes(opts, bs + [es]) == DataBytes(opts, bs) + WithTrailer(opts, RawBlock(es), |DataBytes(opts, bs)|)
    ensures IndexOf(opts, bs + [es]) ==
            IndexOf(opts, bs) + [I.IndexEntry(es[|es| - 1].key, HandleOf(|DataBytes(opts, bs)|, RawBlock(es)))]
  {
    var all := bs + [es];
    assert all[..|bs|] == bs && all[|bs|] == es;
    assert NonEmpty(all);
    DataAppended(opts, bs, es, all);
    IndexAppended(opts, bs, es, all);
  }

  lemma DataAppended(opts: SstBuilderOptions, bs: seq<seq<Entry>>, es: seq<Entry>, all: seq<seq<Entry>>)
    requires |all| == |bs| + 1 && all[..|bs|] == bs && all[|bs|] == es
    ensures DataBytes(opts, all) == DataBytes(opts, bs) + WithTrailer(opts, RawBlock(es), |DataBytes(opts, bs)|)
  {
  }

  lemma IndexAppended(opts: SstBuilderOptions, bs: seq<seq<Entry>>, es: seq<Entry>, all: seq<seq<Entry>>)
    requires |all| == |bs| + 1 && all[..|bs|] == bs && all[|bs|] == es && NonEmpty(all) && NonEmpty(bs) && es != []
    ensures IndexOf(opts, all) ==
            IndexOf(opts, bs) + [I.IndexEntry(es[|es| - 1].key, HandleOf(|DataBytes(opts, bs)|, RawBlock(es)))]
  {
    var front, last := all[..|all| - 1], all[|all| - 1];
    assert front == bs && last == es;
  }

  // The blocks written so far are at the front of the file and of the index.
  lemma {:induction false} WrittenPrefix(opts: SstBuilderOptions, bs: seq<seq<Entry>>, j: nat)
    requires NonEmpty(bs) && j <= |bs|
    ensures NonEmpty(bs[..j])
    ensures DataBytes(opts, bs[..j]) <= DataBytes(opts, bs) && IndexOf(opts, bs[..j]) <= IndexOf(opts, bs)
    decreases |bs| - j
  {
    if j == |bs| {
      TakeAll(bs);
    } else {
      TakeSnoc(bs, j);
      BlockAppended(opts, bs[..j], bs[j]);
      WrittenPrefix(opts, bs, j + 1);
      PrefixTransitive(DataBytes(opts, bs[..j]), DataBytes(opts, bs[..j + 1]), DataBytes(opts, bs));
      PrefixTransitive(IndexOf(opts, bs[..j]), IndexOf(opts, bs[..j + 1]), IndexOf(opts, bs));
    }
  }

  // The index so far fits as the whole index does.
  lemma IndexSoFarFits(opts: SstBuilderOptions, all: seq<seq<Entry>>, bs: seq<seq<Entry>>)
    requires NonEmpty(all) && bs <= all
    requires |I.BlockBytes(IndexOf(opts, all), INDEX_BLOCK_RESTART_INTERVAL)| < U32_LIMIT
    ensures NonEmpty(bs) && |I.Encode(IndexOf(opts, bs), INDEX_BLOCK_RESTART_INTERVAL)| < U32_LIMIT
  {
    assert all[..|bs|] == bs;
    WrittenPrefix(opts, all, |bs|);
    ShorterIndex(IndexOf(opts, bs), IndexOf(opts, all));
  }

  lemma ShorterIndex(part: seq<I.IndexEntry>, whole: seq<I.IndexEntry>)
    requires part <= whole
    ensures |I.Encode(part, INDEX_BLOCK_RESTART_INTERVAL)| <= |I.BlockBytes(whole, INDEX_BLOCK_RESTART_INTERVAL)|
  {
    assert whole[..|part|] == part;
    I.EncodePrefix(whole, INDEX_BLOCK_RESTART_INTERVAL, |part|);
  }

  // Write a finished block with its trailer and index it under `lastKey`; an empty block is skipped.
  method FlushDataBlock(opts: SstBuilderOptions, file: Bytes, indexBuilder: I.IndexBlockBuilder, blockBuilder: D.BlockBuilder,
                        lastKey: Bytes) returns (file': Bytes)
    requires indexBuilder.Valid() && |indexBuilder.buffer| < U32_LIMIT && |lastKey| < U32_LIMIT
    requires blockBuilder.Valid() && |blockBuilder.restarts| < U32_LIMIT
    requires blockBuilder.restartInterval == DATA_BLOCK_RESTART_INTERVAL
    modifies indexBuilder, blockBuilder
    ensures indexBuilder.Valid()
    ensures old(blockBuilder.entries) == [] ==> file' == file && indexBuilder.entries == old(indexBuilder.entries)
    ensures old(blockBuilder.entries) != [] ==>
              var raw := RawBlock(old(blockBuilder.entries));
              file' == file + WithTrailer(opts, raw, |file|) &&
              indexBuilder.entries == old(indexBuilder.entries) + [I.IndexEntry(lastKey, HandleOf(|file|, raw))]
  {
    BufferEmptyIff(blockBuilder.entries);
    if blockBuilder.IsEmpty() {
      return file;
    }
    var raw := blockBuilder.Finish();
    var handle := HandleOf(|file|, raw);
    file' := file + WithTrailer(opts, raw, |file|);
    indexBuilder.Add(lastKey, handle);
  }

  lemma BufferEmptyIff(es: seq<Entry>)
    ensures es == [] <==> D.Encode(es, DATA_BLOCK_RESTART_INTERVAL) == []
  {
  }

  lemma SmallBlockFits(es: seq<Entry>)
    requires es != [] ==> |RawBlock(es)| < TARGET_BLOCK_SIZE
    ensures |D.Encode(es, DATA_BLOCK_RESTART_INTERVAL)| < TARGET_BLOCK_SIZE
    ensures |D.Restarts(es, DATA_BLOCK_RESTART_INTERVAL)| < TARGET_BLOCK_SIZE
  {
  }

  function LastKeyOf(es: seq<Entry>): Option<Bytes> {
    if es == [] then None else Some(es[|es| - 1].key)
  }

  lemma IndexRawFits(opts: SstBuilderOptions, es: seq<Entry>)
    requires |FileBytes(opts, es)| < U32_LIMIT
    ensures NonEmpty(DataBlocks(es))
    ensures |I.BlockBytes(IndexOf(opts, DataBlocks(es)), INDEX_BLOCK_RESTART_INTERVAL)| < U32_LIMIT
  {
    PartsFit(opts, es);
    DataBlocksKeepEntries(es);
  }

  lemma OneMoreRestart(es: seq<Entry>, e: Entry)
    ensures |D.Restarts(es + [e], DATA_BLOCK_RESTART_INTERVAL)| <= |D.Restarts(es, DATA_BLOCK_RESTART_INTERVAL)| + 1
  {
    D.EncodeSnoc(es, e, DATA_BLOCK_RESTART_INTERVAL);
  }

  // The writer's state once the entries of `cut` are in: closed blocks in the file and the index, the rest pending.
  ghost predicate Writing(opts: SstBuilderOptions, file: Bytes, indexBuilder: I.IndexBlockBuilder,
                          blockBuilder: D.BlockBuilder, pendingLastKey: Option<Bytes>, cut: Cut)
    reads indexBuilder, blockBuilder
  {
    NonEmpty(cut.done) && file == DataBytes(opts, cut.done) &&
    indexBuilder.Valid() && indexBuilder.restartInterval == INDEX_BLOCK_RESTART_INTERVAL &&
    indexBuilder.entries == IndexOf(opts, cut.done) &&
    blockBuilder.Valid() && blockBuilder.restartInterval == DATA_BLOCK_RESTART_INTERVAL &&
    blockBuilder.entries == cut.pending && pendingLastKey == LastKeyOf(cut.pending)
  }

  ghost predicate RoomFor(opts: SstBuilderOptions, cut: Cut) {
    NonEmpty(cut.done) && |I.Encode(IndexOf(opts, cut.done), INDEX_BLOCK_RESTART_INTERVAL)| < U32_LIMIT &&
    |D.Encode(cut.pending, DATA_BLOCK_RESTART_INTERVAL)| < TARGET_BLOCK_SIZE &&
    |D.Restarts(cut.pending, DATA_BLOCK_RESTART_INTERVAL)| < TARGET_BLOCK_SIZE
  }

  // There is room for the next entry, before every entry.
  lemma BeforeEntry(opts: SstBuilderOptions, es: seq<Entry>, i: nat)
    requires i <= |es| && NonEmpty(DataBlocks(es))
    requires |I.BlockBytes(IndexOf(opts, DataBlocks(es)), INDEX_BLOCK_RESTART_INTERVAL)| < U32_LIMIT
    ensures RoomFor(opts, CutBlocks(es[..i]))
  {
    CutPrefix(es, i);
    IndexSoFarFits(opts, DataBlocks(es), CutBlocks(es[..i]).done);
    CutKeepsEntries(es[..i]);
    SmallBlockFits(CutBlocks(es[..i]).pending);
  }

  lemma FlushedBlock(opts: SstBuilderOptions, cut: Cut, next: seq<seq<Entry>>, file: Bytes, lastKey: Bytes)
    requires NonEmpty(cut.done) && file == DataBytes(opts, cut.done) && LastKeyOf(cut.pending) == Some(lastKey)
    requires next == cut.done + [cut.pending]
    ensures NonEmpty(next) && DataBytes(opts, next) == file + WithTrailer(opts, RawBlock(cut.pending), |file|)
    ensures IndexOf(opts, next) == IndexOf(opts, cut.done) + [I.IndexEntry(lastKey, HandleOf(|file|, RawBlock(cut.pending)))]
  {
    BlockAppended(opts, cut.done, cut.pending);
  }

  // Close the pending block.
  method Flush(opts: SstBuilderOptions, file: Bytes, indexBuilder: I.IndexBlockBuilder, blockBuilder: D.BlockBuilder,
               lastKey: Bytes, ghost cut: Cut) returns (file': Bytes)
    requires Writing(opts, file, indexBuilder, blockBuilder, Some(lastKey), cut)
    requires |I.Encode(IndexOf(opts, cut.done), INDEX_BLOCK_RESTART_INTERVAL)| < U32_LIMIT && |lastKey| < U32_LIMIT
    requires |D.Restarts(cut.pending, DATA_BLOCK_RESTART_INTERVAL)| < U32_LIMIT
    modifies indexBuilder, blockBuilder
    ensures cut.pending != [] && NonEmpty(cut.done + [cut.pending])
    ensures indexBuilder.Valid() && indexBuilder.entries == IndexOf(opts, cut.done + [cut.pending])
    ensures file' == DataBytes(opts, cut.done + [cut.pending])
  {
    FlushedBlock(opts, cut, cut.done + [cut.pending], file, lastKey);
    file' := FlushDataBlock(opts, file, indexBuilder, blockBuilder, lastKey);
  }

  // The entry goes into the open block.
  method AddToBlock(opts: SstBuilderOptions, ghost file: Bytes, ghost indexBuilder: I.IndexBlockBuilder,
                    blockBuilder: D.BlockBuilder, e: Entry, ghost pendingLastKey: Option<Bytes>, ghost cut: Cut)
    requires Writing(opts, file, indexBuilder, blockBuilder, pendingLastKey, cut) && RoomFor(opts, cut)
    requires |e.key| < U32_LIMIT && |e.value| < U32_LIMIT
    modifies blockBuilder
    ensures Writing(opts, file, indexBuilder, blockBuilder, Some(e.key), Cut(cut.done, cut.pending + [e]))
    ensures |D.Restarts(cut.pending + [e], DATA_BLOCK_RESTART_INTERVAL)| <= TARGET_BLOCK_SIZE
    ensures blockBuilder.CurrentSizeEstimate() == |RawBlock(cut.pending + [e])|
  {
    OneMoreRestart(cut.pending, e);
    blockBuilder.Add(e.key, e.value);
    EstimateIsExact(cut.pending + [e]);
  }

  lemma EstimateIsExact(es: seq<Entry>)
    ensures |D.Encode(es, DATA_BLOCK_RESTART_INTERVAL)| + |D.Restarts(es, DATA_BLOCK_RESTART_INTERVAL)| * 4 + 4 == |RawBlock(es)|
  {
  }

  // The open block is full: close it and open another.
  method StartNextBlock(opts: SstBuilderOptions, file: Bytes, indexBuilder: I.IndexBlockBuilder, blockBuilder: D.BlockBuilder,
                        lastKey: Bytes, ghost cut: Cut) returns (file': Bytes, blockBuilder': D.BlockBuilder)
    requires Writing(opts, file, indexBuilder, blockBuilder, Some(lastKey), cut)
    requires |I.Encode(IndexOf(opts, cut.done), INDEX_BLOCK_RESTART_INTERVAL)| < U32_LIMIT && |lastKey| < U32_LIMIT
    requires |D.Restarts(cut.pending, DATA_BLOCK_RESTART_INTERVAL)| < U32_LIMIT
    modifies indexBuilder, blockBuilder
    ensures fresh(blockBuilder')
    ensures Writing(opts, file', indexBuilder, blockBuilder', None, Cut(cut.done + [cut.pending], []))
  {
    file' := Flush(opts, file, indexBuilder, blockBuilder, lastKey, cut);
    blockBuilder' := new D.BlockBuilder(DATA_BLOCK_RESTART_INTERVAL);
  }

  // The body of the entry loop.
  method WriteEntry(opts: SstBuilderOptions, file: Bytes, indexBuilder: I.IndexBlockBuilder, blockBuilder: D.BlockBuilder,
                    e: Entry, ghost pendingLastKey: Option<Bytes>, ghost cut: Cut)
    returns (file': Bytes, blockBuilder': D.BlockBuilder, pendingLastKey': Option<Bytes>)
    requires Writing(opts, file, indexBuilder, blockBuilder, pendingLastKey, cut) && RoomFor(opts, cut)
    requires |e.key| < U32_LIMIT && |e.value| < U32_LIMIT
    modifies indexBuilder, blockBuilder
    ensures blockBuilder' == blockBuilder || fresh(blockBuilder')
    ensures Writing(opts, file', indexBuilder, blockBuilder', pendingLastKey', CutStep(cut, e))
    ensures pendingLastKey'.Some? ==> pendingLastKey'.value == e.key
  {
    AddToBlock(opts, file, indexBuilder, blockBuilder, e, pendingLastKey, cut);
    pendingLastKey' := Some(e.key);
    file', blockBuilder' := file, blockBuilder;
    if blockBuilder.CurrentSizeEstimate() >= TARGET_BLOCK_SIZE {
      file', blockBuilder' := StartNextBlock(opts, file, indexBuilder, blockBuilder, e.key, Cut(cut.done, cut.pending + [e]));
      pendingLastKey' := None;
    }
  }

  // All data blocks are in the file and in the index.
  ghost predicate Written(opts: SstBuilderOptions, es: seq<Entry>, file: Bytes, indexBuilder: I.IndexBlockBuilder)
    reads indexBuilder
  {
    NonEmpty(DataBlocks(es)) && file == DataPart(opts, es) &&
    indexBuilder.Valid() && indexBuilder.restartInterval == INDEX_BLOCK_RESTART_INTERVAL &&
    indexBuilder.entries == IndexOf(opts, DataBlocks(es))
  }

  // The final flush, of whatever is pending.
  method FinishDataBlocks(opts: SstBuilderOptions, es: seq<Entry>, file: Bytes, indexBuilder: I.IndexBlockBuilder,
                          blockBuilder: D.BlockBuilder, pendingLastKey: Option<Bytes>) returns (file': Bytes)
    requires D.FitEntries(es) && RoomFor(opts, CutBlocks(es))
    requires Writing(opts, file, indexBuilder, blockBuilder, pendingLastKey, CutBlocks(es))
    requires pendingLastKey.Some? ==> |pendingLastKey.value| < U32_LIMIT
    modifies indexBuilder, blockBuilder
    ensures Written(opts, es, file', indexBuilder)
  {
    file' := file;
    if pendingLastKey.Some? {
      file' := Flush(opts, file, indexBuilder, blockBuilder, pendingLastKey.value, CutBlocks(es));
    }
  }

  // The entry loop.
  method WriteDataBlocks(opts: SstBuilderOptions, es: seq<Entry>) returns (file: Bytes, indexBuilder: I.IndexBlockBuilder)
    requires D.FitEntries(es) && NonEmpty(DataBlocks(es))
    requires |I.BlockBytes(IndexOf(opts, DataBlocks(es)), INDEX_BLOCK_RESTART_INTERVAL)| < U32_LIMIT
    ensures fresh(indexBuilder) && Written(opts, es, file, indexBuilder)
  {
    file := [];
    indexBuilder := new I.IndexBlockBuilder(INDEX_BLOCK_RESTART_INTERVAL);
    var blockBuilder := new D.BlockBuilder(DATA_BLOCK_RESTART_INTERVAL);
    var pendingLastKey: Option<Bytes> := None;
    for i := 0 to |es|
      invariant fresh(indexBuilder) && fresh(blockBuilder)
      invariant Writing(opts, file, indexBuilder, blockBuilder, pendingLastKey, CutBlocks(es[..i]))
      invariant pendingLastKey.Some? ==> |pendingLastKey.value| < U32_LIMIT
    {
      BeforeEntry(opts, es, i);
      CutSnoc(es, i);
      file, blockBuilder, pendingLastKey :=
        WriteEntry(opts, file, indexBuilder, blockBuilder, es[i], pendingLastKey, CutBlocks(es[..i]));
    }
    TakeAll(es);
    BeforeEntry(opts, es, |es|);
    file := FinishDataBlocks(opts, es, file, indexBuilder, blockBuilder, pendingLastKey);
  }

  // The file built from `entries`, rewritten first in ingest mode.
  function SstBytes(opts: SstBuilderOptions, entries: seq<Entry>): Bytes
    requires Preparable(opts, entries)
  {
    FileBytes(opts, Prepared(opts, entries))
  }

  lemma MetaHandlesFit(opts: SstBuilderOptions, es: seq<Entry>)
    ensures forall x :: x in MetaHandles(opts, es) ==> |x.name| < U32_LIMIT
  {
  }

  // Index, properties, metaindex and footer behind the data blocks.
  method WriteTail(opts: SstBuilderOptions, es: seq<Entry>, data: Bytes, indexRaw: Bytes) returns (file: Bytes)
    requires data == DataPart(opts, es) && indexRaw == IndexRaw(opts, es)
    requires |UpToMetaindex(opts, es)| < U32_LIMIT && |MetaindexRaw(opts, es)| < U32_LIMIT
    ensures file == FileBytes(opts, es)
  {
    file := data + WithTrailer(opts, indexRaw, |data|);
    var indexHandle := HandleOf(|data|, indexRaw);
    assert file == UpToIndex(opts, es);

    var propsRaw := opts.propertiesBlock(PropertiesInput(|es|, TotalKeySize(es), TotalValueSize(es), |data|,
                                                         |indexRaw|, opts.externalSstGlobalSeqno));
    var propsHandle := HandleOf(|file|, propsRaw);
    file := file + WithTrailer(opts, propsRaw, |file|);
    assert file == UpToProperties(opts, es);

    MetaHandlesFit(opts, es);
    var metaindexRaw := BuildMetaindexBlock([NamedHandle(PROPERTIES_BLOCK_NAME, propsHandle),
                                             NamedHandle(INDEX_BLOCK_NAME, indexHandle)]);
    var metaindexHandle := HandleOf(|file|, metaindexRaw);
    file := file + WithTrailer(opts, metaindexRaw, |file|);
    assert file == UpToMetaindex(opts, es);
    HandleKeeps(|UpToProperties(opts, es)|, metaindexRaw);

    var footer := EncodeFooterV6Plus(opts.foreign, FORMAT_VERSION, opts.checksumType, metaindexHandle,
                                     opts.baseContextChecksum, I.WrapU64(|file|));
    file := file + footer;
  }

  lemma RestartsFit(opts: SstBuilderOptions, es: seq<Entry>)
    requires |IndexRaw(opts, es)| < U32_LIMIT
    ensures NonEmpty(DataBlocks(es)) && |I.Restarts(IndexOf(opts, DataBlocks(es)), INDEX_BLOCK_RESTART_INTERVAL)| < U32_LIMIT
  {
    DataBlocksKeepEntries(es);
  }

  method BuildSst(opts: SstBuilderOptions, entries: seq<Entry>) returns (file: Bytes)
    requires Preparable(opts, entries) && FileFits(opts, Prepared(opts, entries))
    ensures file == SstBytes(opts, entries)
  {
    var es := Prepared(opts, entries);
    PartsFit(opts, es);
    IndexRawFits(opts, es);
    RestartsFit(opts, es);
    var data, indexBuilder := WriteDataBlocks(opts, es);
    var indexRaw := indexBuilder.Finish();
    file := WriteTail(opts, es, data, indexRaw);
  }
}
