/** Reading a whole file from memory: footer, metaindex, index, then every data block in index order. */
module SstLoader {
  import opened Wrappers
  import opened ByteStrings
  import opened InternalKeys
  import opened Lists
  import opened Varint
  import opened Blocks
  import opened BlockTrailer
  import opened Footer
  import opened Metaindex
  import opened Sources
  import opened SstBuilder
  import D = DataBlock
  import I = IndexBlock

  // ----- Reading

  function ReadBlock(foreign: Foreign, file: Bytes, ft: FileFooter, handle: I.BlockHandle): Result<Bytes> {
    var start: nat, len: nat := handle.offset, handle.size + I.BLOCK_TRAILER_SIZE;
    if start + len > |file| then Failure("block out of file bounds")
    else DecodeBlockContents(foreign, file[start..start + len], handle, ft.checksumType, ft.baseContextChecksum)
  }

  function ReadParsed(foreign: Foreign, file: Bytes, ft: FileFooter, handle: I.BlockHandle): (r: Result<ParsedBlock>)
    ensures r.Success? ==> WellParsed(r.value)
  {
    var raw :- ReadBlock(foreign, file, ft, handle);
    ParseBlock(raw)
  }

  function ReadEntries(foreign: Foreign, file: Bytes, ft: FileFooter, handle: I.BlockHandle): Result<seq<Entry>> {
    var block :- ReadParsed(foreign, file, ft, handle);
    D.BlockEntries(block)
  }

  // An index found and read: what it takes to go to any data block.
  datatype OpenFile = OpenFile(footer: FileFooter, index: seq<I.IndexEntry>)

  function IndexHandleOf(foreign: Foreign, file: Bytes, ft: FileFooter): Result<I.BlockHandle> {
    var metaindex :- ReadParsed(foreign, file, ft, ft.metaindexHandle);
    match ft.indexHandle
    case Some(h) => Success(h)
    case None =>
      var found :- FindMetaHandle(metaindex, INDEX_BLOCK_NAME);
      match found
      case Some(h) => Success(h)
      case None => Failure("index block handle missing from metaindex")
  }

  // The requires is what slicing the footer off the end takes.
  function Open(foreign: Foreign, file: Bytes): Result<OpenFile>
    requires FOOTER_LEN <= |file| < U64_LIMIT
  {
    var ft :- DecodeFooter(foreign, file[|file| - FOOTER_LEN..], |file|);
    var handle :- IndexHandleOf(foreign, file, ft);
    var index :- ReadParsed(foreign, file, ft, handle);
    var entries :- I.IndexEntries(index);
    Success(OpenFile(ft, entries))
  }

  function ReadAll(foreign: Foreign, file: Bytes, ft: FileFooter, index: seq<I.IndexEntry>): Result<seq<Entry>> {
    if index == [] then Success([])
    else
      var first :- ReadEntries(foreign, file, ft, index[0].handle);
      var rest :- ReadAll(foreign, file, ft, index[1..]);
      Success(first + rest)
  }

  function LoadFile(foreign: Foreign, file: Bytes): Result<seq<Entry>>
    requires FOOTER_LEN <= |file| < U64_LIMIT
  {
    var f :- Open(foreign, file);
    ReadAll(foreign, file, f.footer, f.index)
  }

  // ----- Blocks stand where their handles say

  lemma ReadBlockWritten(opts: SstBuilderOptions, file: Bytes, ft: FileFooter, pre: Bytes, raw: Bytes)
    requires pre + WithTrailer(opts, raw, |pre|) <= file && |file| < U32_LIMIT
    requires ft.checksumType == opts.checksumType && ft.baseContextChecksum == opts.baseContextChecksum
    ensures ReadBlock(opts.foreign, file, ft, HandleOf(|pre|, raw)) == Success(raw)
  {
    var block := WithTrailer(opts, raw, |pre|);
    HandleKeeps(|pre|, raw);
    I.WrapKeeps(|pre|);
    AtInPrefix(file, pre, block);
    AtIsSlice(file, |pre|, block);
    TrailerRoundTrip(opts.foreign, raw, opts.checksumType, opts.baseContextChecksum, |pre|, HandleOf(|pre|, raw));
  }

  // Block j and its separator.
  lemma BlockStandsAt(opts: SstBuilderOptions, bs: seq<seq<Entry>>, j: nat)
    requires NonEmpty(bs) && j < |bs|
    ensures var pre := DataBytes(opts, bs[..j]);
            pre + WithTrailer(opts, RawBlock(bs[j]), |pre|) <= DataBytes(opts, bs) &&
            IndexOf(opts, bs)[j] == I.IndexEntry(bs[j][|bs[j]| - 1].key, HandleOf(|pre|, RawBlock(bs[j])))
  {
    TakeSnoc(bs, j);
    BlockAppended(opts, bs[..j], bs[j]);
    WrittenPrefix(opts, bs, j + 1);
    assert IndexOf(opts, bs[..j + 1])[j] == IndexOf(opts, bs)[j];
  }

  // ----- A written file reads back

  ghost function FooterOf(opts: SstBuilderOptions, es: seq<Entry>): FileFooter {
    FileFooter(BLOCK_BASED_TABLE_MAGIC, FORMAT_VERSION, opts.checksumType,
               HandleOf(|UpToProperties(opts, es)|, MetaindexRaw(opts, es)), None, opts.baseContextChecksum)
  }

  lemma FooterReads(opts: SstBuilderOptions, es: seq<Entry>)
    requires |FileBytes(opts, es)| < U32_LIMIT
    ensures var file := FileBytes(opts, es);
            |file| >= FOOTER_LEN && DecodeFooter(opts.foreign, file[|file| - FOOTER_LEN..], |file|) == Success(FooterOf(opts, es))
  {
    TailIsPlainFooter(opts, es);
    var file := FileBytes(opts, es);
    FooterReadsAs(opts.foreign, file[|file| - FOOTER_LEN..], |file|, FORMAT_VERSION, opts.checksumType,
                  FooterOf(opts, es).metaindexHandle, opts.baseContextChecksum, |UpToMetaindex(opts, es)|);
  }

  lemma TailIsPlainFooter(opts: SstBuilderOptions, es: seq<Entry>)
    requires |FileBytes(opts, es)| < U32_LIMIT
    ensures var file, body, h := FileBytes(opts, es), UpToMetaindex(opts, es), FooterOf(opts, es).metaindexHandle;
            |file| == |body| + FOOTER_LEN && |body| == h.offset + h.size + I.BLOCK_TRAILER_SIZE && h.size < U32_LIMIT &&
            file[|file| - FOOTER_LEN..] ==
              FooterBytes(opts.foreign, FORMAT_VERSION, opts.checksumType, h.size, opts.baseContextChecksum, |body|)
  {
    PartsFit(opts, es);
    HandleKeeps(|UpToProperties(opts, es)|, MetaindexRaw(opts, es));
    I.WrapKeeps(|UpToMetaindex(opts, es)|);
    TailIsFooter(opts, es);
  }

  lemma TailIsFooter(opts: SstBuilderOptions, es: seq<Entry>)
    ensures var file, body := FileBytes(opts, es), UpToMetaindex(opts, es);
            |file| == |body| + FOOTER_LEN &&
            file[|file| - FOOTER_LEN..] ==
              FooterBytes(opts.foreign, FORMAT_VERSION, opts.checksumType, AsU32(|MetaindexRaw(opts, es)|),
                          opts.baseContextChecksum, I.WrapU64(|body|))
  {
  }

  lemma PartsArePrefixes(opts: SstBuilderOptions, es: seq<Entry>)
    ensures DataPart(opts, es) <= FileBytes(opts, es)
    ensures DataPart(opts, es) + WithTrailer(opts, IndexRaw(opts, es), |DataPart(opts, es)|) <= FileBytes(opts, es)
    ensures UpToIndex(opts, es) + WithTrailer(opts, PropertiesRaw(opts, es), |UpToIndex(opts, es)|) <= FileBytes(opts, es)
    ensures UpToProperties(opts, es) + WithTrailer(opts, MetaindexRaw(opts, es), |UpToProperties(opts, es)|) <= FileBytes(opts, es)
  {
    var d, i, p, m, f := DataPart(opts, es), UpToIndex(opts, es), UpToProperties(opts, es), UpToMetaindex(opts, es), FileBytes(opts, es);
    PrefixTransitive(d, i, p);
    PrefixTransitive(d, p, m);
    PrefixTransitive(d, m, f);
    PrefixTransitive(i, p, m);
    PrefixTransitive(i, m, f);
    PrefixTransitive(p, m, f);
  }

  lemma BlocksAreNamed(opts: SstBuilderOptions, es: seq<Entry>)
    requires |MetaindexRaw(opts, es)| < U32_LIMIT
    ensures var parsed := ParseBlock(MetaindexRaw(opts, es));
            parsed.Success? &&
            FindMetaHandle(parsed.value, INDEX_BLOCK_NAME) ==
              Success(Some(HandleOf(|DataPart(opts, es)|, IndexRaw(opts, es)))) &&
            FindMetaHandle(parsed.value, PROPERTIES_BLOCK_NAME) ==
              Success(Some(HandleOf(|UpToIndex(opts, es)|, PropertiesRaw(opts, es))))
  {
    NamesDiffer();
    BothFound(NamedHandle(PROPERTIES_BLOCK_NAME, HandleOf(|UpToIndex(opts, es)|, PropertiesRaw(opts, es))),
              NamedHandle(INDEX_BLOCK_NAME, HandleOf(|DataPart(opts, es)|, IndexRaw(opts, es))));
  }

  lemma MetaindexReads(opts: SstBuilderOptions, es: seq<Entry>)
    requires |FileBytes(opts, es)| < U32_LIMIT
    ensures ReadParsed(opts.foreign, FileBytes(opts, es), FooterOf(opts, es), FooterOf(opts, es).metaindexHandle) ==
            ParseBlock(MetaindexRaw(opts, es))
  {
    PartsArePrefixes(opts, es);
    ReadBlockWritten(opts, FileBytes(opts, es), FooterOf(opts, es), UpToProperties(opts, es), MetaindexRaw(opts, es));
  }

  lemma IndexHandleReads(opts: SstBuilderOptions, es: seq<Entry>)
    requires |FileBytes(opts, es)| < U32_LIMIT
    ensures IndexHandleOf(opts.foreign, FileBytes(opts, es), FooterOf(opts, es)) ==
            Success(HandleOf(|DataPart(opts, es)|, IndexRaw(opts, es)))
  {
    PartsFit(opts, es);
    BlocksAreNamed(opts, es);
    MetaindexReads(opts, es);
  }

  lemma BlockEntriesFit(bs: seq<seq<Entry>>, j: nat)
    requires j < |bs| && D.FitEntries(Flatten(bs))
    ensures D.FitEntries(bs[j])
  {
    var all := Flatten(bs);
    forall i | 0 <= i < |bs[j]| ensures |bs[j][i].key| < U32_LIMIT && |bs[j][i].value| < U32_LIMIT {
      assert bs[j][i] in bs[j];
      InFlatten(bs, bs[j][i]);
      var m :| 0 <= m < |all| && all[m] == bs[j][i];
    }
  }

  lemma BlockEnds(opts: SstBuilderOptions, bs: seq<seq<Entry>>, j: nat)
    requires j < |bs|
    ensures |DataBytes(opts, bs[..j + 1])| == |DataBytes(opts, bs[..j])| + |RawBlock(bs[j])| + 5
  {
    TakeSnoc(bs, j);
    DataAppended(opts, bs[..j], bs[j], bs[..j + 1]);
  }

  lemma HandleFollows(at: nat, raw: Bytes, at': nat, raw': Bytes)
    requires at' == at + |raw| + 5 && at' + |raw'| < U32_LIMIT
    ensures var prev, next := HandleOf(at, raw), HandleOf(at', raw');
            next.offset == prev.offset + prev.size + 5 && I.Follows(prev, next)
  {
    HandleKeeps(at, raw);
    HandleKeeps(at', raw');
  }

  lemma HandleStandsAt(opts: SstBuilderOptions, bs: seq<seq<Entry>>, j: nat, at: nat)
    requires NonEmpty(bs) && j < |bs| && at == |DataBytes(opts, bs[..j])|
    ensures IndexOf(opts, bs)[j].handle == HandleOf(at, RawBlock(bs[j]))
    ensures at + |RawBlock(bs[j])| + 5 <= |DataBytes(opts, bs)|
  {
    BlockStandsAt(opts, bs, j);
  }

  // Block j with the offset it starts at and the offset where the next block does.
  ghost predicate StandsAt(opts: SstBuilderOptions, bs: seq<seq<Entry>>, j: nat, at: nat, raw: Bytes, next: nat)
    requires NonEmpty(bs) && j < |bs|
  {
    IndexOf(opts, bs)[j].handle == HandleOf(at, raw) && next == at + |raw| + 5 <= |DataBytes(opts, bs)|
  }

  lemma BlockSpan(opts: SstBuilderOptions, bs: seq<seq<Entry>>, j: nat, k: nat) returns (at: nat, raw: Bytes, next: nat)
    requires NonEmpty(bs) && j < |bs| && k == j + 1
    ensures StandsAt(opts, bs, j, at, raw, next) && at == |DataBytes(opts, bs[..j])| && next == |DataBytes(opts, bs[..k])|
  {
    at, raw, next := |DataBytes(opts, bs[..j])|, RawBlock(bs[j]), |DataBytes(opts, bs[..k])|;
    BlockEnds(opts, bs, j);
    HandleStandsAt(opts, bs, j, at);
  }

  // Data blocks follow each other without gaps.
  lemma HandlesAreContiguous(opts: SstBuilderOptions, bs: seq<seq<Entry>>, j: nat)
    requires NonEmpty(bs) && 0 < j < |bs| && |DataBytes(opts, bs)| < U32_LIMIT
    ensures var prev, next := IndexOf(opts, bs)[j - 1].handle, IndexOf(opts, bs)[j].handle;
            next.offset == prev.offset + prev.size + 5 && I.Follows(prev, next)
  {
    var at, raw, next := BlockSpan(opts, bs, j - 1, j);
    var at', raw', _ := BlockSpan(opts, bs, j, j + 1);
    HandleFollows(at, raw, at', raw');
  }

  lemma IndexIsContiguous(opts: SstBuilderOptions, bs: seq<seq<Entry>>, interval: nat)
    requires NonEmpty(bs) && interval >= 1 && |DataBytes(opts, bs)| < U32_LIMIT
    ensures I.Contiguous(IndexOf(opts, bs), interval)
  {
    forall i | 0 < i < |bs| ensures I.Follows(IndexOf(opts, bs)[i - 1].handle, IndexOf(opts, bs)[i].handle) {
      HandlesAreContiguous(opts, bs, i);
    }
  }

  // So an index over data blocks comes back exactly, however many of its handles are delta-encoded.
  lemma LayoutIndexRoundTrip(opts: SstBuilderOptions, bs: seq<seq<Entry>>, interval: nat)
    requires NonEmpty(bs) && interval >= 1
    requires |DataBytes(opts, bs)| < U32_LIMIT && |I.BlockBytes(IndexOf(opts, bs), interval)| < U32_LIMIT
    ensures var parsed := ParseBlock(I.BlockBytes(IndexOf(opts, bs), interval));
            parsed.Success? && I.IndexEntries(parsed.value) == Success(IndexOf(opts, bs))
  {
    IndexIsContiguous(opts, bs, interval);
    I.WrittenKeysFit(IndexOf(opts, bs), interval);
    I.IndexBlockRoundTrip(IndexOf(opts, bs), interval);
  }

  lemma IndexReads(opts: SstBuilderOptions, es: seq<Entry>)
    requires FileFits(opts, es)
    ensures NonEmpty(DataBlocks(es))
    ensures Open(opts.foreign, FileBytes(opts, es)) == Success(OpenFile(FooterOf(opts, es), IndexOf(opts, DataBlocks(es))))
  {
    PartsFit(opts, es);
    DataBlocksKeepEntries(es);
    var index := IndexOf(opts, DataBlocks(es));
    FooterReads(opts, es);
    IndexHandleReads(opts, es);
    PartsArePrefixes(opts, es);
    ReadBlockWritten(opts, FileBytes(opts, es), FooterOf(opts, es), DataPart(opts, es), IndexRaw(opts, es));
    LayoutIndexRoundTrip(opts, DataBlocks(es), INDEX_BLOCK_RESTART_INTERVAL);
  }

  lemma BlockRawReads(opts: SstBuilderOptions, es: seq<Entry>, j: nat)
    requires FileFits(opts, es) && NonEmpty(DataBlocks(es)) && j < |DataBlocks(es)|
    ensures ReadBlock(opts.foreign, FileBytes(opts, es), FooterOf(opts, es), IndexOf(opts, DataBlocks(es))[j].handle) ==
            Success(RawBlock(DataBlocks(es)[j]))
    ensures |RawBlock(DataBlocks(es)[j])| < U32_LIMIT
  {
    var bs := DataBlocks(es);
    BlockStandsAt(opts, bs, j);
    PartsArePrefixes(opts, es);
    var pre := DataBytes(opts, bs[..j]);
    PrefixTransitive(pre + WithTrailer(opts, RawBlock(bs[j]), |pre|), DataPart(opts, es), FileBytes(opts, es));
    ReadBlockWritten(opts, FileBytes(opts, es), FooterOf(opts, es), pre, RawBlock(bs[j]));
  }

  // Reading block j through its handle gives its entries.
  lemma BlockReads(opts: SstBuilderOptions, es: seq<Entry>, j: nat)
    requires FileFits(opts, es) && j < |DataBlocks(es)|
    ensures NonEmpty(DataBlocks(es))
    ensures ReadEntries(opts.foreign, FileBytes(opts, es), FooterOf(opts, es), IndexOf(opts, DataBlocks(es))[j].handle) ==
            Success(DataBlocks(es)[j])
  {
    DataBlocksKeepEntries(es);
    BlockRawReads(opts, es, j);
    BlockEntriesFit(DataBlocks(es), j);
    RawBlockReads(opts.foreign, FileBytes(opts, es), FooterOf(opts, es), IndexOf(opts, DataBlocks(es))[j].handle, DataBlocks(es)[j]);
  }

  lemma RawBlockReads(foreign: Foreign, file: Bytes, ft: FileFooter, handle: I.BlockHandle, es: seq<Entry>)
    requires ReadBlock(foreign, file, ft, handle) == Success(RawBlock(es))
    requires |RawBlock(es)| < U32_LIMIT && D.FitEntries(es)
    ensures ReadEntries(foreign, file, ft, handle) == Success(es)
  {
    D.DataBlockRoundTrip(es, DATA_BLOCK_RESTART_INTERVAL);
  }

  // ----- The properties block

  function Keys(es: seq<Entry>): seq<Bytes> {
    seq(|es|, i requires 0 <= i < |es| => es[i].key)
  }

  function Values(es: seq<Entry>): seq<Bytes> {
    seq(|es|, i requires 0 <= i < |es| => es[i].value)
  }

  lemma {:induction false} TotalsAreSums(es: seq<Entry>)
    ensures TotalKeySize(es) == |Flatten(Keys(es))| && TotalValueSize(es) == |Flatten(Values(es))|
    decreases |es|
  {
    if es != [] {
      var front, last := es[..|es| - 1], es[|es| - 1];
      TotalsAreSums(front);
      assert Keys(es) == Keys(front) + [last.key] && Values(es) == Values(front) + [last.value];
      FlattenSnoc(Keys(front), last.key);
      FlattenSnoc(Values(front), last.value);
    }
  }

  lemma PropertiesReadBack(opts: SstBuilderOptions, es: seq<Entry>)
    requires |FileBytes(opts, es)| < U32_LIMIT
    ensures ReadBlock(opts.foreign, FileBytes(opts, es), FooterOf(opts, es), HandleOf(|UpToIndex(opts, es)|, PropertiesRaw(opts, es)))
         == Success(PropertiesRaw(opts, es))
  {
    PartsArePrefixes(opts, es);
    ReadBlockWritten(opts, FileBytes(opts, es), FooterOf(opts, es), UpToIndex(opts, es), PropertiesRaw(opts, es));
  }

  // In every written file the metaindex leads to the index block, right behind the data, and to the properties
  // block, which reads back with the totals of the entries.
  lemma PropertiesFound(opts: SstBuilderOptions, es: seq<Entry>)
    returns (ft: FileFooter, metaindex: ParsedBlock, index: I.BlockHandle, properties: I.BlockHandle)
    requires |FileBytes(opts, es)| < U32_LIMIT
    ensures |FileBytes(opts, es)| >= FOOTER_LEN && WellParsed(metaindex) && NonEmpty(DataBlocks(es))
    ensures var file := FileBytes(opts, es);
            DecodeFooter(opts.foreign, file[|file| - FOOTER_LEN..], |file|) == Success(ft) &&
            ReadParsed(opts.foreign, file, ft, ft.metaindexHandle) == Success(metaindex) &&
            FindMetaHandle(metaindex, INDEX_BLOCK_NAME) == Success(Some(index)) &&
            FindMetaHandle(metaindex, PROPERTIES_BLOCK_NAME) == Success(Some(properties))
    ensures index.offset == |DataBytes(opts, DataBlocks(es))|
    ensures index.size == |I.BlockBytes(IndexOf(opts, DataBlocks(es)), INDEX_BLOCK_RESTART_INTERVAL)|
    ensures ReadBlock(opts.foreign, FileBytes(opts, es), ft, properties) ==
            Success(opts.propertiesBlock(PropertiesInput(|es|, |Flatten(Keys(es))|, |Flatten(Values(es))|, index.offset,
                                                         index.size, opts.externalSstGlobalSeqno)))
  {
    PartsFit(opts, es);
    DataBlocksKeepEntries(es);
    FooterReads(opts, es);
    MetaindexReads(opts, es);
    BlocksAreNamed(opts, es);
    PropertiesReadBack(opts, es);
    TotalsAreSums(es);
    HandleKeeps(|DataPart(opts, es)|, IndexRaw(opts, es));
    ft, metaindex := FooterOf(opts, es), ParseBlock(MetaindexRaw(opts, es)).value;
    index := HandleOf(|DataPart(opts, es)|, IndexRaw(opts, es));
    properties := HandleOf(|UpToIndex(opts, es)|, PropertiesRaw(opts, es));
  }

  // Blocks that each read back read back together.
  lemma {:induction false} AllBlocksRead(foreign: Foreign, file: Bytes, ft: FileFooter, index: seq<I.IndexEntry>,
                                         bs: seq<seq<Entry>>, j: nat)
    requires j <= |index| == |bs|
    requires forall k :: 0 <= k < |bs| ==> ReadEntries(foreign, file, ft, index[k].handle) == Success(bs[k])
    ensures ReadAll(foreign, file, ft, index[j..]) == Success(Flatten(bs[j..]))
    decreases |index| - j
  {
    if j < |bs| {
      AllBlocksRead(foreign, file, ft, index, bs, j + 1);
      SuffixCons(index, j);
      SuffixCons(bs, j);
    }
  }

  // Every entry list within the 4 GiB limits comes back exactly, in order.
  lemma FileRoundTrip(opts: SstBuilderOptions, es: seq<Entry>)
    requires FileFits(opts, es)
    ensures |FileBytes(opts, es)| >= FOOTER_LEN
    ensures LoadFile(opts.foreign, FileBytes(opts, es)) == Success(es)
  {
    IndexReads(opts, es);
    DataBlocksKeepEntries(es);
    var bs := DataBlocks(es);
    var index := IndexOf(opts, bs);
    forall k | 0 <= k < |bs|
      ensures ReadEntries(opts.foreign, FileBytes(opts, es), FooterOf(opts, es), index[k].handle) == Success(bs[k])
    {
      BlockReads(opts, es, k);
    }
    AllBlocksRead(opts.foreign, FileBytes(opts, es), FooterOf(opts, es), index, bs, 0);
    assert bs[0..] == bs && index[0..] == index;
  }

  // ----- Loading into a merge source

  function ArenaSize(es: seq<Entry>): nat {
    TotalKeySize(es) + TotalValueSize(es)
  }

  lemma ArenaSizeStep(es: seq<Entry>, i: nat)
    requires i < |es|
    ensures ArenaSize(es[..i + 1]) == ArenaSize(es[..i]) + |es[i].key| + |es[i].value|
  {
    TakeSnoc(es, i);
    assert (es[..i] + [es[i]])[..i] == es[..i];
  }

  lemma {:induction false} ArenaSizeMonotone(es: seq<Entry>, i: nat)
    requires i <= |es|
    ensures ArenaSize(es[..i]) <= ArenaSize(es)
    decreases |es| - i
  {
    if i == |es| {
      TakeAll(es);
    } else {
      ArenaSizeStep(es, i);
      ArenaSizeMonotone(es, i + 1);
    }
  }

  // All entries into one arena.
  method FillSource(es: seq<Entry>) returns (source: ArenaSource)
    requires ArenaSize(es) < U32_LIMIT
    ensures fresh(source) && source.Valid() && source.Entries() == source.Remaining() == es
  {
    var builder := new ArenaSourceBuilder();
    for i := 0 to |es|
      invariant fresh(builder) && builder.Valid() && builder.Contents() == es[..i]
      invariant |builder.arena| == ArenaSize(es[..i])
    {
      ArenaSizeStep(es, i);
      ArenaSizeMonotone(es, i + 1);
      builder.Push(es[i].key, es[i].value);
      TakeSnoc(es, i);
    }
    TakeAll(es);
    source := builder.Build();
  }

  method ReadParsedBlock(foreign: Foreign, file: Bytes, ft: FileFooter, handle: I.BlockHandle) returns (r: Result<ParsedBlock>)
    ensures r == ReadParsed(foreign, file, ft, handle)
  {
    var raw := ReadBlock(foreign, file, ft, handle);
    if raw.Failure? {
      return Failure(raw.error);
    }
    r := ParseBlockContents(raw.value);
  }

  method OpenFileBytes(foreign: Foreign, file: Bytes) returns (r: Result<OpenFile>)
    requires FOOTER_LEN <= |file| < U64_LIMIT
    ensures r == Open(foreign, file)
  {
    var ft := DecodeFooter(foreign, file[|file| - FOOTER_LEN..], |file|);
    if ft.Failure? {
      return Failure(ft.error);
    }
    var metaindex := ReadParsedBlock(foreign, file, ft.value, ft.value.metaindexHandle);
    if metaindex.Failure? {
      return Failure(metaindex.error);
    }
    var handle := ft.value.indexHandle;
    if handle.None? {
      var found := FindMeta(metaindex.value, INDEX_BLOCK_NAME);
      if found.Failure? {
        return Failure(found.error);
      }
      if found.value.None? {
        return Failure("index block handle missing from metaindex");
      }
      handle := found.value;
    }
    var index := ReadParsedBlock(foreign, file, ft.value, handle.value);
    if index.Failure? {
      return Failure(index.error);
    }
    var visit, entries := I.ForEachIndexEntry(index.value);
    if visit.Failure? {
      return Failure(visit.error);
    }
    r := Success(OpenFile(ft.value, entries));
  }

  lemma ReadAllPrefix(foreign: Foreign, file: Bytes, ft: FileFooter, index: seq<I.IndexEntry>, j: nat)
    requires j < |index|
    ensures ReadAll(foreign, file, ft, index[j..]) ==
            match ReadEntries(foreign, file, ft, index[j].handle)
            case Failure(e) => Failure(e)
            case Success(first) => Prepend(first, ReadAll(foreign, file, ft, index[j + 1..]))
  {
    SuffixCons(index, j);
  }

  // Every data block in index order. The program hands each entry to the arena as it meets it; here the
  // entries are collected and handed over together.
  method ReadDataBlocks(foreign: Foreign, file: Bytes, ft: FileFooter, index: seq<I.IndexEntry>) returns (r: Result<seq<Entry>>)
    ensures r == ReadAll(foreign, file, ft, index)
  {
    var read: seq<Entry> := [];
    PrependNothing(ReadAll(foreign, file, ft, index));
    assert index[0..] == index;
    for j := 0 to |index|
      invariant ReadAll(foreign, file, ft, index) == Prepend(read, ReadAll(foreign, file, ft, index[j..]))
    {
      ReadAllPrefix(foreign, file, ft, index, j);
      var block := ReadParsedBlock(foreign, file, ft, index[j].handle);
      if block.Failure? {
        return Failure(block.error);
      }
      var visit, entries := D.ForEachEntry(block.value);
      if visit.Failure? {
        return Failure(visit.error);
      }
      PrependTwice(read, entries, ReadAll(foreign, file, ft, index[j + 1..]));
      read := read + entries;
    }
    assert read + [] == read;
    r := Success(read);
  }

  // A whole file into a source positioned at its first entry.
  method LoadArenaSource(foreign: Foreign, file: Bytes) returns (r: Result<ArenaSource>)
    requires FOOTER_LEN <= |file| < U64_LIMIT
    requires LoadFile(foreign, file).Success? ==> ArenaSize(LoadFile(foreign, file).value) < U32_LIMIT
    ensures r.Failure? ==> LoadFile(foreign, file) == Failure(r.error)
    ensures r.Success? ==> fresh(r.value) && r.value.Valid() &&
                           LoadFile(foreign, file) == Success(r.value.Entries()) && r.value.Remaining() == r.value.Entries()
  {
    var f := OpenFileBytes(foreign, file);
    if f.Failure? {
      return Failure(f.error);
    }
    var entries := ReadDataBlocks(foreign, file, f.value.footer, f.value.index);
    if entries.Failure? {
      return Failure(entries.error);
    }
    var source := FillSource(entries.value);
    r := Success(source);
  }
}
