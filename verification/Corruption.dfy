/** Bytes of a data block changed behind the writer's back: the checksum decides whether the file still loads. */
module Corruption {
  import opened Wrappers
  import opened ByteStrings
  import opened InternalKeys
  import opened Lists
  import opened Varint
  import opened Blocks
  import opened BlockTrailer
  import opened Footer
  import opened SstBuilder
  import opened SstLoader
  import I = IndexBlock

  // `file` with the bytes from `at` on replaced.
  function Tampered(file: Bytes, at: nat, bytes: Bytes): (r: Bytes)
    requires at + |bytes| <= |file|
    ensures |r| == |file|
  {
    file[..at] + bytes + file[at + |bytes|..]
  }

  ghost predicate SameOutside(file: Bytes, file': Bytes, at: nat, end: nat) {
    |file| == |file'| && forall i :: 0 <= i < |file| && (i < at || end <= i) ==> file[i] == file'[i]
  }

  lemma TamperedOutside(file: Bytes, at: nat, bytes: Bytes)
    requires at + |bytes| <= |file|
    ensures SameOutside(file, Tampered(file, at, bytes), at, at + |bytes|)
  {
  }

  lemma SliceSame(file: Bytes, file': Bytes, at: nat, end: nat, lo: nat, hi: nat)
    requires SameOutside(file, file', at, end) && lo <= hi <= |file| && (hi <= at || end <= lo)
    ensures file[lo..hi] == file'[lo..hi]
  {
  }

  // A block that keeps clear of the change reads as before.
  lemma ReadsSame(foreign: Foreign, file: Bytes, file': Bytes, at: nat, end: nat, ft: FileFooter, h: I.BlockHandle)
    requires SameOutside(file, file', at, end) && (h.offset + h.size + 5 <= at || end <= h.offset)
    ensures ReadBlock(foreign, file', ft, h) == ReadBlock(foreign, file, ft, h)
  {
    if h.offset + h.size + 5 <= |file| {
      SliceSame(file, file', at, end, h.offset, h.offset + h.size + 5);
    }
  }

  lemma TailSame(file: Bytes, file': Bytes, at: nat, end: nat)
    requires FOOTER_LEN <= |file| && SameOutside(file, file', at, end) && end <= |file| - FOOTER_LEN
    ensures file[|file| - FOOTER_LEN..] == file'[|file'| - FOOTER_LEN..]
  {
    SliceSame(file, file', at, end, |file| - FOOTER_LEN, |file|);
  }

  lemma IndexHandleSame(foreign: Foreign, file: Bytes, file': Bytes, ft: FileFooter)
    requires ReadBlock(foreign, file', ft, ft.metaindexHandle) == ReadBlock(foreign, file, ft, ft.metaindexHandle)
    ensures IndexHandleOf(foreign, file', ft) == IndexHandleOf(foreign, file, ft)
  {
  }

  lemma OpenSteps(foreign: Foreign, file: Bytes, ft: FileFooter, h: I.BlockHandle)
    requires FOOTER_LEN <= |file| < U64_LIMIT
    requires DecodeFooter(foreign, file[|file| - FOOTER_LEN..], |file|) == Success(ft)
    requires IndexHandleOf(foreign, file, ft) == Success(h)
    ensures Open(foreign, file) == IndexFrom(ft, ReadBlock(foreign, file, ft, h))
  {
  }

  // What opening makes of the index block's bytes.
  ghost function IndexFrom(ft: FileFooter, raw: Result<Bytes>): Result<OpenFile> {
    var bytes :- raw;
    var block :- ParseBlock(bytes);
    var entries :- I.IndexEntries(block);
    Success(OpenFile(ft, entries))
  }

  // Everything behind the data blocks reads as before.
  lemma OpensSame(foreign: Foreign, file: Bytes, file': Bytes, at: nat, end: nat, ft: FileFooter, h: I.BlockHandle)
    requires FOOTER_LEN <= |file| < U64_LIMIT && SameOutside(file, file', at, end) && end <= |file| - FOOTER_LEN
    requires DecodeFooter(foreign, file[|file| - FOOTER_LEN..], |file|) == Success(ft)
    requires IndexHandleOf(foreign, file, ft) == Success(h)
    requires end <= ft.metaindexHandle.offset && end <= h.offset
    ensures Open(foreign, file') == Open(foreign, file)
  {
    TailSame(file, file', at, end);
    ReadsSame(foreign, file, file', at, end, ft, ft.metaindexHandle);
    ReadsSame(foreign, file, file', at, end, ft, h);
    IndexHandleSame(foreign, file, file', ft);
    OpenSteps(foreign, file, ft, h);
    OpenSteps(foreign, file', ft, h);
  }

  lemma {:induction false} FailsAt(foreign: Foreign, file: Bytes, ft: FileFooter, index: seq<I.IndexEntry>,
                                   j: nat, k: nat, error: string)
    requires k <= j < |index| && ReadEntries(foreign, file, ft, index[j].handle) == Failure(error)
    requires forall i :: 0 <= i < j ==> ReadEntries(foreign, file, ft, index[i].handle).Success?
    ensures ReadAll(foreign, file, ft, index[k..]) == Failure(error)
    decreases j - k
  {
    SuffixCons(index, k);
    if k < j {
      FailsAt(foreign, file, ft, index, j, k + 1, error);
    }
  }

  lemma TamperedSlice(file: Bytes, pre: Bytes, block: Bytes, bytes: Bytes)
    requires pre + block <= file && |bytes| <= |block|
    ensures Tampered(file, |pre|, bytes)[|pre|..|pre| + |block|] == bytes + block[|bytes|..]
  {
    AtInPrefix(file, pre, block);
  }

  // The changed block itself is refused exactly when its hash changed.
  lemma TamperedBlock(opts: SstBuilderOptions, file: Bytes, ft: FileFooter, pre: Bytes, raw: Bytes, raw2: Bytes, cb: byte)
    requires pre + WithTrailer(opts, raw, |pre|) <= file && |file| < U32_LIMIT && |raw2| == |raw|
    requires ft.checksumType == opts.checksumType != NoChecksum && ft.baseContextChecksum == opts.baseContextChecksum
    ensures ReadBlock(opts.foreign, Tampered(file, |pre|, raw2 + [cb]), ft, HandleOf(|pre|, raw)) ==
              Failure("block checksum mismatch") <==>
            opts.foreign.blockHash(opts.checksumType, raw2, cb) != opts.foreign.blockHash(opts.checksumType, raw, 0)
  {
    var h := HandleOf(|pre|, raw);
    HandleKeeps(|pre|, raw);
    I.WrapKeeps(|pre|);
    TamperedSlice(file, pre, WithTrailer(opts, raw, |pre|), raw2 + [cb]);
    ChecksumCovers(opts.foreign, raw, opts.checksumType, opts.baseContextChecksum, h, raw2, cb);
  }

  lemma BlocksBeforeRead(opts: SstBuilderOptions, es: seq<Entry>, file': Bytes, j: nat, at: nat, end: nat, i: nat)
    requires FileFits(opts, es) && i < j < |DataBlocks(es)| && NonEmpty(DataBlocks(es))
    requires at == |DataBytes(opts, DataBlocks(es)[..j])| && SameOutside(FileBytes(opts, es), file', at, end)
    ensures ReadEntries(opts.foreign, file', FooterOf(opts, es), IndexOf(opts, DataBlocks(es))[i].handle).Success?
  {
    var bs, h := DataBlocks(es), IndexOf(opts, DataBlocks(es))[i].handle;
    BlockReads(opts, es, i);
    PartsFit(opts, es);
    BlockEndsBefore(opts, bs, i, j);
    ReadsSame(opts.foreign, FileBytes(opts, es), file', at, end, FooterOf(opts, es), h);
  }

  lemma BlockEndsBefore(opts: SstBuilderOptions, bs: seq<seq<Entry>>, i: nat, j: nat)
    requires NonEmpty(bs) && i < j < |bs| && |DataBytes(opts, bs)| < U32_LIMIT
    ensures var h := IndexOf(opts, bs)[i].handle; h.offset + h.size + 5 <= |DataBytes(opts, bs[..j])|
  {
    var front := bs[..j];
    assert NonEmpty(front) && front[i] == bs[i] && front[..i] == bs[..i];
    WrittenPrefix(opts, bs, j);
    HandleStandsAt(opts, front, i, |DataBytes(opts, bs[..i])|);
    HandleStandsAt(opts, bs, i, |DataBytes(opts, bs[..i])|);
    HandleKeeps(|DataBytes(opts, bs[..i])|, RawBlock(bs[i]));
  }

  lemma BlocksBehindStand(opts: SstBuilderOptions, es: seq<Entry>)
    requires |FileBytes(opts, es)| < U32_LIMIT
    ensures |DataPart(opts, es)| <= FooterOf(opts, es).metaindexHandle.offset
    ensures |DataPart(opts, es)| == HandleOf(|DataPart(opts, es)|, IndexRaw(opts, es)).offset
    ensures |DataPart(opts, es)| + FOOTER_LEN <= |FileBytes(opts, es)|
  {
    PartsFit(opts, es);
    HandleKeeps(|DataPart(opts, es)|, IndexRaw(opts, es));
    HandleKeeps(|UpToProperties(opts, es)|, MetaindexRaw(opts, es));
    TailIsFooter(opts, es);
  }

  lemma StillOpens(opts: SstBuilderOptions, es: seq<Entry>, file': Bytes, at: nat, end: nat)
    requires FileFits(opts, es) && SameOutside(FileBytes(opts, es), file', at, end) && end <= |DataPart(opts, es)|
    ensures FOOTER_LEN <= |file'| < U64_LIMIT && NonEmpty(DataBlocks(es))
    ensures Open(opts.foreign, file') == Success(OpenFile(FooterOf(opts, es), IndexOf(opts, DataBlocks(es))))
  {
    IndexReads(opts, es);
    BlocksBehindStand(opts, es);
    FooterReads(opts, es);
    IndexHandleReads(opts, es);
    OpensSame(opts.foreign, FileBytes(opts, es), file', at, end, FooterOf(opts, es),
              HandleOf(|DataPart(opts, es)|, IndexRaw(opts, es)));
  }

  lemma StandsInFile(opts: SstBuilderOptions, es: seq<Entry>, j: nat, pre: Bytes, raw: Bytes)
    requires j < |DataBlocks(es)| && pre == DataBytes(opts, DataBlocks(es)[..j]) && raw == RawBlock(DataBlocks(es)[j])
    ensures NonEmpty(DataBlocks(es)) && IndexOf(opts, DataBlocks(es))[j].handle == HandleOf(|pre|, raw)
    ensures pre + WithTrailer(opts, raw, |pre|) <= FileBytes(opts, es)
    ensures |pre| + |raw| + 5 <= |DataPart(opts, es)|
  {
    DataBlocksKeepEntries(es);
    BlockStandsAt(opts, DataBlocks(es), j);
    PartsArePrefixes(opts, es);
    PrefixTransitive(pre + WithTrailer(opts, raw, |pre|), DataPart(opts, es), FileBytes(opts, es));
  }

  // If block j is refused and nothing else was touched, loading stops there.
  lemma LoadStops(opts: SstBuilderOptions, es: seq<Entry>, file': Bytes, at: nat, end: nat, j: nat, error: string)
    requires FileFits(opts, es) && j < |DataBlocks(es)| && NonEmpty(DataBlocks(es))
    requires at == |DataBytes(opts, DataBlocks(es)[..j])| && end <= |DataPart(opts, es)|
    requires SameOutside(FileBytes(opts, es), file', at, end)
    requires ReadBlock(opts.foreign, file', FooterOf(opts, es), IndexOf(opts, DataBlocks(es))[j].handle) == Failure(error)
    ensures FOOTER_LEN <= |file'| < U64_LIMIT && LoadFile(opts.foreign, file') == Failure(error)
  {
    var ft, index := FooterOf(opts, es), IndexOf(opts, DataBlocks(es));
    StillOpens(opts, es, file', at, end);
    forall i | 0 <= i < j ensures ReadEntries(opts.foreign, file', ft, index[i].handle).Success? {
      BlocksBeforeRead(opts, es, file', j, at, end, i);
    }
    FailsAt(opts.foreign, file', ft, index, j, 0, error);
    assert index[0..] == index;
  }

  // Change the contents of any data block, its compression byte, or both: if the hash changes with them, loading
  // the file stops there.
  lemma CorruptBlockRefused(opts: SstBuilderOptions, es: seq<Entry>, j: nat, pre: Bytes, raw: Bytes, raw2: Bytes, cb: byte)
    requires FileFits(opts, es) && opts.checksumType != NoChecksum && j < |DataBlocks(es)|
    requires pre == DataBytes(opts, DataBlocks(es)[..j]) && raw == RawBlock(DataBlocks(es)[j]) && |raw2| == |raw|
    requires opts.foreign.blockHash(opts.checksumType, raw2, cb) != opts.foreign.blockHash(opts.checksumType, raw, 0)
    ensures |pre| + |raw2 + [cb]| <= |FileBytes(opts, es)|
    ensures var file' := Tampered(FileBytes(opts, es), |pre|, raw2 + [cb]);
            FOOTER_LEN <= |file'| < U64_LIMIT && LoadFile(opts.foreign, file') == Failure("block checksum mismatch")
  {
    StandsInFile(opts, es, j, pre, raw);
    TamperedOutside(FileBytes(opts, es), |pre|, raw2 + [cb]);
    TamperedBlock(opts, FileBytes(opts, es), FooterOf(opts, es), pre, raw, raw2, cb);
    LoadStops(opts, es, Tampered(FileBytes(opts, es), |pre|, raw2 + [cb]), |pre|, |pre| + |raw2 + [cb]|, j,
              "block checksum mismatch");
  }
}
