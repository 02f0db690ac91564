/**
 The 5-byte trailer of a block on disk: compression byte and checksum. The hash functions and the
 codecs are foreign code and stand here as parameters.
 */
module BlockTrailer {
  import opened Wrappers
  import opened ByteStrings
  import opened Varint
  import opened Blocks
  import opened IndexBlock

  datatype ChecksumType = NoChecksum | Crc32c | XxHash | XxHash64 | XxH3 {
    function ToByte(): byte {
      match this
      case NoChecksum => 0x0
      case Crc32c => 0x1
      case XxHash => 0x2
      case XxHash64 => 0x3
      case XxH3 => 0x4
    }
  }

  function ChecksumTypeFromByte(b: byte): Option<ChecksumType> {
    if b == 0x0 then Some(NoChecksum)
    else if b == 0x1 then Some(Crc32c)
    else if b == 0x2 then Some(XxHash)
    else if b == 0x3 then Some(XxHash64)
    else if b == 0x4 then Some(XxH3)
    else None
  }

  datatype CompressionType = NoCompression | Snappy | Zlib | BZip2 | Lz4 | Lz4Hc | Xpress | Zstd

  function CompressionTypeFromByte(b: byte): Option<CompressionType> {
    if b == 0x0 then Some(NoCompression)
    else if b == 0x1 then Some(Snappy)
    else if b == 0x2 then Some(Zlib)
    else if b == 0x3 then Some(BZip2)
    else if b == 0x4 then Some(Lz4)
    else if b == 0x5 then Some(Lz4Hc)
    else if b == 0x6 then Some(Xpress)
    else if b == 0x7 then Some(Zstd)
    else None
  }

  // Hashes of a block with its compression byte, hashes of the footer, and the codecs: one that knows its own
  // length, and two that are told it.
  datatype Foreign = Foreign(
    blockHash: (ChecksumType, Bytes, byte) -> u32,
    plainHash: (ChecksumType, Bytes) -> u32,
    unsnappy: Bytes -> Option<Bytes>,
    unlz4: (Bytes, nat) -> Option<Bytes>,
    unzstd: (Bytes, nat) -> Option<Bytes>)

  function BlockChecksum(foreign: Foreign, ty: ChecksumType, data: Bytes, lastByte: byte): u32 {
    if ty == NoChecksum then 0 else foreign.blockHash(ty, data, lastByte)
  }

  // ----- The context modifier

  // The offset's two halves, added with wrap-around.
  function FoldOffset(offset: u64): u32 {
    (offset % U32_LIMIT + offset / U32_LIMIT) % U32_LIMIT
  }

  function ChecksumModifierForContext(base: u32, offset: u64): u32 {
    XorBound(base, FoldOffset(offset), 32);
    Pow2Values();
    if base == 0 then 0 else Xor(base, FoldOffset(offset), 32)
  }

  // Bit by bit, the modifier is the base exclusive-or the offset's two halves added up.
  lemma ModifierBits(base: u32, offset: u64, i: nat)
    requires base != 0 && i < 32
    ensures Bit(ChecksumModifierForContext(base, offset), i) == 1 <==>
            Bit(base, i) != Bit((offset % 0x1_0000_0000 + offset / 0x1_0000_0000) % 0x1_0000_0000, i)
  {
    XorBits(base, FoldOffset(offset), 32, i);
  }

  // Two offsets get the same modifier exactly when the feature is off or their halves add up alike.
  lemma ModifierDistinguishes(base: u32, a: u64, b: u64)
    ensures ChecksumModifierForContext(base, a) == ChecksumModifierForContext(base, b) <==>
            base == 0 || (a % 0x1_0000_0000 + a / 0x1_0000_0000) % 0x1_0000_0000 ==
                         (b % 0x1_0000_0000 + b / 0x1_0000_0000) % 0x1_0000_0000
  {
    if base != 0 && ChecksumModifierForContext(base, a) == ChecksumModifierForContext(base, b) {
      Pow2Values();
      XorInjective(base, FoldOffset(a), FoldOffset(b), 32);
    }
  }

  // Within 4 GiB, where the writer stays, moving a block always changes its modifier.
  lemma SmallOffsetsDistinguished(base: u32, a: u32, b: u32)
    requires base != 0
    ensures ChecksumModifierForContext(base, a) == ChecksumModifierForContext(base, b) <==> a == b
  {
    FoldSmall(a);
    FoldSmall(b);
    ModifierDistinguishes(base, a, b);
  }

  lemma FoldSmall(a: u32)
    ensures FoldOffset(a) == a
  {
    assert a / U32_LIMIT == 0 && a % U32_LIMIT == a;
  }

  // Beyond it need not: a block moved from offset 1 to offset 2^32 keeps its modifier,
  // whatever the base.
  lemma MovedBlockCollides(base: u32)
    ensures ChecksumModifierForContext(base, 1) == ChecksumModifierForContext(base, U32_LIMIT)
  {
    ModifierDistinguishes(base, 1, U32_LIMIT);
  }

  function WrappingAdd(a: u32, b: u32): u32 {
    (a + b) % U32_LIMIT
  }

  // ----- Writing and reading a block with its trailer

  function StoredChecksum(foreign: Foreign, ty: ChecksumType, base: u32, raw: Bytes, lastByte: byte, offset: u64): u32 {
    WrappingAdd(BlockChecksum(foreign, ty, raw, lastByte), ChecksumModifierForContext(base, offset))
  }

  function EncodeBlockWithTrailer(foreign: Foreign, raw: Bytes, offset: u64, ty: ChecksumType, base: u32): (b: Bytes)
    ensures |b| == |raw| + BLOCK_TRAILER_SIZE
  {
    raw + [0] + LittleEndian(StoredChecksum(foreign, ty, base, raw, 0, offset), 4)
  }

  function Unpacked(data: Option<Bytes>, failed: string): Result<Bytes> {
    match data
    case Some(plain) => Success(plain)
    case None => Failure(failed)
  }

  // The uncompressed size in front of a payload.
  function SplitUncompressedSizePrefix(data: Bytes): Result<(nat, Bytes)> {
    match Varint64At(data, 0)
    case None => Failure("failed to read uncompressed-size prefix")
    case Some((size, pos)) => Success((size, data[pos..]))
  }

  function Decompress(foreign: Foreign, ty: CompressionType, data: Bytes): Result<Bytes> {
    match ty
    case NoCompression => Success(data)
    case Snappy => Unpacked(foreign.unsnappy(data), "snappy decompress failed")
    case Lz4 | Lz4Hc =>
      (var sized :- SplitUncompressedSizePrefix(data);
       Unpacked(foreign.unlz4(sized.1, sized.0), "lz4 decompress failed"))
    case Zstd =>
      (var sized :- SplitUncompressedSizePrefix(data);
       Unpacked(foreign.unzstd(sized.1, sized.0), "zstd decompress failed"))
    case _ => Failure("compression type not yet supported")
  }

  function ByCodec(foreign: Foreign, compByte: byte, raw: Bytes): Result<Bytes> {
    match CompressionTypeFromByte(compByte)
    case None => Failure("unsupported/unknown compression type byte")
    case Some(compression) => Decompress(foreign, compression, raw)
  }

  function DecodeBlockContents(foreign: Foreign, rawWithTrailer: Bytes, handle: BlockHandle, ty: ChecksumType, base: u32)
    : Result<Bytes>
  {
    var rawLen: nat := handle.size;
    if |rawWithTrailer| != rawLen + BLOCK_TRAILER_SIZE then Failure("block buffer wrong size")
    else
      var raw := rawWithTrailer[..rawLen];
      var compByte := rawWithTrailer[rawLen];
      var stored := U32At(rawWithTrailer, rawLen + 1);
      if ty != NoChecksum && StoredChecksum(foreign, ty, base, raw, compByte, handle.offset) != stored
      then Failure("block checksum mismatch")
      else
        ByCodec(foreign, compByte, raw)
  }

  lemma TrailerParts(foreign: Foreign, raw: Bytes, ty: ChecksumType, base: u32, offset: u64)
    ensures var all := EncodeBlockWithTrailer(foreign, raw, offset, ty, base);
            all[..|raw|] == raw && all[|raw|] == 0 &&
            U32At(all, |raw| + 1) == StoredChecksum(foreign, ty, base, raw, 0, offset)
  {
    var checksum := StoredChecksum(foreign, ty, base, raw, 0, offset);
    var all := EncodeBlockWithTrailer(foreign, raw, offset, ty, base);
    assert all == (raw + [0]) + LittleEndian(checksum, 4) + [];
    AtConcat(raw + [0], LittleEndian(checksum, 4), []);
    U32AtEncoded(all, |raw| + 1, checksum);
  }

  // The field behind the compression byte holds the foreign hash of exactly these bytes, shifted by the modifier.
  lemma StoredField(foreign: Foreign, raw: Bytes, ty: ChecksumType, base: u32, offset: u64)
    ensures var all := EncodeBlockWithTrailer(foreign, raw, offset, ty, base);
            |all| == |raw| + 5 && all[..|raw|] == raw && all[|raw|] == 0 &&
            FromLittleEndian(all[|raw| + 1..]) ==
              ((if ty == NoChecksum then 0 else foreign.blockHash(ty, raw, 0)) + ChecksumModifierForContext(base, offset))
              % 0x1_0000_0000
  {
    TrailerParts(foreign, raw, ty, base, offset);
    var all := EncodeBlockWithTrailer(foreign, raw, offset, ty, base);
    assert all[|raw| + 1..|raw| + 5] == all[|raw| + 1..];
  }

  lemma WrappingAddInjective(a: u32, x: u32, y: u32)
    ensures WrappingAdd(a, x) == WrappingAdd(a, y) <==> x == y
    ensures WrappingAdd(x, a) == WrappingAdd(y, a) <==> x == y
  {
  }

  lemma CodecFailsOtherwise(foreign: Foreign, cb: byte, data: Bytes)
    ensures ByCodec(foreign, cb, data) != Failure("block checksum mismatch")
  {
    var d := ByCodec(foreign, cb, data);
    assert d.Failure? ==> d.error[0] != 'b';
  }

  // The block with other contents and another compression byte in front of the checksum it was stored with.
  function Overwritten(foreign: Foreign, raw: Bytes, ty: ChecksumType, base: u32, offset: u64, raw2: Bytes, cb: byte): (b: Bytes)
    requires |raw2| == |raw|
    ensures |b| == |raw| + 5
  {
    raw2 + [cb] + EncodeBlockWithTrailer(foreign, raw, offset, ty, base)[|raw| + 1..]
  }

  lemma OverwrittenParts(foreign: Foreign, raw: Bytes, ty: ChecksumType, base: u32, offset: u64, raw2: Bytes, cb: byte)
    requires |raw2| == |raw|
    ensures var all := Overwritten(foreign, raw, ty, base, offset, raw2, cb);
            all[..|raw|] == raw2 && all[|raw|] == cb &&
            U32At(all, |raw| + 1) == StoredChecksum(foreign, ty, base, raw, 0, offset)
  {
    TrailerParts(foreign, raw, ty, base, offset);
    var before := EncodeBlockWithTrailer(foreign, raw, offset, ty, base);
    var all := Overwritten(foreign, raw, ty, base, offset, raw2, cb);
    assert all[|raw| + 1..|raw| + 5] == before[|raw| + 1..] == before[|raw| + 1..|raw| + 5];
  }

  // Whatever is put in front of a stored checksum is refused for it exactly when it hashes differently, so data
  // and compression byte are both covered; otherwise it is taken as its compression byte says.
  lemma ChecksumCovers(foreign: Foreign, raw: Bytes, ty: ChecksumType, base: u32, handle: BlockHandle, raw2: Bytes, cb: byte)
    requires ty != NoChecksum && handle.size == |raw| == |raw2|
    ensures var decoded := DecodeBlockContents(foreign, Overwritten(foreign, raw, ty, base, handle.offset, raw2, cb), handle,
                                           ty, base);
            (decoded == Failure("block checksum mismatch") <==> foreign.blockHash(ty, raw2, cb) != foreign.blockHash(ty, raw, 0)) &&
            (foreign.blockHash(ty, raw2, cb) == foreign.blockHash(ty, raw, 0) ==> decoded == ByCodec(foreign, cb, raw2))
  {
    OverwrittenParts(foreign, raw, ty, base, handle.offset, raw2, cb);
    WrappingAddInjective(ChecksumModifierForContext(base, handle.offset), foreign.blockHash(ty, raw2, cb), foreign.blockHash(ty, raw, 0));
    CodecFailsOtherwise(foreign, cb, raw2);
  }

  // What a block turns into, by the number of its codec.
  lemma CodecByByte(foreign: Foreign, cb: byte, raw: Bytes)
    ensures cb == 0 ==> ByCodec(foreign, cb, raw) == Success(raw)
    ensures cb == 1 ==> ByCodec(foreign, cb, raw) == Unpacked(foreign.unsnappy(raw), "snappy decompress failed")
    ensures (cb == 4 || cb == 5 || cb == 7) && Varint64At(raw, 0).None? ==>
              ByCodec(foreign, cb, raw) == Failure("failed to read uncompressed-size prefix")
    ensures (cb == 4 || cb == 5) && Varint64At(raw, 0).Some? ==>
              var (size, pos) := Varint64At(raw, 0).value;
              ByCodec(foreign, cb, raw) == Unpacked(foreign.unlz4(raw[pos..], size), "lz4 decompress failed")
    ensures cb == 7 && Varint64At(raw, 0).Some? ==>
              var (size, pos) := Varint64At(raw, 0).value;
              ByCodec(foreign, cb, raw) == Unpacked(foreign.unzstd(raw[pos..], size), "zstd decompress failed")
    ensures cb == 2 || cb == 3 || cb == 6 ==> ByCodec(foreign, cb, raw) == Failure("compression type not yet supported")
    ensures cb > 7 ==> ByCodec(foreign, cb, raw) == Failure("unsupported/unknown compression type byte")
  {
  }

  // Reading a block where it was written gives it back; reading it with any other offset fails, unless
  // the checksum is off or cannot tell the two offsets apart.
  lemma TrailerRoundTrip(foreign: Foreign, raw: Bytes, ty: ChecksumType, base: u32, written: u64, handle: BlockHandle)
    requires handle.size == |raw|
    ensures var decoded := DecodeBlockContents(foreign, EncodeBlockWithTrailer(foreign, raw, written, ty, base), handle, ty, base);
            if ty == NoChecksum || base == 0 || FoldOffset(written) == FoldOffset(handle.offset)
            then decoded == Success(raw) else decoded.Failure?
  {
    TrailerParts(foreign, raw, ty, base, written);
    WrappingAddInjective(BlockChecksum(foreign, ty, raw, 0), ChecksumModifierForContext(base, written),
                         ChecksumModifierForContext(base, handle.offset));
    ModifierDistinguishes(base, written, handle.offset);
  }
}
