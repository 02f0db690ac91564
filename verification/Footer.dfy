/** The footer: the last 53 bytes of a file, through which the metaindex block is found. */
module Footer {
  import opened Wrappers
  import opened ByteStrings
  import opened Varint
  import opened Blocks
  import opened IndexBlock
  import opened BlockTrailer

  const BLOCK_BASED_TABLE_MAGIC: u64 := 0x88e2_41b7_85f4_cff7
  const EXTENDED_MAGIC: Bytes := [0x3e, 0x00, 0x7a, 0x00]
  const FOOTER_LEN := 53
  const FOOTER_MAGIC_POS := 45
  const CHECKSUM_FIELD_POS := 5

  function Zeros(n: nat): (b: Bytes)
    ensures |b| == n && forall i :: 0 <= i < n ==> b[i] == 0
  {
    if n == 0 then [] else [0] + Zeros(n - 1)
  }

  datatype FileFooter = FileFooter(
    tableMagicNumber: u64, formatVersion: u32, checksumType: ChecksumType,
    metaindexHandle: BlockHandle, indexHandle: Option<BlockHandle>, baseContextChecksum: u32)

  function PlainChecksum(foreign: Foreign, ty: ChecksumType, data: Bytes): u32 {
    if ty == NoChecksum then 0 else foreign.plainHash(ty, data)
  }

  // The fields in order; `checksum` is zero while the checksum itself is computed.
  function FooterFields(version: u32, ty: ChecksumType, checksum: u32, metaindexSize: u32, base: u32): (b: Bytes)
    ensures |b| == FOOTER_LEN
  {
    [ty.ToByte()] + EXTENDED_MAGIC + LittleEndian(checksum, 4) + LittleEndian(base, 4) + LittleEndian(metaindexSize, 4)
    + Zeros(24) + LittleEndian(version, 4) + LittleEndian(BLOCK_BASED_TABLE_MAGIC, 8)
  }

  function FooterChecksum(foreign: Foreign, ty: ChecksumType, zeroed: Bytes, base: u32, footerOffset: u64): u32 {
    WrappingAdd(PlainChecksum(foreign, ty, zeroed), ChecksumModifierForContext(base, footerOffset))
  }

  function FooterBytes(foreign: Foreign, version: u32, ty: ChecksumType, metaindexSize: u32, base: u32, footerOffset: u64): (b: Bytes)
    ensures |b| == FOOTER_LEN
  {
    var checksum := FooterChecksum(foreign, ty, FooterFields(version, ty, 0, metaindexSize, base), base, footerOffset);
    FooterFields(version, ty, checksum, metaindexSize, base)
  }

  // `b` with the four bytes of the checksum field replaced.
  function PatchChecksum(b: Bytes, field: Bytes): Bytes
    requires |b| >= CHECKSUM_FIELD_POS + 4 && |field| == 4
  {
    b[..CHECKSUM_FIELD_POS] + field + b[CHECKSUM_FIELD_POS + 4..]
  }

  // The requires are the program's own assertion and its 4 GiB limit on the metaindex.
  method EncodeFooterV6Plus(foreign: Foreign, version: u32, ty: ChecksumType, metaindexHandle: BlockHandle,
                            base: u32, footerOffset: u64) returns (buf: Bytes)
    requires version >= 6 && metaindexHandle.size < U32_LIMIT
    ensures buf == FooterBytes(foreign, version, ty, metaindexHandle.size, base, footerOffset)
  {
    buf := [ty.ToByte()];
    buf := buf + EXTENDED_MAGIC;
    buf := buf + LittleEndian(0, 4);
    buf := buf + LittleEndian(base, 4);
    buf := buf + LittleEndian(metaindexHandle.size, 4);
    buf := buf + Zeros(24);
    buf := buf + LittleEndian(version, 4);
    buf := buf + LittleEndian(BLOCK_BASED_TABLE_MAGIC, 8);
    var checksum := FooterChecksum(foreign, ty, buf, base, footerOffset);
    buf := PatchChecksum(buf, LittleEndian(checksum, 4));
    PatchedFields(version, ty, 0, checksum, metaindexHandle.size, base);
  }

  lemma PatchAt(head: Bytes, before: Bytes, after: Bytes, rest: Bytes)
    requires |head| == CHECKSUM_FIELD_POS && |before| == |after| == 4
    ensures PatchChecksum(head + before + rest, after) == head + after + rest
  {
  }

  function FieldsBefore(ty: ChecksumType): Bytes {
    [ty.ToByte()] + EXTENDED_MAGIC
  }

  function FieldsAfter(version: u32, metaindexSize: u32, base: u32): Bytes {
    LittleEndian(base, 4) + LittleEndian(metaindexSize, 4) + Zeros(24) + LittleEndian(version, 4)
    + LittleEndian(BLOCK_BASED_TABLE_MAGIC, 8)
  }

  // Where the fields stand, whatever they hold.
  lemma FieldSlices(ty: byte, magic: Bytes, checksum: Bytes, base: Bytes, size: Bytes, zeros: Bytes, version: Bytes, end: Bytes)
    requires |magic| == |checksum| == |base| == |size| == |version| == 4 && |zeros| == 24 && |end| == 8
    ensures var b := [ty] + magic + checksum + base + size + zeros + version + end;
            |b| == FOOTER_LEN && b[0] == ty && b[1..5] == magic && b[5..9] == checksum && b[9..13] == base &&
            b[13..17] == size && b[33..41] == zeros[16..] && b[41..45] == version && b[45..53] == end &&
            b == ([ty] + magic) + checksum + (base + size + zeros + version + end)
  {
  }

  lemma FieldsAround(version: u32, ty: ChecksumType, checksum: u32, metaindexSize: u32, base: u32)
    ensures FooterFields(version, ty, checksum, metaindexSize, base) ==
            FieldsBefore(ty) + LittleEndian(checksum, 4) + FieldsAfter(version, metaindexSize, base)
  {
    FieldSlices(ty.ToByte(), EXTENDED_MAGIC, LittleEndian(checksum, 4), LittleEndian(base, 4), LittleEndian(metaindexSize, 4),
                Zeros(24), LittleEndian(version, 4), LittleEndian(BLOCK_BASED_TABLE_MAGIC, 8));
  }

  lemma PatchedFields(version: u32, ty: ChecksumType, before: u32, after: u32, metaindexSize: u32, base: u32)
    ensures PatchChecksum(FooterFields(version, ty, before, metaindexSize, base), LittleEndian(after, 4)) ==
            FooterFields(version, ty, after, metaindexSize, base)
  {
    FieldsAround(version, ty, before, metaindexSize, base);
    FieldsAround(version, ty, after, metaindexSize, base);
    PatchAt(FieldsBefore(ty), LittleEndian(before, 4), LittleEndian(after, 4), FieldsAfter(version, metaindexSize, base));
  }

  // ----- Reading

  function U64At(b: Bytes, pos: nat): u64
    requires pos + 8 <= |b|
  {
    FromLittleEndianBound(b[pos..pos + 8]);
    Pow256Values();
    FromLittleEndian(b[pos..pos + 8])
  }

  // Offset and size, one varint after the other.
  function HandleAt(b: Bytes, pos: nat): Option<(BlockHandle, nat)> {
    match DecodeFullHandle(b, pos)
    case Success(step) => Some((step.handle, step.next))
    case Failure(_) => None
  }

  // The trailer and the metaindex block end where the footer starts; subtraction wraps as u64 does.
  function MetaindexBefore(footerOffset: u64, size: u32): BlockHandle {
    BlockHandle(WrapU64(WrapU64(footerOffset - BLOCK_TRAILER_SIZE) - size), size)
  }

  function DecodeNewFooter(foreign: Foreign, tail: Bytes, version: u32, ty: ChecksumType, footerOffset: u64): Result<FileFooter>
    requires |tail| >= FOOTER_LEN
  {
    if tail[1..5] != EXTENDED_MAGIC then Failure("bad extended magic number")
    else
      var stored, base, metaindexSize := U32At(tail, 5), U32At(tail, 9), U32At(tail, 13);
      var zeroed := PatchChecksum(tail, [0, 0, 0, 0]);
      if ty != NoChecksum && FooterChecksum(foreign, ty, zeroed, base, footerOffset) != stored
      then Failure("footer checksum mismatch")
      else if U64At(tail, 33) != 0 then Failure("file uses a future feature not supported by this reader")
      else Success(FileFooter(BLOCK_BASED_TABLE_MAGIC, version, ty, MetaindexBefore(footerOffset, metaindexSize), None, base))
  }

  function DecodeOldFooter(part2: Bytes, version: u32, ty: ChecksumType): Result<FileFooter> {
    match HandleAt(part2, 0)
    case None => Failure("failed to decode metaindex handle")
    case Some((metaindex, p)) =>
      match HandleAt(part2, p)
      case None => Failure("failed to decode index handle")
      case Some((index, _)) => Success(FileFooter(BLOCK_BASED_TABLE_MAGIC, version, ty, metaindex, Some(index), 0))
  }

  function DecodeFooter(foreign: Foreign, tail: Bytes, fileSize: u64): Result<FileFooter> {
    if |tail| < FOOTER_LEN then Failure("footer tail shorter than minimum encoded length")
    else
      var magicPos := |tail| - 8;
      if U64At(tail, magicPos) != BLOCK_BASED_TABLE_MAGIC then Failure("unsupported/unknown table magic number")
      else
        var version := U32At(tail, magicPos - 4);
        if !(2 <= version <= 7) then Failure("unsupported format_version")
        else
          match ChecksumTypeFromByte(tail[0])
          case None => Failure("unsupported checksum type byte")
          case Some(ty) =>
            if version >= 6 then DecodeNewFooter(foreign, tail, version, ty, WrapU64(fileSize - FOOTER_LEN))
            else DecodeOldFooter(tail[1..magicPos - 4], version, ty)
  }

  // ----- Reading undoes writing

  lemma FooterFieldsAt(version: u32, ty: ChecksumType, checksum: u32, metaindexSize: u32, base: u32)
    ensures var b := FooterFields(version, ty, checksum, metaindexSize, base);
            b[0] == ty.ToByte() && b[1..5] == EXTENDED_MAGIC &&
            U32At(b, 5) == checksum && U32At(b, 9) == base && U32At(b, 13) == metaindexSize && U32At(b, 41) == version
  {
    FieldSlices(ty.ToByte(), EXTENDED_MAGIC, LittleEndian(checksum, 4), LittleEndian(base, 4), LittleEndian(metaindexSize, 4),
                Zeros(24), LittleEndian(version, 4), LittleEndian(BLOCK_BASED_TABLE_MAGIC, 8));
    U32RoundTrip(checksum);
    U32RoundTrip(base);
    U32RoundTrip(metaindexSize);
    U32RoundTrip(version);
  }

  lemma FooterEndAt(version: u32, ty: ChecksumType, checksum: u32, metaindexSize: u32, base: u32)
    ensures var b := FooterFields(version, ty, checksum, metaindexSize, base);
            U64At(b, 33) == 0 && U64At(b, FOOTER_MAGIC_POS) == BLOCK_BASED_TABLE_MAGIC
  {
    FieldSlices(ty.ToByte(), EXTENDED_MAGIC, LittleEndian(checksum, 4), LittleEndian(base, 4), LittleEndian(metaindexSize, 4),
                Zeros(24), LittleEndian(version, 4), LittleEndian(BLOCK_BASED_TABLE_MAGIC, 8));
    U64RoundTrip(BLOCK_BASED_TABLE_MAGIC);
    assert Zeros(24)[16..] == Zeros(8);
    ZerosAreZero(8);
  }

  lemma {:induction false} ZerosAreZero(n: nat)
    ensures LittleEndian(0, n) == Zeros(n) && FromLittleEndian(Zeros(n)) == 0
  {
    if n > 0 {
      ZerosAreZero(n - 1);
    }
  }

  lemma UnpatchedFields(version: u32, ty: ChecksumType, checksum: u32, metaindexSize: u32, base: u32)
    ensures PatchChecksum(FooterFields(version, ty, checksum, metaindexSize, base), [0, 0, 0, 0]) ==
            FooterFields(version, ty, 0, metaindexSize, base)
  {
    PatchedFields(version, ty, checksum, 0, metaindexSize, base);
    ZerosAreZero(4);
    assert Zeros(4) == [0, 0, 0, 0];
  }

  lemma NewFooterRoundTrip(foreign: Foreign, tail: Bytes, version: u32, ty: ChecksumType, metaindexSize: u32, base: u32,
                           footerOffset: u64)
    requires tail == FooterBytes(foreign, version, ty, metaindexSize, base, footerOffset)
    ensures DecodeNewFooter(foreign, tail, version, ty, footerOffset)
         == Success(FileFooter(BLOCK_BASED_TABLE_MAGIC, version, ty, MetaindexBefore(footerOffset, metaindexSize), None, base))
  {
    var checksum := FooterChecksum(foreign, ty, FooterFields(version, ty, 0, metaindexSize, base), base, footerOffset);
    FooterFieldsAt(version, ty, checksum, metaindexSize, base);
    FooterEndAt(version, ty, checksum, metaindexSize, base);
    UnpatchedFields(version, ty, checksum, metaindexSize, base);
  }

  lemma ReadsAsNewFooter(foreign: Foreign, tail: Bytes, size: u64, footerOffset: u64, version: u32, ty: ChecksumType)
    requires size == footerOffset + FOOTER_LEN
    requires |tail| == FOOTER_LEN && U64At(tail, FOOTER_MAGIC_POS) == BLOCK_BASED_TABLE_MAGIC
    requires U32At(tail, 41) == version && 6 <= version <= 7 && tail[0] == ty.ToByte()
    ensures DecodeFooter(foreign, tail, size) == DecodeNewFooter(foreign, tail, version, ty, footerOffset)
  {
    assert ChecksumTypeFromByte(ty.ToByte()) == Some(ty);
    WrapKeeps(footerOffset);
    assert footerOffset + FOOTER_LEN - FOOTER_LEN == footerOffset;
  }

  lemma FooterBytesAt(foreign: Foreign, version: u32, ty: ChecksumType, metaindexSize: u32, base: u32, footerOffset: u64)
    ensures var b := FooterBytes(foreign, version, ty, metaindexSize, base, footerOffset);
            b[0] == ty.ToByte() && U32At(b, 41) == version && U64At(b, FOOTER_MAGIC_POS) == BLOCK_BASED_TABLE_MAGIC
  {
    var checksum := FooterChecksum(foreign, ty, FooterFields(version, ty, 0, metaindexSize, base), base, footerOffset);
    FooterFieldsAt(version, ty, checksum, metaindexSize, base);
    FooterEndAt(version, ty, checksum, metaindexSize, base);
  }

  lemma MetaindexFound(h: BlockHandle, footerOffset: u64)
    requires h.size < U32_LIMIT && h.offset + h.size + BLOCK_TRAILER_SIZE == footerOffset
    ensures MetaindexBefore(footerOffset, h.size) == h
  {
  }

  lemma FooterReadsAs(foreign: Foreign, tail: Bytes, size: u64, version: u32, ty: ChecksumType, h: BlockHandle, base: u32,
                      footerOffset: u64)
    requires 6 <= version <= 7 && h.size < U32_LIMIT && size == footerOffset + FOOTER_LEN
    requires h.offset + h.size + BLOCK_TRAILER_SIZE == footerOffset
    requires tail == FooterBytes(foreign, version, ty, h.size, base, footerOffset)
    ensures DecodeFooter(foreign, tail, size) == Success(FileFooter(BLOCK_BASED_TABLE_MAGIC, version, ty, h, None, base))
  {
    FooterBytesAt(foreign, version, ty, h.size, base, footerOffset);
    ReadsAsNewFooter(foreign, tail, size, footerOffset, version, ty);
    MetaindexFound(h, footerOffset);
    NewFooterRoundTrip(foreign, tail, version, ty, h.size, base, footerOffset);
  }

  // The reader recovers every field and finds the metaindex block right before the footer, for every
  // format version the writer accepts and the reader knows.
  lemma FooterRoundTrip(foreign: Foreign, version: u32, ty: ChecksumType, h: BlockHandle, base: u32, footerOffset: u64)
    requires 6 <= version <= 7 && h.size < U32_LIMIT && footerOffset + FOOTER_LEN < U64_LIMIT
    requires h.offset + h.size + BLOCK_TRAILER_SIZE == footerOffset
    ensures DecodeFooter(foreign, FooterBytes(foreign, version, ty, h.size, base, footerOffset), footerOffset + FOOTER_LEN)
         == Success(FileFooter(BLOCK_BASED_TABLE_MAGIC, version, ty, h, None, base))
  {
    FooterReadsAs(foreign, FooterBytes(foreign, version, ty, h.size, base, footerOffset), footerOffset + FOOTER_LEN, version, ty,
                  h, base, footerOffset);
  }

  // ----- What the checksum covers

  // The footer with its checksum field zeroed.
  function Zeroed(b: Bytes): (z: Bytes)
    requires |b| == FOOTER_LEN
    ensures |z| == FOOTER_LEN
  {
    b[..5] + [0, 0, 0, 0] + b[9..]
  }

  // Every field where the format has it.
  lemma FooterLayout(foreign: Foreign, version: u32, ty: ChecksumType, metaindexSize: u32, base: u32, footerOffset: u64)
    ensures var b := FooterBytes(foreign, version, ty, metaindexSize, base, footerOffset);
            b[0] == ty.ToByte() && b[1..5] == [0x3e, 0x00, 0x7a, 0x00] &&
            FromLittleEndian(b[9..13]) == base && FromLittleEndian(b[13..17]) == metaindexSize &&
            FromLittleEndian(b[33..41]) == 0 && FromLittleEndian(b[41..45]) == version &&
            FromLittleEndian(b[45..53]) == 0x88e2_41b7_85f4_cff7
  {
    var checksum := FooterChecksum(foreign, ty, FooterFields(version, ty, 0, metaindexSize, base), base, footerOffset);
    FooterFieldsAt(version, ty, checksum, metaindexSize, base);
    FooterEndAt(version, ty, checksum, metaindexSize, base);
  }

  lemma ChecksumFieldIs(version: u32, ty: ChecksumType, checksum: u32, metaindexSize: u32, base: u32)
    ensures var b := FooterFields(version, ty, checksum, metaindexSize, base);
            FromLittleEndian(b[5..9]) == checksum && Zeroed(b) == FooterFields(version, ty, 0, metaindexSize, base)
  {
    FooterFieldsAt(version, ty, checksum, metaindexSize, base);
    UnpatchedFields(version, ty, checksum, metaindexSize, base);
  }

  lemma FooterChecksumIs(foreign: Foreign, ty: ChecksumType, zeroed: Bytes, base: u32, footerOffset: u64)
    ensures FooterChecksum(foreign, ty, zeroed, base, footerOffset) ==
            ((if ty == NoChecksum then 0 else foreign.plainHash(ty, zeroed)) + ChecksumModifierForContext(base, footerOffset))
            % 0x1_0000_0000
  {
  }

  // The checksum field holds the foreign hash of all the other fields, shifted by the modifier.
  lemma FooterStoredField(foreign: Foreign, version: u32, ty: ChecksumType, metaindexSize: u32, base: u32, footerOffset: u64)
    ensures var b := FooterBytes(foreign, version, ty, metaindexSize, base, footerOffset);
            FromLittleEndian(b[5..9]) ==
              ((if ty == NoChecksum then 0 else foreign.plainHash(ty, Zeroed(b))) + ChecksumModifierForContext(base, footerOffset))
              % 0x1_0000_0000
  {
    var zeroed := FooterFields(version, ty, 0, metaindexSize, base);
    FooterChecksumIs(foreign, ty, zeroed, base, footerOffset);
    ChecksumFieldIs(version, ty, FooterChecksum(foreign, ty, zeroed, base, footerOffset), metaindexSize, base);
  }

  lemma NewFooterMismatch(foreign: Foreign, tail: Bytes, version: u32, ty: ChecksumType, footerOffset: u64)
    requires |tail| == FOOTER_LEN && tail[1..5] == [0x3e, 0x00, 0x7a, 0x00]
    ensures DecodeNewFooter(foreign, tail, version, ty, footerOffset) == Failure("footer checksum mismatch") <==>
            ty != NoChecksum && FooterChecksum(foreign, ty, Zeroed(tail), U32At(tail, 9), footerOffset) != U32At(tail, 5)
  {
  }

  // From version 6 on a footer is refused for its checksum exactly when the field differs from the foreign hash of
  // the rest, shifted by the modifier.
  lemma NewFooterChecked(foreign: Foreign, tail: Bytes, version: u32, ty: ChecksumType, footerOffset: u64)
    requires |tail| == FOOTER_LEN && tail[1..5] == [0x3e, 0x00, 0x7a, 0x00]
    ensures var base := U32At(tail, 9);
            DecodeNewFooter(foreign, tail, version, ty, footerOffset) == Failure("footer checksum mismatch") <==>
            ty != NoChecksum && FromLittleEndian(tail[5..9]) !=
              (foreign.plainHash(ty, Zeroed(tail)) + ChecksumModifierForContext(base, footerOffset)) % 0x1_0000_0000
  {
    NewFooterMismatch(foreign, tail, version, ty, footerOffset);
    FooterChecksumIs(foreign, ty, Zeroed(tail), U32At(tail, 9), footerOffset);
  }

  lemma NewFooterAccepted(foreign: Foreign, tail: Bytes, version: u32, ty: ChecksumType, footerOffset: u64)
    requires |tail| == FOOTER_LEN && tail[1..5] == [0x3e, 0x00, 0x7a, 0x00]
    requires DecodeNewFooter(foreign, tail, version, ty, footerOffset) != Failure("footer checksum mismatch")
    ensures DecodeNewFooter(foreign, tail, version, ty, footerOffset) ==
            if FromLittleEndian(tail[33..41]) != 0 then Failure("file uses a future feature not supported by this reader")
            else Success(FileFooter(0x88e2_41b7_85f4_cff7, version, ty, MetaindexBefore(footerOffset, U32At(tail, 13)), None,
                                    U32At(tail, 9)))
  {
  }

  lemma FooterChecked(foreign: Foreign, tail: Bytes, footerOffset: u64, version: u32, ty: ChecksumType)
    requires |tail| == FOOTER_LEN && footerOffset + FOOTER_LEN < U64_LIMIT && tail[1..5] == [0x3e, 0x00, 0x7a, 0x00]
    requires FromLittleEndian(tail[45..53]) == 0x88e2_41b7_85f4_cff7
    requires FromLittleEndian(tail[41..45]) == version && 6 <= version <= 7 && tail[0] == ty.ToByte()
    ensures var base := U32At(tail, 9);
            DecodeFooter(foreign, tail, footerOffset + FOOTER_LEN) == Failure("footer checksum mismatch") <==>
            ty != NoChecksum && FromLittleEndian(tail[5..9]) !=
              (foreign.plainHash(ty, Zeroed(tail)) + ChecksumModifierForContext(base, footerOffset)) % 0x1_0000_0000
    ensures DecodeFooter(foreign, tail, footerOffset + FOOTER_LEN) != Failure("footer checksum mismatch") ==>
              DecodeFooter(foreign, tail, footerOffset + FOOTER_LEN) ==
              if FromLittleEndian(tail[33..41]) != 0 then Failure("file uses a future feature not supported by this reader")
              else Success(FileFooter(0x88e2_41b7_85f4_cff7, version, ty, MetaindexBefore(footerOffset, U32At(tail, 13)), None,
                                      U32At(tail, 9)))
  {
    ReadsAsNewFooter(foreign, tail, footerOffset + FOOTER_LEN, footerOffset, version, ty);
    NewFooterChecked(foreign, tail, version, ty, footerOffset);
    if DecodeNewFooter(foreign, tail, version, ty, footerOffset) != Failure("footer checksum mismatch") {
      NewFooterAccepted(foreign, tail, version, ty, footerOffset);
    }
  }

  // ----- Footers before version 6: both handles stand in the footer, padded

  lemma InRow(whole: Bytes, a: Bytes, b: Bytes, rest: Bytes)
    requires whole == a + b + rest
    ensures At(whole, 0, a) && At(whole, |a|, b)
  {
  }

  lemma HandleAtEncoded(b: Bytes, pos: nat, h: BlockHandle, enc: Bytes, next: nat)
    requires enc == EncodeHandle(h) && At(b, pos, enc) && next == pos + |enc|
    ensures HandleAt(b, pos) == Some((h, next))
  {
    DecodeFullEncoded(b, pos, h, next);
  }

  lemma FirstHandle(whole: Bytes, h: BlockHandle, a: Bytes, b: Bytes, rest: Bytes, p: nat)
    requires a == EncodeHandle(h) && whole == a + b + rest && p == |a|
    ensures HandleAt(whole, 0) == Some((h, p))
  {
    InRow(whole, a, b, rest);
    HandleAtEncoded(whole, 0, h, a, p);
  }

  lemma SecondHandle(whole: Bytes, h: BlockHandle, a: Bytes, b: Bytes, rest: Bytes, p: nat, end: nat)
    requires b == EncodeHandle(h) && whole == a + b + rest && p == |a| && end == p + |b|
    ensures HandleAt(whole, p) == Some((h, end))
  {
    InRow(whole, a, b, rest);
    HandleAtEncoded(whole, p, h, b, end);
  }

  lemma OldFooterDecodes(part2: Bytes, version: u32, ty: ChecksumType, metaindex: BlockHandle, index: BlockHandle,
                         p: nat, end: nat)
    requires HandleAt(part2, 0) == Some((metaindex, p)) && HandleAt(part2, p) == Some((index, end))
    ensures DecodeOldFooter(part2, version, ty) ==
            Success(FileFooter(BLOCK_BASED_TABLE_MAGIC, version, ty, metaindex, Some(index), 0))
  {
  }

  lemma OldHandlesDecode(part2: Bytes, version: u32, ty: ChecksumType, metaindex: BlockHandle, index: BlockHandle,
                         a: Bytes, b: Bytes, p: nat, padding: Bytes)
    requires a == EncodeHandle(metaindex) && b == EncodeHandle(index) && part2 == a + b + padding && p == |a|
    ensures DecodeOldFooter(part2, version, ty) ==
            Success(FileFooter(BLOCK_BASED_TABLE_MAGIC, version, ty, metaindex, Some(index), 0))
  {
    FirstHandle(part2, metaindex, a, b, padding, p);
    SecondHandle(part2, index, a, b, padding, p, p + |b|);
    OldFooterDecodes(part2, version, ty, metaindex, index, p, p + |b|);
  }

  lemma OldFooterReads(foreign: Foreign, tail: Bytes, size: u64, version: u32, ty: ChecksumType)
    requires |tail| == FOOTER_LEN && U64At(tail, FOOTER_MAGIC_POS) == BLOCK_BASED_TABLE_MAGIC
    requires U32At(tail, 41) == version && 2 <= version <= 5 && tail[0] == ty.ToByte()
    ensures DecodeFooter(foreign, tail, size) == DecodeOldFooter(tail[1..41], version, ty)
  {
    assert ChecksumTypeFromByte(ty.ToByte()) == Some(ty);
  }

  lemma OldFooterRoundTrip(foreign: Foreign, tail: Bytes, size: u64, version: u32, ty: ChecksumType, metaindex: BlockHandle,
                           index: BlockHandle, padding: Bytes)
    requires |tail| == FOOTER_LEN && 2 <= version <= 5 && tail[0] == ty.ToByte()
    requires tail[1..41] == EncodeHandle(metaindex) + EncodeHandle(index) + padding
    requires FromLittleEndian(tail[41..45]) == version && FromLittleEndian(tail[45..53]) == 0x88e2_41b7_85f4_cff7
    ensures DecodeFooter(foreign, tail, size) == Success(FileFooter(0x88e2_41b7_85f4_cff7, version, ty, metaindex, Some(index), 0))
  {
    OldFooterReads(foreign, tail, size, version, ty);
    OldHandlesDecode(tail[1..41], version, ty, metaindex, index, EncodeHandle(metaindex), EncodeHandle(index),
                     |EncodeHandle(metaindex)|, padding);
  }
}
