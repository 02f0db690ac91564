/**
 Index blocks: keys with block handles, each handle written in full or, when its key shares bytes with
 the key before it, as a size difference to the handle before it.
 */
module IndexBlock {
  import opened Wrappers
  import opened ByteStrings
  import opened Varint
  import opened Blocks
  import opened Lists

  const BLOCK_TRAILER_SIZE := 5

  datatype BlockHandle = BlockHandle(offset: u64, size: u64)
  datatype IndexEntry = IndexEntry(key: Bytes, handle: BlockHandle)

  // ----- 64-bit arithmetic

  function WrapU64(x: int): u64 {
    x % U64_LIMIT
  }

  lemma WrapKeeps(x: nat)
    requires x < U64_LIMIT
    ensures WrapU64(x) == x
  {
  }

  function WrapI64(x: int): i64 {
    var u := x % U64_LIMIT;
    if u < 0x8000_0000_0000_0000 then u else u - U64_LIMIT
  }

  // Where the block after `prev` starts.
  function NextOffset(prev: BlockHandle): u64 {
    WrapU64(prev.offset + prev.size + BLOCK_TRAILER_SIZE)
  }

  // Adding back a wrapped difference restores the size.
  lemma DeltaRoundTrip(size: u64, prev: u64)
    ensures WrapU64(prev + WrapI64(size - prev)) == size
  {
  }

  // ----- The format

  function SharedAt(es: seq<IndexEntry>, interval: nat, i: nat): (n: nat)
    requires interval >= 1 && i < |es|
    ensures n <= |es[i].key|
    ensures n > 0 ==> i > 0 && n <= |es[i - 1].key| && es[i - 1].key[..n] == es[i].key[..n]
  {
    if IsRestart(i, interval) || i == 0 then 0 else SharedPrefixLen(es[i - 1].key, es[i].key)
  }

  function EncodeHandle(h: BlockHandle): Bytes {
    EncodeVarint(h.offset) + EncodeVarint(h.size)
  }

  function HandleBytes(full: bool, h: BlockHandle, prev: Option<BlockHandle>): Bytes
    requires full || prev.Some?
  {
    if full then EncodeHandle(h) else EncodeVarint(ZigZag(WrapI64(h.size - prev.value.size)))
  }

  function EncodeEntry(shared: nat, e: IndexEntry, prev: Option<BlockHandle>): Bytes
    requires shared <= |e.key| && (shared > 0 ==> prev.Some?)
  {
    EncodeVarint(shared) + EncodeVarint(|e.key| - shared) + e.key[shared..] + HandleBytes(shared == 0, e.handle, prev)
  }

  function LastHandle(es: seq<IndexEntry>): Option<BlockHandle> {
    if es == [] then None else Some(es[|es| - 1].handle)
  }

  function Encode(es: seq<IndexEntry>, interval: nat): Bytes
    requires interval >= 1
  {
    if es == [] then []
    else
      var n := |es| - 1;
      Encode(es[..n], interval) + EncodeEntry(SharedAt(es, interval, n), es[n], LastHandle(es[..n]))
  }

  function Offset(es: seq<IndexEntry>, interval: nat, i: nat): nat
    requires interval >= 1 && i <= |es|
  {
    |Encode(es[..i], interval)|
  }

  function Offsets(es: seq<IndexEntry>, interval: nat): (offsets: seq<nat>)
    requires interval >= 1
    ensures |offsets| == |es| && forall i :: 0 <= i < |es| ==> offsets[i] == Offset(es, interval, i)
  {
    seq(|es|, i requires 0 <= i < |es| => Offset(es, interval, i))
  }

  // The offsets the builder records.
  function Restarts(es: seq<IndexEntry>, interval: nat): seq<nat>
    requires interval >= 1
  {
    RestartPoints(Offsets(es, interval), interval)
  }

  function BlockBytes(es: seq<IndexEntry>, interval: nat): Bytes
    requires interval >= 1
  {
    Encode(es, interval) + RestartTrailer(Restarts(es, interval))
  }

  // ----- The builder

  // What a builder holds once these entries are in.
  ghost predicate Built(es: seq<IndexEntry>, interval: nat, buffer: Bytes, restarts: seq<nat>, lastKey: Bytes,
                        lastHandle: Option<BlockHandle>, counter: nat)
    requires interval >= 1
  {
    buffer == Encode(es, interval) && restarts == Restarts(es, interval) &&
    lastKey == (if es == [] then [] else es[|es| - 1].key) && lastHandle == LastHandle(es) &&
    counter == CounterAfter(|es|, interval)
  }

  class IndexBlockBuilder {
    const restartInterval: nat
    var buffer: Bytes
    var restarts: seq<nat>
    var lastKey: Bytes
    var lastHandle: Option<BlockHandle>
    var counter: nat
    ghost var entries: seq<IndexEntry>

    ghost predicate Valid()
      reads this
    {
      restartInterval >= 1 && Built(entries, restartInterval, buffer, restarts, lastKey, lastHandle, counter)
    }

    constructor (restartInterval: nat)
      requires restartInterval >= 1
      ensures Valid() && entries == [] && this.restartInterval == restartInterval
    {
      this.restartInterval := restartInterval;
      buffer, restarts, lastKey, lastHandle, counter, entries := [], [0], [], None, 0, [];
    }

    // Whether the next entry is a restart, and how much of the last key it shares.
    method NextSlot(key: Bytes, ghost handle: BlockHandle, ghost next: seq<IndexEntry>)
      returns (atRestart: bool, shared: nat, restarts': seq<nat>, counter': nat)
      requires Valid() && |buffer| < U32_LIMIT && next == entries + [IndexEntry(key, handle)]
      ensures shared <= |key| && (atRestart ==> shared == 0) && (shared > 0 ==> lastHandle.Some?)
      ensures Encode(next, restartInterval) == buffer + EncodeEntry(shared, IndexEntry(key, handle), lastHandle)
      ensures restarts' == Restarts(next, restartInterval) && counter' + 1 == CounterAfter(|next|, restartInterval)
    {
      AddStep(entries, IndexEntry(key, handle), restartInterval);
      AsU32Keeps(|buffer|);
      atRestart, shared, restarts', counter' := counter >= restartInterval, 0, restarts, counter;
      if atRestart {
        restarts' := restarts + [AsU32(|buffer|)];
        counter' := 0;
      } else {
        shared := SharedPrefixLen(lastKey, key);
      }
    }

    method Add(key: Bytes, handle: BlockHandle)
      requires Valid() && |buffer| < U32_LIMIT && |key| < U32_LIMIT
      modifies this
      ensures Valid() && entries == old(entries) + [IndexEntry(key, handle)]
    {
      ghost var next := entries + [IndexEntry(key, handle)];
      var atRestart, shared, restarts', counter' := NextSlot(key, handle, next);
      var out := AppendEntry(buffer, atRestart, shared, key, handle, lastHandle);
      BuiltNext(entries, IndexEntry(key, handle), restartInterval, out, restarts', counter' + 1);
      buffer, restarts, lastKey, lastHandle, counter, entries := out, restarts', key, Some(handle), counter' + 1, next;
    }

    static method AppendEntry(buffer: Bytes, atRestart: bool, shared: nat, key: Bytes, handle: BlockHandle,
                              lastHandle: Option<BlockHandle>) returns (out: Bytes)
      requires shared <= |key| < U32_LIMIT && (atRestart ==> shared == 0) && (shared > 0 ==> lastHandle.Some?)
      ensures out == buffer + EncodeEntry(shared, IndexEntry(key, handle), lastHandle)
    {
      var nonShared := |key| - shared;
      AsU32Keeps(shared);
      AsU32Keeps(nonShared);
      out := PutVarint32(buffer, AsU32(shared));
      out := PutVarint32(out, AsU32(nonShared));
      out := out + key[shared..];
      ghost var start := out;
      if atRestart || shared == 0 {
        out := PutVarint64(out, handle.offset);
        out := PutVarint64(out, handle.size);
        assert out == start + EncodeHandle(handle);
      } else {
        var delta := WrapI64(handle.size - lastHandle.value.size);
        out := PutVarSigned64(out, delta);
      }
      EntryAppended(buffer, shared, IndexEntry(key, handle), lastHandle);
    }

    method Finish() returns (raw: Bytes)
      requires Valid() && |restarts| < U32_LIMIT
      modifies this
      ensures raw == BlockBytes(old(entries), restartInterval)
    {
      raw := AppendTrailer(buffer, restarts);
      buffer := raw;
    }
  }

  lemma BuiltNext(es: seq<IndexEntry>, e: IndexEntry, interval: nat, buffer: Bytes, restarts: seq<nat>, counter: nat)
    requires interval >= 1 && buffer == Encode(es + [e], interval) && restarts == Restarts(es + [e], interval)
    requires counter == CounterAfter(|es + [e]|, interval)
    ensures Built(es + [e], interval, buffer, restarts, e.key, Some(e.handle), counter)
  {
  }

  lemma EntryAppended(buffer: Bytes, shared: nat, e: IndexEntry, prev: Option<BlockHandle>)
    requires shared <= |e.key| && (shared > 0 ==> prev.Some?)
    ensures buffer + EncodeEntry(shared, e, prev) ==
            buffer + EncodeVarint(shared) + EncodeVarint(|e.key| - shared) + e.key[shared..] + HandleBytes(shared == 0, e.handle, prev)
  {
  }

  lemma OffsetsSnoc(es: seq<IndexEntry>, e: IndexEntry, interval: nat)
    requires interval >= 1
    ensures Offsets(es + [e], interval) == Offsets(es, interval) + [|Encode(es, interval)|]
  {
    assert (es + [e])[..|es|] == es;
    forall i | 0 <= i < |es| ensures Offset(es + [e], interval, i) == Offset(es, interval, i) {
      assert (es + [e])[..i] == es[..i];
    }
  }

  lemma EncodeSnoc(es: seq<IndexEntry>, e: IndexEntry, interval: nat)
    requires interval >= 1
    ensures SharedAt(es + [e], interval, |es|) ==
            if |es| > 0 && !IsRestart(|es|, interval) then SharedPrefixLen(es[|es| - 1].key, e.key) else 0
    ensures Encode(es + [e], interval) ==
            Encode(es, interval) + EncodeEntry(SharedAt(es + [e], interval, |es|), e, LastHandle(es))
    ensures Restarts(es + [e], interval) ==
            Restarts(es, interval) + (if |es| > 0 && IsRestart(|es|, interval) then [|Encode(es, interval)|] else [])
  {
    OffsetsSnoc(es, e, interval);
    RestartPointsSnoc(Offsets(es, interval), |Encode(es, interval)|, interval);
    assert (es + [e])[..|es|] == es;
  }

  lemma AddStep(es: seq<IndexEntry>, e: IndexEntry, interval: nat)
    requires interval >= 1
    ensures var atRestart := CounterAfter(|es|, interval) >= interval;
            var lastKey := if es == [] then [] else es[|es| - 1].key;
            var shared := if atRestart then 0 else SharedPrefixLen(lastKey, e.key);
            (shared > 0 ==> LastHandle(es).Some?) &&
            Encode(es + [e], interval) == Encode(es, interval) + EncodeEntry(shared, e, LastHandle(es)) &&
            Restarts(es + [e], interval) ==
              (if atRestart then Restarts(es, interval) + [|Encode(es, interval)|] else Restarts(es, interval)) &&
            CounterAfter(|es + [e]|, interval) == (if atRestart then 0 else CounterAfter(|es|, interval)) + 1
  {
    CounterStep(|es|, interval);
    EncodeSnoc(es, e, interval);
  }

  // ----- The reader

  datatype HandleStep = HandleStep(handle: BlockHandle, next: nat)
  datatype Step = Step(entry: IndexEntry, next: nat)

  function DecodeFullHandle(data: Bytes, p: nat): (r: Result<HandleStep>)
    ensures r.Success? ==> p < r.value.next <= |data|
  {
    match Varint64At(data, p)
    case None => Failure("truncated index value: offset")
    case Some((offset, p1)) =>
      match Varint64At(data, p1)
      case None => Failure("truncated index value: size")
      case Some((size, p2)) => Success(HandleStep(BlockHandle(offset, size), p2))
  }

  function DecodeDeltaHandle(data: Bytes, p: nat, last: Option<BlockHandle>): (r: Result<HandleStep>)
    ensures r.Success? ==> p < r.value.next <= |data|
  {
    match last
    case None => Failure("delta-encoded index value with no previous handle")
    case Some(prev) =>
      match VarSigned64At(data, p)
      case None => Failure("truncated index value: size delta")
      case Some((delta, end)) => Success(HandleStep(BlockHandle(NextOffset(prev), WrapU64(prev.size + delta)), end))
  }

  // One entry at `pos`; `atRestart` says whether the block lists pos as a restart.
  function DecodeOne(data: Bytes, atRestart: bool, pos: nat, scratch: Bytes, last: Option<BlockHandle>): (r: Result<Step>)
    ensures r.Success? ==> pos < r.value.next <= |data|
  {
    match Varint32At(data, pos)
    case None => Failure("truncated index entry: shared_bytes")
    case Some((shared, p1)) =>
      match Varint32At(data, p1)
      case None => Failure("truncated index entry: non_shared_bytes")
      case Some((unshared, p2)) => TakeEntry(data, atRestart, p2, scratch, last, shared, unshared)
  }

  function TakeEntry(data: Bytes, atRestart: bool, p: nat, scratch: Bytes, last: Option<BlockHandle>,
                     shared: nat, unshared: nat): (r: Result<Step>)
    ensures r.Success? ==> p < r.value.next <= |data|
  {
    if shared > |scratch| then Failure("corrupt index entry: shared_bytes exceeds last key length")
    else if p + unshared > |data| then Failure("truncated index entry: key_delta")
    else
      var key := scratch[..shared] + data[p..p + unshared];
      match (if atRestart || shared == 0 then DecodeFullHandle(data, p + unshared)
             else DecodeDeltaHandle(data, p + unshared, last))
      case Failure(error) => Failure(error)
      case Success(found) => Success(Step(IndexEntry(key, found.handle), found.next))
  }

  function DecodeEntries(data: Bytes, restarts: seq<nat>, pos: nat, scratch: Bytes, last: Option<BlockHandle>)
    : Result<seq<IndexEntry>>
    decreases |data| - pos
  {
    if pos >= |data| then Success([])
    else
      var step :- DecodeOne(data, pos in restarts, pos, scratch, last);
      var rest :- DecodeEntries(data, restarts, step.next, step.entry.key, Some(step.entry.handle));
      Success([step.entry] + rest)
  }

  function IndexEntries(block: ParsedBlock): Result<seq<IndexEntry>>
    requires WellParsed(block)
  {
    DecodeEntries(EntryData(block), block.restarts, 0, [], None)
  }

  method ReadHandle(data: Bytes, full: bool, p: nat, last: Option<BlockHandle>) returns (r: Result<HandleStep>)
    ensures r == if full then DecodeFullHandle(data, p) else DecodeDeltaHandle(data, p, last)
  {
    if full {
      var offset := GetVarint64(data, p);
      if offset.None? {
        return Failure("truncated index value: offset");
      }
      var size := GetVarint64(data, offset.value.1);
      if size.None? {
        return Failure("truncated index value: size");
      }
      return Success(HandleStep(BlockHandle(offset.value.0, size.value.0), size.value.1));
    }
    if last.None? {
      return Failure("delta-encoded index value with no previous handle");
    }
    var delta := GetVarSigned64(data, p);
    if delta.None? {
      return Failure("truncated index value: size delta");
    }
    r := Success(HandleStep(BlockHandle(NextOffset(last.value), WrapU64(last.value.size + delta.value.0)), delta.value.1));
  }

  method ReadEntry(data: Bytes, atRestart: bool, pos: nat, keyScratch: Bytes, last: Option<BlockHandle>)
    returns (r: Result<Step>)
    ensures r == DecodeOne(data, atRestart, pos, keyScratch, last)
  {
    var shared := GetVarint32(data, pos);
    if shared.None? {
      return Failure("truncated index entry: shared_bytes");
    }
    var unshared := GetVarint32(data, shared.value.1);
    if unshared.None? {
      return Failure("truncated index entry: non_shared_bytes");
    }
    r := ReadKeyAndHandle(data, atRestart, unshared.value.1, keyScratch, last, shared.value.0, unshared.value.0);
  }

  method ReadKeyAndHandle(data: Bytes, atRestart: bool, p: nat, keyScratch: Bytes, last: Option<BlockHandle>,
                          shared: nat, unshared: nat) returns (r: Result<Step>)
    ensures r == TakeEntry(data, atRestart, p, keyScratch, last, shared, unshared)
  {
    if shared > |keyScratch| {
      return Failure("corrupt index entry: shared_bytes exceeds last key length");
    }
    if p + unshared > |data| {
      return Failure("truncated index entry: key_delta");
    }
    var key := keyScratch[..shared] + data[p..p + unshared];
    var isShared := shared != 0;
    var handle := ReadHandle(data, atRestart || !isShared, p + unshared, last);
    if handle.Failure? {
      return Failure(handle.error);
    }
    r := Success(Step(IndexEntry(key, handle.value.handle), handle.value.next));
  }

  // The entries a visit meets before the end or the first error.
  function Met(data: Bytes, restarts: seq<nat>, pos: nat, scratch: Bytes, last: Option<BlockHandle>): seq<IndexEntry>
    decreases |data| - pos
  {
    if pos >= |data| then []
    else
      match DecodeOne(data, pos in restarts, pos, scratch, last)
      case Failure(_) => []
      case Success(step) => [step.entry] + Met(data, restarts, step.next, step.entry.key, Some(step.entry.handle))
  }

  // `visited` is what the callback received, on an error too. The program looks `pos` up in a sorted copy of
  // the restarts.
  method ForEachIndexEntry(block: ParsedBlock) returns (r: Result<()>, visited: seq<IndexEntry>)
    requires WellParsed(block)
    ensures r.Success? ==> IndexEntries(block) == Success(visited)
    ensures r.Failure? ==> IndexEntries(block) == Failure(r.error)
    ensures visited == Met(EntryData(block), block.restarts, 0, [], None)
  {
    var data := EntryData(block);
    var keyScratch: Bytes := [];
    var lastHandle: Option<BlockHandle> := None;
    var pos := 0;
    visited := [];
    PrependNothing(IndexEntries(block));
    while pos < |data|
      invariant 0 <= pos
      invariant IndexEntries(block) == Prepend(visited, DecodeEntries(data, block.restarts, pos, keyScratch, lastHandle))
      invariant Met(data, block.restarts, 0, [], None) == visited + Met(data, block.restarts, pos, keyScratch, lastHandle)
      decreases |data| - pos
    {
      var atRestart := pos in block.restarts;
      var step := ReadEntry(data, atRestart, pos, keyScratch, lastHandle);
      if step.Failure? {
        assert visited + [] == visited;
        return Failure(step.error), visited;
      }
      VisitOne(data, block.restarts, pos, keyScratch, lastHandle, visited, step.value.entry, step.value.next);
      visited := visited + [step.value.entry];
      keyScratch := step.value.entry.key;
      lastHandle := Some(step.value.entry.handle);
      pos := step.value.next;
    }
    assert visited + [] == visited;
    r := Success(());
  }

  lemma VisitOne(data: Bytes, restarts: seq<nat>, pos: nat, scratch: Bytes, last: Option<BlockHandle>,
                 visited: seq<IndexEntry>, e: IndexEntry, next: nat)
    requires pos < |data| && DecodeOne(data, pos in restarts, pos, scratch, last) == Success(Step(e, next))
    ensures Prepend(visited, DecodeEntries(data, restarts, pos, scratch, last)) ==
            Prepend(visited + [e], DecodeEntries(data, restarts, next, e.key, Some(e.handle)))
    ensures visited + Met(data, restarts, pos, scratch, last) ==
            visited + [e] + Met(data, restarts, next, e.key, Some(e.handle))
  {
    ConcatAssociative(visited, [e], Met(data, restarts, next, e.key, Some(e.handle)));
    var rest := DecodeEntries(data, restarts, next, e.key, Some(e.handle));
    if rest.Success? {
      ConcatAssociative(visited, [e], rest.value);
    }
  }

  // ----- What the reader makes of the writer's bytes

  // A delta-encoded handle comes back with the right size, placed right after the handle before it.
  function Rebuilt(es: seq<IndexEntry>, interval: nat): (r: seq<IndexEntry>)
    requires interval >= 1
    ensures |r| == |es|
  {
    if es == [] then []
    else
      var n := |es| - 1;
      var front := Rebuilt(es[..n], interval);
      front + [if SharedAt(es, interval, n) == 0 then es[n]
               else IndexEntry(es[n].key, BlockHandle(NextOffset(front[n - 1].handle), es[n].handle.size))]
  }

  ghost predicate FitKeys(es: seq<IndexEntry>) {
    forall i :: 0 <= i < |es| ==> |es[i].key| < U32_LIMIT
  }

  lemma EncodeStep(es: seq<IndexEntry>, interval: nat, i: nat)
    requires interval >= 1 && i < |es|
    ensures Encode(es[..i + 1], interval) ==
            Encode(es[..i], interval) + EncodeEntry(SharedAt(es, interval, i), es[i], LastHandle(es[..i]))
    ensures Rebuilt(es[..i + 1], interval) == Rebuilt(es[..i], interval) +
            [if SharedAt(es, interval, i) == 0 then es[i]
             else IndexEntry(es[i].key, BlockHandle(NextOffset(Rebuilt(es[..i], interval)[i - 1].handle), es[i].handle.size))]
  {
    assert es[..i + 1] == es[..i] + [es[i]];
    EncodeSnoc(es[..i], es[i], interval);
    assert es[..i + 1][..i] == es[..i];
  }

  lemma {:induction false} EncodePrefix(es: seq<IndexEntry>, interval: nat, i: nat)
    requires interval >= 1 && i <= |es|
    ensures Encode(es[..i], interval) <= Encode(es, interval)
    ensures Rebuilt(es[..i], interval) <= Rebuilt(es, interval)
    decreases |es| - i
  {
    if i == |es| {
      assert es[..i] == es;
    } else {
      EncodeStep(es, interval, i);
      EncodePrefix(es, interval, i + 1);
    }
  }

  lemma EntryStandsAtOffset(es: seq<IndexEntry>, interval: nat, i: nat)
    requires interval >= 1 && i < |es|
    ensures var enc := EncodeEntry(SharedAt(es, interval, i), es[i], LastHandle(es[..i]));
            At(Encode(es, interval), Offset(es, interval, i), enc) &&
            Offset(es, interval, i + 1) == Offset(es, interval, i) + |enc|
    ensures Offset(es, interval, i) < Offset(es, interval, i + 1) <= |Encode(es, interval)|
  {
    EncodeStep(es, interval, i);
    EncodePrefix(es, interval, i + 1);
    AtInPrefix(Encode(es, interval), Encode(es[..i], interval),
               EncodeEntry(SharedAt(es, interval, i), es[i], LastHandle(es[..i])));
  }

  // What the key shares, what it does not, and the rest of it; then the handle, offset and size, or, if anything
  // is shared, only by how much the size differs.
  ghost function EntryBytes(shared: nat, e: IndexEntry, delta: i64): Bytes
    requires shared <= |e.key|
  {
    EncodeVarint(shared) + EncodeVarint(|e.key| - shared) + e.key[shared..] +
    if shared > 0 then EncodeVarint(ZigZag(delta)) else EncodeVarint(e.handle.offset) + EncodeVarint(e.handle.size)
  }

  ghost predicate SizeChanges(prev: BlockHandle, delta: i64, next: BlockHandle) {
    (prev.size + delta) % U64_LIMIT == next.size
  }

  lemma EncodedAs(shared: nat, e: IndexEntry, prev: Option<BlockHandle>) returns (delta: i64)
    requires shared <= |e.key| && (shared > 0 ==> prev.Some?)
    ensures EncodeEntry(shared, e, prev) == EntryBytes(shared, e, delta)
    ensures shared > 0 ==> SizeChanges(prev.value, delta, e.handle)
  {
    delta := 0;
    if shared > 0 {
      delta := WrapI64(e.handle.size - prev.value.size);
      DeltaRoundTrip(e.handle.size, prev.value.size);
    }
  }

  // The bytes of entry i. At every interval-th entry nothing is shared, at any other all that can be.
  lemma EntryLayout(es: seq<IndexEntry>, interval: nat, i: nat) returns (shared: nat, delta: i64)
    requires interval >= 1 && i < |es|
    ensures i == 0 || i % interval == 0 ==> shared == 0
    ensures i > 0 && i % interval != 0 ==> IsLongestCommonPrefix(es[i - 1].key, es[i].key, shared)
    ensures shared <= |es[i].key| && (shared > 0 ==> i > 0 && SizeChanges(es[i - 1].handle, delta, es[i].handle))
    ensures At(Encode(es, interval), Offset(es, interval, i), EntryBytes(shared, es[i], delta))
    ensures Offset(es, interval, i + 1) == Offset(es, interval, i) + |EntryBytes(shared, es[i], delta)|
  {
    EntryStandsAtOffset(es, interval, i);
    shared := SharedAt(es, interval, i);
    delta := EncodedAs(shared, es[i], LastHandle(es[..i]));
  }

  lemma RebuiltAt(es: seq<IndexEntry>, interval: nat, i: nat)
    requires interval >= 1 && i < |es|
    ensures var r := Rebuilt(es, interval);
            r[i] == if SharedAt(es, interval, i) == 0 then es[i]
                    else IndexEntry(es[i].key, BlockHandle(NextOffset(r[i - 1].handle), es[i].handle.size))
  {
    EncodeStep(es, interval, i);
    EncodePrefix(es, interval, i);
    EncodePrefix(es, interval, i + 1);
    assert Rebuilt(es[..i + 1], interval)[i] == Rebuilt(es, interval)[i];
  }

  // Keys and sizes always come back.
  lemma RebuiltKeysAndSizes(es: seq<IndexEntry>, interval: nat, i: nat)
    requires interval >= 1 && i < |es|
    ensures Rebuilt(es, interval)[i].key == es[i].key
    ensures Rebuilt(es, interval)[i].handle.size == es[i].handle.size
  {
    RebuiltAt(es, interval, i);
  }

  // ----- Writer and reader agree on which handles are full

  lemma OffsetGrows(es: seq<IndexEntry>, interval: nat, i: nat)
    requires interval >= 1 && i < |es|
    ensures Offset(es, interval, i) < Offset(es, interval, i + 1)
  {
    EntryStandsAtOffset(es, interval, i);
  }

  lemma {:induction false} OffsetsAscend(es: seq<IndexEntry>, interval: nat, i: nat, j: nat)
    requires interval >= 1 && i < j <= |es|
    ensures Offset(es, interval, i) < Offset(es, interval, j)
    decreases j - i
  {
    OffsetGrows(es, interval, i);
    if i + 1 < j {
      OffsetsAscend(es, interval, i + 1, j);
    }
  }

  // The reader's restart test never overrules the writer: where it answers yes, the handle was written in full.
  lemma RestartMeansFull(es: seq<IndexEntry>, interval: nat, i: nat)
    requires interval >= 1 && i < |es| && Offset(es, interval, i) in Restarts(es, interval)
    ensures SharedAt(es, interval, i) == 0
  {
    var k := RestartOf(Offsets(es, interval), interval, Offset(es, interval, i));
    assert es[..0] == [];
    OffsetDetermines(es, interval, i, k);
  }

  lemma OffsetDetermines(es: seq<IndexEntry>, interval: nat, i: nat, k: nat)
    requires interval >= 1 && i < |es| && k < |es| && Offset(es, interval, i) == Offset(es, interval, k)
    ensures i == k
  {
    if k < i {
      OffsetsAscend(es, interval, k, i);
    } else if i < k {
      OffsetsAscend(es, interval, i, k);
    }
  }

  // ----- Decoding an encoded block

  lemma DecodeFullAt(data: Bytes, p: nat, h: BlockHandle, p1: nat, p2: nat)
    requires Varint64At(data, p) == Some((h.offset, p1)) && Varint64At(data, p1) == Some((h.size, p2))
    ensures DecodeFullHandle(data, p) == Success(HandleStep(h, p2))
  {
  }

  lemma DecodeFullEncoded(data: Bytes, p: nat, h: BlockHandle, next: nat)
    requires At(data, p, EncodeHandle(h)) && next == p + |EncodeHandle(h)|
    ensures DecodeFullHandle(data, p) == Success(HandleStep(h, next))
  {
    HandleLength(h);
    AtSplit(data, p, EncodeVarint(h.offset), EncodeVarint(h.size));
    HandleVarints(data, p, h, p + |EncodeVarint(h.offset)|, next);
    DecodeFullAt(data, p, h, p + |EncodeVarint(h.offset)|, next);
  }

  lemma HandleVarints(data: Bytes, p: nat, h: BlockHandle, p1: nat, p2: nat)
    requires At(data, p, EncodeVarint(h.offset)) && p1 == p + |EncodeVarint(h.offset)|
    requires At(data, p1, EncodeVarint(h.size)) && p2 == p1 + |EncodeVarint(h.size)|
    ensures Varint64At(data, p) == Some((h.offset, p1)) && Varint64At(data, p1) == Some((h.size, p2))
  {
    Varint64RoundTrip(data, p, h.offset, p1);
    Varint64RoundTrip(data, p1, h.size, p2);
  }

  lemma HandleLength(h: BlockHandle)
    ensures |EncodeHandle(h)| == |EncodeVarint(h.offset)| + |EncodeVarint(h.size)|
  {
  }

  lemma DecodeDeltaAt(data: Bytes, p: nat, last: BlockHandle, delta: i64, size: u64, next: nat)
    requires VarSigned64At(data, p) == Some((delta, next)) && WrapU64(last.size + delta) == size
    ensures DecodeDeltaHandle(data, p, Some(last)) == Success(HandleStep(BlockHandle(NextOffset(last), size), next))
  {
  }

  lemma DecodeDeltaEncoded(data: Bytes, p: nat, size: u64, last: BlockHandle, next: nat)
    requires var delta := WrapI64(size - last.size);
             At(data, p, EncodeVarint(ZigZag(delta))) && next == p + |EncodeVarint(ZigZag(delta))|
    ensures DecodeDeltaHandle(data, p, Some(last)) == Success(HandleStep(BlockHandle(NextOffset(last), size), next))
  {
    var delta := WrapI64(size - last.size);
    VarSignedRoundTrip(data, p, delta);
    DeltaRoundTrip(size, last.size);
    DecodeDeltaAt(data, p, last, delta, size, next);
  }

  lemma DecodeHandleEncoded(data: Bytes, p: nat, full: bool, h: BlockHandle, prev: Option<BlockHandle>,
                            last: Option<BlockHandle>, next: nat)
    requires full || (prev.Some? && last.Some? && last.value.size == prev.value.size)
    requires At(data, p, HandleBytes(full, h, prev)) && next == p + |HandleBytes(full, h, prev)|
    ensures (if full then DecodeFullHandle(data, p) else DecodeDeltaHandle(data, p, last)) ==
            Success(HandleStep(if full then h else BlockHandle(NextOffset(last.value), h.size), next))
  {
    if full {
      DecodeFullEncoded(data, p, h, next);
    } else {
      DecodeDeltaEncoded(data, p, h.size, last.value, next);
    }
  }

  lemma EntryParts(data: Bytes, pos: nat, shared: nat, e: IndexEntry, prev: Option<BlockHandle>, p1: nat, p2: nat, p3: nat)
    requires shared <= |e.key| && (shared > 0 ==> prev.Some?) && At(data, pos, EncodeEntry(shared, e, prev))
    requires p1 == pos + |EncodeVarint(shared)| && p2 == p1 + |EncodeVarint(|e.key| - shared)| && p3 == p2 + |e.key| - shared
    ensures At(data, pos, EncodeVarint(shared)) && At(data, p1, EncodeVarint(|e.key| - shared)) && At(data, p2, e.key[shared..])
    ensures var h := HandleBytes(shared == 0, e.handle, prev);
            At(data, p3, h) && pos + |EncodeEntry(shared, e, prev)| == p3 + |h|
  {
    var a, b := EncodeVarint(shared), EncodeVarint(|e.key| - shared);
    AtSplit(data, pos, a + b + e.key[shared..], HandleBytes(shared == 0, e.handle, prev));
    AtSplit(data, pos, a + b, e.key[shared..]);
    AtSplit(data, pos, a, b);
  }

  // What the reader returns for an entry, given the handle it last returned.
  function ReadBack(shared: nat, e: IndexEntry, last: Option<BlockHandle>): IndexEntry
    requires shared > 0 ==> last.Some?
  {
    if shared == 0 then e else IndexEntry(e.key, BlockHandle(NextOffset(last.value), e.handle.size))
  }

  lemma TakeEntryEncoded(data: Bytes, atRestart: bool, p: nat, scratch: Bytes, last: Option<BlockHandle>,
                         shared: nat, e: IndexEntry, prev: Option<BlockHandle>, p': nat, next: nat)
    requires shared <= |e.key| && shared <= |scratch| && scratch[..shared] == e.key[..shared]
    requires (atRestart ==> shared == 0) && (shared > 0 ==> prev.Some? && last.Some? && last.value.size == prev.value.size)
    requires At(data, p, e.key[shared..]) && p' == p + |e.key| - shared
    requires At(data, p', HandleBytes(shared == 0, e.handle, prev)) && next == p' + |HandleBytes(shared == 0, e.handle, prev)|
    ensures TakeEntry(data, atRestart, p, scratch, last, shared, |e.key| - shared) == Success(Step(ReadBack(shared, e, last), next))
  {
    AtIsSlice(data, p, e.key[shared..]);
    assert scratch[..shared] + e.key[shared..] == e.key;
    DecodeHandleEncoded(data, p', shared == 0, e.handle, prev, last, next);
  }

  lemma DecodeOneHeader(data: Bytes, atRestart: bool, pos: nat, scratch: Bytes, last: Option<BlockHandle>,
                        shared: u32, p1: nat, unshared: u32, p2: nat)
    requires Varint32At(data, pos) == Some((shared, p1)) && Varint32At(data, p1) == Some((unshared, p2))
    ensures DecodeOne(data, atRestart, pos, scratch, last) == TakeEntry(data, atRestart, p2, scratch, last, shared, unshared)
  {
  }

  lemma HeaderReads(data: Bytes, atRestart: bool, pos: nat, scratch: Bytes, last: Option<BlockHandle>,
                    shared: u32, p1: nat, unshared: u32, p2: nat)
    requires At(data, pos, EncodeVarint(shared)) && p1 == pos + |EncodeVarint(shared)|
    requires At(data, p1, EncodeVarint(unshared)) && p2 == p1 + |EncodeVarint(unshared)|
    ensures DecodeOne(data, atRestart, pos, scratch, last) == TakeEntry(data, atRestart, p2, scratch, last, shared, unshared)
  {
    Varint32RoundTrip(data, pos, shared, p1);
    Varint32RoundTrip(data, p1, unshared, p2);
    DecodeOneHeader(data, atRestart, pos, scratch, last, shared, p1, unshared, p2);
  }

  lemma DecodeOneEncoded(data: Bytes, atRestart: bool, pos: nat, scratch: Bytes, last: Option<BlockHandle>,
                         shared: nat, e: IndexEntry, prev: Option<BlockHandle>, next: nat)
    requires |e.key| < U32_LIMIT && shared <= |e.key| && shared <= |scratch| && scratch[..shared] == e.key[..shared]
    requires (atRestart ==> shared == 0) && (shared > 0 ==> prev.Some? && last.Some? && last.value.size == prev.value.size)
    requires At(data, pos, EncodeEntry(shared, e, prev)) && next == pos + |EncodeEntry(shared, e, prev)|
    ensures DecodeOne(data, atRestart, pos, scratch, last) == Success(Step(ReadBack(shared, e, last), next))
  {
    var unshared := |e.key| - shared;
    var p1 := pos + |EncodeVarint(shared)|;
    var p2 := p1 + |EncodeVarint(unshared)|;
    var p3 := p2 + unshared;
    EntryParts(data, pos, shared, e, prev, p1, p2, p3);
    HeaderReads(data, atRestart, pos, scratch, last, shared, p1, unshared, p2);
    TakeEntryEncoded(data, atRestart, p2, scratch, last, shared, e, prev, p3, next);
  }

  // The reader carries what entry i needs: its key's shared bytes, and the handle it last returned.
  ghost predicate Carries(es: seq<IndexEntry>, interval: nat, i: nat, scratch: Bytes, last: Option<BlockHandle>)
    requires interval >= 1 && i <= |es|
  {
    if i == 0 then true else scratch == es[i - 1].key && last == Some(Rebuilt(es, interval)[i - 1].handle)
  }

  // Entry e stands at pos, the reader has what it needs, and must return `out` and go on at `next`.
  ghost predicate Readable(data: Bytes, atRestart: bool, pos: nat, scratch: Bytes, last: Option<BlockHandle>,
                           shared: nat, e: IndexEntry, prev: Option<BlockHandle>, out: IndexEntry, next: nat)
  {
    |e.key| < U32_LIMIT && shared <= |e.key| && shared <= |scratch| && scratch[..shared] == e.key[..shared] &&
    (atRestart ==> shared == 0) &&
    (shared > 0 ==> prev.Some? && last.Some? && last.value.size == prev.value.size) &&
    At(data, pos, EncodeEntry(shared, e, prev)) &&
    out == ReadBack(shared, e, last) && next == pos + |EncodeEntry(shared, e, prev)|
  }

  lemma DecodeReadable(data: Bytes, atRestart: bool, pos: nat, scratch: Bytes, last: Option<BlockHandle>,
                       shared: nat, e: IndexEntry, prev: Option<BlockHandle>, out: IndexEntry, next: nat)
    requires Readable(data, atRestart, pos, scratch, last, shared, e, prev, out, next)
    ensures DecodeOne(data, atRestart, pos, scratch, last) == Success(Step(out, next))
  {
    DecodeOneEncoded(data, atRestart, pos, scratch, last, shared, e, prev, next);
  }

  lemma EntryReadable(es: seq<IndexEntry>, interval: nat, i: nat, atRestart: bool, scratch: Bytes, last: Option<BlockHandle>)
    requires interval >= 1 && i < |es| && FitKeys(es) && Carries(es, interval, i, scratch, last)
    requires atRestart ==> SharedAt(es, interval, i) == 0
    ensures Readable(Encode(es, interval), atRestart, Offset(es, interval, i), scratch, last, SharedAt(es, interval, i),
                     es[i], LastHandle(es[..i]), Rebuilt(es, interval)[i], Offset(es, interval, i + 1))
  {
    EntryStandsAtOffset(es, interval, i);
    RebuiltAt(es, interval, i);
    if i > 0 {
      RebuiltKeysAndSizes(es, interval, i - 1);
    }
  }

  lemma DecodeNext(data: Bytes, restarts: seq<nat>, pos: nat, scratch: Bytes, last: Option<BlockHandle>,
                   e: IndexEntry, next: nat, rest: seq<IndexEntry>)
    requires pos < |data| && DecodeOne(data, pos in restarts, pos, scratch, last) == Success(Step(e, next))
    requires DecodeEntries(data, restarts, next, e.key, Some(e.handle)) == Success(rest)
    ensures DecodeEntries(data, restarts, pos, scratch, last) == Success([e] + rest)
  {
  }

  lemma DecodeOneAtOffset(es: seq<IndexEntry>, interval: nat, i: nat, scratch: Bytes, last: Option<BlockHandle>, pos: nat, next: nat)
    requires interval >= 1 && i < |es| && FitKeys(es) && Carries(es, interval, i, scratch, last)
    requires pos == Offset(es, interval, i) && next == Offset(es, interval, i + 1)
    ensures pos < |Encode(es, interval)|
    ensures DecodeOne(Encode(es, interval), pos in Restarts(es, interval), pos, scratch, last) ==
            Success(Step(Rebuilt(es, interval)[i], next))
  {
    var atRestart := pos in Restarts(es, interval);
    if atRestart {
      RestartMeansFull(es, interval, i);
    }
    EntryStandsAtOffset(es, interval, i);
    EntryReadable(es, interval, i, atRestart, scratch, last);
    DecodeReadable(Encode(es, interval), atRestart, pos, scratch, last, SharedAt(es, interval, i), es[i], LastHandle(es[..i]),
                   Rebuilt(es, interval)[i], next);
  }

  lemma DecodeThen(data: Bytes, restarts: seq<nat>, pos: nat, scratch: Bytes, last: Option<BlockHandle>,
                   r: seq<IndexEntry>, i: nat, next: nat)
    requires i < |r| && pos < |data| && DecodeOne(data, pos in restarts, pos, scratch, last) == Success(Step(r[i], next))
    requires DecodeEntries(data, restarts, next, r[i].key, Some(r[i].handle)) == Success(r[i + 1..])
    ensures DecodeEntries(data, restarts, pos, scratch, last) == Success(r[i..])
  {
    SuffixCons(r, i);
    DecodeNext(data, restarts, pos, scratch, last, r[i], next, r[i + 1..]);
  }

  lemma NothingLeft(es: seq<IndexEntry>, interval: nat)
    requires interval >= 1
    ensures Offset(es, interval, |es|) == |Encode(es, interval)|
  {
    TakeAll(es);
  }

  lemma {:induction false} DecodeFromEntry(es: seq<IndexEntry>, interval: nat, i: nat, scratch: Bytes, last: Option<BlockHandle>,
                                           data: Bytes, restarts: seq<nat>, r: seq<IndexEntry>, pos: nat)
    requires interval >= 1 && i <= |es| && FitKeys(es) && Carries(es, interval, i, scratch, last)
    requires data == Encode(es, interval) && restarts == Restarts(es, interval) && r == Rebuilt(es, interval)
    requires pos == Offset(es, interval, i)
    ensures DecodeEntries(data, restarts, pos, scratch, last) == Success(r[i..])
    decreases |es| - i
  {
    if i == |es| {
      NothingLeft(es, interval);
      assert r[i..] == [];
    } else {
      var next := Offset(es, interval, i + 1);
      RebuiltKeysAndSizes(es, interval, i);
      DecodeFromEntry(es, interval, i + 1, r[i].key, Some(r[i].handle), data, restarts, r, next);
      DecodeOneAtOffset(es, interval, i, scratch, last, pos, next);
      DecodeThen(data, restarts, pos, scratch, last, r, i, next);
    }
  }

  lemma RestartsBounded(es: seq<IndexEntry>, interval: nat)
    requires interval >= 1
    ensures forall k :: 0 <= k < |Restarts(es, interval)| ==> Restarts(es, interval)[k] <= |Encode(es, interval)|
  {
    var rs := Restarts(es, interval);
    forall k | 0 <= k < |rs| ensures rs[k] <= |Encode(es, interval)| {
      var i := RestartOf(Offsets(es, interval), interval, rs[k]);
      if i > 0 {
        EncodePrefix(es, interval, i);
      }
    }
  }

  // The reader succeeds on every block the builder can write, and returns this.
  lemma IndexBlockReadsBack(es: seq<IndexEntry>, interval: nat)
    requires interval >= 1 && FitKeys(es) && |BlockBytes(es, interval)| < U32_LIMIT
    ensures var block := ParsedBlock(BlockBytes(es, interval), Restarts(es, interval));
            ParseBlock(BlockBytes(es, interval)) == Success(block) && WellParsed(block) &&
            IndexEntries(block) == Success(Rebuilt(es, interval))
  {
    RestartsBounded(es, interval);
    ParseRoundTrip(Encode(es, interval), Restarts(es, interval));
    DecodeFromEntry(es, interval, 0, [], None, Encode(es, interval), Restarts(es, interval), Rebuilt(es, interval),
                    Offset(es, interval, 0));
    assert es[..0] == [] && Rebuilt(es, interval)[0..] == Rebuilt(es, interval);
  }

  // A block starts where the one before it ends, the 5-byte trailer included.
  ghost predicate Follows(prev: BlockHandle, next: BlockHandle) {
    next.offset == (prev.offset + prev.size + 5) % 0x1_0000_0000_0000_0000
  }

  // Every handle written as a difference follows the one before it.
  ghost predicate Contiguous(es: seq<IndexEntry>, interval: nat)
    requires interval >= 1
  {
    forall i :: 0 < i < |es| && SharedAt(es, interval, i) > 0 ==> Follows(es[i - 1].handle, es[i].handle)
  }

  lemma {:induction false} RebuiltIsOriginal(es: seq<IndexEntry>, interval: nat, i: nat)
    requires interval >= 1 && Contiguous(es, interval) && i < |es|
    ensures Rebuilt(es, interval)[i] == es[i]
  {
    RebuiltAt(es, interval, i);
    if SharedAt(es, interval, i) > 0 {
      RebuiltIsOriginal(es, interval, i - 1);
    }
  }

  lemma RebuiltOnlyIf(es: seq<IndexEntry>, interval: nat, i: nat)
    requires interval >= 1 && Rebuilt(es, interval) == es && 0 < i < |es| && SharedAt(es, interval, i) > 0
    ensures Follows(es[i - 1].handle, es[i].handle)
  {
    RebuiltAt(es, interval, i);
  }

  lemma RebuiltIff(es: seq<IndexEntry>, interval: nat)
    requires interval >= 1
    ensures Rebuilt(es, interval) == es <==> Contiguous(es, interval)
  {
    if Contiguous(es, interval) {
      forall i | 0 <= i < |es| ensures Rebuilt(es, interval)[i] == es[i] {
        RebuiltIsOriginal(es, interval, i);
      }
    }
    if Rebuilt(es, interval) == es {
      forall i | 0 < i < |es| && SharedAt(es, interval, i) > 0 ensures Follows(es[i - 1].handle, es[i].handle) {
        RebuiltOnlyIf(es, interval, i);
      }
    }
  }

  // Every key and handle comes back exactly if and only if the difference-encoded handles are contiguous.
  lemma IndexBlockRoundTrip(es: seq<IndexEntry>, interval: nat)
    requires interval >= 1 && FitKeys(es) && |BlockBytes(es, interval)| < U32_LIMIT
    ensures var parsed := ParseBlock(BlockBytes(es, interval));
            parsed.Success? && (IndexEntries(parsed.value) == Success(es) <==> Contiguous(es, interval))
  {
    IndexBlockReadsBack(es, interval);
    RebuiltIff(es, interval);
  }

  // A key is no longer than what has been written once it is in: what it shares stands there already.
  lemma {:induction false} KeyNoLonger(es: seq<IndexEntry>, interval: nat, i: nat)
    requires interval >= 1 && i < |es|
    ensures |es[i].key| <= Offset(es, interval, i + 1)
  {
    EntryGrows(es, interval, i);
    if i > 0 {
      KeyNoLonger(es, interval, i - 1);
    }
  }

  lemma EntryGrows(es: seq<IndexEntry>, interval: nat, i: nat)
    requires interval >= 1 && i < |es|
    ensures Offset(es, interval, i + 1) >= Offset(es, interval, i) + |es[i].key| - SharedAt(es, interval, i)
  {
    EntryStandsAtOffset(es, interval, i);
    EntryNoShorter(SharedAt(es, interval, i), es[i], LastHandle(es[..i]));
  }

  lemma EntryNoShorter(shared: nat, e: IndexEntry, prev: Option<BlockHandle>)
    requires shared <= |e.key| && (shared > 0 ==> prev.Some?)
    ensures |EncodeEntry(shared, e, prev)| >= |e.key| - shared
  {
  }

  lemma WrittenKeysFit(es: seq<IndexEntry>, interval: nat)
    requires interval >= 1 && |BlockBytes(es, interval)| < U32_LIMIT
    ensures FitKeys(es)
  {
    forall i | 0 <= i < |es| ensures |es[i].key| < U32_LIMIT {
      KeyNoLonger(es, interval, i);
      EntryStandsAtOffset(es, interval, i);
    }
  }
}
