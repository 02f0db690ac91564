/** Data blocks: prefix-shared entries written by `BlockBuilder` and read back by `ForEachEntry`. */
module DataBlock {
  import opened Wrappers
  import opened ByteStrings
  import opened Varint
  import opened InternalKeys
  import opened Blocks
  import opened Lists

  // ----- The format

  function EncodeEntry(shared: nat, e: Entry): Bytes
    requires shared <= |e.key|
  {
    EncodeVarint(shared) + EncodeVarint(|e.key| - shared) + EncodeVarint(|e.value|) + e.key[shared..] + e.value
  }

  // How many bytes of entry i's key are taken from the key before it.
  function SharedAt(es: seq<Entry>, interval: nat, i: nat): (n: nat)
    requires interval >= 1 && i < |es|
    ensures n <= |es[i].key|
    ensures n > 0 ==> i > 0 && n <= |es[i - 1].key| && es[i - 1].key[..n] == es[i].key[..n]
  {
    if IsRestart(i, interval) || i == 0 then 0 else SharedPrefixLen(es[i - 1].key, es[i].key)
  }

  function Encode(es: seq<Entry>, interval: nat): Bytes
    requires interval >= 1
  {
    if es == [] then []
    else
      var n := |es| - 1;
      Encode(es[..n], interval) + EncodeEntry(SharedAt(es, interval, n), es[n])
  }

  // Where entry i starts.
  function Offset(es: seq<Entry>, interval: nat, i: nat): nat
    requires interval >= 1 && i <= |es|
  {
    |Encode(es[..i], interval)|
  }

  function Offsets(es: seq<Entry>, interval: nat): (offsets: seq<nat>)
    requires interval >= 1
    ensures |offsets| == |es| && forall i :: 0 <= i < |es| ==> offsets[i] == Offset(es, interval, i)
  {
    seq(|es|, i requires 0 <= i < |es| => Offset(es, interval, i))
  }

  // The offsets the builder records.
  function Restarts(es: seq<Entry>, interval: nat): seq<nat>
    requires interval >= 1
  {
    RestartPoints(Offsets(es, interval), interval)
  }

  function BlockBytes(es: seq<Entry>, interval: nat): Bytes
    requires interval >= 1
  {
    Encode(es, interval) + RestartTrailer(Restarts(es, interval))
  }

  // ----- The builder

  class BlockBuilder {
    const restartInterval: nat
    var buffer: Bytes
    var restarts: seq<nat>
    var lastKey: Bytes
    var counter: nat
    var finished: bool
    ghost var entries: seq<Entry>

    ghost predicate Valid()
      reads this
    {
      restartInterval >= 1 && !finished &&
      buffer == Encode(entries, restartInterval) &&
      restarts == Restarts(entries, restartInterval) &&
      lastKey == (if entries == [] then [] else entries[|entries| - 1].key) &&
      counter == CounterAfter(|entries|, restartInterval)
    }

    constructor (restartInterval: nat)
      requires restartInterval >= 1
      ensures Valid() && entries == [] && this.restartInterval == restartInterval
    {
      this.restartInterval := restartInterval;
      buffer, restarts, lastKey, counter, finished, entries := [], [0], [], 0, false, [];
    }

    predicate IsEmpty()
      reads this
    {
      buffer == []
    }

    function CurrentSizeEstimate(): nat
      reads this
    {
      |buffer| + |restarts| * 4 + 4
    }

    // Lengths and restart offsets are written as 32-bit numbers.
    method Add(key: Bytes, value: Bytes)
      requires Valid() && |buffer| < U32_LIMIT && |key| < U32_LIMIT && |value| < U32_LIMIT
      modifies this
      ensures Valid() && entries == old(entries) + [Entry(key, value)]
    {
      ghost var e := Entry(key, value);
      AddStep(entries, e, restartInterval);
      AsU32Keeps(|buffer|);
      var shared, restarts', counter' := 0, restarts, counter;
      if counter >= restartInterval {
        restarts' := restarts + [AsU32(|buffer|)];
        counter' := 0;
      } else {
        shared := SharedPrefixLen(lastKey, key);
      }
      var out := AppendEntry(buffer, shared, key, value);
      buffer, restarts, lastKey, counter, entries := out, restarts', key, counter' + 1, entries + [e];
    }

    static method AppendEntry(buffer: Bytes, shared: nat, key: Bytes, value: Bytes) returns (out: Bytes)
      requires shared <= |key| < U32_LIMIT && |value| < U32_LIMIT
      ensures out == buffer + EncodeEntry(shared, Entry(key, value))
    {
      var nonShared := |key| - shared;
      AsU32Keeps(shared);
      AsU32Keeps(nonShared);
      AsU32Keeps(|value|);
      out := PutVarint32(buffer, AsU32(shared));
      out := PutVarint32(out, AsU32(nonShared));
      out := PutVarint32(out, AsU32(|value|));
      out := out + key[shared..];
      out := out + value;
      EntryAppended(buffer, shared, Entry(key, value));
    }

    method Finish() returns (raw: Bytes)
      requires Valid() && |restarts| < U32_LIMIT
      modifies this
      ensures raw == BlockBytes(old(entries), restartInterval)
    {
      raw := AppendTrailer(buffer, restarts);
      buffer := raw;
      finished := true;
    }
  }

  // What the counter and the last key tell the builder is what the schedule says.
  lemma AddStep(es: seq<Entry>, e: Entry, interval: nat)
    requires interval >= 1
    ensures var atRestart := CounterAfter(|es|, interval) >= interval;
            var lastKey := if es == [] then [] else es[|es| - 1].key;
            var shared := if atRestart then 0 else SharedPrefixLen(lastKey, e.key);
            Encode(es + [e], interval) == Encode(es, interval) + EncodeEntry(shared, e) &&
            Restarts(es + [e], interval) ==
              (if atRestart then Restarts(es, interval) + [|Encode(es, interval)|] else Restarts(es, interval)) &&
            CounterAfter(|es + [e]|, interval) == (if atRestart then 0 else CounterAfter(|es|, interval)) + 1
  {
    CounterStep(|es|, interval);
    EncodeSnoc(es, e, interval);
  }

  lemma EntryAppended(buffer: Bytes, shared: nat, e: Entry)
    requires shared <= |e.key|
    ensures buffer + EncodeVarint(shared) + EncodeVarint(|e.key| - shared) + EncodeVarint(|e.value|) + e.key[shared..] + e.value
         == buffer + EncodeEntry(shared, e)
  {
  }

  lemma OffsetsSnoc(es: seq<Entry>, e: Entry, interval: nat)
    requires interval >= 1
    ensures Offsets(es + [e], interval) == Offsets(es, interval) + [|Encode(es, interval)|]
  {
    assert (es + [e])[..|es|] == es;
    forall i | 0 <= i < |es| ensures Offset(es + [e], interval, i) == Offset(es, interval, i) {
      assert (es + [e])[..i] == es[..i];
    }
  }

  lemma EncodeSnoc(es: seq<Entry>, e: Entry, interval: nat)
    requires interval >= 1
    ensures SharedAt(es + [e], interval, |es|) ==
            if |es| > 0 && !IsRestart(|es|, interval) then SharedPrefixLen(es[|es| - 1].key, e.key) else 0
    ensures Encode(es + [e], interval) ==
            Encode(es, interval) + EncodeEntry(SharedAt(es + [e], interval, |es|), e)
    ensures Restarts(es + [e], interval) ==
            Restarts(es, interval) + (if |es| > 0 && IsRestart(|es|, interval) then [|Encode(es, interval)|] else [])
  {
    OffsetsSnoc(es, e, interval);
    RestartPointsSnoc(Offsets(es, interval), |Encode(es, interval)|, interval);
    assert (es + [e])[..|es|] == es;
  }

  // ----- The reader

  datatype Step = Step(entry: Entry, next: nat)

  // One entry at `pos`, on top of the key before it.
  function DecodeOne(data: Bytes, pos: nat, scratch: Bytes): (r: Result<Step>)
    ensures r.Success? ==> pos < r.value.next <= |data|
  {
    match Varint32At(data, pos)
    case None => Failure("truncated entry: shared_bytes")
    case Some((shared, p1)) =>
      match Varint32At(data, p1)
      case None => Failure("truncated entry: unshared_bytes")
      case Some((unshared, p2)) =>
        match Varint32At(data, p2)
        case None => Failure("truncated entry: value_length")
        case Some((valueLen, p3)) => TakeEntry(data, p3, scratch, shared, unshared, valueLen)
  }

  function TakeEntry(data: Bytes, p: nat, scratch: Bytes, shared: nat, unshared: nat, valueLen: nat): (r: Result<Step>)
    ensures r.Success? ==> r.value.next == p + unshared + valueLen <= |data|
  {
    if shared > |scratch| then Failure("corrupt entry: shared_bytes exceeds last key length")
    else if p + unshared > |data| then Failure("truncated entry: key_delta")
    else if p + unshared + valueLen > |data| then Failure("truncated entry: value")
    else
      var key := scratch[..shared] + data[p..p + unshared];
      Success(Step(Entry(key, data[p + unshared..p + unshared + valueLen]), p + unshared + valueLen))
  }

  function DecodeEntries(data: Bytes, pos: nat, scratch: Bytes): Result<seq<Entry>>
    decreases |data| - pos
  {
    if pos >= |data| then Success([])
    else
      var step :- DecodeOne(data, pos, scratch);
      var rest :- DecodeEntries(data, step.next, step.entry.key);
      Success([step.entry] + rest)
  }

  // Everything in a block, in order; an error anywhere makes the whole visit an error.
  function BlockEntries(block: ParsedBlock): Result<seq<Entry>>
    requires WellParsed(block)
  {
    DecodeEntries(EntryData(block), 0, [])
  }

  // The reading half of the loop body.
  method ReadEntry(data: Bytes, pos: nat, keyScratch: Bytes) returns (r: Result<Step>)
    ensures r == DecodeOne(data, pos, keyScratch)
  {
    var shared := GetVarint32(data, pos);
    if shared.None? {
      return Failure("truncated entry: shared_bytes");
    }
    var unshared := GetVarint32(data, shared.value.1);
    if unshared.None? {
      return Failure("truncated entry: unshared_bytes");
    }
    var valueLen := GetVarint32(data, unshared.value.1);
    if valueLen.None? {
      return Failure("truncated entry: value_length");
    }
    if shared.value.0 > |keyScratch| {
      return Failure("corrupt entry: shared_bytes exceeds last key length");
    }
    var p3 := valueLen.value.1;
    var p4 := p3 + unshared.value.0;
    if p4 > |data| {
      return Failure("truncated entry: key_delta");
    }
    var key := keyScratch[..shared.value.0] + data[p3..p4];
    var p5 := p4 + valueLen.value.0;
    if p5 > |data| {
      return Failure("truncated entry: value");
    }
    r := Success(Step(Entry(key, data[p4..p5]), p5));
  }

  // The entries a visit meets before the end or the first error.
  function Met(data: Bytes, pos: nat, scratch: Bytes): seq<Entry>
    decreases |data| - pos
  {
    if pos >= |data| then []
    else
      match DecodeOne(data, pos, scratch)
      case Failure(_) => []
      case Success(step) => [step.entry] + Met(data, step.next, step.entry.key)
  }

  // `visited` is what the callback received, on an error too.
  method ForEachEntry(block: ParsedBlock) returns (r: Result<()>, visited: seq<Entry>)
    requires WellParsed(block)
    ensures r.Success? ==> BlockEntries(block) == Success(visited)
    ensures r.Failure? ==> BlockEntries(block) == Failure(r.error)
    ensures visited == Met(EntryData(block), 0, [])
  {
    var data := EntryData(block);
    var keyScratch: Bytes := [];
    var pos := 0;
    visited := [];
    PrependNothing(BlockEntries(block));
    while pos < |data|
      invariant 0 <= pos
      invariant BlockEntries(block) == Prepend(visited, DecodeEntries(data, pos, keyScratch))
      invariant Met(data, 0, []) == visited + Met(data, pos, keyScratch)
      decreases |data| - pos
    {
      var step := ReadEntry(data, pos, keyScratch);
      if step.Failure? {
        assert visited + [] == visited;
        return Failure(step.error), visited;
      }
      VisitOne(data, pos, keyScratch, visited, step.value.entry, step.value.next);
      visited := visited + [step.value.entry];
      keyScratch := step.value.entry.key;
      pos := step.value.next;
    }
    assert visited + [] == visited;
    r := Success(());
  }

  lemma VisitOne(data: Bytes, pos: nat, scratch: Bytes, visited: seq<Entry>, e: Entry, next: nat)
    requires pos < |data| && DecodeOne(data, pos, scratch) == Success(Step(e, next))
    ensures Prepend(visited, DecodeEntries(data, pos, scratch)) == Prepend(visited + [e], DecodeEntries(data, next, e.key))
    ensures visited + Met(data, pos, scratch) == visited + [e] + Met(data, next, e.key)
  {
    ConcatAssociative(visited, [e], Met(data, next, e.key));
    var rest := DecodeEntries(data, next, e.key);
    if rest.Success? {
      ConcatAssociative(visited, [e], rest.value);
    }
  }

  // ----- Reading undoes writing

  ghost predicate FitEntries(es: seq<Entry>) {
    forall i :: 0 <= i < |es| ==> |es[i].key| < U32_LIMIT && |es[i].value| < U32_LIMIT
  }

  // Where the parts of an encoded entry stand.
  lemma EntryParts(data: Bytes, pos: nat, shared: nat, e: Entry, p1: nat, p2: nat, p3: nat, next: nat)
    requires shared <= |e.key| && At(data, pos, EncodeEntry(shared, e)) && next == pos + |EncodeEntry(shared, e)|
    requires p1 == pos + |EncodeVarint(shared)| && p2 == p1 + |EncodeVarint(|e.key| - shared)| && p3 == p2 + |EncodeVarint(|e.value|)|
    ensures At(data, pos, EncodeVarint(shared)) && At(data, p1, EncodeVarint(|e.key| - shared)) && At(data, p2, EncodeVarint(|e.value|))
    ensures At(data, p3, e.key[shared..]) && At(data, p3 + |e.key| - shared, e.value)
    ensures next == p3 + (|e.key| - shared) + |e.value|
  {
    var a, b, l := EncodeVarint(shared), EncodeVarint(|e.key| - shared), EncodeVarint(|e.value|);
    var k := e.key[shared..];
    AtSplit(data, pos, a + b + l + k, e.value);
    AtSplit(data, pos, a + b + l, k);
    AtSplit(data, pos, a + b, l);
    AtSplit(data, pos, a, b);
  }

  lemma DecodeOneHeader(data: Bytes, pos: nat, scratch: Bytes, shared: u32, p1: nat, unshared: u32, p2: nat, valueLen: u32, p3: nat)
    requires Varint32At(data, pos) == Some((shared, p1)) && Varint32At(data, p1) == Some((unshared, p2))
    requires Varint32At(data, p2) == Some((valueLen, p3))
    ensures DecodeOne(data, pos, scratch) == TakeEntry(data, p3, scratch, shared, unshared, valueLen)
  {
  }

  lemma HeaderReads(data: Bytes, pos: nat, scratch: Bytes, shared: u32, p1: nat, unshared: u32, p2: nat, valueLen: u32, p3: nat)
    requires At(data, pos, EncodeVarint(shared)) && p1 == pos + |EncodeVarint(shared)|
    requires At(data, p1, EncodeVarint(unshared)) && p2 == p1 + |EncodeVarint(unshared)|
    requires At(data, p2, EncodeVarint(valueLen)) && p3 == p2 + |EncodeVarint(valueLen)|
    ensures DecodeOne(data, pos, scratch) == TakeEntry(data, p3, scratch, shared, unshared, valueLen)
  {
    Varint32RoundTrip(data, pos, shared, p1);
    Varint32RoundTrip(data, p1, unshared, p2);
    Varint32RoundTrip(data, p2, valueLen, p3);
    DecodeOneHeader(data, pos, scratch, shared, p1, unshared, p2, valueLen, p3);
  }

  lemma TakeEntryEncoded(data: Bytes, p: nat, scratch: Bytes, shared: nat, e: Entry, unshared: nat, valueLen: nat, next: nat)
    requires shared <= |e.key| && shared <= |scratch| && scratch[..shared] == e.key[..shared]
    requires At(data, p, e.key[shared..]) && At(data, p + |e.key| - shared, e.value)
    requires unshared == |e.key| - shared && valueLen == |e.value| && next == p + unshared + valueLen
    ensures TakeEntry(data, p, scratch, shared, unshared, valueLen) == Success(Step(e, next))
  {
    AtIsSlice(data, p, e.key[shared..]);
    AtIsSlice(data, p + |e.key| - shared, e.value);
    assert scratch[..shared] + e.key[shared..] == e.key;
  }

  lemma DecodeOneEncoded(data: Bytes, pos: nat, scratch: Bytes, shared: nat, e: Entry, next: nat)
    requires |e.key| < U32_LIMIT && |e.value| < U32_LIMIT && shared <= |e.key|
    requires At(data, pos, EncodeEntry(shared, e)) && next == pos + |EncodeEntry(shared, e)|
    requires shared <= |scratch| && scratch[..shared] == e.key[..shared]
    ensures DecodeOne(data, pos, scratch) == Success(Step(e, next))
  {
    var unshared, valueLen := |e.key| - shared, |e.value|;
    var p1 := pos + |EncodeVarint(shared)|;
    var p2 := p1 + |EncodeVarint(unshared)|;
    var p3 := p2 + |EncodeVarint(valueLen)|;
    EntryParts(data, pos, shared, e, p1, p2, p3, next);
    HeaderReads(data, pos, scratch, shared, p1, unshared, p2, valueLen, p3);
    TakeEntryEncoded(data, p3, scratch, shared, e, unshared, valueLen, next);
  }

  lemma EncodeStep(es: seq<Entry>, interval: nat, i: nat)
    requires interval >= 1 && i < |es|
    ensures Encode(es[..i + 1], interval) == Encode(es[..i], interval) + EncodeEntry(SharedAt(es, interval, i), es[i])
  {
    assert es[..i + 1] == es[..i] + [es[i]];
    EncodeSnoc(es[..i], es[i], interval);
  }

  lemma {:induction false} EncodePrefix(es: seq<Entry>, interval: nat, i: nat)
    requires interval >= 1 && i <= |es|
    ensures Encode(es[..i], interval) <= Encode(es, interval)
    decreases |es| - i
  {
    if i == |es| {
      assert es[..i] == es;
    } else {
      EncodeStep(es, interval, i);
      EncodePrefix(es, interval, i + 1);
    }
  }

  // Entry i stands at its offset, and the next entry follows it.
  lemma EntryStandsAtOffset(es: seq<Entry>, interval: nat, i: nat)
    requires interval >= 1 && i < |es|
    ensures At(Encode(es, interval), Offset(es, interval, i), EncodeEntry(SharedAt(es, interval, i), es[i]))
    ensures Offset(es, interval, i + 1) == Offset(es, interval, i) + |EncodeEntry(SharedAt(es, interval, i), es[i])|
    ensures Offset(es, interval, i) < Offset(es, interval, i + 1) <= |Encode(es, interval)|
  {
    EncodeStep(es, interval, i);
    EncodePrefix(es, interval, i + 1);
    AtInPrefix(Encode(es, interval), Encode(es[..i], interval), EncodeEntry(SharedAt(es, interval, i), es[i]));
  }

  lemma RestartAtZero(interval: nat)
    requires interval >= 1
    ensures IsRestart(0, interval)
  {
    DivModUnique(0, interval, 0, 0);
  }

  // The bytes of entry i: what it shares, what it does not, its value's length, the rest of its key, its value.
  // At every interval-th entry nothing is shared, at any other all that can be.
  lemma EntryLayout(es: seq<Entry>, interval: nat, i: nat) returns (shared: nat)
    requires interval >= 1 && i < |es|
    ensures i % interval == 0 ==> shared == 0
    ensures i % interval != 0 ==> i > 0 && IsLongestCommonPrefix(es[i - 1].key, es[i].key, shared)
    ensures shared <= |es[i].key|
    ensures var e := es[i];
            var bytes := EncodeVarint(shared) + EncodeVarint(|e.key| - shared) + EncodeVarint(|e.value|) + e.key[shared..] + e.value;
            At(Encode(es, interval), Offset(es, interval, i), bytes) &&
            Offset(es, interval, i + 1) == Offset(es, interval, i) + |bytes|
  {
    EntryStandsAtOffset(es, interval, i);
    RestartAtZero(interval);
    shared := SharedAt(es, interval, i);
  }

  // The scratch key holds what entry i takes from the key before it.
  ghost predicate KnowsShared(es: seq<Entry>, interval: nat, i: nat, scratch: Bytes)
    requires interval >= 1 && i < |es|
  {
    var shared := SharedAt(es, interval, i);
    shared <= |scratch| && scratch[..shared] == es[i].key[..shared]
  }

  lemma KeyBeforeKnowsShared(es: seq<Entry>, interval: nat, i: nat)
    requires interval >= 1 && 0 < i < |es|
    ensures KnowsShared(es, interval, i, es[i - 1].key)
  {
  }

  lemma DecodeNext(data: Bytes, pos: nat, scratch: Bytes, e: Entry, next: nat, rest: seq<Entry>)
    requires pos < |data| && DecodeOne(data, pos, scratch) == Success(Step(e, next))
    requires DecodeEntries(data, next, e.key) == Success(rest)
    ensures DecodeEntries(data, pos, scratch) == Success([e] + rest)
  {
  }

  lemma DecodeOneAtOffset(es: seq<Entry>, interval: nat, i: nat, scratch: Bytes)
    requires interval >= 1 && i < |es| && FitEntries(es) && KnowsShared(es, interval, i, scratch)
    ensures Offset(es, interval, i) < |Encode(es, interval)|
    ensures DecodeOne(Encode(es, interval), Offset(es, interval, i), scratch) == Success(Step(es[i], Offset(es, interval, i + 1)))
  {
    var e, shared := es[i], SharedAt(es, interval, i);
    EntryStandsAtOffset(es, interval, i);
    assert |e.key| < U32_LIMIT && |e.value| < U32_LIMIT;
    DecodeOneEncoded(Encode(es, interval), Offset(es, interval, i), scratch, shared, e, Offset(es, interval, i + 1));
  }

  // Decoding from entry i's offset yields exactly the entries from i on, given what it shares with the key before it.
  lemma {:induction false} DecodeFromEntry(es: seq<Entry>, interval: nat, i: nat, scratch: Bytes)
    requires interval >= 1 && i <= |es| && FitEntries(es)
    requires i < |es| ==> KnowsShared(es, interval, i, scratch)
    ensures DecodeEntries(Encode(es, interval), Offset(es, interval, i), scratch) == Success(es[i..])
    decreases |es| - i
  {
    if i == |es| {
      assert es[..i] == es && es[i..] == [];
    } else {
      if i + 1 < |es| {
        KeyBeforeKnowsShared(es, interval, i + 1);
      }
      DecodeFromEntry(es, interval, i + 1, es[i].key);
      DecodeOneAtOffset(es, interval, i, scratch);
      SuffixCons(es, i);
      DecodeNext(Encode(es, interval), Offset(es, interval, i), scratch, es[i], Offset(es, interval, i + 1), es[i + 1..]);
    }
  }

  lemma RestartsBounded(es: seq<Entry>, interval: nat)
    requires interval >= 1
    ensures forall k :: 0 <= k < |Restarts(es, interval)| ==> Restarts(es, interval)[k] <= |Encode(es, interval)|
  {
    var rs := Restarts(es, interval);
    forall k | 0 <= k < |rs| ensures rs[k] <= |Encode(es, interval)| {
      var i := RestartOf(Offsets(es, interval), interval, rs[k]);
      if i > 0 {
        EncodePrefix(es, interval, i);
      }
    }
  }

  lemma BlockFits(es: seq<Entry>, interval: nat)
    requires interval >= 1 && |BlockBytes(es, interval)| < U32_LIMIT
    ensures FitU32(Restarts(es, interval))
  {
    RestartsBounded(es, interval);
  }

  // The reader returns exactly the entries added, for any keys and values and any restart interval.
  lemma DataBlockRoundTrip(es: seq<Entry>, interval: nat)
    requires interval >= 1 && FitEntries(es) && |BlockBytes(es, interval)| < U32_LIMIT
    ensures var block := ParsedBlock(BlockBytes(es, interval), Restarts(es, interval));
            ParseBlock(BlockBytes(es, interval)) == Success(block) && WellParsed(block) &&
            BlockEntries(block) == Success(es)
  {
    BlockFits(es, interval);
    ParseRoundTrip(Encode(es, interval), Restarts(es, interval));
    RestartAtZero(interval);
    DecodeFromEntry(es, interval, 0, []);
    assert es[..0] == [] && es[0..] == es;
  }

  // ----- Restart points

  // Restart k is the offset of entry k * interval, and there is one for every such entry.
  lemma RestartsAre(es: seq<Entry>, interval: nat)
    requires interval >= 1
    ensures |Restarts(es, interval)| == (if es == [] then 1 else (|es| - 1) / interval + 1)
    ensures forall k :: 0 <= k < |Restarts(es, interval)| ==>
              0 <= k * interval <= |es| && Restarts(es, interval)[k] == Offset(es, interval, k * interval)
  {
    if es != [] {
      assert es[..0] == [];
      RestartPointsAre(Offsets(es, interval), interval);
    }
  }

  // A restart point is a sound place to start reading: its entry shares nothing, and decoding from it
  // with no key at hand yields exactly the entries from there on.
  lemma RestartIsSeekTarget(es: seq<Entry>, interval: nat, k: nat)
    requires interval >= 1 && FitEntries(es) && k < |Restarts(es, interval)|
    ensures 0 <= k * interval <= |es|
    ensures k * interval < |es| ==> SharedAt(es, interval, k * interval) == 0
    ensures DecodeEntries(Encode(es, interval), Restarts(es, interval)[k], []) == Success(es[k * interval..])
  {
    RestartsAre(es, interval);
    assert k * interval == interval * k + 0;
    DivModUnique(k * interval, interval, k, 0);
    DecodeFromEntry(es, interval, k * interval, []);
  }
}
