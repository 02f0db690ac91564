/** The metaindex block: names of the other blocks and their handles, sorted by name. */
module Metaindex {
  import opened Wrappers
  import opened ByteStrings
  import opened Varint
  import opened InternalKeys
  import opened Comparators
  import opened Blocks
  import opened IndexBlock
  import opened Footer
  import opened Lists
  import D = DataBlock

  datatype NamedHandle = NamedHandle(name: Bytes, handle: BlockHandle)

  // "rocksdb.properties"
  const PROPERTIES_BLOCK_NAME: Bytes :=
    [0x72, 0x6f, 0x63, 0x6b, 0x73, 0x64, 0x62, 0x2e, 0x70, 0x72, 0x6f, 0x70, 0x65, 0x72, 0x74, 0x69, 0x65, 0x73]

  // "rocksdb.index"
  const INDEX_BLOCK_NAME: Bytes :=
    [0x72, 0x6f, 0x63, 0x6b, 0x73, 0x64, 0x62, 0x2e, 0x69, 0x6e, 0x64, 0x65, 0x78]

  const METAINDEX_RESTART_INTERVAL := 1

  // ----- Writing

  function InsertByName(x: NamedHandle, xs: seq<NamedHandle>): (r: seq<NamedHandle>)
    ensures |r| == |xs| + 1
  {
    if xs == [] || CompareBytes(x.name, xs[0].name) != Greater then [x] + xs
    else [xs[0]] + InsertByName(x, xs[1..])
  }

  function SortByName(xs: seq<NamedHandle>): (r: seq<NamedHandle>)
    ensures |r| == |xs|
  {
    if xs == [] then [] else InsertByName(xs[0], SortByName(xs[1..]))
  }

  function MetaEntries(xs: seq<NamedHandle>): (es: seq<Entry>)
    ensures |es| == |xs| && forall i :: 0 <= i < |es| ==> es[i] == Entry(xs[i].name, EncodeHandle(xs[i].handle))
  {
    seq(|xs|, i requires 0 <= i < |xs| => Entry(xs[i].name, EncodeHandle(xs[i].handle)))
  }

  function MetaindexBytes(xs: seq<NamedHandle>): Bytes {
    D.BlockBytes(MetaEntries(SortByName(xs)), METAINDEX_RESTART_INTERVAL)
  }

  lemma EncodedHandleIsShort(h: BlockHandle)
    ensures |EncodeHandle(h)| <= 20
  {
    EncodedIsShort(h.offset);
    EncodedIsShort(h.size);
  }

  method PutHandle(h: BlockHandle) returns (value: Bytes)
    ensures value == EncodeHandle(h) && |value| <= 20
  {
    value := PutVarint64([], h.offset);
    value := PutVarint64(value, h.size);
    EncodedHandleIsShort(h);
  }

  // What has been written so far is no longer than the finished block.
  lemma PartFits(es: seq<Entry>, interval: nat, i: nat)
    requires interval >= 1 && i <= |es| && |D.BlockBytes(es, interval)| < U32_LIMIT
    ensures |D.Encode(es[..i], interval)| < U32_LIMIT
  {
    D.EncodePrefix(es, interval, i);
  }

  method BuildMetaindexBlock(xs: seq<NamedHandle>) returns (raw: Bytes)
    requires forall y :: y in xs ==> |y.name| < U32_LIMIT
    requires |MetaindexBytes(xs)| < U32_LIMIT
    ensures raw == MetaindexBytes(xs)
  {
    var sorted := SortByName(xs);
    SortMembers(xs);
    ghost var all := MetaEntries(sorted);
    assert forall i :: 0 <= i < |sorted| ==> sorted[i] in sorted && |sorted[i].name| < U32_LIMIT;
    var builder := new D.BlockBuilder(METAINDEX_RESTART_INTERVAL);
    for i := 0 to |sorted|
      invariant builder.Valid() && builder.entries == all[..i] && fresh(builder)
      invariant builder.restartInterval == METAINDEX_RESTART_INTERVAL
    {
      var value := PutHandle(sorted[i].handle);
      PartFits(all, METAINDEX_RESTART_INTERVAL, i);
      builder.Add(sorted[i].name, value);
      TakeSnoc(all, i);
    }
    assert all[..|sorted|] == all;
    D.BlockFits(all, METAINDEX_RESTART_INTERVAL);
    raw := builder.Finish();
  }

  // ----- Reading

  // The first entry of that name whose value holds a handle.
  function FindHandle(es: seq<Entry>, name: Bytes): Option<BlockHandle> {
    if es == [] then None
    else if es[0].key == name && HandleAt(es[0].value, 0).Some? then Some(HandleAt(es[0].value, 0).value.0)
    else FindHandle(es[1..], name)
  }

  function FindMetaHandle(block: ParsedBlock, name: Bytes): Result<Option<BlockHandle>>
    requires WellParsed(block)
  {
    var es :- D.BlockEntries(block);
    Success(FindHandle(es, name))
  }

  lemma FindHandleStep(es: seq<Entry>, name: Bytes, i: nat)
    requires i < |es|
    ensures FindHandle(es[i..], name) ==
            if es[i].key == name && HandleAt(es[i].value, 0).Some? then Some(HandleAt(es[i].value, 0).value.0)
            else FindHandle(es[i + 1..], name)
  {
    assert es[i..][1..] == es[i + 1..];
  }

  method FindMeta(block: ParsedBlock, name: Bytes) returns (r: Result<Option<BlockHandle>>)
    requires WellParsed(block)
    ensures r == FindMetaHandle(block, name)
  {
    var visit, visited := D.ForEachEntry(block);
    if visit.Failure? {
      return Failure(visit.error);
    }
    var found: Option<BlockHandle> := None;
    for i := 0 to |visited|
      invariant FindHandle(visited, name) == if found.Some? then found else FindHandle(visited[i..], name)
    {
      FindHandleStep(visited, name, i);
      if found.None? && visited[i].key == name {
        var handle := HandleAt(visited[i].value, 0);
        if handle.Some? {
          found := Some(handle.value.0);
        }
      }
    }
    r := Success(found);
  }

  // ----- The reader finds what was named

  // The handles stored under a name, in order.
  function Named(xs: seq<NamedHandle>, name: Bytes): seq<BlockHandle> {
    if xs == [] then []
    else (if xs[0].name == name then [xs[0].handle] else []) + Named(xs[1..], name)
  }

  ghost predicate NamesAscend(xs: seq<NamedHandle>) {
    forall i, j :: 0 <= i <= j < |xs| ==> CompareBytes(xs[i].name, xs[j].name) != Greater
  }

  lemma NamesAscendCons(x: NamedHandle, xs: seq<NamedHandle>)
    requires NamesAscend(xs) && forall y :: y in xs ==> CompareBytes(x.name, y.name) != Greater
    ensures NamesAscend([x] + xs)
  {
    CompareBytesReverse(x.name, x.name);
    assert forall i :: 0 <= i < |xs| ==> xs[i] in xs;
  }

  lemma {:induction false} InsertMembers(x: NamedHandle, xs: seq<NamedHandle>)
    ensures multiset(InsertByName(x, xs)) == multiset{x} + multiset(xs)
    ensures forall y :: y in InsertByName(x, xs) <==> y == x || y in xs
  {
    if !(xs == [] || CompareBytes(x.name, xs[0].name) != Greater) {
      InsertMembers(x, xs[1..]);
      assert xs == [xs[0]] + xs[1..];
    }
  }

  lemma {:induction false} InsertAscends(x: NamedHandle, xs: seq<NamedHandle>)
    requires NamesAscend(xs)
    ensures NamesAscend(InsertByName(x, xs))
  {
    if xs == [] {
      CompareBytesReverse(x.name, x.name);
    } else {
      var y, rest := xs[0], xs[1..];
      assert xs == [y] + rest;
      CompareBytesReverse(x.name, y.name);
      forall z | z in xs ensures CompareBytes(y.name, z.name) != Greater {
        var i :| 0 <= i < |xs| && xs[i] == z;
      }
      if CompareBytes(x.name, y.name) != Greater {
        forall z | z in xs ensures CompareBytes(x.name, z.name) != Greater {
          CompareBytesTransitive(x.name, y.name, z.name);
        }
        NamesAscendCons(x, xs);
      } else {
        InsertAscends(x, rest);
        InsertMembers(x, rest);
        NamesAscendCons(y, InsertByName(x, rest));
      }
    }
  }

  // Insertion passes only handles of smaller names, so x comes before those of its own name.
  lemma {:induction false} InsertIsStable(x: NamedHandle, xs: seq<NamedHandle>, name: Bytes)
    ensures Named(InsertByName(x, xs), name) == (if x.name == name then [x.handle] else []) + Named(xs, name)
  {
    if xs == [] || CompareBytes(x.name, xs[0].name) != Greater {
      NamedCons(x, xs, name);
    } else {
      var y, rest := xs[0], xs[1..];
      CompareBytesReverse(x.name, y.name);
      InsertIsStable(x, rest, name);
      NamedCons(y, InsertByName(x, rest), name);
      NamedCons(y, rest, name);
      assert xs == [y] + rest;
      TakeOneFirst(if x.name == name then [x.handle] else [], if y.name == name then [y.handle] else [], Named(rest, name));
    }
  }

  lemma TakeOneFirst(a: seq<BlockHandle>, b: seq<BlockHandle>, d: seq<BlockHandle>)
    requires a == [] || b == []
    ensures b + (a + d) == a + (b + d)
  {
  }

  lemma NamedCons(x: NamedHandle, xs: seq<NamedHandle>, name: Bytes)
    ensures Named([x] + xs, name) == (if x.name == name then [x.handle] else []) + Named(xs, name)
  {
    assert ([x] + xs)[1..] == xs;
  }

  // The sort is by name, loses and invents nothing, and is stable.
  lemma {:induction false} SortKeepsOrder(xs: seq<NamedHandle>, name: Bytes)
    ensures NamesAscend(SortByName(xs)) && multiset(SortByName(xs)) == multiset(xs)
    ensures Named(SortByName(xs), name) == Named(xs, name)
  {
    if xs == [] {
    } else {
      SortKeepsOrder(xs[1..], name);
      InsertMembers(xs[0], SortByName(xs[1..]));
      InsertAscends(xs[0], SortByName(xs[1..]));
      InsertIsStable(xs[0], SortByName(xs[1..]), name);
      assert xs == [xs[0]] + xs[1..];
    }
  }

  lemma SortMembers(xs: seq<NamedHandle>)
    ensures forall y :: y in SortByName(xs) <==> y in xs
  {
    SortKeepsOrder(xs, []);
    forall y ensures y in SortByName(xs) <==> y in xs {
      assert y in SortByName(xs) <==> y in multiset(SortByName(xs));
      assert y in xs <==> y in multiset(xs);
    }
  }

  lemma HandleRoundTrip(h: BlockHandle)
    ensures HandleAt(EncodeHandle(h), 0) == Some((h, |EncodeHandle(h)|))
  {
    DecodeFullEncoded(EncodeHandle(h), 0, h, |EncodeHandle(h)|);
  }

  lemma {:induction false} FindHandleFinds(xs: seq<NamedHandle>, name: Bytes)
    ensures FindHandle(MetaEntries(xs), name) == if Named(xs, name) == [] then None else Some(Named(xs, name)[0])
  {
    if xs != [] {
      assert MetaEntries(xs)[1..] == MetaEntries(xs[1..]);
      HandleRoundTrip(xs[0].handle);
      FindHandleFinds(xs[1..], name);
    }
  }

  // Looking up any name in a written metaindex finds the first handle stored under it, or nothing if the name
  // was not written.
  lemma MetaindexRoundTrip(xs: seq<NamedHandle>, name: Bytes)
    requires forall y :: y in xs ==> |y.name| < U32_LIMIT
    requires |MetaindexBytes(xs)| < U32_LIMIT
    ensures var parsed := ParseBlock(MetaindexBytes(xs));
            parsed.Success? &&
            FindMetaHandle(parsed.value, name) == Success(if Named(xs, name) == [] then None else Some(Named(xs, name)[0]))
  {
    var sorted := SortByName(xs);
    SortMembers(xs);
    var es := MetaEntries(sorted);
    forall i | 0 <= i < |es| ensures |es[i].key| < U32_LIMIT && |es[i].value| < U32_LIMIT {
      assert sorted[i] in sorted;
      EncodedHandleIsShort(sorted[i].handle);
    }
    D.DataBlockRoundTrip(es, METAINDEX_RESTART_INTERVAL);
    SortKeepsOrder(xs, name);
    FindHandleFinds(sorted, name);
  }

  lemma NamesDiffer()
    ensures PROPERTIES_BLOCK_NAME != INDEX_BLOCK_NAME
    ensures |PROPERTIES_BLOCK_NAME| < U32_LIMIT && |INDEX_BLOCK_NAME| < U32_LIMIT
  {
    assert |PROPERTIES_BLOCK_NAME| == 18 && |INDEX_BLOCK_NAME| == 13;
  }

  // Of two names each finds its own handle.
  lemma BothFound(a: NamedHandle, b: NamedHandle)
    requires a.name != b.name && |a.name| < U32_LIMIT && |b.name| < U32_LIMIT && |MetaindexBytes([a, b])| < U32_LIMIT
    ensures var parsed := ParseBlock(MetaindexBytes([a, b]));
            parsed.Success? && FindMetaHandle(parsed.value, a.name) == Success(Some(a.handle)) &&
            FindMetaHandle(parsed.value, b.name) == Success(Some(b.handle))
  {
    var xs := [a, b];
    NamedPair(a, b);
    MetaindexRoundTrip(xs, a.name);
    MetaindexRoundTrip(xs, b.name);
  }

  lemma NamedPair(a: NamedHandle, b: NamedHandle)
    requires a.name != b.name
    ensures Named([a, b], a.name) == [a.handle] && Named([a, b], b.name) == [b.handle]
  {
    assert [a] + ([b] + []) == [a, b];
    NamedCons(a, [b] + [], a.name);
    NamedCons(b, [], a.name);
    NamedCons(a, [b] + [], b.name);
    NamedCons(b, [], b.name);
  }
}
