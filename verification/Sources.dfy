/** A merge input: one byte arena shared by all shards of a file, spans into it, and a window over the spans. */
module Sources {
  import opened Wrappers
  import opened ByteStrings
  import opened InternalKeys
  import opened Comparators
  import opened Merging

  datatype EntrySpan = EntrySpan(keyOff: u32, keyLen: u32, valOff: u32, valLen: u32)

  predicate SpanFits(arena: Bytes, span: EntrySpan) {
    span.keyOff + span.keyLen <= |arena| && span.valOff + span.valLen <= |arena|
  }

  predicate SpansFit(arena: Bytes, spans: seq<EntrySpan>) {
    |arena| < U32_LIMIT && forall i :: 0 <= i < |spans| ==> SpanFits(arena, spans[i])
  }

  function EntryAt(arena: Bytes, span: EntrySpan): Entry
    requires SpanFits(arena, span)
  {
    Entry(arena[span.keyOff..span.keyOff + span.keyLen], arena[span.valOff..span.valOff + span.valLen])
  }

  function EntriesAt(arena: Bytes, spans: seq<EntrySpan>): (es: seq<Entry>)
    requires SpansFit(arena, spans)
    ensures |es| == |spans| && forall i :: 0 <= i < |es| ==> es[i] == EntryAt(arena, spans[i])
  {
    seq(|spans|, i requires 0 <= i < |spans| => EntryAt(arena, spans[i]))
  }

  // Growing the arena at the end leaves the entries already in it alone.
  lemma PushedEntries(arena: Bytes, spans: seq<EntrySpan>, key: Bytes, value: Bytes)
    requires SpansFit(arena, spans) && |arena| + |key| + |value| < U32_LIMIT
    ensures var arena' := arena + key + value;
            var spans' := spans + [EntrySpan(|arena|, |key|, |arena| + |key|, |value|)];
            SpansFit(arena', spans') && EntriesAt(arena', spans') == EntriesAt(arena, spans) + [Entry(key, value)]
  {
    var arena' := arena + key + value;
    var last := EntrySpan(|arena|, |key|, |arena| + |key|, |value|);
    assert EntryAt(arena', last) == Entry(key, value);
    forall i | 0 <= i < |spans| ensures SpanFits(arena', spans[i]) && EntryAt(arena', spans[i]) == EntryAt(arena, spans[i]) {
    }
  }

  // The index of the first entry whose user key is not below the boundary's.
  function FirstNotBelow(es: seq<Entry>, boundary: Bytes): (r: nat)
    requires AllAccepted(InternalKeyComparator, es) && IsInternalKey(boundary)
    ensures r <= |es|
  {
    if es == [] || CompareUserKeys(es[0].key, boundary) != Less then 0 else 1 + FirstNotBelow(es[1..], boundary)
  }

  lemma {:induction false} FirstNotBelowIs(es: seq<Entry>, boundary: Bytes, r: nat)
    requires AllAccepted(InternalKeyComparator, es) && IsInternalKey(boundary) && r <= |es|
    requires forall i :: 0 <= i < r ==> CompareUserKeys(es[i].key, boundary) == Less
    requires r < |es| ==> CompareUserKeys(es[r].key, boundary) != Less
    ensures FirstNotBelow(es, boundary) == r
  {
    if r > 0 {
      FirstNotBelowIs(es[1..], boundary, r - 1);
    }
  }

  lemma {:induction false} FirstNotBelowSplits(es: seq<Entry>, boundary: Bytes)
    requires AllAccepted(InternalKeyComparator, es) && IsInternalKey(boundary)
    ensures var r := FirstNotBelow(es, boundary);
            (forall i :: 0 <= i < r ==> CompareUserKeys(es[i].key, boundary) == Less) &&
            (r < |es| ==> CompareUserKeys(es[r].key, boundary) != Less)
  {
    if !(es == [] || CompareUserKeys(es[0].key, boundary) != Less) {
      FirstNotBelowSplits(es[1..], boundary);
      var r := FirstNotBelow(es, boundary);
      assert forall i :: 0 < i < r ==> es[i] == es[1..][i - 1];
    }
  }

  // Sorted internal keys have non-decreasing user keys.
  lemma SortedUserKeys(es: seq<Entry>, i: nat, j: nat)
    requires Sorted(InternalKeyComparator, es) && i <= j < |es|
    ensures CompareUserKeys(es[i].key, es[j].key) != Greater
  {
    CompareReverse(InternalKeyComparator, es[i].key, es[j].key);
  }

  lemma BelowIsDownClosed(es: seq<Entry>, boundary: Bytes, i: nat, j: nat)
    requires Sorted(InternalKeyComparator, es) && IsInternalKey(boundary) && i <= j < |es|
    requires CompareUserKeys(es[j].key, boundary) == Less
    ensures CompareUserKeys(es[i].key, boundary) == Less
  {
    SortedUserKeys(es, i, j);
    CompareBytesTransitive(UserKey(es[i].key), UserKey(es[j].key), UserKey(boundary));
  }

  class ArenaSource {
    const arena: Bytes
    const spans: seq<EntrySpan>
    var pos: nat
    const end: nat

    constructor (arena: Bytes, spans: seq<EntrySpan>, pos: nat, end: nat)
      ensures this.arena == arena && this.spans == spans && this.pos == pos && this.end == end
    {
      this.arena, this.spans, this.pos, this.end := arena, spans, pos, end;
    }

    ghost predicate Valid() {
      SpansFit(arena, spans) && end <= |spans|
    }

    // The whole file's entries, whatever the window.
    ghost function Entries(): seq<Entry>
      requires Valid()
    {
      EntriesAt(arena, spans)
    }

    // What the window still has to yield.
    ghost function Remaining(): seq<Entry>
      reads this
      requires Valid()
    {
      if pos >= end then [] else Entries()[pos..end]
    }

    function Len(): (n: nat)
      reads this
      requires Valid()
      ensures n == |Remaining()|
    {
      end - (if pos < end then pos else end)
    }

    function TotalLen(): (n: nat)
      requires Valid()
      ensures n == |Entries()|
    {
      |spans|
    }

    function KeyAt(i: nat): (key: Bytes)
      requires Valid() && i < |spans|
      ensures key == Entries()[i].key
    {
      EntryAt(arena, spans[i]).key
    }

    function Peek(): (r: Option<Entry>)
      reads this
      requires Valid()
      ensures r == if Remaining() == [] then None else Some(Remaining()[0])
    {
      // the window ends inside the spans, so looking up span `pos` cannot fail
      if pos >= end then None else Some(EntryAt(arena, spans[pos]))
    }

    method Advance()
      requires Valid() && Remaining() != []
      modifies this
      ensures Remaining() == old(Remaining())[1..]
    {
      pos := pos + 1;
    }

    // A window over entries start..endIdx of the original source, sharing its arena.
    // The requires is the program's own assertion.
    method Shard(start: nat, endIdx: nat) returns (s: ArenaSource)
      requires Valid() && start <= endIdx <= |spans|
      ensures fresh(s) && s.Valid() && s.Entries() == Entries()
      ensures s.Remaining() == Entries()[start..endIdx]
    {
      s := new ArenaSource(arena, spans, start, endIdx);
    }

    // Binary search over the spans, by user key only.
    method LowerBound(boundary: Bytes) returns (r: nat)
      requires Valid() && Sorted(InternalKeyComparator, Entries()) && IsInternalKey(boundary)
      ensures r == FirstNotBelow(Entries(), boundary)
    {
      var lo, hi := 0, |spans|;
      while lo < hi
        invariant 0 <= lo <= hi <= |spans|
        invariant forall i :: 0 <= i < lo ==> CompareUserKeys(Entries()[i].key, boundary) == Less
        invariant forall i :: hi <= i < |spans| ==> CompareUserKeys(Entries()[i].key, boundary) != Less
      {
        var mid := (lo + hi) / 2;
        forall i | 0 <= i < |spans|
          ensures i <= mid && CompareUserKeys(Entries()[mid].key, boundary) == Less ==>
                  CompareUserKeys(Entries()[i].key, boundary) == Less
          ensures mid <= i && CompareUserKeys(Entries()[mid].key, boundary) != Less ==>
                  CompareUserKeys(Entries()[i].key, boundary) != Less
        {
          if i <= mid && CompareUserKeys(Entries()[mid].key, boundary) == Less {
            BelowIsDownClosed(Entries(), boundary, i, mid);
          }
          if mid <= i && CompareUserKeys(Entries()[i].key, boundary) == Less {
            BelowIsDownClosed(Entries(), boundary, mid, i);
          }
        }
        if CompareUserKeys(KeyAt(mid), boundary) == Less {
          lo := mid + 1;
        } else {
          hi := mid;
        }
      }
      FirstNotBelowIs(Entries(), boundary, lo);
      r := lo;
    }
  }

  class ArenaSourceBuilder {
    var arena: Bytes
    var spans: seq<EntrySpan>

    ghost predicate Valid()
      reads this
    {
      SpansFit(arena, spans)
    }

    ghost function Contents(): seq<Entry>
      reads this
      requires Valid()
    {
      EntriesAt(arena, spans)
    }

    constructor ()
      ensures Valid() && Contents() == [] && arena == []
    {
      arena, spans := [], [];
    }

    // Offsets and lengths are 32-bit, which caps the arena at 4 GiB.
    method Push(key: Bytes, value: Bytes)
      requires Valid() && |arena| + |key| + |value| < U32_LIMIT
      modifies this
      ensures Valid() && Contents() == old(Contents()) + [Entry(key, value)]
      ensures arena == old(arena) + key + value
    {
      var keyOff := AsU32(|arena|);
      arena := arena + key;
      var keyLen := AsU32(|key|);
      var valOff := AsU32(|arena|);
      arena := arena + value;
      var valLen := AsU32(|value|);
      spans := spans + [EntrySpan(keyOff, keyLen, valOff, valLen)];
      AsU32Keeps(|old(arena)|);
      AsU32Keeps(|old(arena)| + |key|);
      AsU32Keeps(|key|);
      AsU32Keeps(|value|);
      PushedEntries(old(arena), old(spans), key, value);
    }

    method Build() returns (s: ArenaSource)
      requires Valid()
      ensures fresh(s) && s.Valid() && s.Entries() == s.Remaining() == Contents()
      ensures s.pos == 0
    {
      s := new ArenaSource(arena, spans, 0, |spans|);
    }
  }
}
