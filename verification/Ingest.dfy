/** Rewriting a compaction's output for ingestion: every sequence number becomes zero. */
module Ingest {
  import opened ByteStrings
  import opened InternalKeys
  import opened Comparators
  import opened Merging
  import opened Strategy
  import opened Compaction
  import opened Footer
  import opened SstBuilder
  import opened SstLoader
  import opened Pipeline

  // At most one version per user key.
  ghost predicate OneVersionEach(es: seq<Entry>)
    requires AllAccepted(IK, es)
  {
    forall i, j :: 0 <= i < j < |es| ==> UserKey(es[i].key) != UserKey(es[j].key)
  }

  // Whatever merge output is walked, equal internal keys included.
  lemma BottommostLeavesOneVersion(kept: bool, es: seq<Entry>)
    requires Sorted(IK, es)
    ensures StrictlySorted(IK, Walk(Bottommost, kept, es).output) && OneVersionEach(Walk(Bottommost, kept, es).output)
  {
    var out := Walk(Bottommost, kept, es).output;
    WalkKeeps(Bottommost, kept, es);
    StrictIsSorted(IK, out);
    forall i, j | 0 <= i < j < |out| ensures UserKey(out[i].key) != UserKey(out[j].key) {
      assert out[i] in out && out[j] in out;
    }
  }

  // With every sequence number zero, versions of one user key are told apart by their type bytes alone.
  ghost predicate TypesDescend(es: seq<Entry>)
    requires AllAccepted(IK, es)
  {
    forall i, j :: 0 <= i < j < |es| && UserKey(es[i].key) == UserKey(es[j].key) ==>
      TypeByte(es[i].key) > TypeByte(es[j].key)
  }

  lemma RewrittenOrder(a: Bytes, b: Bytes)
    requires IsInternalKey(a) && IsInternalKey(b) && IK.Lt(a, b)
    ensures IK.Lt(ZeroOutSeqno(a), ZeroOutSeqno(b)) <==>
            (UserKey(a) == UserKey(b) ==> TypeByte(a) > TypeByte(b))
  {
    var a', b' := ZeroOutSeqno(a), ZeroOutSeqno(b);
    assert Packed(a') == TypeByte(a) && Packed(b') == TypeByte(b);
    CompareBytesReverse(UserKey(a), UserKey(b));
  }

  // Rewriting strictly sorted entries keeps them strictly sorted if and only if, within each user key,
  // the type bytes alone already put the versions in their order.
  lemma RewriteKeepsOrderIff(es: seq<Entry>)
    requires StrictlySorted(IK, es)
    ensures AllAccepted(IK, ZeroEntries(es))
    ensures StrictlySorted(IK, ZeroEntries(es)) <==> TypesDescend(es)
  {
    forall i, j | 0 <= i < j < |es|
      ensures IK.Lt(ZeroEntries(es)[i].key, ZeroEntries(es)[j].key) <==>
              (UserKey(es[i].key) == UserKey(es[j].key) ==> TypeByte(es[i].key) > TypeByte(es[j].key))
    {
      RewrittenOrder(es[i].key, es[j].key);
    }
  }

  // Bottommost output can always be ingested: rewritten, it is strictly sorted, every sequence number is
  // zero, and user keys, type bytes and values are what they were.
  lemma BottommostRewritesSafely(kept: bool, es: seq<Entry>)
    requires Sorted(IK, es)
    ensures var out := Walk(Bottommost, kept, es).output;
            AllAccepted(IK, out) && StrictlySorted(IK, ZeroEntries(out)) &&
            forall i :: 0 <= i < |out| ==>
              var r := ZeroEntries(out)[i];
              Sequence(r.key) == 0 && UserKey(r.key) == UserKey(out[i].key) &&
              TypeByte(r.key) == TypeByte(out[i].key) && r.value == out[i].value
  {
    BottommostLeavesOneVersion(kept, es);
    RewriteKeepsOrderIff(Walk(Bottommost, kept, es).output);
  }

  // Two versions of a user key with the same type, as a snapshot-aware compaction can keep, become one key.
  lemma VersionsCollide(a: Bytes, b: Bytes)
    requires IsInternalKey(a) && IsInternalKey(b) && UserKey(a) == UserKey(b) && TypeByte(a) == TypeByte(b)
    ensures ZeroOutSeqno(a) == ZeroOutSeqno(b)
  {
    KeyDeterminedByParts(ZeroOutSeqno(a), ZeroOutSeqno(b));
  }

  // End to end: a bottommost compaction in ingest mode writes a file whose entries are strictly sorted with
  // every sequence number zero, from any sources that fit.
  lemma IngestedFile(opts: SstBuilderOptions, kept: bool, sources: seq<seq<Entry>>, file: Bytes)
    requires opts.externalSstGlobalSeqno.Some?
    requires EveryMergeFits(opts, Bottommost, kept, sources) && CompactsTo(opts, Bottommost, kept, sources, file)
    ensures FOOTER_LEN <= |file| < U64_LIMIT
    ensures var loaded := LoadFile(opts.foreign, file);
            loaded.Success? && StrictlySorted(IK, loaded.value) &&
            forall i :: 0 <= i < |loaded.value| ==> Sequence(loaded.value[i].key) == 0
  {
    var output := CompactedReadsBack(opts, Bottommost, kept, sources, file);
    var merged, trace :| IsMerge(IK, sources, merged, trace) && output == Walk(Bottommost, kept, merged).output;
    BottommostRewritesSafely(kept, merged);
  }
}
