/** Point reads at a sequence number, done through the bytes of a compacted file. */
module PointReads {
  import opened Wrappers
  import opened ByteStrings
  import opened InternalKeys
  import opened Comparators
  import opened Merging
  import opened Strategy
  import opened Compaction
  import opened SnapshotReads
  import opened BlockTrailer
  import opened Footer
  import opened SstBuilder
  import opened SstLoader
  import opened IndexSeek

  // The first internal key a read of u at s may stop at.
  function SeekKey(u: Bytes, s: nat): Bytes {
    MakeKey(u, s * 256 + 0xff)
  }

  // What a seek finds, if it is a version of u at all.
  function VersionOf(u: Bytes, found: Option<Entry>): Option<Entry> {
    if found.Some? && IsInternalKey(found.value.key) && UserKey(found.value.key) == u then found else None
  }

  lemma SeekKeyParts(u: Bytes, s: nat)
    requires s <= MAX_SEQUENCE
    ensures IsInternalKey(SeekKey(u, s)) && UserKey(SeekKey(u, s)) == u && Packed(SeekKey(u, s)) == s * 256 + 0xff
  {
    MakeKeyRoundTrip(SeekKey(u, s), u, s * 256 + 0xff);
  }

  lemma BelowSeekKey(key: Bytes, u: Bytes, s: nat)
    requires IsInternalKey(key) && s <= MAX_SEQUENCE
    ensures UserKey(key) == u ==> (IK.Lt(key, SeekKey(u, s)) <==> Sequence(key) > s)
  {
    SeekKeyParts(u, s);
    VersionsNewestFirst(key, if UserKey(key) == u then SeekKey(u, s) else key);
  }

  // Past the seek key and past the user key there are no versions of it any more.
  lemma NoneBehind(es: seq<Entry>, u: Bytes, s: nat)
    requires Sorted(IK, es) && es != [] && s <= MAX_SEQUENCE
    requires !IK.Lt(es[0].key, SeekKey(u, s)) && UserKey(es[0].key) != u
    ensures Read(es, u, s).None?
  {
    SeekKeyParts(u, s);
    ReadFindsSome(es, u, s);
    if x :| x in es && UserKey(x.key) == u && Sequence(x.key) <= s {
      var i :| 0 <= i < |es| && es[i] == x;
      VersionsAround(SeekKey(u, s), es[0].key, x.key);
    }
  }

  lemma VersionsAround(a: Bytes, b: Bytes, d: Bytes)
    requires IsInternalKey(a) && IsInternalKey(b) && IsInternalKey(d) && UserKey(a) == UserKey(d)
    requires !IK.Lt(b, a) && (b == d || !IK.Lt(d, b))
    ensures UserKey(b) == UserKey(a)
  {
    CompareReverse(IK, a, b);
    CompareReverse(IK, b, d);
    VersionsAreContiguous(a, b, d);
  }

  // A read is a seek to the seek key.
  lemma {:induction false} ReadBySeek(es: seq<Entry>, u: Bytes, s: nat)
    requires Sorted(IK, es) && s <= MAX_SEQUENCE
    ensures Read(es, u, s) == VersionOf(u, FirstAtLeast(es, SeekKey(u, s)))
  {
    if es != [] {
      BelowSeekKey(es[0].key, u, s);
      if IK.Lt(es[0].key, SeekKey(u, s)) {
        ReadBySeek(es[1..], u, s);
      } else if UserKey(es[0].key) != u {
        NoneBehind(es, u, s);
      }
    }
  }

  // Open the file, go to the first block whose separator is not below the seek key, search that block alone.
  function FileRead(foreign: Foreign, file: Bytes, u: Bytes, s: nat): Result<Option<Entry>>
    requires FOOTER_LEN <= |file| < U64_LIMIT
  {
    var f :- Open(foreign, file);
    if !InternalSeparators(f.index) then Failure("malformed separator")
    else
      var j := FirstSeparator(f.index, SeekKey(u, s));
      if j == |f.index| then Success(None)
      else
        var block :- ReadEntries(foreign, file, f.footer, f.index[j].handle);
        if !AllAccepted(IK, block) then Failure("malformed key")
        else Success(VersionOf(u, FirstAtLeast(block, SeekKey(u, s))))
  }

  lemma FileReadIsRead(opts: SstBuilderOptions, es: seq<Entry>, u: Bytes, s: nat)
    requires FileFits(opts, es) && StrictlySorted(IK, es) && s <= MAX_SEQUENCE
    ensures |FileBytes(opts, es)| >= FOOTER_LEN
    ensures FileRead(opts.foreign, FileBytes(opts, es), u, s) == Success(Read(es, u, s))
  {
    FileRoundTrip(opts, es);
    StrictIsSorted(IK, es);
    ReadBySeek(es, u, s);
    SeekThroughIndex(opts, es, SeekKey(u, s));
  }

  // Reading through the file of a snapshot-aware compaction, over any merge output: what the merge output
  // itself would give, exactly when the read is undisturbed; so always at the snapshot and for current reads.
  lemma PointReadThroughFile(opts: SstBuilderOptions, S: nat, kept: bool, merged: seq<Entry>, u: Bytes, s: nat)
    requires Sorted(IK, merged) && s <= MAX_SEQUENCE && opts.externalSstGlobalSeqno.None?
    requires FileFits(opts, Walk(SnapshotAware(S), kept, merged).output)
    ensures var file := SstBytes(opts, Walk(SnapshotAware(S), kept, merged).output);
            FOOTER_LEN <= |file| < U64_LIMIT &&
            (FileRead(opts.foreign, file, u, s) == Success(Read(merged, u, s)) <==> Undisturbed(merged, u, S, s))
  {
    StateDoesNotLeak(SnapshotAware(S), kept, false, merged);
    WalkKeeps(SnapshotAware(S), false, merged);
    FileReadIsRead(opts, Kept(merged, S), u, s);
    ReadPreservedIff(merged, u, S, s);
  }
}
