/**
 Point lookup through the index: go to the first block whose separator is not below the target, and
 search only that block.
 */
module IndexSeek {
  import opened Wrappers
  import opened ByteStrings
  import opened InternalKeys
  import opened Comparators
  import opened Lists
  import opened Merging
  import opened Compaction
  import opened SstBuilder
  import opened SstLoader
  import I = IndexBlock

  // Linear search: the first entry not below the target.
  function FirstAtLeast(es: seq<Entry>, target: Bytes): Option<Entry>
    requires AllAccepted(IK, es) && IsInternalKey(target)
  {
    if es == [] then None
    else if !IK.Lt(es[0].key, target) then Some(es[0])
    else FirstAtLeast(es[1..], target)
  }

  predicate InternalSeparators(index: seq<I.IndexEntry>) {
    forall j :: 0 <= j < |index| ==> IsInternalKey(index[j].key)
  }

  // The block to search; |index| when every separator is below the target.
  function FirstSeparator(index: seq<I.IndexEntry>, target: Bytes): (j: nat)
    requires InternalSeparators(index) && IsInternalKey(target)
    ensures j <= |index|
  {
    if index == [] || !IK.Lt(index[0].key, target) then 0 else 1 + FirstSeparator(index[1..], target)
  }

  lemma {:induction false} FirstAtLeastConcat(a: seq<Entry>, b: seq<Entry>, target: Bytes)
    requires AllAccepted(IK, a) && AllAccepted(IK, b) && IsInternalKey(target)
    ensures FirstAtLeast(a + b, target) ==
            if FirstAtLeast(a, target).Some? then FirstAtLeast(a, target) else FirstAtLeast(b, target)
  {
    if a == [] {
      assert a + b == b;
    } else {
      assert (a + b)[1..] == a[1..] + b;
      FirstAtLeastConcat(a[1..], b, target);
    }
  }

  // In a sorted block there is something at or above the target exactly when its last key is.
  lemma {:induction false} LastDecides(es: seq<Entry>, target: Bytes)
    requires StrictlySorted(IK, es) && es != [] && IsInternalKey(target)
    ensures FirstAtLeast(es, target).Some? <==> !IK.Lt(es[|es| - 1].key, target)
  {
    if |es| > 1 {
      LastDecides(es[1..], target);
      assert es[1..][|es| - 2] == es[|es| - 1];
      StrictIsSorted(IK, es);
      if !IK.Lt(es[0].key, target) {
        NotLtTransitive(IK, target, es[0].key, es[|es| - 1].key);
      }
    }
  }

  // ----- Separators

  lemma {:induction false} BlockSorted(bs: seq<seq<Entry>>, j: nat)
    requires StrictlySorted(IK, Flatten(bs)) && j < |bs|
    ensures StrictlySorted(IK, bs[j])
  {
    var first, rest := bs[0], Flatten(bs[1..]);
    SortedParts(first, rest);
    if j > 0 {
      BlockSorted(bs[1..], j - 1);
    }
  }

  lemma SortedParts(a: seq<Entry>, b: seq<Entry>)
    requires StrictlySorted(IK, a + b)
    ensures StrictlySorted(IK, a) && StrictlySorted(IK, b)
    ensures forall x, y :: x in a && y in b ==> IK.Accepts(x.key) && IK.Accepts(y.key) && IK.Lt(x.key, y.key)
  {
    var ab := a + b;
    assert forall i :: 0 <= i < |a| ==> a[i] == ab[i];
    assert forall i :: 0 <= i < |b| ==> b[i] == ab[|a| + i];
  }

  lemma {:induction false} BlocksOrdered(bs: seq<seq<Entry>>, j: nat, k: nat, x: Entry, y: Entry)
    requires StrictlySorted(IK, Flatten(bs)) && j < k < |bs| && x in bs[j] && y in bs[k]
    ensures IK.Accepts(x.key) && IK.Accepts(y.key) && IK.Lt(x.key, y.key)
  {
    SortedParts(bs[0], Flatten(bs[1..]));
    if j == 0 {
      assert y in bs[1..][k - 1];
      InFlatten(bs[1..], y);
    } else {
      BlocksOrdered(bs[1..], j - 1, k - 1, x, y);
    }
  }

  // Each separator is at or above every key of its block and below every key of the blocks after it.
  lemma SeparatorsSeparate(opts: SstBuilderOptions, es: seq<Entry>, j: nat)
    requires StrictlySorted(IK, es) && j < |DataBlocks(es)|
    ensures NonEmpty(DataBlocks(es)) && IsInternalKey(IndexOf(opts, DataBlocks(es))[j].key)
    ensures var sep := IndexOf(opts, DataBlocks(es))[j].key;
            (forall x :: x in DataBlocks(es)[j] ==> IsInternalKey(x.key) && !IK.Lt(sep, x.key)) &&
            forall k, y :: j < k < |DataBlocks(es)| && y in DataBlocks(es)[k] ==> IsInternalKey(y.key) && IK.Lt(sep, y.key)
  {
    var bs := DataBlocks(es);
    DataBlocksKeepEntries(es);
    BlockStandsAt(opts, bs, j);
    BlockSorted(bs, j);
    var last := bs[j][|bs[j]| - 1];
    forall x: Entry | x in bs[j] ensures IsInternalKey(x.key) && !IK.Lt(last.key, x.key) {
      LastIsGreatest(bs[j], x);
    }
    forall k, y: Entry | j < k < |bs| && y in bs[k] ensures IsInternalKey(y.key) && IK.Lt(last.key, y.key) {
      BlocksOrdered(bs, j, k, last, y);
    }
  }

  lemma LastIsGreatest(es: seq<Entry>, x: Entry)
    requires StrictlySorted(IK, es) && x in es
    ensures IsInternalKey(x.key) && !IK.Lt(es[|es| - 1].key, x.key)
  {
    StrictIsSorted(IK, es);
    var i :| 0 <= i < |es| && es[i] == x;
    CompareReverse(IK, x.key, x.key);
  }

  // ----- Lookup

  // `index` holds the last key of each block.
  ghost predicate LastKeys(index: seq<I.IndexEntry>, bs: seq<seq<Entry>>) {
    |index| == |bs| && forall j :: 0 <= j < |bs| ==> bs[j] != [] && index[j].key == bs[j][|bs[j]| - 1].key
  }

  lemma {:induction false} SeekBlocks(index: seq<I.IndexEntry>, bs: seq<seq<Entry>>, target: Bytes)
    requires StrictlySorted(IK, Flatten(bs)) && LastKeys(index, bs) && IsInternalKey(target)
    ensures InternalSeparators(index)
    ensures var j := FirstSeparator(index, target);
            if j == |bs| then FirstAtLeast(Flatten(bs), target) == None
            else AllAccepted(IK, bs[j]) && FirstAtLeast(bs[j], target) == FirstAtLeast(Flatten(bs), target)
  {
    if bs != [] {
      var first, rest := bs[0], Flatten(bs[1..]);
      SortedParts(first, rest);
      SeekBlocks(index[1..], bs[1..], target);
      LastKeysAreInternal(index, bs);
      LastDecides(first, target);
      FirstAtLeastConcat(first, rest, target);
      assert index[0].key == first[|first| - 1].key;
    }
  }

  lemma LastKeysAreInternal(index: seq<I.IndexEntry>, bs: seq<seq<Entry>>)
    requires StrictlySorted(IK, Flatten(bs)) && LastKeys(index, bs)
    ensures InternalSeparators(index)
  {
    forall j | 0 <= j < |index| ensures IsInternalKey(index[j].key) {
      BlockSorted(bs, j);
    }
  }

  // Through the bytes of a written file: opening it, choosing a block by its separator and reading that
  // block alone finds, for every target, what a linear search of all entries finds.
  lemma SeekThroughIndex(opts: SstBuilderOptions, es: seq<Entry>, target: Bytes)
    requires FileFits(opts, es) && StrictlySorted(IK, es) && IsInternalKey(target)
    ensures var file := FileBytes(opts, es);
            var f := Open(opts.foreign, file);
            f.Success? && InternalSeparators(f.value.index) &&
            var j := FirstSeparator(f.value.index, target);
            if j == |f.value.index| then FirstAtLeast(es, target) == None
            else
              var block := ReadEntries(opts.foreign, file, f.value.footer, f.value.index[j].handle);
              block.Success? && AllAccepted(IK, block.value) && FirstAtLeast(block.value, target) == FirstAtLeast(es, target)
  {
    IndexReads(opts, es);
    DataBlocksKeepEntries(es);
    var bs := DataBlocks(es);
    var index := IndexOf(opts, bs);
    forall j | 0 <= j < |bs| ensures index[j].key == bs[j][|bs[j]| - 1].key {
      BlockStandsAt(opts, bs, j);
    }
    SeekBlocks(index, bs, target);
    var j := FirstSeparator(index, target);
    if j < |bs| {
      BlockReads(opts, es, j);
    }
  }
}
