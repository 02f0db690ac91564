/** The baseline merger: a priority queue holding a copy of every live source's front key. */
module HeapMerge {
  import opened Wrappers
  import opened ByteStrings
  import opened InternalKeys
  import opened Comparators
  import opened Merging
  import opened Sources
  import opened MergeInputs
  import opened Lists

  datatype HeapEntry = HeapEntry(sourceIdx: nat, key: Bytes)

  // The queue's order is the key order reversed, so its greatest entry has a least key.
  function CompareHeapEntries(c: KeyComparator, a: HeapEntry, b: HeapEntry): Ordering
    requires c.Accepts(a.key) && c.Accepts(b.key)
  {
    c.CompareWithPrefix(b.key, a.key)
  }

  predicate AcceptsHeap(c: KeyComparator, heap: seq<HeapEntry>) {
    forall j :: 0 <= j < |heap| ==> c.Accepts(heap[j].key)
  }

  predicate IsGreatest(c: KeyComparator, heap: seq<HeapEntry>, top: nat)
    requires AcceptsHeap(c, heap)
  {
    top < |heap| && forall j :: 0 <= j < |heap| ==> CompareHeapEntries(c, heap[j], heap[top]) != Greater
  }

  lemma {:induction false} GreatestExists(c: KeyComparator, heap: seq<HeapEntry>) returns (top: nat)
    requires AcceptsHeap(c, heap) && heap != []
    ensures IsGreatest(c, heap, top)
  {
    var n := |heap| - 1;
    CompareWithPrefixIsCompare(c, heap[n].key, heap[n].key);
    CompareReverse(c, heap[n].key, heap[n].key);
    if n == 0 {
      return 0;
    }
    var t := GreatestExists(c, heap[..n]);
    top := if CompareHeapEntries(c, heap[n], heap[t]) != Greater then t else n;
    forall j | 0 <= j < |heap| ensures CompareHeapEntries(c, heap[j], heap[top]) != Greater {
      if top == n && j < n {
        assert CompareHeapEntries(c, heap[..n][j], heap[t]) != Greater;
        CompareWithPrefixIsCompare(c, heap[t].key, heap[j].key);
        CompareWithPrefixIsCompare(c, heap[t].key, heap[n].key);
        CompareWithPrefixIsCompare(c, heap[n].key, heap[j].key);
        CompareReverse(c, heap[t].key, heap[n].key);
        CompareTransitive(c, heap[n].key, heap[t].key, heap[j].key);
      } else if j < n {
        assert CompareHeapEntries(c, heap[..n][j], heap[t]) != Greater;
      }
    }
  }

  ghost predicate InHeap(heap: seq<HeapEntry>, i: nat) {
    exists j :: 0 <= j < |heap| && heap[j].sourceIdx == i
  }

  // Exactly one entry per source with something left, carrying the key that source shows.
  ghost predicate HoldsFronts(heap: seq<HeapEntry>, rest: seq<seq<Entry>>) {
    (forall j :: 0 <= j < |heap| ==>
       heap[j].sourceIdx < |rest| && rest[heap[j].sourceIdx] != [] &&
       heap[j].key == rest[heap[j].sourceIdx][0].key) &&
    (forall i {:trigger InHeap(heap, i)} :: 0 <= i < |rest| && rest[i] != [] ==> InHeap(heap, i)) &&
    forall j, m :: 0 <= j < m < |heap| ==> heap[j].sourceIdx != heap[m].sourceIdx
  }

  lemma TopFrontsLeast(c: KeyComparator, heap: seq<HeapEntry>, rest: seq<seq<Entry>>, top: nat)
    requires AllRestAccepted(c, rest) && HoldsFronts(heap, rest) && AcceptsHeap(c, heap) && IsGreatest(c, heap, top)
    ensures FrontIsLeast(c, rest, heap[top].sourceIdx)
  {
    var w := heap[top].sourceIdx;
    forall i | 0 <= i < |rest| && rest[i] != [] ensures !c.Lt(rest[i][0].key, rest[w][0].key) {
      assert InHeap(heap, i);
      var j :| 0 <= j < |heap| && heap[j].sourceIdx == i;
      CompareWithPrefixIsCompare(c, heap[top].key, heap[j].key);
      CompareReverse(c, heap[top].key, heap[j].key);
    }
  }

  lemma EmptyHeapMeansDone(rest: seq<seq<Entry>>)
    requires HoldsFronts([], rest)
    ensures forall i :: 0 <= i < |rest| ==> rest[i] == []
  {
    forall i | 0 <= i < |rest| ensures rest[i] == [] {
      assert !InHeap([], i);
    }
  }

  // Queueing source idx's front, if it has one, after those of the sources before it.
  function Queued(heap: seq<HeapEntry>, rest: seq<seq<Entry>>, i: nat): seq<HeapEntry>
    requires i < |rest|
  {
    if rest[i] != [] then heap + [HeapEntry(i, rest[i][0].key)] else heap
  }

  lemma QueuedNext(heap: seq<HeapEntry>, rest: seq<seq<Entry>>, i: nat)
    requires i < |rest| && HoldsFronts(heap, rest[..i])
    ensures HoldsFronts(Queued(heap, rest, i), rest[..i + 1])
  {
    var heap' := Queued(heap, rest, i);
    forall m | 0 <= m <= i && rest[..i + 1][m] != [] ensures InHeap(heap', m) {
      if m < i {
        assert InHeap(heap, m);
        var j :| 0 <= j < |heap| && heap[j].sourceIdx == m;
        assert heap'[j].sourceIdx == m;
      } else {
        assert heap'[|heap|].sourceIdx == m;
      }
    }
  }

  function Popped(heap: seq<HeapEntry>, top: nat): seq<HeapEntry>
    requires top < |heap|
  {
    heap[..top] + heap[top + 1..]
  }

  lemma PoppedAt(heap: seq<HeapEntry>, top: nat)
    requires top < |heap|
    ensures forall j :: 0 <= j < |heap| - 1 ==> Popped(heap, top)[j] == heap[if j < top then j else j + 1]
  {
  }

  lemma StillInHeap(heap: seq<HeapEntry>, top: nat, i: nat)
    requires top < |heap| && InHeap(heap, i) && heap[top].sourceIdx != i
    ensures InHeap(Popped(heap, top), i)
  {
    PoppedAt(heap, top);
    var j :| 0 <= j < |heap| && heap[j].sourceIdx == i;
    assert Popped(heap, top)[if j < top then j else j - 1].sourceIdx == i;
  }

  lemma PoppedHolds(heap: seq<HeapEntry>, rest: seq<seq<Entry>>, top: nat)
    requires HoldsFronts(heap, rest) && top < |heap|
    ensures HoldsFronts(Popped(heap, top), rest[heap[top].sourceIdx := []])
    ensures !InHeap(Popped(heap, top), heap[top].sourceIdx)
  {
    var w, popped := heap[top].sourceIdx, Popped(heap, top);
    PoppedAt(heap, top);
    assert forall j :: 0 <= j < |popped| ==> popped[j].sourceIdx != w;
    forall i | 0 <= i < |rest| && rest[i] != [] && i != w ensures InHeap(popped, i) {
      assert InHeap(heap, i);
      StillInHeap(heap, top, i);
    }
  }

  // Taking out one source's entry and, if the source still has a front, putting the new one in.
  lemma Requeued(heap: seq<HeapEntry>, rest: seq<seq<Entry>>, top: nat)
    requires HoldsFronts(heap, rest) && top < |heap|
    ensures var w := heap[top].sourceIdx;
            var rest': seq<seq<Entry>> := rest[w := rest[w][1..]];
            HoldsFronts(Queued(Popped(heap, top), rest', w), rest')
  {
    var w, popped := heap[top].sourceIdx, Popped(heap, top);
    var rest': seq<seq<Entry>> := rest[w := rest[w][1..]];
    PoppedHolds(heap, rest, top);
    var heap' := Queued(popped, rest', w);
    assert forall j :: 0 <= j < |popped| ==> popped[j].sourceIdx != w;
    forall i | 0 <= i < |rest'| && rest'[i] != [] ensures InHeap(heap', i) {
      if i == w {
        assert heap'[|popped|].sourceIdx == i;
      } else {
        assert InHeap(popped, i);
        var j :| 0 <= j < |popped| && popped[j].sourceIdx == i;
        assert heap'[j].sourceIdx == i;
      }
    }
  }

  lemma HeapAccepted(c: KeyComparator, heap: seq<HeapEntry>, rest: seq<seq<Entry>>)
    requires HoldsFronts(heap, rest) && AllRestAccepted(c, rest)
    ensures AcceptsHeap(c, heap)
  {
  }

  // Emitting the popped entry's front and advancing its source carries the merge one entry on.
  lemma PopStep(c: KeyComparator, all: seq<seq<Entry>>, out: seq<Entry>, trace: seq<nat>, rest: seq<seq<Entry>>,
                heap: seq<HeapEntry>, top: nat)
    requires AllRestAccepted(c, rest) && AcceptsHeap(c, heap) && HoldsFronts(heap, rest) && IsGreatest(c, heap, top)
    requires MergeUnderWay(c, all, out, trace, rest)
    ensures var w := heap[top].sourceIdx;
            var rest' := rest[w := rest[w][1..]];
            MergeUnderWay(c, all, out + [rest[w][0]], trace + [w], rest') && |Flatten(rest')| == |Flatten(rest)| - 1
  {
    TopFrontsLeast(c, heap, rest, top);
    MergeStep(c, all, out, trace, rest, heap[top].sourceIdx);
    AdvancedTotal(rest, heap[top].sourceIdx);
  }

  class HeapMerger {
    const c: KeyComparator
    const sources: seq<ArenaSource>
    var heap: seq<HeapEntry>

    ghost predicate Valid()
      reads this, sources
    {
      ValidSources(sources) && AllRestAccepted(c, Remainders(sources)) &&
      AcceptsHeap(c, heap) && HoldsFronts(heap, Remainders(sources))
    }

    constructor (c: KeyComparator, sources: seq<ArenaSource>)
      requires ValidSources(sources) && AllRestAccepted(c, Remainders(sources))
      ensures Valid() && this.c == c && this.sources == sources
    {
      ghost var rest := Remainders(sources);
      var h: seq<HeapEntry> := [];
      for idx := 0 to |sources|
        invariant HoldsFronts(h, rest[..idx])
      {
        QueuedNext(h, rest, idx);
        var front := sources[idx].Peek();
        if front.Some? {
          h := h + [HeapEntry(idx, front.value.key)];
        }
      }
      assert rest[..|sources|] == rest;
      HeapAccepted(c, h, rest);
      this.c, this.sources, this.heap := c, sources, h;
    }

    // The standard library's binary heap, by its contract: takes out some greatest entry.
    method Pop() returns (popped: Option<HeapEntry>, ghost top: nat)
      requires AcceptsHeap(c, heap)
      modifies this`heap
      ensures popped.None? <==> old(heap) == []
      ensures popped.None? ==> heap == old(heap)
      ensures popped.Some? ==> IsGreatest(c, old(heap), top) && popped.value == old(heap)[top] &&
                               heap == Popped(old(heap), top)
    {
      if heap == [] {
        return None, 0;
      }
      ghost var witnessed := GreatestExists(c, heap);
      var t: nat :| t < |heap| && IsGreatest(c, heap, t);
      popped, top := Some(heap[t]), t;
      heap := Popped(heap, t);
    }

    // Advance the popped entry's source and push its new front, if any.
    method Requeue(ghost heap0: seq<HeapEntry>, ghost top: nat, ghost rest: seq<seq<Entry>>, w: nat)
      requires ValidSources(sources) && rest == Remainders(sources) && AllRestAccepted(c, rest)
      requires HoldsFronts(heap0, rest) && top < |heap0| && w == heap0[top].sourceIdx
      requires heap == Popped(heap0, top)
      modifies this, sources
      ensures Valid() && Remainders(sources) == rest[w := rest[w][1..]]
    {
      sources[w].Advance();
      ghost var rest' := rest[w := rest[w][1..]];
      forall i | 0 <= i < |sources| ensures Remainders(sources)[i] == rest'[i] {
        assert i != w ==> sources[i] != sources[w];
      }
      assert Remainders(sources) == rest';
      AdvancedFronts(c, rest, |rest|, w);
      Requeued(heap0, rest, top);
      HeapAccepted(c, Queued(heap, rest', w), rest');
      var front := sources[w].Peek();
      if front.Some? {
        heap := heap + [HeapEntry(w, front.value.key)];
      }
      assert Remainders(sources) == rest';
    }

    // One round of the merge loop: what is handed to the callback, if anything is left, and where it came from.
    // Peeking at a popped entry's source never fails.
    method EmitNext(ghost all: seq<seq<Entry>>, ghost out: seq<Entry>, ghost trace: seq<nat>)
      returns (next: Option<Entry>, ghost w: nat)
      requires Valid() && MergeUnderWay(c, all, out, trace, Remainders(sources))
      modifies this, sources
      ensures Valid()
      ensures next.None? ==> IsMerge(c, all, out, trace) && forall i :: 0 <= i < |sources| ==> sources[i].Remaining() == []
      ensures next.Some? ==> MergeUnderWay(c, all, out + [next.value], trace + [w], Remainders(sources)) &&
                             |Flatten(Remainders(sources))| == |Flatten(old(Remainders(sources)))| - 1
    {
      ghost var rest := Remainders(sources);
      ghost var heap0 := heap;
      var popped, top := Pop();
      if popped.None? {
        EmptyHeapMeansDone(rest);
        MergeEnds(c, all, out, trace, rest);
        return None, 0;
      }
      w := popped.value.sourceIdx;
      PopStep(c, all, out, trace, rest, heap0, top);
      next := sources[popped.value.sourceIdx].Peek();
      Requeue(heap0, top, rest, popped.value.sourceIdx);
    }

    // `out` lists the pairs handed to the callback.
    method Run() returns (out: seq<Entry>, ghost trace: seq<nat>)
      requires Valid() && forall i :: 0 <= i < |sources| ==> Sorted(c, sources[i].Remaining())
      modifies this, sources
      ensures Valid() && IsMerge(c, old(Remainders(sources)), out, trace)
      ensures forall i :: 0 <= i < |sources| ==> sources[i].Remaining() == []
    {
      ghost var all := Remainders(sources);
      out, trace := [], [];
      MergeStarts(c, all);
      while true
        invariant Valid() && MergeUnderWay(c, all, out, trace, Remainders(sources))
        decreases |Flatten(Remainders(sources))|
      {
        var next, w := EmitNext(all, out, trace);
        if next.None? {
          break;
        }
        out, trace := out + [next.value], trace + [w];
      }
    }
  }

  // With distinct keys the two mergers cannot differ: any two merges of the same sources are equal.
  lemma MergesAgree(c: KeyComparator, sources: seq<seq<Entry>>, out1: seq<Entry>, trace1: seq<nat>,
                    out2: seq<Entry>, trace2: seq<nat>)
    requires AllAccepted(c, Flatten(sources)) && DistinctKeys(Flatten(sources))
    requires IsMerge(c, sources, out1, trace1) && IsMerge(c, sources, out2, trace2)
    ensures out1 == out2
  {
    MergeIsUnique(c, sources, out1, trace1);
    MergeIsUnique(c, sources, out2, trace2);
  }
}
