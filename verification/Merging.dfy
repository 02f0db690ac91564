/**
 What a k-way merge is: a sorted interleaving of its sources. A reference merge (sort everything)
 and the fact that, with distinct keys, it is the only possible output.
 */
module Merging {
  import opened InternalKeys
  import opened Comparators
  import opened Lists

  predicate AllAccepted(c: KeyComparator, es: seq<Entry>) {
    forall i :: 0 <= i < |es| ==> c.Accepts(es[i].key)
  }

  ghost predicate Sorted(c: KeyComparator, es: seq<Entry>) {
    AllAccepted(c, es) &&
    forall i, j :: 0 <= i < j < |es| ==> !c.Lt(es[j].key, es[i].key)
  }

  ghost predicate StrictlySorted(c: KeyComparator, es: seq<Entry>) {
    AllAccepted(c, es) &&
    forall i, j :: 0 <= i < j < |es| ==> c.Lt(es[i].key, es[j].key)
  }

  predicate DistinctKeys(es: seq<Entry>) {
    forall i, j :: 0 <= i < j < |es| ==> es[i].key != es[j].key
  }

  // ----- Interleavings

  // The entries of `out` that `trace` attributes to source `i`, in order.
  ghost function Project(out: seq<Entry>, trace: seq<nat>, i: nat): seq<Entry>
    requires |out| == |trace|
  {
    if out == [] then []
    else
      var n := |out| - 1;
      Project(out[..n], trace[..n], i) + (if trace[n] == i then [out[n]] else [])
  }

  // `out` is a sorted list made of all the sources' entries, each source's in its own order.
  ghost predicate IsMerge(c: KeyComparator, sources: seq<seq<Entry>>, out: seq<Entry>, trace: seq<nat>) {
    Sorted(c, out) &&
    |trace| == |out| && (forall j :: 0 <= j < |trace| ==> trace[j] < |sources|) &&
    forall i :: 0 <= i < |sources| ==> Project(out, trace, i) == sources[i]
  }

  // Taking the last entry off a merge takes it off the end of the source it came from.
  lemma MergeDropLast(c: KeyComparator, sources: seq<seq<Entry>>, out: seq<Entry>, trace: seq<nat>)
    requires IsMerge(c, sources, out, trace) && out != []
    ensures var n := |out| - 1;
            var t := trace[n];
            t < |sources| && sources[t] == Project(out[..n], trace[..n], t) + [out[n]] &&
            IsMerge(c, sources[t := Project(out[..n], trace[..n], t)], out[..n], trace[..n])
  {
  }

  lemma {:induction false} MergePermutes(c: KeyComparator, sources: seq<seq<Entry>>, out: seq<Entry>, trace: seq<nat>)
    requires IsMerge(c, sources, out, trace)
    ensures multiset(out) == multiset(Flatten(sources))
    decreases |out|
  {
    if out == [] {
      AllEmpty(sources);
    } else {
      var n := |out| - 1;
      var t, front, last := trace[n], out[..n], out[n];
      var shorter := Project(front, trace[..n], t);
      MergeDropLast(c, sources, out, trace);
      MergePermutes(c, sources[t := shorter], front, trace[..n]);
      SnocMultisets(sources, t, shorter, front, last);
      SplitLast(out);
    }
  }

  lemma SplitLast(out: seq<Entry>)
    requires out != []
    ensures out == out[..|out| - 1] + [out[|out| - 1]]
  {
  }

  lemma SnocMultisets(sources: seq<seq<Entry>>, t: nat, shorter: seq<Entry>, front: seq<Entry>, last: Entry)
    requires t < |sources| && sources[t] == shorter + [last]
    requires multiset(front) == multiset(Flatten(sources[t := shorter]))
    ensures multiset(front + [last]) == multiset(Flatten(sources))
  {
    FlattenUpdate(sources, t, shorter);
    var all, short, one := multiset(Flatten(sources)), multiset(shorter), multiset{last};
    assert multiset(sources[t]) == short + one;
    assert multiset(front) + (short + one) == all + short;
    assert (multiset(front) + one) + short == all + short;
    assert multiset(front) + one == ((multiset(front) + one) + short) - short == (all + short) - short == all;
  }

  // ----- A merge under way

  ghost predicate AllRestAccepted(c: KeyComparator, rest: seq<seq<Entry>>) {
    forall i, k :: 0 <= i < |rest| && 0 <= k < |rest[i]| ==> c.Accepts(rest[i][k].key)
  }

  // Nothing left is below anything emitted.
  ghost predicate RestAbove(c: KeyComparator, out: seq<Entry>, rest: seq<seq<Entry>>)
    requires AllAccepted(c, out) && AllRestAccepted(c, rest)
  {
    forall j, i, k :: 0 <= j < |out| && 0 <= i < |rest| && 0 <= k < |rest[i]| ==> !c.Lt(rest[i][k].key, out[j].key)
  }

  ghost predicate AllSorted(c: KeyComparator, rest: seq<seq<Entry>>) {
    AllRestAccepted(c, rest) && forall i :: 0 <= i < |rest| ==> Sorted(c, rest[i])
  }

  // `out` has been emitted and `rest[i]` is what source `i` still holds.
  ghost predicate MergeUnderWay(c: KeyComparator, sources: seq<seq<Entry>>, out: seq<Entry>, trace: seq<nat>,
                                rest: seq<seq<Entry>>)
  {
    Sorted(c, out) &&
    |trace| == |out| && (forall j :: 0 <= j < |trace| ==> trace[j] < |sources|) &&
    |rest| == |sources| &&
    (forall i :: 0 <= i < |sources| ==> Project(out, trace, i) + rest[i] == sources[i]) &&
    AllSorted(c, rest) && RestAbove(c, out, rest)
  }

  // Source `w` fronts a key no other front is below.
  ghost predicate FrontIsLeast(c: KeyComparator, rest: seq<seq<Entry>>, w: nat) {
    AllRestAccepted(c, rest) && w < |rest| && rest[w] != [] &&
    forall i :: 0 <= i < |rest| && rest[i] != [] ==> !c.Lt(rest[i][0].key, rest[w][0].key)
  }

  lemma MergeStarts(c: KeyComparator, sources: seq<seq<Entry>>)
    requires forall i :: 0 <= i < |sources| ==> Sorted(c, sources[i])
    ensures MergeUnderWay(c, sources, [], [], sources)
  {
  }

  lemma LeastFrontBelowAll(c: KeyComparator, rest: seq<seq<Entry>>, w: nat, i: nat, k: nat)
    requires forall i :: 0 <= i < |rest| ==> Sorted(c, rest[i])
    requires FrontIsLeast(c, rest, w) && i < |rest| && k < |rest[i]|
    ensures !c.Lt(rest[i][k].key, rest[w][0].key)
  {
    if k > 0 {
      NotLtTransitive(c, rest[w][0].key, rest[i][0].key, rest[i][k].key);
    }
  }

  lemma ProjectSnoc(out: seq<Entry>, trace: seq<nat>, e: Entry, w: nat, i: nat)
    requires |out| == |trace|
    ensures Project(out + [e], trace + [w], i) == Project(out, trace, i) + (if w == i then [e] else [])
  {
    assert (out + [e])[..|out|] == out && (trace + [w])[..|out|] == trace;
  }

  lemma StepProjections(sources: seq<seq<Entry>>, out: seq<Entry>, trace: seq<nat>, rest: seq<seq<Entry>>, w: nat)
    requires |out| == |trace| && |rest| == |sources| && w < |rest| && rest[w] != []
    requires forall i :: 0 <= i < |sources| ==> Project(out, trace, i) + rest[i] == sources[i]
    ensures forall i :: 0 <= i < |sources| ==>
              Project(out + [rest[w][0]], trace + [w], i) + rest[w := rest[w][1..]][i] == sources[i]
  {
    var e, tail := rest[w][0], rest[w][1..];
    forall i | 0 <= i < |sources| ensures Project(out + [e], trace + [w], i) + rest[w := tail][i] == sources[i] {
      ProjectSnoc(out, trace, e, w, i);
      if i == w {
        assert rest[w] == [e] + tail;
        ConcatAssociative(Project(out, trace, i), [e], tail);
      }
    }
  }

  lemma StepRestSorted(c: KeyComparator, rest: seq<seq<Entry>>, w: nat)
    requires AllSorted(c, rest) && w < |rest| && rest[w] != []
    ensures AllSorted(c, rest[w := rest[w][1..]])
  {
    TailSorted(c, rest[w]);
  }

  lemma TailSorted(c: KeyComparator, es: seq<Entry>)
    requires Sorted(c, es) && es != []
    ensures Sorted(c, es[1..])
  {
  }

  lemma StepSorted(c: KeyComparator, out: seq<Entry>, rest: seq<seq<Entry>>, w: nat)
    requires Sorted(c, out) && AllSorted(c, rest) && RestAbove(c, out, rest)
    requires w < |rest| && rest[w] != []
    ensures Sorted(c, out + [rest[w][0]])
  {
  }

  lemma StepRestAbove(c: KeyComparator, out: seq<Entry>, rest: seq<seq<Entry>>, w: nat)
    requires Sorted(c, out) && AllSorted(c, rest) && RestAbove(c, out, rest)
    requires FrontIsLeast(c, rest, w)
    ensures AllAccepted(c, out + [rest[w][0]]) && AllRestAccepted(c, rest[w := rest[w][1..]])
    ensures RestAbove(c, out + [rest[w][0]], rest[w := rest[w][1..]])
  {
    var e, tail := rest[w][0], rest[w][1..];
    var rest' := rest[w := tail];
    forall i, k | 0 <= i < |rest'| && 0 <= k < |rest'[i]|
      ensures rest'[i][k] == rest[i][if i == w then k + 1 else k] && !c.Lt(rest'[i][k].key, e.key)
    {
      LeastFrontBelowAll(c, rest, w, i, if i == w then k + 1 else k);
    }
  }

  lemma MergeStep(c: KeyComparator, sources: seq<seq<Entry>>, out: seq<Entry>, trace: seq<nat>,
                  rest: seq<seq<Entry>>, w: nat)
    requires MergeUnderWay(c, sources, out, trace, rest)
    requires FrontIsLeast(c, rest, w)
    ensures MergeUnderWay(c, sources, out + [rest[w][0]], trace + [w], rest[w := rest[w][1..]])
  {
    StepProjections(sources, out, trace, rest, w);
    StepRestSorted(c, rest, w);
    StepSorted(c, out, rest, w);
    StepRestAbove(c, out, rest, w);
  }

  lemma MergeEnds(c: KeyComparator, sources: seq<seq<Entry>>, out: seq<Entry>, trace: seq<nat>, rest: seq<seq<Entry>>)
    requires MergeUnderWay(c, sources, out, trace, rest)
    requires forall i :: 0 <= i < |rest| ==> rest[i] == []
    ensures IsMerge(c, sources, out, trace)
  {
    forall i | 0 <= i < |sources|
      ensures Project(out, trace, i) == sources[i]
    {
      assert Project(out, trace, i) + rest[i] == sources[i];
    }
  }

  // ----- The reference merge

  function InsertEntry(c: KeyComparator, e: Entry, es: seq<Entry>): (r: seq<Entry>)
    requires c.Accepts(e.key) && AllAccepted(c, es)
    ensures AllAccepted(c, r)
  {
    if es == [] || c.Lt(e.key, es[0].key) then [e] + es else [es[0]] + InsertEntry(c, e, es[1..])
  }

  function SortEntries(c: KeyComparator, es: seq<Entry>): (r: seq<Entry>)
    requires AllAccepted(c, es)
    ensures AllAccepted(c, r)
  {
    if es == [] then [] else InsertEntry(c, es[0], SortEntries(c, es[1..]))
  }

  // Put all the sources' entries in one list and sort it.
  function Merged(c: KeyComparator, sources: seq<seq<Entry>>): seq<Entry>
    requires AllAccepted(c, Flatten(sources))
  {
    SortEntries(c, Flatten(sources))
  }

  lemma {:induction false} InsertPermutes(c: KeyComparator, e: Entry, es: seq<Entry>)
    requires c.Accepts(e.key) && AllAccepted(c, es)
    ensures multiset(InsertEntry(c, e, es)) == multiset{e} + multiset(es)
  {
    if !(es == [] || c.Lt(e.key, es[0].key)) {
      InsertPermutes(c, e, es[1..]);
      assert es == [es[0]] + es[1..];
    }
  }

  lemma {:induction false} SortPermutes(c: KeyComparator, es: seq<Entry>)
    requires AllAccepted(c, es)
    ensures multiset(SortEntries(c, es)) == multiset(es)
  {
    if es != [] {
      SortPermutes(c, es[1..]);
      InsertPermutes(c, es[0], SortEntries(c, es[1..]));
      assert es == [es[0]] + es[1..];
    }
  }

  lemma SameElements(a: seq<Entry>, b: seq<Entry>)
    requires multiset(a) == multiset(b)
    ensures |a| == |b| && forall e :: e in a <==> e in b
  {
    assert |multiset(a)| == |a| && |multiset(b)| == |b|;
    assert forall e :: e in a <==> e in multiset(a);
    assert forall e :: e in b <==> e in multiset(b);
  }

  lemma StrictCons(c: KeyComparator, e: Entry, es: seq<Entry>)
    requires c.Accepts(e.key) && StrictlySorted(c, es)
    requires forall x :: x in es ==> c.Accepts(x.key) && c.Lt(e.key, x.key)
    ensures StrictlySorted(c, [e] + es)
  {
    assert forall i :: 0 <= i < |es| ==> es[i] in es;
  }

  lemma {:induction false} InsertStrict(c: KeyComparator, e: Entry, es: seq<Entry>)
    requires c.Accepts(e.key) && StrictlySorted(c, es)
    requires forall i :: 0 <= i < |es| ==> es[i].key != e.key
    ensures StrictlySorted(c, InsertEntry(c, e, es))
  {
    if es == [] {
    } else if c.Lt(e.key, es[0].key) {
      forall x | x in es ensures c.Accepts(x.key) && c.Lt(e.key, x.key) {
        var j :| 0 <= j < |es| && es[j] == x;
        if j > 0 {
          CompareTransitive(c, e.key, es[0].key, x.key);
        }
      }
      StrictCons(c, e, es);
    } else {
      var tail := InsertEntry(c, e, es[1..]);
      InsertStrict(c, e, es[1..]);
      InsertPermutes(c, e, es[1..]);
      CompareReverse(c, e.key, es[0].key);
      forall x | x in tail ensures c.Accepts(x.key) && c.Lt(es[0].key, x.key) {
        assert x in multiset(tail);
        assert x == e || x in es[1..];
      }
      StrictCons(c, es[0], tail);
    }
  }

  lemma {:induction false} SortStrict(c: KeyComparator, es: seq<Entry>)
    requires AllAccepted(c, es) && DistinctKeys(es)
    ensures StrictlySorted(c, SortEntries(c, es))
  {
    if es != [] {
      SortStrict(c, es[1..]);
      SortPermutes(c, es[1..]);
      var tail := SortEntries(c, es[1..]);
      SameElements(tail, es[1..]);
      forall i | 0 <= i < |tail| ensures tail[i].key != es[0].key {
        assert tail[i] in es[1..];
      }
      InsertStrict(c, es[0], tail);
    }
  }

  // ----- Uniqueness

  lemma StrictSnoc(c: KeyComparator, es: seq<Entry>, e: Entry)
    requires StrictlySorted(c, es) && c.Accepts(e.key) && forall x :: x in es ==> c.Accepts(x.key) && c.Lt(x.key, e.key)
    ensures StrictlySorted(c, es + [e])
  {
    assert forall i :: 0 <= i < |es| ==> es[i] in es;
  }

  lemma StrictIsSorted(c: KeyComparator, es: seq<Entry>)
    requires StrictlySorted(c, es)
    ensures Sorted(c, es) && DistinctKeys(es)
  {
    forall i, j | 0 <= i < j < |es|
      ensures !c.Lt(es[j].key, es[i].key) && es[i].key != es[j].key
    {
      CompareReverse(c, es[i].key, es[j].key);
    }
  }

  lemma SameLeast(c: KeyComparator, a: seq<Entry>, b: seq<Entry>)
    requires StrictlySorted(c, a) && Sorted(c, b)
    requires a != [] && b != [] && forall e :: e in a <==> e in b
    ensures a[0] == b[0]
  {
    assert b[0] in a && a[0] in b;
    var i :| 0 <= i < |a| && a[i] == b[0];
    var j :| 0 <= j < |b| && b[j] == a[0];
    assert i > 0 ==> c.Lt(a[0].key, a[i].key);
    assert j > 0 ==> !c.Lt(b[j].key, b[0].key);
  }

  lemma TailMultiset(a: seq<Entry>)
    requires a != []
    ensures a == [a[0]] + a[1..] && multiset(a[1..]) == multiset(a) - multiset{a[0]}
  {
    assert a == [a[0]] + a[1..];
  }

  // A strictly sorted list is the only sorted arrangement of its entries.
  lemma {:induction false} SortedUnique(c: KeyComparator, a: seq<Entry>, b: seq<Entry>)
    requires StrictlySorted(c, a) && Sorted(c, b) && multiset(a) == multiset(b)
    ensures a == b
    decreases |a|
  {
    SameElements(a, b);
    if a != [] {
      SameLeast(c, a, b);
      TailMultiset(a);
      TailMultiset(b);
      SortedUnique(c, a[1..], b[1..]);
    }
  }

  // Strictly sorted lists with the same members are equal.
  lemma {:induction false} StrictUnique(c: KeyComparator, a: seq<Entry>, b: seq<Entry>)
    requires StrictlySorted(c, a) && StrictlySorted(c, b)
    requires forall e :: e in a <==> e in b
    ensures a == b
    decreases |a|
  {
    StrictIsSorted(c, a);
    StrictIsSorted(c, b);
    assert b != [] ==> b[0] in a;
    if a != [] {
      assert a[0] in b;
      SameLeast(c, a, b);
      forall e ensures e in a[1..] <==> e in b[1..] {
        TailMembers(c, a, e);
        TailMembers(c, b, e);
      }
      StrictUnique(c, a[1..], b[1..]);
      assert a == [a[0]] + a[1..] && b == [b[0]] + b[1..];
    }
  }

  lemma TailMembers(c: KeyComparator, es: seq<Entry>, e: Entry)
    requires StrictlySorted(c, es) && es != []
    ensures e in es[1..] <==> e in es && e != es[0]
  {
    StrictIsSorted(c, es);
  }

  // With distinct keys, every merge of the sources is the reference merge.
  lemma MergeIsUnique(c: KeyComparator, sources: seq<seq<Entry>>, out: seq<Entry>, trace: seq<nat>)
    requires AllAccepted(c, Flatten(sources)) && DistinctKeys(Flatten(sources))
    requires IsMerge(c, sources, out, trace)
    ensures out == Merged(c, sources) && StrictlySorted(c, out)
  {
    MergePermutes(c, sources, out, trace);
    SortPermutes(c, Flatten(sources));
    SortStrict(c, Flatten(sources));
    SortedUnique(c, Merged(c, sources), out);
  }

  lemma MergedProperties(c: KeyComparator, sources: seq<seq<Entry>>)
    requires AllAccepted(c, Flatten(sources)) && DistinctKeys(Flatten(sources))
    ensures StrictlySorted(c, Merged(c, sources))
    ensures forall e :: e in Merged(c, sources) <==> e in Flatten(sources)
  {
    SortStrict(c, Flatten(sources));
    SortPermutes(c, Flatten(sources));
    SameElements(Merged(c, sources), Flatten(sources));
  }

  // ----- Distinct keys

  lemma DistinctConcat(a: seq<Entry>, b: seq<Entry>, a': seq<Entry>, b': seq<Entry>)
    requires DistinctKeys(a + b) && DistinctKeys(a') && DistinctKeys(b')
    requires (forall e :: e in a' ==> e in a) && forall e :: e in b' ==> e in b
    ensures DistinctKeys(a' + b')
  {
    var ab, ab' := a + b, a' + b';
    forall i, j | 0 <= i < |a'| <= j < |ab'| ensures ab'[i].key != ab'[j].key {
      assert a'[i] in a && b'[j - |a'|] in b;
      var m :| 0 <= m < |a| && a[m] == a'[i];
      var n :| 0 <= n < |b| && b[n] == b'[j - |a'|];
      assert ab[m] == a[m] && ab[|a| + n] == ab'[j];
    }
    forall i, j | |a'| <= i < j < |ab'| ensures ab'[i].key != ab'[j].key {
      assert ab'[i] == b'[i - |a'|] && ab'[j] == b'[j - |a'|];
    }
  }

  lemma DistinctParts(a: seq<Entry>, b: seq<Entry>)
    requires DistinctKeys(a + b)
    ensures DistinctKeys(a) && DistinctKeys(b)
  {
    var ab := a + b;
    assert forall i :: 0 <= i < |a| ==> a[i] == ab[i];
    assert forall i :: 0 <= i < |b| ==> b[i] == ab[|a| + i];
  }

  // Strictly sorted lists in ascending order of their entries concatenate to a strictly sorted list.
  lemma {:induction false} FlattenStrict(c: KeyComparator, outs: seq<seq<Entry>>)
    requires forall j :: 0 <= j < |outs| ==> StrictlySorted(c, outs[j])
    requires forall j, k, e, d :: 0 <= j < k < |outs| && e in outs[j] && d in outs[k] ==>
               c.Accepts(e.key) && c.Accepts(d.key) && c.Lt(e.key, d.key)
    ensures StrictlySorted(c, Flatten(outs))
  {
    if outs != [] {
      FlattenStrict(c, outs[1..]);
      var first, rest := outs[0], Flatten(outs[1..]);
      forall i, j | 0 <= i < |first| && 0 <= j < |rest| ensures c.Lt(first[i].key, rest[j].key) {
        assert first[i] in first && rest[j] in rest;
        FirstBelowRest(c, outs, first[i], rest[j]);
      }
      StrictConcat(c, first, rest);
    }
  }

  lemma FirstBelowRest(c: KeyComparator, outs: seq<seq<Entry>>, e: Entry, d: Entry)
    requires outs != [] && e in outs[0] && d in Flatten(outs[1..])
    requires forall j, k, e, d :: 0 <= j < k < |outs| && e in outs[j] && d in outs[k] ==>
               c.Accepts(e.key) && c.Accepts(d.key) && c.Lt(e.key, d.key)
    ensures c.Accepts(e.key) && c.Accepts(d.key) && c.Lt(e.key, d.key)
  {
    InFlatten(outs[1..], d);
    var k :| 0 <= k < |outs[1..]| && d in outs[1..][k];
    assert d in outs[k + 1];
  }

  lemma StrictConcat(c: KeyComparator, a: seq<Entry>, b: seq<Entry>)
    requires StrictlySorted(c, a) && StrictlySorted(c, b)
    requires forall i, j :: 0 <= i < |a| && 0 <= j < |b| ==> c.Lt(a[i].key, b[j].key)
    ensures StrictlySorted(c, a + b)
  {
  }
}
