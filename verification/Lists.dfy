/** Concatenating a list of lists. */
module Lists {
  function Flatten<T>(ss: seq<seq<T>>): seq<T> {
    if ss == [] then [] else ss[0] + Flatten(ss[1..])
  }

  // Replacing one list by another changes the total by exactly the difference.
  lemma {:induction false} FlattenUpdate<T>(ss: seq<seq<T>>, t: nat, s: seq<T>)
    requires t < |ss|
    ensures multiset(Flatten(ss[t := s])) + multiset(ss[t]) == multiset(Flatten(ss)) + multiset(s)
    ensures |Flatten(ss[t := s])| + |ss[t]| == |Flatten(ss)| + |s|
  {
    if t > 0 {
      var rest, rest' := Flatten(ss[1..]), Flatten(ss[1..][t - 1 := s]);
      assert ss[t := s][1..] == ss[1..][t - 1 := s];
      FlattenUpdate(ss[1..], t - 1, s);
      assert Flatten(ss) == ss[0] + rest && Flatten(ss[t := s]) == ss[0] + rest';
      calc {
        multiset(Flatten(ss[t := s])) + multiset(ss[t]);
        multiset(ss[0]) + (multiset(rest') + multiset(ss[t]));
        multiset(ss[0]) + (multiset(rest) + multiset(s));
        multiset(Flatten(ss)) + multiset(s);
      }
    } else {
      assert ss[t := s][1..] == ss[1..];
    }
  }

  lemma {:induction false} FlattenAppend<T>(a: seq<seq<T>>, b: seq<seq<T>>)
    ensures Flatten(a + b) == Flatten(a) + Flatten(b)
  {
    if a == [] {
      assert a + b == b;
    } else {
      assert (a + b)[1..] == a[1..] + b;
      FlattenAppend(a[1..], b);
    }
  }

  lemma FlattenSnoc<T>(a: seq<seq<T>>, s: seq<T>)
    ensures Flatten(a + [s]) == Flatten(a) + s
  {
    FlattenAppend(a, [s]);
    assert Flatten([s]) == s + Flatten<T>([]);
  }

  lemma {:induction false} InFlatten<T>(ss: seq<seq<T>>, e: T)
    ensures e in Flatten(ss) <==> exists i :: 0 <= i < |ss| && e in ss[i]
  {
    if ss != [] {
      InFlatten(ss[1..], e);
      if e in Flatten(ss[1..]) {
        var i :| 0 <= i < |ss[1..]| && e in ss[1..][i];
        assert e in ss[i + 1];
      }
      if i :| 0 < i < |ss| && e in ss[i] {
        assert e in ss[1..][i - 1];
      }
    }
  }

  lemma {:induction false} AllEmpty<T>(ss: seq<seq<T>>)
    requires forall i :: 0 <= i < |ss| ==> ss[i] == []
    ensures Flatten(ss) == []
  {
    if ss != [] {
      AllEmpty(ss[1..]);
    }
  }

  lemma SuffixCons<T>(s: seq<T>, i: nat)
    requires i < |s|
    ensures s[i..] == [s[i]] + s[i + 1..]
  {
  }

  lemma TakeSnoc<T>(s: seq<T>, i: nat)
    requires i < |s|
    ensures s[..i + 1] == s[..i] + [s[i]]
  {
  }

  lemma SamePieces<T>(a: seq<T>, b: seq<T>)
    requires a != [] && b != [] && a[0] == b[0] && a[1..] == b[1..]
    ensures a == b
  {
    SuffixCons(a, 0);
    SuffixCons(b, 0);
    assert a[0..] == a && b[0..] == b;
  }

  lemma SnocPrefix<T>(s: seq<T>, e: T, k: nat)
    requires k <= |s|
    ensures (s + [e])[..k] == s[..k] && (k == |s| ==> s[..k] == s)
  {
  }

  lemma TakeAll<T>(s: seq<T>)
    ensures s[..|s|] == s
  {
  }

  lemma ConcatAssociative<T>(a: seq<T>, b: seq<T>, d: seq<T>)
    ensures a + b + d == a + (b + d)
  {
  }

  lemma InSlice<T>(s: seq<T>, lo: nat, hi: nat, x: T)
    requires lo <= hi <= |s|
    ensures x in s[lo..hi] <==> exists i :: lo <= i < hi && s[i] == x
  {
    if i :| lo <= i < hi && s[i] == x {
      assert s[lo..hi][i - lo] == x;
    }
  }

  lemma PrefixTransitive<T>(a: seq<T>, b: seq<T>, d: seq<T>)
    requires a <= b && b <= d
    ensures a <= d
  {
  }

  // Two lists of one length, related element by element.
  ghost predicate Pairwise<A, B>(p: (A, B) -> bool, xs: seq<A>, ys: seq<B>) {
    |xs| == |ys| && forall i :: 0 <= i < |xs| ==> p(xs[i], ys[i])
  }

  lemma PairwiseSnoc<A, B>(p: (A, B) -> bool, xs: seq<A>, ys: seq<B>, j: nat, y: B)
    requires j < |xs| && Pairwise(p, xs[..j], ys) && p(xs[j], y)
    ensures Pairwise(p, xs[..j + 1], ys + [y])
  {
    TakeSnoc(xs, j);
  }
}
