/** Key orders used by the merge, and the numeric-prefix shortcut for byte-comparable keys. */
module Comparators {
  import opened ByteStrings
  import opened InternalKeys

  datatype Ordering = Less | Equal | Greater {
    function Reverse(): Ordering {
      match this
      case Less => Greater
      case Equal => Equal
      case Greater => Less
    }
  }

  function CompareNats(a: nat, b: nat): Ordering {
    if a < b then Less else if a == b then Equal else Greater
  }

  // Lexicographic order on byte slices.
  function CompareBytes(a: Bytes, b: Bytes): Ordering {
    if a == [] then (if b == [] then Equal else Less)
    else if b == [] then Greater
    else if a[0] != b[0] then CompareNats(a[0], b[0])
    else CompareBytes(a[1..], b[1..])
  }

  // User key ascending, then packed suffix descending (newest first).
  function CompareInternalKeys(a: Bytes, b: Bytes): Ordering
    requires IsInternalKey(a) && IsInternalKey(b)
  {
    match CompareBytes(UserKey(a), UserKey(b))
    case Equal => CompareNats(Packed(b), Packed(a))
    case other => other
  }

  function CompareUserKeys(a: Bytes, b: Bytes): Ordering
    requires IsInternalKey(a) && IsInternalKey(b)
  {
    CompareBytes(UserKey(a), UserKey(b))
  }

  // `PrefixedBytewise` stands for any byte-comparable comparator that switches the prefix shortcut on.
  datatype KeyComparator = InternalKeyComparator | BytewiseComparator | PrefixedBytewise {
    // Which keys the comparator can be asked about: shorter ones make `split` underflow.
    predicate Accepts(key: Bytes) {
      InternalKeyComparator? ==> IsInternalKey(key)
    }

    predicate HasSortPrefix() {
      PrefixedBytewise?
    }

    function Compare(a: Bytes, b: Bytes): Ordering
      requires Accepts(a) && Accepts(b)
    {
      if InternalKeyComparator? then CompareInternalKeys(a, b) else CompareBytes(a, b)
    }

    function CompareWithPrefix(a: Bytes, b: Bytes): Ordering
      requires Accepts(a) && Accepts(b)
    {
      if HasSortPrefix() then
        var byPrefix := CompareNats(LoadBePrefix(a), LoadBePrefix(b));
        if byPrefix != Equal then byPrefix else Compare(a, b)
      else Compare(a, b)
    }

    predicate Lt(a: Bytes, b: Bytes)
      requires Accepts(a) && Accepts(b)
    {
      Compare(a, b) == Less
    }
  }

  // ----- Byte order

  lemma {:induction false} CompareBytesReverse(a: Bytes, b: Bytes)
    ensures CompareBytes(b, a) == CompareBytes(a, b).Reverse()
    ensures CompareBytes(a, b) == Equal <==> a == b
  {
    if a != [] && b != [] && a[0] == b[0] {
      CompareBytesReverse(a[1..], b[1..]);
      assert a == [a[0]] + a[1..] && b == [b[0]] + b[1..];
    }
  }

  lemma {:induction false} CompareBytesTransitive(a: Bytes, b: Bytes, d: Bytes)
    requires CompareBytes(a, b) != Greater && CompareBytes(b, d) != Greater
    ensures CompareBytes(a, d) != Greater
    ensures CompareBytes(a, d) == Equal ==> CompareBytes(a, b) == Equal && CompareBytes(b, d) == Equal
  {
    if a != [] && b != [] && d != [] && a[0] == b[0] == d[0] {
      CompareBytesTransitive(a[1..], b[1..], d[1..]);
    }
  }

  // Equal up to k, where a ends or has the smaller byte.
  ghost predicate BelowAt(a: Bytes, b: Bytes, k: nat) {
    k <= |a| && k < |b| && (forall i :: 0 <= i < k ==> a[i] == b[i]) && (k == |a| || a[k] < b[k])
  }

  // The order is the lexicographic one.
  lemma {:induction false} CompareBytesIsLexicographic(a: Bytes, b: Bytes)
    ensures CompareBytes(a, b) == Less <==> exists k: nat :: BelowAt(a, b, k)
  {
    if a == [] || b == [] {
      if a == [] && b != [] {
        assert BelowAt(a, b, 0);
      }
    } else if a[0] != b[0] {
      assert a[0] < b[0] ==> BelowAt(a, b, 0);
    } else {
      CompareBytesIsLexicographic(a[1..], b[1..]);
      if k: nat :| BelowAt(a[1..], b[1..], k) {
        assert forall i :: 1 <= i < k + 1 ==> a[i] == a[1..][i - 1] && b[i] == b[1..][i - 1];
        assert BelowAt(a, b, k + 1);
      }
      if k: nat :| BelowAt(a, b, k) {
        assert BelowAt(a[1..], b[1..], k - 1);
      }
    }
  }

  // ----- Every comparator is a total order in which only identical keys are equal

  lemma CompareReverse(c: KeyComparator, a: Bytes, b: Bytes)
    requires c.Accepts(a) && c.Accepts(b)
    ensures c.Compare(b, a) == c.Compare(a, b).Reverse()
    ensures c.Compare(a, b) == Equal <==> a == b
  {
    if c.InternalKeyComparator? {
      CompareBytesReverse(UserKey(a), UserKey(b));
      if c.Compare(a, b) == Equal {
        KeyDeterminedByParts(a, b);
      }
    } else {
      CompareBytesReverse(a, b);
    }
  }

  lemma CompareTransitive(c: KeyComparator, a: Bytes, b: Bytes, d: Bytes)
    requires c.Accepts(a) && c.Accepts(b) && c.Accepts(d)
    requires c.Compare(a, b) != Greater && c.Compare(b, d) != Greater
    ensures c.Compare(a, d) != Greater
    ensures c.Lt(a, b) || c.Lt(b, d) ==> c.Lt(a, d)
  {
    if c.InternalKeyComparator? {
      CompareBytesTransitive(UserKey(a), UserKey(b), UserKey(d));
    } else {
      CompareBytesTransitive(a, b, d);
    }
  }

  // Not-greater in terms of `Lt`, the form the merge compares with.
  lemma NotLtTransitive(c: KeyComparator, a: Bytes, b: Bytes, d: Bytes)
    requires c.Accepts(a) && c.Accepts(b) && c.Accepts(d)
    requires !c.Lt(b, a) && !c.Lt(d, b)
    ensures !c.Lt(d, a)
    ensures c.Lt(a, b) || c.Lt(b, d) ==> c.Lt(a, d)
  {
    CompareReverse(c, a, b);
    CompareReverse(c, b, d);
    CompareReverse(c, a, d);
    CompareTransitive(c, a, b, d);
  }

  // Internal keys order by user key, and within one user key by descending suffix.
  lemma InternalOrderIs(a: Bytes, b: Bytes)
    requires IsInternalKey(a) && IsInternalKey(b)
    ensures InternalKeyComparator.Lt(a, b) <==>
            (exists k: nat :: BelowAt(UserKey(a), UserKey(b), k)) || (UserKey(a) == UserKey(b) && Packed(a) > Packed(b))
  {
    CompareBytesIsLexicographic(UserKey(a), UserKey(b));
    CompareBytesReverse(UserKey(a), UserKey(b));
  }

  // ----- Versions of one user key

  // Between two versions of a user key there are only versions of that user key ...
  lemma VersionsAreContiguous(a: Bytes, b: Bytes, d: Bytes)
    requires IsInternalKey(a) && IsInternalKey(b) && IsInternalKey(d)
    requires UserKey(a) == UserKey(d)
    requires CompareInternalKeys(a, b) != Greater && CompareInternalKeys(b, d) != Greater
    ensures UserKey(b) == UserKey(a)
  {
    CompareBytesTransitive(UserKey(a), UserKey(b), UserKey(d));
    CompareBytesReverse(UserKey(a), UserKey(d));
    CompareBytesReverse(UserKey(a), UserKey(b));
  }

  // ... and they come newest first.
  lemma VersionsNewestFirst(a: Bytes, b: Bytes)
    requires IsInternalKey(a) && IsInternalKey(b) && UserKey(a) == UserKey(b)
    ensures CompareInternalKeys(a, b) == Less <==> Packed(a) > Packed(b)
    ensures Sequence(a) > Sequence(b) ==> CompareInternalKeys(a, b) == Less
  {
    CompareBytesReverse(UserKey(a), UserKey(b));
  }

  // ----- The big-endian prefix

  // Up to 8 leading bytes, zero padded.
  function Padded(key: Bytes, width: nat): (p: Bytes)
    ensures |p| == width
  {
    if |key| >= width then key[..width] else key + seq(width - |key|, _ => 0)
  }

  function FromBigEndian(b: Bytes): nat {
    if b == [] then 0 else b[0] * Pow256(|b| - 1) + FromBigEndian(b[1..])
  }

  function LoadBePrefix(key: Bytes): nat {
    FromBigEndian(Padded(key, 8))
  }

  lemma LeadingDigitBound(digit: byte, unit: nat, rest: nat)
    requires rest < unit
    ensures digit * unit + rest < 256 * unit
  {
    assert digit * unit <= 255 * unit;
  }

  lemma LeadingDigitDecides(x: byte, y: byte, unit: nat, restX: nat, restY: nat)
    requires restX < unit && restY < unit
    requires x * unit + restX < y * unit + restY
    ensures x < y || (x == y && restX < restY)
  {
    assert (y + 1) * unit == y * unit + unit;
    assert x > y ==> x * unit >= (y + 1) * unit;
  }

  lemma {:induction false} FromBigEndianBound(b: Bytes)
    ensures FromBigEndian(b) < Pow256(|b|)
  {
    if b != [] {
      FromBigEndianBound(b[1..]);
      LeadingDigitBound(b[0], Pow256(|b| - 1), FromBigEndian(b[1..]));
    }
  }

  lemma PaddedTail(key: Bytes, width: nat)
    requires width > 0
    ensures Padded(key, width)[1..] == Padded(if key == [] then [] else key[1..], width - 1)
    ensures Padded(key, width)[0] == if key == [] then 0 else key[0]
  {
  }

  lemma {:induction false} PrefixOrdersAsBytes(a: Bytes, b: Bytes, width: nat)
    requires FromBigEndian(Padded(a, width)) < FromBigEndian(Padded(b, width))
    ensures CompareBytes(a, b) == Less
    decreases width
  {
    if width > 0 {
      PaddedTail(a, width);
      PaddedTail(b, width);
      var pa, pb := Padded(a, width), Padded(b, width);
      FromBigEndianBound(pa[1..]);
      FromBigEndianBound(pb[1..]);
      LeadingDigitDecides(pa[0], pb[0], Pow256(width - 1), FromBigEndian(pa[1..]), FromBigEndian(pb[1..]));
      if pa[0] == pb[0] {
        var ta, tb := if a == [] then [] else a[1..], if b == [] then [] else b[1..];
        PrefixOrdersAsBytes(ta, tb, width - 1);
      }
    }
  }

  // Distinct prefixes order as the keys do, for keys of any length.
  lemma PrefixOrder(a: Bytes, b: Bytes)
    requires LoadBePrefix(a) != LoadBePrefix(b)
    ensures CompareNats(LoadBePrefix(a), LoadBePrefix(b)) == CompareBytes(a, b)
  {
    if LoadBePrefix(a) < LoadBePrefix(b) {
      PrefixOrdersAsBytes(a, b, 8);
    } else {
      PrefixOrdersAsBytes(b, a, 8);
      CompareBytesReverse(a, b);
    }
  }

  // The prefix tells two keys apart exactly when their first 8 bytes, zeros where there are none, differ.
  lemma PrefixTellsApart(a: Bytes, b: Bytes)
    ensures LoadBePrefix(a) == LoadBePrefix(b) <==>
            forall i :: 0 <= i < 8 ==> (if i < |a| then a[i] else 0) == if i < |b| then b[i] else 0
  {
    var pa, pb := Padded(a, 8), Padded(b, 8);
    assert forall i :: 0 <= i < 8 ==> pa[i] == (if i < |a| then a[i] else 0) && pb[i] == if i < |b| then b[i] else 0;
    BigEndianInjective(pa, pb);
    assert pa == pb <==> forall i :: 0 <= i < 8 ==> pa[i] == pb[i];
  }

  lemma {:induction false} BigEndianInjective(a: Bytes, b: Bytes)
    requires |a| == |b|
    ensures FromBigEndian(a) == FromBigEndian(b) <==> a == b
  {
    if a != [] && FromBigEndian(a) == FromBigEndian(b) {
      FromBigEndianBound(a[1..]);
      FromBigEndianBound(b[1..]);
      LeadingDigitEqual(a[0], b[0], Pow256(|a| - 1), FromBigEndian(a[1..]), FromBigEndian(b[1..]));
      BigEndianInjective(a[1..], b[1..]);
      assert a == [a[0]] + a[1..] && b == [b[0]] + b[1..];
    }
  }

  lemma LeadingDigitEqual(x: byte, y: byte, unit: nat, restX: nat, restY: nat)
    requires restX < unit && restY < unit && x * unit + restX == y * unit + restY
    ensures x == y && restX == restY
  {
    assert (y + 1) * unit == y * unit + unit && (x + 1) * unit == x * unit + unit;
    assert x > y ==> x * unit >= (y + 1) * unit;
    assert y > x ==> y * unit >= (x + 1) * unit;
  }

  lemma CompareWithPrefixIsCompare(c: KeyComparator, a: Bytes, b: Bytes)
    requires c.Accepts(a) && c.Accepts(b)
    ensures c.CompareWithPrefix(a, b) == c.Compare(a, b)
  {
    if c.HasSortPrefix() && LoadBePrefix(a) != LoadBePrefix(b) {
      PrefixOrder(a, b);
    }
  }
}
