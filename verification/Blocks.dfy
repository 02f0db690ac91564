/** What data and index blocks share: prefix sharing, the restart schedule and the restart trailer. */
module Blocks {
  import opened Wrappers
  import opened ByteStrings
  import opened Lists
  import opened Varint

  // ----- Prefix sharing

  // Length of the longest common prefix.
  function SharedPrefixLen(a: Bytes, b: Bytes): (n: nat)
    ensures n <= |a| && n <= |b| && a[..n] == b[..n]
    ensures n < |a| && n < |b| ==> a[n] != b[n]
  {
    if a == [] || b == [] || a[0] != b[0] then 0
    else
      var n := SharedPrefixLen(a[1..], b[1..]);
      assert a[..n + 1] == [a[0]] + a[1..][..n] && b[..n + 1] == [b[0]] + b[1..][..n];
      n + 1
  }

  // n is the length of the longest common prefix.
  ghost predicate IsLongestCommonPrefix(a: Bytes, b: Bytes, n: nat) {
    n <= |a| && n <= |b| && a[..n] == b[..n] && (n < |a| && n < |b| ==> a[n] != b[n])
  }

  // ----- The restart schedule: every `interval`-th entry starts afresh

  predicate IsRestart(i: nat, interval: nat)
    requires interval >= 1
  {
    i % interval == 0
  }

  // How far into the current interval a builder is after n entries.
  function CounterAfter(n: nat, interval: nat): nat
    requires interval >= 1
  {
    if n == 0 then 0 else (n - 1) % interval + 1
  }

  // The counter and the position say the same thing about restarts.
  lemma CounterStep(n: nat, interval: nat)
    requires interval >= 1
    ensures CounterAfter(n, interval) <= interval
    ensures CounterAfter(n, interval) >= interval <==> n > 0 && IsRestart(n, interval)
    ensures CounterAfter(n + 1, interval) ==
            if CounterAfter(n, interval) >= interval then 1 else CounterAfter(n, interval) + 1
  {
    if n > 0 {
      var q, r := (n - 1) / interval, (n - 1) % interval;
      assert n - 1 == interval * q + r;
      if r == interval - 1 {
        assert n == interval * (q + 1) + 0;
        DivModUnique(n, interval, q + 1, 0);
      } else {
        DivModUnique(n, interval, q, r + 1);
      }
    } else {
      DivModUnique(0, interval, 0, 0);
    }
  }

  // The restart points of a block whose entries start at these offsets: 0, then the offset of every further
  // entry the schedule restarts at.
  function RestartPoints(offsets: seq<nat>, interval: nat): (rs: seq<nat>)
    requires interval >= 1
    ensures |rs| >= 1
  {
    if offsets == [] then [0]
    else
      var n := |offsets| - 1;
      var rs := RestartPoints(offsets[..n], interval);
      if n > 0 && IsRestart(n, interval) then rs + [offsets[n]] else rs
  }

  lemma RestartPointsSnoc(offsets: seq<nat>, offset: nat, interval: nat)
    requires interval >= 1
    ensures RestartPoints(offsets + [offset], interval) ==
            RestartPoints(offsets, interval) + (if |offsets| > 0 && IsRestart(|offsets|, interval) then [offset] else [])
  {
    assert (offsets + [offset])[..|offsets|] == offsets;
  }

  // Every restart point is the offset of an entry the schedule restarts at.
  lemma {:induction false} RestartOf(offsets: seq<nat>, interval: nat, r: nat) returns (k: nat)
    requires interval >= 1 && r in RestartPoints(offsets, interval)
    ensures if k == 0 then r == 0 else k < |offsets| && IsRestart(k, interval) && r == offsets[k]
    decreases |offsets|
  {
    k := 0;
    if offsets != [] {
      var n := |offsets| - 1;
      if r in RestartPoints(offsets[..n], interval) {
        k := RestartOf(offsets[..n], interval, r);
      } else {
        k := n;
      }
    }
  }

  // Restart k is the offset of entry k * interval, and there is one for every such entry.
  lemma {:induction false} RestartPointsAre(offsets: seq<nat>, interval: nat)
    requires interval >= 1 && offsets != [] && offsets[0] == 0
    ensures |RestartPoints(offsets, interval)| == (|offsets| - 1) / interval + 1
    ensures forall k :: 0 <= k < |RestartPoints(offsets, interval)| ==>
              0 <= k * interval < |offsets| && RestartPoints(offsets, interval)[k] == offsets[k * interval]
    decreases |offsets|
  {
    var n := |offsets| - 1;
    var rs := RestartPoints(offsets, interval);
    RestartCount(n, interval);
    if n > 0 {
      var front := RestartPoints(offsets[..n], interval);
      RestartPointsAre(offsets[..n], interval);
      forall k | 0 <= k < |rs| ensures 0 <= k * interval < |offsets| && rs[k] == offsets[k * interval] {
        if k < |front| {
          assert rs[k] == front[k];
        } else {
          assert k == (n - 1) / interval + 1;
        }
      }
    }
  }

  lemma QuotientGrows(n: nat, d: nat, q: nat)
    requires d >= 1 && n > 0 && n == d * q
    ensures (n - 1) / d + 1 == q && q * d == n
  {
    assert q >= 1;
    assert d * q == d * (q - 1) + d;
    DivModUnique(n - 1, d, q - 1, d - 1);
  }

  // Past n entries, the count of restarts grows exactly when entry n is one.
  lemma RestartCount(n: nat, interval: nat)
    requires interval >= 1
    ensures n > 0 && IsRestart(n, interval) ==>
              n / interval == (n - 1) / interval + 1 && ((n - 1) / interval + 1) * interval == n
    ensures n > 0 && !IsRestart(n, interval) ==> n / interval == (n - 1) / interval
    ensures n == 0 ==> n / interval == 0
  {
    DivModUnique(0, interval, 0, 0);
    if n > 0 {
      var q, r := n / interval, n % interval;
      assert n == interval * q + r;
      if r == 0 {
        QuotientGrows(n, interval, q);
      } else {
        DivModUnique(n - 1, interval, q, r - 1);
      }
    }
  }

  // ----- The trailer: restart offsets, then their count

  function EncodeU32s(rs: seq<nat>): (b: Bytes)
    ensures |b| == 4 * |rs|
  {
    if rs == [] then [] else EncodeU32s(rs[..|rs| - 1]) + LittleEndian(rs[|rs| - 1], 4)
  }

  function RestartTrailer(rs: seq<nat>): (b: Bytes)
    ensures |b| == 4 * |rs| + 4
  {
    EncodeU32s(rs) + LittleEndian(|rs|, 4)
  }

  lemma EncodeU32sStep(rs: seq<nat>, i: nat)
    requires i < |rs|
    ensures EncodeU32s(rs[..i + 1]) == EncodeU32s(rs[..i]) + LittleEndian(rs[i], 4)
  {
    assert rs[..i + 1][..i] == rs[..i];
  }

  method AppendTrailer(buffer: Bytes, rs: seq<nat>) returns (out: Bytes)
    requires |rs| < U32_LIMIT
    ensures out == buffer + RestartTrailer(rs)
  {
    out := buffer;
    for i := 0 to |rs|
      invariant out == buffer + EncodeU32s(rs[..i])
    {
      EncodeU32sStep(rs, i);
      out := out + LittleEndian(rs[i], 4);
    }
    TakeAll(rs);
    AsU32Keeps(|rs|);
    ConcatAssociative(buffer, EncodeU32s(rs), LittleEndian(|rs|, 4));
    out := out + LittleEndian(AsU32(|rs|), 4);
  }

  lemma {:induction false} EncodedU32(rs: seq<nat>, k: nat)
    requires k < |rs| && rs[k] < U32_LIMIT
    ensures FromLittleEndian(EncodeU32s(rs)[4 * k..4 * k + 4]) == rs[k]
    decreases |rs|
  {
    var n := |rs| - 1;
    var front := EncodeU32s(rs[..n]);
    assert EncodeU32s(rs) == front + LittleEndian(rs[n], 4);
    if k < n {
      EncodedU32(rs[..n], k);
      assert EncodeU32s(rs)[4 * k..4 * k + 4] == front[4 * k..4 * k + 4];
    } else {
      assert EncodeU32s(rs)[4 * k..4 * k + 4] == LittleEndian(rs[k], 4);
      U32RoundTrip(rs[k]);
    }
  }

  // ----- Visits

  // Entries already visited, in front of what the rest of a visit yields.
  function Prepend<T>(visited: seq<T>, r: Result<seq<T>>): Result<seq<T>> {
    match r
    case Success(rest) => Success(visited + rest)
    case Failure(e) => Failure(e)
  }

  lemma PrependNothing<T>(r: Result<seq<T>>)
    ensures Prepend([], r) == r
  {
    if r.Success? {
      assert [] + r.value == r.value;
    }
  }

  lemma PrependTwice<T>(a: seq<T>, b: seq<T>, r: Result<seq<T>>)
    ensures Prepend(a, Prepend(b, r)) == Prepend(a + b, r)
  {
    if r.Success? {
      ConcatAssociative(a, b, r.value);
    }
  }

  // ----- Reading the trailer

  datatype ParsedBlock = ParsedBlock(contents: Bytes, restarts: seq<nat>)

  predicate WellParsed(block: ParsedBlock) {
    4 + 4 * |block.restarts| <= |block.contents|
  }

  // The entries, without the trailer.
  function EntryData(block: ParsedBlock): Bytes
    requires WellParsed(block)
  {
    block.contents[..|block.contents| - 4 - 4 * |block.restarts|]
  }

  function U32At(b: Bytes, pos: nat): u32
    requires pos + 4 <= |b|
  {
    FromLittleEndianBound(b[pos..pos + 4]);
    Pow256Values();
    FromLittleEndian(b[pos..pos + 4])
  }

  function ReadU32s(b: Bytes, pos: nat, n: nat): (rs: seq<nat>)
    requires pos + 4 * n <= |b|
    ensures |rs| == n
  {
    if n == 0 then [] else ReadU32s(b, pos, n - 1) + [U32At(b, pos + 4 * (n - 1))]
  }

  function ParseBlock(contents: Bytes): (r: Result<ParsedBlock>)
    ensures r.Success? ==> WellParsed(r.value) && r.value.contents == contents
  {
    if |contents| < 4 then Failure("block too small to contain restart trailer")
    else
      var numRestarts := U32At(contents, |contents| - 4);
      if |contents| < 4 + numRestarts * 4 then Failure("block restart array out of bounds")
      else Success(ParsedBlock(contents, ReadU32s(contents, |contents| - 4 - numRestarts * 4, numRestarts)))
  }

  method ParseBlockContents(contents: Bytes) returns (r: Result<ParsedBlock>)
    ensures r == ParseBlock(contents)
  {
    var n := |contents|;
    if n < 4 {
      return Failure("block too small to contain restart trailer");
    }
    var numRestarts: nat := U32At(contents, n - 4);
    var restartsLen := numRestarts * 4;
    if n < 4 + restartsLen {
      return Failure("block restart array out of bounds");
    }
    var restartsStart := n - 4 - restartsLen;
    var restarts: seq<nat> := [];
    for i := 0 to numRestarts
      invariant restarts == ReadU32s(contents, restartsStart, i)
    {
      restarts := restarts + [U32At(contents, restartsStart + i * 4)];
    }
    r := Success(ParsedBlock(contents, restarts));
  }

  ghost predicate FitU32(rs: seq<nat>) {
    |rs| < U32_LIMIT && forall i :: 0 <= i < |rs| ==> rs[i] < U32_LIMIT
  }

  lemma U32AtEncoded(b: Bytes, pos: nat, v: u32)
    requires At(b, pos, LittleEndian(v, 4))
    ensures U32At(b, pos) == v
  {
    U32RoundTrip(v);
    AtIsSlice(b, pos, LittleEndian(v, 4));
  }

  lemma {:induction false} ReadU32sEncoded(b: Bytes, pos: nat, rs: seq<nat>)
    requires FitU32(rs) && At(b, pos, EncodeU32s(rs))
    ensures ReadU32s(b, pos, |rs|) == rs
    decreases |rs|
  {
    if rs != [] {
      var front, last := rs[..|rs| - 1], rs[|rs| - 1];
      AtSplit(b, pos, EncodeU32s(front), LittleEndian(last, 4));
      ReadU32sEncoded(b, pos, front);
      U32AtEncoded(b, pos + 4 * |front|, last);
      assert rs == front + [last];
    }
  }

  lemma SliceOfMiddle(a: Bytes, b: Bytes, d: Bytes, p: nat)
    requires p + 4 <= |b| && |d| == 4
    ensures var all := a + (b + d);
            all[..|a|] == a && all[|a| + p..|a| + p + 4] == b[p..p + 4] && all[|all| - 4..] == d
  {
  }

  // Behind the entries stand the restart offsets, four bytes each, and at the very end their number.
  lemma TrailerLayout(body: Bytes, rs: seq<nat>, k: nat)
    requires FitU32(rs) && k < |rs|
    ensures var all := body + RestartTrailer(rs);
            |all| == |body| + 4 * |rs| + 4 && all[..|body|] == body &&
            FromLittleEndian(all[|body| + 4 * k..|body| + 4 * k + 4]) == rs[k] &&
            FromLittleEndian(all[|all| - 4..]) == |rs|
  {
    EncodedU32(rs, k);
    SliceOfMiddle(body, EncodeU32s(rs), LittleEndian(|rs|, 4), 4 * k);
    U32RoundTrip(|rs|);
  }

  // Parsing undoes the trailer.
  lemma ParseRoundTrip(body: Bytes, rs: seq<nat>)
    requires FitU32(rs)
    ensures ParseBlock(body + RestartTrailer(rs)) == Success(ParsedBlock(body + RestartTrailer(rs), rs))
    ensures EntryData(ParsedBlock(body + RestartTrailer(rs), rs)) == body
  {
    var all := body + RestartTrailer(rs);
    assert all == body + EncodeU32s(rs) + LittleEndian(|rs|, 4);
    AtConcat(body, EncodeU32s(rs), LittleEndian(|rs|, 4));
    assert all == (body + EncodeU32s(rs)) + LittleEndian(|rs|, 4) + [];
    AtConcat(body + EncodeU32s(rs), LittleEndian(|rs|, 4), []);
    U32AtEncoded(all, |all| - 4, |rs|);
    ReadU32sEncoded(all, |body|, rs);
  }
}
