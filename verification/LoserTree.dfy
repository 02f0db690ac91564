/** The loser-tree merger: an array of losers, replayed along one leaf-to-root path per emitted entry. */
module LoserTree {
  import opened Wrappers
  import opened ByteStrings
  import opened InternalKeys
  import opened Comparators
  import opened Merging
  import opened Sources
  import opened MergeInputs
  import opened Tournament
  import opened Lists

  const NONE_YET: nat := 0xffff_ffff_ffff_ffff

  // `next_power_of_two`: the least exponent, from e on, whose power of two is not below n.
  function NextPowerOfTwo(n: nat, e: nat): (l: nat)
    ensures l >= e && Pow2(l) >= n && (l > e ==> Pow2(l - 1) < n)
    decreases n - Pow2(e)
  {
    if Pow2(e) >= n then e else NextPowerOfTwo(n, e + 1)
  }

  // Steps from a node up to the root.
  function Height(node: nat): nat {
    if node <= 1 then 0 else 1 + Height(node / 2)
  }

  lemma HeightStep(child: nat, node: nat)
    requires node == child / 2 && node >= 1
    ensures Height(child) == 1 + Height(node)
  {
  }

  // Of 2^m leaves every one is m steps below the root.
  lemma {:induction false} LeafHeight(node: nat, m: nat)
    requires Pow2(m) <= node < 2 * Pow2(m)
    ensures Height(node) == m
  {
    if m > 0 {
      LeafHeight(node / 2, m - 1);
    }
  }

  // Leaf k + i is won by source i; the matches above are still to be played.
  ghost function FreshLeaves(k: nat): (wins: seq<nat>)
    requires k >= 1
    ensures Leaves(k, wins)
  {
    seq(2 * k, i => if i < k then 0 else i - k)
  }

  class LoserTreeMerger {
    const c: KeyComparator
    const sources: seq<ArenaSource>
    const kPadded: nat
    ghost const levels: nat
    const tree: array<nat>
    var winner: nat
    ghost var wins: seq<nat>

    ghost predicate Shaped()
      reads sources
    {
      ValidSources(sources) && AllRestAccepted(c, Remainders(sources)) &&
      kPadded == Pow2(levels) && |sources| <= kPadded && tree.Length == kPadded
    }

    ghost function FrontsNow(): (fronts: seq<Front>)
      reads sources
      requires Shaped()
      ensures |fronts| == kPadded && AcceptsFronts(c, fronts)
    {
      Fronts(Remainders(sources), kPadded)
    }

    // Between steps: a finished tournament over the sources' current fronts.
    ghost predicate Valid()
      reads this, tree, sources
    {
      Shaped() && IsTournament(c, kPadded, FrontsNow(), tree[..], wins) && winner == wins[1]
    }

    // A leaf past the last source is padding and always empty.
    function PeekAt(leaf: nat): (r: Option<Entry>)
      reads sources
      requires Shaped()
      ensures (r.Some? <==> FrontOf(Remainders(sources), leaf).Some?)
      ensures r.Some? ==> FrontOf(Remainders(sources), leaf) == Some(r.value.key)
    {
      if leaf >= |sources| then None else sources[leaf].Peek()
    }

    function Less(a: nat, b: nat): (r: bool)
      reads sources
      requires Shaped() && a < kPadded && b < kPadded
      ensures r == FrontLess(c, FrontsNow()[a], FrontsNow()[b])
    {
      match (PeekAt(a), PeekAt(b))
      case (Some(ea), Some(eb)) => c.CompareWithPrefix(ea.key, eb.key) == Comparators.Less
      case (Some(_), None) => true
      case (None, Some(_)) => false
      case (None, None) => false
    }

    constructor (c: KeyComparator, sources: seq<ArenaSource>)
      requires ValidSources(sources) && AllRestAccepted(c, Remainders(sources))
      ensures Valid() && fresh(tree) && this.c == c && this.sources == sources
      ensures levels > 0 ==> Pow2(levels - 1) < |sources|
    {
      var l := NextPowerOfTwo(if |sources| > 1 then |sources| else 1, 0);
      var k := Pow2(l);
      this.c, this.sources, this.kPadded, this.levels := c, sources, k, l;
      this.tree := new nat[k](_ => NONE_YET);
      this.winner := 0;
      this.wins := FreshLeaves(k);
      new;
      Build();
    }

    // The match at `node`, once both subtrees are played; ties go to the right child.
    method PlayMatch(node: nat, left: nat, right: nat, ghost tree0: seq<nat>, ghost wins0: seq<nat>,
                     ghost treeL: seq<nat>, ghost winsL: seq<nat>, ghost winsR: seq<nat>) returns (w: nat, ghost wins1: seq<nat>)
      requires Shaped() && 1 <= node < kPadded
      requires Played(c, kPadded, FrontsNow(), treeL, winsL, 2 * node) && SameOutside(kPadded, tree0, wins0, treeL, winsL, 2 * node)
      requires Played(c, kPadded, FrontsNow(), tree[..], winsR, 2 * node + 1)
      requires SameOutside(kPadded, treeL, winsL, tree[..], winsR, 2 * node + 1)
      requires left == winsL[2 * node] && right == winsR[2 * node + 1] && left < kPadded && right < kPadded
      modifies tree
      ensures Played(c, kPadded, FrontsNow(), tree[..], wins1, node) && w == wins1[node]
      ensures SameOutside(kPadded, tree0, wins0, tree[..], wins1, node)
    {
      ghost var treeR := tree[..];
      var loser;
      var leftWins := Less(left, right);
      if leftWins {
        w, loser := left, right;
      } else {
        w, loser := right, left;
      }
      tree[node] := loser;
      wins1 := winsR[node := w];
      BuildStep(c, kPadded, FrontsNow(), tree0, wins0, treeL, winsL, treeR, winsR, node, leftWins);
      assert tree[..] == treeR[node := loser];
    }

    // Plays the subtree at `node`.
    method BuildSubtree(node: nat, ghost wins0: seq<nat>) returns (w: nat, ghost wins1: seq<nat>)
      requires Shaped() && Leaves(kPadded, wins0) && 1 <= node < 2 * kPadded
      modifies tree
      ensures Shaped() && FrontsNow() == old(FrontsNow())
      ensures Played(c, kPadded, FrontsNow(), tree[..], wins1, node) && w == wins1[node]
      ensures SameOutside(kPadded, old(tree[..]), wins0, tree[..], wins1, node)
      decreases 2 * kPadded - node
    {
      ghost var fronts, tree0 := FrontsNow(), tree[..];
      if node >= kPadded {
        LeafIsPlayed(c, kPadded, fronts, tree0, wins0, node);
        return node - kPadded, wins0;
      }
      var left, winsL := BuildSubtree(2 * node, wins0);
      ghost var treeL := tree[..];
      var right, winsR := BuildSubtree(2 * node + 1, winsL);
      w, wins1 := PlayMatch(node, left, right, tree0, wins0, treeL, winsL, winsR);
    }

    method Build()
      requires Shaped() && Leaves(kPadded, wins)
      modifies tree, this`wins, this`winner
      ensures Valid()
    {
      var w, wins1 := BuildSubtree(1, wins);
      RootPlayed(c, kPadded, FrontsNow(), tree[..], wins1);
      winner, wins := w, wins1;
    }

    // One match of the replay, at `node` above `child`; ties go to the stored loser.
    method ReplayMatch(node: nat, contender: nat, ghost fronts: seq<Front>, ghost won: seq<nat>, ghost child: nat)
      returns (contender': nat, ghost won': seq<nat>)
      requires Shaped() && FrontsNow() == fronts && Replaying(c, kPadded, fronts, tree[..], won, child)
      requires node == child / 2 >= 1 && contender == won[child]
      modifies tree
      ensures Replaying(c, kPadded, fronts, tree[..], won', node) && contender' == won'[node]
    {
      ghost var played := tree[..];
      StoredLoserIsSibling(c, kPadded, fronts, played, won, child);
      contender' := contender;
      var loserHere := tree[node];
      ghost var played' := played;
      if !Less(contender, loserHere) {
        tree[node] := contender;
        played' := played[node := contender];
        contender' := loserHere;
      }
      won' := won[node := contender'];
      ReplayStep(c, kPadded, fronts, played, won, child, played', won');
      assert tree[..] == played';
    }

    // The path from `leaf` is replayed up to `child`, at one comparison per level.
    ghost predicate OnPath(fronts: seq<Front>, won: seq<nat>, leaf: nat, child: nat, comparisons: nat)
      reads this, tree, sources
    {
      Shaped() && FrontsNow() == fronts && leaf < kPadded && Replaying(c, kPadded, fronts, tree[..], won, child) &&
      comparisons + Height(child) == levels && (child <= 1 ==> winner == won[1])
    }

    // The body of the replay loop: one more match, and at the root the winner.
    method ReplayOne(node: nat, contender: nat, ghost fronts: seq<Front>, ghost won: seq<nat>, ghost leaf: nat, ghost child: nat,
                     ghost comparisons: nat)
      returns (ghost comparisons': nat, ghost child': nat, contender': nat, ghost won': seq<nat>)
      requires node == child / 2 >= 1 && OnPath(fronts, won, leaf, child, comparisons) && contender == won[child]
      modifies tree, this`winner
      ensures child' == node && OnPath(fronts, won', leaf, child', comparisons') && contender' == won'[child']
    {
      contender', won' := ReplayMatch(node, contender, fronts, won, child);
      HeightStep(child, node);
      comparisons', child' := comparisons + 1, node;
      if node == 1 {
        winner := contender';
      }
    }

    // The walk from a leaf to the root, one match per level.
    method ReplayPath(leaf: nat, ghost fronts: seq<Front>, ghost won: seq<nat>)
      returns (ghost comparisons: nat, ghost won': seq<nat>)
      requires Shaped() && FrontsNow() == fronts && leaf < kPadded
      requires Replaying(c, kPadded, fronts, tree[..], won, leaf + kPadded) && winner == leaf == won[leaf + kPadded]
      modifies tree, this`winner
      ensures IsTournament(c, kPadded, fronts, tree[..], won') && winner == won'[1]
      ensures comparisons == levels
    {
      var node := (leaf + kPadded) / 2;
      var contender := leaf;
      ghost var child: nat := leaf + kPadded;
      comparisons, won' := 0, won;
      LeafHeight(leaf + kPadded, levels);
      while node >= 1
        invariant node == child / 2 && OnPath(fronts, won', leaf, child, comparisons) && contender == won'[child]
        decreases node
        modifies tree, this`winner
      {
        comparisons, child, contender, won' := ReplayOne(node, contender, fronts, won', leaf, child, comparisons);
        if node == 1 {
          break;
        }
        node := node / 2;
      }
      ReplayEnds(c, kPadded, fronts, tree[..], won');
    }

    // Whatever key now fronts the previous winner's leaf, replaying its path restores the tournament, at the
    // price of one comparison per level.
    method ReplayFromLeaf(leaf: nat, ghost before: seq<Front>) returns (ghost comparisons: nat)
      requires Shaped() && |before| == kPadded && IsTournament(c, kPadded, before, tree[..], wins)
      requires leaf == winner == wins[1] < kPadded && FrontsNow() == before[leaf := FrontsNow()[leaf]]
      modifies tree, this`wins, this`winner
      ensures Valid() && comparisons == levels
    {
      ReplayStarts(c, kPadded, before, tree[..], wins, FrontsNow()[leaf]);
      ghost var won;
      comparisons, won := ReplayPath(leaf, FrontsNow(), wins);
      wins := won;
    }

    // `sources[winner].advance()` and the replay it calls for.
    method AdvanceWinner() returns (ghost comparisons: nat)
      requires Valid() && FrontOf(Remainders(sources), winner).Some?
      modifies this`wins, this`winner, tree, sources
      ensures Valid()
      ensures Remainders(sources) == old(Remainders(sources)[winner := Remainders(sources)[winner][1..]])
      ensures comparisons == levels
    {
      ghost var rest, before := Remainders(sources), FrontsNow();
      var w := winner;
      sources[w].Advance();
      ghost var rest' := rest[w := rest[w][1..]];
      forall i | 0 <= i < |sources| ensures Remainders(sources)[i] == rest'[i] {
        assert i != w ==> sources[i] != sources[w];
      }
      assert Remainders(sources) == rest';
      AdvancedFronts(c, rest, kPadded, w);
      comparisons := ReplayFromLeaf(w, before);
    }

    // One round of the merge loop: what is handed to the callback, if anything is left, and where it came from.
    method EmitNext(ghost all: seq<seq<Entry>>, ghost out: seq<Entry>, ghost trace: seq<nat>)
      returns (next: Option<Entry>, ghost w: nat)
      requires Valid() && MergeUnderWay(c, all, out, trace, Remainders(sources))
      modifies this`wins, this`winner, tree, sources
      ensures Valid()
      ensures next.None? ==> IsMerge(c, all, out, trace) && forall i :: 0 <= i < |sources| ==> sources[i].Remaining() == []
      ensures next.Some? ==> MergeUnderWay(c, all, out + [next.value], trace + [w], Remainders(sources)) &&
                             |Flatten(Remainders(sources))| == |Flatten(old(Remainders(sources)))| - 1
    {
      w := winner;
      WinnerStep(c, kPadded, all, out, trace, Remainders(sources), tree[..], wins);
      if winner >= |sources| {
        return None, w;
      }
      next := sources[winner].Peek();
      if next.Some? {
        ghost var _ := AdvanceWinner();
      }
    }

    // Drives the merge to completion; `out` lists the pairs handed to the callback, in order.
    method Run() returns (out: seq<Entry>, ghost trace: seq<nat>)
      requires Valid() && forall i :: 0 <= i < |sources| ==> Sorted(c, sources[i].Remaining())
      modifies this`wins, this`winner, tree, sources
      ensures Valid() && IsMerge(c, old(Remainders(sources)), out, trace)
      ensures forall i :: 0 <= i < |sources| ==> sources[i].Remaining() == []
    {
      ghost var all := Remainders(sources);
      out, trace := [], [];
      MergeStarts(c, all);
      while true
        invariant Valid() && MergeUnderWay(c, all, out, trace, Remainders(sources))
        decreases |Flatten(Remainders(sources))|
      {
        var next, w := EmitNext(all, out, trace);
        if next.None? {
          break;
        }
        out, trace := out + [next.value], trace + [w];
      }
    }
  }
}
