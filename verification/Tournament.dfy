/**
 The tournament behind the loser tree, on values. Leaves stand at positions k..2k-1 (leaf i at k + i),
 internal nodes at 1..k-1; `wins[n]` is the leaf that wins the subtree at n and `tree[n]` the loser of
 the match played at n. A front is the key a leaf currently shows, None when it has nothing left.
 */
module Tournament {
  import opened Wrappers
  import opened ByteStrings
  import opened Comparators

  type Front = Option<Bytes>

  predicate AcceptsFront(c: KeyComparator, f: Front) {
    f.Some? ==> c.Accepts(f.value)
  }

  predicate AcceptsFronts(c: KeyComparator, fronts: seq<Front>) {
    forall i :: 0 <= i < |fronts| ==> AcceptsFront(c, fronts[i])
  }

  // An exhausted leaf loses to every other, and beats none.
  predicate FrontLess(c: KeyComparator, a: Front, b: Front)
    requires AcceptsFront(c, a) && AcceptsFront(c, b)
  {
    match (a, b)
    case (Some(ka), Some(kb)) => c.CompareWithPrefix(ka, kb) == Less
    case (Some(_), None) => true
    case (None, Some(_)) => false
    case (None, None) => false
  }

  lemma FrontLessIs(c: KeyComparator, a: Front, b: Front)
    requires AcceptsFront(c, a) && AcceptsFront(c, b)
    ensures FrontLess(c, a, b) <==> a.Some? && (b.None? || c.Lt(a.value, b.value))
  {
    if a.Some? && b.Some? {
      CompareWithPrefixIsCompare(c, a.value, b.value);
    }
  }

  lemma FrontLessTransitive(c: KeyComparator, a: Front, b: Front, d: Front)
    requires AcceptsFront(c, a) && AcceptsFront(c, b) && AcceptsFront(c, d)
    requires !FrontLess(c, b, a) && !FrontLess(c, d, b)
    ensures !FrontLess(c, d, a)
  {
    if a.Some? && b.Some? && d.Some? {
      CompareWithPrefixIsCompare(c, b.value, a.value);
      CompareWithPrefixIsCompare(c, d.value, b.value);
      CompareWithPrefixIsCompare(c, d.value, a.value);
      NotLtTransitive(c, a.value, b.value, d.value);
    }
  }

  lemma FrontLessAsymmetric(c: KeyComparator, a: Front, b: Front)
    requires AcceptsFront(c, a) && AcceptsFront(c, b) && FrontLess(c, a, b)
    ensures !FrontLess(c, b, a)
  {
    if a.Some? && b.Some? {
      CompareWithPrefixIsCompare(c, a.value, b.value);
      CompareWithPrefixIsCompare(c, b.value, a.value);
      CompareReverse(c, a.value, b.value);
    }
  }

  // ----- The invariant, node by node

  ghost predicate Leaves(k: nat, wins: seq<nat>) {
    |wins| == 2 * k && forall i :: k <= i < 2 * k ==> wins[i] == i - k
  }

  // The match at node n was played between its children's winners, and its loser is not below its winner.
  ghost predicate MatchAt(c: KeyComparator, k: nat, fronts: seq<Front>, tree: seq<nat>, wins: seq<nat>, n: nat)
    requires |fronts| == |tree| == k && |wins| == 2 * k && AcceptsFronts(c, fronts)
    requires 1 <= n < k
  {
    ((wins[n] == wins[2 * n] && tree[n] == wins[2 * n + 1]) ||
     (wins[n] == wins[2 * n + 1] && tree[n] == wins[2 * n])) &&
    wins[n] < k && tree[n] < k &&
    !FrontLess(c, fronts[tree[n]], fronts[wins[n]])
  }

  ghost predicate IsTournament(c: KeyComparator, k: nat, fronts: seq<Front>, tree: seq<nat>, wins: seq<nat>) {
    k >= 1 && |fronts| == |tree| == k && AcceptsFronts(c, fronts) && Leaves(k, wins) &&
    forall n :: 1 <= n < k ==> MatchAt(c, k, fronts, tree, wins, n)
  }

  // ----- Subtrees

  // x is in the subtree rooted at n: n is met on the way from x to the root.
  ghost predicate InSubtree(n: nat, x: nat)
    requires n >= 1
    decreases x
  {
    x == n || (x > n && InSubtree(n, x / 2))
  }

  lemma {:induction false} RootReachesAll(x: nat)
    requires x >= 1
    ensures InSubtree(1, x)
  {
    if x > 1 {
      RootReachesAll(x / 2);
    }
  }

  // A proper descendant of n lies under exactly one child of n.
  lemma {:induction false} UnderOneChild(n: nat, x: nat)
    requires n >= 1 && InSubtree(n, x) && x != n
    ensures InSubtree(2 * n, x) <==> !InSubtree(2 * n + 1, x)
    decreases x
  {
    if x / 2 == n {
    } else {
      UnderOneChild(n, x / 2);
    }
  }

  lemma {:induction false} ChildInParent(n: nat, child: nat, x: nat)
    requires n >= 1 && child / 2 == n && child >= 2 && InSubtree(child, x)
    ensures InSubtree(n, x)
    decreases x
  {
    if x != child {
      ChildInParent(n, child, x / 2);
    }
  }

  // ----- What the invariant gives

  // A node's winner and loser are leaves of its subtree, under different children.
  lemma {:induction false} WinnerInSubtree(c: KeyComparator, k: nat, fronts: seq<Front>, tree: seq<nat>, wins: seq<nat>, n: nat)
    requires IsTournament(c, k, fronts, tree, wins) && 1 <= n < 2 * k
    ensures wins[n] < k && InSubtree(n, k + wins[n])
    decreases 2 * k - n
  {
    if n < k {
      assert MatchAt(c, k, fronts, tree, wins, n);
      var child := if wins[n] == wins[2 * n] then 2 * n else 2 * n + 1;
      WinnerInSubtree(c, k, fronts, tree, wins, child);
      ChildInParent(n, child, k + wins[n]);
    }
  }

  lemma LoserInSubtree(c: KeyComparator, k: nat, fronts: seq<Front>, tree: seq<nat>, wins: seq<nat>, n: nat)
    requires IsTournament(c, k, fronts, tree, wins) && 1 <= n < k
    ensures tree[n] < k && InSubtree(n, k + tree[n]) && tree[n] != wins[n]
  {
    assert MatchAt(c, k, fronts, tree, wins, n);
    WinnerInSubtree(c, k, fronts, tree, wins, 2 * n);
    WinnerInSubtree(c, k, fronts, tree, wins, 2 * n + 1);
    TwoSides(n, k + wins[2 * n], k + wins[2 * n + 1]);
  }

  lemma TwoSides(n: nat, a: nat, b: nat)
    requires n >= 1 && InSubtree(2 * n, a) && InSubtree(2 * n + 1, b)
    ensures InSubtree(n, a) && InSubtree(n, b) && a != b
  {
    ChildInParent(n, 2 * n, a);
    ChildInParent(n, 2 * n + 1, b);
    UnderOneChild(n, a);
  }

  // No leaf of a subtree is below its winner.
  lemma {:induction false} WinnerIsLeast(c: KeyComparator, k: nat, fronts: seq<Front>, tree: seq<nat>, wins: seq<nat>, n: nat, leaf: nat)
    requires IsTournament(c, k, fronts, tree, wins) && 1 <= n < 2 * k
    requires leaf < k && InSubtree(n, k + leaf)
    ensures wins[n] < k && !FrontLess(c, fronts[leaf], fronts[wins[n]])
    decreases 2 * k - n
  {
    if n < k {
      assert MatchAt(c, k, fronts, tree, wins, n);
      UnderOneChild(n, k + leaf);
      var child := if InSubtree(2 * n, k + leaf) then 2 * n else 2 * n + 1;
      WinnerIsLeast(c, k, fronts, tree, wins, child, leaf);
      if wins[n] != wins[child] {
        FrontLessTransitive(c, fronts[wins[n]], fronts[wins[child]], fronts[leaf]);
      }
    } else {
      LeafAlone(k, n, leaf);
      FrontLessIrreflexive(c, fronts[leaf]);
    }
  }

  lemma LeafAlone(k: nat, n: nat, leaf: nat)
    requires 1 <= k <= n < 2 * k && leaf < k && InSubtree(n, k + leaf)
    ensures n == k + leaf
  {
    SubtreeIsBelow(n, k + leaf);
  }

  lemma {:induction false} SubtreeIsBelow(n: nat, x: nat)
    requires n >= 1 && InSubtree(n, x)
    ensures x == n || x / 2 >= n
  {
    if x != n {
      SubtreeIsBelow(n, x / 2);
    }
  }

  lemma {:induction false} AboveIsOutside(n: nat, x: nat)
    requires n >= 1 && x < n
    ensures !InSubtree(n, x)
  {
  }

  lemma FrontLessIrreflexive(c: KeyComparator, a: Front)
    requires AcceptsFront(c, a)
    ensures !FrontLess(c, a, a)
  {
    if FrontLess(c, a, a) {
      FrontLessAsymmetric(c, a, a);
    }
  }

  // The winner has won every match on its way up.
  lemma {:induction false} WinnerWonItsPath(c: KeyComparator, k: nat, fronts: seq<Front>, tree: seq<nat>, wins: seq<nat>, n: nat)
    requires IsTournament(c, k, fronts, tree, wins) && 1 <= n < 2 * k
    requires InSubtree(n, k + wins[1])
    ensures wins[n] == wins[1]
    decreases n
  {
    if n > 1 {
      var parent := n / 2;
      ChildInParent(parent, n, k + wins[1]);
      WinnerWonItsPath(c, k, fronts, tree, wins, parent);
      assert MatchAt(c, k, fronts, tree, wins, parent);
      var sibling := if n == 2 * parent then 2 * parent + 1 else 2 * parent;
      if wins[sibling] == wins[1] {
        WinnerInSubtree(c, k, fronts, tree, wins, sibling);
        SubtreeIsBelow(parent, n);
        UnderOneChild(parent, k + wins[1]);
      }
    }
  }

  // ----- Building, subtree by subtree

  // All matches of the subtree at `node` have been played.
  ghost predicate Played(c: KeyComparator, k: nat, fronts: seq<Front>, tree: seq<nat>, wins: seq<nat>, node: nat) {
    k >= 1 && |fronts| == |tree| == k && AcceptsFronts(c, fronts) && Leaves(k, wins) && 1 <= node < 2 * k &&
    wins[node] < k &&
    forall n :: 1 <= n < k && InSubtree(node, n) ==> MatchAt(c, k, fronts, tree, wins, n)
  }

  ghost predicate SameOutside(k: nat, tree: seq<nat>, wins: seq<nat>, tree': seq<nat>, wins': seq<nat>, node: nat) {
    |tree| == |tree'| == k && |wins| == |wins'| == 2 * k && node >= 1 &&
    forall n {:trigger InSubtree(node, n)} ::
      1 <= n < k && !InSubtree(node, n) ==> tree'[n] == tree[n] && wins'[n] == wins[n]
  }

  lemma LeafIsPlayed(c: KeyComparator, k: nat, fronts: seq<Front>, tree: seq<nat>, wins: seq<nat>, node: nat)
    requires k >= 1 && |fronts| == |tree| == k && AcceptsFronts(c, fronts) && Leaves(k, wins) && k <= node < 2 * k
    ensures Played(c, k, fronts, tree, wins, node) && wins[node] == node - k
  {
    forall n | 1 <= n < k ensures !InSubtree(node, n) {
      AboveIsOutside(node, n);
    }
  }

  // Playing the right subtree leaves the left one played.
  lemma LeftStaysPlayed(c: KeyComparator, k: nat, fronts: seq<Front>, tree: seq<nat>, wins: seq<nat>,
                        tree': seq<nat>, wins': seq<nat>, node: nat)
    requires 1 <= node < k && Played(c, k, fronts, tree, wins, 2 * node) && Leaves(k, wins')
    requires SameOutside(k, tree, wins, tree', wins', 2 * node + 1)
    ensures Played(c, k, fronts, tree', wins', 2 * node)
  {
    OnlyLeft(node, 2 * node);
    assert wins'[2 * node] == wins[2 * node];
    forall n | 1 <= n < k && InSubtree(2 * node, n)
      ensures MatchAt(c, k, fronts, tree', wins', n)
    {
      LeftMatchStands(c, k, fronts, tree, wins, tree', wins', node, n);
    }
  }

  lemma LeftMatchStands(c: KeyComparator, k: nat, fronts: seq<Front>, tree: seq<nat>, wins: seq<nat>,
                        tree': seq<nat>, wins': seq<nat>, node: nat, n: nat)
    requires 1 <= node < k && Played(c, k, fronts, tree, wins, 2 * node) && Leaves(k, wins')
    requires SameOutside(k, tree, wins, tree', wins', 2 * node + 1) && 1 <= n < k && InSubtree(2 * node, n)
    ensures MatchAt(c, k, fronts, tree', wins', n)
  {
    assert MatchAt(c, k, fronts, tree, wins, n);
    OnlyLeft(node, n);
    OnlyLeft(node, 2 * n);
    OnlyLeft(node, 2 * n + 1);
  }

  lemma OnlyLeft(node: nat, n: nat)
    requires node >= 1 && InSubtree(2 * node, n)
    ensures !InSubtree(2 * node + 1, n)
    ensures InSubtree(2 * node, 2 * n) && InSubtree(2 * node, 2 * n + 1)
  {
    ChildInParent(node, 2 * node, n);
    SubtreeIsBelow(2 * node, n);
    UnderOneChild(node, n);
    assert 2 * n / 2 == n && (2 * n + 1) / 2 == n;
  }

  lemma ParentIsPlayed(c: KeyComparator, k: nat, fronts: seq<Front>, tree: seq<nat>, wins: seq<nat>, node: nat,
                       tree': seq<nat>, wins': seq<nat>)
    requires 1 <= node < k
    requires Played(c, k, fronts, tree, wins, 2 * node) && Played(c, k, fronts, tree, wins, 2 * node + 1)
    requires var left, right := wins[2 * node], wins[2 * node + 1];
             if FrontLess(c, fronts[left], fronts[right])
             then tree' == tree[node := right] && wins' == wins[node := left]
             else tree' == tree[node := left] && wins' == wins[node := right]
    ensures Played(c, k, fronts, tree', wins', node)
  {
    var left, right := wins[2 * node], wins[2 * node + 1];
    if FrontLess(c, fronts[left], fronts[right]) {
      FrontLessAsymmetric(c, fronts[left], fronts[right]);
    }
    forall n | 1 <= n < k && InSubtree(node, n) && n != node
      ensures MatchAt(c, k, fronts, tree', wins', n)
    {
      UnderOneChild(node, n);
      SubtreeIsBelow(node, n);
      assert MatchAt(c, k, fronts, tree, wins, n);
    }
  }

  lemma OutsideParent(k: nat, tree: seq<nat>, wins: seq<nat>, tree1: seq<nat>, wins1: seq<nat>,
                      tree2: seq<nat>, wins2: seq<nat>, node: nat, lost: nat, won: nat)
    requires 1 <= node < k && SameOutside(k, tree, wins, tree1, wins1, 2 * node)
    requires SameOutside(k, tree1, wins1, tree2, wins2, 2 * node + 1)
    ensures SameOutside(k, tree, wins, tree2[node := lost], wins2[node := won], node)
  {
    forall n | 1 <= n < k && !InSubtree(node, n)
      ensures tree2[n] == tree[n] && wins2[n] == wins[n]
    {
      if InSubtree(2 * node, n) {
        ChildInParent(node, 2 * node, n);
      }
      if InSubtree(2 * node + 1, n) {
        ChildInParent(node, 2 * node + 1, n);
      }
    }
  }

  // The match at `node`, once both subtrees are played.
  lemma BuildStep(c: KeyComparator, k: nat, fronts: seq<Front>, tree: seq<nat>, wins: seq<nat>,
                  tree1: seq<nat>, wins1: seq<nat>, tree2: seq<nat>, wins2: seq<nat>, node: nat, leftWins: bool)
    requires 1 <= node < k
    requires Played(c, k, fronts, tree1, wins1, 2 * node) && SameOutside(k, tree, wins, tree1, wins1, 2 * node)
    requires Played(c, k, fronts, tree2, wins2, 2 * node + 1)
    requires SameOutside(k, tree1, wins1, tree2, wins2, 2 * node + 1)
    requires leftWins == FrontLess(c, fronts[wins1[2 * node]], fronts[wins2[2 * node + 1]])
    ensures var left, right := wins1[2 * node], wins2[2 * node + 1];
            var won, lost := if leftWins then left else right, if leftWins then right else left;
            Played(c, k, fronts, tree2[node := lost], wins2[node := won], node) &&
            SameOutside(k, tree, wins, tree2[node := lost], wins2[node := won], node)
  {
    var left, right := wins1[2 * node], wins2[2 * node + 1];
    var won, lost := if leftWins then left else right, if leftWins then right else left;
    LeftStaysPlayed(c, k, fronts, tree1, wins1, tree2, wins2, node);
    OnlyLeft(node, 2 * node);
    assert wins1[2 * node] == wins2[2 * node];
    ParentIsPlayed(c, k, fronts, tree2, wins2, node, tree2[node := lost], wins2[node := won]);
    OutsideParent(k, tree, wins, tree1, wins1, tree2, wins2, node, lost, won);
  }

  lemma RootPlayed(c: KeyComparator, k: nat, fronts: seq<Front>, tree: seq<nat>, wins: seq<nat>)
    requires Played(c, k, fronts, tree, wins, 1)
    ensures IsTournament(c, k, fronts, tree, wins)
  {
    forall n | 1 <= n < k ensures MatchAt(c, k, fronts, tree, wins, n) {
      RootReachesAll(n);
    }
  }

  // ----- The winner and the stored losers are all the leaves, each once

  ghost function AllLeaves(k: nat): multiset<nat> {
    multiset(seq(k, i => i))
  }

  lemma {:induction false} CutHoldsAllLeaves(c: KeyComparator, k: nat, fronts: seq<Front>, tree: seq<nat>, wins: seq<nat>, m: nat)
    requires IsTournament(c, k, fronts, tree, wins) && 1 <= m <= k
    ensures multiset(wins[m..2 * m]) + multiset(tree[m..]) == AllLeaves(k)
    decreases k - m
  {
    if m == k {
      assert wins[k..2 * k] == seq(k, i => i);
    } else {
      CutHoldsAllLeaves(c, k, fronts, tree, wins, m + 1);
      assert MatchAt(c, k, fronts, tree, wins, m);
      CutMovesUp(wins, tree, m);
    }
  }

  // The children's winners are their parent's winner and its loser.
  lemma CutMovesUp(wins: seq<nat>, tree: seq<nat>, m: nat)
    requires 1 <= m < |tree| && |wins| == 2 * |tree|
    requires multiset{wins[m], tree[m]} == multiset{wins[2 * m], wins[2 * m + 1]}
    ensures multiset(wins[m..2 * m]) + multiset(tree[m..]) == multiset(wins[m + 1..2 * (m + 1)]) + multiset(tree[m + 1..])
  {
    var middle := wins[m + 1..2 * m];
    assert wins[m..2 * m] == [wins[m]] + middle;
    assert wins[m + 1..2 * (m + 1)] == middle + [wins[2 * m], wins[2 * m + 1]];
    assert tree[m..] == [tree[m]] + tree[m + 1..];
  }

  lemma WinnerAndLosersAreAllLeaves(c: KeyComparator, k: nat, fronts: seq<Front>, tree: seq<nat>, wins: seq<nat>)
    requires IsTournament(c, k, fronts, tree, wins)
    ensures multiset{wins[1]} + multiset(tree[1..]) == AllLeaves(k)
  {
    CutHoldsAllLeaves(c, k, fronts, tree, wins, 1);
    assert wins[1..2] == [wins[1]];
  }

  // ----- Replay: a new front at the old winner's leaf

  function Sibling(p: nat): nat
    requires p >= 2
  {
    if p % 2 == 0 then p + 1 else p - 1
  }

  // The matches above `child` are still to be replayed; each of those nodes stores the winner of the
  // subtree beside the path. All other matches stand.
  ghost predicate Replaying(c: KeyComparator, k: nat, fronts: seq<Front>, tree: seq<nat>, wins: seq<nat>, child: nat) {
    k >= 1 && |fronts| == |tree| == k && AcceptsFronts(c, fronts) && Leaves(k, wins) &&
    1 <= child < 2 * k && wins[child] < k &&
    (forall p {:trigger InSubtree(p, child)} :: 2 <= p < 2 * k && InSubtree(p, child) ==>
       wins[Sibling(p)] < k && tree[p / 2] == wins[Sibling(p)]) &&
    forall n :: 1 <= n < k && (n == child || !InSubtree(n, child)) ==> MatchAt(c, k, fronts, tree, wins, n)
  }

  lemma PathStoresSibling(c: KeyComparator, k: nat, fronts: seq<Front>, tree: seq<nat>, wins: seq<nat>, p: nat)
    requires IsTournament(c, k, fronts, tree, wins) && 2 <= p < 2 * k && InSubtree(p, k + wins[1])
    ensures wins[Sibling(p)] < k && tree[p / 2] == wins[Sibling(p)]
  {
    WinnerWonItsPath(c, k, fronts, tree, wins, p);
    ChildInParent(p / 2, p, k + wins[1]);
    WinnerWonItsPath(c, k, fronts, tree, wins, p / 2);
    assert MatchAt(c, k, fronts, tree, wins, p / 2);
  }

  lemma OffPathMatchStands(c: KeyComparator, k: nat, fronts: seq<Front>, tree: seq<nat>, wins: seq<nat>, newFront: Front, n: nat)
    requires IsTournament(c, k, fronts, tree, wins) && AcceptsFront(c, newFront)
    requires wins[1] < k && 1 <= n < k && !InSubtree(n, k + wins[1])
    ensures MatchAt(c, k, fronts[wins[1] := newFront], tree, wins, n)
  {
    assert MatchAt(c, k, fronts, tree, wins, n);
    WinnerInSubtree(c, k, fronts, tree, wins, n);
    LoserInSubtree(c, k, fronts, tree, wins, n);
  }

  lemma ReplayStarts(c: KeyComparator, k: nat, fronts: seq<Front>, tree: seq<nat>, wins: seq<nat>, newFront: Front)
    requires IsTournament(c, k, fronts, tree, wins) && AcceptsFront(c, newFront)
    ensures wins[1] < k && Replaying(c, k, fronts[wins[1] := newFront], tree, wins, k + wins[1])
  {
    WinnerInSubtree(c, k, fronts, tree, wins, 1);
    var at := k + wins[1];
    forall p | 2 <= p < 2 * k && InSubtree(p, at)
      ensures wins[Sibling(p)] < k && tree[p / 2] == wins[Sibling(p)]
    {
      PathStoresSibling(c, k, fronts, tree, wins, p);
    }
    forall n | 1 <= n < k && !InSubtree(n, at)
      ensures MatchAt(c, k, fronts[wins[1] := newFront], tree, wins, n)
    {
      OffPathMatchStands(c, k, fronts, tree, wins, newFront, n);
    }
  }

  // One iteration of the replay loop, at the parent of `child`.
  ghost predicate MatchReplayed(c: KeyComparator, fronts: seq<Front>, tree: seq<nat>, wins: seq<nat>, child: nat,
                                tree': seq<nat>, wins': seq<nat>)
    requires AcceptsFronts(c, fronts) && 2 <= child < |wins| && child / 2 < |tree|
    requires wins[child] < |fronts| && tree[child / 2] < |fronts|
  {
    var n, contender, loser := child / 2, wins[child], tree[child / 2];
    if FrontLess(c, fronts[contender], fronts[loser])
    then tree' == tree && wins' == wins[n := contender]
    else tree' == tree[n := contender] && wins' == wins[n := loser]
  }

  lemma StoredLoserIsSibling(c: KeyComparator, k: nat, fronts: seq<Front>, tree: seq<nat>, wins: seq<nat>, child: nat)
    requires Replaying(c, k, fronts, tree, wins, child) && child >= 2
    ensures tree[child / 2] == wins[Sibling(child)] && tree[child / 2] < k
  {
    assert InSubtree(child, child);
  }

  lemma ReplayStep(c: KeyComparator, k: nat, fronts: seq<Front>, tree: seq<nat>, wins: seq<nat>, child: nat,
                   tree': seq<nat>, wins': seq<nat>)
    requires Replaying(c, k, fronts, tree, wins, child) && child >= 2 && tree[child / 2] < k
    requires MatchReplayed(c, fronts, tree, wins, child, tree', wins')
    ensures Replaying(c, k, fronts, tree', wins', child / 2)
  {
    var n := child / 2;
    ReplayedMatch(c, k, fronts, tree, wins, child, tree', wins');
    forall p | 2 <= p < 2 * k && InSubtree(p, n)
      ensures wins'[Sibling(p)] < k && tree'[p / 2] == wins'[Sibling(p)]
    {
      SubtreeIsBelow(p, n);
      assert InSubtree(p, child);
    }
    forall m | 1 <= m < k && m != n && !InSubtree(m, n)
      ensures MatchAt(c, k, fronts, tree', wins', m)
    {
      OtherMatchStands(c, k, fronts, tree, wins, child, tree', wins', m);
    }
  }

  lemma OtherMatchStands(c: KeyComparator, k: nat, fronts: seq<Front>, tree: seq<nat>, wins: seq<nat>, child: nat,
                         tree': seq<nat>, wins': seq<nat>, m: nat)
    requires Replaying(c, k, fronts, tree, wins, child) && child >= 2 && tree[child / 2] < k
    requires MatchReplayed(c, fronts, tree, wins, child, tree', wins')
    requires 1 <= m < k && m != child / 2 && !InSubtree(m, child / 2)
    ensures |tree'| == k && |wins'| == 2 * k && MatchAt(c, k, fronts, tree', wins', m)
  {
    var n := child / 2;
    assert m == child || !InSubtree(m, child);
    assert MatchAt(c, k, fronts, tree, wins, m);
  }

  lemma ReplayedMatch(c: KeyComparator, k: nat, fronts: seq<Front>, tree: seq<nat>, wins: seq<nat>, child: nat,
                      tree': seq<nat>, wins': seq<nat>)
    requires Replaying(c, k, fronts, tree, wins, child) && child >= 2 && tree[child / 2] < k
    requires MatchReplayed(c, fronts, tree, wins, child, tree', wins')
    ensures |tree'| == k && |wins'| == 2 * k && MatchAt(c, k, fronts, tree', wins', child / 2)
  {
    StoredLoserIsSibling(c, k, fronts, tree, wins, child);
    var contender, loser := wins[child], tree[child / 2];
    if FrontLess(c, fronts[contender], fronts[loser]) {
      FrontLessAsymmetric(c, fronts[contender], fronts[loser]);
    }
  }

  lemma ReplayEnds(c: KeyComparator, k: nat, fronts: seq<Front>, tree: seq<nat>, wins: seq<nat>)
    requires Replaying(c, k, fronts, tree, wins, 1)
    ensures IsTournament(c, k, fronts, tree, wins)
  {
    forall n | 1 <= n < k ensures MatchAt(c, k, fronts, tree, wins, n) {
      if n > 1 && InSubtree(n, 1) {
        SubtreeIsBelow(n, 1);
      }
    }
  }
}
