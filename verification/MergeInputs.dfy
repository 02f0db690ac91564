/** The sources of a merge as the mergers see them: what each still holds, and the key it shows. */
module MergeInputs {
  import opened Wrappers
  import opened InternalKeys
  import opened Comparators
  import opened Merging
  import opened Sources
  import opened Tournament
  import opened Lists

  ghost predicate ValidSources(sources: seq<ArenaSource>) {
    (forall i :: 0 <= i < |sources| ==> sources[i].Valid()) &&
    forall i, j :: 0 <= i < j < |sources| ==> sources[i] != sources[j]
  }

  ghost function Remainders(sources: seq<ArenaSource>): (rest: seq<seq<Entry>>)
    reads sources
    requires ValidSources(sources)
    ensures |rest| == |sources| && forall i :: 0 <= i < |rest| ==> rest[i] == sources[i].Remaining()
  {
    seq(|sources|, i requires 0 <= i < |sources| && sources[i].Valid() reads sources => sources[i].Remaining())
  }

  ghost function FrontOf(rest: seq<seq<Entry>>, leaf: nat): Front {
    if leaf < |rest| && rest[leaf] != [] then Some(rest[leaf][0].key) else None
  }

  ghost function Fronts(rest: seq<seq<Entry>>, k: nat): (fronts: seq<Front>)
    ensures |fronts| == k && forall i :: 0 <= i < k ==> fronts[i] == FrontOf(rest, i)
  {
    seq(k, i requires 0 <= i => FrontOf(rest, i))
  }

  // Advancing source w changes its front and no other.
  lemma AdvancedFronts(c: KeyComparator, rest: seq<seq<Entry>>, k: nat, w: nat)
    requires w < |rest| <= k && rest[w] != [] && AllRestAccepted(c, rest)
    ensures var rest' := rest[w := rest[w][1..]];
            AllRestAccepted(c, rest') && Fronts(rest', k) == Fronts(rest, k)[w := FrontOf(rest', w)]
  {
    var rest': seq<seq<Entry>> := rest[w := rest[w][1..]];
    forall i, j | 0 <= i < |rest'| && 0 <= j < |rest'[i]| ensures c.Accepts(rest'[i][j].key) {
      assert i == w ==> rest'[i][j] == rest[i][j + 1];
    }
  }

  lemma AdvancedTotal(rest: seq<seq<Entry>>, w: nat)
    requires w < |rest| && rest[w] != []
    ensures |Flatten(rest[w := rest[w][1..]])| == |Flatten(rest)| - 1
  {
    FlattenUpdate(rest, w, rest[w][1..]);
  }

  // A tournament winner with something left fronts a least key ...
  lemma WinnerFrontsLeast(c: KeyComparator, k: nat, rest: seq<seq<Entry>>, tree: seq<nat>, wins: seq<nat>)
    requires AllRestAccepted(c, rest) && |rest| <= k && IsTournament(c, k, Fronts(rest, k), tree, wins)
    requires FrontOf(rest, wins[1]).Some?
    ensures FrontIsLeast(c, rest, wins[1])
  {
    forall i | 0 <= i < |rest| && rest[i] != []
      ensures !c.Lt(rest[i][0].key, rest[wins[1]][0].key)
    {
      WinnerBeats(c, k, rest, tree, wins, i);
      CompareWithPrefixIsCompare(c, rest[i][0].key, rest[wins[1]][0].key);
    }
  }

  // ... and one with nothing left means nobody has anything left.
  lemma EmptyWinnerMeansDone(c: KeyComparator, k: nat, rest: seq<seq<Entry>>, tree: seq<nat>, wins: seq<nat>)
    requires AllRestAccepted(c, rest) && |rest| <= k && IsTournament(c, k, Fronts(rest, k), tree, wins)
    requires FrontOf(rest, wins[1]).None?
    ensures forall i :: 0 <= i < |rest| ==> rest[i] == []
  {
    forall i | 0 <= i < |rest| ensures rest[i] == [] {
      WinnerBeats(c, k, rest, tree, wins, i);
    }
  }

  // What the merge loop needs of a tournament: either nothing is left, or emitting the winner's front and
  // advancing its source carries the merge one entry on.
  lemma WinnerStep(c: KeyComparator, k: nat, all: seq<seq<Entry>>, out: seq<Entry>, trace: seq<nat>, rest: seq<seq<Entry>>,
                   tree: seq<nat>, wins: seq<nat>)
    requires AllRestAccepted(c, rest) && |rest| <= k && IsTournament(c, k, Fronts(rest, k), tree, wins)
    requires MergeUnderWay(c, all, out, trace, rest)
    ensures FrontOf(rest, wins[1]).None? ==>
              IsMerge(c, all, out, trace) && forall i :: 0 <= i < |rest| ==> rest[i] == []
    ensures FrontOf(rest, wins[1]).Some? ==>
              var rest' := rest[wins[1] := rest[wins[1]][1..]];
              MergeUnderWay(c, all, out + [rest[wins[1]][0]], trace + [wins[1]], rest') && |Flatten(rest')| == |Flatten(rest)| - 1
  {
    if FrontOf(rest, wins[1]).None? {
      EmptyWinnerMeansDone(c, k, rest, tree, wins);
      MergeEnds(c, all, out, trace, rest);
    } else {
      WinnerFrontsLeast(c, k, rest, tree, wins);
      MergeStep(c, all, out, trace, rest, wins[1]);
      AdvancedTotal(rest, wins[1]);
    }
  }

  lemma WinnerBeats(c: KeyComparator, k: nat, rest: seq<seq<Entry>>, tree: seq<nat>, wins: seq<nat>, leaf: nat)
    requires AllRestAccepted(c, rest) && |rest| <= k && IsTournament(c, k, Fronts(rest, k), tree, wins)
    requires leaf < k
    ensures wins[1] < k && !FrontLess(c, Fronts(rest, k)[leaf], Fronts(rest, k)[wins[1]])
  {
    RootReachesAll(k + leaf);
    WinnerIsLeast(c, k, Fronts(rest, k), tree, wins, 1, leaf);
  }
}
