/** When the merge by node shows the true best vector results: the entries of each node collapse into one that carries the
    node's lowest score, in engine_search (src/unified_shard.c) and engine_search_async (src/async_search.c). */
module VectorTop {
  import opened Pages
  import opened Ranking
  import opened Common
  import opened NodeMerge
  import opened Queries
  import opened ScoreCounts
  import opened ScatterGather

  // ---------- One entry per node ----------

  /** The nodes of which no result is below `v`. */
  function NodesFrom(found: seq<Result>, v: real): (nodes: set<NodeId>) {
    set i | 0 <= i < |found| && AllFrom(found, found[i].node, v) :: found[i].node
  }

  predicate AllFrom(found: seq<Result>, node: NodeId, v: real) {
    forall j :: 0 <= j < |found| && found[j].node == node ==> found[j].cosine >= v
  }

  /** As many entries have a score from `v` on as there are nodes without a result below `v`. */
  lemma EntriesFrom(sorted: seq<Result>, found: seq<Result>, v: real)
    requires LowestPerNode(sorted, found)
    ensures CountFrom(Scores(sorted, Cosine), v) == |NodesFrom(found, v)|
  {
    hide Scores, Descending, Lowest, DistinctNodes;
    forall i | 0 <= i < |sorted| ensures sorted[i].cosine >= v <==> AllFrom(found, sorted[i].node, v) {
      LowestFrom(sorted[i], found, v);
    }
    forall node: NodeId ensures node in HighNodes(sorted, v) <==> node in NodesFrom(found, v) {
      NodeAt(sorted, node);
      NodeAt(found, node);
    }
    assert HighNodes(sorted, v) == NodesFrom(found, v);
    CountNodes(sorted, v);
  }

  lemma LowestFrom(m: Result, found: seq<Result>, v: real)
    requires Lowest(m, found)
    ensures m.cosine >= v <==> AllFrom(found, m.node, v)
  {}

  /** The node has this score in `found`. */
  ghost predicate Held(m: Result, found: seq<Result>) {
    exists k :: 0 <= k < |found| && found[k].node == m.node && found[k].cosine == m.cosine
  }

  lemma HeldWithout(m: Result, found: seq<Result>, k: nat)
    requires Held(m, found) && k < |found| && found[k].node != m.node
    ensures Held(m, found[..k] + found[k + 1..])
  {
    var rest := found[..k] + found[k + 1..];
    var j :| 0 <= j < |found| && found[j].node == m.node && found[j].cosine == m.cosine;
    assert rest[if j < k then j else j - 1] == found[j];
  }

  /** The entries' scores are scores of different results. */
  lemma {:induction false} EntriesAreScores(s: seq<Result>, found: seq<Result>)
    requires DistinctNodes(s)
    requires forall i :: 0 <= i < |s| ==> Held(s[i], found)
    ensures multiset(Scores(s, Cosine)) <= multiset(Scores(found, Cosine))
  {
    if s != [] {
      var n := |s| - 1;
      var k :| 0 <= k < |found| && found[k].node == s[n].node && found[k].cosine == s[n].cosine;
      var rest := found[..k] + found[k + 1..];
      EarlierNodes(s, n);
      assert Nodes(s[..n]) == Nodes(s)[..n];
      forall i | 0 <= i < n ensures Held(s[..n][i], rest) {
        HeldWithout(s[i], found, k);
      }
      EntriesAreScores(s[..n], rest);
      TakenOut(s, found, k);
    }
  }

  lemma TakenOut(s: seq<Result>, found: seq<Result>, k: nat)
    requires s != [] && k < |found| && found[k].cosine == s[|s| - 1].cosine
    ensures multiset(Scores(s, Cosine)) == multiset(Scores(s[..|s| - 1], Cosine)) + multiset{found[k].cosine}
    ensures multiset(Scores(found, Cosine)) == multiset(Scores(found[..k] + found[k + 1..], Cosine)) + multiset{found[k].cosine}
  {
    var x := found[k].cosine;
    assert Scores(s, Cosine) == Scores(s[..|s| - 1], Cosine) + [x];
    assert Scores(found, Cosine) == Scores(found[..k], Cosine) + [x] + Scores(found[k + 1..], Cosine);
    ScoresConcat(found[..k], found[k + 1..], Cosine);
  }

  // ---------- When the best are shown ----------

  /** From `v` on there are as many nodes without a lower result as results, up to `max`. */
  ghost predicate EnoughFrom(found: seq<Result>, max: nat, v: real) {
    |NodesFrom(found, v)| >= Min(max, CountFrom(Scores(found, Cosine), v))
  }

  ghost predicate ShowsTop(found: seq<Result>, max: nat) {
    forall i :: 0 <= i < |found| ==> EnoughFrom(found, max, found[i].cosine)
  }

  /** The cut list holds the best scores exactly if this is so at every score found; then it is so at every bound. */
  lemma TopExactly(sorted: seq<Result>, found: seq<Result>, max: nat)
    requires LowestPerNode(sorted, found)
    ensures var out := sorted[..Min(max, |sorted|)];
      && multiset(Scores(out, Cosine)) <= multiset(Scores(found, Cosine))
      && (TopScores(multiset(Scores(out, Cosine)), multiset(Scores(found, Cosine)), max) <==> ShowsTop(found, max))
      && (TopScores(multiset(Scores(out, Cosine)), multiset(Scores(found, Cosine)), max) <==> forall v: real :: EnoughFrom(found, max, v))
  {
    hide TopScores;
    var out := sorted[..Min(max, |sorted|)];
    var a, b := Scores(out, Cosine), Scores(found, Cosine);
    CutAmong(sorted, found, max);
    forall v: real ensures CountFrom(a, v) >= Min(max, CountFrom(b, v)) <==> EnoughFrom(found, max, v) {
      EnoughEntries(sorted, found, max, v);
    }
    hide EnoughFrom, Scores, LowestPerNode;
    if TopScores(multiset(a), multiset(b), max) {
      forall v: real ensures EnoughFrom(found, max, v) {
        TopCounts(a, b, max, v);
      }
    }
    if ShowsTop(found, max) {
      forall v: real | v in b ensures CountFrom(a, v) >= Min(max, CountFrom(b, v)) {
        ScoreOf(found, v);
      }
      CountsAreTop(a, b, max);
    }
  }

  lemma ScoreOf(found: seq<Result>, v: real)
    requires v in Scores(found, Cosine)
    ensures exists i :: 0 <= i < |found| && found[i].cosine == v
  {
    var s := Scores(found, Cosine);
    var i :| 0 <= i < |s| && s[i] == v;
    assert found[i].cosine == v;
  }

  lemma EnoughEntries(sorted: seq<Result>, found: seq<Result>, max: nat, v: real)
    requires LowestPerNode(sorted, found)
    ensures var a := Scores(sorted[..Min(max, |sorted|)], Cosine);
      CountFrom(a, v) >= Min(max, CountFrom(Scores(found, Cosine), v)) <==> EnoughFrom(found, max, v)
  {
    EntriesFrom(sorted, found, v);
    var s := Scores(sorted, Cosine);
    CutCounts(s, max, v);
    assert s[..Min(max, |s|)] == Scores(sorted[..Min(max, |sorted|)], Cosine);
  }

  lemma CutAmong(sorted: seq<Result>, found: seq<Result>, max: nat)
    requires LowestPerNode(sorted, found)
    ensures var a := Scores(sorted[..Min(max, |sorted|)], Cosine); |a| <= max && multiset(a) <= multiset(Scores(found, Cosine))
  {
    hide Descending, Scores;
    forall i | 0 <= i < |sorted| ensures Held(sorted[i], found) {
      assert Lowest(sorted[i], found);
    }
    EntriesAreScores(sorted, found);
    var n := Min(max, |sorted|);
    assert sorted == sorted[..n] + sorted[n..];
    ScoresConcat(sorted[..n], sorted[n..], Cosine);
  }

  // ---------- The same for what the shards hold ----------

  /** The best of the shards' bests are the best of all candidates, and nothing else among them is. */
  lemma SameTop(best: multiset<real>, parts: seq<seq<Result>>, candidates: seq<seq<Result>>, width: nat, max: nat, field: Field)
    requires AllRanked(parts, candidates, width, field) && max <= width && best <= multiset(Scores(Concat(parts), field))
    ensures TopScores(best, multiset(Scores(Concat(parts), field)), max) <==> TopScores(best, multiset(Scores(Concat(candidates), field)), max)
  {
    hide AllRanked, Concat, Scores, Descending;
    var some, all, none := multiset(Scores(Concat(parts), field)), multiset(Scores(Concat(candidates), field)), multiset{};
    assert some + none == some && all + none == all;
    if TopScores(best, some, max) {
      BestOfBests(best, parts, candidates, none, width, max, field);
    }
    ConcatKeepsMembers(parts, candidates, width, field);
    PartScores(Concat(parts), Concat(candidates), field);
    if TopScores(best, all, max) {
      TopOfPart(best, some, all, max);
    }
  }

  lemma TopOfPart(best: multiset<real>, some: multiset<real>, all: multiset<real>, max: nat)
    requires best <= some <= all && TopScores(best, all, max)
    ensures TopScores(best, some, max)
  {
    assert some == best + (some - best) && all == some + (all - some);
    forall x, y | x in best && y in some - best ensures y <= x {
      assert y in all - best;
    }
  }

  /** What a vector search shows are the true best exactly if this holds for what the shards return. */
  lemma BestExactly(sorted: seq<Result>, parts: seq<seq<Result>>, candidates: seq<seq<Result>>, max: nat)
    requires AllRanked(parts, candidates, MAX_RESULTS_PER_SHARD, Cosine) && max <= MAX_RESULTS_PER_SHARD
    requires LowestPerNode(sorted, Concat(parts))
    ensures TopScores(multiset(Scores(sorted[..Min(max, |sorted|)], Cosine)), multiset(Scores(Concat(candidates), Cosine)), max) <==>
      ShowsTop(Concat(parts), max)
  {
    hide AllRanked, Concat, Scores, TopScores, LowestPerNode, ShowsTop, EnoughFrom;
    TopExactly(sorted, Concat(parts), max);
    SameTop(multiset(Scores(sorted[..Min(max, |sorted|)], Cosine)), parts, candidates, MAX_RESULTS_PER_SHARD, max, Cosine);
  }
}
