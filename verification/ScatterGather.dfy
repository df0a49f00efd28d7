/** Merging what the shards return: the gather half of engine_search (src/unified_shard.c) and of
    engine_search_async (src/async_search.c). */
module ScatterGather {
  import opened Pages
  import opened Ranking
  import opened NodeMerge
  import opened Common
  import opened Sequences
  import opened Queries

  const MAX_RESULTS_PER_SHARD := 64

  // ---------- The best of the bests ----------

  /** Keeping only the best `width` of one part does not change the best `k`, as long as `k` is not more. */
  lemma KeptPart(best: multiset<real>, part: multiset<real>, all: multiset<real>, rest: multiset<real>, width: nat, k: nat)
    requires TopScores(part, all, width) && k <= width && TopScores(best, part + rest, k)
    ensures TopScores(best, all + rest, k)
  {
    if |part| < width {
      SubsetOfEqualSize(part, all);
    } else {
      forall x, y | x in best && y in all + rest - best ensures y <= x {
        DroppedIsLower(best, part, all, rest, width, k, x, y);
      }
    }
  }

  lemma DroppedIsLower(best: multiset<real>, part: multiset<real>, all: multiset<real>, rest: multiset<real>, width: nat, k: nat, x: real, y: real)
    requires TopScores(part, all, width) && |part| == width && k <= width && TopScores(best, part + rest, k)
    requires x in best && y in all + rest - best
    ensures y <= x
  {
    if y !in part + rest - best && x < y {
      assert y in all - part;
      forall p | p in part ensures best[p] >= part[p] {
        assert y <= p;
        assert best[p] < part[p] ==> p in part + rest - best;
      }
      assert x !in part;
      StrictSubset(part, best, x);
    }
  }

  lemma StrictSubset(a: multiset<real>, b: multiset<real>, x: real)
    requires (forall p :: p in a ==> b[p] >= a[p]) && x !in a && x in b
    ensures |a| < |b|
  {
    forall p: real ensures a[p] <= b[p] {
      assert p in a || a[p] == 0;
    }
    assert a <= b;
    assert x in b - a;
    assert |b| == |a| + |b - a|;
  }

  function Concat(parts: seq<seq<Result>>): seq<Result> {
    if parts == [] then [] else Concat(parts[..|parts| - 1]) + parts[|parts| - 1]
  }

  ghost predicate AllRanked(parts: seq<seq<Result>>, candidates: seq<seq<Result>>, width: nat, field: Field) {
    |parts| == |candidates| && forall s :: 0 <= s < |parts| ==> Ranked(parts[s], candidates[s], width, field)
  }

  /** The best of what the shards return are the best of all their candidates. */
  lemma {:induction false} BestOfBests(best: multiset<real>, parts: seq<seq<Result>>, candidates: seq<seq<Result>>, rest: multiset<real>,
                                       width: nat, k: nat, field: Field)
    requires AllRanked(parts, candidates, width, field) && k <= width
    requires TopScores(best, multiset(Scores(Concat(parts), field)) + rest, k)
    ensures TopScores(best, multiset(Scores(Concat(candidates), field)) + rest, k)
  {
    hide TopScores, Descending, Key;
    if parts != [] {
      var n := |parts| - 1;
      var part, all := multiset(Scores(parts[n], field)), multiset(Scores(candidates[n], field));
      assert Ranked(parts[n], candidates[n], width, field);
      ScoresConcat(Concat(parts[..n]), parts[n], field);
      ScoresConcat(Concat(candidates[..n]), candidates[n], field);
      var before := multiset(Scores(Concat(parts[..n]), field));
      assert before + part + rest == part + (before + rest) == before + (part + rest);
      KeptPart(best, part, all, before + rest, width, k);
      assert all + (before + rest) == before + (all + rest);
      BestOfBests(best, parts[..n], candidates[..n], all + rest, width, k, field);
      var before' := multiset(Scores(Concat(candidates[..n]), field));
      assert before' + (all + rest) == before' + all + rest;
    }
  }

  lemma {:induction false} ConcatKeepsMembers(parts: seq<seq<Result>>, candidates: seq<seq<Result>>, width: nat, field: Field)
    requires AllRanked(parts, candidates, width, field)
    ensures multiset(Concat(parts)) <= multiset(Concat(candidates))
  {
    hide TopScores, Descending, Scores;
    if parts != [] {
      var n := |parts| - 1;
      assert Ranked(parts[n], candidates[n], width, field);
      ConcatKeepsMembers(parts[..n], candidates[..n], width, field);
    }
  }

  /** Sorting what the shards return and cutting it at `max` ranks all candidates. */
  lemma CutIsRanked(sorted: seq<Result>, parts: seq<seq<Result>>, candidates: seq<seq<Result>>, width: nat, max: nat, field: Field)
    requires AllRanked(parts, candidates, width, field) && max <= width
    requires multiset(sorted) == multiset(Concat(parts)) && Descending(Scores(sorted, field))
    ensures Ranked(sorted[..Min(max, |sorted|)], Concat(candidates), max, field)
  {
    var n := Min(max, |sorted|);
    var out := sorted[..n];
    hide AllRanked;
    assert sorted == out + sorted[n..];
    ScoresConcat(out, sorted[n..], field);
    var scores := Scores(sorted, field);
    assert scores == scores[..n] + scores[n..];
    assert Scores(out, field) == scores[..n];
    PrefixIsTop(scores, max);
    ScoresPermute(sorted, Concat(parts), field);
    var best, none := multiset(Scores(out, field)), multiset{};
    var all, all' := multiset(Scores(Concat(parts), field)), multiset(Scores(Concat(candidates), field));
    hide Scores, TopScores;
    assert all + none == all && all' + none == all';
    BestOfBests(best, parts, candidates, none, width, max, field);
    ConcatKeepsMembers(parts, candidates, width, field);
  }

  lemma PrefixIsTop(s: seq<real>, max: nat)
    requires Descending(s)
    ensures var n := Min(max, |s|); TopScores(multiset(s[..n]), multiset(s), max) && Descending(s[..n])
  {
    var n := Min(max, |s|);
    var a, b := s[..n], s[n..];
    assert s == a + b;
    assert multiset(s) - multiset(a) == multiset(b);
    assert |multiset(a)| == n && |multiset(s)| == |s|;
    forall x, y | x in multiset(a) && y in multiset(b) ensures y <= x {
      AboveRest(a, b, x, y);
    }
  }

  lemma AboveRest(a: seq<real>, b: seq<real>, x: real, y: real)
    requires Descending(a + b) && x in multiset(a) && y in multiset(b)
    ensures y <= x
  {
    var i :| 0 <= i < |a| && a[i] == x;
    var j :| 0 <= j < |b| && b[j] == y;
    assert (a + b)[i] >= (a + b)[|a| + j];
  }

  // ---------- Ranks ----------

  /** A result without what merging adds to it. */
  function Bare(r: Result): Result {
    r.(rrf := 0.0, bm25fRank := 0, cosineRank := 0)
  }

  function BareAll(rs: seq<Result>): (bare: seq<Result>)
    ensures |bare| == |rs| && forall i :: 0 <= i < |rs| ==> bare[i] == Bare(rs[i])
  {
    seq(|rs|, i requires 0 <= i < |rs| => Bare(rs[i]))
  }

  lemma BarePermute(a: seq<Result>, b: seq<Result>)
    requires multiset(a) == multiset(b)
    ensures multiset(BareAll(a)) == multiset(BareAll(b))
  {
    MapPermutes(Bare, a, b);
    assert BareAll(a) == Map(Bare, a) && BareAll(b) == Map(Bare, b);
  }

  lemma BareScores(rs: seq<Result>, field: Field)
    requires field != Rrf
    ensures Scores(BareAll(rs), field) == Scores(rs, field)
  {}

  function WithRank(r: Result, rank: nat, field: Field): Result {
    if field == Bm25f then r.(bm25fRank := rank) else r.(cosineRank := rank)
  }

  function RankOf(r: Result, field: Field): nat {
    if field == Bm25f then r.bm25fRank else r.cosineRank
  }

  ghost predicate RankedUpTo(s: seq<Result>, i: nat, n: nat, field: Field)
    requires i <= n <= |s|
  {
    SortedUpTo(s, i, n, field) && forall k :: 0 <= k < i ==> RankOf(s[k], field) == k + 1
  }

  lemma RankSet(before: seq<Result>, s: seq<Result>, i: nat, n: nat, field: Field)
    requires i < n <= |s| == |before| && field != Rrf
    requires SortedUpTo(s, i + 1, n, field) && forall k :: 0 <= k < i ==> RankOf(s[k], field) == k + 1
    requires multiset(BareAll(s[..n])) == multiset(BareAll(before[..n]))
    ensures var t := s[i := WithRank(s[i], i + 1, field)];
      RankedUpTo(t, i + 1, n, field) && multiset(BareAll(t[..n])) == multiset(BareAll(before[..n])) && t[n..] == s[n..]
  {
    var t := s[i := WithRank(s[i], i + 1, field)];
    assert BareAll(t[..n]) == BareAll(s[..n]);
  }

  lemma RoundKeepsRanks(before: seq<Result>, s: seq<Result>, t: seq<Result>, i: nat, n: nat, field: Field)
    requires i < n <= |s| == |before| && Rearranged(s, t, i, n) && RankedUpTo(s, i, n, field)
    requires multiset(BareAll(s[..n])) == multiset(BareAll(before[..n]))
    ensures multiset(BareAll(t[..n])) == multiset(BareAll(before[..n])) && t[n..] == s[n..]
    ensures forall k :: 0 <= k < i ==> RankOf(t[k], field) == k + 1
  {
    BarePermute(s[..n], t[..n]);
    assert forall k :: 0 <= k < i ==> t[k] == t[..i][k] == s[..i][k] == s[k];
  }

  /** The sorting loops of the merge: each round ends with the rank of its place. */
  method RankAll(results: array<Result>, n: nat, field: Field)
    requires n <= results.Length && field != Rrf
    modifies results
    ensures RankedUpTo(results[..], n, n, field)
    ensures multiset(BareAll(results[..n])) == multiset(BareAll(old(results[..n])))
  {
    hide RankedUpTo, SortedUpTo, Rearranged, BareAll, RankOf, WithRank;
    ghost var before := results[..];
    NoRanks(before, n, field);
    for i := 0 to n
      invariant RankedUpTo(results[..], i, n, field)
      invariant multiset(BareAll(results[..n])) == multiset(BareAll(before[..n]))
    {
      ghost var s := results[..];
      RanksAreSorted(s, i, n, field);
      assert s[..n] == results[..n];
      Round(results, i, n, field);
      ghost var t := results[..];
      RoundKeepsRanks(before, s, t, i, n, field);
      RankSet(before, t, i, n, field);
      results[i] := WithRank(results[i], i + 1, field);
      assert results[..] == t[i := WithRank(t[i], i + 1, field)];
      assert results[..n] == results[..][..n];
    }
    assert before[..n] == old(results[..n]);
  }

  lemma NoRanks(s: seq<Result>, n: nat, field: Field)
    requires n <= |s|
    ensures RankedUpTo(s, 0, n, field)
  {}

  lemma RanksAreSorted(s: seq<Result>, i: nat, n: nat, field: Field)
    requires i <= n <= |s| && RankedUpTo(s, i, n, field)
    ensures SortedUpTo(s, i, n, field)
  {}

  // ---------- Merging the two lists of a query with one mode ----------

  method CopyResults(results: array<Result>, n: nat, merged: array<Result>)
    requires n <= results.Length && n <= merged.Length && results != merged
    modifies merged
    ensures merged[..n] == results[..n]
  {
    for i := 0 to n
      invariant forall k :: 0 <= k < i ==> merged[k] == results[k]
    {
      merged[i] := results[i];
    }
  }

  /** A list sorted by `field` in which every result knows its place. */
  ghost predicate InPlace(s: seq<Result>, field: Field) {
    Descending(Scores(s, field)) && forall i :: 0 <= i < |s| ==> i + 1 == if field == Bm25f then s[i].bm25fRank else s[i].cosineRank
  }

  lemma RankedInPlace(s: seq<Result>, n: nat, field: Field)
    requires n <= |s| && RankedUpTo(s, n, n, field)
    ensures InPlace(s[..n], field)
  {}

  lemma InPlaceIsSorted(s: seq<Result>, n: nat, field: Field)
    requires n <= |s| && InPlace(s[..n], field)
    ensures SortedUpTo(s, n, n, field)
  {
    var scores := Scores(s[..n], field);
    assert forall i :: 0 <= i < n ==> scores[i] == Key(s[i], field);
  }

  /** One entry per node, best first; each has the lowest score its node has among `found`. */
  ghost predicate LowestPerNode(s: seq<Result>, found: seq<Result>) {
    && DistinctNodes(s) && Descending(Scores(s, Cosine))
    && (forall node: NodeId :: node in Nodes(s) <==> node in Nodes(found))
    && (forall i :: 0 <= i < |s| ==> Lowest(s[i], found))
  }

  ghost predicate Lowest(m: Result, found: seq<Result>) {
    && (exists k :: 0 <= k < |found| && found[k].node == m.node && found[k].cosine == m.cosine)
    && (exists k :: 0 <= k < |found| && found[k].node == m.node && found[k].bm25f == m.bm25f)
    && (forall k :: 0 <= k < |found| && found[k].node == m.node ==> m.cosine <= found[k].cosine)
  }

  /** The last result of a node in descending order is its lowest. */
  lemma LastIsLowest(vectors: seq<Result>, v: Result)
    requires Descending(Scores(vectors, Cosine)) && v in vectors
    ensures Lowest(Folded(v, vectors, Overwriting), vectors)
  {
    hide Folded, LastPlace;
    FoldedCosine(v, vectors, Overwriting);
    var k := LastPlace(vectors, v.node);
    LastBelow(vectors, v.node);
    var i :| 0 <= i < |vectors| && vectors[i] == v;
    assert k > 0;
  }

  lemma LastBelow(vectors: seq<Result>, node: NodeId)
    requires Descending(Scores(vectors, Cosine))
    ensures var k := LastPlace(vectors, node);
      forall j :: 0 <= j < |vectors| && vectors[j].node == node ==> k > 0 && vectors[k - 1].cosine <= vectors[j].cosine
  {
    var k, scores := LastPlace(vectors, node), Scores(vectors, Cosine);
    forall j | 0 <= j < |vectors| && vectors[j].node == node ensures k > 0 && vectors[k - 1].cosine <= vectors[j].cosine {
      assert j < k;
      if j < k - 1 {
        assert scores[j] >= scores[k - 1];
      }
    }
  }

  lemma {:induction false} NewOnesAmong(before: seq<Result>, vectors: seq<Result>)
    ensures forall v :: v in NewOnes(before, vectors) ==> v in vectors
  {
    if vectors != [] {
      NewOnesAmong(before, vectors[..|vectors| - 1]);
    }
  }

  lemma MergedIsLowest(vectors: seq<Result>)
    requires Descending(Scores(vectors, Cosine))
    ensures var ms := Merged([], vectors, Overwriting);
      && DistinctNodes(ms) && (forall node: NodeId :: node in Nodes(ms) <==> node in Nodes(vectors))
      && forall i :: 0 <= i < |ms| ==> Lowest(ms[i], vectors)
  {
    hide Lowest, Folded;
    var ms, news := Merged([], vectors, Overwriting), NewOnes([], vectors);
    MergedNodes([], vectors, Overwriting);
    NewOnesAre([], vectors);
    NewOnesAmong([], vectors);
    assert Nodes([]) == [] && Nodes(ms) == Nodes(news);
    forall i | 0 <= i < |ms| ensures Lowest(ms[i], vectors) {
      assert news[i] in news;
      LastIsLowest(vectors, news[i]);
    }
  }

  /** Sorting the merged list, and having sorted and ranked the vector results before, changes nothing of this. */
  lemma LowestPermuted(ms: seq<Result>, sorted: seq<Result>, vectors: seq<Result>, found: seq<Result>)
    requires DistinctNodes(ms) && (forall node: NodeId :: node in Nodes(ms) <==> node in Nodes(vectors))
    requires forall i :: 0 <= i < |ms| ==> Lowest(ms[i], vectors)
    requires multiset(ms) == multiset(sorted) && Descending(Scores(sorted, Cosine))
    requires multiset(BareAll(vectors)) == multiset(BareAll(found))
    ensures LowestPerNode(sorted, found)
  {
    hide Lowest, Descending;
    SameNodes(ms, sorted);
    BareNodes(vectors, found);
    forall i | 0 <= i < |sorted| ensures Lowest(sorted[i], found) {
      assert sorted[i] in multiset(ms);
      var k :| 0 <= k < |ms| && ms[k] == sorted[i];
      LowestBare(ms[k], vectors, found);
    }
  }

  lemma SameNodes(a: seq<Result>, b: seq<Result>)
    requires multiset(a) == multiset(b)
    ensures multiset(Nodes(a)) == multiset(Nodes(b)) && (DistinctNodes(a) ==> DistinctNodes(b))
    ensures forall node: NodeId :: node in Nodes(a) <==> node in Nodes(b)
  {
    MapPermutes((r: Result) => r.node, a, b);
    if DistinctNodes(a) {
      NoRepeatsPermuted(Nodes(a), Nodes(b));
    }
    SameMembers(Nodes(a), Nodes(b));
  }

  lemma BareNodes(a: seq<Result>, b: seq<Result>)
    requires multiset(BareAll(a)) == multiset(BareAll(b))
    ensures forall node: NodeId :: node in Nodes(a) <==> node in Nodes(b)
    ensures DistinctNodes(a) ==> DistinctNodes(b)
  {
    SameNodes(BareAll(a), BareAll(b));
    assert Nodes(BareAll(a)) == Nodes(a) && Nodes(BareAll(b)) == Nodes(b);
  }

  lemma LowestBare(m: Result, a: seq<Result>, b: seq<Result>)
    requires Lowest(m, a) && multiset(BareAll(a)) == multiset(BareAll(b))
    ensures Lowest(m, b)
  {
    var k :| 0 <= k < |a| && a[k].node == m.node && a[k].cosine == m.cosine;
    assert BareAll(a)[k] in multiset(BareAll(b));
    var j :| 0 <= j < |b| && BareAll(b)[j] == BareAll(a)[k];
    var k' :| 0 <= k' < |a| && a[k'].node == m.node && a[k'].bm25f == m.bm25f;
    assert BareAll(a)[k'] in multiset(BareAll(b));
    var j' :| 0 <= j' < |b| && BareAll(b)[j'] == BareAll(a)[k'];
    assert b[j'].bm25f == m.bm25f;
    forall i | 0 <= i < |b| && b[i].node == m.node ensures m.cosine <= b[i].cosine {
      assert BareAll(b)[i] in multiset(BareAll(a));
      var h :| 0 <= h < |a| && BareAll(a)[h] == BareAll(b)[i];
    }
  }

  /** Two results for one node, and the better one is lost. */
  lemma RepeatedNode(x: Result, y: Result, sorted: seq<Result>, max: nat)
    requires x.node == y.node && x.cosine > y.cosine && max > 0 && LowestPerNode(sorted, [x, y])
    ensures |sorted| == 1 && Scores(sorted, Cosine) == [y.cosine] && !Ranked(sorted, [x, y], max, Cosine)
  {
    OneEntry(x, y, sorted);
    hide LowestPerNode;
    assert Scores(sorted, Cosine) == [y.cosine] && Scores([x, y], Cosine) == [x.cosine, y.cosine];
    assert multiset([y.cosine]) == multiset{y.cosine};
    assert x.cosine in multiset([x.cosine, y.cosine]) - multiset{y.cosine};
  }

  lemma OneEntry(x: Result, y: Result, sorted: seq<Result>)
    requires x.node == y.node && x.cosine > y.cosine && LowestPerNode(sorted, [x, y])
    ensures |sorted| == 1 && sorted[0].cosine == y.cosine
  {
    hide Descending, Scores;
    var found := [x, y];
    var nodes := Nodes(sorted);
    assert Nodes(found) == [x.node, x.node];
    assert x.node in Nodes(found);
    assert forall node :: node in {x.node} <==> node in nodes;
    NoRepeatsCount(nodes, {x.node});
    assert nodes[0] in nodes;
    assert Lowest(sorted[0], found) && found[1] == y;
  }

  /** Sorting, ranking, merging, sorting again: for a query with text only or vector only. */
  method Fuse(texts: array<Result>, tn: nat, vectors: array<Result>, vn: nat, useText: bool, max: nat) returns (out: seq<Result>, ghost sorted: seq<Result>)
    requires tn <= texts.Length && vn <= vectors.Length && texts != vectors
    requires if useText then vn == 0 else tn == 0
    modifies texts, vectors
    ensures useText ==> InPlace(sorted, Bm25f) && multiset(BareAll(sorted)) == multiset(BareAll(old(texts[..tn])))
    ensures !useText ==> LowestPerNode(sorted, old(vectors[..vn]))
    ensures !useText && DistinctNodes(old(vectors[..vn])) ==> InPlace(sorted, Cosine) && multiset(BareAll(sorted)) == multiset(BareAll(old(vectors[..vn])))
    ensures out == sorted[..Min(max, |sorted|)]
  {
    hide InPlace, RankedUpTo, BareAll, SortedUpTo, DistinctNodes, LowestPerNode;
    if useText {
      RankAll(texts, tn, Bm25f);
      RankedInPlace(texts[..], tn, Bm25f);
      assert texts[..][..tn] == texts[..tn];
    } else {
      RankAll(vectors, vn, Cosine);
      RankedInPlace(vectors[..], vn, Cosine);
      assert vectors[..][..vn] == vectors[..vn];
    }
    out, sorted := MergeRanked(texts, tn, vectors, vn, useText, max, old(vectors[..vn]));
  }

  /** The merge of the ranked lists, the second sort and the cut. */
  method MergeRanked(texts: array<Result>, tn: nat, vectors: array<Result>, vn: nat, useText: bool, max: nat, ghost found: seq<Result>)
    returns (out: seq<Result>, ghost sorted: seq<Result>)
    requires tn <= texts.Length && vn <= vectors.Length && texts != vectors
    requires if useText then vn == 0 && InPlace(texts[..tn], Bm25f) else tn == 0 && InPlace(vectors[..vn], Cosine)
    requires !useText ==> multiset(BareAll(vectors[..vn])) == multiset(BareAll(found))
    ensures useText ==> sorted == texts[..tn]
    ensures !useText ==> LowestPerNode(sorted, found)
    ensures !useText && DistinctNodes(found) ==> sorted == vectors[..vn]
    ensures out == sorted[..Min(max, |sorted|)]
  {
    hide InPlace, SortedUpTo, DistinctNodes, LowestPerNode, Merged, BareAll, Descending, Scores, Lowest, NewOnes;
    var field := if useText then Bm25f else Cosine;
    var merged := new Result[tn + vn];
    CopyResults(texts, tn, merged);
    var m := MergeNodes(merged, tn, vectors[..vn], Overwriting);
    ghost var ms := merged[..m];
    MergedSingle(useText, texts[..tn], vectors[..vn], ms, found);
    SortMerged(merged, m, field);
    sorted := merged[..m];
    if !useText {
      assert texts[..tn] == [];
      MergedRanking(vectors[..vn], ms, sorted, found);
    }
    var cut := if m > max then max else m;
    assert cut == Min(max, m);
    out := merged[..cut];
    assert out == sorted[..cut];
  }

  lemma MergedRanking(vectors: seq<Result>, ms: seq<Result>, sorted: seq<Result>, found: seq<Result>)
    requires InPlace(vectors, Cosine) && ms == Merged([], vectors, Overwriting)
    requires multiset(ms) == multiset(sorted) && Descending(Scores(sorted, Cosine))
    requires multiset(BareAll(vectors)) == multiset(BareAll(found))
    ensures LowestPerNode(sorted, found)
  {
    hide Merged, BareAll, LowestPerNode, Lowest;
    InPlaceDescends(vectors, Cosine);
    MergedIsLowest(vectors);
    LowestPermuted(ms, sorted, vectors, found);
  }

  /** Sorting again moves nothing that is in place. */
  method SortMerged(merged: array<Result>, m: nat, field: Field)
    requires m <= merged.Length
    modifies merged
    ensures Descending(Scores(merged[..m], field)) && multiset(merged[..m]) == multiset(old(merged[..m]))
    ensures InPlace(old(merged[..m]), field) ==> merged[..m] == old(merged[..m])
  {
    hide InPlace, SortedUpTo;
    ghost var ms := merged[..m];
    if InPlace(ms, field) {
      assert merged[..][..m] == ms;
      InPlaceIsSorted(merged[..], m, field);
    }
    ExchangeSort(merged, m, field);
    assert merged[..][..m] == merged[..m];
  }

  lemma InPlaceDescends(s: seq<Result>, field: Field)
    requires InPlace(s, field)
    ensures Descending(Scores(s, field))
  {}

  lemma MergedSingle(useText: bool, texts: seq<Result>, vectors: seq<Result>, ms: seq<Result>, found: seq<Result>)
    requires (useText ==> vectors == []) && (!useText ==> texts == []) && ms == Merged(texts, vectors, Overwriting)
    requires !useText ==> multiset(BareAll(vectors)) == multiset(BareAll(found))
    ensures useText ==> ms == texts
    ensures !useText && DistinctNodes(found) ==> ms == vectors
  {
    hide Merged, DistinctNodes;
    if useText {
      NothingMerged(texts, Overwriting);
    } else if DistinctNodes(found) {
      BareNodes(found, vectors);
      DistinctMerged(vectors, Overwriting);
    }
  }
}
