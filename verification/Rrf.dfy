/** Reciprocal rank fusion: merge_rrf of src/async_search.c. */
module Rrf {
  import opened Pages
  import opened Ranking
  import opened Common
  import opened Sequences
  import opened NodeMerge

  /** What a list contributes to a node: the reciprocals of the places where it occurs. */
  function Share(rs: seq<Result>, node: NodeId): real {
    if rs == [] then 0.0
    else Share(rs[..|rs| - 1], node) + if rs[|rs| - 1].node == node then Reciprocal(|rs|) else 0.0
  }

  function RrfScore(texts: seq<Result>, vectors: seq<Result>, node: NodeId): real {
    Share(texts, node) + Share(vectors, node)
  }

  lemma {:induction false} ShareOfAbsent(rs: seq<Result>, node: NodeId)
    requires forall i :: 0 <= i < |rs| ==> rs[i].node != node
    ensures Share(rs, node) == 0.0
  {
    if rs != [] {
      ShareOfAbsent(rs[..|rs| - 1], node);
    }
  }

  /** In a list of distinct nodes a node contributes the reciprocal of 60 plus its place, counted from 1. */
  lemma {:induction false} ShareOfDistinct(rs: seq<Result>, i: nat)
    requires DistinctNodes(rs) && i < |rs|
    ensures Share(rs, rs[i].node) == Reciprocal(i + 1)
  {
    var n := |rs| - 1;
    var nodes := Nodes(rs);
    assert forall k :: 0 <= k < |rs| ==> nodes[k] == rs[k].node;
    if i == n {
      ShareOfAbsent(rs[..n], rs[n].node);
    } else {
      assert Nodes(rs[..n]) == nodes[..n];
      assert nodes[i] != nodes[n];
      ShareOfDistinct(rs[..n], i);
    }
  }

  /** The fused score of a node at place `t` of the texts and place `v` of the vectors, counted from 1, 0 for absent. */
  lemma ScoreOfPlaces(texts: seq<Result>, vectors: seq<Result>, node: NodeId)
    requires DistinctNodes(texts) && DistinctNodes(vectors)
    ensures var t, v := LastPlace(texts, node), LastPlace(vectors, node);
      RrfScore(texts, vectors, node) == (if t > 0 then 1.0 / ((60 + t) as real) else 0.0) + (if v > 0 then 1.0 / ((60 + v) as real) else 0.0)
  {
    ShareOfPlace(texts, node);
    ShareOfPlace(vectors, node);
  }

  lemma ShareOfPlace(rs: seq<Result>, node: NodeId)
    requires DistinctNodes(rs)
    ensures Share(rs, node) == if LastPlace(rs, node) > 0 then 1.0 / ((60 + LastPlace(rs, node)) as real) else 0.0
  {
    hide Share, LastPlace;
    var k := LastPlace(rs, node);
    if k > 0 {
      ShareOfDistinct(rs, k - 1);
    } else {
      ShareOfAbsent(rs, node);
    }
  }

  /** Place `a` is before place `b`; 0 is behind all. */
  predicate Before(a: nat, b: nat) {
    a > 0 && (b == 0 || a < b)
  }

  /** A node that is placed earlier in one list and no later in the other has the higher fused score and comes first. */
  lemma EarlierIsHigher(out: seq<Result>, texts: seq<Result>, vectors: seq<Result>, max: nat, i: nat, j: nat)
    requires DistinctNodes(texts) && DistinctNodes(vectors) && Fusion(out, texts, vectors, max) && i < |out| && j < |out|
    requires var t, t' := LastPlace(texts, out[i].node), LastPlace(texts, out[j].node);
      var v, v' := LastPlace(vectors, out[i].node), LastPlace(vectors, out[j].node);
      (Before(t, t') && (Before(v, v') || v == v')) || (t == t' && Before(v, v'))
    ensures out[i].rrf > out[j].rrf && i < j
  {
    hide LastPlace, DistinctNodes, Fusion;
    FusedScores(out, texts, vectors, max);
    HigherSum(LastPlace(texts, out[i].node), LastPlace(texts, out[j].node), LastPlace(vectors, out[i].node), LastPlace(vectors, out[j].node));
    HigherFirst(out, texts, vectors, max, i, j);
  }

  lemma HigherSum(t: nat, t': nat, v: nat, v': nat)
    requires (Before(t, t') && (Before(v, v') || v == v')) || (t == t' && Before(v, v'))
    ensures (if t > 0 then 1.0 / ((60 + t) as real) else 0.0) + (if v > 0 then 1.0 / ((60 + v) as real) else 0.0)
      > (if t' > 0 then 1.0 / ((60 + t') as real) else 0.0) + (if v' > 0 then 1.0 / ((60 + v') as real) else 0.0)
  {
    SmallerPlace(t, t');
    SmallerPlace(v, v');
  }

  lemma HigherFirst(out: seq<Result>, texts: seq<Result>, vectors: seq<Result>, max: nat, i: nat, j: nat)
    requires Fusion(out, texts, vectors, max) && i < |out| && j < |out| && out[i].rrf > out[j].rrf
    ensures i < j
  {
    hide DistinctNodes, Entry;
    var scores := Scores(out, Field.Rrf);
    assert scores[i] == out[i].rrf && scores[j] == out[j].rrf;
  }

  lemma SmallerPlace(a: nat, b: nat)
    ensures Before(a, b) ==>
      (if a > 0 then 1.0 / ((60 + a) as real) else 0.0) > if b > 0 then 1.0 / ((60 + b) as real) else 0.0
  {
    if Before(a, b) && b > 0 {
      var x, y := (60 + a) as real, (60 + b) as real;
      assert 1.0 / x - 1.0 / y == (y - x) / (x * y);
    }
  }

  // ---------- Fusing ----------

  /** An entry of the merged list: the sum of the shares, with scores and ranks from the lists that have the node. */
  ghost predicate Entry(m: Result, texts: seq<Result>, vectors: seq<Result>) {
    var t, v := LastPlace(texts, m.node), LastPlace(vectors, m.node);
    && m.rrf == RrfScore(texts, vectors, m.node)
    && (t > 0 ==> m.bm25f == texts[t - 1].bm25f && m.bm25fRank == t)
    && (v > 0 ==> m.cosine == vectors[v - 1].cosine && m.cosineRank == v)
  }

  /** The merged list: the nodes of both lists, each once, with its score. */
  ghost predicate Fused(ms: seq<Result>, texts: seq<Result>, vectors: seq<Result>) {
    && DistinctNodes(ms)
    && (forall node: NodeId :: node in Nodes(ms) <==> node in Nodes(texts) || node in Nodes(vectors))
    && (forall i :: 0 <= i < |ms| ==> Entry(ms[i], texts, vectors))
  }

  /** The text results as the merge begins: ranked, each with the reciprocal of its place. */
  function Entries(texts: seq<Result>): (es: seq<Result>)
    ensures |es| == |texts| && forall i :: 0 <= i < |texts| ==> es[i] == texts[i].(bm25fRank := i + 1, rrf := Reciprocal(i + 1))
  {
    seq(|texts|, i requires 0 <= i < |texts| => texts[i].(bm25fRank := i + 1, rrf := Reciprocal(i + 1)))
  }

  lemma {:induction false} FoldedShare(m: Result, vectors: seq<Result>)
    ensures Folded(m, vectors, Fusing).rrf == m.rrf + Share(vectors, m.node)
  {
    hide Reciprocal;
    if vectors != [] {
      FoldedShare(m, vectors[..|vectors| - 1]);
    }
  }

  /** The entries of the merged list for any two lists: a text result adds the share of its node's vector results if it is
      the first of its node; a node that is in no text result has one entry, with that share alone. */
  lemma MergedEntries(texts: seq<Result>, vectors: seq<Result>, i: nat)
    requires i < |Merged(Entries(texts), vectors, Fusing)|
    ensures var m, v := Merged(Entries(texts), vectors, Fusing)[i], LastPlace(vectors, Merged(Entries(texts), vectors, Fusing)[i].node);
      if i < |texts| then
        && m.node == texts[i].node && m.bm25f == texts[i].bm25f && m.bm25fRank == i + 1
        && m.rrf == Reciprocal(i + 1) + (if IsFirst(texts, i) then Share(vectors, m.node) else 0.0)
        && (IsFirst(texts, i) && v > 0 ==> m.cosine == vectors[v - 1].cosine && m.cosineRank == v)
      else
        && m.node !in Nodes(texts) && m.rrf == Share(vectors, m.node)
        && v > 0 && m.cosine == vectors[v - 1].cosine && m.cosineRank == v
  {
    hide Folded, LastPlace, Share, Reciprocal;
    var es, news := Entries(texts), NewOnes(Entries(texts), vectors);
    if i < |texts| {
      FoldedShare(es[i], vectors);
      FoldedCosine(es[i], vectors, Fusing);
      assert IsFirst(es, i) <==> IsFirst(texts, i);
    } else {
      var v := Base(news[i - |texts|], Fusing);
      FoldedShare(v, vectors);
      FoldedCosine(v, vectors, Fusing);
      NewNode(texts, vectors, i - |texts|);
    }
  }

  lemma NewNode(texts: seq<Result>, vectors: seq<Result>, k: nat)
    requires k < |NewOnes(Entries(texts), vectors)|
    ensures var node := NewOnes(Entries(texts), vectors)[k].node; node !in Nodes(texts) && LastPlace(vectors, node) > 0
  {
    hide LastPlace;
    var news := NewOnes(Entries(texts), vectors);
    NewOnesAre(Entries(texts), vectors);
    assert Nodes(Entries(texts)) == Nodes(texts);
    var nodes := Nodes(news);
    assert nodes[k] == news[k].node && nodes[k] in nodes;
    NodeAt(vectors, news[k].node);
  }

  /** Over distinct text results every node has one entry. */
  lemma MergedIsFused(texts: seq<Result>, vectors: seq<Result>)
    requires DistinctNodes(texts)
    ensures Fused(Merged(Entries(texts), vectors, Fusing), texts, vectors)
  {
    hide Share, LastPlace, Reciprocal, Entry, Folded;
    var ms, es := Merged(Entries(texts), vectors, Fusing), Entries(texts);
    MergedNodes(es, vectors, Fusing);
    NewOnesAre(es, vectors);
    assert Nodes(es) == Nodes(texts);
    DisjointNoRepeats(Nodes(es), Nodes(NewOnes(es, vectors)));
    forall i | 0 <= i < |ms| ensures Entry(ms[i], texts, vectors) {
      MergedEntries(texts, vectors, i);
      OneEntry(texts, vectors, ms[i], i);
    }
  }

  lemma DisjointNoRepeats<T>(a: seq<T>, b: seq<T>)
    requires NoRepeats(a) && NoRepeats(b) && forall x :: x in b ==> x !in a
    ensures NoRepeats(a + b)
  {
    forall i, j | 0 <= i < j < |a + b| ensures (a + b)[i] != (a + b)[j] {
      if i < |a| <= j {
        assert a[i] in a && b[j - |a|] in b;
      }
    }
  }

  lemma OneEntry(texts: seq<Result>, vectors: seq<Result>, m: Result, i: nat)
    requires DistinctNodes(texts)
    requires var v := LastPlace(vectors, m.node);
      if i < |texts| then
        && m.node == texts[i].node && m.bm25f == texts[i].bm25f && m.bm25fRank == i + 1
        && m.rrf == Reciprocal(i + 1) + (if IsFirst(texts, i) then Share(vectors, m.node) else 0.0)
        && (IsFirst(texts, i) && v > 0 ==> m.cosine == vectors[v - 1].cosine && m.cosineRank == v)
      else
        && m.node !in Nodes(texts) && m.rrf == Share(vectors, m.node)
        && v > 0 && m.cosine == vectors[v - 1].cosine && m.cosineRank == v
    ensures Entry(m, texts, vectors)
  {
    hide Share, LastPlace, Reciprocal;
    var t := LastPlace(texts, m.node);
    if i < |texts| {
      EarlierNodes(texts, i);
      ShareOfDistinct(texts, i);
      var nodes := Nodes(texts);
      assert t > 0 && nodes[t - 1] == nodes[i];
    } else {
      NodeAt(texts, m.node);
      ShareOfAbsent(texts, m.node);
    }
  }

  lemma FusedPermuted(ms: seq<Result>, sorted: seq<Result>, texts: seq<Result>, vectors: seq<Result>)
    requires Fused(ms, texts, vectors) && multiset(ms) == multiset(sorted)
    ensures Fused(sorted, texts, vectors)
  {
    hide Entry;
    var f := (r: Result) => r.node;
    MapPermutes(f, ms, sorted);
    assert Map(f, ms) == Nodes(ms) && Map(f, sorted) == Nodes(sorted);
    NoRepeatsPermuted(Nodes(ms), Nodes(sorted));
    SameMembers(Nodes(ms), Nodes(sorted));
    forall i | 0 <= i < |sorted| ensures Entry(sorted[i], texts, vectors) {
      assert sorted[i] in multiset(ms);
      var k :| 0 <= k < |ms| && ms[k] == sorted[i];
    }
  }

  /** The best `max` nodes of both lists. */
  ghost predicate Fusion(out: seq<Result>, texts: seq<Result>, vectors: seq<Result>, max: nat) {
    && DistinctNodes(out) && Descending(Scores(out, Field.Rrf))
    && (forall i :: 0 <= i < |out| ==> out[i].node in Union(texts, vectors) && Entry(out[i], texts, vectors))
    && |out| == Min(max, |Union(texts, vectors)|)
    && (forall node: NodeId, i :: 0 <= i < |out| && node in Union(texts, vectors) && node !in Nodes(out) ==>
         RrfScore(texts, vectors, node) <= out[i].rrf)
  }

  function Union(texts: seq<Result>, vectors: seq<Result>): set<NodeId> {
    (set node | node in Nodes(texts)) + (set node | node in Nodes(vectors))
  }

  lemma CutIsFusion(sorted: seq<Result>, texts: seq<Result>, vectors: seq<Result>, max: nat)
    requires Fused(sorted, texts, vectors) && Descending(Scores(sorted, Field.Rrf))
    ensures Fusion(sorted[..Min(max, |sorted|)], texts, vectors, max)
  {
    hide RrfScore, Entry, Share, LastPlace;
    var n := Min(max, |sorted|);
    var out := sorted[..n];
    NoRepeatsCount(Nodes(sorted), Union(texts, vectors));
    assert Nodes(out) == Nodes(sorted)[..n];
    assert Scores(out, Field.Rrf) == Scores(sorted, Field.Rrf)[..n];
    forall i | 0 <= i < |out| ensures out[i].node in Union(texts, vectors) {
      NodeAt(sorted, out[i].node);
    }
    forall node: NodeId, i | 0 <= i < |out| && node in Union(texts, vectors) && node !in Nodes(out)
      ensures RrfScore(texts, vectors, node) <= out[i].rrf
    {
      OmittedIsLower(sorted, texts, vectors, n, i, node);
    }
  }

  lemma OmittedIsLower(sorted: seq<Result>, texts: seq<Result>, vectors: seq<Result>, n: nat, i: nat, node: NodeId)
    requires Fused(sorted, texts, vectors) && Descending(Scores(sorted, Field.Rrf))
    requires i < n <= |sorted| && node in Nodes(sorted) && node !in Nodes(sorted[..n])
    ensures RrfScore(texts, vectors, node) <= sorted[i].rrf
  {
    hide RrfScore, LastPlace, DistinctNodes;
    NodeAt(sorted, node);
    NodeAt(sorted[..n], node);
    forall k | 0 <= k < n ensures sorted[k].node != node {
      assert sorted[..n][k] == sorted[k];
    }
    var j :| 0 <= j < |sorted| && sorted[j].node == node;
    assert Entry(sorted[j], texts, vectors);
    var scores := Scores(sorted, Field.Rrf);
    assert scores[i] >= scores[j];
  }

  /** merge_rrf. `merged` is the list before the sort, for any two lists; over distinct text results it has one entry per node. */
  method MergeRrf(texts: seq<Result>, vectors: seq<Result>, max: nat) returns (out: seq<Result>, ghost merged: seq<Result>, ghost sorted: seq<Result>)
    ensures merged == Merged(Entries(texts), vectors, Fusing)
    ensures multiset(sorted) == multiset(merged) && Descending(Scores(sorted, Field.Rrf)) && out == sorted[..Min(max, |sorted|)]
    ensures DistinctNodes(texts) ==> Fusion(out, texts, vectors, max)
    ensures DistinctNodes(texts) && DistinctNodes(vectors) ==> forall k :: 0 <= k < |out| ==>
      var t, v := LastPlace(texts, out[k].node), LastPlace(vectors, out[k].node);
      out[k].rrf == (if t > 0 then 1.0 / ((60 + t) as real) else 0.0) + (if v > 0 then 1.0 / ((60 + v) as real) else 0.0)
  {
    hide Fused, Fusion, DistinctNodes, Merged, Reciprocal, Descending, LastPlace, Min;
    var buffer := new Result[|texts| + |vectors|];
    FillTexts(texts, buffer);
    var count := MergeNodes(buffer, |texts|, vectors, Fusing);
    merged := buffer[..count];
    SortFused(buffer, count);
    sorted := buffer[..count];
    var cut := if count > max then max else count;
    assert cut == Min(max, |sorted|) by { Smaller(max, count); }
    out := buffer[..cut];
    assert out == sorted[..cut];
    if DistinctNodes(texts) {
      SortedIsFusion(merged, sorted, texts, vectors, max);
      if DistinctNodes(vectors) {
        FusedScores(out, texts, vectors, max);
      }
    }
  }

  lemma Smaller(a: nat, b: nat)
    ensures Min(a, b) == if b > a then a else b
  {}

  lemma SortedIsFusion(merged: seq<Result>, sorted: seq<Result>, texts: seq<Result>, vectors: seq<Result>, max: nat)
    requires DistinctNodes(texts) && merged == Merged(Entries(texts), vectors, Fusing)
    requires multiset(sorted) == multiset(merged) && Descending(Scores(sorted, Field.Rrf))
    ensures Fusion(sorted[..Min(max, |sorted|)], texts, vectors, max)
  {
    hide Fused, Fusion, DistinctNodes, Merged, Descending;
    MergedIsFused(texts, vectors);
    FusedPermuted(merged, sorted, texts, vectors);
    CutIsFusion(sorted, texts, vectors, max);
  }

  lemma FusedScores(out: seq<Result>, texts: seq<Result>, vectors: seq<Result>, max: nat)
    requires DistinctNodes(texts) && DistinctNodes(vectors) && Fusion(out, texts, vectors, max)
    ensures forall k :: 0 <= k < |out| ==>
      var t, v := LastPlace(texts, out[k].node), LastPlace(vectors, out[k].node);
      out[k].rrf == (if t > 0 then 1.0 / ((60 + t) as real) else 0.0) + (if v > 0 then 1.0 / ((60 + v) as real) else 0.0)
  {
    hide RrfScore, LastPlace, DistinctNodes;
    forall k | 0 <= k < |out|
      ensures var t, v := LastPlace(texts, out[k].node), LastPlace(vectors, out[k].node);
        out[k].rrf == (if t > 0 then 1.0 / ((60 + t) as real) else 0.0) + (if v > 0 then 1.0 / ((60 + v) as real) else 0.0)
    {
      ScoreOfPlaces(texts, vectors, out[k].node);
      assert Entry(out[k], texts, vectors);
    }
  }

  method FillTexts(texts: seq<Result>, buffer: array<Result>)
    requires |texts| <= buffer.Length
    modifies buffer
    ensures buffer[..|texts|] == Entries(texts)
  {
    hide Reciprocal;
    for i := 0 to |texts|
      invariant forall k :: 0 <= k < i ==> buffer[k] == Entries(texts)[k]
    {
      buffer[i] := texts[i].(bm25fRank := i + 1, rrf := Reciprocal(i + 1));
    }
  }

  method SortFused(buffer: array<Result>, count: nat)
    requires count <= buffer.Length
    modifies buffer
    ensures multiset(buffer[..count]) == multiset(old(buffer[..count])) && Descending(Scores(buffer[..count], Field.Rrf))
  {
    hide Descending;
    ExchangeSort(buffer, count, Field.Rrf);
    assert buffer[..count] == buffer[..][..count];
  }
}
