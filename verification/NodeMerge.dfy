/** Merging two result lists by node, as src/unified_shard.c and src/async_search.c do it in three places. */
module NodeMerge {
  import opened Pages
  import opened Ranking
  import opened Common
  import opened Sequences

  const RRF_K := 60

  function Reciprocal(rank: nat): real {
    1.0 / ((RRF_K + rank) as real)
  }

  // ---------- Nodes ----------

  function Nodes(rs: seq<Result>): seq<NodeId> {
    Map((r: Result) => r.node, rs)
  }

  ghost predicate DistinctNodes(rs: seq<Result>) {
    NoRepeats(Nodes(rs))
  }

  lemma NodesAppend(rs: seq<Result>, r: Result)
    ensures Nodes(rs + [r]) == Nodes(rs) + [r.node]
  {}

  lemma NodeAt(rs: seq<Result>, node: NodeId)
    ensures node in Nodes(rs) <==> exists i :: 0 <= i < |rs| && rs[i].node == node
  {
    var nodes := Nodes(rs);
    if i :| 0 <= i < |rs| && rs[i].node == node {
      assert nodes[i] == node;
    }
    if node in nodes {
      var i :| 0 <= i < |nodes| && nodes[i] == node;
      assert rs[i].node == node;
    }
  }

  lemma EarlierNodes(rs: seq<Result>, i: nat)
    requires i < |rs|
    ensures DistinctNodes(rs) ==> forall k :: 0 <= k < i ==> rs[k].node != rs[i].node
  {
    if DistinctNodes(rs) {
      var nodes := Nodes(rs);
      assert forall k :: 0 <= k < i ==> nodes[k] != nodes[i];
    }
  }

  /** The position of the first result for `node` among the first `count`, or -1. */
  method FindNode(results: array<Result>, count: nat, node: NodeId) returns (at: int)
    requires count <= results.Length
    ensures at < 0 <==> forall j :: 0 <= j < count ==> results[j].node != node
    ensures at >= 0 ==> at < count && results[at].node == node && forall j :: 0 <= j < at ==> results[j].node != node
  {
    for j := 0 to count
      invariant forall k :: 0 <= k < j ==> results[k].node != node
    {
      if results[j].node == node {
        return j;
      }
    }
    return -1;
  }

  // ---------- What becomes of an entry ----------

  /** What happens when a result at `place` meets an entry of its node: a vector result overwrites the cosine score and rank;
      in a fusion it also adds to the fused score; a text result of another term adds its score. */
  datatype Mode = Overwriting | Fusing | Adding

  function Update(m: Result, v: Result, place: nat, mode: Mode): (r: Result)
    ensures r.node == m.node
  {
    match mode
    case Overwriting => m.(cosine := v.cosine, cosineRank := v.cosineRank)
    case Fusing => m.(cosine := v.cosine, cosineRank := place, rrf := m.rrf + Reciprocal(place))
    case Adding => m.(bm25f := m.bm25f + v.bm25f)
  }

  /** An entry after all vector results for its node. */
  function Folded(m: Result, vectors: seq<Result>, mode: Mode): (r: Result)
    ensures r.node == m.node
  {
    if vectors == [] then m
    else
      var n := |vectors| - 1;
      var before := Folded(m, vectors[..n], mode);
      if vectors[n].node == m.node then Update(before, vectors[n], n + 1, mode) else before
  }

  /** A new entry before its own result is folded in. */
  function Base(v: Result, mode: Mode): Result {
    match mode
    case Overwriting => v
    case Fusing => v.(rrf := 0.0)
    case Adding => v.(bm25f := 0.0)
  }

  lemma FoldedNext(m: Result, vectors: seq<Result>, v: Result, mode: Mode)
    ensures Folded(m, vectors + [v], mode) ==
      if v.node == m.node then Update(Folded(m, vectors, mode), v, |vectors| + 1, mode) else Folded(m, vectors, mode)
  {
    assert (vectors + [v])[..|vectors|] == vectors;
  }

  lemma {:induction false} FoldedAbsent(m: Result, vectors: seq<Result>, mode: Mode)
    requires forall i :: 0 <= i < |vectors| ==> vectors[i].node != m.node
    ensures Folded(m, vectors, mode) == m
  {
    if vectors != [] {
      FoldedAbsent(m, vectors[..|vectors| - 1], mode);
    }
  }

  // ---------- The merged list ----------

  predicate IsFirst(rs: seq<Result>, i: nat)
    requires i < |rs|
  {
    forall j :: 0 <= j < i ==> rs[j].node != rs[i].node
  }

  /** The first vector results of the nodes that are not in `before`, in order. */
  function NewOnes(before: seq<Result>, vectors: seq<Result>): seq<Result> {
    if vectors == [] then []
    else
      var n := |vectors| - 1;
      var v := vectors[n];
      NewOnes(before, vectors[..n]) + if v.node in Nodes(before) || v.node in Nodes(vectors[..n]) then [] else [v]
  }

  /** The old entries - of several with the same node the first takes the vector results - and then the new ones. */
  function Merged(before: seq<Result>, vectors: seq<Result>, mode: Mode): (ms: seq<Result>)
    ensures |ms| == |before| + |NewOnes(before, vectors)|
  {
    seq(|before|, i requires 0 <= i < |before| => if IsFirst(before, i) then Folded(before[i], vectors, mode) else before[i])
    + seq(|NewOnes(before, vectors)|, i requires 0 <= i < |NewOnes(before, vectors)| => Folded(Base(NewOnes(before, vectors)[i], mode), vectors, mode))
  }

  lemma {:induction false} NewOnesAre(before: seq<Result>, vectors: seq<Result>)
    ensures DistinctNodes(NewOnes(before, vectors))
    ensures forall node: NodeId :: node in Nodes(NewOnes(before, vectors)) <==> node in Nodes(vectors) && node !in Nodes(before)
  {
    if vectors != [] {
      var n := |vectors| - 1;
      NewOnesAre(before, vectors[..n]);
      NodesAppend(NewOnes(before, vectors[..n]), vectors[n]);
      NodesAppend(vectors[..n], vectors[n]);
      assert vectors == vectors[..n] + [vectors[n]];
      NoRepeatsAppend(Nodes(NewOnes(before, vectors[..n])), vectors[n].node);
      assert NewOnes(before, vectors[..n]) + [] == NewOnes(before, vectors[..n]);
    }
  }

  /** Neither an old entry nor an earlier result has the node of result `k`. */
  ghost predicate IsNew(before: seq<Result>, vectors: seq<Result>, k: nat)
    requires k < |vectors|
  {
    (forall j :: 0 <= j < |before| ==> before[j].node != vectors[k].node) && (forall j :: 0 <= j < k ==> vectors[j].node != vectors[k].node)
  }

  lemma NewExactly(before: seq<Result>, vectors: seq<Result>, n: nat)
    requires n < |vectors|
    ensures IsNew(before, vectors, n) <==> vectors[n].node !in Nodes(before) && vectors[n].node !in Nodes(vectors[..n])
    ensures forall k: nat :: k < n ==> IsNew(before, vectors[..n], k) == IsNew(before, vectors, k)
  {
    NodeAt(before, vectors[n].node);
    NodeAt(vectors[..n], vectors[n].node);
    hide Nodes;
  }

  lemma NextNew(before: seq<Result>, vectors: seq<Result>, n: nat)
    requires |vectors| == n + 1
    ensures NewOnes(before, vectors) == NewOnes(before, vectors[..n]) + if IsNew(before, vectors, n) then [vectors[n]] else []
  {
    hide Nodes, IsNew;
    NewExactly(before, vectors, n);
  }

  /** Which results are new, in order. */
  lemma {:induction false} FirstOnes(before: seq<Result>, vectors: seq<Result>) returns (at: seq<nat>)
    ensures |at| == |NewOnes(before, vectors)| && forall i, j :: 0 <= i < j < |at| ==> at[i] < at[j]
    ensures forall i :: 0 <= i < |at| ==> at[i] < |vectors| && NewOnes(before, vectors)[i] == vectors[at[i]]
    ensures forall k: nat :: k < |vectors| ==> (k in at <==> IsNew(before, vectors, k))
  {
    hide IsNew, NewOnes;
    at := [];
    if vectors == [] {
      NoneNew(before);
    } else {
      var n := |vectors| - 1;
      at := FirstOnes(before, vectors[..n]);
      NewExactly(before, vectors, n);
      NextNew(before, vectors, n);
      var news := NewOnes(before, vectors[..n]);
      assert news + [] == news;
      if IsNew(before, vectors, n) {
        at := at + [n];
        assert at[|at| - 1] == n;
      }
    }
  }

  lemma NoneNew(before: seq<Result>)
    ensures NewOnes(before, []) == []
  {}

  lemma NoRepeatsAppend<T>(s: seq<T>, x: T)
    requires NoRepeats(s)
    ensures x !in s ==> NoRepeats(s + [x])
  {}

  lemma MergedNodes(before: seq<Result>, vectors: seq<Result>, mode: Mode)
    ensures Nodes(Merged(before, vectors, mode)) == Nodes(before) + Nodes(NewOnes(before, vectors))
  {}

  lemma NothingMerged(before: seq<Result>, mode: Mode)
    ensures Merged(before, [], mode) == before
  {}

  /** The next vector result has an entry: the first one is updated. */
  lemma MergedKnown(before: seq<Result>, vectors: seq<Result>, v: Result, at: nat, mode: Mode)
    requires var ms := Merged(before, vectors, mode); at < |ms| && ms[at].node == v.node && IsFirst(ms, at)
    ensures var ms := Merged(before, vectors, mode);
      Merged(before, vectors + [v], mode) == ms[at := Update(ms[at], v, |vectors| + 1, mode)]
  {
    hide Update;
    var ms, news := Merged(before, vectors, mode), NewOnes(before, vectors);
    KnownIsOld(before, vectors, v, at, mode);
    var ms' := Merged(before, vectors + [v], mode);
    forall i | 0 <= i < |ms| ensures ms'[i] == if i == at then Update(ms[at], v, |vectors| + 1, mode) else ms[i] {
      EntryNext(before, vectors, v, at, i, mode);
    }
  }

  lemma KnownIsOld(before: seq<Result>, vectors: seq<Result>, v: Result, at: nat, mode: Mode)
    requires var ms := Merged(before, vectors, mode); at < |ms| && ms[at].node == v.node
    ensures NewOnes(before, vectors + [v]) == NewOnes(before, vectors)
  {
    var ms := Merged(before, vectors, mode);
    MergedNodes(before, vectors, mode);
    NewOnesAre(before, vectors);
    var nodes := Nodes(ms);
    assert nodes[at] == v.node;
    assert v.node in Nodes(before) || v.node in Nodes(NewOnes(before, vectors));
    assert (vectors + [v])[..|vectors|] == vectors;
  }

  /** The entry that `ms[i]` is made of. */
  lemma EntryNext(before: seq<Result>, vectors: seq<Result>, v: Result, at: nat, i: nat, mode: Mode)
    requires var ms := Merged(before, vectors, mode); i < |ms| && at < |ms| && ms[at].node == v.node && IsFirst(ms, at)
    requires NewOnes(before, vectors + [v]) == NewOnes(before, vectors)
    ensures var ms, ms' := Merged(before, vectors, mode), Merged(before, vectors + [v], mode);
      ms'[i] == if i == at then Update(ms[i], v, |vectors| + 1, mode) else ms[i]
  {
    hide Update, Folded;
    var ms, news := Merged(before, vectors, mode), NewOnes(before, vectors);
    NewOnesAre(before, vectors);
    if i < |before| {
      FoldedNext(before[i], vectors, v, mode);
      FirstInBefore(before, vectors, v, at, i, mode);
    } else {
      var k := i - |before|;
      FoldedNext(Base(news[k], mode), vectors, v, mode);
      NewIsFirst(before, vectors, v, at, k, mode);
    }
  }

  lemma FirstInBefore(before: seq<Result>, vectors: seq<Result>, v: Result, at: nat, i: nat, mode: Mode)
    requires var ms := Merged(before, vectors, mode); at < |ms| && ms[at].node == v.node && IsFirst(ms, at)
    requires i < |before|
    ensures i == at <==> IsFirst(before, i) && before[i].node == v.node
  {
    hide Folded;
    var ms := Merged(before, vectors, mode);
    assert forall j :: 0 <= j < |before| ==> ms[j].node == before[j].node;
  }

  lemma NewIsFirst(before: seq<Result>, vectors: seq<Result>, v: Result, at: nat, k: nat, mode: Mode)
    requires var ms := Merged(before, vectors, mode); at < |ms| && ms[at].node == v.node && IsFirst(ms, at)
    requires k < |NewOnes(before, vectors)|
    ensures |before| + k == at <==> NewOnes(before, vectors)[k].node == v.node
  {
    hide Merged, NewOnes;
    var ms, news := Merged(before, vectors, mode), NewOnes(before, vectors);
    MergedNodes(before, vectors, mode);
    NewOnesAre(before, vectors);
    AroundFirst(Nodes(before), Nodes(news), at, k, v.node, ms);
  }

  lemma AroundFirst(a: seq<NodeId>, b: seq<NodeId>, at: nat, k: nat, node: NodeId, ms: seq<Result>)
    requires Nodes(ms) == a + b && NoRepeats(b) && (forall x :: x in b ==> x !in a) && k < |b|
    requires at < |ms| && ms[at].node == node && IsFirst(ms, at)
    ensures |a| + k == at <==> b[k] == node
  {
    var nodes := Nodes(ms);
    assert nodes[|a| + k] == b[k] && nodes[at] == node;
    assert b[k] in b && (at < |a| ==> a[at] in a && a[at] == node);
    assert at >= |a| ==> b[at - |a|] == node;
  }

  /** The next vector result has no entry: it becomes the last one. */
  lemma MergedNew(before: seq<Result>, vectors: seq<Result>, v: Result, mode: Mode)
    requires var ms := Merged(before, vectors, mode); forall j :: 0 <= j < |ms| ==> ms[j].node != v.node
    ensures Merged(before, vectors + [v], mode) == Merged(before, vectors, mode) + [Update(Base(v, mode), v, |vectors| + 1, mode)]
  {
    hide Update, Base, Merged, NewOnes;
    NewIsNew(before, vectors, v, mode);
    var ms, ms' := Merged(before, vectors, mode), Merged(before, vectors + [v], mode);
    LastEntry(before, vectors, v, mode);
    forall i | 0 <= i < |ms| ensures ms'[i] == ms[i] {
      UntouchedEntry(before, vectors, v, i, mode);
    }
    assert ms' == ms + [ms'[|ms|]];
  }

  lemma LastEntry(before: seq<Result>, vectors: seq<Result>, v: Result, mode: Mode)
    requires NewOnes(before, vectors + [v]) == NewOnes(before, vectors) + [v]
    requires forall i :: 0 <= i < |vectors| ==> vectors[i].node != v.node
    ensures var k, ms' := |before| + |NewOnes(before, vectors)|, Merged(before, vectors + [v], mode);
      |ms'| == k + 1 && ms'[k] == Update(Base(v, mode), v, |vectors| + 1, mode)
  {
    hide Update, NewOnes;
    FoldedNext(Base(v, mode), vectors, v, mode);
    FoldedAbsent(Base(v, mode), vectors, mode);
  }

  lemma NewIsNew(before: seq<Result>, vectors: seq<Result>, v: Result, mode: Mode)
    requires var ms := Merged(before, vectors, mode); forall j :: 0 <= j < |ms| ==> ms[j].node != v.node
    ensures NewOnes(before, vectors + [v]) == NewOnes(before, vectors) + [v]
    ensures forall i :: 0 <= i < |vectors| ==> vectors[i].node != v.node
  {
    hide Merged;
    MergedNodes(before, vectors, mode);
    NodeAt(Merged(before, vectors, mode), v.node);
    NewOnesAre(before, vectors);
    NodeAt(vectors, v.node);
    assert (vectors + [v])[..|vectors|] == vectors;
  }

  lemma UntouchedEntry(before: seq<Result>, vectors: seq<Result>, v: Result, i: nat, mode: Mode)
    requires var ms := Merged(before, vectors, mode); i < |ms| && ms[i].node != v.node
    requires NewOnes(before, vectors + [v]) == NewOnes(before, vectors) + [v]
    ensures Merged(before, vectors + [v], mode)[i] == Merged(before, vectors, mode)[i]
  {
    hide Update, Folded, NewOnes;
    if i < |before| {
      FoldedNext(before[i], vectors, v, mode);
    } else {
      FoldedNext(Base(NewOnes(before, vectors)[i - |before|], mode), vectors, v, mode);
    }
  }

  /** The merging loop: a known node takes the cosine score and rank, a new one is appended. */
  method MergeNodes(merged: array<Result>, count: nat, vectors: seq<Result>, mode: Mode) returns (count': nat)
    requires count + |vectors| <= merged.Length
    modifies merged
    ensures count <= count' <= count + |vectors|
    ensures merged[..count'] == Merged(old(merged[..count]), vectors, mode)
  {
    hide Merged, Update, IsFirst, Base;
    ghost var before := merged[..count];
    count' := count;
    NothingMerged(before, mode);
    assert vectors[..0] == [];
    for i := 0 to |vectors|
      invariant count <= count' <= count + i
      invariant merged[..count'] == Merged(before, vectors[..i], mode)
    {
      var v := vectors[i];
      ghost var ms := merged[..count'];
      assert vectors[..i + 1] == vectors[..i] + [v];
      var at := FindNode(merged, count', v.node);
      if at >= 0 {
        FirstFound(ms, at, v.node);
        MergedKnown(before, vectors[..i], v, at, mode);
        merged[at] := Update(merged[at], v, i + 1, mode);
        assert merged[..count'] == ms[at := merged[at]];
      } else {
        MergedNew(before, vectors[..i], v, mode);
        merged[count'] := Update(Base(v, mode), v, i + 1, mode);
        assert merged[..count' + 1] == ms + [merged[count']];
        count' := count' + 1;
      }
    }
    assert vectors[..|vectors|] == vectors;
  }

  lemma FirstFound(ms: seq<Result>, at: nat, node: NodeId)
    requires at < |ms| && ms[at].node == node && forall j :: 0 <= j < at ==> ms[j].node != node
    ensures IsFirst(ms, at)
  {}

  /** In a list that takes no more than `room` entries: the next result meets its entry, is appended while there is room, or
      is dropped. */
  lemma MergedWithRoom(before: seq<Result>, vectors: seq<Result>, v: Result, at: int, mode: Mode, room: nat)
    requires var ms := Take(Merged(before, vectors, mode), room);
      if at >= 0 then at < |ms| && ms[at].node == v.node && IsFirst(ms, at) else forall j :: 0 <= j < |ms| ==> ms[j].node != v.node
    ensures var ms := Take(Merged(before, vectors, mode), room);
      Take(Merged(before, vectors + [v], mode), room) ==
        if at >= 0 then ms[at := Update(ms[at], v, |vectors| + 1, mode)]
        else if |ms| < room then ms + [Update(Base(v, mode), v, |vectors| + 1, mode)]
        else ms
  {
    hide Merged, Update;
    var all := Merged(before, vectors, mode);
    if at >= 0 {
      FirstInPart(all, Take(all, room), at);
      MergedKnown(before, vectors, v, at, mode);
    } else if k :| 0 <= k < |all| && all[k].node == v.node {
      var first := FirstOf(all, k);
      MergedKnown(before, vectors, v, first, mode);
    } else {
      MergedNew(before, vectors, v, mode);
    }
  }

  lemma FirstInPart(all: seq<Result>, part: seq<Result>, at: nat)
    requires part <= all && at < |part| && IsFirst(part, at)
    ensures IsFirst(all, at) && all[at] == part[at]
  {}

  lemma {:induction false} FirstOf(rs: seq<Result>, k: nat) returns (first: nat)
    requires k < |rs|
    ensures first <= k && rs[first].node == rs[k].node && IsFirst(rs, first)
  {
    first := k;
    if j :| 0 <= j < k && rs[j].node == rs[k].node {
      first := FirstOf(rs, j);
    }
  }

  // ---------- What a merge means ----------

  /** The last place, counted from 1, where a node occurs; 0 if it does not. */
  function LastPlace(rs: seq<Result>, node: NodeId): (k: nat)
    ensures k <= |rs| && (k > 0 ==> rs[k - 1].node == node)
    ensures forall i :: k <= i < |rs| ==> rs[i].node != node
  {
    if rs == [] then 0
    else if rs[|rs| - 1].node == node then |rs|
    else LastPlace(rs[..|rs| - 1], node)
  }

  /** An entry ends up with the cosine score of its node's last vector result. */
  lemma {:induction false} FoldedCosine(m: Result, vectors: seq<Result>, mode: Mode)
    requires !mode.Adding?
    ensures var r, k := Folded(m, vectors, mode), LastPlace(vectors, m.node);
      && r.cosine == (if k > 0 then vectors[k - 1].cosine else m.cosine)
      && r.cosineRank == (if k == 0 then m.cosineRank else if mode.Fusing? then k else vectors[k - 1].cosineRank)
      && r.bm25f == m.bm25f && r.bm25fRank == m.bm25fRank && (mode.Overwriting? ==> r.rrf == m.rrf)
  {
    if vectors != [] && vectors[|vectors| - 1].node != m.node {
      FoldedCosine(m, vectors[..|vectors| - 1], mode);
    } else if vectors != [] {
      FoldedOthers(m, vectors[..|vectors| - 1], mode);
    }
  }

  lemma {:induction false} FoldedOthers(m: Result, vectors: seq<Result>, mode: Mode)
    requires !mode.Adding?
    ensures var r := Folded(m, vectors, mode); r.bm25f == m.bm25f && r.bm25fRank == m.bm25fRank && (mode.Overwriting? ==> r.rrf == m.rrf)
  {
    if vectors != [] {
      FoldedOthers(m, vectors[..|vectors| - 1], mode);
    }
  }

  /** The sum of a node's text scores. */
  function ScoreSum(rs: seq<Result>, node: NodeId): real {
    if rs == [] then 0.0
    else ScoreSum(rs[..|rs| - 1], node) + if rs[|rs| - 1].node == node then rs[|rs| - 1].bm25f else 0.0
  }

  /** What it is: the score of a list's only result, if it has the node, and additive. */
  lemma {:induction false} SumIs(a: seq<Result>, b: seq<Result>, r: Result, node: NodeId)
    ensures ScoreSum([], node) == 0.0 && ScoreSum([r], node) == if r.node == node then r.bm25f else 0.0
    ensures ScoreSum(a + b, node) == ScoreSum(a, node) + ScoreSum(b, node)
  {
    assert [r][..0] == [];
    if b == [] {
      assert a + b == a;
    } else {
      assert (a + b)[..|a + b| - 1] == a + b[..|b| - 1];
      SumIs(a, b[..|b| - 1], r, node);
    }
  }

  lemma {:induction false} FoldedSum(m: Result, rs: seq<Result>)
    ensures Folded(m, rs, Adding) == m.(bm25f := m.bm25f + ScoreSum(rs, m.node))
  {
    if rs != [] {
      FoldedSum(m, rs[..|rs| - 1]);
    }
  }

  lemma {:induction false} FoldedOnce(m: Result, rs: seq<Result>, i: nat, mode: Mode)
    requires i < |rs| && rs[i].node == m.node && forall j :: 0 <= j < |rs| && j != i ==> rs[j].node != m.node
    ensures Folded(m, rs, mode) == Update(m, rs[i], i + 1, mode)
  {
    hide Update;
    if i == |rs| - 1 {
      FoldedAbsent(m, rs[..i], mode);
    } else {
      FoldedOnce(m, rs[..|rs| - 1], i, mode);
    }
  }

  /** Over distinct nodes nothing is lost. */
  lemma {:induction false} DistinctNewOnes(vectors: seq<Result>)
    requires DistinctNodes(vectors)
    ensures NewOnes([], vectors) == vectors
  {
    hide NewOnes;
    if vectors == [] {
      NoneNew([]);
    } else {
      var n := |vectors| - 1;
      EarlierNodes(vectors, n);
      NextNew([], vectors, n);
      assert Nodes(vectors[..n]) == Nodes(vectors)[..n];
      DistinctNewOnes(vectors[..n]);
    }
  }

  lemma DistinctMerged(vectors: seq<Result>, mode: Mode)
    requires DistinctNodes(vectors) && !mode.Fusing?
    ensures Merged([], vectors, mode) == vectors
  {
    hide Folded;
    DistinctNewOnes(vectors);
    var nodes := Nodes(vectors);
    forall i | 0 <= i < |vectors| ensures Folded(Base(vectors[i], mode), vectors, mode) == vectors[i] {
      assert forall j :: 0 <= j < |vectors| && j != i ==> nodes[j] != nodes[i];
      FoldedOnce(Base(vectors[i], mode), vectors, i, mode);
    }
  }
}
