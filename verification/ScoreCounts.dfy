/** The best scores of a list, told by counting the scores that are not below a bound. */
module ScoreCounts {
  import opened Pages
  import opened Ranking
  import opened Common
  import opened Sequences
  import opened NodeMerge
  import opened ScatterGather

  // ---------- Counting scores ----------

  /** How many scores are not below `v`. */
  function CountFrom(s: seq<real>, v: real): (n: nat)
    ensures n <= |s|
    ensures n > 0 <==> exists i :: 0 <= i < |s| && s[i] >= v
    ensures n == |s| <==> forall i :: 0 <= i < |s| ==> s[i] >= v
  {
    if s == [] then 0 else CountFrom(s[..|s| - 1], v) + if s[|s| - 1] >= v then 1 else 0
  }

  lemma {:induction false} CountConcat(a: seq<real>, b: seq<real>, v: real)
    ensures CountFrom(a + b, v) == CountFrom(a, v) + CountFrom(b, v)
  {
    if b == [] {
      assert a + b == a;
    } else {
      var n := |b| - 1;
      CountConcat(a, b[..n], v);
      assert (a + b)[..|a + b| - 1] == a + b[..n];
    }
  }

  lemma {:induction false} CountPermutes(a: seq<real>, b: seq<real>, v: real)
    requires multiset(a) == multiset(b)
    ensures CountFrom(a, v) == CountFrom(b, v)
    decreases |a|
  {
    SameLength(a, b);
    if a != [] {
      var a', x, l, r := WithoutOne(a, b);
      CountPermutes(a', l + r, v);
      CountConcat(a', [x], v);
      CountConcat(l + [x], r, v);
      CountConcat(l, [x], v);
      CountConcat(l, r, v);
    }
  }

  /** What `b` holds besides `a`. */
  lemma Rest(a: seq<real>, b: seq<real>) returns (rest: seq<real>)
    requires multiset(a) <= multiset(b)
    ensures multiset(rest) == multiset(b) - multiset(a) && |b| == |a| + |rest|
    ensures forall v: real :: CountFrom(b, v) == CountFrom(a, v) + CountFrom(rest, v)
  {
    rest := Listed(multiset(b) - multiset(a));
    assert multiset(a + rest) == multiset(b);
    SameLength(a + rest, b);
    forall v: real ensures CountFrom(b, v) == CountFrom(a, v) + CountFrom(rest, v) {
      CountPermutes(a + rest, b, v);
      CountConcat(a, rest, v);
    }
  }

  // ---------- The best scores, by counting ----------

  /** The best `max` scores of `b` hold as many scores from any bound on as `b` does, up to `max`. */
  lemma TopCounts(a: seq<real>, b: seq<real>, max: nat, v: real)
    requires TopScores(multiset(a), multiset(b), max)
    ensures CountFrom(a, v) >= Min(max, CountFrom(b, v))
  {
    var rest := Rest(a, b);
    assert |multiset(a)| == |a| && |multiset(b)| == |b|;
    if CountFrom(rest, v) > 0 {
      var j :| 0 <= j < |rest| && rest[j] >= v;
      assert rest[j] in multiset(rest);
      forall i | 0 <= i < |a| ensures a[i] >= v {
        assert a[i] in multiset(a);
      }
    }
  }

  /** If this holds for the scores of `b` as bounds, they are the best. */
  lemma CountsAreTop(a: seq<real>, b: seq<real>, max: nat)
    requires multiset(a) <= multiset(b) && |a| <= max
    requires forall v: real :: v in b ==> CountFrom(a, v) >= Min(max, CountFrom(b, v))
    ensures TopScores(multiset(a), multiset(b), max)
  {
    var rest := Rest(a, b);
    assert |multiset(a)| == |a| && |multiset(b)| == |b|;
    if b != [] {
      var low := LowestScore(b);
      assert CountFrom(b, low) == |b|;
    }
    forall x, y | x in multiset(a) && y in multiset(b) - multiset(a) ensures y <= x {
      NoneAbove(a, b, rest, max, x, y);
    }
  }

  lemma NoneAbove(a: seq<real>, b: seq<real>, rest: seq<real>, max: nat, x: real, y: real)
    requires |a| <= max && x in multiset(a) && y in multiset(rest)
    requires CountFrom(b, y) == CountFrom(a, y) + CountFrom(rest, y) && CountFrom(a, y) >= Min(max, CountFrom(b, y))
    ensures y <= x
  {
    var i :| 0 <= i < |a| && a[i] == x;
    var j :| 0 <= j < |rest| && rest[j] == y;
    assert CountFrom(rest, y) > 0;
  }

  lemma {:induction false} LowestScore(s: seq<real>) returns (low: real)
    requires s != []
    ensures low in s && forall i :: 0 <= i < |s| ==> low <= s[i]
  {
    var n := |s| - 1;
    low := s[n];
    if n > 0 {
      var before := LowestScore(s[..n]);
      if before < low {
        low := before;
      }
    }
  }

  lemma CutCounts(s: seq<real>, max: nat, v: real)
    requires Descending(s)
    ensures CountFrom(s[..Min(max, |s|)], v) == Min(max, CountFrom(s, v))
  {
    hide Descending;
    var n := Min(max, |s|);
    var a, b := s[..n], s[n..];
    assert s == a + b;
    CountConcat(a, b, v);
    if CountFrom(b, v) > 0 {
      AllBefore(a, b, v);
    }
  }

  lemma AllBefore(a: seq<real>, b: seq<real>, v: real)
    requires Descending(a + b) && CountFrom(b, v) > 0
    ensures CountFrom(a, v) == |a|
  {
    hide Descending;
    var j :| 0 <= j < |b| && b[j] >= v;
    assert b[j] in multiset(b);
    forall i | 0 <= i < |a| ensures a[i] >= v {
      assert a[i] in multiset(a);
      AboveRest(a, b, a[i], b[j]);
    }
  }

  // ---------- Counting nodes ----------

  /** The nodes with a result of at least `v`. */
  function HighNodes(s: seq<Result>, v: real): (nodes: set<NodeId>) {
    set i | 0 <= i < |s| && s[i].cosine >= v :: s[i].node
  }

  lemma HighNodesNext(s: seq<Result>, v: real)
    requires s != [] && DistinctNodes(s)
    ensures var n := |s| - 1;
      && HighNodes(s, v) == HighNodes(s[..n], v) + (if s[n].cosine >= v then {s[n].node} else {})
      && s[n].node !in HighNodes(s[..n], v)
  {
    EarlierNodes(s, |s| - 1);
  }

  /** Distinct nodes are counted by their scores. */
  lemma {:induction false} CountNodes(s: seq<Result>, v: real)
    requires DistinctNodes(s)
    ensures CountFrom(Scores(s, Cosine), v) == |HighNodes(s, v)|
  {
    if s != [] {
      hide Scores, DistinctNodes, HighNodes;
      ScoresInit(s);
      DistinctInit(s);
      HighNodesNext(s, v);
      CountNodes(s[..|s| - 1], v);
      CountConcat(Scores(s[..|s| - 1], Cosine), [s[|s| - 1].cosine], v);
    }
  }

  lemma ScoresInit(s: seq<Result>)
    requires s != []
    ensures Scores(s, Cosine) == Scores(s[..|s| - 1], Cosine) + [s[|s| - 1].cosine]
  {}

  lemma DistinctInit(s: seq<Result>)
    requires s != [] && DistinctNodes(s)
    ensures DistinctNodes(s[..|s| - 1])
  {
    assert Nodes(s[..|s| - 1]) == Nodes(s)[..|s| - 1];
  }
}
