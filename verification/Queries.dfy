/** What a search of src/unified_shard.c, src/inverted_index.c or src/async_search.c may return, and what its results say of
    the documents. A score is any function of the record. */
module Queries {
  import opened Pages
  import opened Documents
  import opened Ranking
  import opened Sequences
  import Tombstone

  /** A query against one shard: BM25F, which keeps positive scores only, or cosine similarity. */
  datatype Query = Text(score: DocRecord -> real) | Vector(score: DocRecord -> real) {
    function By(): Field { if Text? then Bm25f else Cosine }
  }

  type Bitset = s: seq<bv8> | |s| == Tombstone.BITSET_BYTES witness seq(Tombstone.BITSET_BYTES, _ => 0)

  function ResultOf(r: DocRecord, q: Query): Result {
    if q.Text? then Result(r.node, q.score(r), 0.0, 0.0, 0, 0) else Result(r.node, 0.0, q.score(r), 0.0, 0, 0)
  }

  predicate Wanted(r: DocRecord, bits: Bitset, q: Query) {
    !Tombstone.IsDeleted(bits, r.doc) && (q.Text? ==> q.score(r) > 0.0)
  }

  /** What a search may return: one result for each live record with an acceptable score. */
  function Candidates(rs: seq<DocRecord>, bits: Bitset, q: Query): seq<Result> {
    if rs == [] then []
    else
      var n := |rs| - 1;
      Candidates(rs[..n], bits, q) + if Wanted(rs[n], bits, q) then [ResultOf(rs[n], q)] else []
  }

  function OneCandidate(r: DocRecord, bits: Bitset, q: Query): seq<Result> {
    if Wanted(r, bits, q) then [ResultOf(r, q)] else []
  }

  /** `out` is the best `max` of the candidates, best first. */
  ghost predicate Ranked(out: seq<Result>, candidates: seq<Result>, max: nat, field: Field) {
    Descending(Scores(out, field)) && Best(out, candidates, max, field)
  }

  // ---------- The order of the candidates does not matter ----------

  lemma {:induction false} CandidatesConcat(a: seq<DocRecord>, b: seq<DocRecord>, bits: Bitset, q: Query)
    ensures Candidates(a + b, bits, q) == Candidates(a, bits, q) + Candidates(b, bits, q)
  {
    if b == [] {
      assert a + b == a;
    } else {
      var n := |b| - 1;
      assert (a + b)[..|a + b| - 1] == a + b[..n];
      CandidatesConcat(a, b[..n], bits, q);
    }
  }

  lemma CandidatesAround(l: seq<DocRecord>, x: DocRecord, r: seq<DocRecord>, bits: Bitset, q: Query)
    ensures multiset(Candidates(l + [x] + r, bits, q)) == multiset(Candidates(l + r, bits, q)) + multiset(Candidates([x], bits, q))
  {
    hide Candidates;
    CandidatesConcat(l + [x], r, bits, q);
    CandidatesConcat(l, [x], bits, q);
    CandidatesConcat(l, r, bits, q);
  }

  lemma {:induction false} CandidatesPermute(a: seq<DocRecord>, b: seq<DocRecord>, bits: Bitset, q: Query)
    requires multiset(a) == multiset(b)
    ensures multiset(Candidates(a, bits, q)) == multiset(Candidates(b, bits, q))
    decreases |a|
  {
    SameLength(a, b);
    if a != [] {
      var a', x, l, r := WithoutOne(a, b);
      hide Candidates, Wanted;
      CandidatesPermute(a', l + r, bits, q);
      CandidatesConcat(a', [x], bits, q);
      CandidatesAround(l, x, r, bits, q);
    }
  }

  lemma ScoresPermute(a: seq<Result>, b: seq<Result>, field: Field)
    requires multiset(a) == multiset(b)
    ensures multiset(Scores(a, field)) == multiset(Scores(b, field))
  {
    var f := (r: Result) => Key(r, field);
    MapPermutes(f, a, b);
    assert Scores(a, field) == Map(f, a) && Scores(b, field) == Map(f, b);
  }

  lemma RankedPermuted(out: seq<Result>, a: seq<Result>, b: seq<Result>, max: nat, field: Field)
    requires Ranked(out, a, max, field) && multiset(a) == multiset(b)
    ensures Ranked(out, b, max, field)
  {
    ScoresPermute(a, b, field);
  }

  /** Two rankings of the same candidates show the same scores in the same order. */
  lemma SameScores(a: seq<Result>, b: seq<Result>, candidates: seq<Result>, max: nat, field: Field)
    requires Ranked(a, candidates, max, field) && Ranked(b, candidates, max, field)
    ensures Scores(a, field) == Scores(b, field)
  {
    TopUnique(Scores(a, field), Scores(b, field), multiset(Scores(candidates, field)), max);
  }

  lemma ScoresConcat(a: seq<Result>, b: seq<Result>, field: Field)
    ensures Scores(a + b, field) == Scores(a, field) + Scores(b, field)
  {}

  lemma PartScores(a: seq<Result>, b: seq<Result>, field: Field)
    requires multiset(a) <= multiset(b)
    ensures multiset(Scores(a, field)) <= multiset(Scores(b, field))
  {
    hide Scores;
    var rest := Listed(multiset(b) - multiset(a));
    assert multiset(a + rest) == multiset(b);
    ScoresPermute(a + rest, b, field);
    ScoresConcat(a, rest, field);
  }

  // ---------- What a ranking says of the records ----------

  /** What a result says of its record. */
  predicate ShownAs(r: Result, record: DocRecord, q: Query) {
    && r.node == record.node
    && if q.Text? then r.bm25f == q.score(record) > 0.0 && r.cosine == 0.0 else r.cosine == q.score(record) && r.bm25f == 0.0
  }

  /** A record a query may return. */
  predicate MayShow(record: DocRecord, bits: Bitset, q: Query) {
    !Tombstone.IsDeleted(bits, record.doc) && (q.Text? ==> q.score(record) > 0.0)
  }

  /** A ranking of results takes the best of them: none that it does not take is better than one it takes, and it takes all
      if there is room. */
  lemma RankingPicks(out: seq<Result>, candidates: seq<Result>, max: nat, field: Field) returns (pick: seq<nat>)
    requires Ranked(out, candidates, max, field)
    ensures |out| <= max && Picks(pick, |candidates|) && Picked(pick, candidates) == out
    ensures forall k, l :: 0 <= k < l < |out| ==> Key(out[k], field) >= Key(out[l], field)
    ensures forall c: nat :: c < |candidates| && c !in pick ==>
      |out| == max && forall k :: 0 <= k < max ==> Key(candidates[c], field) <= Key(out[k], field)
  {
    hide Key, TopScores;
    pick := PickFrom(out, candidates);
    var scores := Scores(out, field);
    assert forall k, l :: 0 <= k < l < |out| ==> scores[k] >= scores[l];
    TopPicks(out, candidates, pick, max, field);
  }

  /** Whenever the scores shown are the best ones. */
  lemma TopPicks(out: seq<Result>, candidates: seq<Result>, pick: seq<nat>, max: nat, field: Field)
    requires TopScores(multiset(Scores(out, field)), multiset(Scores(candidates, field)), max)
    requires Picks(pick, |candidates|) && |pick| == |out| && forall k :: 0 <= k < |out| ==> Key(candidates[pick[k]], field) == Key(out[k], field)
    ensures |out| <= max
    ensures forall c: nat :: c < |candidates| && c !in pick ==>
      |out| == max && forall k :: 0 <= k < max ==> Key(candidates[c], field) <= Key(out[k], field)
  {
    hide Key;
    assert |multiset(Scores(out, field))| == |out|;
    hide TopScores;
    forall c: nat | c < |candidates| && c !in pick
      ensures |out| == max && forall k :: 0 <= k < max ==> Key(candidates[c], field) <= Key(out[k], field)
    {
      LeftOutIsLower(out, candidates, pick, c, max, field);
    }
  }

  lemma LeftOutIsLower(out: seq<Result>, candidates: seq<Result>, pick: seq<nat>, c: nat, max: nat, field: Field)
    requires TopScores(multiset(Scores(out, field)), multiset(Scores(candidates, field)), max)
    requires Picks(pick, |candidates|) && |pick| == |out| && forall k :: 0 <= k < |out| ==> Key(candidates[pick[k]], field) == Key(out[k], field)
    requires c < |candidates| && c !in pick
    ensures |out| == max && forall k :: 0 <= k < max ==> Key(candidates[c], field) <= Key(out[k], field)
  {
    hide Key, TopScores;
    var more, s := pick + [c], Key(candidates[c], field);
    var shown, all := Scores(out, field), Scores(candidates, field);
    assert Picked(more, all) == shown + [s];
    PickedPart(more, all);
    OneMoreScore(multiset(shown), multiset(all), s, max);
    forall k | 0 <= k < |out| ensures s <= Key(out[k], field) {
      assert shown[k] in multiset(shown);
    }
  }

  lemma OneMoreScore(best: multiset<real>, all: multiset<real>, s: real, max: nat)
    requires TopScores(best, all, max) && best + multiset{s} <= all
    ensures |best| == max && forall x :: x in best ==> s <= x
  {
    assert s in all - best;
    assert all == best + multiset{s} + (all - best - multiset{s});
  }

  /** The records the candidates stand for. */
  lemma {:induction false} CandidateRecords(rs: seq<DocRecord>, bits: Bitset, q: Query) returns (ids: seq<nat>)
    ensures |ids| == |Candidates(rs, bits, q)| && Picks(ids, |rs|)
    ensures forall i :: 0 <= i < |ids| ==> MayShow(rs[ids[i]], bits, q) && ShownAs(Candidates(rs, bits, q)[i], rs[ids[i]], q)
    ensures forall d: nat :: d < |rs| && MayShow(rs[d], bits, q) ==> d in ids
  {
    if rs == [] {
      ids := [];
    } else {
      var n := |rs| - 1;
      ids := CandidateRecords(rs[..n], bits, q);
      if Wanted(rs[n], bits, q) {
        ids := ids + [n];
        assert ids[|ids| - 1] == n;
      }
    }
  }

  /** `out` shows, best first, the best `max` of the records `asked` that are not deleted and, for a text query, have a
      positive score; result `k` is that of record `ids[k]`, and no record is shown twice. */
  ghost predicate ShowsBest(out: seq<Result>, ids: seq<nat>, records: seq<DocRecord>, asked: set<nat>, bits: Bitset, q: Query, max: nat)
    requires forall d :: d in asked ==> d < |records|
  {
    && |ids| == |out| <= max && NoRepeats(ids)
    && (forall k :: 0 <= k < |out| ==> ids[k] in asked && MayShow(records[ids[k]], bits, q) && ShownAs(out[k], records[ids[k]], q))
    && (forall k, l :: 0 <= k < l < |out| ==> q.score(records[ids[k]]) >= q.score(records[ids[l]]))
    && (forall d :: d in asked && MayShow(records[d], bits, q) && d !in ids ==>
         |out| == max && forall k :: 0 <= k < max ==> q.score(records[d]) <= q.score(records[ids[k]]))
  }

  function All(n: nat): (s: set<nat>)
    ensures forall d: nat :: d in s <==> d < n
  {
    if n == 0 then {} else All(n - 1) + {n - 1}
  }

  lemma KeyOf(r: Result, record: DocRecord, q: Query)
    requires ShownAs(r, record, q)
    ensures Key(r, q.By()) == q.score(record)
  {}

  /** A ranking of candidates shows the best records. */
  lemma RankedShowsBest(out: seq<Result>, rs: seq<DocRecord>, bits: Bitset, q: Query, max: nat) returns (ids: seq<nat>)
    requires Ranked(out, Candidates(rs, bits, q), max, q.By())
    ensures ShowsBest(out, ids, rs, All(|rs|), bits, q, max)
  {
    hide Ranked, Candidates, MayShow, ShownAs, Key;
    var candidates := Candidates(rs, bits, q);
    var pick := RankingPicks(out, candidates, max, q.By());
    var records := CandidateRecords(rs, bits, q);
    ids := Picked(pick, records);
    forall c | 0 <= c < |candidates| ensures Key(candidates[c], q.By()) == q.score(rs[records[c]]) {
      KeyOf(candidates[c], rs[records[c]], q);
    }
    forall d: nat | d < |rs| && MayShow(rs[d], bits, q) && d !in ids
      ensures |out| == max && forall k :: 0 <= k < max ==> q.score(rs[d]) <= q.score(rs[ids[k]])
    {
      var c: nat :| c < |records| && records[c] == d;
      NotPicked(pick, records, ids, c);
    }
  }

  lemma NotPicked(pick: seq<nat>, records: seq<nat>, ids: seq<nat>, c: nat)
    requires |ids| == |pick| && forall k :: 0 <= k < |pick| ==> pick[k] < |records| && ids[k] == records[pick[k]]
    requires c < |records| && records[c] !in ids
    ensures c !in pick
  {
    forall k | 0 <= k < |pick| ensures pick[k] != c {
      assert ids[k] in ids;
    }
  }

  /** The same among more records, of which only these are asked for. */
  lemma AmongMore(out: seq<Result>, ids: seq<nat>, rs: seq<DocRecord>, which: seq<nat>, records: seq<DocRecord>, asked: set<nat>,
                  bits: Bitset, q: Query, max: nat) returns (ids': seq<nat>)
    requires ShowsBest(out, ids, rs, All(|rs|), bits, q, max)
    requires Picks(which, |records|) && Picked(which, records) == rs && forall d :: d in asked <==> d in which
    ensures ShowsBest(out, ids', records, asked, bits, q, max)
  {
    hide MayShow, ShownAs;
    ids' := Picked(ids, which);
    assert forall i :: 0 <= i < |rs| ==> rs[i] == records[which[i]];
    forall d | d in asked && MayShow(records[d], bits, q) && d !in ids'
      ensures |out| == max && forall k :: 0 <= k < max ==> q.score(records[d]) <= q.score(records[ids'[k]])
    {
      var i: nat :| i < |which| && which[i] == d;
      NotPicked(ids, which, ids', i);
    }
  }
}
