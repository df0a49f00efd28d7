/** Which documents answer a query over several shards: of engine_search in src/unified_shard.c and engine_search_async in
    src/async_search.c. */
module Answers {
  import opened Bytes
  import opened Pages
  import opened Documents
  import opened DataPages
  import opened Ranking
  import opened Common
  import opened Sequences
  import opened Queries
  import opened Search
  import opened NodeMerge
  import opened PhraseMeaning
  import opened ScatterGather
  import opened VectorTop
  import Tombstone

  // ---------- How a shard is searched ----------

  /** The synchronous search scans; in the asynchronous one a text query uses the index: for the phrase, for each term, or,
      without terms, for term 0. */
  datatype Way = Sync | Async(terms: seq<u32>, isPhrase: bool)

  predicate Scans(q: Query, way: Way) {
    q.Vector? || way.Sync?
  }

  predicate IsPhrase(q: Query, way: Way) {
    !Scans(q, way) && way.isPhrase && |way.terms| >= 2
  }

  predicate AddsTerms(q: Query, way: Way) {
    !Scans(q, way) && !way.isPhrase && |way.terms| > 0
  }

  /** Several terms without a phrase. */
  predicate ManyTerms(q: Query, way: Way) {
    AddsTerms(q, way) && |way.terms| > 1
  }

  /** The one term whose postings a search reads. */
  function TermOf(way: Way): u32 {
    if way.Async? && |way.terms| > 0 then way.terms[0] else 0
  }

  /** The records a query asks for, whatever their scores and deletions. */
  ghost function AskedFor(docs: seq<Document>, q: Query, way: Way): seq<DocRecord>
    requires Terms32(docs)
  {
    if Scans(q, way) || way.terms == [] then Records(docs)
    else if IsPhrase(q, way) then PhraseRecords(docs, way.terms, |docs|)
    else Matching(docs, TermOf(way))
  }

  /** The documents a query asks for. */
  ghost function Asked(docs: seq<Document>, q: Query, way: Way): set<nat>
    requires Terms32(docs)
  {
    if Scans(q, way) || way.terms == [] then All(|docs|)
    else if IsPhrase(q, way) then Finding(docs, way.terms)
    else Containing(docs, TermOf(way))
  }

  /** All of them, those found for the phrase, or those indexed under the first term. */
  lemma AskedExactly(docs: seq<Document>, q: Query, way: Way, d: nat)
    requires Terms32(docs) && d < |docs|
    ensures d in Asked(docs, q, way) <==>
      q.Vector? || way.Sync? || way.terms == [] ||
      if way.isPhrase && |way.terms| >= 2 then Finds(docs, way.terms, d) else way.terms[0] == 0 || way.terms[0] in docs[d].terms
  {
    hide Finds;
  }

  lemma Everyone(docs: seq<Document>) returns (which: seq<nat>)
    ensures Picks(which, |docs|) && Picked(which, Records(docs)) == Records(docs) && forall d: nat :: d in All(|docs|) <==> d in which
  {
    which := seq(|docs|, d requires 0 <= d < |docs| => d);
    forall d: nat | d < |docs| ensures d in which {
      assert which[d] == d;
    }
  }

  lemma AskedDocuments(docs: seq<Document>, q: Query, way: Way) returns (which: seq<nat>)
    requires Terms32(docs)
    ensures Picks(which, |docs|) && Picked(which, Records(docs)) == AskedFor(docs, q, way)
    ensures forall d: nat :: d in Asked(docs, q, way) <==> d in which
  {
    hide Records, Matching, PhraseRecords, Finds, Containing;
    if Scans(q, way) || way.terms == [] {
      which := Everyone(docs);
    } else if IsPhrase(q, way) {
      which := FoundDocuments(docs, way.terms, |docs|);
    } else {
      which := MatchingDocuments(docs, TermOf(way));
    }
  }

  /** A ranking of what a query asks for shows the best documents asked for. */
  lemma BestOfAsked(out: seq<Result>, docs: seq<Document>, bits: Bitset, q: Query, way: Way, max: nat) returns (ids: seq<nat>)
    requires Terms32(docs) && Ranked(out, Candidates(AskedFor(docs, q, way), bits, q), max, q.By())
    ensures BestNamed(out, ids, docs, Asked(docs, q, way), bits, q, max) && LiveResults(out, ids, docs, bits, q)
  {
    hide Ranked, Candidates, AskedFor, Asked, Records, ShowsBest, LiveResults, LiveShown, Picked;
    RecordsThenMore(docs, []);
    var rs := AskedFor(docs, q, way);
    assert Records(docs) + [] == Records(docs);
    var first := RankedShowsBest(out, rs, bits, q, max);
    var which := AskedDocuments(docs, q, way);
    AskedInRange(docs, q, way);
    ids := AmongMore(out, first, rs, which, Records(docs), Asked(docs, q, way), bits, q, max);
    BestIsLive(out, ids, docs, [], Asked(docs, q, way), bits, q, max);
  }

  lemma AskedInRange(docs: seq<Document>, q: Query, way: Way)
    requires Terms32(docs)
    ensures forall d :: d in Asked(docs, q, way) ==> d < |docs|
  {}

  /** The documents of one shard that its candidates stand for. */
  lemma ShardDocuments(docs: seq<Document>, bits: Bitset, q: Query, way: Way) returns (ids: seq<nat>)
    requires Terms32(docs)
    ensures Picks(ids, |docs|) && |ids| == |Candidates(AskedFor(docs, q, way), bits, q)|
    ensures forall i :: 0 <= i < |ids| ==>
      && ids[i] in Asked(docs, q, way) && MayShow(docs[ids[i]].record, bits, q)
      && ShownAs(Candidates(AskedFor(docs, q, way), bits, q)[i], docs[ids[i]].record, q)
    ensures forall d: nat :: d in Asked(docs, q, way) && d < |docs| && MayShow(docs[d].record, bits, q) ==> d in ids
  {
    hide AskedFor, Asked, Candidates, MayShow, ShownAs;
    var which := AskedDocuments(docs, q, way);
    var rs := AskedFor(docs, q, way);
    var records := CandidateRecords(rs, bits, q);
    ids := Picked(records, which);
    RecordsThenMore(docs, []);
    assert Records(docs) + [] == Records(docs);
    forall i | 0 <= i < |rs| ensures rs[i] == docs[which[i]].record {
      assert Picked(which, Records(docs))[i] == Records(docs)[which[i]];
    }
    forall d: nat | d in Asked(docs, q, way) && d < |docs| && MayShow(docs[d].record, bits, q) ensures d in ids {
      var i: nat :| i < |which| && which[i] == d;
      var c :| 0 <= c < |records| && records[c] == i;
      assert ids[c] == d;
    }
  }

  // ---------- All shards ----------

  /** A document: its shard and its number there. */
  type Source = (nat, nat)

  /** A document that may be shown for a query. */
  ghost predicate Answers(docs: seq<seq<Document>>, bits: seq<Bitset>, q: Query, way: Way, f: Source)
    requires |bits| == |docs| && forall s :: 0 <= s < |docs| ==> Terms32(docs[s])
  {
    f.0 < |docs| && f.1 in Asked(docs[f.0], q, way) && f.1 < |docs[f.0]| && MayShow(docs[f.0][f.1].record, bits[f.0], q)
  }

  function RecordAt(docs: seq<seq<Document>>, f: Source): DocRecord
    requires f.0 < |docs| && f.1 < |docs[f.0]|
  {
    docs[f.0][f.1].record
  }

  /** The documents that the candidates of all shards stand for. */
  lemma {:induction false} Sources(docs: seq<seq<Document>>, bits: seq<Bitset>, q: Query, way: Way, candidates: seq<seq<Result>>, n: nat) returns (src: seq<Source>)
    requires |candidates| == |bits| == |docs| >= n && forall s :: 0 <= s < |docs| ==> Terms32(docs[s])
    requires forall s :: 0 <= s < |docs| ==> candidates[s] == Candidates(AskedFor(docs[s], q, way), bits[s], q)
    ensures |src| == |Concat(candidates[..n])| && NoRepeats(src)
    ensures forall i :: 0 <= i < |src| ==>
      src[i].0 < n && Answers(docs, bits, q, way, src[i]) && ShownAs(Concat(candidates[..n])[i], RecordAt(docs, src[i]), q)
    ensures forall f: Source :: f.0 < n && Answers(docs, bits, q, way, f) ==> f in src
  {
    hide AskedFor, Asked, Candidates, MayShow, ShownAs;
    if n == 0 {
      src := [];
    } else {
      var s := n - 1;
      var before := Sources(docs, bits, q, way, candidates, s);
      var ids := ShardDocuments(docs[s], bits[s], q, way);
      assert candidates[..n][..s] == candidates[..s];
      src := before + Map((d: nat) => (s, d), ids);
      InThisShard(ids, s);
    }
  }

  lemma InThisShard(ids: seq<nat>, s: nat)
    ensures var here := Map((d: nat) => (s, d), ids);
      (forall f: Source :: f in here <==> f.0 == s && f.1 in ids) && (NoRepeats(ids) ==> NoRepeats(here))
  {
    var here := Map((d: nat) => (s, d), ids);
    forall d | d in ids ensures (s, d) in here {
      var i :| 0 <= i < |ids| && ids[i] == d;
      assert here[i] == (s, d);
    }
  }

  /** Every result shows the node and the score of a document that is not deleted, of document `from[k].1` of shard `from[k].0`;
      no document is shown twice. */
  ghost predicate Sourced(out: seq<Result>, from: seq<Source>, docs: seq<seq<Document>>, bits: seq<Bitset>, q: Query, way: Way)
    requires |bits| == |docs| && forall s :: 0 <= s < |docs| ==> Terms32(docs[s])
  {
    && |from| == |out| && NoRepeats(from)
    && forall k :: 0 <= k < |out| ==>
      && from[k].0 < |docs| && from[k].1 < |docs[from[k].0]| && from[k].1 in Asked(docs[from[k].0], q, way)
      && var record := RecordAt(docs, from[k]);
      && !Tombstone.IsDeleted(bits[from[k].0], record.doc) && out[k].node == record.node
      && if q.Text? then out[k].bm25f == q.score(record) > 0.0 && out[k].cosine == 0.0 else out[k].cosine == q.score(record) && out[k].bm25f == 0.0
  }

  /** They are the best `max`, best first: a document asked for that is not deleted, and has a positive score if it is a text
      score, is left out only if there are `max` results and none has a lower score. */
  ghost predicate NoneBetter(from: seq<Source>, docs: seq<seq<Document>>, bits: seq<Bitset>, q: Query, way: Way, max: nat)
    requires |bits| == |docs| && forall s :: 0 <= s < |docs| ==> Terms32(docs[s])
    requires forall k :: 0 <= k < |from| ==> from[k].0 < |docs| && from[k].1 < |docs[from[k].0]|
  {
    && |from| <= max
    && (forall k, l :: 0 <= k < l < |from| ==> q.score(RecordAt(docs, from[k])) >= q.score(RecordAt(docs, from[l])))
    && forall f: Source :: f !in from && f.0 < |docs| && f.1 < |docs[f.0]| && f.1 in Asked(docs[f.0], q, way) ==>
      Tombstone.IsDeleted(bits[f.0], RecordAt(docs, f).doc) || (q.Text? && q.score(RecordAt(docs, f)) <= 0.0)
      || (|from| == max && forall k :: 0 <= k < max ==> q.score(RecordAt(docs, f)) <= q.score(RecordAt(docs, from[k])))
  }

  lemma PickedSources(out: seq<Result>, all: seq<Result>, src: seq<Source>, pick: seq<nat>, from: seq<Source>,
                      docs: seq<seq<Document>>, bits: seq<Bitset>, q: Query, way: Way, max: nat)
    requires |bits| == |docs| && forall s :: 0 <= s < |docs| ==> Terms32(docs[s])
    requires |src| == |all| && (forall i :: 0 <= i < |src| ==> Answers(docs, bits, q, way, src[i]) && ShownAs(all[i], RecordAt(docs, src[i]), q))
    requires forall f: Source :: Answers(docs, bits, q, way, f) ==> f in src
    requires Picks(pick, |all|) && |pick| == |out| <= max && from == Picked(pick, src)
    requires forall k :: 0 <= k < |out| ==> Key(all[pick[k]], q.By()) == Key(out[k], q.By())
    requires forall k, l :: 0 <= k < l < |out| ==> Key(out[k], q.By()) >= Key(out[l], q.By())
    requires forall c: nat :: c < |all| && c !in pick ==> |out| == max && forall k :: 0 <= k < max ==> Key(all[c], q.By()) <= Key(out[k], q.By())
    ensures (forall k :: 0 <= k < |from| ==> from[k].0 < |docs| && from[k].1 < |docs[from[k].0]|) && NoneBetter(from, docs, bits, q, way, max)
  {
    hide Asked, ShownAs, Tombstone.IsDeleted, Key;
    forall i | 0 <= i < |all| ensures Key(all[i], q.By()) == q.score(RecordAt(docs, src[i])) {
      KeyOf(all[i], RecordAt(docs, src[i]), q);
    }
    forall f: Source | f !in from && Answers(docs, bits, q, way, f)
      ensures |from| == max && forall k :: 0 <= k < max ==> q.score(RecordAt(docs, f)) <= q.score(RecordAt(docs, from[k]))
    {
      var c: nat :| c < |src| && src[c] == f;
      forall k | 0 <= k < |pick| ensures pick[k] != c {
        assert from[k] in from;
      }
    }
  }

  lemma PickedAreSourced(out: seq<Result>, all: seq<Result>, src: seq<Source>, pick: seq<nat>, from: seq<Source>,
                         docs: seq<seq<Document>>, bits: seq<Bitset>, q: Query, way: Way)
    requires |bits| == |docs| && forall s :: 0 <= s < |docs| ==> Terms32(docs[s])
    requires |src| == |all| && NoRepeats(src)
    requires forall i :: 0 <= i < |src| ==> Answers(docs, bits, q, way, src[i]) && ShownAs(all[i], RecordAt(docs, src[i]), q)
    requires Picks(pick, |all|) && |pick| == |out| && from == Picked(pick, src)
    requires forall k :: 0 <= k < |out| ==>
      out[k].node == all[pick[k]].node && out[k].bm25f == all[pick[k]].bm25f && out[k].cosine == all[pick[k]].cosine
    ensures Sourced(out, from, docs, bits, q, way)
  {
    hide Asked, Tombstone.IsDeleted;
  }

  /** What a ranking of the candidates of all shards shows. */
  lemma RankedAnswers(out: seq<Result>, candidates: seq<seq<Result>>, docs: seq<seq<Document>>, bits: seq<Bitset>, q: Query, way: Way, max: nat)
    returns (from: seq<Source>)
    requires |candidates| == |bits| == |docs| && forall s :: 0 <= s < |docs| ==> Terms32(docs[s])
    requires forall s :: 0 <= s < |docs| ==> candidates[s] == Candidates(AskedFor(docs[s], q, way), bits[s], q)
    requires Ranked(BareAll(out), Concat(candidates), max, q.By())
    ensures Sourced(out, from, docs, bits, q, way) && NoneBetter(from, docs, bits, q, way, max)
  {
    hide Ranked, Candidates, AskedFor, Answers, Concat, Sourced, NoneBetter, ShownAs;
    var all := Concat(candidates);
    assert candidates[..|docs|] == candidates;
    var src := Sources(docs, bits, q, way, candidates, |docs|);
    var pick := RankingPicks(BareAll(out), all, max, q.By());
    from := Picked(pick, src);
    InRange(docs, bits, q, way);
    PickedAreSourced(out, all, src, pick, from, docs, bits, q, way);
    PickedSources(BareAll(out), all, src, pick, from, docs, bits, q, way, max);
  }

  lemma InRange(docs: seq<seq<Document>>, bits: seq<Bitset>, q: Query, way: Way)
    requires |bits| == |docs| && forall s :: 0 <= s < |docs| ==> Terms32(docs[s])
    ensures forall f: Source :: Answers(docs, bits, q, way, f) ==> f.0 < |docs| && f.1 < |docs[f.0]|
  {}

  // ---------- One entry per node ----------

  ghost function WitnessOf(m: Result, found: seq<Result>): (k: nat)
    requires Lowest(m, found)
    ensures k < |found| && found[k].node == m.node && found[k].cosine == m.cosine
  {
    var k :| 0 <= k < |found| && found[k].node == m.node && found[k].cosine == m.cosine; k
  }

  lemma Witnesses(out: seq<Result>, found: seq<Result>) returns (pick: seq<nat>)
    requires DistinctNodes(out) && forall k :: 0 <= k < |out| ==> Lowest(out[k], found)
    ensures Picks(pick, |found|) && |pick| == |out|
    ensures forall k :: 0 <= k < |out| ==> found[pick[k]].node == out[k].node && found[pick[k]].cosine == out[k].cosine
  {
    hide Lowest;
    pick := seq(|out|, k requires 0 <= k < |out| => WitnessOf(out[k], found));
    var nodes := Nodes(out);
    forall k, l | 0 <= k < l < |out| ensures pick[k] != pick[l] {
      assert nodes[k] != nodes[l];
    }
  }

  lemma CutDistinct(sorted: seq<Result>, found: seq<Result>, n: nat)
    requires LowestPerNode(sorted, found) && n <= |sorted|
    ensures DistinctNodes(sorted[..n]) && forall k :: 0 <= k < n ==> Lowest(sorted[..n][k], found)
    ensures forall k, l :: 0 <= k < l < n ==> sorted[k].cosine >= sorted[l].cosine
  {
    hide Lowest;
    assert Nodes(sorted[..n]) == Nodes(sorted)[..n];
    var scores := Scores(sorted, Cosine);
    assert forall k, l :: 0 <= k < l < n ==> scores[k] >= scores[l];
  }

  /** Vector candidates have no text score. */
  lemma NoTextScores(out: seq<Result>, found: seq<Result>, all: seq<Result>)
    requires multiset(found) <= multiset(all) && (forall i :: 0 <= i < |all| ==> all[i].bm25f == 0.0)
    requires forall k :: 0 <= k < |out| ==> Lowest(out[k], found)
    ensures forall k :: 0 <= k < |out| ==> out[k].bm25f == 0.0
  {
    forall k | 0 <= k < |out| ensures out[k].bm25f == 0.0 {
      assert Lowest(out[k], found);
      var j :| 0 <= j < |found| && found[j].node == out[k].node && found[j].bm25f == out[k].bm25f;
      assert found[j] in multiset(all);
    }
  }

  /** What a vector search shows, whether or not nodes repeat; it shows the best exactly if `ShowsTop`. */
  lemma VectorAnswers(sorted: seq<Result>, out: seq<Result>, parts: seq<seq<Result>>, candidates: seq<seq<Result>>, docs: seq<seq<Document>>,
                      bits: seq<Bitset>, q: Query, way: Way, max: nat) returns (from: seq<Source>)
    requires |candidates| == |bits| == |docs| && forall s :: 0 <= s < |docs| ==> Terms32(docs[s])
    requires forall s :: 0 <= s < |docs| ==> candidates[s] == Candidates(AskedFor(docs[s], q, way), bits[s], q)
    requires q.Vector? && AllRanked(parts, candidates, MAX_RESULTS_PER_SHARD, Cosine) && max <= MAX_RESULTS_PER_SHARD
    requires LowestPerNode(sorted, Concat(parts)) && out == sorted[..Min(max, |sorted|)]
    ensures Sourced(out, from, docs, bits, q, way)
    ensures ShowsTop(Concat(parts), max) ==> NoneBetter(from, docs, bits, q, way, max)
  {
    hide AllRanked, Candidates, AskedFor, Answers, Concat, Sourced, NoneBetter, ShownAs, ShowsTop, LowestPerNode, Lowest, TopScores;
    var found, all := Concat(parts), Concat(candidates);
    assert candidates[..|docs|] == candidates;
    var src := Sources(docs, bits, q, way, candidates, |docs|);
    ConcatKeepsMembers(parts, candidates, MAX_RESULTS_PER_SHARD, Cosine);
    var places := PickFrom(found, all);
    CutDistinct(sorted, found, |out|);
    var chosen := Witnesses(out, found);
    var pick := Picked(chosen, places);
    from := Picked(pick, src);
    InRange(docs, bits, q, way);
    TextScoresZero(all, src, docs, q);
    NoTextScores(out, found, all);
    assert forall i :: 0 <= i < |found| ==> found[i] == all[places[i]];
    PickedAreSourced(out, all, src, pick, from, docs, bits, q, way);
    if ShowsTop(found, max) {
      BestExactly(sorted, parts, candidates, max);
      TopPicks(out, all, pick, max, Cosine);
      PickedSources(out, all, src, pick, from, docs, bits, q, way, max);
    } else {
      SourcesInRange(out, from, docs, bits, q, way);
    }
  }

  lemma TextScoresZero(all: seq<Result>, src: seq<Source>, docs: seq<seq<Document>>, q: Query)
    requires q.Vector? && |src| == |all|
    requires forall i :: 0 <= i < |src| ==> src[i].0 < |docs| && src[i].1 < |docs[src[i].0]| && ShownAs(all[i], RecordAt(docs, src[i]), q)
    ensures forall i :: 0 <= i < |all| ==> all[i].bm25f == 0.0
  {}

  lemma SourcesInRange(out: seq<Result>, from: seq<Source>, docs: seq<seq<Document>>, bits: seq<Bitset>, q: Query, way: Way)
    requires |bits| == |docs| && forall s :: 0 <= s < |docs| ==> Terms32(docs[s])
    requires Sourced(out, from, docs, bits, q, way)
    ensures forall k :: 0 <= k < |from| ==> from[k].0 < |docs| && from[k].1 < |docs[from[k].0]|
  {}
}
