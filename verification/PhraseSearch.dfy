/** The phrase search of src/inverted_index.c over the shard: its lists, its merge and its ranking. */
module PhraseSearch {
  import opened Bytes
  import opened Pages
  import opened PoolState
  import opened LeafChain
  import opened PostingChain
  import opened Documents
  import opened DataPages
  import opened InvertedIndex
  import opened Shard
  import opened Ranking
  import opened Common
  import opened Sequences
  import opened Queries
  import opened Search
  import opened Phrase
  import opened PhraseMeaning
  import MergeJoin
  import BufferPool

  /** The loop over the first list. */
  method MergeLists(pool: BufferPool.Pool, lists: seq<seq<Posting>>, q: Query, results: array<Result>, max: nat,
                    ghost fronts: seq<seq<Posting>>, ghost docs: seq<Document>) returns (count: nat)
    requires pool.Valid() && Quiet(pool.state) && HasTombstones(pool.state.view) && 0 < max <= results.Length
    requires MergeJoin.Fronts(lists, fronts) && Leads(pool.state.view, docs, lists[0]) && Named(docs, fronts[0])
    modifies pool, pool.frames, pool.wal, results
    ensures pool.Valid() && Quiet(pool.state) && Seen(old(pool.state), pool.state) && count <= max
    ensures Best(results[..count], Chosen(docs, fronts, |fronts[0]|, TombstoneBits(pool.state.view), q), max, q.By())
    ensures pool.peak <= if old(pool.peak) > 2 then old(pool.peak) else 2
  {
    hide State.Inv, BufferPool.Pool.Valid, Best, HasTombstones, Kept, OneCandidate, MergeJoin.FrontFirst, MergeJoin.Aligned,
      MergeJoin.Matches, MergeJoin.PhraseAt, MergeJoin.SameDocument, Chosen, Leads, Named, Holds;
    ghost var view, bits := pool.state.view, TombstoneBits(pool.state.view);
    SeenNothing(pool.state);
    var cursors := new nat[|lists|](_ => 0);
    assert cursors[..] == seq(|lists|, _ => 0);
    MergeJoin.StartsAligned(lists, fronts);
    NothingChosen(docs, fronts, bits, q);
    BestEmpty(max, q.By());
    count := 0;
    assert results[..count] == [];
    while cursors[0] < |lists[0]|
      invariant MergeJoin.Aligned(lists, fronts, cursors[..], cursors[0]) && cursors[0] <= |lists[0]|
      invariant count <= max && pool.Valid() && Quiet(pool.state) && Seen(old(pool.state), pool.state) && pool.state.view == view
      invariant Best(results[..count], Chosen(docs, fronts, Min(cursors[0], |fronts[0]|), bits, q), max, q.By())
      invariant pool.peak <= if old(pool.peak) > 2 then old(pool.peak) else 2
      decreases |lists[0]| - cursors[0]
    {
      ghost var s := pool.state;
      count := MergeOne(pool, lists, q, cursors, results, count, max, fronts, docs);
      SeenTwice(old(pool.state), s, pool.state);
      ghost var cs: seq<nat> := cursors[..];
      cursors[0] := cursors[0] + 1;
      assert cursors[..] == cs[0 := cs[0] + 1];
    }
    FrontIsShorter(lists, fronts);
  }

  lemma FrontIsShorter(lists: seq<seq<Posting>>, fronts: seq<seq<Posting>>)
    requires MergeJoin.Fronts(lists, fronts)
    ensures |fronts[0]| <= |lists[0]|
    ensures forall n :: 0 <= n < |fronts[0]| ==> lists[0][n] == fronts[0][n]
  {
    assert MergeJoin.FrontFirst(lists[0], fronts[0]);
  }

  lemma NothingChosen(docs: seq<Document>, fronts: seq<seq<Posting>>, bits: Bitset, q: Query)
    requires |fronts| > 0 && Named(docs, fronts[0])
    ensures Chosen(docs, fronts, 0, bits, q) == []
  {}

  lemma LeadsTo(view: View, docs: seq<Document>, list: seq<Posting>, i: nat)
    requires Leads(view, docs, list) && i < |list|
    ensures list[i].doc < |docs| && list[i].page != INVALID
    ensures Holds(view, Place(list[i].page, list[i].slot), docs[list[i].doc].record)
  {
    assert list[i] in list;
  }

  /** One posting of the first list: aligned with the other terms, checked for the phrase, offered to the results. */
  method MergeOne(pool: BufferPool.Pool, lists: seq<seq<Posting>>, q: Query, cursors: array<nat>, results: array<Result>, count: nat, max: nat,
                  ghost fronts: seq<seq<Posting>>, ghost docs: seq<Document>) returns (count': nat)
    requires pool.Valid() && Quiet(pool.state) && HasTombstones(pool.state.view)
    requires MergeJoin.Fronts(lists, fronts) && Leads(pool.state.view, docs, lists[0]) && Named(docs, fronts[0])
    requires cursors.Length == |lists| && cursors[0] < |lists[0]| && MergeJoin.Aligned(lists, fronts, cursors[..], cursors[0])
    requires 0 < max <= results.Length && count <= max
    requires Best(results[..count], Chosen(docs, fronts, Min(cursors[0], |fronts[0]|), TombstoneBits(pool.state.view), q), max, q.By())
    modifies pool, pool.frames, pool.wal, results, cursors
    ensures pool.Valid() && Quiet(pool.state) && Seen(old(pool.state), pool.state) && count' <= max
    ensures cursors[0] == old(cursors[0])
    ensures MergeJoin.Aligned(lists, fronts, cursors[..][0 := cursors[0] + 1], cursors[0] + 1)
    ensures Best(results[..count'], Chosen(docs, fronts, Min(cursors[0] + 1, |fronts[0]|), TombstoneBits(pool.state.view), q), max, q.By())
    ensures pool.peak <= if old(pool.peak) > 2 then old(pool.peak) else 2
  {
    hide State.Inv, BufferPool.Pool.Valid, Best, HasTombstones, Kept, OneCandidate, MergeJoin.FrontFirst, MergeJoin.Aligned,
      MergeJoin.Matches, MergeJoin.PhraseAt, MergeJoin.SameDocument, Chosen, Leads, Named, Holds;
    ghost var n: nat := cursors[0];
    ghost var bits := TombstoneBits(pool.state.view);
    SeenNothing(pool.state);
    LeadsTo(pool.state.view, docs, lists[0], n);
    FrontIsShorter(lists, fronts);
    if n < |fronts[0]| {
      ChosenNext(docs, fronts, n, bits, q);
      assert Chosen(docs, fronts, n, bits, q) + [] == Chosen(docs, fronts, n, bits, q);
    }
    count' := count;
    var found := MergeJoin.AlignCursors(lists, cursors, fronts);
    if found {
      var ps := MergeJoin.Current(lists, cursors[..]);
      MergeJoin.MatchIs(lists, fronts, ps, lists[0][n].doc);
      var phrase := MergeJoin.PositionsMatch(ps);
      if phrase {
        count' := ConsiderPosting(pool, ps[0], docs[lists[0][n].doc].record, q, results, count, max, Chosen(docs, fronts, n, bits, q));
      }
    }
  }

  /** The postings of a term as the search reads them. */
  method ReadList(shard: Shard, term: u32) returns (list: seq<Posting>)
    requires shard.Valid()
    modifies shard.index.tree.pool, shard.index.tree.pool.frames, shard.index.tree.pool.wal
    ensures shard.Valid() && Seen(old(shard.index.tree.pool.state), shard.index.tree.pool.state)
    ensures Leads(shard.index.tree.pool.state.view, shard.docs, list)
    ensures list != [] ==> MergeJoin.FrontFirst(list, Recent(Expected(shard.docs, shard.places, term)))
    ensures list == [] ==> Expected(shard.docs, shard.places, term) == []
    ensures shard.index.tree.pool.peak <= if old(shard.index.tree.pool.peak) > 1 then old(shard.index.tree.pool.peak) else 1
  {
    hide State.Inv, BufferPool.Pool.Valid, TreeInv, Flat, IndexInv, DataInv, Covered, Expected, Kept, FlatData, Records, HasTombstones,
      Matching, RecordsOf, NewestFirst, Chronological, Leads, Recent, MergeJoin.FrontFirst, Take, PostLinked, AscendingBelow;
    shard.Facts();
    ListShape(shard.index.tree.pool.state.view, shard.index.posts, shard.index.tree.Entries(), |shard.index.tree.pool.state.disk|,
              shard.docs, shard.places, term);
    list := TermPostings(shard, term);
  }

  lemma ListShape(view: View, posts: map<int, seq<int>>, entries: seq<Entry>, size: int, docs: seq<Document>, places: seq<Place>, term: int)
    requires IndexInv(view, posts, entries, size) && |places| == |docs| && Terms32(docs)
    requires IndexOf(view, posts, term) == Expected(docs, places, term)
    ensures var list := if term in posts then NewestFirst(view, posts[term]) else [];
      var taken := Take(list, MAX_POSTINGS_READ);
      if taken == [] then Expected(docs, places, term) == []
      else MergeJoin.FrontFirst(taken, Recent(Expected(docs, places, term)))
  {
    hide Chronological, NewestFirst, Expected, Lookup, Recent, MergeJoin.FrontFirst;
    ExpectedAscends(docs, places, term);
    IndexLists(view, posts, entries, size, term);
    if term in posts {
      hide PostLinked;
      NewestIsFront(view, term, posts[term], MAX_POSTINGS_READ, |docs|);
      ListsEmpty(view, posts[term]);
    }
  }

  lemma ListsEmpty(view: View, pages: seq<int>)
    requires forall k :: 0 <= k < |pages| ==> pages[k] in view && view[pages[k]].Postings?
    ensures NewestFirst(view, pages) == [] <==> Chronological(view, pages) == []
  {
    SamePostings(view, pages);
    SameLength(NewestFirst(view, pages), Chronological(view, pages));
  }

  /** The list starts with the newest page of the term and leads to its documents. */
  ghost predicate Usable(view: View, docs: seq<Document>, places: seq<Place>, list: seq<Posting>, term: int)
    requires |places| == |docs| && Terms32(docs)
  {
    MergeJoin.FrontFirst(list, Recent(Expected(docs, places, term))) && Leads(view, docs, list)
  }

  /** The lists of all terms; `missing` if one of them is empty. */
  method ReadLists(shard: Shard, terms: seq<u32>) returns (lists: seq<seq<Posting>>, missing: bool)
    requires shard.Valid()
    modifies shard.index.tree.pool, shard.index.tree.pool.frames, shard.index.tree.pool.wal
    ensures shard.Valid() && Seen(old(shard.index.tree.pool.state), shard.index.tree.pool.state)
    ensures |shard.places| == |shard.docs| && Terms32(shard.docs)
    ensures missing ==> exists i :: 0 <= i < |terms| && Expected(shard.docs, shard.places, terms[i]) == []
    ensures !missing ==> |lists| == |terms|
    ensures !missing ==> forall i :: 0 <= i < |terms| ==> Usable(shard.index.tree.pool.state.view, shard.docs, shard.places, lists[i], terms[i])
    ensures shard.index.tree.pool.peak <= if old(shard.index.tree.pool.peak) > 1 then old(shard.index.tree.pool.peak) else 1
  {
    hide Shard.Valid, Shard.Storage, Index.Valid, Leads, Recent, Expected, MergeJoin.FrontFirst, Kept, Terms32, Usable;
    shard.Facts();
    ghost var view := shard.index.tree.pool.state.view;
    lists, missing := [], false;
    SeenNothing(shard.index.tree.pool.state);
    for i := 0 to |terms|
      invariant shard.Valid() && Seen(old(shard.index.tree.pool.state), shard.index.tree.pool.state)
      invariant shard.index.tree.pool.state.view == view
      invariant |lists| == i && forall j :: 0 <= j < i ==> Usable(view, shard.docs, shard.places, lists[j], terms[j])
      invariant shard.index.tree.pool.peak <= if old(shard.index.tree.pool.peak) > 1 then old(shard.index.tree.pool.peak) else 1
    {
      ghost var s := shard.index.tree.pool.state;
      var list := ReadList(shard, terms[i]);
      SeenTwice(old(shard.index.tree.pool.state), s, shard.index.tree.pool.state);
      if list == [] {
        missing := true;
        return;
      }
      ListUsable(view, shard.docs, shard.places, list, terms[i]);
      lists := lists + [list];
    }
  }

  lemma ListUsable(view: View, docs: seq<Document>, places: seq<Place>, list: seq<Posting>, term: int)
    requires |places| == |docs| && Terms32(docs)
    requires MergeJoin.FrontFirst(list, Recent(Expected(docs, places, term))) && Leads(view, docs, list)
    ensures Usable(view, docs, places, list, term)
  {}

  /** shard_search_phrase_indexed: the best `max` live documents among those the merge join selects. */
  method SearchPhrase(shard: Shard, terms: seq<u32>, q: Query, results: array<Result>, max: nat) returns (count: nat, ghost ids: seq<nat>)
    requires shard.Valid() && q.Text? && 0 < max <= results.Length
    modifies shard.index.tree.pool, shard.index.tree.pool.frames, shard.index.tree.pool.wal, results
    ensures shard.Valid() && Seen(old(shard.index.tree.pool.state), shard.index.tree.pool.state) && count <= max
    ensures |shard.places| == |shard.docs| && Terms32(shard.docs)
    ensures |terms| == 0 ==> count == 0
    ensures |terms| == 1 ==>
      var list := Take(shard.index.NewestFirstOf(terms[0]), 1_000_000);
      && Named(shard.docs, list) && Ranked(results[..count], Candidates(RecordsOf(shard.docs, list), shard.Bits(), q), max, Bm25f)
      && BestNamed(results[..count], ids, shard.docs, Names(list), shard.Bits(), q, max)
    ensures |terms| == 1 && |shard.index.Postings(terms[0])| <= 1_000_000 ==>
      && Ranked(results[..count], Candidates(Matching(shard.docs, terms[0]), shard.Bits(), q), max, Bm25f)
      && BestNamed(results[..count], ids, shard.docs, Containing(shard.docs, terms[0]), shard.Bits(), q, max)
    ensures |terms| >= 2 ==>
      && Ranked(results[..count], Candidates(PhraseRecords(shard.docs, terms, |shard.docs|), shard.Bits(), q), max, Bm25f)
      && BestNamed(results[..count], ids, shard.docs, Finding(shard.docs, terms), shard.Bits(), q, max)
    ensures LiveResults(results[..count], ids, shard.docs, shard.Bits(), q)
    ensures shard.index.tree.pool.peak <= if old(shard.index.tree.pool.peak) > 2 then old(shard.index.tree.pool.peak) else 2
  {
    hide *;
    shard.Facts();
    SeenNothing(shard.index.tree.pool.state);
    ids := [];
    if |terms| == 0 {
      NoResults(results[..0], shard.docs, shard.Bits(), q);
      return 0, [];
    }
    if |terms| == 1 {
      count, ids := SearchIndexed(shard, terms[0], q, results, max);
      return;
    }
    count := MergeTerms(shard, terms, q, results, max);
    shard.Facts();
    ids := BestFound(results[..count], shard.docs, terms, shard.Bits(), q, max);
  }

  lemma NoResults(none: seq<Result>, docs: seq<Document>, bits: Bitset, q: Query)
    requires none == []
    ensures LiveResults(none, [], docs, bits, q)
  {}

  lemma BestFound(out: seq<Result>, docs: seq<Document>, terms: seq<u32>, bits: Bitset, q: Query, max: nat) returns (ids: seq<nat>)
    requires |terms| > 0 && Terms32(docs) && q.Text? && Ranked(out, Candidates(PhraseRecords(docs, terms, |docs|), bits, q), max, Bm25f)
    ensures BestNamed(out, ids, docs, Finding(docs, terms), bits, q, max) && LiveResults(out, ids, docs, bits, q)
  {
    hide Ranked, Candidates, PhraseRecords, Records, ShowsBest, LiveResults, LiveShown, Finds;
    RecordsThenMore(docs, []);
    var rs, found := PhraseRecords(docs, terms, |docs|), Finding(docs, terms);
    assert Records(docs) + [] == Records(docs);
    var first := RankedShowsBest(out, rs, bits, q, max);
    var which := FoundDocuments(docs, terms, |docs|);
    ids := AmongMore(out, first, rs, which, Records(docs), found, bits, q, max);
    BestIsLive(out, ids, docs, [], found, bits, q, max);
  }

  /** The phrase search for at least two terms. */
  method MergeTerms(shard: Shard, terms: seq<u32>, q: Query, results: array<Result>, max: nat) returns (count: nat)
    requires shard.Valid() && q.Text? && 0 < max <= results.Length && |terms| >= 2
    modifies shard.index.tree.pool, shard.index.tree.pool.frames, shard.index.tree.pool.wal, results
    ensures shard.Valid() && Seen(old(shard.index.tree.pool.state), shard.index.tree.pool.state) && count <= max
    ensures |shard.places| == |shard.docs| && Terms32(shard.docs)
    ensures Ranked(results[..count], Candidates(PhraseRecords(shard.docs, terms, |shard.docs|), shard.Bits(), q), max, Bm25f)
    ensures shard.index.tree.pool.peak <= if old(shard.index.tree.pool.peak) > 2 then old(shard.index.tree.pool.peak) else 2
  {
    hide PhraseRecords, Shard.Valid, Shard.Storage, Index.Valid, Leads, Recent, Expected, MergeJoin.FrontFirst, Kept, Terms32, Ranked, PhraseCandidates, Candidates, Named, Chosen,
      HasTombstones, Index.Postings;
    shard.Facts();
    CandidatesOfFound(shard.docs, shard.places, terms, shard.Bits(), q);
    var lists, missing := ReadLists(shard, terms);
    ghost var s := shard.index.tree.pool.state;
    if missing {
      ghost var i :| 0 <= i < |terms| && Expected(shard.docs, shard.places, terms[i]) == [];
      shard.Facts();
      NoPhrase(shard.docs, shard.places, terms, i, shard.Bits(), q);
      NothingRanked(results[..0], max);
      return 0;
    }
    count := RankPhrase(shard, lists, terms, q, results, max);
    SeenTwice(old(shard.index.tree.pool.state), s, shard.index.tree.pool.state);
  }

  lemma NothingRanked(none: seq<Result>, max: nat)
    requires none == []
    ensures Ranked(none, [], max, Bm25f)
  {
    BestEmpty(max, Bm25f);
  }

  /** The merge and the sort. */
  method RankPhrase(shard: Shard, lists: seq<seq<Posting>>, ghost terms: seq<u32>, q: Query, results: array<Result>, max: nat) returns (count: nat)
    requires shard.Valid() && q.Text? && 0 < max <= results.Length && |lists| == |terms| >= 2
    requires |shard.places| == |shard.docs| && Terms32(shard.docs)
    requires forall i :: 0 <= i < |terms| ==> Usable(shard.index.tree.pool.state.view, shard.docs, shard.places, lists[i], terms[i])
    modifies shard.index.tree.pool, shard.index.tree.pool.frames, shard.index.tree.pool.wal, results
    ensures shard.Valid() && Seen(old(shard.index.tree.pool.state), shard.index.tree.pool.state) && count <= max
    ensures Ranked(results[..count], PhraseCandidates(shard.docs, shard.places, terms, shard.Bits(), q), max, Bm25f)
    ensures shard.index.tree.pool.peak <= if old(shard.index.tree.pool.peak) > 2 then old(shard.index.tree.pool.peak) else 2
  {
    hide State.Inv, BufferPool.Pool.Valid, TreeInv, Flat, IndexInv, DataInv, Covered, Expected, Best, IndexOf, Kept, HasTombstones, Ranked,
      Candidates, Leads, Recent, MergeJoin.FrontFirst, Chosen, Named, Terms32;
    shard.TombstonesThere();
    NewestNamed(shard.docs, shard.places, terms[0]);
    ghost var fronts := Newest(shard.docs, shard.places, terms);
    count := MergeLists(shard.index.tree.pool, lists, q, results, max, fronts, shard.docs);
    SortResults(results, count, max, Bm25f, Chosen(shard.docs, fronts, |fronts[0]|, shard.Bits(), q));
  }
}
