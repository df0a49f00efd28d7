/** The lists the phrase search of src/inverted_index.c merges, and the candidates it draws from them. */
module Phrase {
  import opened Bytes
  import opened Pages
  import opened LeafChain
  import opened PostingChain
  import opened Documents
  import opened Ranking
  import opened Common
  import opened Sequences
  import opened Queries
  import opened Search
  import MergeJoin

  // ---------- The newest page of a term ----------

  /** The postings on the newest page of a term: all other pages are full. */
  function Recent(list: seq<Posting>): seq<Posting> {
    if list == [] then [] else list[MAX_POSTINGS * ((|list| - 1) / MAX_POSTINGS)..]
  }

  lemma {:induction false} FullPages(view: View, term: int, pages: seq<int>)
    requires PostLinked(view, term, pages) && |pages| > 0
    ensures |Chronological(view, pages[1..])| == MAX_POSTINGS * (|pages| - 1)
  {
    if |pages| > 1 {
      var rest := pages[1..];
      RestLinked(view, term, pages);
      FullPages(view, term, rest);
      NextPosting(view, term, pages, 0);
      assert rest[0] == pages[1];
    }
  }

  lemma LinkAt(view: View, term: int, pages: seq<int>, k: nat)
    requires PostLinked(view, term, pages) && k + 1 < |pages|
    ensures pages[k] in view && view[pages[k]].Postings? && pages[k + 1] in view && view[pages[k + 1]].Postings?
    ensures view[pages[k]].next == pages[k + 1] < pages[k] && |view[pages[k + 1]].postings| == MAX_POSTINGS
  {
    var p, q := view[pages[k]], view[pages[k + 1]];
  }

  lemma RestLinked(view: View, term: int, pages: seq<int>)
    requires PostLinked(view, term, pages) && |pages| > 1
    ensures PostLinked(view, term, pages[1..]) && |view[pages[1]].postings| == MAX_POSTINGS
  {
    var rest := pages[1..];
    LinkAt(view, term, pages, 0);
    assert AllPostings(view, term, rest);
    forall i, j {:trigger view[rest[i]], view[rest[j]]} | 0 <= i < |rest| && j == i + 1 < |rest|
      ensures view[rest[i]].next == rest[j] < rest[i] && |view[rest[j]].postings| == MAX_POSTINGS
    {
      LinkAt(view, term, pages, i + 1);
    }
  }

  lemma WholePages(n: nat, k: nat, last: nat)
    requires 1 <= last <= MAX_POSTINGS && n == MAX_POSTINGS * k + last
    ensures (n - 1) / MAX_POSTINGS == k
  {
    var q := (n - 1) / 92;
    assert 92 * q <= n - 1 < 92 * q + 92;
    assert 92 * k <= n - 1 < 92 * k + 92;
  }

  /** The list a walk of the chain returns starts with the newest page, and what follows is older. */
  lemma NewestIsFront(view: View, term: int, pages: seq<int>, max: nat, n: int)
    requires PostLinked(view, term, pages) && |pages| > 0 && max >= MAX_POSTINGS
    requires AscendingBelow(Chronological(view, pages), n)
    ensures MergeJoin.FrontFirst(Take(NewestFirst(view, pages), max), Recent(Chronological(view, pages)))
  {
    hide Recent, Take, AscendingBelow;
    Parts(view, term, pages);
    hide PostLinked, Chronological, NewestFirst;
    OlderBehind(view[pages[0]].postings, Chronological(view, pages[1..]), NewestFirst(view, pages[1..]), max, n);
  }

  /** Both lists of a chain, split at its newest page. */
  lemma Parts(view: View, term: int, pages: seq<int>)
    requires PostLinked(view, term, pages) && |pages| > 0
    ensures pages[0] in view && view[pages[0]].Postings? && AllPostings(view, term, pages[1..])
    ensures var front, older, behind := view[pages[0]].postings, Chronological(view, pages[1..]), NewestFirst(view, pages[1..]);
      && Chronological(view, pages) == older + front && NewestFirst(view, pages) == front + behind
      && front != [] && |front| <= MAX_POSTINGS && multiset(behind) == multiset(older) && Recent(older + front) == front
  {
    assert pages[0] in view && view[pages[0]].Postings?;
    var front, older := view[pages[0]].postings, Chronological(view, pages[1..]);
    FullPages(view, term, pages);
    SamePostings(view, pages[1..]);
    RecentIsHead(older, front, |pages| - 1);
    hide Recent;
  }

  lemma RecentIsHead(older: seq<Posting>, front: seq<Posting>, k: nat)
    requires |older| == MAX_POSTINGS * k && 1 <= |front| <= MAX_POSTINGS
    ensures Recent(older + front) == front
  {
    WholePages(|older + front|, k, |front|);
  }

  lemma OlderBehind(front: seq<Posting>, older: seq<Posting>, behind: seq<Posting>, max: nat, n: int)
    requires multiset(behind) == multiset(older) && AscendingBelow(older + front, n) && front != [] && |front| <= max
    ensures MergeJoin.FrontFirst(Take(front + behind, max), front)
  {
    var list := Take(front + behind, max);
    assert front <= list;
    forall i, j | 0 <= i < j < |front| ensures front[i].doc < front[j].doc {
      assert (older + front)[|older| + i] == front[i] && (older + front)[|older| + j] == front[j];
    }
    forall j | |front| <= j < |list| ensures list[j].doc < front[0].doc {
      var p := behind[j - |front|];
      assert list[j] == p;
      assert p in multiset(older);
      var k :| 0 <= k < |older| && older[k] == p;
      assert (older + front)[k] == p && (older + front)[|older|] == front[0];
    }
  }

  /** The list of a term ascends exactly if the term fits one page. */
  lemma AscendsIffOnePage(view: View, term: int, pages: seq<int>, n: int)
    requires PostLinked(view, term, pages) && |pages| > 0 && AscendingBelow(Chronological(view, pages), n)
    ensures AscendingBelow(NewestFirst(view, pages), n) <==> |Chronological(view, pages)| <= MAX_POSTINGS
  {
    OnePage(view, term, pages);
    SamePostings(view, pages);
    SameLength(Chronological(view, pages), NewestFirst(view, pages));
    if |pages| == 1 {
      assert pages[1..] == [];
      assert NewestFirst(view, pages) == Chronological(view, pages);
    } else {
      var list := NewestFirst(view, pages);
      NewestIsFront(view, term, pages, |list|, n);
      FullPages(view, term, pages);
      assert |Recent(Chronological(view, pages))| < |list|;
      var front := Recent(Chronological(view, pages));
      assert list[|front|].doc < list[0].doc;
    }
  }

  // ---------- The search ----------

  lemma SelectedNamed(docs: seq<Document>, fronts: seq<seq<Posting>>, k: nat)
    requires |fronts| > 0 && k <= |fronts[0]| && Named(docs, fronts[0])
    ensures Named(docs, MergeJoin.Selected(fronts, k))
  {
    hide MergeJoin.Selected, MergeJoin.Matches;
    forall p | p in MergeJoin.Selected(fronts, k) ensures p.doc < |docs| {
      MergeJoin.SelectedExactly(fronts, k, p);
      assert p in fronts[0];
    }
  }

  /** The candidates among the first `k` postings of the first front. */
  ghost function Chosen(docs: seq<Document>, fronts: seq<seq<Posting>>, k: nat, bits: Bitset, q: Query): seq<Result>
    requires |fronts| > 0 && k <= |fronts[0]| && Named(docs, fronts[0])
  {
    SelectedNamed(docs, fronts, k);
    Candidates(RecordsOf(docs, MergeJoin.Selected(fronts, k)), bits, q)
  }

  lemma ChosenNext(docs: seq<Document>, fronts: seq<seq<Posting>>, k: nat, bits: Bitset, q: Query)
    requires |fronts| > 0 && k < |fronts[0]| && Named(docs, fronts[0])
    ensures fronts[0][k].doc < |docs|
    ensures Chosen(docs, fronts, k + 1, bits, q) == Chosen(docs, fronts, k, bits, q)
      + if MergeJoin.Matches(fronts, fronts[0][k].doc) then OneCandidate(docs[fronts[0][k].doc].record, bits, q) else []
  {
    hide MergeJoin.Matches, Wanted;
    var p := fronts[0][k];
    assert p in fronts[0];
    SelectedNamed(docs, fronts, k);
    SelectedNamed(docs, fronts, k + 1);
    if MergeJoin.Matches(fronts, p.doc) {
      var list := MergeJoin.Selected(fronts, k);
      assert MergeJoin.Selected(fronts, k + 1) == list + [p];
      assert (list + [p])[..|list| + 1] == list + [p] && (list + [p])[..|list|] == list;
      NextCandidate(docs, list + [p], |list|, bits, q);
    } else {
      assert MergeJoin.Selected(fronts, k + 1) == MergeJoin.Selected(fronts, k);
    }
  }

  /** The postings of the newest pages of several terms. */
  ghost function Newest(docs: seq<Document>, places: seq<Place>, terms: seq<u32>): (fronts: seq<seq<Posting>>)
    requires |places| == |docs| && Terms32(docs)
    ensures |fronts| == |terms| && forall i :: 0 <= i < |terms| ==> fronts[i] == Recent(Expected(docs, places, terms[i]))
  {
    seq(|terms|, i requires 0 <= i < |terms| => Recent(Expected(docs, places, terms[i])))
  }

  lemma RecentIsPart(list: seq<Posting>)
    ensures forall p :: p in Recent(list) ==> p in list
    ensures Recent(list) == [] <==> list == []
  {}

  lemma NewestNamed(docs: seq<Document>, places: seq<Place>, term: int)
    requires |places| == |docs| && Terms32(docs)
    ensures Named(docs, Recent(Expected(docs, places, term)))
  {
    ExpectedLeads(docs, places, term);
    RecentIsPart(Expected(docs, places, term));
  }

  /** The candidates of a phrase of at least two terms. */
  ghost function PhraseCandidates(docs: seq<Document>, places: seq<Place>, terms: seq<u32>, bits: Bitset, q: Query): seq<Result>
    requires |places| == |docs| && Terms32(docs) && |terms| > 0
  {
    NewestNamed(docs, places, terms[0]);
    var fronts := Newest(docs, places, terms);
    Chosen(docs, fronts, |fronts[0]|, bits, q)
  }

  lemma {:induction false} EmptyFront(fronts: seq<seq<Posting>>, i: nat, k: nat)
    requires i < |fronts| && fronts[i] == [] && k <= |fronts[0]|
    ensures MergeJoin.Selected(fronts, k) == []
  {
    if k > 0 {
      EmptyFront(fronts, i, k - 1);
      MergeJoin.NoMatch(fronts, i, fronts[0][k - 1].doc);
    }
  }

  lemma NoPhrase(docs: seq<Document>, places: seq<Place>, terms: seq<u32>, i: nat, bits: Bitset, q: Query)
    requires |places| == |docs| && Terms32(docs) && i < |terms| && Expected(docs, places, terms[i]) == []
    ensures PhraseCandidates(docs, places, terms, bits, q) == []
  {
    hide Expected;
    var fronts := Newest(docs, places, terms);
    EmptyFront(fronts, i, |fronts[0]|);
    NewestNamed(docs, places, terms[0]);
    assert RecordsOf(docs, MergeJoin.Selected(fronts, |fronts[0]|)) == [];
  }
}
