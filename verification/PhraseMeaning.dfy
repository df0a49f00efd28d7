/** Which documents the phrase search finds, in terms of the documents alone. */
module PhraseMeaning {
  import opened Bytes
  import opened Pages
  import opened PostingChain
  import opened Documents
  import opened Queries
  import opened Search
  import opened Sequences
  import opened DataPages
  import opened Phrase
  import MergeJoin

  predicate Contains(terms: Terms, term: int) {
    Positions(Hits(terms), term) != []
  }

  /** In how many documents a term occurs. */
  function Frequency(docs: seq<Document>, term: int): nat
    requires Terms32(docs)
  {
    |Matching(docs, term)|
  }

  /** The document contains the term and no full page of newer postings of the term separates it from the newest page:
      the documents before it that contain the term fill all pages but the newest. */
  predicate OnNewestPage(docs: seq<Document>, term: int, d: nat)
    requires Terms32(docs)
  {
    && d < |docs| && Contains(docs[d].terms, term)
    && MAX_POSTINGS * ((Frequency(docs, term) - 1) / MAX_POSTINGS) <= Frequency(docs[..d], term)
  }

  predicate StoredAt(terms: Terms, phrase: seq<u32>, s: u32) {
    forall i :: 1 <= i < |phrase| ==> ((s as int + i) % 0x1_0000_0000) in FirstEight(Positions(Hits(terms), phrase[i]))
  }

  /** The phrase shows in the stored positions, of which there are at most eight per term. */
  predicate Stored(terms: Terms, phrase: seq<u32>)
    requires |phrase| > 0
  {
    exists s :: s in FirstEight(Positions(Hits(terms), phrase[0])) && StoredAt(terms, phrase, s)
  }

  /** What the phrase search finds. */
  predicate Finds(docs: seq<Document>, phrase: seq<u32>, d: nat)
    requires |phrase| > 0 && Terms32(docs)
  {
    d < |docs| && Stored(docs[d].terms, phrase) && forall i :: 0 <= i < |phrase| ==> OnNewestPage(docs, phrase[i], d)
  }

  /** The term list contains the phrase contiguously. */
  ghost predicate Contiguous(terms: seq<u32>, phrase: seq<u32>) {
    exists s: nat :: OccursAt(terms, phrase, s)
  }

  ghost predicate OccursAt(terms: seq<u32>, phrase: seq<u32>, s: nat) {
    s + |phrase| <= |terms| && terms[s..s + |phrase|] == phrase
  }

  // ---------- Where a document stands in the list of a term ----------

  lemma {:induction false} ExpectedAt(docs: seq<Document>, places: seq<Place>, term: int, d: nat)
    requires |places| == |docs| && Terms32(docs) && d < |docs| && Contains(docs[d].terms, term)
    ensures |Expected(docs, places, term)| == Frequency(docs, term)
    ensures Frequency(docs[..d], term) < Frequency(docs, term)
    ensures [Expected(docs, places, term)[Frequency(docs[..d], term)]] == PostingOf(d, places[d], Hits(docs[d].terms), term)
  {
    hide Positions, Hits;
    var n := |docs| - 1;
    ExpectedLength(docs, places, term);
    ExpectedLength(docs[..n], places[..n], term);
    if d < n {
      assert docs[..n][..d] == docs[..d];
      ExpectedAt(docs[..n], places[..n], term, d);
    }
  }

  lemma {:induction false} ExpectedLength(docs: seq<Document>, places: seq<Place>, term: int)
    requires |places| == |docs| && Terms32(docs)
    ensures |Expected(docs, places, term)| == Frequency(docs, term)
  {
    hide Positions, Hits;
    if docs != [] {
      var n := |docs| - 1;
      ExpectedLength(docs[..n], places[..n], term);
    }
  }

  /** A document has a posting on the newest page of the term exactly if `OnNewestPage` says so. */
  lemma NewestExactly(docs: seq<Document>, places: seq<Place>, term: int, p: Posting)
    requires |places| == |docs| && Terms32(docs)
    ensures p in Recent(Expected(docs, places, term)) <==>
      OnNewestPage(docs, term, p.doc) && [p] == PostingOf(p.doc, places[p.doc], Hits(docs[p.doc].terms), term)
  {
    hide Hits, Positions, Expected;
    var list := Expected(docs, places, term);
    ExpectedExactly(docs, places, term, p);
    ExpectedAscends(docs, places, term);
    ExpectedLength(docs, places, term);
    RecentIsPart(list);
    if p.doc < |docs| && PostingOf(p.doc, places[p.doc], Hits(docs[p.doc].terms), term) == [p] {
      PostingContains(p.doc, places[p.doc], docs[p.doc].terms, term, p);
      ExpectedAt(docs, places, term, p.doc);
      RecentFrom(list, Frequency(docs[..p.doc], term), |docs|);
    }
  }

  lemma PostingContains(d: u32, place: Place, terms: Terms, term: int, p: Posting)
    requires PostingOf(d, place, Hits(terms), term) == [p]
    ensures Contains(terms, term) && p.doc == d && p.positions == FirstEight(Positions(Hits(terms), term))
  {}

  lemma RecentFrom(list: seq<Posting>, k: nat, n: int)
    requires k < |list| && AscendingBelow(list, n)
    ensures list[k] in Recent(list) <==> MAX_POSTINGS * ((|list| - 1) / MAX_POSTINGS) <= k
  {
    var start := MAX_POSTINGS * ((|list| - 1) / MAX_POSTINGS);
    if start <= k {
      assert Recent(list)[k - start] == list[k];
    }
    if list[k] in Recent(list) {
      var j :| 0 <= j < |Recent(list)| && Recent(list)[j] == list[k];
      assert list[start + j] == list[k];
      assert start + j == k;
    }
  }

  // ---------- What the merge join selects ----------

  /** The merge join matches a document exactly if `Finds` says so. */
  lemma MatchesIffFinds(docs: seq<Document>, places: seq<Place>, phrase: seq<u32>, d: u32)
    requires |places| == |docs| && Terms32(docs) && |phrase| > 0
    ensures MergeJoin.Matches(Newest(docs, places, phrase), d) <==> Finds(docs, phrase, d)
  {
    hide OnNewestPage, Hits, Positions, Recent, Expected, FirstEight;
    var fronts := Newest(docs, places, phrase);
    if MergeJoin.Matches(fronts, d) {
      var ps: seq<Posting> :| MergeJoin.SameDocument(fronts, ps, d) && MergeJoin.PhraseAt(ps);
      NewestPosting(docs, places, phrase[0], ps[0]);
      forall i | 0 <= i < |phrase| ensures OnNewestPage(docs, phrase[i], d) && ps[i].positions == FirstEight(Positions(Hits(docs[d].terms), phrase[i])) {
        NewestPosting(docs, places, phrase[i], ps[i]);
      }
      var s :| s in ps[0].positions && MergeJoin.Continues(ps, s);
      assert StoredAt(docs[d].terms, phrase, s);
    }
    if Finds(docs, phrase, d) {
      FoundMatches(docs, places, phrase, d);
    }
  }

  lemma NewestPosting(docs: seq<Document>, places: seq<Place>, term: int, p: Posting)
    requires |places| == |docs| && Terms32(docs) && p in Recent(Expected(docs, places, term))
    ensures p.doc < |docs| && OnNewestPage(docs, term, p.doc) && p.positions == FirstEight(Positions(Hits(docs[p.doc].terms), term))
  {
    hide OnNewestPage, Hits, Positions, Recent, Expected;
    NewestExactly(docs, places, term, p);
    InDocs(docs, term, p.doc);
    PostingContains(p.doc, places[p.doc], docs[p.doc].terms, term, p);
  }

  lemma InDocs(docs: seq<Document>, term: int, d: nat)
    requires Terms32(docs) && OnNewestPage(docs, term, d)
    ensures d < |docs| && Contains(docs[d].terms, term)
  {}

  lemma FoundMatches(docs: seq<Document>, places: seq<Place>, phrase: seq<u32>, d: u32)
    requires |places| == |docs| && Terms32(docs) && |phrase| > 0 && Finds(docs, phrase, d)
    ensures MergeJoin.Matches(Newest(docs, places, phrase), d)
  {
    hide OnNewestPage, Hits, Positions, Recent, Expected, FirstEight;
    var fronts := Newest(docs, places, phrase);
    var ps := seq(|phrase|, i requires 0 <= i < |phrase| =>
      Posting(d, places[d].page, places[d].slot, FirstEight(Positions(Hits(docs[d].terms), phrase[i]))));
    forall i | 0 <= i < |phrase| ensures ps[i] in fronts[i] && ps[i].doc == d {
      InDocs(docs, phrase[i], d);
      NewestExactly(docs, places, phrase[i], ps[i]);
    }
    assert MergeJoin.SameDocument(fronts, ps, d);
    var s :| s in FirstEight(Positions(Hits(docs[d].terms), phrase[0])) && StoredAt(docs[d].terms, phrase, s);
    assert MergeJoin.Continues(ps, s);
  }

  /** The documents the search finds among the first `k`, in order. */
  function FoundDocs(docs: seq<Document>, phrase: seq<u32>, k: nat): seq<u32>
    requires |phrase| > 0 && Terms32(docs) && k <= |docs|
  {
    if k == 0 then [] else FoundDocs(docs, phrase, k - 1) + if Finds(docs, phrase, k - 1) then [k - 1] else []
  }

  ghost predicate Ascending(s: seq<u32>) {
    forall i, j :: 0 <= i < j < |s| ==> s[i] < s[j]
  }

  lemma {:induction false} FoundExactly(docs: seq<Document>, phrase: seq<u32>, k: nat)
    requires |phrase| > 0 && Terms32(docs) && k <= |docs|
    ensures forall d: u32 :: d in FoundDocs(docs, phrase, k) <==> d < k && Finds(docs, phrase, d)
    ensures Ascending(FoundDocs(docs, phrase, k))
  {
    hide Finds;
    if k > 0 {
      FoundExactly(docs, phrase, k - 1);
      var before := FoundDocs(docs, phrase, k - 1);
      assert forall i :: 0 <= i < |before| ==> before[i] in before;
    }
  }

  ghost predicate SameMembers(a: seq<u32>, b: seq<u32>) {
    forall x :: x in a <==> x in b
  }

  /** An ascending list is determined by its members. */
  lemma {:induction false} AscendingEqual(a: seq<u32>, b: seq<u32>)
    requires Ascending(a) && Ascending(b) && SameMembers(a, b)
    ensures a == b
  {
    hide Ascending, SameMembers;
    BothEmpty(a, b);
    if a != [] {
      SameLast(a, b);
      AscendingEqual(a[..|a| - 1], b[..|b| - 1]);
      assert a == a[..|a| - 1] + [a[|a| - 1]] && b == b[..|b| - 1] + [b[|b| - 1]];
    }
  }

  lemma BothEmpty(a: seq<u32>, b: seq<u32>)
    requires SameMembers(a, b)
    ensures a == [] <==> b == []
  {
    assert a == [] || a[0] in a;
    assert b == [] || b[0] in b;
  }

  lemma SameLast(a: seq<u32>, b: seq<u32>)
    requires Ascending(a) && Ascending(b) && SameMembers(a, b) && a != [] && b != []
    ensures a[|a| - 1] == b[|b| - 1]
    ensures var a', b' := a[..|a| - 1], b[..|b| - 1]; Ascending(a') && Ascending(b') && SameMembers(a', b')
  {
    var x, y := a[|a| - 1], b[|b| - 1];
    assert x in b && y in a;
    var j :| 0 <= j < |b| && b[j] == x;
    var i :| 0 <= i < |a| && a[i] == y;
    assert x == y;
    var a', b' := a[..|a| - 1], b[..|b| - 1];
    forall z: u32 ensures z in a' <==> z in b' {
      WithoutLast(a, z);
      WithoutLast(b, z);
    }
  }

  lemma WithoutLast(s: seq<u32>, x: u32)
    requires Ascending(s) && s != []
    ensures x in s[..|s| - 1] <==> x in s && x != s[|s| - 1]
  {
    assert s == s[..|s| - 1] + [s[|s| - 1]];
  }

  /** The records of the documents the search finds, in order. */
  function PhraseRecords(docs: seq<Document>, phrase: seq<u32>, k: nat): seq<DocRecord>
    requires |phrase| > 0 && Terms32(docs) && k <= |docs|
  {
    if k == 0 then [] else PhraseRecords(docs, phrase, k - 1) + if Finds(docs, phrase, k - 1) then [docs[k - 1].record] else []
  }

  /** The documents the search finds. */
  ghost function Finding(docs: seq<Document>, phrase: seq<u32>): set<nat>
    requires |phrase| > 0 && Terms32(docs)
  {
    set d: nat | d < |docs| && Finds(docs, phrase, d)
  }

  lemma {:induction false} FoundDocuments(docs: seq<Document>, phrase: seq<u32>, k: nat) returns (which: seq<nat>)
    requires |phrase| > 0 && Terms32(docs) && k <= |docs|
    ensures Picks(which, |docs|) && Picked(which, Records(docs)) == PhraseRecords(docs, phrase, k)
    ensures forall d: nat :: d in which <==> d < k && Finds(docs, phrase, d)
  {
    hide Finds, Picks, Picked;
    if k == 0 {
      NonePicked(Records(docs));
      which := [];
    } else {
      which := FoundDocuments(docs, phrase, k - 1);
      if Finds(docs, phrase, k - 1) {
        OnePicked(which, Records(docs), k - 1);
        which := which + [k - 1];
      }
    }
  }

  lemma {:induction false} RecordsFound(docs: seq<Document>, phrase: seq<u32>, k: nat, list: seq<Posting>)
    requires |phrase| > 0 && Terms32(docs) && k <= |docs|
    requires Named(docs, list) && DocIds(list) == FoundDocs(docs, phrase, k)
    ensures RecordsOf(docs, list) == PhraseRecords(docs, phrase, k)
  {
    hide Finds;
    if k > 0 {
      if Finds(docs, phrase, k - 1) {
        var n := |list| - 1;
        assert |DocIds(list)| == |list|;
        assert DocIds(list[..n]) == DocIds(list)[..n] == FoundDocs(docs, phrase, k - 1);
        NamedPart(docs, list, list[..n]);
        RecordsFound(docs, phrase, k - 1, list[..n]);
        assert list[n].doc == DocIds(list)[n] == k - 1;
        assert RecordsOf(docs, list) == RecordsOf(docs, list[..n]) + [docs[k - 1].record];
      } else {
        RecordsFound(docs, phrase, k - 1, list);
      }
    }
  }

  function DocIds(list: seq<Posting>): seq<u32> {
    seq(|list|, i requires 0 <= i < |list| => list[i].doc)
  }

  lemma {:induction false} SelectedAscends(fronts: seq<seq<Posting>>, k: nat)
    requires |fronts| > 0 && k <= |fronts[0]| && Ascending(DocIds(fronts[0]))
    ensures Ascending(DocIds(MergeJoin.Selected(fronts, k)))
    ensures forall p :: p in MergeJoin.Selected(fronts, k) ==> k > 0 && p.doc <= fronts[0][k - 1].doc
  {
    hide MergeJoin.Matches;
    if k > 0 {
      SelectedAscends(fronts, k - 1);
      var before, ids := MergeJoin.Selected(fronts, k - 1), DocIds(fronts[0]);
      assert forall i :: 0 <= i < |before| ==> before[i] in before;
      assert k > 1 ==> ids[k - 2] < ids[k - 1];
      var x := fronts[0][k - 1];
      assert before + [] == before;
      assert DocIds(before + [x]) == DocIds(before) + [x.doc];
      assert forall i :: 0 <= i < |before| ==> DocIds(before)[i] < x.doc;
    }
  }

  lemma SuffixAscends(list: seq<Posting>, start: nat, n: int)
    requires AscendingBelow(list, n) && start <= |list|
    ensures Ascending(DocIds(list[start..]))
  {
    var part := list[start..];
    assert forall i :: 0 <= i < |part| ==> part[i] == list[start + i];
  }

  lemma RecentAscends(docs: seq<Document>, places: seq<Place>, term: int)
    requires |places| == |docs| && Terms32(docs)
    ensures Ascending(DocIds(Recent(Expected(docs, places, term))))
  {
    hide Expected;
    ExpectedAscends(docs, places, term);
    var list := Expected(docs, places, term);
    if list != [] {
      SuffixAscends(list, MAX_POSTINGS * ((|list| - 1) / MAX_POSTINGS), |docs|);
    }
  }

  lemma SelectedDocs(docs: seq<Document>, places: seq<Place>, phrase: seq<u32>)
    requires |places| == |docs| && Terms32(docs) && |phrase| > 0
    ensures var fronts := Newest(docs, places, phrase);
      DocIds(MergeJoin.Selected(fronts, |fronts[0]|)) == FoundDocs(docs, phrase, |docs|)
  {
    hide Expected, Recent, MergeJoin.Matches, Finds, MergeJoin.Selected, FoundDocs;
    var fronts := Newest(docs, places, phrase);
    var list := MergeJoin.Selected(fronts, |fronts[0]|);
    RecentAscends(docs, places, phrase[0]);
    SelectedAscends(fronts, |fronts[0]|);
    FoundExactly(docs, phrase, |docs|);
    forall d: u32 ensures d in DocIds(list) <==> d in FoundDocs(docs, phrase, |docs|) {
      SelectedDoc(docs, places, phrase, d);
    }
    AscendingEqual(DocIds(list), FoundDocs(docs, phrase, |docs|));
  }

  lemma SelectedDoc(docs: seq<Document>, places: seq<Place>, phrase: seq<u32>, d: u32)
    requires |places| == |docs| && Terms32(docs) && |phrase| > 0
    ensures var fronts := Newest(docs, places, phrase);
      d in DocIds(MergeJoin.Selected(fronts, |fronts[0]|)) <==> d < |docs| && Finds(docs, phrase, d)
  {
    hide Expected, Recent, MergeJoin.Matches, Finds, MergeJoin.Selected;
    var fronts := Newest(docs, places, phrase);
    var list := MergeJoin.Selected(fronts, |fronts[0]|);
    MatchesIffFinds(docs, places, phrase, d);
    FindsInDocs(docs, phrase, d);
    if d in DocIds(list) {
      var i :| 0 <= i < |list| && list[i].doc == d;
      MergeJoin.SelectedExactly(fronts, |fronts[0]|, list[i]);
    }
    if MergeJoin.Matches(fronts, d) {
      var p := MatchedPosting(fronts, d);
      MergeJoin.SelectedExactly(fronts, |fronts[0]|, p);
      assert fronts[0][..|fronts[0]|] == fronts[0];
      var i :| 0 <= i < |list| && list[i] == p;
      assert DocIds(list)[i] == d;
    }
  }

  lemma FindsInDocs(docs: seq<Document>, phrase: seq<u32>, d: nat)
    requires |phrase| > 0 && Terms32(docs)
    ensures Finds(docs, phrase, d) ==> d < |docs|
  {}

  lemma MatchedPosting(fronts: seq<seq<Posting>>, d: u32) returns (p: Posting)
    requires |fronts| > 0 && MergeJoin.Matches(fronts, d)
    ensures p in fronts[0] && p.doc == d
  {
    var ps: seq<Posting> :| MergeJoin.SameDocument(fronts, ps, d) && MergeJoin.PhraseAt(ps);
    p := ps[0];
  }

  /** The candidates of a phrase search are those of the documents it finds, each once, in order. */
  lemma CandidatesOfFound(docs: seq<Document>, places: seq<Place>, phrase: seq<u32>, bits: Bitset, q: Query)
    requires |places| == |docs| && Terms32(docs) && |phrase| > 0
    ensures PhraseCandidates(docs, places, phrase, bits, q) == Candidates(PhraseRecords(docs, phrase, |docs|), bits, q)
  {
    hide Expected, Recent, Finds, MergeJoin.Selected, FoundDocs, Candidates, RecordsOf, PhraseRecords;
    var fronts := Newest(docs, places, phrase);
    NewestNamed(docs, places, phrase[0]);
    SelectedNamed(docs, fronts, |fronts[0]|);
    SelectedDocs(docs, places, phrase);
    RecordsFound(docs, phrase, |docs|, MergeJoin.Selected(fronts, |fronts[0]|));
  }

  lemma {:induction false} HitCount(terms: Terms, term: int)
    requires 0 <= term < 0x1_0000_0000
    ensures |Positions(TermHits(terms), term)| == multiset(terms)[term]
  {
    if terms != [] {
      var n := |terms| - 1;
      assert TermHits(terms)[..n] == TermHits(terms[..n]);
      assert terms == terms[..n] + [terms[n]];
      HitCount(terms[..n], term);
    }
  }

  lemma {:induction false} FrequencyCounts(docs: seq<Document>, term: u32)
    requires Terms32(docs)
    ensures Frequency(docs, term) == |Containing(docs, term)|
  {
    hide Positions, Hits;
    if docs != [] {
      var n := |docs| - 1;
      FrequencyCounts(docs[..n], term);
      IndexedUnder(docs[n].terms, term);
      var before := Containing(docs[..n], term);
      assert n !in before;
      if term == 0 || term in docs[n].terms {
        assert Containing(docs, term) == before + {n};
      } else {
        assert Containing(docs, term) == before;
      }
    }
  }

  // ---------- Finding is containing the phrase ----------

  /** Soundness: whatever the phrase search finds contains the phrase contiguously. */
  lemma StoredIsContiguous(terms: Terms, phrase: seq<u32>)
    requires |phrase| > 0 && 0 !in phrase && |terms| + |phrase| <= 0x1_0000_0000 && Stored(terms, phrase)
    ensures Contiguous(terms, phrase)
  {
    hide Positions, Hits, FirstEight;
    var s :| s in FirstEight(Positions(Hits(terms), phrase[0])) && StoredAt(terms, phrase, s);
    StoredTerm(terms, phrase[0], s);
    forall i | 0 <= i < |phrase| ensures TermAt(terms, phrase, s, i) {
      assert phrase[i] in phrase;
      if i > 0 {
        NoWrap(s, i);
        StoredTerm(terms, phrase[i], s + i);
      }
    }
    PointwiseOccurs(terms, phrase, s);
  }

  lemma NoWrap(s: nat, i: nat)
    requires s + i < 0x1_0000_0000
    ensures (s + i) % 0x1_0000_0000 == s + i
  {}

  lemma StoredTerm(terms: Terms, term: u32, x: u32)
    requires term != 0 && x in FirstEight(Positions(Hits(terms), term))
    ensures x < |terms| && terms[x] == term
  {
    hide Positions, Hits;
    PositionsAreIndices(terms, term, x);
  }

  lemma PointwiseOccurs(terms: seq<u32>, phrase: seq<u32>, s: nat)
    requires |phrase| > 0 && forall i :: 0 <= i < |phrase| ==> TermAt(terms, phrase, s, i)
    ensures OccursAt(terms, phrase, s)
  {
    assert TermAt(terms, phrase, s, |phrase| - 1);
    var part := terms[s..s + |phrase|];
    assert forall i :: 0 <= i < |phrase| && TermAt(terms, phrase, s, i) ==> part[i] == phrase[i];
  }

  ghost predicate TermAt(terms: seq<u32>, phrase: seq<u32>, s: nat, i: nat)
    requires i < |phrase|
  {
    s + i < |terms| && terms[s + i] == phrase[i]
  }

  /** Completeness, if no position of these terms was dropped. */
  lemma ContiguousIsStored(terms: Terms, phrase: seq<u32>)
    requires |phrase| > 0 && 0 !in phrase && Contiguous(terms, phrase)
    requires forall i :: 0 <= i < |phrase| ==> |Positions(Hits(terms), phrase[i])| <= MAX_POSITIONS
    ensures Stored(terms, phrase)
  {
    hide Positions, Hits;
    var s: nat :| OccursAt(terms, phrase, s);
    forall i | 0 <= i < |phrase| ensures terms[s + i] == phrase[i] && (s + i) in FirstEight(Positions(Hits(terms), phrase[i])) {
      assert terms[s..s + |phrase|][i] == phrase[i];
      assert phrase[i] in phrase;
      PositionsAreIndices(terms, phrase[i], s + i);
    }
    assert StoredAt(terms, phrase, s);
  }

  /** A term of at most 92 documents has a single page. */
  lemma OnePageIsNewest(docs: seq<Document>, term: int, d: nat)
    requires Terms32(docs) && d < |docs| && Frequency(docs, term) <= MAX_POSTINGS
    ensures OnNewestPage(docs, term, d) <==> Contains(docs[d].terms, term)
  {}

  /** With at most 92 documents per term and at most 8 occurrences per document, the phrase search finds exactly the
      documents that contain the phrase contiguously. */
  lemma FindsContiguous(docs: seq<Document>, phrase: seq<u32>, d: nat)
    requires Terms32(docs) && d < |docs| && |phrase| > 0 && 0 !in phrase && |docs[d].terms| + |phrase| <= 0x1_0000_0000
    requires forall i :: 0 <= i < |phrase| ==> |Containing(docs, phrase[i])| <= 92 && multiset(docs[d].terms)[phrase[i]] <= 8
    ensures Finds(docs, phrase, d) <==> Contiguous(docs[d].terms, phrase)
  {
    hide Positions, Hits, OnNewestPage, Contiguous, Stored, Matching, Containing;
    forall i | 0 <= i < |phrase|
      ensures Frequency(docs, phrase[i]) <= MAX_POSTINGS && |Positions(Hits(docs[d].terms), phrase[i])| <= MAX_POSITIONS
    {
      assert phrase[i] in phrase;
      FrequencyCounts(docs, phrase[i]);
      HitPositions(docs[d].terms, phrase[i]);
      HitCount(docs[d].terms, phrase[i]);
    }
    if Finds(docs, phrase, d) {
      StoredIsContiguous(docs[d].terms, phrase);
    }
    if Contiguous(docs[d].terms, phrase) {
      ContiguousIsStored(docs[d].terms, phrase);
      forall i | 0 <= i < |phrase| ensures OnNewestPage(docs, phrase[i], d) {
        OnePageIsNewest(docs, phrase[i], d);
        ContainsAll(docs[d].terms, phrase, i);
      }
    }
  }

  lemma ContainsAll(terms: Terms, phrase: seq<u32>, i: nat)
    requires Contiguous(terms, phrase) && i < |phrase| && 0 !in phrase
    ensures Contains(terms, phrase[i])
  {
    var s: nat :| OccursAt(terms, phrase, s);
    assert terms[s..s + |phrase|][i] == phrase[i];
    assert phrase[i] in phrase;
    PositionsAreIndices(terms, phrase[i], s + i);
  }

  // ---------- Which positions are kept ----------

  /** How often a term occurs before index `x`. */
  function Earlier(terms: Terms, term: int, x: nat): nat
    requires x <= |terms|
  {
    |Positions(TermHits(terms[..x]), term)|
  }

  /** The term is at index `x`, and not for the ninth time or later. */
  predicate KeptAt(terms: Terms, term: int, x: nat) {
    x < |terms| && terms[x] == term && Earlier(terms, term, x) < MAX_POSITIONS
  }

  ghost predicate KeptPhrase(terms: Terms, phrase: seq<u32>, s: nat) {
    forall i :: 0 <= i < |phrase| ==> KeptAt(terms, phrase[i], s + i)
  }

  lemma {:induction false} PositionAt(terms: Terms, term: int, x: nat)
    requires x < |terms| && terms[x] == term
    ensures var ps := Positions(TermHits(terms), term); Earlier(terms, term, x) < |ps| && ps[Earlier(terms, term, x)] == x
  {
    var n := |terms| - 1;
    assert TermHits(terms)[..n] == TermHits(terms[..n]);
    if x < n {
      assert terms[..n][..x] == terms[..x];
      PositionAt(terms[..n], term, x);
    }
  }

  /** Of a term other than 0 exactly the first eight occurrences are kept. */
  lemma KeptPositions(terms: Terms, term: u32, x: u32)
    requires term != 0
    ensures x in FirstEight(Positions(Hits(terms), term)) <==> KeptAt(terms, term, x)
  {
    HitPositions(terms, term);
    TermPositions(terms, term);
    var ps := Positions(TermHits(terms), term);
    assert Positions(Hits(terms), term) == ps;
    hide Positions, Hits;
    if x < |terms| && terms[x] == term {
      PositionAt(terms, term, x);
      AmongFirst(ps, Earlier(terms, term, x));
    } else {
      assert x !in ps;
    }
  }

  lemma AmongFirst(ps: seq<u32>, k: nat)
    requires k < |ps| && Ascending(ps)
    ensures ps[k] in FirstEight(ps) <==> k < MAX_POSITIONS
  {
    if k < MAX_POSITIONS {
      assert FirstEight(ps)[k] == ps[k];
    }
  }

  /** The phrase shows in the stored positions exactly if it occurs somewhere with none of its terms for the ninth time. */
  lemma StoredExactly(terms: Terms, phrase: seq<u32>)
    requires |phrase| > 0 && 0 !in phrase && |terms| + |phrase| <= 0x1_0000_0000
    ensures Stored(terms, phrase) <==> exists s: nat :: KeptPhrase(terms, phrase, s)
  {
    hide FirstEight, Positions, Hits, KeptAt;
    forall s: u32 | s < |terms|
      ensures s in FirstEight(Positions(Hits(terms), phrase[0])) && StoredAt(terms, phrase, s) <==> KeptPhrase(terms, phrase, s)
    {
      StoredThere(terms, phrase, s);
    }
    if Stored(terms, phrase) {
      var s :| s in FirstEight(Positions(Hits(terms), phrase[0])) && StoredAt(terms, phrase, s);
      StoredTerm(terms, phrase[0], s);
      assert KeptPhrase(terms, phrase, s);
    }
    if s: nat :| KeptPhrase(terms, phrase, s) {
      KeptInside(terms, phrase, s);
      assert StoredAt(terms, phrase, s);
    }
  }

  lemma KeptInside(terms: Terms, phrase: seq<u32>, s: nat)
    requires KeptPhrase(terms, phrase, s) && |phrase| > 0
    ensures s < |terms|
  {
    assert KeptAt(terms, phrase[0], s + 0);
  }

  lemma StoredThere(terms: Terms, phrase: seq<u32>, s: u32)
    requires |phrase| > 0 && 0 !in phrase && |terms| + |phrase| <= 0x1_0000_0000 && s < |terms|
    ensures s in FirstEight(Positions(Hits(terms), phrase[0])) && StoredAt(terms, phrase, s) <==> KeptPhrase(terms, phrase, s)
  {
    hide FirstEight, Positions, Hits, KeptAt;
    forall i | 0 <= i < |phrase|
      ensures ((s as int + i) % 0x1_0000_0000) in FirstEight(Positions(Hits(terms), phrase[i])) <==> KeptAt(terms, phrase[i], s + i)
    {
      NoWrap(s, i);
      assert phrase[i] in phrase;
      KeptPositions(terms, phrase[i], s + i);
    }
    assert KeptAt(terms, phrase[0], s + 0) <==> s in FirstEight(Positions(Hits(terms), phrase[0])) by { NoWrap(s, 0); }
  }

  /** The phrase is at `s`, and none of its terms is there for the ninth time or later. */
  ghost predicate WithinEight(terms: seq<u32>, phrase: seq<u32>, s: nat) {
    OccursAt(terms, phrase, s) && forall i :: 0 <= i < |phrase| ==> multiset(terms[..s + i])[phrase[i]] < 8
  }

  lemma KeptIsWithinEight(terms: Terms, phrase: seq<u32>, s: nat)
    requires |phrase| > 0
    ensures KeptPhrase(terms, phrase, s) <==> WithinEight(terms, phrase, s)
  {
    hide Positions;
    if KeptPhrase(terms, phrase, s) {
      KeptOccurs(terms, phrase, s);
    }
    if OccursAt(terms, phrase, s) {
      forall i | 0 <= i < |phrase|
        ensures s + i < |terms| && (KeptAt(terms, phrase[i], s + i) <==> multiset(terms[..s + i])[phrase[i]] < 8)
      {
        HitCount(terms[..s + i], phrase[i]);
        assert terms[s..s + |phrase|][i] == phrase[i];
      }
    }
  }

  /** The older documents that contain the term fill all of its pages but the newest, which holds at most 92. */
  ghost predicate ReachesNewest(docs: seq<Document>, term: u32, d: nat)
    requires d < |docs|
  {
    92 * ((|Containing(docs, term)| - 1) / 92) <= |Containing(docs[..d], term)|
  }

  lemma NewestCounts(docs: seq<Document>, term: u32, d: nat)
    requires Terms32(docs) && d < |docs|
    ensures OnNewestPage(docs, term, d) <==> (term == 0 || term in docs[d].terms) && ReachesNewest(docs, term, d)
  {
    hide Positions, Hits, Frequency, Containing;
    FrequencyCounts(docs, term);
    FrequencyCounts(docs[..d], term);
    IndexedUnder(docs[d].terms, term);
  }

  /** The documents the phrase search finds: the phrase occurs in them with none of its terms for the ninth time, and they
      are on the newest page of every term. */
  lemma FindsExactly(docs: seq<Document>, phrase: seq<u32>, d: nat)
    requires Terms32(docs) && d < |docs| && |phrase| > 0 && 0 !in phrase && |docs[d].terms| + |phrase| <= 0x1_0000_0000
    ensures Finds(docs, phrase, d) <==>
      (exists s: nat :: WithinEight(docs[d].terms, phrase, s)) && forall i :: 0 <= i < |phrase| ==> ReachesNewest(docs, phrase[i], d)
  {
    hide OnNewestPage, Stored, KeptPhrase, WithinEight, ReachesNewest;
    var terms := docs[d].terms;
    StoredExactly(terms, phrase);
    forall s: nat ensures KeptPhrase(terms, phrase, s) <==> WithinEight(terms, phrase, s) {
      KeptIsWithinEight(terms, phrase, s);
    }
    if s: nat :| WithinEight(terms, phrase, s) {
      forall i | 0 <= i < |phrase| ensures OnNewestPage(docs, phrase[i], d) <==> ReachesNewest(docs, phrase[i], d) {
        TermOccurs(terms, phrase, s, i);
        NewestCounts(docs, phrase[i], d);
      }
    }
  }

  lemma TermOccurs(terms: seq<u32>, phrase: seq<u32>, s: nat, i: nat)
    requires WithinEight(terms, phrase, s) && i < |phrase|
    ensures phrase[i] in terms
  {
    assert terms[s..s + |phrase|][i] == phrase[i];
  }

  /** A kept occurrence is one. */
  lemma KeptOccurs(terms: Terms, phrase: seq<u32>, s: nat)
    requires |phrase| > 0 && KeptPhrase(terms, phrase, s)
    ensures OccursAt(terms, phrase, s)
  {
    hide Earlier;
    forall i | 0 <= i < |phrase| ensures TermAt(terms, phrase, s, i) {
      assert KeptAt(terms, phrase[i], s + i);
    }
    PointwiseOccurs(terms, phrase, s);
  }

  // ---------- A phrase the search misses ----------

  lemma {:induction false} FrequencyOfAll(docs: seq<Document>, term: int)
    requires Terms32(docs) && forall d :: 0 <= d < |docs| ==> Contains(docs[d].terms, term)
    ensures Frequency(docs, term) == |docs|
  {
    hide Positions, Hits;
    if docs != [] {
      FrequencyOfAll(docs[..|docs| - 1], term);
    }
  }

  /** Of 93 documents with the term list 1, 2 the search for the phrase 1, 2 finds the newest only. */
  lemma NinetyThreeDocuments(docs: seq<Document>, d: nat)
    requires |docs| == 93 && (forall i :: 0 <= i < 93 ==> docs[i].terms == [1, 2]) && d < 93
    ensures Contiguous(docs[d].terms, [1, 2])
    ensures Finds(docs, [1, 2], d) <==> d == 92
  {
    hide Positions, Hits, Matching;
    var terms: Terms, phrase: seq<u32> := [1, 2], [1, 2];
    assert terms[0..2] == phrase;
    assert OccursAt(terms, phrase, 0);
    forall i | 0 <= i < 2 ensures Contains(terms, phrase[i]) && |Positions(Hits(terms), phrase[i])| <= MAX_POSITIONS {
      TwoHits(phrase[i]);
    }
    ContiguousIsStored(terms, phrase);
    forall i | 0 <= i < 2 ensures OnNewestPage(docs, phrase[i], d) <==> d == 92 {
      FrequencyOfAll(docs, phrase[i]);
      FrequencyOfAll(docs[..d], phrase[i]);
    }
    hide OnNewestPage;
    assert Finds(docs, phrase, d) <==> OnNewestPage(docs, phrase[0], d) && OnNewestPage(docs, phrase[1], d);
  }

  const NINE_ONES: Terms := [1, 1, 1, 1, 1, 1, 1, 1, 1, 2]

  /** A document with nine times the term 1 before the term 2 contains 1, 2 and is not found, whatever else there is. */
  lemma NineOnes(docs: seq<Document>, d: nat)
    requires Terms32(docs) && d < |docs| && docs[d].terms == NINE_ONES
    ensures Contiguous(NINE_ONES, [1, 2]) && !Finds(docs, [1, 2], d)
  {
    hide OnNewestPage;
    var phrase: seq<u32> := [1, 2];
    assert NINE_ONES[8..10] == phrase;
    assert OccursAt(NINE_ONES, phrase, 8);
    StoredExactly(NINE_ONES, phrase);
    forall s: nat ensures !KeptPhrase(NINE_ONES, phrase, s) {
      if s == 8 {
        EightOnes();
        assert !KeptAt(NINE_ONES, phrase[0], s + 0);
      } else {
        assert !KeptAt(NINE_ONES, phrase[1], s + 1);
      }
    }
  }

  lemma EightOnes()
    ensures Earlier(NINE_ONES, 1, 8) == 8
  {
    OnlyOnes(NINE_ONES[..8]);
  }

  lemma {:induction false} OnlyOnes(terms: Terms)
    requires forall i :: 0 <= i < |terms| ==> terms[i] == 1
    ensures |Positions(TermHits(terms), 1)| == |terms|
  {
    if terms != [] {
      var n := |terms| - 1;
      assert TermHits(terms)[..n] == TermHits(terms[..n]);
      OnlyOnes(terms[..n]);
    }
  }

  lemma TwoHits(term: u32)
    requires term == 1 || term == 2
    ensures var terms: Terms := [1, 2]; |Positions(Hits(terms), term)| == 1
  {
    var one, two := [Hit(1, 0)], [Hit(1, 0), Hit(2, 1)];
    assert Hits([1, 2]) == two + [Hit(0, 0)];
    assert (two + [Hit(0, 0)])[..2] == two && two[..1] == one && one[..0] == [];
    assert Positions([], term) == [];
    assert Positions(one, term) == if term == 1 then [0] else [];
    assert Positions(two, term) == [term - 1];
  }
}
