/** The documents inserted into a shard, and the posting lists their terms call for. */
module Documents {
  import opened Bytes
  import opened Pages
  import opened PostingChain

  /** A document as shard_insert_document receives it, with the id it was given. */
  datatype Document = Document(record: DocRecord, terms: seq<u32>)

  datatype Place = Place(page: u32, slot: u16)

  datatype Hit = Hit(term: u32, position: u32)

  type Terms = s: seq<u32> | |s| < 0x1_0000_0000

  function TermHits(terms: seq<u32>): (r: seq<Hit>)
    requires |terms| <= 0x1_0000_0000
    ensures |r| == |terms|
  {
    seq(|terms|, i requires 0 <= i < |terms| => Hit(terms[i], i))
  }

  /** The occurrences indexed for a term list: each term at its index, then term 0 at position 0. */
  function Hits(terms: Terms): seq<Hit> {
    TermHits(terms) + [Hit(0, 0)]
  }

  function Positions(hits: seq<Hit>, term: int): seq<u32> {
    if hits == [] then []
    else
      var last, before := hits[|hits| - 1], Positions(hits[..|hits| - 1], term);
      if last.term == term then before + [last.position] else before
  }

  function FirstEight(positions: seq<u32>): (r: seq<u32>)
    ensures |r| <= MAX_POSITIONS && (positions != [] ==> r != [])
  {
    if |positions| <= MAX_POSITIONS then positions else positions[..MAX_POSITIONS]
  }

  /** The posting of one document for `term`, if the term occurs in it. */
  function PostingOf(doc: u32, place: Place, hits: seq<Hit>, term: int): seq<Posting> {
    var positions := Positions(hits, term);
    if positions == [] then [] else [Posting(doc, place.page, place.slot, FirstEight(positions))]
  }

  /** Document ids and term positions are 32 bits wide. */
  predicate Terms32(docs: seq<Document>) {
    |docs| <= 0x1_0000_0000 && forall d :: 0 <= d < |docs| ==> |docs[d].terms| < 0x1_0000_0000
  }

  /** The posting list the documents call for: one posting per document that contains `term`, in order. */
  function Expected(docs: seq<Document>, places: seq<Place>, term: int): seq<Posting>
    requires |places| == |docs| && Terms32(docs)
  {
    if docs == [] then []
    else
      var n := |docs| - 1;
      Expected(docs[..n], places[..n], term) + PostingOf(n, places[n], Hits(docs[n].terms), term)
  }

  /** One more occurrence of a document whose earlier ones follow the list `before` of older documents. */
  lemma HitExtends(before: seq<Posting>, doc: u32, place: Place, hits: seq<Hit>, hit: Hit)
    requires before != [] ==> before[|before| - 1].doc != doc
    ensures Extend(before + PostingOf(doc, place, hits, hit.term), doc, place.page, place.slot, hit.position)
         == before + PostingOf(doc, place, hits + [hit], hit.term)
  {
    assert (hits + [hit])[..|hits|] == hits;
    var positions := Positions(hits, hit.term);
    assert Positions(hits + [hit], hit.term) == positions + [hit.position];
    var posting, posting' := PostingOf(doc, place, hits, hit.term), PostingOf(doc, place, hits + [hit], hit.term);
    if positions == [] {
      assert before + posting == before;
      assert [] + [hit.position] == [hit.position];
      assert FirstEight([hit.position]) == [hit.position];
    } else {
      hide Positions;
      ExtendTail(before, posting, doc, place.page, place.slot, hit.position);
      assert [] + posting' == posting';
      assert posting[..|posting| - 1] == [];
      if |positions| >= MAX_POSITIONS {
        assert (positions + [hit.position])[..MAX_POSITIONS] == positions[..MAX_POSITIONS];
      } else {
        assert posting' == [posting[0].(positions := posting[0].positions + [hit.position])];
      }
    }
  }

  lemma OtherTerm(doc: u32, place: Place, hits: seq<Hit>, hit: Hit, term: int)
    requires term != hit.term
    ensures PostingOf(doc, place, hits + [hit], term) == PostingOf(doc, place, hits, term)
  {
    assert (hits + [hit])[..|hits|] == hits;
  }

  ghost predicate AscendingBelow(list: seq<Posting>, n: int) {
    && (forall i :: 0 <= i < |list| ==> list[i].doc < n)
    && (forall i, j :: 0 <= i < j < |list| ==> list[i].doc < list[j].doc)
  }

  /** The list names documents in ascending order, each of them at most once. */
  lemma {:induction false} ExpectedAscends(docs: seq<Document>, places: seq<Place>, term: int)
    requires |places| == |docs| && Terms32(docs)
    ensures AscendingBelow(Expected(docs, places, term), |docs|)
  {
    if docs != [] {
      var n := |docs| - 1;
      ExpectedAscends(docs[..n], places[..n], term);
      var before, last := Expected(docs[..n], places[..n], term), PostingOf(n, places[n], Hits(docs[n].terms), term);
      AscendsOn(before, last, n);
    }
  }

  lemma AscendsOn(before: seq<Posting>, last: seq<Posting>, n: nat)
    requires AscendingBelow(before, n)
    requires |last| <= 1 && (last != [] ==> last[0].doc == n)
    ensures AscendingBelow(before + last, n + 1)
  {}

  /** Exactly the documents that contain `term` have a posting; it holds their place and first eight positions. */
  lemma {:induction false} ExpectedExactly(docs: seq<Document>, places: seq<Place>, term: int, p: Posting)
    requires |places| == |docs| && Terms32(docs)
    ensures p in Expected(docs, places, term) <==>
      p.doc < |docs| && PostingOf(p.doc, places[p.doc], Hits(docs[p.doc].terms), term) == [p]
  {
    hide PostingOf, Hits;
    if docs != [] {
      var n := |docs| - 1;
      var before, last := Expected(docs[..n], places[..n], term), PostingOf(n, places[n], Hits(docs[n].terms), term);
      ExpectedExactly(docs[..n], places[..n], term, p);
      OneAtMost(n, places[n], Hits(docs[n].terms), term);
      EitherPart(before, last, p);
      assert p.doc < n ==> docs[..n][p.doc] == docs[p.doc] && places[..n][p.doc] == places[p.doc];
    }
  }

  lemma EitherPart(a: seq<Posting>, b: seq<Posting>, p: Posting)
    requires |b| <= 1
    ensures p in a + b <==> p in a || p in b
    ensures p in b <==> b == [p]
  {}

  lemma OneAtMost(doc: u32, place: Place, hits: seq<Hit>, term: int)
    ensures var r := PostingOf(doc, place, hits, term);
      r == [] || (|r| == 1 && r[0].doc == doc && r[0].page == place.page && r[0].slot == place.slot)
  {}

  // ---------- What the positions of a term are ----------

  /** For a term other than 0, the indices at which it occurs in the list, ascending; for 0, those and then 0. */
  lemma {:induction false} TermPositions(terms: seq<u32>, term: int)
    requires |terms| <= 0x1_0000_0000
    ensures var ps := Positions(TermHits(terms), term);
      && (forall k :: 0 <= k < |ps| ==> 0 <= ps[k] < |terms| && terms[ps[k]] == term)
      && (forall i: u32 :: i < |terms| && terms[i] == term ==> i in ps)
      && (forall j, k :: 0 <= j < k < |ps| ==> ps[j] < ps[k])
  {
    if terms != [] {
      var n := |terms| - 1;
      TermPositions(terms[..n], term);
      assert TermHits(terms)[..n] == TermHits(terms[..n]);
    }
  }

  lemma HitPositions(terms: Terms, term: int)
    ensures Positions(Hits(terms), term) == Positions(TermHits(terms), term) + if term == 0 then [0] else []
  {
    assert Hits(terms)[..|Hits(terms)| - 1] == TermHits(terms);
  }

  /** For a term other than 0 the positions are its indices in the document's list, ascending. */
  lemma PositionsAreIndices(terms: Terms, term: u32, x: u32)
    requires term != 0
    ensures x in Positions(Hits(terms), term) <==> x < |terms| && terms[x] == term
    ensures forall j, k :: 0 <= j < k < |Positions(Hits(terms), term)| ==> Positions(Hits(terms), term)[j] < Positions(Hits(terms), term)[k]
  {
    HitPositions(terms, term);
    TermPositions(terms, term);
    assert Positions(Hits(terms), term) == Positions(TermHits(terms), term);
  }

  /** Every document has a posting for term 0; if its terms are not 0, with the single position 0. */
  lemma TermZero(terms: Terms)
    ensures Positions(Hits(terms), 0) != []
    ensures (forall i :: 0 <= i < |terms| ==> terms[i] != 0) ==> Positions(Hits(terms), 0) == [0]
  {
    HitPositions(terms, 0);
    TermPositions(terms, 0);
    var ps := Positions(TermHits(terms), 0);
    assert ps != [] ==> 0 <= ps[0] < |terms| && terms[ps[0]] == 0;
  }

  /** The first eight indices of a term in a list of terms, ascending. */
  ghost predicate FirstIndices(ps: seq<u32>, terms: seq<u32>, term: int) {
    && |ps| <= 8 && (forall j, k :: 0 <= j < k < |ps| ==> ps[j] < ps[k])
    && (forall k :: 0 <= k < |ps| ==> ps[k] < |terms| && terms[ps[k]] == term)
    && (forall x: u32 :: x < |terms| && terms[x] == term && x !in ps ==> |ps| == 8 && forall k :: 0 <= k < 8 ==> ps[k] < x)
  }

  /** What the positions of a posting are, for a term other than 0. */
  lemma StoredIndices(terms: Terms, term: u32)
    requires term != 0
    ensures FirstIndices(FirstEight(Positions(Hits(terms), term)), terms, term)
  {
    hide Positions, Hits;
    var all := Positions(Hits(terms), term);
    var ps := FirstEight(all);
    forall x: u32 ensures x in all <==> x < |terms| && terms[x] == term {
      PositionsAreIndices(terms, term, x);
    }
    PositionsAreIndices(terms, term, 0);
    assert forall k :: 0 <= k < |ps| ==> ps[k] == all[k] && all[k] in all;
    forall x: u32 | x in all && x !in ps ensures |ps| == 8 && forall k :: 0 <= k < 8 ==> ps[k] < x {
      var i :| 0 <= i < |all| && all[i] == x;
      assert forall k :: 0 <= k < |ps| ==> all[k] != x;
    }
  }

  /** A document is indexed under 0 and under the terms of its list. */
  lemma IndexedUnder(terms: Terms, term: u32)
    ensures Positions(Hits(terms), term) != [] <==> term == 0 || term in terms
  {
    if term == 0 {
      TermZero(terms);
    } else {
      var ps := Positions(Hits(terms), term);
      if ps != [] {
        PositionsAreIndices(terms, term, ps[0]);
      }
      if term in terms {
        var x :| 0 <= x < |terms| && terms[x] == term;
        PositionsAreIndices(terms, term, x);
      }
    }
  }

  /** The documents indexed under a term. */
  function Containing(docs: seq<Document>, term: u32): set<nat> {
    set d: nat | d < |docs| && (term == 0 || term in docs[d].terms)
  }
}
