/** The postings of one term: a chain of pages, newest first, and the lists read from it. */
module PostingChain {
  import opened Bytes
  import opened Pages
  import opened LeafChain
  import opened Common

  const MAX_POSTINGS := 92
  const MAX_POSITIONS := 8
  const FIRST_FREE := 3

  // ---------- The chain of one term ----------

  ghost predicate AllPostings(view: View, term: int, pages: seq<int>) {
    forall k :: 0 <= k < |pages| ==>
      && pages[k] in view && view[pages[k]].Postings? && view[pages[k]].term == term
      && FIRST_FREE <= pages[k] < INVALID
      && 1 <= |view[pages[k]].postings| <= MAX_POSTINGS
  }

  /** Each page points to an older one, which has a smaller page id and is full; the oldest ends the chain. */
  ghost predicate PostLinked(view: View, term: int, pages: seq<int>) {
    && AllPostings(view, term, pages)
    && (forall i, j {:trigger view[pages[i]], view[pages[j]]} :: 0 <= i < |pages| && j == i + 1 < |pages| ==>
         view[pages[i]].next == pages[j] < pages[i] && |view[pages[j]].postings| == MAX_POSTINGS)
    && (|pages| > 0 ==> view[pages[|pages| - 1]].next == INVALID)
  }

  /** The postings in the order they were added. */
  ghost function Chronological(view: View, pages: seq<int>): seq<Posting>
    requires forall k :: 0 <= k < |pages| ==> pages[k] in view && view[pages[k]].Postings?
  {
    if pages == [] then [] else Chronological(view, pages[1..]) + view[pages[0]].postings
  }

  /** The postings in the order a walk of the chain meets them. */
  ghost function NewestFirst(view: View, pages: seq<int>): seq<Posting>
    requires forall k :: 0 <= k < |pages| ==> pages[k] in view && view[pages[k]].Postings?
  {
    if pages == [] then [] else view[pages[0]].postings + NewestFirst(view, pages[1..])
  }

  lemma {:induction false} SamePostings(view: View, pages: seq<int>)
    requires forall k :: 0 <= k < |pages| ==> pages[k] in view && view[pages[k]].Postings?
    ensures multiset(NewestFirst(view, pages)) == multiset(Chronological(view, pages))
  {
    if pages != [] {
      SamePostings(view, pages[1..]);
    }
  }

  lemma {:induction false} PostingsSame(view: View, view': View, pages: seq<int>)
    requires forall k :: 0 <= k < |pages| ==> pages[k] in view && view[pages[k]].Postings?
    requires forall k :: 0 <= k < |pages| ==> pages[k] in view' && view'[pages[k]] == view[pages[k]]
    ensures Chronological(view', pages) == Chronological(view, pages)
    ensures NewestFirst(view', pages) == NewestFirst(view, pages)
  {
    if pages != [] {
      PostingsSame(view, view', pages[1..]);
    }
  }

  lemma NextPosting(view: View, term: int, pages: seq<int>, k: nat)
    requires PostLinked(view, term, pages) && k < |pages|
    ensures view[pages[k]].next == if k + 1 < |pages| then pages[k + 1] else INVALID
    ensures view[pages[k]].next != pages[k]
    ensures k + 1 < |pages| ==> pages[k + 1] < pages[k]
  {
    assert k + 1 < |pages| ==> pages[k + 1] in view && view[pages[k + 1]].Postings?;
  }

  /** Page ids fall along the chain, so a page occurs in it once. */
  lemma {:induction false} Decreasing(view: View, term: int, pages: seq<int>, i: nat, j: nat)
    requires PostLinked(view, term, pages) && i < j < |pages|
    ensures pages[j] < pages[i]
    decreases j
  {
    NextPosting(view, term, pages, j - 1);
    if i < j - 1 {
      Decreasing(view, term, pages, i, j - 1);
    }
  }

  /** A term with at most 92 postings has one page only, and conversely. */
  lemma OnePage(view: View, term: int, pages: seq<int>)
    requires PostLinked(view, term, pages) && |pages| > 0
    ensures |pages| == 1 <==> |Chronological(view, pages)| <= MAX_POSTINGS
  {
    assert pages[0] in view && view[pages[0]].Postings?;
    if |pages| > 1 {
      assert view[pages[1]].postings == view[pages[1..][0]].postings;
      assert |Chronological(view, pages[1..])| >= MAX_POSTINGS;
    }
  }

  // ---------- Adding one occurrence ----------

  /** The list after one more occurrence: the same document only gains a position, up to the eighth. */
  function Extend(list: seq<Posting>, doc: u32, page: u32, slot: u16, position: u32): (r: seq<Posting>) {
    if list != [] && list[|list| - 1].doc == doc then
      var last := list[|list| - 1];
      if |last.positions| < MAX_POSITIONS then list[..|list| - 1] + [last.(positions := last.positions + [position])] else list
    else list + [Posting(doc, page, slot, [position])]
  }

  lemma ExtendTail(a: seq<Posting>, b: seq<Posting>, doc: u32, page: u32, slot: u16, position: u32)
    requires b != []
    ensures Extend(a + b, doc, page, slot, position) == a + Extend(b, doc, page, slot, position)
  {
    assert (a + b)[..|a + b| - 1] == a + b[..|b| - 1];
  }

  // ---------- The index: all terms ----------

  /** What every state of the index keeps: the tree maps a term to the newest page of its chain, and every
      posting page of the file lies in the chain of its term. */
  ghost predicate IndexInv(view: View, posts: map<int, seq<int>>, entries: seq<Entry>, size: int) {
    && (forall t :: t in posts ==> 0 <= t < 0x1_0000_0000 && |posts[t]| > 0 && PostLinked(view, t, posts[t]))
    && (forall t :: t in posts ==> forall k :: 0 <= k < |posts[t]| ==> posts[t][k] < size)
    && (forall key: u64 :: Lookup(entries, key) == if (key as int) in posts then Some(Location(posts[key as int][0], 0)) else None)
    && (forall p: int :: p in view && view[p].Postings? ==> (view[p].term as int) in posts && p in posts[view[p].term as int])
  }

  /** The postings of `term`, oldest first. */
  ghost function IndexOf(view: View, posts: map<int, seq<int>>, term: int): seq<Posting>
    requires term in posts ==> AllPostings(view, term, posts[term])
  {
    if term in posts then Chronological(view, posts[term]) else []
  }

  /** The walk's list and the index's list of a term hold the same postings. */
  lemma IndexLists(view: View, posts: map<int, seq<int>>, entries: seq<Entry>, size: int, term: int)
    requires IndexInv(view, posts, entries, size)
    ensures term in posts ==> AllPostings(view, term, posts[term]) && PostLinked(view, term, posts[term])
    ensures term in posts ==> multiset(NewestFirst(view, posts[term])) == multiset(IndexOf(view, posts, term))
  {
    if term in posts {
      SamePostings(view, posts[term]);
    }
  }

  lemma {:induction false} ChronologicalNonempty(view: View, term: int, pages: seq<int>)
    requires AllPostings(view, term, pages) && |pages| > 0
    ensures Chronological(view, pages) == Chronological(view, pages[1..]) + view[pages[0]].postings
    ensures view[pages[0]].postings != []
  {}

  /** The postings of every term but `term` are untouched, and no page became or ceased to be a posting page
      outside `changed`. */
  ghost predicate SameOutside(view: View, view': View, changed: int) {
    forall p: int :: p != changed ==>
      (p in view && p in view' && (view[p].Postings? || view'[p].Postings? ==> view'[p] == view[p]))
  }

  lemma OtherTerms(view: View, view': View, posts: map<int, seq<int>>, entries: seq<Entry>, size: int, changed: int, term: int, other: int)
    requires IndexInv(view, posts, entries, size) && SameOutside(view, view', changed)
    requires other in posts && other != term && (changed in view && view[changed].Postings? ==> view[changed].term == term)
    ensures PostLinked(view', other, posts[other]) && IndexOf(view', posts, other) == IndexOf(view, posts, other)
    ensures forall k :: 0 <= k < |posts[other]| ==> posts[other][k] != changed
  {
    var pages := posts[other];
    forall k | 0 <= k < |pages| ensures pages[k] != changed && view'[pages[k]] == view[pages[k]] {
      assert pages[k] in view && view[pages[k]].Postings? && view[pages[k]].term == other;
    }
    PostingsSame(view, view', pages);
  }

  /** The newest page of `term` is rewritten. */
  lemma HeadRewritten(view: View, view': View, posts: map<int, seq<int>>, entries: seq<Entry>, size: int, term: int, list: seq<Posting>)
    requires IndexInv(view, posts, entries, size) && term in posts && 1 <= |list| <= MAX_POSTINGS
    requires SameOutside(view, view', posts[term][0])
    requires posts[term][0] in view' && view'[posts[term][0]] == Postings(term, view[posts[term][0]].next, list)
    ensures IndexInv(view', posts, entries, size)
    ensures IndexOf(view', posts, term) == Chronological(view, posts[term][1..]) + list
    ensures forall t :: t != term && t in posts ==> IndexOf(view', posts, t) == IndexOf(view, posts, t)
  {
    var pages := posts[term];
    HeadChain(view, view', term, pages, list);
    forall t | t in posts && t != term
      ensures PostLinked(view', t, posts[t]) && IndexOf(view', posts, t) == IndexOf(view, posts, t)
    {
      OtherTerms(view, view', posts, entries, size, pages[0], term, t);
    }
    hide PostLinked, Chronological, NewestFirst;
  }

  lemma HeadChain(view: View, view': View, term: int, pages: seq<int>, list: seq<Posting>)
    requires PostLinked(view, term, pages) && |pages| > 0 && 1 <= |list| <= MAX_POSTINGS
    requires SameOutside(view, view', pages[0]) && 0 <= term < 0x1_0000_0000
    requires pages[0] in view' && view'[pages[0]] == Postings(term, view[pages[0]].next, list)
    ensures PostLinked(view', term, pages)
    ensures Chronological(view', pages) == Chronological(view, pages[1..]) + list
  {
    forall k | 1 <= k < |pages| ensures pages[k] != pages[0] && pages[k] in view' && view'[pages[k]] == view[pages[k]] {
      Decreasing(view, term, pages, 0, k);
    }
    PostingsSame(view, view', pages[1..]);
  }

  /** A new page, with one posting, goes in front of the chain of `term` (or starts it). */
  lemma PageAdded(view: View, view': View, posts: map<int, seq<int>>, entries: seq<Entry>, entries': seq<Entry>,
                  size: int, size': int, term: u32, p: Posting)
    requires IndexInv(view, posts, entries, size) && FIRST_FREE <= size < INVALID && size < size'
    requires (term as int) in posts ==> |view[posts[term as int][0]].postings| == MAX_POSTINGS
    requires SameOutside(view, view', size)
    requires size in view' && view'[size] == Postings(term, if (term as int) in posts then posts[term as int][0] else INVALID, [p])
    requires !(size in view && view[size].Postings?)
    requires forall key: u64 :: Lookup(entries', key) == if key == term then Some(Location(size, 0)) else Lookup(entries, key)
    ensures var posts' := posts[term as int := [size] + if (term as int) in posts then posts[term as int] else []];
      && IndexInv(view', posts', entries', size')
      && IndexOf(view', posts', term) == IndexOf(view, posts, term) + [p]
      && forall t :: t != term && t in posts ==> IndexOf(view', posts', t) == IndexOf(view, posts, t)
  {
    hide AllPostings, Chronological, NewestFirst;
    var old' := if (term as int) in posts then posts[term as int] else [];
    EmptyChain(view, term);
    NewHead(view, view', term, old', size, p);
    assert ([size] + old')[1..] == old';
    forall t | t in posts && t != term
      ensures PostLinked(view', t, posts[t]) && IndexOf(view', posts, t) == IndexOf(view, posts, t)
    {
      OtherTerms(view, view', posts, entries, size, size, term, t);
    }
    NewMembers(posts, term, old', size, size');
  }

  lemma EmptyChain(view: View, term: int)
    ensures PostLinked(view, term, []) && Chronological(view, []) == []
  {}

  lemma NewMembers(posts: map<int, seq<int>>, term: int, old': seq<int>, size: int, size': int)
    requires size < size' && forall k :: 0 <= k < |old'| ==> old'[k] < size
    ensures forall k :: 0 <= k < |[size] + old'| ==> ([size] + old')[k] < size'
    ensures size in [size] + old' && forall q :: q in old' ==> q in [size] + old'
  {}

  lemma NewHead(view: View, view': View, term: u32, pages: seq<int>, size: int, p: Posting)
    requires PostLinked(view, term, pages) && forall k :: 0 <= k < |pages| ==> pages[k] < size
    requires FIRST_FREE <= size < INVALID && SameOutside(view, view', size)
    requires |pages| > 0 ==> |view[pages[0]].postings| == MAX_POSTINGS
    requires size in view' && view'[size] == Postings(term, if |pages| > 0 then pages[0] else INVALID, [p])
    ensures PostLinked(view', term, [size] + pages)
    ensures Chronological(view', [size] + pages) == Chronological(view, pages) + [p]
  {
    var all := [size] + pages;
    forall k | 0 <= k < |pages| ensures pages[k] in view' && view'[pages[k]] == view[pages[k]] && all[k + 1] == pages[k] {
      assert pages[k] in view && view[pages[k]].Postings?;
    }
    PostingsSame(view, view', pages);
    assert all[1..] == pages;
    assert AllPostings(view', term, all) by {
      forall k | 0 <= k < |all|
        ensures all[k] in view' && view'[all[k]].Postings? && view'[all[k]].term == term && FIRST_FREE <= all[k] < INVALID && 1 <= |view'[all[k]].postings| <= MAX_POSTINGS
      {
        if k > 0 { assert all[k] == pages[k - 1]; }
      }
    }
    forall i, j {:trigger view'[all[i]], view'[all[j]]} | 0 <= i < |all| && j == i + 1 < |all|
      ensures view'[all[i]].next == all[j] < all[i] && |view'[all[j]].postings| == MAX_POSTINGS
    {
      assert all[j] == pages[i];
      if i > 0 {
        assert all[i] == pages[i - 1] && view[pages[i - 1]].next == pages[i] && |view[pages[i]].postings| == MAX_POSTINGS;
      }
    }
    assert |pages| > 0 ==> all[|all| - 1] == pages[|pages| - 1];
  }

  /** A step that leaves every posting page alone keeps the index. */
  lemma IndexKept(view: View, view': View, posts: map<int, seq<int>>, entries: seq<Entry>, entries': seq<Entry>, size: int, size': int)
    requires IndexInv(view, posts, entries, size) && size <= size' && SameOutside(view, view', -1)
    requires forall p: int :: p in view' && view'[p].Postings? ==> p in view && view[p].Postings?
    requires forall key: u64 :: Lookup(entries', key) == Lookup(entries, key)
    ensures IndexInv(view', posts, entries', size')
    ensures forall t :: t in posts ==> IndexOf(view', posts, t) == IndexOf(view, posts, t)
  {
    forall t | t in posts
      ensures PostLinked(view', t, posts[t]) && IndexOf(view', posts, t) == IndexOf(view, posts, t)
    {
      OtherTerms(view, view', posts, entries, size, -1, -1, t);
    }
    hide PostLinked, Chronological, NewestFirst;
  }
}
