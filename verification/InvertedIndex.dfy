/** The inverted index of src/inverted_index.c: posting chains reached through the B-tree. */
module InvertedIndex {
  import opened Bytes
  import opened Pages
  import opened PoolState
  import opened LeafChain
  import opened PostingChain
  import opened Common
  import BufferPool
  import BTree
  import Wal

  /** One occurrence of a term: what inverted_index_add_posting is called with. */
  datatype Occurrence = Occurrence(term: u32, doc: u32, page: u32, slot: u16, position: u32)

  function ExtendBy(list: seq<Posting>, o: Occurrence): seq<Posting> {
    Extend(list, o.doc, o.page, o.slot, o.position)
  }

  /** Leaves and posting pages stay what they are, new pages are leaves or posting pages, all other pages keep their contents. */
  ghost predicate OthersKept(view: View, view': View, size: int, size': int) {
    && size <= size'
    && forall p: int ::
      && p in view && p in view'
      && (size <= p < size' ==> view'[p].Leaf? || view'[p].Postings?)
      && (!(size <= p < size') ==>
           if view[p].Leaf? then view'[p].Leaf? else if view[p].Postings? then view'[p].Postings? else view'[p] == view[p])
  }

  lemma TakeConcat<T>(a: seq<T>, b: seq<T>, n: nat)
    ensures |Take(a, n)| <= n
    ensures Take(a + b, n) == Take(a, n) + Take(b, n - |Take(a, n)|)
  {}

  // ---------- Walking a chain ----------

  /** `out` holds the first postings of the chain, up to `max`; the walk stands before its `k`-th page. */
  ghost predicate WalkState(view: View, term: int, pages: seq<int>, k: nat, current: u32, out: seq<Posting>, max: nat) {
    && PostLinked(view, term, pages) && AllPostings(view, term, pages[if k <= |pages| then k else 0..])
    && k <= |pages| && current == (if k < |pages| then pages[k] else INVALID)
    && |out| <= max
    && Take(NewestFirst(view, pages), max) == out + Take(NewestFirst(view, pages[k..]), max - |out|)
  }

  lemma WalkStarts(view: View, term: int, pages: seq<int>, max: nat)
    requires PostLinked(view, term, pages) && |pages| > 0
    ensures 0 <= pages[0] < INVALID && WalkState(view, term, pages, 0, pages[0], [], max)
  {
    assert pages[0..] == pages;
  }

  /** None of the guards of the walk applies to a page of the chain. */
  lemma WalkPage(view: View, term: int, pages: seq<int>, k: nat, current: u32, out: seq<Posting>, max: nat)
    requires WalkState(view, term, pages, k, current, out, max) && current != INVALID
    ensures k < |pages| && pages[k] == current >= FIRST_FREE && (current as int) in view && view[current as int].Postings?
    ensures 1 <= |view[current as int].postings| <= MAX_POSTINGS && view[current as int].next != current
  {
    NextPosting(view, term, pages, k);
  }

  lemma WalkNext(view: View, term: int, pages: seq<int>, k: nat, current: u32, out: seq<Posting>, max: nat)
    requires WalkState(view, term, pages, k, current, out, max) && k < |pages|
    ensures var page := view[pages[k]];
      WalkState(view, term, pages, k + 1, page.next, out + Take(page.postings, max - |out|), max)
  {
    hide NewestFirst, Take;
    NextPosting(view, term, pages, k);
    var rest := pages[k + 1..];
    assert AllPostings(view, term, rest);
    NewestFrom(view, term, pages, k);
    var a, b, n := view[pages[k]].postings, NewestFirst(view, rest), max - |out|;
    TakeConcat(a, b, n);
    TakeTwice(out, Take(a, n), Take(b, n - |Take(a, n)|));
  }

  lemma NewestFrom(view: View, term: int, pages: seq<int>, k: nat)
    requires AllPostings(view, term, pages) && k < |pages|
    ensures AllPostings(view, term, pages[k..]) && AllPostings(view, term, pages[k + 1..])
    ensures NewestFirst(view, pages[k..]) == view[pages[k]].postings + NewestFirst(view, pages[k + 1..])
  {
    assert pages[k..][1..] == pages[k + 1..];
  }

  lemma TakeTwice(out: seq<Posting>, a: seq<Posting>, b: seq<Posting>)
    ensures out + (a + b) == (out + a) + b
  {}

  lemma WalkFinished(view: View, term: int, pages: seq<int>, k: nat, current: u32, out: seq<Posting>, max: nat)
    requires WalkState(view, term, pages, k, current, out, max) && (current == INVALID || |out| == max)
    ensures out == Take(NewestFirst(view, pages), max)
  {
    if k == |pages| {
      assert pages[k..] == [];
    }
  }

  class Index {
    const tree: BTree.BTree
    ghost var posts: map<int, seq<int>>   // the posting pages of each term, newest first

    ghost predicate Valid()
      reads this, tree, tree.pool, tree.pool.frames, tree.pool.wal, tree.counter
    {
      && tree.Valid()
      && IndexInv(tree.pool.state.view, posts, tree.Entries(), |tree.pool.state.disk|)
    }

    /** The postings of `term` in the order they were added. */
    ghost function Postings(term: int): seq<Posting>
      requires Valid()
      reads this, tree, tree.pool, tree.pool.frames, tree.pool.wal, tree.counter
    {
      IndexOf(tree.pool.state.view, posts, term)
    }

    /** The postings of `term` in the order a walk of its chain meets them. */
    ghost function NewestFirstOf(term: int): seq<Posting>
      requires Valid()
      reads this, tree, tree.pool, tree.pool.frames, tree.pool.wal, tree.counter
    {
      if term in posts then NewestFirst(tree.pool.state.view, posts[term]) else []
    }

    lemma SameLists(term: int)
      requires Valid()
      ensures multiset(NewestFirstOf(term)) == multiset(Postings(term))
    {
      hide State.Inv, BufferPool.Pool.Valid, TreeInv, Flat, NewestFirst, Chronological;
      IndexLists(tree.pool.state.view, posts, tree.Entries(), |tree.pool.state.disk|, term);
    }

    constructor (tree: BTree.BTree)
      requires tree.Valid() && tree.Entries() == []
      requires forall p: int :: p in tree.pool.state.view ==> !tree.pool.state.view[p].Postings?
      ensures Valid() && this.tree == tree && forall t: int :: Postings(t) == []
    {
      hide State.Inv, BufferPool.Pool.Valid, TreeInv, Flat;
      this.tree := tree;
      posts := map[];
    }

    /** The walk of the posting chain by inverted_index_get_postings, newest page first, up to `max` postings;
        none of its guards ever stops it early. */
    method GetPostings(term: u32, max: nat) returns (out: seq<Posting>)
      requires Valid()
      modifies tree.pool, tree.pool.frames, tree.pool.wal
      ensures Valid() && Seen(old(tree.pool.state), tree.pool.state)
      ensures out == Take(NewestFirstOf(term), max)
      ensures |out| <= max
      ensures tree.pool.peak <= if old(tree.pool.peak) > 1 then old(tree.pool.peak) else 1
      ensures tree.pool.wal.currentLsn == old(tree.pool.wal.currentLsn)
    {
      hide State.Inv, BufferPool.Pool.Valid, TreeInv, Flat, Lookup, Chronological, NewestFirst, Kept, WalkState, PostLinked, AllPostings;
      ghost var view := tree.pool.state.view;
      IndexLists(view, posts, tree.Entries(), |tree.pool.state.disk|, term);
      out := [];
      var found := tree.Search(term);
      if found.None? {
        return;
      }
      ghost var pages := posts[term as int];
      var current: u32 := found.value.page;
      ghost var k := 0;
      WalkStarts(view, term, pages, max);
      while current != INVALID && current >= FIRST_FREE && current < tree.counter.next && |out| < max
        invariant WalkState(view, term, pages, k, current, out, max) && k <= |pages| && |out| <= max
        invariant Valid() && Seen(old(tree.pool.state), tree.pool.state) && tree.pool.state.view == view
        invariant tree.pool.peak <= if old(tree.pool.peak) > 1 then old(tree.pool.peak) else 1
        invariant tree.pool.wal.currentLsn == old(tree.pool.wal.currentLsn)
        decreases |pages| - k
      {
        ghost var s := tree.pool.state;
        WalkPage(view, term, pages, k, current, out, max);
        WalkNext(view, term, pages, k, current, out, max);
        var page := tree.pool.Read(current, BufferPool.Normal);
        SeenTwice(old(tree.pool.state), s, tree.pool.state);
        if |page.postings| == 0 || |page.postings| > MAX_POSTINGS {
          break;
        }
        out := CopyPostings(out, page.postings, max);
        if page.next == current {
          break;
        }
        current := page.next;
        k := k + 1;
      }
      if current != INVALID {
        WalkPage(view, term, pages, k, current, out, max);
      }
      WalkFinished(view, term, pages, k, current, out, max);
    }

    static method CopyPostings(out: seq<Posting>, postings: seq<Posting>, max: nat) returns (all: seq<Posting>)
      requires |out| <= max
      ensures all == out + Take(postings, max - |out|)
    {
      all := out;
      var i := 0;
      while i < |postings| && |all| < max
        invariant 0 <= i <= |postings| && |out| + i <= max
        invariant all == out + postings[..i]
      {
        all := all + [postings[i]];
        i := i + 1;
      }
    }

    static function NewPosting(o: Occurrence): Posting {
      Posting(o.doc, o.page, o.slot, [o.position])
    }

    /** The found branch of inverted_index_add_posting on the newest page `p` of the term: the occurrence
        joins the last posting or becomes a new one; a full page makes room for a new page instead. */
    static method AddToChain(pool: BufferPool.Pool, p: u32, o: Occurrence, newId: u32) returns (added: bool)
      requires pool.Valid() && Quiet(pool.state) && p < |pool.state.disk| == newId && newId < INVALID
      requires (p as int) in pool.state.view && pool.state.view[p as int].Postings? && pool.state.view[p as int].term == o.term
      requires 1 <= |pool.state.view[p as int].postings| <= MAX_POSTINGS
      modifies pool, pool.frames, pool.wal
      ensures pool.Valid() && Quiet(pool.state)
      ensures var page := old(pool.state).view[p as int];
        if added then
          && |page.postings| == MAX_POSTINGS && page.postings[MAX_POSTINGS - 1].doc != o.doc
          && pool.state.view == old(pool.state).view[newId as int := Pages.Postings(o.term, p, [NewPosting(o)])]
          && |pool.state.disk| == newId + 1
        else
          && 1 <= |ExtendBy(page.postings, o)| <= MAX_POSTINGS
          && pool.state.view == old(pool.state).view[p as int := Pages.Postings(o.term, page.next, ExtendBy(page.postings, o))]
          && |pool.state.disk| == newId
      ensures pool.state.log == old(pool.state).log
      ensures pool.peak <= if old(pool.peak) > 2 then old(pool.peak) else 2
      ensures pool.wal.currentLsn == old(pool.wal.currentLsn)
    {
      hide State.Inv, BufferPool.Pool.Valid, FetchStep, Kept, Justified;
      PostingsJustified(pool.state.log);
      var f := BTree.BTree.FetchOne(pool, p);
      var page := pool.PageAt(f, p);
      var n := |page.postings|;
      added := false;
      if n > 0 && page.postings[n - 1].doc == o.doc {
        var last := page.postings[n - 1];
        if |last.positions| < MAX_POSITIONS {
          pool.Modify(f, p, page.(postings := page.postings[..n - 1] + [last.(positions := last.positions + [o.position])]));
        }
        pool.Unpin(p, true, BufferPool.Normal);
      } else if n < MAX_POSTINGS {
        pool.Modify(f, p, page.(postings := page.postings + [NewPosting(o)]));
        pool.Unpin(p, true, BufferPool.Normal);
      } else {
        pool.NewPage(newId, Pages.Postings(o.term, p, [NewPosting(o)]));
        pool.Unpin(p, false, BufferPool.Normal);
        added := true;
      }
      assert pool.state.pins == multiset{};
    }

    static lemma PostingsJustified(log: seq<Wal.Record>)
      ensures forall p: int, page: Page :: page.Postings? ==> Justified(p, page, log)
    {}

    /** The effect of one occurrence on the index: its term's list is extended, every other term's is not. */
    twostate predicate Added(o: Occurrence)
      requires old(Valid()) && Valid()
      reads this, tree, tree.pool, tree.pool.frames, tree.pool.wal, tree.counter
    {
      && Postings(o.term) == ExtendBy(old(Postings(o.term)), o)
      && (forall t: int :: t != o.term ==> Postings(t) == old(Postings(t)))
      && OthersKept(old(tree.pool.state).view, tree.pool.state.view, |old(tree.pool.state).disk|, |tree.pool.state.disk|)
    }

    /** A term the tree knows. */
    method AddFound(o: Occurrence, head: u32)
      requires Valid() && (o.term as int) in posts && head == posts[o.term as int][0]
      requires FIRST_FREE <= tree.counter.next < INVALID
      modifies this, tree, tree.pool, tree.pool.frames, tree.pool.wal, tree.counter
      ensures Valid() && Added(o)
      ensures old(tree.counter.next) <= tree.counter.next <= old(tree.counter.next) + 1
      ensures tree.pool.state.log == old(tree.pool.state).log
      ensures tree.pool.peak <= if old(tree.pool.peak) > 2 then old(tree.pool.peak) else 2
      ensures tree.pool.wal.currentLsn == old(tree.pool.wal.currentLsn)
    {
      hide State.Inv, BufferPool.Pool.Valid, TreeInv, Flat, Lookup, Chronological, NewestFirst, PostLinked, AllPostings, IndexInv, ExtendBy, Updated, Kept;
      ghost var view, size, entries, posts0 := tree.pool.state.view, |tree.pool.state.disk|, tree.Entries(), posts;
      tree.pool.Facts();
      ViewTotal(tree.pool.state);
      HeadFacts(view, posts, entries, size, o.term);
      var newId := tree.counter.next;
      var added := AddToChain(tree.pool, head, o, newId);
      ghost var view1 := tree.pool.state.view;
      if added {
        PageInTree(view, view1, tree.chain, size, newId);
        tree.counter.next := newId + 1;
        var ok := tree.Update(o.term, Location(newId, 0));
        tree.pool.Facts();
        ViewTotal(tree.pool.state);
        AddedPage(view, view1, tree.pool.state.view, tree.chain, posts, entries, tree.Entries(), size, o, head);
        posts := posts[o.term as int := [newId as int] + posts[o.term as int]];
      } else {
        HeadInTree(view, view1, tree.chain, size, head);
        RewrittenHead(view, view1, posts, entries, size, o);
      }
    }

    /** A term the tree does not know: a first page, then an entry for it. */
    method AddNew(o: Occurrence)
      requires Valid() && (o.term as int) !in posts
      requires FIRST_FREE <= tree.counter.next && tree.counter.next + 1 < INVALID
      requires tree.pool.wal.currentLsn + 2 < 0x1_0000_0000_0000_0000
      modifies this, tree, tree.pool, tree.pool.frames, tree.pool.wal, tree.counter
      ensures Valid() && Added(o)
      ensures old(tree.counter.next) <= tree.counter.next <= old(tree.counter.next) + 2
      ensures old(tree.pool.state).log <= tree.pool.state.log
      ensures tree.pool.peak <= if old(tree.pool.peak) > 2 then old(tree.pool.peak) else 2
      ensures old(tree.pool.wal.currentLsn) <= tree.pool.wal.currentLsn <= old(tree.pool.wal.currentLsn) + 2
    {
      hide State.Inv, BufferPool.Pool.Valid, TreeInv, Flat, Lookup, Chronological, NewestFirst, PostLinked, AllPostings, IndexInv, ExtendBy, Inserted, Kept, Justified, IsSplice;
      ghost var view, size, entries, chain := tree.pool.state.view, |tree.pool.state.disk|, tree.Entries(), tree.chain;
      tree.pool.Facts();
      ViewTotal(tree.pool.state);
      PostingsJustified(tree.pool.state.log);
      NotALeafYet(view, chain, posts, entries, size);
      var newId := tree.counter.next;
      tree.pool.NewPage(newId, Pages.Postings(o.term, INVALID, [NewPosting(o)]));
      tree.counter.next := newId + 1;
      ghost var view1 := tree.pool.state.view;
      PageInTree(view, view1, chain, size, newId);
      var ok := tree.Insert(o.term, Location(newId, 0), 0);
      tree.pool.Facts();
      ViewTotal(tree.pool.state);
      NewTerm(view, view1, tree.pool.state.view, chain, tree.chain, posts, entries, tree.Entries(), size, |tree.pool.state.disk|, o);
      posts := posts[o.term as int := [newId as int]];
    }

    /** inverted_index_add_posting */
    method AddPosting(o: Occurrence)
      requires Valid() && FIRST_FREE <= tree.counter.next && tree.counter.next + 1 < INVALID
      requires tree.pool.wal.currentLsn + 2 < 0x1_0000_0000_0000_0000
      modifies this, tree, tree.pool, tree.pool.frames, tree.pool.wal, tree.counter
      ensures Valid() && Added(o)
      ensures old(tree.counter.next) <= tree.counter.next <= old(tree.counter.next) + 2
      ensures old(tree.pool.state).log <= tree.pool.state.log
      ensures tree.pool.peak <= if old(tree.pool.peak) > 2 then old(tree.pool.peak) else 2
      ensures old(tree.pool.wal.currentLsn) <= tree.pool.wal.currentLsn <= old(tree.pool.wal.currentLsn) + 2
    {
      hide State.Inv, BufferPool.Pool.Valid, TreeInv, Flat, Lookup, IndexOf, OthersKept, ExtendBy, Kept;
      var found := tree.Search(o.term);
      IndexSeen(o.term);
      if found.Some? {
        AddFound(o, found.value.page);
      } else {
        AddNew(o);
      }
    }

    /** What the tree maps `term` to. */
    lemma IndexSeen(term: u32)
      requires Valid()
      ensures Lookup(tree.Entries(), term) == if (term as int) in posts then Some(Location(posts[term as int][0], 0)) else None
    {
      hide State.Inv, BufferPool.Pool.Valid, TreeInv, Flat;
    }
  }

  /** No page past the end of the file is a posting page. */
  lemma NotALeafYet(view: View, chain: seq<int>, posts: map<int, seq<int>>, entries: seq<Entry>, size: int)
    requires IndexInv(view, posts, entries, size) && TreeInv(view, chain, size) && size in view
    ensures !view[size].Postings? && !view[size].Leaf?
  {}

  lemma NewTerm(view: View, view1: View, view2: View, chain: seq<int>, chain2: seq<int>, posts: map<int, seq<int>>,
                entries: seq<Entry>, entries': seq<Entry>, size: int, size': int, o: Occurrence)
    requires IndexInv(view, posts, entries, size) && (o.term as int) !in posts && (forall p: int :: p in view && p in view2)
    requires FIRST_FREE <= size < INVALID && !view[size].Postings? && TreeInv(view, chain, size) && TreeInv(view2, chain2, size')
    requires view1 == view[size := Pages.Postings(o.term, INVALID, [Index.NewPosting(o)])]
    requires if size' == size + 1 then chain2 == chain
             else size' == size + 2 && IsSplice(chain, chain2, size + 1)
    requires forall p: int :: p !in chain2 ==> p in view2 && p in view1 && view2[p] == view1[p]
    requires Inserted(entries, entries', Entry(o.term, size, 0))
    ensures var posts' := posts[o.term as int := [size]];
      && IndexInv(view2, posts', entries', size') && OthersKept(view, view2, size, size')
      && IndexOf(view2, posts', o.term) == ExtendBy(IndexOf(view, posts, o.term), o)
      && forall t: int :: t != o.term ==> IndexOf(view2, posts', t) == IndexOf(view, posts, t)
  {
    hide PostLinked, Chronological, NewestFirst, AllPostings, Lookup, Flat, IsChain, IsSplice;
    assert Lookup(entries, o.term).None?;
    assert forall key: u64 :: Lookup(entries', key) == if key == o.term then Some(Location(size, 0)) else Lookup(entries, key);
    ChainFacts(view, chain, size);
    ChainFacts(view2, chain2, size');
    if size' == size + 2 {
      SpliceMembers(chain, chain2, size + 1);
    }
    PageAdded(view, view2, posts, entries, entries', size, size', o.term, Index.NewPosting(o));
    assert [size] + [] == [size];
  }

  lemma HeadFacts(view: View, posts: map<int, seq<int>>, entries: seq<Entry>, size: int, term: u32)
    requires IndexInv(view, posts, entries, size) && (term as int) in posts
    ensures |posts[term as int]| > 0 && PostLinked(view, term, posts[term as int])
    ensures var head := posts[term as int][0];
      && FIRST_FREE <= head < size && head < INVALID && head in view && view[head].Postings? && view[head].term == term
      && 1 <= |view[head].postings| <= MAX_POSTINGS
      && Lookup(entries, term) == Some(Location(head, 0))
  {
    var pages := posts[term as int];
    assert pages[0] in view && view[pages[0]].Postings?;
    assert Lookup(entries, term) == if (term as int) in posts then Some(Location(posts[term as int][0], 0)) else None;
  }

  /** A page outside the tree gets new contents that are not a leaf. */
  lemma HeadInTree(view: View, view': View, chain: seq<int>, size: int, p: int)
    requires TreeInv(view, chain, size) && p in view && !view[p].Leaf? && p in view' && !view'[p].Leaf?
    requires view' == view[p := view'[p]]
    ensures TreeInv(view', chain, size) && Flat(view', chain) == Flat(view, chain)
  {
    TreeInvKept(view, view', chain, size, size);
  }

  /** The page just allocated at the end of the file is not a leaf. */
  lemma PageInTree(view: View, view': View, chain: seq<int>, size: int, p: int)
    requires TreeInv(view, chain, size) && p == size && p in view' && !view'[p].Leaf?
    requires view' == view[p := view'[p]]
    ensures TreeInv(view', chain, size + 1) && Flat(view', chain) == Flat(view, chain)
  {
    TreeInvKept(view, view', chain, size, size + 1);
  }

  lemma RewrittenHead(view: View, view': View, posts: map<int, seq<int>>, entries: seq<Entry>, size: int, o: Occurrence)
    requires IndexInv(view, posts, entries, size) && (o.term as int) in posts && forall p: int :: p in view
    requires |posts[o.term as int]| > 0 && posts[o.term as int][0] in view && view[posts[o.term as int][0]].Postings?
    requires PostLinked(view, o.term, posts[o.term as int])
    requires var head := posts[o.term as int][0];
      && 1 <= |ExtendBy(view[head].postings, o)| <= MAX_POSTINGS && 1 <= |view[head].postings|
      && view' == view[head := Pages.Postings(o.term, view[head].next, ExtendBy(view[head].postings, o))]
    ensures IndexInv(view', posts, entries, size) && OthersKept(view, view', size, size)
    ensures IndexOf(view', posts, o.term) == ExtendBy(IndexOf(view, posts, o.term), o)
    ensures forall t: int :: t != o.term ==> IndexOf(view', posts, t) == IndexOf(view, posts, t)
  {
    var pages := posts[o.term as int];
    ChronologicalNonempty(view, o.term, pages);
    ExtendTail(Chronological(view, pages[1..]), view[pages[0]].postings, o.doc, o.page, o.slot, o.position);
    HeadRewritten(view, view', posts, entries, size, o.term, ExtendBy(view[pages[0]].postings, o));
  }

  lemma AddedPage(view: View, view1: View, view2: View, chain: seq<int>, posts: map<int, seq<int>>, entries: seq<Entry>, entries': seq<Entry>,
                  size: int, o: Occurrence, head: int)
    requires IndexInv(view, posts, entries, size) && (o.term as int) in posts && (forall p: int :: p in view && p in view2)
    requires FIRST_FREE <= size < INVALID && TreeInv(view, chain, size) && TreeInv(view2, chain, size + 1)
    requires |posts[o.term as int]| > 0 && head == posts[o.term as int][0] && head in view && view[head].Postings? && 0 <= head < INVALID
    requires PostLinked(view, o.term, posts[o.term as int])
    requires |view[head].postings| == MAX_POSTINGS && view[head].postings[MAX_POSTINGS - 1].doc != o.doc
    requires view1 == view[size := Pages.Postings(o.term, head, [Index.NewPosting(o)])]
    requires forall p: int :: p !in chain ==> p in view2 && p in view1 && view2[p] == view1[p]
    requires Lookup(entries, o.term).Some? && entries' == Updated(entries, o.term, Location(size, 0))
    ensures var posts' := posts[o.term as int := [size] + posts[o.term as int]];
      && IndexInv(view2, posts', entries', size + 1) && OthersKept(view, view2, size, size + 1)
      && IndexOf(view2, posts', o.term) == ExtendBy(IndexOf(view, posts, o.term), o)
      && forall t: int :: t != o.term ==> IndexOf(view2, posts', t) == IndexOf(view, posts, t)
  {
    hide PostLinked, Chronological, NewestFirst, AllPostings, Lookup, Updated, Flat, IsChain;
    forall key: u64 ensures Lookup(entries', key) == if key == o.term then Some(Location(size, 0)) else Lookup(entries, key) {
      UpdatedLookup(entries, o.term, Location(size, 0), key);
    }
    ChainFacts(view, chain, size);
    ChainFacts(view2, chain, size + 1);
    ChronologicalNonempty(view, o.term, posts[o.term as int]) by { LinkedIsPostings(view, o.term, posts[o.term as int]); }
    PageAdded(view, view2, posts, entries, entries', size, size + 1, o.term, Index.NewPosting(o));
  }

  lemma LinkedIsPostings(view: View, term: int, pages: seq<int>)
    requires PostLinked(view, term, pages)
    ensures AllPostings(view, term, pages)
  {}

  lemma ChainFacts(view: View, chain: seq<int>, size: int)
    requires TreeInv(view, chain, size)
    ensures forall p :: p in chain ==> p in view && view[p].Leaf? && p < size
  {}
}
