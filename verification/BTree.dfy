/** src/btree.c over the buffer pool. */
module BTree {
  import opened Bytes
  import opened Pages
  import opened PoolState
  import opened LeafChain
  import opened Common
  import opened Sequences
  import BufferPool
  import Wal

  /** The page counter the tree shares with its shard. */
  class PageCounter {
    var next: u32
    constructor (n: u32) ensures next == n { next := n; }
  }

  method SearchLeaf(entries: seq<Entry>, key: u64) returns (found: Option<Location>)
    ensures found == Lookup(entries, key)
  {
    for i := 0 to |entries|
      invariant Lookup(entries, key) == Lookup(entries[i..], key)
    {
      assert entries[i..][1..] == entries[i + 1..];
      if entries[i].key == key {
        return Some(Location(entries[i].page, entries[i].slot));
      }
    }
    return None;
  }

  method UpdateLeaf(entries: seq<Entry>, key: u64, to: Location) returns (ok: bool, result: seq<Entry>)
    ensures ok == Lookup(entries, key).Some?
    ensures ok ==> result == Updated(entries, key, to)
  {
    result := entries;
    for i := 0 to |entries|
      invariant result == entries && forall j :: 0 <= j < i ==> entries[j].key != key
    {
      if entries[i].key == key {
        result := result[i := Entry(key, to.page, to.slot)];
        FirstAt(entries, i, key, to);
        return true, result;
      }
    }
    LookupAbsent(entries, key);
    return false, result;
  }

  lemma {:induction false} FirstAt(es: seq<Entry>, i: nat, key: u64, to: Location)
    requires i < |es| && es[i].key == key && forall j :: 0 <= j < i ==> es[j].key != key
    ensures Updated(es, key, to) == es[i := Entry(key, to.page, to.slot)]
    ensures Lookup(es, key).Some?
  {
    if i > 0 {
      FirstAt(es[1..], i - 1, key, to);
    }
  }

  /** The sorted insertion of btree_insert: finds the index, shifts the later entries right, stores the new one. */
  method ShiftInsert(entries: seq<Entry>, e: Entry) returns (index: nat, result: seq<Entry>)
    requires Sorted(entries)
    ensures index <= |entries| && result == entries[..index] + [e] + entries[index..]
    ensures forall j :: 0 <= j < index ==> entries[j].key <= e.key
    ensures forall j :: index <= j < |entries| ==> e.key < entries[j].key
  {
    index := |entries|;
    for i := 0 to |entries|
      invariant index == |entries|
      invariant forall j :: 0 <= j < i ==> entries[j].key <= e.key
    {
      if entries[i].key > e.key {
        index := i;
        break;
      }
    }
    result := entries + [e];
    var i := |entries|;
    while i > index
      invariant index <= i <= |entries| && |result| == |entries| + 1
      invariant forall j :: 0 <= j < i ==> result[j] == entries[j]
      invariant forall j :: i < j <= |entries| ==> result[j] == entries[j - 1]
    {
      result := result[i := result[i - 1]];
      i := i - 1;
    }
    result := result[index := e];
  }

  class BTree {
    const pool: BufferPool.Pool
    const counter: PageCounter
    ghost var chain: seq<int>

    ghost predicate Valid()
      reads this, pool, pool.frames, pool.wal, counter
    {
      && pool.Valid() && Quiet(pool.state)
      && TreeInv(pool.state.view, chain, |pool.state.disk|)
      && counter.next == |pool.state.disk|
    }

    /** The tree as one list of entries. */
    ghost function Entries(): seq<Entry>
      requires Valid()
      reads this, pool, pool.frames, pool.wal, counter
    {
      Flat(pool.state.view, chain)
    }

    /** btree_init: a root page that is not a node yet becomes an empty leaf. */
    constructor (pool: BufferPool.Pool, counter: PageCounter, ghost existing: seq<int>)
      requires pool.Valid() && Quiet(pool.state) && counter.next == |pool.state.disk| > 0
      requires (ROOT as int) in pool.state.view
      requires if pool.state.view[ROOT as int].Leaf? then TreeInv(pool.state.view, existing, |pool.state.disk|)
               else forall p: int :: p in pool.state.view ==> !pool.state.view[p].Leaf?
      modifies pool, pool.frames, pool.wal
      ensures Valid() && this.pool == pool && this.counter == counter
      ensures pool.state.view == if old(pool.state).view[ROOT as int].Leaf? then old(pool.state).view
                                 else old(pool.state).view[ROOT as int := Leaf(0, INVALID, [])]
      ensures if old(pool.state).view[ROOT as int].Leaf? then chain == existing else chain == [ROOT as int] && Entries() == []
      ensures |pool.state.disk| == |old(pool.state).disk| && pool.state.log == old(pool.state).log
      ensures pool.peak <= if old(pool.peak) > 1 then old(pool.peak) else 1
      ensures pool.wal.currentLsn == old(pool.wal.currentLsn)
    {
      hide BufferPool.Pool.Valid;
      this.pool := pool;
      this.counter := counter;
      chain := existing;
      new;
      ghost var view := pool.state.view;
      InitRoot(pool);
      if !view[ROOT as int].Leaf? {
        chain := [ROOT as int];
        EmptyTree(view, |pool.state.disk|);
      }
    }

    static method InitRoot(pool: BufferPool.Pool)
      requires pool.Valid() && Quiet(pool.state) && |pool.state.disk| > 0 && (ROOT as int) in pool.state.view
      modifies pool, pool.frames, pool.wal
      ensures pool.Valid() && Quiet(pool.state)
      ensures pool.state.view == if old(pool.state).view[ROOT as int].Leaf? then old(pool.state).view
                                 else old(pool.state).view[ROOT as int := Leaf(0, INVALID, [])]
      ensures |pool.state.disk| == |old(pool.state).disk| && pool.state.log == old(pool.state).log
      ensures pool.peak <= if old(pool.peak) > 1 then old(pool.peak) else 1
      ensures pool.wal.currentLsn == old(pool.wal.currentLsn)
    {
      hide State.Inv, BufferPool.Pool.Valid, FetchStep, Kept, Justified;
      EmptyRootJustified(pool.state.log);
      var f := pool.Fetch(ROOT);
      var page := pool.PageAt(f, ROOT);
      if page.Leaf? {
        pool.Unpin(ROOT, false, BufferPool.Normal);
      } else {
        pool.Modify(f, ROOT, Leaf(0, INVALID, []));
        pool.Unpin(ROOT, true, BufferPool.Normal);
      }
      assert pool.state.pins == multiset{};
    }

    static lemma EmptyRootJustified(log: seq<Wal.Record>)
      ensures Justified(ROOT, Leaf(0, INVALID, []), log)
    {}

    static lemma EmptyTree(view: View, size: int)
      requires forall p: int :: p in view ==> !view[p].Leaf?
      requires size > 0
      ensures var view' := view[ROOT as int := Leaf(0, INVALID, [])];
        TreeInv(view', [ROOT as int], size) && Flat(view', [ROOT as int]) == []
    {
      var view' := view[ROOT as int := Leaf(0, INVALID, [])];
      assert [ROOT as int][1..] == [];
      assert Flat(view', [ROOT as int]) == [];
    }

    /** btree_search: finds what the entries map `key` to, visiting no more leaves than there are. */
    method Search(key: u64) returns (found: Option<Location>)
      requires Valid()
      modifies pool, pool.frames, pool.wal
      ensures Valid() && Seen(old(pool.state), pool.state)
      ensures found == Lookup(Entries(), key)
      ensures var es := Entries();
        exists i :: FoundAt(es, key, i) && found == if i < 0 then None else Some(Location(es[i].page, es[i].slot))
      ensures pool.fetches <= old(pool.fetches) + |chain|
      ensures pool.peak <= if old(pool.peak) > 1 then old(pool.peak) else 1
      ensures pool.wal.currentLsn == old(pool.wal.currentLsn)
    {
      hide State.Inv, BufferPool.Pool.Valid, Lookup, TreeInv, Flat, Kept, FoundAt, Updated;
      ghost var view := pool.state.view;
      TreeLinked(view, chain, |pool.state.disk|);
      ghost var first := FirstEntry(Flat(view, chain), key, Location(0, 0));
      ghost var k := 0;
      var current: u32 := ROOT;
      assert chain[0..] == chain;
      SeenNothing(pool.state);
      while current != INVALID
        invariant 0 <= k <= |chain| && current == if k < |chain| then chain[k] else INVALID
        invariant Valid() && pool.state.view == view && Seen(old(pool.state), pool.state)
        invariant Lookup(Flat(view, chain), key) == Lookup(Flat(view, chain[k..]), key)
        invariant pool.fetches <= old(pool.fetches) + k
        invariant pool.peak <= if old(pool.peak) > 1 then old(pool.peak) else 1
        invariant pool.wal.currentLsn == old(pool.wal.currentLsn)
        decreases |chain| - k
      {
        ghost var s := pool.state;
        NextLeaf(view, chain, k);
        SearchRest(view, chain, k, key);
        var leaf := pool.Read(current, BufferPool.Normal);
        SeenTwice(old(pool.state), s, pool.state);
        assert leaf == view[chain[k]];
        found := SearchLeaf(leaf.entries, key);
        if found.Some? {
          return;
        }
        current := leaf.next;
        k := k + 1;
      }
      assert chain[k..] == [];
      EmptyLookup(view, key);
      return None;
    }

    /** A tree of `n` entries has at most max(1, n / 125) leaves: no leaf has more than 250 and, of several, none fewer than 125. */
    lemma LeafCount()
      requires Valid()
      ensures |chain| <= if |Entries()| < 125 then 1 else |Entries()| / 125
      ensures forall k :: 0 <= k < |chain| ==> LeafOf(pool.state.view, chain[k], if |chain| > 1 then 125 else 0, 250)
    {
      forall k | 0 <= k < |chain| ensures LeafOf(pool.state.view, chain[k], if |chain| > 1 then 125 else 0, 250) {
        LeafSize(pool.state.view, chain, |pool.state.disk|, k);
      }
      hide State.Inv, BufferPool.Pool.Valid, Flat, IsChain;
      OccupancyBound(pool.state.view, chain);
    }

    static lemma TreeLinked(view: View, chain: seq<int>, size: int)
      requires TreeInv(view, chain, size)
      ensures IsChain(view, chain) && Linked(view, chain) && |chain| > 0 && chain[0] == ROOT
    {}

    static lemma NothingBelow(view: View, chain: seq<int>, key: u64)
      requires AllLeaves(view, chain)
      ensures AllBelow(Flat(view, chain[..0]), key)
    {}

    lemma EmptyLookup(view: View, key: u64)
      ensures Flat(view, []) == [] && Lookup([], key) == None
    {}

    /** One leaf of btree_update. */
    static method UpdateAt(pool: BufferPool.Pool, current: u32, key: u64, to: Location) returns (ok: bool, next: u32)
      requires pool.Valid() && Quiet(pool.state) && current < |pool.state.disk| && current != INVALID
      requires (current as int) in pool.state.view && pool.state.view[current as int].Leaf?
      modifies pool, pool.frames, pool.wal
      ensures pool.Valid() && Quiet(pool.state)
      ensures var leaf := old(pool.state).view[current as int];
        && ok == Lookup(leaf.entries, key).Some? && next == leaf.next
        && pool.state.view == if ok then EntriesView(old(pool.state).view, current, leaf.lsn, Updated(leaf.entries, key, to)) else old(pool.state).view
      ensures |pool.state.disk| == |old(pool.state).disk| && pool.state.log == old(pool.state).log
      ensures pool.peak <= if old(pool.peak) > 1 then old(pool.peak) else 1
      ensures pool.wal.currentLsn == old(pool.wal.currentLsn)
    {
      hide State.Inv, BufferPool.Pool.Valid, FetchStep, Kept, Justified, Lookup, Updated;
      pool.Facts();
      ViewJustified(pool.state, current);
      var f := pool.Fetch(current);
      var leaf := pool.PageAt(f, current);
      var entries;
      ok, entries := UpdateLeaf(leaf.entries, key, to);
      if ok {
        UpdatedJustified(current, leaf, key, to, pool.state.log);
        pool.Modify(f, current, leaf.(entries := entries));
      }
      pool.Unpin(current, ok, BufferPool.Normal);
      assert pool.state.pins == multiset{};
      next := leaf.next;
    }

    static lemma UpdatedJustified(p: int, leaf: Page, key: u64, to: Location, log: seq<Wal.Record>)
      requires leaf.Leaf? && Justified(p, leaf, log)
      ensures Justified(p, leaf.(entries := Updated(leaf.entries, key, to)), log)
    {
      hide Has, HasSplit;
      UpdatedKeys(leaf.entries, key, to);
    }

    /** btree_update: redirects the first entry for `key`, if there is one. */
    method Update(key: u64, to: Location) returns (ok: bool)
      requires Valid()
      modifies pool, pool.frames, pool.wal
      ensures Valid() && ok == Lookup(old(Entries()), key).Some?
      ensures Entries() == if ok then Updated(old(Entries()), key, to) else old(Entries())
      ensures var es := old(Entries());
        exists i :: FoundAt(es, key, i) && (ok <==> i >= 0) && Entries() == if ok then es[i := Entry(key, to.page, to.slot)] else es
      ensures forall p: int :: p !in chain ==> p in pool.state.view && pool.state.view[p] == old(pool.state).view[p]
      ensures |pool.state.disk| == |old(pool.state).disk| && pool.state.log == old(pool.state).log
      ensures pool.peak <= if old(pool.peak) > 1 then old(pool.peak) else 1
      ensures pool.wal.currentLsn == old(pool.wal.currentLsn)
    {
      hide State.Inv, BufferPool.Pool.Valid, Lookup, Sorted, Occupied, NoRepeats, Kept, Updated, FoundAt;
      ghost var view := pool.state.view;
      ghost var first := FirstEntry(Entries(), key, to);
      pool.Facts();
      ViewTotal(pool.state);
      ghost var k := 0;
      var current: u32 := ROOT;
      EmptyLookup(view, key);
      while current != INVALID
        invariant 0 <= k <= |chain| && current == if k < |chain| then chain[k] else INVALID
        invariant Valid() && pool.state.view == view
        invariant |pool.state.disk| == |old(pool.state).disk| && pool.state.log == old(pool.state).log
        invariant Lookup(Flat(view, chain[..k]), key).None?
        invariant pool.peak <= if old(pool.peak) > 1 then old(pool.peak) else 1
        invariant pool.wal.currentLsn == old(pool.wal.currentLsn)
        decreases |chain| - k
      {
        NextLeaf(view, chain, k);
        var next: u32;
        ok, next := UpdateAt(pool, current, key, to);
        if ok {
          UpdateTree(view, chain, k, key, to, |pool.state.disk|);
          return;
        }
        PassLeaf(view, chain, k, key);
        current := next;
        k := k + 1;
      }
      assert chain[..k] == chain;
      return false;
    }

    /** Exactly page `p` is pinned, in frame `f`, and nothing is half-written. */
    static ghost predicate OnePin(s: State, f: int, p: int) {
      s.pins == multiset{p} && s.touched == {} && s.Holds(f, p) && |s.frames| >= 2
    }

    /** Unpin one page, pin the next. */
    static method Hop(pool: BufferPool.Pool, from: u32, to: u32, ghost g: int) returns (f: int)
      requires pool.Valid() && OnePin(pool.state, g, from) && from != INVALID && to != INVALID
      modifies pool, pool.frames, pool.wal
      ensures pool.Valid() && OnePin(pool.state, f, to) && Invisible(old(pool.state), pool.state)
      ensures pool.fetches == old(pool.fetches) + 1
      ensures pool.peak <= if old(pool.peak) > 1 then old(pool.peak) else 1
      ensures pool.wal.currentLsn == old(pool.wal.currentLsn)
    {
      hide State.Inv, BufferPool.Pool.Valid, FetchStep, Kept;
      pool.Unpin(from, false, BufferPool.Normal);
      assert pool.state.pins == multiset{};
      f := pool.Fetch(to);
      assert pool.state.pins == multiset{to as int};
    }

    static method FetchOne(pool: BufferPool.Pool, p: u32) returns (f: int)
      requires pool.Valid() && Quiet(pool.state) && p != INVALID
      modifies pool, pool.frames, pool.wal
      ensures pool.Valid() && OnePin(pool.state, f, p) && Invisible(old(pool.state), pool.state)
      ensures pool.fetches == old(pool.fetches) + 1
      ensures pool.peak <= if old(pool.peak) > 1 then old(pool.peak) else 1
      ensures pool.wal.currentLsn == old(pool.wal.currentLsn)
    {
      hide State.Inv, BufferPool.Pool.Valid, FetchStep, Kept;
      f := pool.Fetch(p);
      assert pool.state.pins == multiset{p as int};
    }

    /** The tree while one of its leaves is pinned. */
    ghost predicate Walking(f: int, p: int)
      reads this, pool, pool.frames, pool.wal, counter
    {
      && pool.Valid() && OnePin(pool.state, f, p)
      && TreeInv(pool.state.view, chain, |pool.state.disk|)
      && counter.next == |pool.state.disk|
    }

    /** The walk of btree_insert to the leaf where `key` belongs; that leaf stays pinned. */
    method Descend(key: u64) returns (current: u32, f: int, ghost k: nat)
      requires Valid()
      modifies pool, pool.frames, pool.wal
      ensures Walking(f, current) && Invisible(old(pool.state), pool.state)
      ensures k < |chain| && chain[k] == current && WalkEnds(pool.state.view, chain, k, key)
      ensures pool.fetches <= old(pool.fetches) + |chain|
      ensures pool.peak <= if old(pool.peak) > 1 then old(pool.peak) else 1
      ensures pool.wal.currentLsn == old(pool.wal.currentLsn)
    {
      hide State.Inv, BufferPool.Pool.Valid, TreeInv, IsChain, Flat, AllBelow, WalkEnds, State.Holds;
      ghost var view := pool.state.view;
      TreeLinked(view, chain, |pool.state.disk|);
      NothingBelow(view, chain, key);
      k := 0;
      current := ROOT;
      f := FetchOne(pool, current);
      var leaf := PinnedLeaf(f, current, 0);
      while leaf.next != INVALID && |leaf.entries| > 0 && key > leaf.entries[|leaf.entries| - 1].key
        invariant k < |chain| && chain[k] == current && leaf == view[chain[k]]
        invariant Walking(f, current) && Invisible(old(pool.state), pool.state)
        invariant AllBelow(Flat(view, chain[..k]), key)
        invariant pool.fetches <= old(pool.fetches) + k + 1
        invariant pool.peak <= if old(pool.peak) > 1 then old(pool.peak) else 1
        invariant pool.wal.currentLsn == old(pool.wal.currentLsn)
        decreases |chain| - k
      {
        NextLeaf(view, chain, k);
        StepRight(view, chain, k, key);
        f := Hop(pool, current, leaf.next, f);
        current := leaf.next;
        k := k + 1;
        leaf := PinnedLeaf(f, current, k);
      }
      WalkStops(view, chain, k, key);
    }

    method PinnedLeaf(f: int, current: u32, ghost k: nat) returns (leaf: Page)
      requires Walking(f, current) && k < |chain| && chain[k] == current
      ensures leaf.Leaf? && leaf == pool.state.view[chain[k]]
    {
      hide State.Inv, Sorted, Occupied, NoRepeats;
      leaf := pool.PageAt(f, current);
    }

    static lemma WalkStops(view: View, chain: seq<int>, k: nat, key: u64)
      requires IsChain(view, chain) && k < |chain| && AllBelow(Flat(view, chain[..k]), key)
      requires var leaf := view[chain[k]];
        !(leaf.next != INVALID && |leaf.entries| > 0 && key > leaf.entries[|leaf.entries| - 1].key)
      ensures WalkEnds(view, chain, k, key)
    {
      NextLeaf(view, chain, k);
    }

    static function SplitRequest(txn: u32, p: u32, newId: u32): Wal.Request {
      Wal.Request(txn, Wal.BTREE_SPLIT, p, 0, SplitPayload(p, newId))
    }

    /** The log's request for a split, byte by byte. */
    static ghost predicate LogsSplit(request: Wal.Request, txn: u32, p: u32, newId: u32) {
      && request.txn == txn && request.kind == 5 && request.page == p && request.slot == 0
      && |request.payload| == 16 && Decode(request.payload[0..8]) == p && Decode(request.payload[8..16]) == newId
    }

    static lemma SplitFields(txn: u32, p: u32, newId: u32)
      ensures LogsSplit(SplitRequest(txn, p, newId), txn, p, newId)
    {
      hide Encode, Decode;
      Powers();
      DecodeEncode(p, 8);
      DecodeEncode(newId, 8);
      var payload := SplitRequest(txn, p, newId).payload;
      assert payload[0..8] == Encode(p, 8) && payload[8..16] == Encode(newId, 8);
    }

    /** Fetches the old leaf, allocates the new page in the file and fetches it too. */
    static method FetchBoth(pool: BufferPool.Pool, p: u32, newId: u32) returns (f: int, g: int)
      requires pool.Valid() && Quiet(pool.state) && p < |pool.state.disk| == newId && newId < INVALID
      modifies pool, pool.frames, pool.wal
      ensures pool.Valid() && pool.state.pins == multiset{p as int, newId as int} && pool.state.touched <= {newId as int}
      ensures pool.state.Holds(f, p) && pool.state.Holds(g, newId)
      ensures forall q: int :: q in pool.state.view && (q != newId ==> pool.state.view[q] == old(pool.state).view[q])
      ensures |pool.state.disk| == newId + 1 && pool.state.log == old(pool.state).log && |pool.state.frames| == |old(pool.state).frames|
      ensures pool.fetches == old(pool.fetches) + 2
      ensures pool.peak <= if old(pool.peak) > 2 then old(pool.peak) else 2
      ensures pool.wal.currentLsn == old(pool.wal.currentLsn)
    {
      hide State.Inv, BufferPool.Pool.Valid, FetchStep, Kept;
      pool.Facts();
      ViewTotal(pool.state);
      f := FetchOne(pool, p);
      pool.WriteZeros(newId);
      ghost var s := pool.state;
      g := pool.Fetch(newId);
      HoldsKept(s, pool.state, f, p);
      assert pool.state.pins == multiset{p as int, newId as int};
    }

    /** The page work of split_leaf_node. */
    static method SplitPages(pool: BufferPool.Pool, p: u32, newId: u32, txn: u32) returns (lsn: u64)
      requires pool.Valid() && Quiet(pool.state) && p < |pool.state.disk| == newId && newId < INVALID
      requires (p as int) in pool.state.view && pool.state.view[p as int].Leaf?
      requires pool.wal.currentLsn + 1 < 0x1_0000_0000_0000_0000
      modifies pool, pool.frames, pool.wal
      ensures pool.Valid() && Quiet(pool.state)
      ensures pool.state.view == SplitView(old(pool.state).view, p, newId, lsn)
      ensures pool.state.log == old(pool.state).log + [Wal.Record(lsn, SplitRequest(txn, p, newId))]
      ensures |pool.state.disk| == newId + 1
      ensures pool.fetches == old(pool.fetches) + 2
      ensures pool.peak <= if old(pool.peak) > 2 then old(pool.peak) else 2
      ensures pool.wal.currentLsn == old(pool.wal.currentLsn) + 1
    {
      hide State.Inv, BufferPool.Pool.Valid, FetchStep, Kept, Justified, SplitView;
      pool.Facts();
      ViewJustified(pool.state, p);
      ViewTotal(pool.state);
      ghost var view := pool.state.view;
      var f, g := FetchBoth(pool, p, newId);
      ghost var fetched := pool.state.view;
      var oldLeaf := pool.PageAt(f, p);
      // The new page starts as an empty leaf, takes the upper half, and is linked in behind the old one.
      var mid := |oldLeaf.entries| / 2;
      var newLeaf := Leaf(0, 0, oldLeaf.entries[mid..]);
      newLeaf := Leaf(0, oldLeaf.next, newLeaf.entries);
      oldLeaf := Leaf(oldLeaf.lsn, newId, oldLeaf.entries[..mid]);
      lsn := pool.Log(SplitRequest(txn, p, newId));
      oldLeaf := oldLeaf.(lsn := lsn);
      newLeaf := newLeaf.(lsn := lsn);
      pool.Modify(f, p, oldLeaf);
      pool.Modify(g, newId, newLeaf);
      SplitJustified(p, newId, view[p as int], mid, lsn, txn, pool.state.log);
      pool.Unpin(p, true, BufferPool.Normal);
      pool.Unpin(newId, true, BufferPool.Normal);
      assert pool.state.pins == multiset{};
      SplitViewIs(view, fetched, p, newId, lsn);
    }

    static lemma SplitViewIs(view: View, fetched: View, p: int, newId: int, lsn: u64)
      requires p in view && view[p].Leaf? && 0 <= newId < INVALID && p != newId
      requires forall q: int :: q in view && q in fetched && (q != newId ==> fetched[q] == view[q])
      ensures var leaf := view[p];
        var mid := |leaf.entries| / 2;
        fetched[p := Leaf(lsn, newId, leaf.entries[..mid])][newId := Leaf(lsn, leaf.next, leaf.entries[mid..])] == SplitView(view, p, newId, lsn)
    {
      var leaf, mid := view[p], |view[p].entries| / 2;
      var l := fetched[p := Leaf(lsn, newId, leaf.entries[..mid])][newId := Leaf(lsn, leaf.next, leaf.entries[mid..])];
      var r := SplitView(view, p, newId, lsn);
      forall q: int ensures q in l && q in r && l[q] == r[q] {
        assert q in view && q in fetched;
      }
    }

    static lemma SplitJustified(p: u32, newId: u32, leaf: Page, mid: nat, lsn: u64, txn: u32, log: seq<Wal.Record>)
      requires leaf.Leaf? && mid <= |leaf.entries|
      requires |log| > 0 && log[|log| - 1] == Wal.Record(lsn, SplitRequest(txn, p, newId)) && Justified(p, leaf, log[..|log| - 1])
      ensures Justified(p, Leaf(lsn, newId, leaf.entries[..mid]), log)
      ensures Justified(newId, Leaf(lsn, leaf.next, leaf.entries[mid..]), log)
    {
      JustifiedMonotone(p, leaf, log[..|log| - 1], log);
      assert Has(log, Wal.BTREE_SPLIT, SplitPayload(p, newId));
      assert HasSplit(log, newId);
      assert HasLsn(log, lsn);
      hide Has, HasSplit, HasLsn;
    }

    /** split_leaf_node on leaf `k` of the chain. */
    method SplitLeaf(current: u32, txn: u32, ghost k: nat) returns (ghost lsn: u64)
      requires Valid() && k < |chain| && chain[k] == current
      requires |pool.state.view[chain[k]].entries| == MAX_LEAF_ENTRIES
      requires counter.next < INVALID && pool.wal.currentLsn + 1 < 0x1_0000_0000_0000_0000
      modifies this, pool, pool.frames, pool.wal, counter
      ensures Valid() && counter.next == old(counter.next) + 1
      ensures chain == Spliced(old(chain), k, old(counter.next))
      ensures pool.state.view == SplitView(old(pool.state).view, current, old(counter.next), lsn)
      ensures SplitInHalves(old(pool.state).view, pool.state.view, current, old(counter.next), lsn) && Entries() == old(Entries())
      ensures pool.state.log == old(pool.state).log + [Wal.Record(lsn, SplitRequest(txn, current, old(counter.next)))]
      ensures LogsSplit(SplitRequest(txn, current, old(counter.next)), txn, current, old(counter.next))
      ensures pool.fetches == old(pool.fetches) + 2
      ensures pool.peak <= if old(pool.peak) > 2 then old(pool.peak) else 2
      ensures pool.wal.currentLsn == old(pool.wal.currentLsn) + 1
    {
      hide State.Inv, BufferPool.Pool.Valid, TreeInv, Flat, SplitView, SplitRequest, LogsSplit, SplitInHalves;
      ghost var view := pool.state.view;
      ghost var size := |pool.state.disk|;
      TreeLeaf(view, chain, size, k);
      var newId := counter.next;
      SplitFields(txn, current, newId);
      counter.next := newId + 1;
      lsn := SplitPages(pool, current, newId, txn);
      HalvesOf(view, current, newId, lsn);
      SplitTree(view, chain, k, size, lsn);
      chain := Spliced(chain, k, newId);
    }

    static function InsertRequest(txn: u32, p: u32, index: u16, key: u64): Wal.Request {
      Wal.Request(txn, Wal.REC_INSERT, p, index, Encode(key, 8))
    }

    /** The last record of the log is that of this insertion, and the entry is where it says. */
    static ghost predicate LogsInsert(s: State, txn: u32, e: Entry) {
      && s.log != []
      && var last := s.log[|s.log| - 1];
      && last.request.txn == txn && last.request.kind == 1 && |last.request.payload| == 8 && Decode(last.request.payload) == e.key
      && (last.request.page as int) in s.view && s.view[last.request.page as int].Leaf?
      && s.view[last.request.page as int].lsn == last.lsn
      && last.request.slot < |s.view[last.request.page as int].entries| && s.view[last.request.page as int].entries[last.request.slot] == e
    }

    static lemma InsertFields(s: State, log: seq<Wal.Record>, view: View, txn: u32, p: u32, i: u16, es: seq<Entry>, e: Entry, lsn: u64)
      requires (p as int) in view && view[p as int].Leaf? && i <= |es|
      requires s.log == log + [Wal.Record(lsn, InsertRequest(txn, p, i, e.key))] && s.view == EntriesView(view, p, lsn, es[..i] + [e] + es[i..])
      ensures LogsInsert(s, txn, e)
    {
      hide Encode, Decode;
      Powers();
      DecodeEncode(e.key, 8);
    }

    /** The page work of the insertion into the pinned leaf. */
    static method StorePage(pool: BufferPool.Pool, f: int, p: u32, e: Entry, txn: u32) returns (lsn: u64, i: nat)
      requires pool.Valid() && OnePin(pool.state, f, p) && p < |pool.state.disk| && p != INVALID
      requires (p as int) in pool.state.view && pool.state.view[p as int].Leaf?
      requires Sorted(pool.state.view[p as int].entries) && |pool.state.view[p as int].entries| < MAX_LEAF_ENTRIES
      requires pool.wal.currentLsn + 1 < 0x1_0000_0000_0000_0000
      modifies pool, pool.frames, pool.wal
      ensures pool.Valid() && Quiet(pool.state)
      ensures var es := old(pool.state).view[p as int].entries;
        && i <= |es|
        && pool.state.view == EntriesView(old(pool.state).view, p, lsn, es[..i] + [e] + es[i..])
        && (forall j :: 0 <= j < i ==> es[j].key <= e.key) && (forall j :: i <= j < |es| ==> e.key < es[j].key)
        && pool.state.log == old(pool.state).log + [Wal.Record(lsn, InsertRequest(txn, p, i, e.key))]
      ensures |pool.state.disk| == |old(pool.state).disk|
      ensures pool.fetches == old(pool.fetches) && pool.peak == old(pool.peak)
      ensures pool.wal.currentLsn == old(pool.wal.currentLsn) + 1
    {
      hide State.Inv, BufferPool.Pool.Valid, FetchStep, Kept, Justified, Sorted, InsertRequest;
      pool.Facts();
      ViewJustified(pool.state, p);
      var leaf := pool.PageAt(f, p);
      var entries;
      i, entries := ShiftInsert(leaf.entries, e);
      lsn := pool.Log(InsertRequest(txn, p, i, e.key));
      pool.Modify(f, p, Leaf(lsn, leaf.next, entries));
      InsertJustified(p, leaf, e, i, lsn, txn, pool.state.log);
      pool.Unpin(p, true, BufferPool.Normal);
      assert pool.state.pins == multiset{};
    }

    static lemma InsertJustified(p: u32, leaf: Page, e: Entry, i: u16, lsn: u64, txn: u32, log: seq<Wal.Record>)
      requires leaf.Leaf? && i <= |leaf.entries|
      requires |log| > 0 && log[|log| - 1] == Wal.Record(lsn, InsertRequest(txn, p, i, e.key)) && Justified(p, leaf, log[..|log| - 1])
      ensures Justified(p, Leaf(lsn, leaf.next, leaf.entries[..i] + [e] + leaf.entries[i..]), log)
    {
      JustifiedMonotone(p, leaf, log[..|log| - 1], log);
      assert Has(log, Wal.REC_INSERT, Encode(e.key, 8));
      assert HasLsn(log, lsn);
      hide Has, HasSplit, HasLsn;
    }

    /** The insertion into leaf `k`, which is pinned and has room. */
    method StoreEntry(f: int, current: u32, e: Entry, txn: u32, ghost k: nat)
      requires Walking(f, current) && k < |chain| && chain[k] == current && WalkEnds(pool.state.view, chain, k, e.key)
      requires |pool.state.view[chain[k]].entries| < MAX_LEAF_ENTRIES
      requires pool.wal.currentLsn + 1 < 0x1_0000_0000_0000_0000
      modifies pool, pool.frames, pool.wal
      ensures Valid() && Inserted(Flat(old(pool.state).view, chain), Entries(), e) && LogsInsert(pool.state, txn, e)
      ensures forall p: int :: p !in chain ==> p in pool.state.view && pool.state.view[p] == old(pool.state).view[p]
      ensures old(pool.state).log <= pool.state.log
      ensures pool.fetches == old(pool.fetches) && pool.peak == old(pool.peak)
      ensures pool.wal.currentLsn == old(pool.wal.currentLsn) + 1
    {
      hide State.Inv, BufferPool.Pool.Valid, TreeInv, IsChain, Flat, Inserted, WalkEnds, LogsInsert, InsertRequest;
      ghost var view, size := pool.state.view, |pool.state.disk|;
      pool.Facts();
      ViewTotal(pool.state);
      TreeLeaf(view, chain, size, k);
      TreeSorted(view, chain, size, k);
      ghost var log, es := pool.state.log, view[current as int].entries;
      var lsn, i := StorePage(pool, f, current, e, txn);
      InsertFields(pool.state, log, view, txn, current, i, es, e, lsn);
      InsertTree(view, chain, k, i, e, size, lsn);
    }

    static lemma TreeSorted(view: View, chain: seq<int>, size: int, k: nat)
      requires TreeInv(view, chain, size) && k < |chain|
      ensures chain[k] in view && view[chain[k]].Leaf? && Sorted(view[chain[k]].entries)
    {
      LeafSorted(view, chain, k);
    }

    /** Splits the full leaf `k` and moves, if need be, to the new one. */
    method MakeRoom(current: u32, f: int, key: u64, txn: u32, ghost k: nat) returns (target: u32, g: int, ghost k': nat)
      requires Walking(f, current) && k < |chain| && chain[k] == current && WalkEnds(pool.state.view, chain, k, key)
      requires |pool.state.view[chain[k]].entries| == MAX_LEAF_ENTRIES
      requires counter.next < INVALID && pool.wal.currentLsn + 1 < 0x1_0000_0000_0000_0000
      modifies this, pool, pool.frames, pool.wal, counter
      ensures Walking(g, target) && k' < |chain| && chain[k'] == target && WalkEnds(pool.state.view, chain, k', key)
      ensures |pool.state.view[chain[k']].entries| == MIN_LEAF_ENTRIES
      ensures chain == Spliced(old(chain), k, old(counter.next)) && counter.next == old(counter.next) + 1
      ensures Flat(pool.state.view, chain) == Flat(old(pool.state).view, old(chain))
      ensures forall p: int :: p !in chain ==> p in pool.state.view && pool.state.view[p] == old(pool.state).view[p]
      ensures old(pool.state).log <= pool.state.log
      ensures pool.fetches <= old(pool.fetches) + 4
      ensures pool.peak <= if old(pool.peak) > 2 then old(pool.peak) else 2
      ensures pool.wal.currentLsn == old(pool.wal.currentLsn) + 1
    {
      hide State.Inv, BufferPool.Pool.Valid, TreeInv, Flat, WalkEnds, SplitView, Spliced, IsChain;
      ghost var view, chain0, size := pool.state.view, chain, |pool.state.disk|;
      TreeLeaf(view, chain, size, k);
      pool.Unpin(current, false, BufferPool.Normal);
      assert pool.state.pins == multiset{};
      ghost var lsn := SplitLeaf(current, txn, k);
      pool.Facts();
      SplitOutside(pool.state, view, chain0, size, k, lsn);
      SplitWalkTree(view, chain0, k, size, lsn, key);
      target := current;
      g := FetchOne(pool, target);
      k' := k;
      var leaf := PinnedLeaf(g, target, k');
      if leaf.next != INVALID && |leaf.entries| > 0 && key > leaf.entries[|leaf.entries| - 1].key {
        g := Hop(pool, target, leaf.next, g);
        target := leaf.next;
        k' := k + 1;
      }
    }

    static lemma SplitWalkTree(view: View, chain: seq<int>, k: nat, size: int, lsn: u64, key: u64)
      requires TreeInv(view, chain, size) && WalkEnds(view, chain, k, key) && size < INVALID && k < |chain|
      requires |view[chain[k]].entries| == MAX_LEAF_ENTRIES
      ensures var view' := SplitView(view, chain[k], size, lsn);
        var chain' := Spliced(chain, k, size);
        && Linked(view', chain') && chain'[k] == chain[k] && chain'[k + 1] == size
        && view'[chain[k]].next == size && size != INVALID
        && |view'[chain[k]].entries| == |view'[size].entries| == MIN_LEAF_ENTRIES
        && WalkEnds(view', chain', if key > view'[chain[k]].entries[MIN_LEAF_ENTRIES - 1].key then k + 1 else k, key)
    {
      hide IsChain, WalkEnds, SplitView, Spliced, Flat;
      TreeLeaf(view, chain, size, k);
      NotInChain(view, chain, size);
      SplitWalk(view, chain, k, size, lsn, key);
      ChainLinked(SplitView(view, chain[k], size, lsn), Spliced(chain, k, size));
      SplitNext(view, chain[k], size, lsn);
    }

    static lemma NotInChain(view: View, chain: seq<int>, size: int)
      requires TreeInv(view, chain, size)
      ensures size !in chain && IsChain(view, chain)
    {}

    static lemma ChainLinked(view: View, chain: seq<int>)
      requires IsChain(view, chain)
      ensures Linked(view, chain)
    {}

    static lemma SplitNext(view: View, p: int, newId: int, lsn: u64)
      requires p in view && view[p].Leaf? && 0 <= newId < INVALID && newId != p
      ensures SplitView(view, p, newId, lsn)[p].next == newId
    {}

    static lemma SplitOutside(s: State, view: View, chain: seq<int>, size: int, k: nat, lsn: u64)
      requires s.Inv() && TreeInv(view, chain, size) && k < |chain| && size < INVALID
      requires s.view == SplitView(view, chain[k], size, lsn)
      ensures forall p: int :: p !in Spliced(chain, k, size) ==> p in s.view && p in view && s.view[p] == view[p]
    {
      hide State.Inv, Spliced, IsChain;
      ViewTotal(s);
      SplicedAround(chain, k, size);
      assert chain[k] in Spliced(chain, k, size) && size == Spliced(chain, k, size)[k + 1];
    }

    /** btree_insert: adds an entry; what the entries map a key to changes only for `key`, and only if it was absent. */
    method Insert(key: u64, to: Location, txn: u32) returns (ok: bool)
      requires Valid() && counter.next < INVALID && pool.wal.currentLsn + 2 < 0x1_0000_0000_0000_0000
      modifies this, pool, pool.frames, pool.wal, counter
      ensures Valid() && ok && Inserted(old(Entries()), Entries(), Entry(key, to.page, to.slot))
      ensures LogsInsert(pool.state, txn, Entry(key, to.page, to.slot))
      ensures if counter.next == old(counter.next) then chain == old(chain)
              else counter.next == old(counter.next) + 1 && IsSplice(old(chain), chain, old(counter.next))
      ensures counter.next != old(counter.next) ==> exists k :: 0 <= k < |old(chain)| && LeafOf(old(pool.state).view, old(chain)[k], 250, 250)
      ensures forall p: int :: p !in chain ==> p in pool.state.view && pool.state.view[p] == old(pool.state).view[p]
      ensures old(pool.state).log <= pool.state.log
      ensures pool.fetches <= old(pool.fetches) + |old(chain)| + 4
      ensures pool.peak <= if old(pool.peak) > 2 then old(pool.peak) else 2
      ensures old(pool.wal.currentLsn) <= pool.wal.currentLsn <= old(pool.wal.currentLsn) + 2
    {
      hide State.Inv, BufferPool.Pool.Valid, TreeInv, Flat, WalkEnds, Spliced, IsChain, Inserted, LogsInsert;
      var current, f, k := Descend(key);
      Room(pool.state.view, chain, |pool.state.disk|, k);
      var leaf := PinnedLeaf(f, current, k);
      if |leaf.entries| >= MAX_LEAF_ENTRIES {
        current, f, k := MakeRoom(current, f, key, txn, k);
      }
      StoreEntry(f, current, Entry(key, to.page, to.slot), txn, k);
      return true;
    }

    static lemma LeafSize(view: View, chain: seq<int>, size: int, k: nat)
      requires TreeInv(view, chain, size) && k < |chain|
      ensures LeafOf(view, chain[k], if |chain| > 1 then 125 else 0, 250)
    {}

    static lemma Room(view: View, chain: seq<int>, size: int, k: nat)
      requires TreeInv(view, chain, size) && k < |chain|
      ensures chain[k] in view && view[chain[k]].Leaf? && |view[chain[k]].entries| <= MAX_LEAF_ENTRIES
    {}
  }
}
