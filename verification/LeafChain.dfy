/** The B-tree as src/btree.c ever builds it: a chain of leaves, read as one sorted list of entries. */
module LeafChain {
  import opened Bytes
  import opened Pages
  import opened Common
  import opened Sequences

  const MAX_LEAF_ENTRIES := 250
  const MIN_LEAF_ENTRIES := 125

  type View = imap<int, Page>

  // ---------- Entries as a map ----------

  datatype Location = Location(page: u32, slot: u16)

  /** What the list maps `key` to: its first entry with that key. */
  function Lookup(es: seq<Entry>, key: u64): Option<Location> {
    if es == [] then None
    else if es[0].key == key then Some(Location(es[0].page, es[0].slot))
    else Lookup(es[1..], key)
  }

  predicate Sorted(es: seq<Entry>) {
    forall i, j :: 0 <= i < j < |es| ==> es[i].key <= es[j].key
  }

  lemma {:induction false} LookupConcat(a: seq<Entry>, b: seq<Entry>, key: u64)
    ensures Lookup(a + b, key) == if Lookup(a, key).Some? then Lookup(a, key) else Lookup(b, key)
  {
    if a == [] {
      assert a + b == b;
    } else {
      assert (a + b)[1..] == a[1..] + b;
      LookupConcat(a[1..], b, key);
    }
  }

  lemma {:induction false} LookupAbsent(es: seq<Entry>, key: u64)
    ensures Lookup(es, key).None? <==> forall i :: 0 <= i < |es| ==> es[i].key != key
  {
    if es != [] {
      LookupAbsent(es[1..], key);
      if forall i :: 0 <= i < |es| ==> es[i].key != key {
        assert forall i :: 0 <= i < |es[1..]| ==> es[1..][i].key == es[i + 1].key;
      } else if es[0].key != key {
        var i :| 0 <= i < |es| && es[i].key == key;
        assert es[1..][i - 1].key == key;
      }
    }
  }

  /** The place of the first entry for `key`, or -1. */
  ghost predicate FoundAt(es: seq<Entry>, key: u64, i: int) {
    if i < 0 then forall j :: 0 <= j < |es| ==> es[j].key != key
    else i < |es| && es[i].key == key && forall j :: 0 <= j < i ==> es[j].key != key
  }

  /** Looking up reads the first entry for a key, redirecting replaces it. */
  lemma {:induction false} FirstEntry(es: seq<Entry>, key: u64, to: Location) returns (i: int)
    ensures FoundAt(es, key, i)
    ensures Lookup(es, key) == if i < 0 then None else Some(Location(es[i].page, es[i].slot))
    ensures Updated(es, key, to) == if i < 0 then es else es[i := Entry(key, to.page, to.slot)]
  {
    if es == [] {
      i := -1;
    } else if es[0].key == key {
      i := 0;
    } else {
      var rest := FirstEntry(es[1..], key, to);
      i := if rest < 0 then rest else rest + 1;
      assert forall j :: 0 < j < |es| ==> es[j] == es[1..][j - 1];
      assert es == [es[0]] + es[1..];
    }
  }

  /** `es'` is `es` with `e` added: still sorted, and as a map changed only where `e.key` was absent. */
  ghost predicate Inserted(es: seq<Entry>, es': seq<Entry>, e: Entry) {
    && Sorted(es') && |es'| == |es| + 1 && multiset(es') == multiset(es) + multiset{e}
    && forall key: u64 :: Lookup(es', key) ==
         if key == e.key && Lookup(es, key).None? then Some(Location(e.page, e.slot)) else Lookup(es, key)
  }

  lemma InsertSorted(a: seq<Entry>, b: seq<Entry>, e: Entry)
    requires Sorted(a + b)
    requires forall i :: 0 <= i < |a| ==> a[i].key <= e.key
    requires forall i :: 0 <= i < |b| ==> e.key <= b[i].key
    ensures Sorted(a + [e] + b)
  {
    var es, es' := a + b, a + [e] + b;
    forall i, j | 0 <= i < j < |es'|
      ensures es'[i].key <= es'[j].key
    {
      if i < |a| < j {
        assert es[i].key <= es[j - 1].key;
      } else if j < |a| {
        assert es[i].key <= es[j].key;
      } else if i > |a| {
        assert es[i - 1].key <= es[j - 1].key;
      }
    }
  }

  lemma InsertLookup(a: seq<Entry>, b: seq<Entry>, e: Entry, key: u64)
    requires Lookup(a, e.key).None? ==> Lookup(b, e.key).None?
    ensures Lookup(a + [e] + b, key) ==
      if key == e.key && Lookup(a + b, key).None? then Some(Location(e.page, e.slot)) else Lookup(a + b, key)
  {
    LookupConcat(a, b, key);
    LookupConcat(a + [e], b, key);
    LookupConcat(a, [e], key);
    assert Lookup([e], key) == if e.key == key then Some(Location(e.page, e.slot)) else None by {
      assert [e][1..] == [];
    }
  }

  lemma InsertBetween(a: seq<Entry>, b: seq<Entry>, e: Entry)
    requires Sorted(a + b)
    requires forall i :: 0 <= i < |a| ==> a[i].key <= e.key
    requires forall i :: 0 <= i < |b| ==> e.key <= b[i].key
    requires Lookup(a, e.key).None? ==> Lookup(b, e.key).None?
    ensures Inserted(a + b, a + [e] + b, e)
  {
    InsertSorted(a, b, e);
    hide Sorted, Lookup;
    forall key: u64
      ensures Lookup(a + [e] + b, key) ==
        if key == e.key && Lookup(a + b, key).None? then Some(Location(e.page, e.slot)) else Lookup(a + b, key)
    {
      InsertLookup(a, b, e, key);
    }
  }

  /** `es` with its first entry for `key` redirected. */
  function Updated(es: seq<Entry>, key: u64, to: Location): (r: seq<Entry>)
    ensures |r| == |es|
  {
    if es == [] then []
    else if es[0].key == key then [Entry(key, to.page, to.slot)] + es[1..]
    else [es[0]] + Updated(es[1..], key, to)
  }

  lemma {:induction false} UpdatedKeys(es: seq<Entry>, key: u64, to: Location)
    ensures forall i :: 0 <= i < |es| ==> Updated(es, key, to)[i].key == es[i].key
    ensures Sorted(es) ==> Sorted(Updated(es, key, to))
  {
    if es != [] && es[0].key != key {
      UpdatedKeys(es[1..], key, to);
    }
  }

  lemma {:induction false} UpdatedConcat(a: seq<Entry>, b: seq<Entry>, key: u64, to: Location)
    ensures Updated(a + b, key, to) == if Lookup(a, key).Some? then Updated(a, key, to) + b else a + Updated(b, key, to)
  {
    if a == [] {
      assert a + b == b;
    } else if a[0].key == key {
      assert Updated(a + b, key, to) == [Entry(key, to.page, to.slot)] + (a[1..] + b);
    } else {
      assert (a + b)[1..] == a[1..] + b;
      UpdatedConcat(a[1..], b, key, to);
      assert Updated(a + b, key, to) == [a[0]] + Updated(a[1..] + b, key, to);
      assert a == [a[0]] + a[1..];
    }
  }

  /** Redirecting changes only `key`, and only if it is present. */
  lemma {:induction false} UpdatedLookup(es: seq<Entry>, key: u64, to: Location, other: u64)
    ensures Lookup(Updated(es, key, to), other) == if other == key && Lookup(es, key).Some? then Some(to) else Lookup(es, other)
  {
    if es != [] {
      var r := Updated(es, key, to);
      if es[0].key == key {
        assert r[1..] == es[1..];
      } else {
        assert r[1..] == Updated(es[1..], key, to);
        UpdatedLookup(es[1..], key, to, other);
      }
    }
  }

  // ---------- The chain ----------

  ghost predicate AllLeaves(view: View, chain: seq<int>) {
    forall k :: 0 <= k < |chain| ==> chain[k] in view && view[chain[k]].Leaf?
  }

  /** `chain` lists the leaves in link order; the last one ends the chain. */
  ghost predicate Linked(view: View, chain: seq<int>) {
    && AllLeaves(view, chain)
    && (forall k :: 0 <= k < |chain| ==> 0 <= chain[k] < INVALID)
    && (forall i, j {:trigger view[chain[i]], chain[j]} :: 0 <= i < |chain| && j == i + 1 < |chain| ==> view[chain[i]].next == chain[j])
    && (|chain| > 0 ==> view[chain[|chain| - 1]].next == INVALID)
  }

  lemma NextLeaf(view: View, chain: seq<int>, k: nat)
    requires Linked(view, chain) && k < |chain|
    ensures view[chain[k]].next == if k + 1 < |chain| then chain[k + 1] else INVALID
    ensures k + 1 < |chain| ==> chain[k + 1] != INVALID
  {}

  ghost function Flat(view: View, chain: seq<int>): seq<Entry>
    requires AllLeaves(view, chain)
  {
    if chain == [] then [] else view[chain[0]].entries + Flat(view, chain[1..])
  }

  ghost predicate Occupied(view: View, chain: seq<int>)
    requires Linked(view, chain)
  {
    forall k :: 0 <= k < |chain| ==>
      |view[chain[k]].entries| <= MAX_LEAF_ENTRIES && (|chain| > 1 ==> MIN_LEAF_ENTRIES <= |view[chain[k]].entries|)
  }

  ghost predicate IsChain(view: View, chain: seq<int>) {
    |chain| > 0 && Linked(view, chain) && NoRepeats(chain) && Occupied(view, chain) && Sorted(Flat(view, chain))
  }

  lemma {:induction false} FlatConcat(view: View, a: seq<int>, b: seq<int>)
    requires AllLeaves(view, a)
    requires AllLeaves(view, b)
    ensures AllLeaves(view, a + b)
    ensures Flat(view, a + b) == Flat(view, a) + Flat(view, b)
  {
    if a == [] {
      assert a + b == b;
    } else {
      assert (a + b)[1..] == a[1..] + b && (a + b)[0] == a[0];
      FlatConcat(view, a[1..], b);
      assert Flat(view, a + b) == view[a[0]].entries + Flat(view, a[1..] + b);
    }
  }

  lemma {:induction false} FlatSame(view: View, view': View, chain: seq<int>)
    requires AllLeaves(view, chain)
    requires forall k :: 0 <= k < |chain| ==> chain[k] in view' && view'[chain[k]] == view[chain[k]]
    ensures Flat(view', chain) == Flat(view, chain)
  {
    if chain != [] {
      FlatSame(view, view', chain[1..]);
    }
  }

  /** The list around leaf `k`. */
  lemma FlatAround(view: View, chain: seq<int>, k: nat)
    requires AllLeaves(view, chain) && k < |chain|
    ensures Flat(view, chain) == Flat(view, chain[..k]) + view[chain[k]].entries + Flat(view, chain[k + 1..])
    ensures Flat(view, chain[k..]) == view[chain[k]].entries + Flat(view, chain[k + 1..])
  {
    assert chain == chain[..k] + chain[k..];
    FlatConcat(view, chain[..k], chain[k..]);
    assert chain[k..][1..] == chain[k + 1..];
  }

  /** With more than one leaf, each holds at least 125 entries. */
  lemma {:induction false} FlatLength(view: View, chain: seq<int>)
    requires AllLeaves(view, chain) && forall k :: 0 <= k < |chain| ==> MIN_LEAF_ENTRIES <= |view[chain[k]].entries|
    ensures MIN_LEAF_ENTRIES * |chain| <= |Flat(view, chain)|
  {
    if chain != [] {
      FlatLength(view, chain[1..]);
    }
  }

  /** `n` keys occupy at most max(1, n / 125) leaves. */
  lemma OccupancyBound(view: View, chain: seq<int>)
    requires IsChain(view, chain)
    ensures |chain| <= if |Flat(view, chain)| < 125 then 1 else |Flat(view, chain)| / 125
  {
    if |chain| > 1 {
      FlatLength(view, chain);
    }
  }

  ghost predicate LeafOf(view: View, p: int, least: nat, most: nat) {
    p in view && view[p].Leaf? && least <= |view[p].entries| <= most
  }

  // ---------- Splitting ----------

  /** Leaf `k` gives its upper half to a new leaf on page `newId`. */
  ghost function SplitView(view: View, p: int, newId: int, lsn: u64): View
    requires p in view && view[p].Leaf? && 0 <= newId < INVALID
  {
    var leaf := view[p];
    var mid := |leaf.entries| / 2;
    view[newId := Leaf(lsn, leaf.next, leaf.entries[mid..])][p := Leaf(lsn, newId, leaf.entries[..mid])]
  }

  /** The lower 125 of 250 entries stay and the new leaf takes the others, both with the LSN of the split; the old leaf points to
      the new one, and that to where the old one did. No other page changes. */
  ghost predicate SplitInHalves(view: View, view': View, p: int, newId: u32, lsn: u64) {
    && p in view && p in view' && (newId as int) in view' && view[p].Leaf? && |view[p].entries| == 250
    && view'[p] == Leaf(lsn, newId, view[p].entries[..125])
    && view'[newId as int] == Leaf(lsn, view[p].next, view[p].entries[125..])
    && forall q: int :: q != p && q != newId && q in view ==> q in view' && view'[q] == view[q]
  }

  lemma HalvesOf(view: View, p: int, newId: u32, lsn: u64)
    requires p in view && view[p].Leaf? && |view[p].entries| == MAX_LEAF_ENTRIES && newId < INVALID && p != newId
    ensures SplitInHalves(view, SplitView(view, p, newId, lsn), p, newId, lsn)
  {}

  lemma SplitChain(view: View, chain: seq<int>, k: nat, newId: int, lsn: u64)
    requires IsChain(view, chain) && k < |chain| && 0 <= newId < INVALID && newId !in chain
    requires |view[chain[k]].entries| == MAX_LEAF_ENTRIES
    ensures var view' := SplitView(view, chain[k], newId, lsn);
      var chain' := Spliced(chain, k, newId);
      IsChain(view', chain') && Flat(view', chain') == Flat(view, chain)
  {
    hide Flat, Sorted, Linked, NoRepeats, Occupied, SplitView;
    SplitLinks(view, chain, k, newId, lsn);
    SplicedDistinct(chain, k, newId);
    SplitFlat(view, chain, k, newId, lsn);
  }

  /** `chain` with `newId` behind position `k`. */
  function Spliced(chain: seq<int>, k: nat, newId: int): (r: seq<int>)
    requires k < |chain|
    ensures |r| == |chain| + 1 && r[k + 1] == newId
    ensures forall i :: 0 <= i <= k ==> r[i] == chain[i]
    ensures forall i :: k + 1 < i < |r| ==> r[i] == chain[i - 1]
  {
    chain[..k + 1] + [newId] + chain[k + 1..]
  }

  ghost predicate IsSplice(chain: seq<int>, chain': seq<int>, newId: int) {
    exists k: nat :: k < |chain| && chain' == Spliced(chain, k, newId)
  }

  /** A splice adds one page and drops none. */
  lemma SpliceMembers(chain: seq<int>, chain': seq<int>, newId: int)
    requires IsSplice(chain, chain', newId)
    ensures forall p :: p in chain' <==> p in chain || p == newId
  {
    var k: nat :| k < |chain| && chain' == Spliced(chain, k, newId);
    SplicedAround(chain, k, newId);
    assert chain'[k + 1] == newId;
    forall p | p in chain' ensures p in chain || p == newId {
      var i :| 0 <= i < |chain'| && chain'[i] == p;
    }
  }

  lemma SplicedDistinct(chain: seq<int>, k: nat, newId: int)
    requires NoRepeats(chain) && k < |chain| && newId !in chain
    ensures NoRepeats(Spliced(chain, k, newId))
  {}

  lemma SplitLinks(view: View, chain: seq<int>, k: nat, newId: int, lsn: u64)
    requires Linked(view, chain) && NoRepeats(chain) && Occupied(view, chain) && k < |chain| && 0 <= newId < INVALID && newId !in chain
    requires |view[chain[k]].entries| == MAX_LEAF_ENTRIES
    ensures var view' := SplitView(view, chain[k], newId, lsn);
      var chain' := Spliced(chain, k, newId);
      Linked(view', chain') && Occupied(view', chain')
  {
    hide Spliced;
    var view' := SplitView(view, chain[k], newId, lsn);
    var chain' := Spliced(chain, k, newId);
    forall i | 0 <= i < |chain'|
      ensures chain'[i] in view' && view'[chain'[i]].Leaf? && 0 <= chain'[i] < INVALID
    {
      assert chain'[i] == if i <= k then chain[i] else if i == k + 1 then newId else chain[i - 1];
    }
    assert AllLeaves(view', chain');
    forall i, j {:trigger view'[chain'[i]], chain'[j]} | 0 <= i < |chain'| && j == i + 1 < |chain'|
      ensures view'[chain'[i]].next == chain'[j]
    {
      SplitLinkAt(view, chain, k, newId, lsn, i);
    }
    forall i | 0 <= i < |chain'|
      ensures MIN_LEAF_ENTRIES <= |view'[chain'[i]].entries| <= MAX_LEAF_ENTRIES
    {
      SplitLinkAt(view, chain, k, newId, lsn, i);
    }
    SplitLinkAt(view, chain, k, newId, lsn, |chain|);
    assert Linked(view', chain');
    assert Occupied(view', chain');
  }

  lemma SplitLinkAt(view: View, chain: seq<int>, k: nat, newId: int, lsn: u64, i: nat)
    requires Linked(view, chain) && NoRepeats(chain) && Occupied(view, chain) && k < |chain| && 0 <= newId < INVALID && newId !in chain
    requires |view[chain[k]].entries| == MAX_LEAF_ENTRIES && i <= |chain|
    ensures var view' := SplitView(view, chain[k], newId, lsn);
      var chain' := Spliced(chain, k, newId);
      && chain'[i] in view' && view'[chain'[i]].Leaf?
      && view'[chain'[i]].next == (if i + 1 < |chain'| then chain'[i + 1] else INVALID)
      && MIN_LEAF_ENTRIES <= |view'[chain'[i]].entries| <= MAX_LEAF_ENTRIES
  {
    var chain' := Spliced(chain, k, newId);
    if i <= k {
      assert chain'[i] == chain[i] != newId && (i < k ==> chain[i] != chain[k]);
      assert i < k ==> view[chain[i]].next == chain[i + 1];
    } else if i > k + 1 {
      assert chain'[i] == chain[i - 1] != newId && chain[i - 1] != chain[k];
      assert view[chain[i - 1]].next == if i < |chain| then chain[i] else INVALID;
    }
  }

  lemma SplicedAround(chain: seq<int>, k: nat, newId: int)
    requires k < |chain|
    ensures Spliced(chain, k, newId) == chain[..k] + [chain[k]] + ([newId] + chain[k + 1..])
    ensures chain == chain[..k] + [chain[k]] + chain[k + 1..]
    ensures forall p :: p in chain ==> p in Spliced(chain, k, newId)
  {
    var r := Spliced(chain, k, newId);
    forall p | p in chain ensures p in r {
      var i :| 0 <= i < |chain| && chain[i] == p;
      assert p == if i <= k then r[i] else r[i + 1];
    }
  }

  /** A split touches neither the leaves before nor those behind it. */
  lemma SplitKeeps(view: View, chain: seq<int>, k: nat, newId: int, lsn: u64)
    requires Linked(view, chain) && NoRepeats(chain) && k < |chain| && 0 <= newId < INVALID && newId !in chain
    ensures var view', a, b := SplitView(view, chain[k], newId, lsn), chain[..k], chain[k + 1..];
      && AllLeaves(view, a) && AllLeaves(view, b) && AllLeaves(view', a) && AllLeaves(view', b) && AllLeaves(view', [newId] + b)
      && Flat(view', a) == Flat(view, a) && Flat(view', b) == Flat(view, b)
  {
    hide Flat;
    var view', a, b := SplitView(view, chain[k], newId, lsn), chain[..k], chain[k + 1..];
    FlatSame(view, view', a);
    FlatSame(view, view', b);
  }

  lemma SplitHalves(view: View, p: int, newId: int, lsn: u64)
    requires p in view && view[p].Leaf? && 0 <= newId < INVALID && newId != p
    ensures var view' := SplitView(view, p, newId, lsn);
      && p in view' && view'[p].Leaf? && newId in view' && view'[newId].Leaf?
      && view[p].entries == view'[p].entries + view'[newId].entries
  {}

  lemma SplitFlat(view: View, chain: seq<int>, k: nat, newId: int, lsn: u64)
    requires Linked(view, chain) && NoRepeats(chain) && k < |chain| && 0 <= newId < INVALID && newId !in chain
    requires Linked(SplitView(view, chain[k], newId, lsn), Spliced(chain, k, newId))
    ensures var view' := SplitView(view, chain[k], newId, lsn);
      Flat(view', Spliced(chain, k, newId)) == Flat(view, chain)
  {
    hide Flat, SplitView, Spliced, NoRepeats;
    var p, a, b := chain[k], chain[..k], chain[k + 1..];
    var view' := SplitView(view, p, newId, lsn);
    SplitKeeps(view, chain, k, newId, lsn);
    SplitHalves(view, p, newId, lsn);
    SplicedAround(chain, k, newId);
    FlatThree(view, a, p, b);
    FlatThree(view', a, p, [newId] + b);
    FlatThree(view', [], newId, b);
    EmptyFlat(view');
    assert [] + [newId] + b == [newId] + b;
    Regroup(Flat(view, a), view'[p].entries, view'[newId].entries, Flat(view, b));
  }

  lemma EmptyFlat(view: View)
    ensures Flat(view, []) == []
  {}

  lemma Regroup(x: seq<Entry>, u: seq<Entry>, v: seq<Entry>, y: seq<Entry>)
    ensures x + u + ([] + v + y) == x + (u + v) + y
  {}

  lemma FlatThree(view: View, a: seq<int>, p: int, b: seq<int>)
    requires AllLeaves(view, a)
    requires p in view && view[p].Leaf?
    requires AllLeaves(view, b)
    ensures AllLeaves(view, a + [p] + b)
    ensures Flat(view, a + [p] + b) == Flat(view, a) + view[p].entries + Flat(view, b)
  {
    assert a + [p] + b == a + ([p] + b);
    FlatConcat(view, a, [p] + b);
    assert ([p] + b)[1..] == b;
  }

  // ---------- Changing one leaf's entries ----------

  ghost function EntriesView(view: View, p: int, lsn: u64, entries: seq<Entry>): View
    requires p in view && view[p].Leaf?
  {
    view[p := Leaf(lsn, view[p].next, entries)]
  }

  /** Leaf `k` gets new entries; the rest of the list stays. */
  lemma ReplaceLeaf(view: View, chain: seq<int>, k: nat, lsn: u64, entries: seq<Entry>)
    requires Linked(view, chain) && NoRepeats(chain) && k < |chain|
    ensures var view' := EntriesView(view, chain[k], lsn, entries);
      Linked(view', chain) && Flat(view', chain) == Flat(view, chain[..k]) + entries + Flat(view, chain[k + 1..])
  {
    var view' := EntriesView(view, chain[k], lsn, entries);
    assert Linked(view', chain);
    FlatAround(view', chain, k);
    FlatSame(view, view', chain[..k]);
    FlatSame(view, view', chain[k + 1..]);
  }

  // ---------- Walking and inserting ----------

  ghost predicate AllBelow(es: seq<Entry>, key: u64) {
    forall i :: 0 <= i < |es| ==> es[i].key < key
  }

  lemma LeafSorted(view: View, chain: seq<int>, k: nat)
    requires Linked(view, chain) && Sorted(Flat(view, chain)) && k < |chain|
    ensures Sorted(view[chain[k]].entries)
  {
    FlatAround(view, chain, k);
    var a, es := Flat(view, chain[..k]), view[chain[k]].entries;
    forall i, j | 0 <= i < j < |es| ensures es[i].key <= es[j].key {
      assert Flat(view, chain)[|a| + i] == es[i] && Flat(view, chain)[|a| + j] == es[j];
    }
  }

  /** The walk may leave leaf `k` when its last key is below the one looked for. */
  lemma StepRight(view: View, chain: seq<int>, k: nat, key: u64)
    requires Linked(view, chain) && Sorted(Flat(view, chain)) && k < |chain|
    requires AllBelow(Flat(view, chain[..k]), key)
    requires |view[chain[k]].entries| > 0 && view[chain[k]].entries[|view[chain[k]].entries| - 1].key < key
    ensures AllBelow(Flat(view, chain[..k + 1]), key)
  {
    LeafSorted(view, chain, k);
    assert chain[..k + 1] == chain[..k] + [chain[k]] + [];
    FlatThree(view, chain[..k], chain[k], []);
  }

  /** A search that has passed the first `k` leaves in vain continues in the rest. */
  lemma SearchRest(view: View, chain: seq<int>, k: nat, key: u64)
    requires Linked(view, chain) && k < |chain|
    ensures Lookup(Flat(view, chain[k..]), key) ==
      if Lookup(view[chain[k]].entries, key).Some? then Lookup(view[chain[k]].entries, key) else Lookup(Flat(view, chain[k + 1..]), key)
  {
    FlatAround(view, chain, k);
    LookupConcat(view[chain[k]].entries, Flat(view, chain[k + 1..]), key);
  }

  /** Where an insertion of `key` goes: leaf `k`, before its entry `i`. */
  ghost predicate InsertionPoint(view: View, chain: seq<int>, k: nat, i: nat, key: u64)
    requires Linked(view, chain)
  {
    && k < |chain| && AllBelow(Flat(view, chain[..k]), key)
    && var es := view[chain[k]].entries;
    && i <= |es|
    && (k + 1 == |chain| || (|es| > 0 && key <= es[|es| - 1].key))
    && (forall j :: 0 <= j < i ==> es[j].key <= key)
    && (forall j :: i <= j < |es| ==> key < es[j].key)
  }

  lemma InsertAround(a: seq<Entry>, es: seq<Entry>, c: seq<Entry>, i: nat, e: Entry)
    requires Sorted(a + es + c) && AllBelow(a, e.key) && i <= |es|
    requires c == [] || (|es| > 0 && e.key <= es[|es| - 1].key)
    requires forall j :: 0 <= j < i ==> es[j].key <= e.key
    requires forall j :: i <= j < |es| ==> e.key < es[j].key
    ensures Inserted(a + es + c, a + (es[..i] + [e] + es[i..]) + c, e)
  {
    hide Lookup, Inserted, Sorted;
    var x, y := a + es[..i], es[i..] + c;
    assert x + y == a + es + c;
    assert x + [e] + y == a + (es[..i] + [e] + es[i..]) + c;
    KeysAround(a, es, c, i, e.key);
    LookupAbsent(x, e.key);
    LookupAbsent(y, e.key);
    InsertBetween(x, y, e);
  }

  /** The keys on both sides of the insertion point; if the key is absent before it, it is absent behind it. */
  lemma KeysAround(a: seq<Entry>, es: seq<Entry>, c: seq<Entry>, i: nat, key: u64)
    requires Sorted(a + es + c) && AllBelow(a, key) && i <= |es|
    requires c == [] || (|es| > 0 && key <= es[|es| - 1].key)
    requires forall j :: 0 <= j < i ==> es[j].key <= key
    requires forall j :: i <= j < |es| ==> key < es[j].key
    ensures var x, y := a + es[..i], es[i..] + c;
      && (forall j :: 0 <= j < |x| ==> x[j].key <= key) && (forall j :: 0 <= j < |y| ==> key <= y[j].key)
      && ((forall j :: 0 <= j < |x| ==> x[j].key != key) ==> (forall j :: 0 <= j < |y| ==> y[j].key != key))
  {
    var x := a + es[..i];
    forall j | 0 <= j < |c| ensures es != [] && es[|es| - 1].key <= c[j].key {
      var whole := a + es + c;
      assert whole[|a| + |es| - 1] == es[|es| - 1] && whole[|a| + |es| + j] == c[j];
    }
    assert i == |es| && es != [] ==> x[|x| - 1] == es[|es| - 1];
  }

  lemma InsertFlat(view: View, chain: seq<int>, k: nat, i: nat, e: Entry, flat': seq<Entry>)
    requires Linked(view, chain) && Sorted(Flat(view, chain)) && InsertionPoint(view, chain, k, i, e.key)
    requires flat' == Flat(view, chain[..k]) + (view[chain[k]].entries[..i] + [e] + view[chain[k]].entries[i..]) + Flat(view, chain[k + 1..])
    ensures Inserted(Flat(view, chain), flat', e) && Sorted(flat')
  {
    FlatAround(view, chain, k);
    var a, c := Flat(view, chain[..k]), Flat(view, chain[k + 1..]);
    assert k + 1 == |chain| ==> c == [];
    hide Linked, Flat, Sorted, Lookup;
    InsertAround(a, view[chain[k]].entries, c, i, e);
  }

  lemma InsertIntoLeaf(view: View, chain: seq<int>, k: nat, i: nat, e: Entry, lsn: u64)
    requires IsChain(view, chain) && InsertionPoint(view, chain, k, i, e.key)
    requires |view[chain[k]].entries| < MAX_LEAF_ENTRIES
    ensures var es := view[chain[k]].entries;
      var view' := EntriesView(view, chain[k], lsn, es[..i] + [e] + es[i..]);
      IsChain(view', chain) && Inserted(Flat(view, chain), Flat(view', chain), e)
  {
    hide Flat, Sorted, Occupied, NoRepeats, EntriesView, Inserted, AllBelow;
    var es := view[chain[k]].entries;
    var es' := es[..i] + [e] + es[i..];
    assert Sorted(Flat(EntriesView(view, chain[k], lsn, es'), chain)) && Inserted(Flat(view, chain), Flat(EntriesView(view, chain[k], lsn, es'), chain), e) by {
      ReplaceLeaf(view, chain, k, lsn, es');
      InsertFlat(view, chain, k, i, e, Flat(EntriesView(view, chain[k], lsn, es'), chain));
    }
    ReplaceLeaf(view, chain, k, lsn, es');
    assert |es'| == |es| + 1;
    OccupiedAfter(view, chain, k, lsn, es');
  }

  lemma OccupiedAfter(view: View, chain: seq<int>, k: nat, lsn: u64, es: seq<Entry>)
    requires Linked(view, chain) && NoRepeats(chain) && Occupied(view, chain) && k < |chain|
    requires |view[chain[k]].entries| <= |es| <= MAX_LEAF_ENTRIES
    requires Linked(EntriesView(view, chain[k], lsn, es), chain)
    ensures Occupied(EntriesView(view, chain[k], lsn, es), chain)
  {}

  /** What every state of the tree keeps: the chain starts at the root page and contains every leaf of the file. */
  ghost predicate TreeInv(view: View, chain: seq<int>, size: int) {
    && IsChain(view, chain) && chain[0] == ROOT
    && (forall k :: 0 <= k < |chain| ==> chain[k] < size)
    && (forall p: int :: p in view && view[p].Leaf? ==> p in chain)
  }

  lemma TreeLeaf(view: View, chain: seq<int>, size: int, k: nat)
    requires TreeInv(view, chain, size) && k < |chain|
    ensures chain[k] in view && view[chain[k]].Leaf? && 0 <= chain[k] < size && chain[k] < INVALID
  {}

  /** Pages outside the tree may change freely, as long as none becomes a leaf. */
  lemma TreeInvKept(view: View, view': View, chain: seq<int>, size: int, size': int)
    requires TreeInv(view, chain, size) && size <= size'
    requires forall p :: p in chain ==> p in view' && view'[p] == view[p]
    requires forall p: int :: p in view' && view'[p].Leaf? ==> p in view && view[p].Leaf?
    ensures TreeInv(view', chain, size') && Flat(view', chain) == Flat(view, chain)
  {
    FlatSame(view, view', chain);
  }

  // ---------- Steps of the operations ----------

  /** Leaf `k` lies after every smaller key and, unless it is the last, reaches up to `key`. */
  ghost predicate WalkEnds(view: View, chain: seq<int>, k: nat, key: u64)
    requires Linked(view, chain)
  {
    && k < |chain| && AllBelow(Flat(view, chain[..k]), key)
    && var es := view[chain[k]].entries;
    && (k + 1 == |chain| || (|es| > 0 && key <= es[|es| - 1].key))
  }

  /** The page, among the two halves of a split leaf, where the walk for `key` ends. */
  lemma SplitWalk(view: View, chain: seq<int>, k: nat, newId: int, lsn: u64, key: u64)
    requires IsChain(view, chain) && WalkEnds(view, chain, k, key) && 0 <= newId < INVALID && newId !in chain
    requires |view[chain[k]].entries| == MAX_LEAF_ENTRIES
    ensures var view' := SplitView(view, chain[k], newId, lsn);
      var chain' := Spliced(chain, k, newId);
      && IsChain(view', chain')
      && chain'[k] == chain[k] && chain'[k + 1] == newId
      && |view'[chain[k]].entries| == |view'[newId].entries| == MIN_LEAF_ENTRIES
      && WalkEnds(view', chain', if key > view'[chain[k]].entries[MIN_LEAF_ENTRIES - 1].key then k + 1 else k, key)
  {
    SplitChain(view, chain, k, newId, lsn);
    var view' := SplitView(view, chain[k], newId, lsn);
    var chain' := Spliced(chain, k, newId);
    assert chain'[..k] == chain[..k];
    FlatSame(view, view', chain[..k]);
    if key > view'[chain[k]].entries[MIN_LEAF_ENTRIES - 1].key {
      StepRight(view', chain', k, key);
    }
  }

  lemma SplitTree(view: View, chain: seq<int>, k: nat, size: int, lsn: u64)
    requires TreeInv(view, chain, size) && k < |chain| && size < INVALID
    requires |view[chain[k]].entries| == MAX_LEAF_ENTRIES
    ensures var view' := SplitView(view, chain[k], size, lsn);
      var chain' := Spliced(chain, k, size);
      TreeInv(view', chain', size + 1) && Flat(view', chain') == Flat(view, chain)
    ensures size !in chain
  {
    hide IsChain, Flat, Spliced;
    assert size !in chain;
    SplitChain(view, chain, k, size, lsn);
    SplicedAround(chain, k, size);
    SplicedAround(chain, 0, size);
  }

  lemma InsertTree(view: View, chain: seq<int>, k: nat, i: nat, e: Entry, size: int, lsn: u64)
    requires TreeInv(view, chain, size) && WalkEnds(view, chain, k, e.key)
    requires |view[chain[k]].entries| < MAX_LEAF_ENTRIES && i <= |view[chain[k]].entries|
    requires forall j :: 0 <= j < i ==> view[chain[k]].entries[j].key <= e.key
    requires forall j :: i <= j < |view[chain[k]].entries| ==> e.key < view[chain[k]].entries[j].key
    ensures var es := view[chain[k]].entries;
      var view' := EntriesView(view, chain[k], lsn, es[..i] + [e] + es[i..]);
      TreeInv(view', chain, size) && Inserted(Flat(view, chain), Flat(view', chain), e)
  {
    hide IsChain, Flat, AllBelow, Inserted;
    InsertIntoLeaf(view, chain, k, i, e, lsn);
  }

  lemma PassLeaf(view: View, chain: seq<int>, k: nat, key: u64)
    requires Linked(view, chain) && k < |chain|
    requires Lookup(Flat(view, chain[..k]), key).None? && Lookup(view[chain[k]].entries, key).None?
    ensures Lookup(Flat(view, chain[..k + 1]), key).None?
  {
    assert chain[..k + 1] == chain[..k] + [chain[k]] + [];
    FlatThree(view, chain[..k], chain[k], []);
    var a, es := Flat(view, chain[..k]), view[chain[k]].entries;
    assert a + es + [] == a + es;
    LookupConcat(a, es, key);
  }

  lemma UpdateTree(view: View, chain: seq<int>, k: nat, key: u64, to: Location, size: int)
    requires TreeInv(view, chain, size) && k < |chain|
    requires Lookup(Flat(view, chain[..k]), key).None? && Lookup(view[chain[k]].entries, key).Some?
    ensures var view' := EntriesView(view, chain[k], view[chain[k]].lsn, Updated(view[chain[k]].entries, key, to));
      TreeInv(view', chain, size) && Flat(view', chain) == Updated(Flat(view, chain), key, to)
    ensures Lookup(Flat(view, chain), key).Some?
  {
    var es := view[chain[k]].entries;
    ReplaceLeaf(view, chain, k, view[chain[k]].lsn, Updated(es, key, to));
    OccupiedAfter(view, chain, k, view[chain[k]].lsn, Updated(es, key, to));
    FlatAround(view, chain, k);
    UpdatedFlat(Flat(view, chain[..k]), es, Flat(view, chain[k + 1..]), key, to);
    UpdatedKeys(Flat(view, chain), key, to);
  }

  lemma UpdatedFlat(a: seq<Entry>, es: seq<Entry>, c: seq<Entry>, key: u64, to: Location)
    requires Lookup(a, key).None? && Lookup(es, key).Some?
    ensures Updated(a + es + c, key, to) == a + Updated(es, key, to) + c
    ensures Lookup(a + es + c, key).Some?
  {
    UpdatedConcat(a + es, c, key, to);
    UpdatedConcat(a, es, key, to);
    LookupConcat(a, es, key);
    LookupConcat(a + es, c, key);
  }
}
