/** The merge join of the phrase search of src/inverted_index.c. The lists it merges start with the newest page of
    each term, which ascends by document; all that follows in a list is older. */
module MergeJoin {
  import opened Bytes
  import opened Pages

  // ---------- What the join selects ----------

  /** `list` starts with the ascending `front`; everything behind it names older documents. */
  ghost predicate FrontFirst(list: seq<Posting>, front: seq<Posting>) {
    && front <= list && front != []
    && (forall i, j :: 0 <= i < j < |front| ==> front[i].doc < front[j].doc)
    && (forall j :: |front| <= j < |list| ==> list[j].doc < front[0].doc)
  }

  /** Some stored position of the first term is followed by stored positions of all the others. */
  ghost predicate PhraseAt(ps: seq<Posting>)
    requires |ps| > 0
  {
    exists s :: s in ps[0].positions && Continues(ps, s)
  }

  ghost predicate Continues(ps: seq<Posting>, s: u32) {
    forall i :: 1 <= i < |ps| ==> ((s as int + i) % 0x1_0000_0000) in ps[i].positions
  }

  /** One posting from every front, all of the same document. */
  ghost predicate SameDocument(fronts: seq<seq<Posting>>, ps: seq<Posting>, doc: u32) {
    |ps| == |fronts| && forall i :: 0 <= i < |fronts| ==> ps[i] in fronts[i] && ps[i].doc == doc
  }

  /** The document is in every front, with the phrase at its stored positions. */
  ghost predicate Matches(fronts: seq<seq<Posting>>, doc: u32)
    requires |fronts| > 0
  {
    exists ps :: SameDocument(fronts, ps, doc) && PhraseAt(ps)
  }

  /** The postings of the first `k` places of the first front whose document matches. */
  ghost function Selected(fronts: seq<seq<Posting>>, k: nat): seq<Posting>
    requires |fronts| > 0 && k <= |fronts[0]|
  {
    if k == 0 then [] else Selected(fronts, k - 1) + if Matches(fronts, fronts[0][k - 1].doc) then [fronts[0][k - 1]] else []
  }

  /** Exactly the postings of the first front whose document matches are selected. */
  lemma {:induction false} SelectedExactly(fronts: seq<seq<Posting>>, k: nat, p: Posting)
    requires |fronts| > 0 && k <= |fronts[0]|
    ensures p in Selected(fronts, k) <==> p in fronts[0][..k] && Matches(fronts, p.doc)
  {
    hide Matches;
    if k > 0 {
      SelectedExactly(fronts, k - 1, p);
      assert fronts[0][..k] == fronts[0][..k - 1] + [fronts[0][k - 1]];
    }
  }

  /** An ascending list has one posting per document. */
  lemma OnePosting(front: seq<Posting>, list: seq<Posting>, p: Posting, q: Posting)
    requires FrontFirst(list, front) && p in front && q in front && p.doc == q.doc
    ensures p == q
  {
    var i :| 0 <= i < |front| && front[i] == p;
    var j :| 0 <= j < |front| && front[j] == q;
  }

  lemma SameDocumentOnce(lists: seq<seq<Posting>>, fronts: seq<seq<Posting>>, ps: seq<Posting>, qs: seq<Posting>, doc: u32)
    requires |lists| == |fronts| && forall i :: 0 <= i < |fronts| ==> FrontFirst(lists[i], fronts[i])
    requires SameDocument(fronts, ps, doc) && SameDocument(fronts, qs, doc)
    ensures ps == qs
  {
    forall i | 0 <= i < |fronts| ensures ps[i] == qs[i] {
      OnePosting(fronts[i], lists[i], ps[i], qs[i]);
    }
  }

  lemma MatchIs(lists: seq<seq<Posting>>, fronts: seq<seq<Posting>>, ps: seq<Posting>, doc: u32)
    requires |lists| == |fronts| > 0 && forall i :: 0 <= i < |fronts| ==> FrontFirst(lists[i], fronts[i])
    requires SameDocument(fronts, ps, doc)
    ensures Matches(fronts, doc) <==> PhraseAt(ps)
  {
    if Matches(fronts, doc) {
      var qs :| SameDocument(fronts, qs, doc) && PhraseAt(qs);
      SameDocumentOnce(lists, fronts, ps, qs, doc);
    }
  }

  // ---------- The cursors ----------

  /** A cursor is in the front, or at the end of the list. */
  ghost predicate Placed(list: seq<Posting>, front: seq<Posting>, c: nat) {
    c < |front| || c == |list|
  }

  /** What the cursor has passed lies below `bound`. */
  ghost predicate PassedBelow(front: seq<Posting>, c: nat, bound: u32) {
    forall k :: 0 <= k < c && k < |front| ==> front[k].doc < bound
  }

  ghost predicate AtLeast(list: seq<Posting>, c: nat, bound: u32) {
    c < |list| ==> list[c].doc >= bound
  }

  method Advance(list: seq<Posting>, cursor: nat, target: u32) returns (c: nat)
    requires cursor <= |list|
    ensures cursor <= c <= |list| && AtLeast(list, c, target)
    ensures forall k :: cursor <= k < c ==> list[k].doc < target
  {
    c := cursor;
    while c < |list| && list[c].doc < target
      invariant cursor <= c <= |list|
      invariant forall k :: cursor <= k < c ==> list[k].doc < target
    {
      c := c + 1;
    }
  }

  /** An advanced cursor is still in the front or at the end. */
  lemma Advanced(list: seq<Posting>, front: seq<Posting>, c: nat, c': nat, target: u32)
    requires FrontFirst(list, front) && Placed(list, front, c) && c <= c' <= |list| && AtLeast(list, c', target)
    requires forall k :: c <= k < c' ==> list[k].doc < target
    ensures Placed(list, front, c')
    ensures PassedBelow(front, c, target) ==> PassedBelow(front, c', target)
  {
    assert front[0].doc <= front[|front| - 1].doc;
    assert c' >= |front| && c < |front| ==> list[|front| - 1].doc < target;
    forall k | 0 <= k < c' && k < |front| && k >= c ensures front[k].doc < target {
      assert list[k] == front[k];
    }
  }

  /** A cursor that has passed only smaller documents finds `target` exactly if it is in the front. */
  lemma Found(list: seq<Posting>, front: seq<Posting>, c: nat, target: u32)
    requires FrontFirst(list, front) && Placed(list, front, c) && AtLeast(list, c, target) && PassedBelow(front, c, target)
    ensures (c < |list| && list[c].doc == target) <==> exists p :: p in front && p.doc == target
    ensures c < |list| && list[c].doc == target ==> list[c] in front
  {
    if c < |list| && list[c].doc == target {
      assert list[c] == front[c];
    }
    if p :| p in front && p.doc == target {
      var j :| 0 <= j < |front| && front[j] == p;
      assert list[j] == front[j];
      assert c <= j;
      assert list[c] == front[c];
    }
  }

  ghost predicate Fronts(lists: seq<seq<Posting>>, fronts: seq<seq<Posting>>) {
    |lists| == |fronts| >= 2 && forall i :: 0 <= i < |lists| ==> FrontFirst(lists[i], fronts[i])
  }

  /** The cursors after `n` places of the first list. */
  ghost predicate Aligned(lists: seq<seq<Posting>>, fronts: seq<seq<Posting>>, cs: seq<nat>, n: nat)
    requires Fronts(lists, fronts)
  {
    && |cs| == |lists| && cs[0] == n <= |lists[0]|
    && (forall i :: 1 <= i < |cs| ==> Placed(lists[i], fronts[i], cs[i]))
    && (n < |fronts[0]| ==> forall i :: 1 <= i < |cs| ==> PassedBelow(fronts[i], cs[i], fronts[0][n].doc))
    && (forall k :: 0 <= k < n && k < |fronts[0]| ==> AtLeast(lists[1], cs[1], fronts[0][k].doc))
  }

  /** The state inside the cursor loop: the terms before `i` are at `target`. */
  ghost predicate Aligning(lists: seq<seq<Posting>>, fronts: seq<seq<Posting>>, cs: seq<nat>, n: nat, i: nat)
    requires Fronts(lists, fronts)
  {
    && |cs| == |lists| && cs[0] == n < |lists[0]| && 1 <= i <= |cs|
    && (forall j :: 1 <= j < |cs| ==> Placed(lists[j], fronts[j], cs[j]))
    && (n < |fronts[0]| ==> forall j :: 1 <= j < |cs| ==> PassedBelow(fronts[j], cs[j], fronts[0][n].doc))
    && (forall j :: 1 <= j < i ==> cs[j] < |lists[j]| && lists[j][cs[j]].doc == lists[0][n].doc)
    && (n >= |fronts[0]| ==> i == 1)
    && (i == 1 ==> forall k :: 0 <= k < n && k < |fronts[0]| ==> AtLeast(lists[1], cs[1], fronts[0][k].doc))
  }

  lemma StartsAligned(lists: seq<seq<Posting>>, fronts: seq<seq<Posting>>)
    requires Fronts(lists, fronts)
    ensures Aligned(lists, fronts, seq(|lists|, _ => 0), 0)
  {}

  lemma AligningStarts(lists: seq<seq<Posting>>, fronts: seq<seq<Posting>>, cs: seq<nat>, n: nat)
    requires Fronts(lists, fronts) && Aligned(lists, fronts, cs, n) && n < |lists[0]|
    ensures Aligning(lists, fronts, cs, n, 1)
  {}

  /** The cursor of term `i` has advanced. If it found the document, the loop goes on; if not, the step is over. */
  lemma AligningStep(lists: seq<seq<Posting>>, fronts: seq<seq<Posting>>, cs: seq<nat>, n: nat, i: nat, c: nat)
    requires Fronts(lists, fronts) && Aligning(lists, fronts, cs, n, i) && i < |cs|
    requires cs[i] <= c <= |lists[i]| && AtLeast(lists[i], c, lists[0][n].doc)
    requires forall k :: cs[i] <= k < c ==> lists[i][k].doc < lists[0][n].doc
    ensures var found := c < |lists[i]| && lists[i][c].doc == lists[0][n].doc;
      && (found ==> n < |fronts[0]| && Aligning(lists, fronts, cs[i := c], n, i + 1))
      && (found ==> lists[i][c] in fronts[i])
      && (!found ==> Aligned(lists, fronts, cs[0 := n + 1][i := c], n + 1))
      && (!found && n < |fronts[0]| ==> forall p :: p in fronts[i] ==> p.doc != lists[0][n].doc)
  {
    Advanced(lists[i], fronts[i], cs[i], c, lists[0][n].doc);
    if n < |fronts[0]| {
      assert lists[0][n] == fronts[0][n];
      Found(lists[i], fronts[i], c, lists[0][n].doc);
      StepInFront(lists, fronts, cs, n, i, c);
    } else {
      OlderTarget(lists, fronts, cs, n, c);
    }
  }

  lemma StepInFront(lists: seq<seq<Posting>>, fronts: seq<seq<Posting>>, cs: seq<nat>, n: nat, i: nat, c: nat)
    requires Fronts(lists, fronts) && Aligning(lists, fronts, cs, n, i) && i < |cs| && n < |fronts[0]|
    requires cs[i] <= c <= |lists[i]| && AtLeast(lists[i], c, lists[0][n].doc)
    requires Placed(lists[i], fronts[i], c) && PassedBelow(fronts[i], c, lists[0][n].doc) && lists[0][n] == fronts[0][n]
    ensures var found := c < |lists[i]| && lists[i][c].doc == lists[0][n].doc;
      && (found ==> Aligning(lists, fronts, cs[i := c], n, i + 1))
      && (!found ==> Aligned(lists, fronts, cs[0 := n + 1][i := c], n + 1))
  {
    var target := fronts[0][n].doc;
    hide FrontFirst;
    Rises(lists[0], fronts[0], n);
    if !(c < |lists[i]| && lists[i][c].doc == target) {
      var cs' := cs[0 := n + 1][i := c];
      forall j | 1 <= j < |cs| && n + 1 < |fronts[0]| ensures PassedBelow(fronts[j], cs'[j], fronts[0][n + 1].doc) {
        assert PassedBelow(fronts[j], cs'[j], target);
      }
      forall k | 0 <= k < n + 1 && k < |fronts[0]| ensures AtLeast(lists[1], cs'[1], fronts[0][k].doc) {
        assert fronts[0][k].doc <= target;
        if i != 1 { assert lists[1][cs[1]].doc == target; }
      }
    }
  }

  lemma Rises(list: seq<Posting>, front: seq<Posting>, n: nat)
    requires FrontFirst(list, front) && n < |front|
    ensures forall k :: 0 <= k <= n ==> front[k].doc <= front[n].doc
    ensures n + 1 < |front| ==> front[n].doc < front[n + 1].doc
    ensures n < |list| && list[n] == front[n]
  {}

  /** Behind the first front no document is found any more: the first cursor to try stands too far. */
  lemma OlderTarget(lists: seq<seq<Posting>>, fronts: seq<seq<Posting>>, cs: seq<nat>, n: nat, c: nat)
    requires Fronts(lists, fronts) && Aligning(lists, fronts, cs, n, 1) && n >= |fronts[0]|
    requires cs[1] <= c <= |lists[1]| && AtLeast(lists[1], c, lists[0][n].doc)
    requires forall k :: cs[1] <= k < c ==> lists[1][k].doc < lists[0][n].doc
    ensures c == cs[1] && !(c < |lists[1]| && lists[1][c].doc == lists[0][n].doc)
    ensures Aligned(lists, fronts, cs[0 := n + 1][1 := c], n + 1)
  {
    assert AtLeast(lists[1], cs[1], fronts[0][0].doc);
    assert lists[0][n].doc < fronts[0][0].doc;
  }

  /** All terms are at the document. */
  lemma AllAligned(lists: seq<seq<Posting>>, fronts: seq<seq<Posting>>, cs: seq<nat>, n: nat)
    requires Fronts(lists, fronts) && Aligning(lists, fronts, cs, n, |cs|)
    ensures n < |fronts[0]| && Aligned(lists, fronts, cs[0 := n + 1], n + 1)
    ensures forall i :: 0 <= i < |cs| ==> cs[i] < |lists[i]|
    ensures SameDocument(fronts, Current(lists, cs), lists[0][n].doc)
  {
    Rises(lists[0], fronts[0], n);
    forall i | 0 <= i < |fronts| ensures lists[i][cs[i]] in fronts[i] {
      assert cs[i] < |fronts[i]|;
      assert lists[i][cs[i]] == fronts[i][cs[i]];
    }
    forall j | 1 <= j < |cs| && n + 1 < |fronts[0]| ensures PassedBelow(fronts[j], cs[j], fronts[0][n + 1].doc) {
      assert PassedBelow(fronts[j], cs[j], fronts[0][n].doc);
    }
  }

  /** The postings under the cursors. */
  function Current(lists: seq<seq<Posting>>, cs: seq<nat>): seq<Posting>
    requires |cs| == |lists| && forall i :: 0 <= i < |cs| ==> cs[i] < |lists[i]|
  {
    seq(|cs|, i requires 0 <= i < |cs| => lists[i][cs[i]])
  }

  /** The cursor loop for one posting of the first list: succeeds exactly if its document is in every front. */
  method AlignCursors(lists: seq<seq<Posting>>, cursors: array<nat>, ghost fronts: seq<seq<Posting>>) returns (found: bool)
    requires Fronts(lists, fronts) && cursors.Length == |lists| && cursors[0] < |lists[0]|
    requires Aligned(lists, fronts, cursors[..], cursors[0])
    modifies cursors
    ensures cursors[0] == old(cursors[0])
    ensures Aligned(lists, fronts, cursors[..][0 := cursors[0] + 1], cursors[0] + 1)
    ensures found ==> cursors[0] < |fronts[0]| && forall i :: 0 <= i < |lists| ==> cursors[i] < |lists[i]|
    ensures found ==> SameDocument(fronts, Current(lists, cursors[..]), lists[0][cursors[0]].doc)
    ensures !found && cursors[0] < |fronts[0]| ==> !Matches(fronts, lists[0][cursors[0]].doc)
  {
    hide FrontFirst, Aligned, Aligning, Matches, PhraseAt, SameDocument;
    ghost var n: nat := cursors[0];
    var target := lists[0][cursors[0]].doc;
    AligningStarts(lists, fronts, cursors[..], n);
    for i := 1 to cursors.Length
      invariant Aligning(lists, fronts, cursors[..], n, i) && cursors[0] == n
    {
      ghost var cs: seq<nat> := cursors[..];
      CursorInRange(lists, fronts, cs, n, i);
      var c := Advance(lists[i], cursors[i], target);
      AligningStep(lists, fronts, cs, n, i, c);
      cursors[i] := c;
      assert cursors[..] == cs[i := c];
      if c == |lists[i]| || lists[i][c].doc != target {
        assert cursors[..][0 := n + 1] == cs[0 := n + 1][i := c];
        if n < |fronts[0]| {
          NoMatch(fronts, i, target);
        }
        return false;
      }
    }
    AllAligned(lists, fronts, cursors[..], n);
    return true;
  }

  lemma CursorInRange(lists: seq<seq<Posting>>, fronts: seq<seq<Posting>>, cs: seq<nat>, n: nat, i: nat)
    requires Fronts(lists, fronts) && Aligning(lists, fronts, cs, n, i) && i < |cs|
    ensures cs[i] <= |lists[i]|
  {}

  lemma NoMatch(fronts: seq<seq<Posting>>, i: nat, doc: u32)
    requires i < |fronts| && forall p :: p in fronts[i] ==> p.doc != doc
    ensures !Matches(fronts, doc)
  {
    forall ps: seq<Posting> ensures !SameDocument(fronts, ps, doc) {
      assert |ps| == |fronts| ==> ps[i] !in fronts[i] || ps[i].doc != doc;
    }
  }

  // ---------- The positions ----------

  method Holds(positions: seq<u32>, target: u32) returns (found: bool)
    ensures found == (target in positions)
  {
    for i := 0 to |positions|
      invariant target !in positions[..i]
    {
      if positions[i] == target {
        return true;
      }
      assert positions[..i + 1] == positions[..i] + [positions[i]];
    }
    assert positions[..|positions|] == positions;
    return false;
  }

  /** The position loops of the phrase search. */
  method PositionsMatch(ps: seq<Posting>) returns (found: bool)
    requires |ps| > 0
    ensures found == PhraseAt(ps)
  {
    var starts := ps[0].positions;
    for k := 0 to |starts|
      invariant forall s :: s in starts[..k] ==> !Continues(ps, s)
    {
      var here := true;
      for i := 1 to |ps|
        invariant here && forall j :: 1 <= j < i ==> ((starts[k] as int + j) % 0x1_0000_0000) in ps[j].positions
      {
        var target: u32 := (starts[k] + i) % 0x1_0000_0000;
        var next := Holds(ps[i].positions, target);
        if !next {
          here := false;
          assert !Continues(ps, starts[k]);
          break;
        }
      }
      if here {
        assert Continues(ps, starts[k]);
        return true;
      }
      assert starts[..k + 1] == starts[..k] + [starts[k]];
    }
    assert starts[..|starts|] == starts;
    return false;
  }
}
