/** Keeping and sorting the best results: the replace-minimum buffer and the exchange sort that the
    searches of src/unified_shard.c, src/inverted_index.c and src/async_search.c share. */
module Ranking {
  import opened Pages
  import opened Common

  /** UnifiedSearchResult; scores are real numbers here. */
  datatype Result = Result(node: NodeId, bm25f: real, cosine: real, rrf: real, bm25fRank: nat, cosineRank: nat)

  datatype Field = Bm25f | Cosine | Rrf

  function Key(r: Result, field: Field): real {
    match field
    case Bm25f => r.bm25f
    case Cosine => r.cosine
    case Rrf => r.rrf
  }

  function Scores(rs: seq<Result>, field: Field): (s: seq<real>)
    ensures |s| == |rs| && forall i :: 0 <= i < |rs| ==> s[i] == Key(rs[i], field)
  {
    seq(|rs|, i requires 0 <= i < |rs| => Key(rs[i], field))
  }

  // ---------- The best k of a multiset of scores ----------

  ghost predicate TopScores(best: multiset<real>, all: multiset<real>, k: nat) {
    && best <= all && |best| == Min(k, |all|)
    && forall x, y :: x in best && y in all - best ==> y <= x
  }

  ghost predicate Descending(s: seq<real>) {
    forall i, j :: 0 <= i < j < |s| ==> s[i] >= s[j]
  }

  lemma SubsetOfEqualSize(a: multiset<real>, b: multiset<real>)
    requires a <= b && |a| == |b|
    ensures a == b
  {
    assert b == a + (b - a);
    assert |b - a| == 0;
  }

  lemma KeepOne(best: multiset<real>, all: multiset<real>, k: nat, s: real)
    requires TopScores(best, all, k) && |best| < k
    ensures TopScores(best + multiset{s}, all + multiset{s}, k)
  {
    SubsetOfEqualSize(best, all);
  }

  lemma ReplaceMinimum(best: multiset<real>, all: multiset<real>, k: nat, low: real, s: real)
    requires TopScores(best, all, k) && |best| == k && low in best && forall x :: x in best ==> low <= x
    ensures s > low ==> TopScores(best - multiset{low} + multiset{s}, all + multiset{s}, k)
    ensures s <= low ==> TopScores(best, all + multiset{s}, k)
  {
    if s > low {
      var best', all' := best - multiset{low} + multiset{s}, all + multiset{s};
      forall y | y in all' - best' ensures y <= low {
        assert all' - best' == all - best + multiset{low};
      }
    } else {
      assert all + multiset{s} - best == all - best + multiset{s};
    }
  }

  /** Descending, the best k scores of a multiset form one list only. */
  lemma {:induction false} TopUnique(a: seq<real>, b: seq<real>, all: multiset<real>, k: nat)
    requires Descending(a) && Descending(b)
    requires TopScores(multiset(a), all, k) && TopScores(multiset(b), all, k)
    ensures a == b
  {
    if a != [] {
      TopHead(a, all, k);
      TopHead(b, all, k);
      assert a[0] >= b[0] && b[0] >= a[0];
      TopUnique(a[1..], b[1..], all - multiset{a[0]}, k - 1);
    }
  }

  lemma TopHead(a: seq<real>, all: multiset<real>, k: nat)
    requires Descending(a) && TopScores(multiset(a), all, k) && a != []
    ensures a[0] in all && forall y :: y in all ==> y <= a[0]
    ensures k > 0 && Descending(a[1..]) && TopScores(multiset(a[1..]), all - multiset{a[0]}, k - 1)
  {
    assert a == [a[0]] + a[1..];
    assert multiset(a) == multiset{a[0]} + multiset(a[1..]);
    HeadIsBest(a, all, k);
    WithoutHead(multiset(a[1..]), a[0], all, k);
  }

  lemma HeadIsBest(a: seq<real>, all: multiset<real>, k: nat)
    requires Descending(a) && TopScores(multiset(a), all, k) && a != []
    ensures a[0] in all && forall y :: y in all ==> y <= a[0]
  {
    assert a[0] in multiset(a);
    forall y | y in all ensures y <= a[0] {
      if y in multiset(a) {
        assert y in a;
      } else {
        assert y in all - multiset(a);
      }
    }
  }

  lemma WithoutHead(rest: multiset<real>, x: real, all: multiset<real>, k: nat)
    requires TopScores(multiset{x} + rest, all, k)
    ensures k > 0 && TopScores(rest, all - multiset{x}, k - 1)
  {
    var best := multiset{x} + rest;
    assert x in best && all - multiset{x} - rest == all - best;
    forall y | y in rest ensures y in best {}
  }

  // ---------- The result buffer ----------

  /** `kept` are results among `seen` whose scores are the best `k`. */
  ghost predicate Best(kept: seq<Result>, seen: seq<Result>, k: nat, field: Field) {
    && multiset(kept) <= multiset(seen)
    && TopScores(multiset(Scores(kept, field)), multiset(Scores(seen, field)), k)
  }

  lemma BestEmpty(k: nat, field: Field)
    ensures Best([], [], k, field)
  {
    assert Scores([], field) == [];
  }

  lemma BestGrows(kept: seq<Result>, seen: seq<Result>, k: nat, field: Field, r: Result)
    requires Best(kept, seen, k, field) && |kept| < k
    ensures Best(kept + [r], seen + [r], k, field)
  {
    assert Scores(kept + [r], field) == Scores(kept, field) + [Key(r, field)];
    assert Scores(seen + [r], field) == Scores(seen, field) + [Key(r, field)];
    KeepOne(multiset(Scores(kept, field)), multiset(Scores(seen, field)), k, Key(r, field));
  }

  lemma ScoresChanged(kept: seq<Result>, seen: seq<Result>, low: nat, r: Result, field: Field)
    requires low < |kept|
    ensures |Scores(kept, field)| == |kept| && Scores(kept[low := r], field) == Scores(kept, field)[low := Key(r, field)]
    ensures Scores(seen + [r], field) == Scores(seen, field) + [Key(r, field)]
    ensures forall i :: 0 <= i < |kept| ==> Scores(kept, field)[i] == Key(kept[i], field)
  {}

  lemma BestReplaces(kept: seq<Result>, seen: seq<Result>, k: nat, field: Field, r: Result, low: nat)
    requires Best(kept, seen, k, field) && |kept| == k && low < |kept|
    requires forall i :: 0 <= i < |kept| ==> Key(kept[low], field) <= Key(kept[i], field)
    ensures Key(r, field) > Key(kept[low], field) ==> Best(kept[low := r], seen + [r], k, field)
    ensures Key(r, field) <= Key(kept[low], field) ==> Best(kept, seen + [r], k, field)
  {
    hide TopScores, Key, Scores;
    var s, a := Key(r, field), Scores(kept, field);
    ScoresChanged(kept, seen, low, r, field);
    MultisetUpdate(a, low, s);
    MultisetUpdate(kept, low, r);
    forall x | x in multiset(a) ensures a[low] <= x {
      var i :| 0 <= i < |a| && a[i] == x;
    }
    ReplaceMinimum(multiset(a), multiset(Scores(seen, field)), k, a[low], s);
  }

  lemma MultisetUpdate<T>(s: seq<T>, i: nat, x: T)
    requires i < |s|
    ensures multiset(s[i := x]) == multiset(s) - multiset{s[i]} + multiset{x}
    ensures s[i] in multiset(s)
  {}

  method MinimumIndex(results: array<Result>, count: nat, field: Field) returns (low: nat)
    requires 0 < count <= results.Length
    ensures low < count && forall i :: 0 <= i < count ==> Key(results[low], field) <= Key(results[i], field)
  {
    low := 0;
    for i := 1 to count
      invariant low < count && forall j :: 0 <= j < i ==> Key(results[low], field) <= Key(results[j], field)
    {
      if Key(results[i], field) < Key(results[low], field) {
        low := i;
      }
    }
  }

  /** Offers a result to the buffer: append while there is room, then replace the minimum by anything better. */
  method Offer(results: array<Result>, count: nat, max: nat, r: Result, field: Field, ghost seen: seq<Result>) returns (count': nat)
    requires count <= max <= results.Length && max > 0
    requires Best(results[..count], seen, max, field)
    modifies results
    ensures count <= count' <= max && Best(results[..count'], seen + [r], max, field)
    ensures forall i :: count' <= i < results.Length ==> results[i] == old(results[i])
  {
    hide Best, Key;
    ghost var kept := results[..count];
    if count < max {
      BestGrows(kept, seen, max, field, r);
      results[count] := r;
      assert results[..count + 1] == kept + [r];
      return count + 1;
    }
    var low := MinimumIndex(results, count, field);
    BestReplaces(kept, seen, max, field, r, low);
    if Key(r, field) > Key(results[low], field) {
      results[low] := r;
      assert results[..count] == kept[low := r];
    }
    return count;
  }

  // ---------- The exchange sort ----------

  ghost predicate SortedUpTo(s: seq<Result>, i: nat, n: nat, field: Field)
    requires i <= n <= |s|
  {
    forall p, q :: 0 <= p < i && p < q < n ==> Key(s[p], field) >= Key(s[q], field)
  }

  method Swap(results: array<Result>, i: nat, j: nat)
    requires i < results.Length && j < results.Length
    modifies results
    ensures results[..] == old(results[..])[i := old(results[j])][j := old(results[i])]
  {
    results[i], results[j] := results[j], results[i];
  }

  lemma SwapKeepsAll<T>(s: seq<T>, i: nat, j: nat, n: nat)
    requires i < j < n <= |s|
    ensures multiset(s[i := s[j]][j := s[i]][..n]) == multiset(s[..n])
    ensures s[i := s[j]][j := s[i]][n..] == s[n..]
  {
    var t := s[..n];
    assert s[i := s[j]][j := s[i]][..n] == t[i := t[j]][j := t[i]];
  }

  /** The first `i` places are final, and place `i` beats everything up to `j`. */
  ghost predicate InRound(s: seq<Result>, i: nat, j: nat, n: nat, field: Field)
    requires i < j <= n <= |s|
  {
    SortedUpTo(s, i, n, field) && forall q :: i < q < j ==> Key(s[i], field) >= Key(s[q], field)
  }

  lemma RoundStep(s: seq<Result>, i: nat, j: nat, n: nat, field: Field)
    requires i < j < n <= |s| && InRound(s, i, j, n, field)
    ensures Key(s[j], field) > Key(s[i], field) ==> InRound(s[i := s[j]][j := s[i]], i, j + 1, n, field)
    ensures Key(s[j], field) <= Key(s[i], field) ==> InRound(s, i, j + 1, n, field)
  {
    hide Key;
  }

  /** The same results, in the first `n` places; nothing else changed. */
  ghost predicate Rearranged(s: seq<Result>, t: seq<Result>, i: nat, n: nat)
    requires i <= n <= |s|
  {
    |t| == |s| && multiset(t[..n]) == multiset(s[..n]) && t[n..] == s[n..] && t[..i] == s[..i]
  }

  lemma RearrangedStep(s: seq<Result>, t: seq<Result>, i: nat, j: nat, n: nat)
    requires i < j < n <= |s| && Rearranged(s, t, i, n)
    ensures Rearranged(s, t[i := t[j]][j := t[i]], i, n)
  {
    SwapKeepsAll(t, i, j, n);
  }

  /** One round: position `i` receives the best of what follows. */
  method Round(results: array<Result>, i: nat, n: nat, field: Field)
    requires i < n <= results.Length && SortedUpTo(results[..], i, n, field)
    modifies results
    ensures SortedUpTo(results[..], i + 1, n, field)
    ensures Rearranged(old(results[..]), results[..], i, n)
    ensures SortedUpTo(old(results[..]), n, n, field) ==> results[..] == old(results[..])
  {
    hide Key, Rearranged;
    assert Rearranged(results[..], results[..], i, n) by { NothingMoved(results[..], i, n); }
    for j := i + 1 to n
      invariant InRound(results[..], i, j, n, field) && Rearranged(old(results[..]), results[..], i, n)
      invariant SortedUpTo(old(results[..]), n, n, field) ==> results[..] == old(results[..])
    {
      InOrder(results[..], i, j, n, field);
      RoundStep(results[..], i, j, n, field);
      RearrangedStep(old(results[..]), results[..], i, j, n);
      if Key(results[j], field) > Key(results[i], field) {
        hide InRound, SortedUpTo;
        Swap(results, i, j);
      }
    }
  }

  lemma InOrder(s: seq<Result>, i: nat, j: nat, n: nat, field: Field)
    requires i < j < n <= |s|
    ensures SortedUpTo(s, n, n, field) ==> Key(s[j], field) <= Key(s[i], field)
  {}

  lemma NothingMoved(s: seq<Result>, i: nat, n: nat)
    requires i <= n <= |s|
    ensures Rearranged(s, s, i, n)
  {}

  lemma RearrangedTwice(s: seq<Result>, t: seq<Result>, u: seq<Result>, i: nat, n: nat)
    requires i <= n <= |s| && Rearranged(s, t, 0, n) && Rearranged(t, u, i, n)
    ensures Rearranged(s, u, 0, n)
  {}

  /** The double loop: descending by score, the same results, the rest of the buffer untouched; it moves nothing
      that is in order already. */
  method ExchangeSort(results: array<Result>, n: nat, field: Field)
    requires n <= results.Length
    modifies results
    ensures Descending(Scores(results[..n], field))
    ensures Rearranged(old(results[..]), results[..], 0, n)
    ensures SortedUpTo(old(results[..]), n, n, field) ==> results[..] == old(results[..])
  {
    hide Key, Rearranged;
    NothingMoved(results[..], 0, n);
    for i := 0 to n
      invariant SortedUpTo(old(results[..]), n, n, field) ==> results[..] == old(results[..])
      invariant SortedUpTo(results[..], i, n, field) && Rearranged(old(results[..]), results[..], 0, n)
    {
      ghost var t := results[..];
      Round(results, i, n, field);
      RearrangedTwice(old(results[..]), t, results[..], i, n);
    }
  }
}
