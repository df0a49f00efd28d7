/** Sequences up to order. */
module Sequences {
  lemma SameLength<T>(a: seq<T>, b: seq<T>)
    requires multiset(a) == multiset(b)
    ensures |a| == |b|
  {
    assert |multiset(a)| == |a| && |multiset(b)| == |b|;
  }

  /** The last element of `a`, taken out of both sequences. */
  lemma WithoutOne<T>(a: seq<T>, b: seq<T>) returns (a': seq<T>, x: T, l: seq<T>, r: seq<T>)
    requires multiset(a) == multiset(b) && a != []
    ensures a == a' + [x] && b == l + [x] + r && multiset(a') == multiset(l + r)
    ensures |a'| < |a|
  {
    var n := |a| - 1;
    a', x := a[..n], a[n];
    assert a == a' + [x];
    assert x in multiset(b);
    var j :| 0 <= j < |b| && b[j] == x;
    l, r := b[..j], b[j + 1..];
    assert b == l + [x] + r;
    assert multiset(b) == multiset(l + r) + multiset{x};
    assert multiset(a') == multiset(a) - multiset{x};
  }

  function Map<T, U>(f: T -> U, s: seq<T>): (m: seq<U>)
    ensures |m| == |s| && forall i :: 0 <= i < |s| ==> m[i] == f(s[i])
  {
    seq(|s|, i requires 0 <= i < |s| => f(s[i]))
  }

  lemma {:induction false} MapPermutes<T, U>(f: T -> U, a: seq<T>, b: seq<T>)
    requires multiset(a) == multiset(b)
    ensures multiset(Map(f, a)) == multiset(Map(f, b))
    decreases |a|
  {
    SameLength(a, b);
    if a == [] {
      assert Map(f, a) == Map(f, b);
    } else {
      var a', x, l, r := WithoutOne(a, b);
      MapPermutes(f, a', l + r);
      assert Map(f, a) == Map(f, a') + [f(x)];
      assert Map(f, b) == Map(f, l) + [f(x)] + Map(f, r);
      assert Map(f, l + r) == Map(f, l) + Map(f, r);
    }
  }

  ghost predicate NoRepeats<T>(s: seq<T>) {
    forall i, j :: 0 <= i < j < |s| ==> s[i] != s[j]
  }

  /** Whether a sequence repeats an element does not depend on its order. */
  lemma {:induction false} NoRepeatsPermuted<T>(a: seq<T>, b: seq<T>)
    requires multiset(a) == multiset(b) && NoRepeats(a)
    ensures NoRepeats(b)
    decreases |a|
  {
    SameLength(a, b);
    if a != [] {
      var a', x, l, r := WithoutOne(a, b);
      assert forall i :: 0 <= i < |a'| ==> a'[i] == a[i];
      NoRepeatsPermuted(a', l + r);
      assert x !in a' by {
        assert a[|a| - 1] == x;
      }
      assert x !in multiset(l + r);
      AroundNoRepeat(l, x, r);
    }
  }

  lemma AroundNoRepeat<T>(l: seq<T>, x: T, r: seq<T>)
    requires NoRepeats(l + r) && x !in multiset(l + r)
    ensures NoRepeats(l + [x] + r)
  {
    var s, t := l + [x] + r, l + r;
    forall i, j | 0 <= i < j < |s| ensures s[i] != s[j] {
      assert x !in t;
      var k, m := if i > |l| then i - 1 else i, if j > |l| then j - 1 else j;
      assert i != |l| ==> s[i] == t[k];
      assert j != |l| ==> s[j] == t[m];
    }
  }

  lemma {:induction false} Listed<T>(m: multiset<T>) returns (s: seq<T>)
    ensures multiset(s) == m
    decreases |m|
  {
    if |m| == 0 {
      s := [];
    } else {
      var x :| x in m;
      var rest := Listed(m - multiset{x});
      s := [x] + rest;
      assert multiset(s) == m;
    }
  }

  /** If the images of `b` do not repeat, neither do those of a part of it. */
  lemma NoRepeatsInPart<T, U>(f: T -> U, a: seq<T>, b: seq<T>)
    requires multiset(a) <= multiset(b) && NoRepeats(Map(f, b))
    ensures NoRepeats(Map(f, a))
  {
    var rest := Listed(multiset(b) - multiset(a));
    assert multiset(a + rest) == multiset(b);
    MapPermutes(f, b, a + rest);
    NoRepeatsPermuted(Map(f, b), Map(f, a + rest));
    var m := Map(f, a + rest);
    assert forall i :: 0 <= i < |a| ==> Map(f, a)[i] == m[i];
  }

  lemma SameMembers<T>(a: seq<T>, b: seq<T>)
    requires multiset(a) == multiset(b)
    ensures forall x :: x in a <==> x in b
  {
    assert forall x :: x in multiset(a) <==> x in a;
    assert forall x :: x in multiset(b) <==> x in b;
  }

  lemma {:induction false} NoRepeatsCount<T>(s: seq<T>, all: set<T>)
    requires NoRepeats(s) && forall x :: x in all <==> x in s
    ensures |all| == |s|
  {
    if s == [] {
      assert all == {};
    } else {
      var n := |s| - 1;
      assert s == s[..n] + [s[n]];
      assert s[n] !in s[..n];
      NoRepeatsCount(s[..n], all - {s[n]});
    }
  }

  // ---------- Which elements of a sequence another one takes ----------

  /** `pick` names different places of a sequence of length `n`. */
  ghost predicate Picks(pick: seq<nat>, n: nat) {
    NoRepeats(pick) && forall k :: 0 <= k < |pick| ==> pick[k] < n
  }

  function Picked<T>(pick: seq<nat>, s: seq<T>): (r: seq<T>)
    requires forall k :: 0 <= k < |pick| ==> pick[k] < |s|
    ensures |r| == |pick| && forall k :: 0 <= k < |pick| ==> r[k] == s[pick[k]]
  {
    seq(|pick|, k requires 0 <= k < |pick| => s[pick[k]])
  }

  lemma NonePicked<T>(s: seq<T>)
    ensures Picks([], |s|) && Picked([], s) == []
  {}

  lemma OnePicked<T>(pick: seq<nat>, s: seq<T>, j: nat)
    requires Picks(pick, |s|) && j < |s| && j !in pick
    ensures Picks(pick + [j], |s|) && Picked(pick + [j], s) == Picked(pick, s) + [s[j]]
  {
    assert forall k :: 0 <= k < |pick| ==> pick[k] in pick;
  }

  /** Place `i` of a sequence without its place `j`. */
  function Closed(j: nat, i: nat): nat {
    if i <= j then i else i - 1
  }

  function Opened(j: nat, i: nat): nat {
    if i < j then i else i + 1
  }

  /** Whatever is part of a sequence can be picked from it. */
  lemma {:induction false} PickFrom<T>(a: seq<T>, b: seq<T>) returns (pick: seq<nat>)
    requires multiset(a) <= multiset(b)
    ensures Picks(pick, |b|) && Picked(pick, b) == a
  {
    if a == [] {
      pick := [];
    } else {
      var n := |a| - 1;
      var j, rest := LastIn(a, b);
      var before := PickFrom(a[..n], rest);
      pick := seq(n, k requires 0 <= k < n => Opened(j, before[k])) + [j];
      forall k | 0 <= k < n ensures pick[k] < |b| && b[pick[k]] == a[k] && pick[k] != j {
        assert rest[before[k]] == a[..n][k];
      }
    }
  }

  lemma LastIn<T>(a: seq<T>, b: seq<T>) returns (j: nat, rest: seq<T>)
    requires multiset(a) <= multiset(b) && a != []
    ensures j < |b| && b[j] == a[|a| - 1] && rest == b[..j] + b[j + 1..] && multiset(a[..|a| - 1]) <= multiset(rest)
  {
    var n := |a| - 1;
    assert a == a[..n] + [a[n]];
    assert multiset(a) == multiset(a[..n]) + multiset{a[n]};
    assert a[n] in multiset(b);
    j :| 0 <= j < |b| && b[j] == a[n];
    rest := b[..j] + b[j + 1..];
    assert b == b[..j] + [b[j]] + b[j + 1..];
    assert multiset(b) == multiset(rest) + multiset{a[n]};
    Cancel(multiset(a[..n]), multiset(rest), a[n]);
  }

  lemma Cancel<T>(a: multiset<T>, b: multiset<T>, x: T)
    requires a + multiset{x} <= b + multiset{x}
    ensures a <= b
  {
    forall y: T ensures a[y] <= b[y] {
      assert (a + multiset{x})[y] <= (b + multiset{x})[y];
    }
  }

  /** Whatever is picked from a sequence is part of it. */
  lemma {:induction false} PickedPart<T>(pick: seq<nat>, b: seq<T>)
    requires Picks(pick, |b|)
    ensures multiset(Picked(pick, b)) <= multiset(b)
    decreases |pick|
  {
    if pick != [] {
      var n := |pick| - 1;
      var j := pick[n];
      var rest := b[..j] + b[j + 1..];
      var before := seq(n, k requires 0 <= k < n => Closed(j, pick[k]));
      ClosedPicks(pick, j, before, |b|);
      PickedPart(before, rest);
      assert Picked(pick, b) == Picked(before, rest) + [b[j]];
      assert b == b[..j] + [b[j]] + b[j + 1..];
    }
  }

  lemma ClosedPicks(pick: seq<nat>, j: nat, before: seq<nat>, n: nat)
    requires Picks(pick, n) && pick != [] && j == pick[|pick| - 1] && |before| == |pick| - 1
    requires forall k :: 0 <= k < |before| ==> before[k] == Closed(j, pick[k])
    ensures n > 0 && Picks(before, n - 1)
  {
    forall k | 0 <= k < |before| ensures pick[k] != j && before[k] < n - 1 {}
  }
}
