/** The dictionary of src/lexicon_map.c: hash buckets of entries, and the tokenizer. */
module Lexicon {
  import opened Common

  const BUCKET_COUNT := 65536
  const MAX_TERM_LEN := 255
  const FNV_PRIME: bv32 := 16777619
  const FNV_OFFSET_BASIS: bv32 := 2166136261

  /** A C string: bytes without NUL. */
  type Term = s: seq<bv8> | 0 !in s

  // ---------- The hash ----------

  function Mix(hash: bv32, c: bv8): bv32 {
    (hash ^ (c as bv32)) * FNV_PRIME
  }

  function HashFrom(hash: bv32, term: seq<bv8>): bv32
    decreases |term|
  {
    if term == [] then hash else HashFrom(Mix(hash, term[0]), term[1..])
  }

  /** FNV-1a, except that 0 becomes 1. */
  function TermHash(term: seq<bv8>): (h: bv32)
    ensures h != 0
  {
    var h := HashFrom(FNV_OFFSET_BASIS, term);
    if h == 0 then 1 else h
  }

  method ComputeHash(term: seq<bv8>) returns (hash: bv32)
    ensures hash == TermHash(term)
  {
    hide Mix;
    hash := FNV_OFFSET_BASIS;
    var rest := term;
    while rest != []
      invariant HashFrom(hash, rest) == HashFrom(FNV_OFFSET_BASIS, term)
      decreases |rest|
    {
      hash := Mix(hash, rest[0]);
      rest := rest[1..];
    }
    if hash == 0 {
      hash := 1;
    }
  }

  /** The hash modulo 65536. */
  function BucketOf(hash: bv32): (b: nat)
    ensures b < BUCKET_COUNT
  {
    ((hash & 0xFFFF) as bv16) as int
  }

  function Bucket(term: seq<bv8>): nat {
    BucketOf(TermHash(term))
  }

  // ---------- A bucket ----------

  datatype LexEntry = LexEntry(term: seq<bv8>, id: bv32, frequency: nat)

  /** The first entry for `term`. */
  function Find(chain: seq<LexEntry>, term: seq<bv8>): (i: Option<nat>)
    ensures i.Some? ==> i.value < |chain| && chain[i.value].term == term
    ensures i.Some? ==> forall j :: 0 <= j < i.value ==> chain[j].term != term
    ensures i.None? ==> forall j :: 0 <= j < |chain| ==> chain[j].term != term
  {
    if chain == [] then None
    else if chain[0].term == term then Some(0)
    else match Find(chain[1..], term)
      case None => None
      case Some(i) => Some(i + 1)
  }

  function Truncated(term: seq<bv8>): seq<bv8> {
    if |term| <= MAX_TERM_LEN then term else term[..MAX_TERM_LEN]
  }

  /** A bucket after the insertion of a term that hashes to it. */
  function Inserted(chain: seq<LexEntry>, term: seq<bv8>): seq<LexEntry> {
    match Find(chain, term)
    case Some(i) => chain[i := chain[i].(frequency := chain[i].frequency + 1)]
    case None => [LexEntry(Truncated(term), TermHash(term), 1)] + chain
  }

  /** Bucket `b` after the insertions of `history`. */
  function Chain(history: seq<Term>, b: nat): seq<LexEntry> {
    if history == [] then []
    else
      var n := |history| - 1;
      if Bucket(history[n]) == b then Inserted(Chain(history[..n], b), history[n]) else Chain(history[..n], b)
  }

  function Total(history: seq<Term>): nat {
    if history == [] then 0
    else
      var n := |history| - 1;
      Total(history[..n]) + if Find(Chain(history[..n], Bucket(history[n])), history[n]).None? then 1 else 0
  }

  // ---------- What a dictionary holds ----------

  /** A term over 255 bytes that is stored as `term`, in the bucket of `term`. */
  predicate Alias(t: seq<bv8>, term: seq<bv8>) {
    |t| > MAX_TERM_LEN && Truncated(t) == term && Bucket(t) == Bucket(term)
  }

  /** The last insertion of an alias, counted from 1; 0 if there is none. */
  function LastAlias(history: seq<Term>, term: seq<bv8>): (k: nat)
    ensures k <= |history| && (k > 0 ==> Alias(history[k - 1], term))
  {
    if history == [] then 0
    else
      var n := |history| - 1;
      if Alias(history[n], term) then |history| else LastAlias(history[..n], term)
  }

  function Times(history: seq<Term>, term: Term): nat {
    multiset(history)[term]
  }

  /** What the dictionary knows of a term: its hash and the number of its insertions - unless an alias was inserted,
      which leaves its own hash and counts as one insertion, and hides everything before it. */
  function Known(history: seq<Term>, term: Term): Option<LexEntry> {
    if |term| > MAX_TERM_LEN then None
    else
      var k := LastAlias(history, term);
      var times := Times(history[k..], term);
      if k > 0 then Some(LexEntry(term, TermHash(history[k - 1]), times + 1))
      else if times > 0 then Some(LexEntry(term, TermHash(term), times))
      else None
  }

  function EntryOf(chain: seq<LexEntry>, term: seq<bv8>): Option<LexEntry> {
    match Find(chain, term)
    case None => None
    case Some(i) => Some(chain[i])
  }

  lemma {:induction false} SameFind(a: seq<LexEntry>, b: seq<LexEntry>, term: seq<bv8>)
    requires |a| == |b| && forall i :: 0 <= i < |a| ==> a[i].term == b[i].term
    ensures Find(a, term) == Find(b, term)
  {
    if a != [] {
      SameFind(a[1..], b[1..], term);
    }
  }

  lemma InsertedEntry(chain: seq<LexEntry>, t: seq<bv8>, term: seq<bv8>)
    ensures EntryOf(Inserted(chain, t), term) ==
      if EntryOf(chain, t).None? then
        if Truncated(t) == term then Some(LexEntry(term, TermHash(t), 1)) else EntryOf(chain, term)
      else if t == term then
        Some(EntryOf(chain, t).value.(frequency := EntryOf(chain, t).value.frequency + 1))
      else EntryOf(chain, term)
  {
    hide TermHash;
    match Find(chain, t)
    case Some(i) => SameFind(chain, Inserted(chain, t), term);
    case None => assert Inserted(chain, t)[1..] == chain;
  }

  /** Stored terms are cut at 255 bytes, so a longer term is never found, however often it was inserted. */
  lemma {:induction false} LongIsNeverFound(history: seq<Term>, b: nat, term: Term)
    requires |term| > MAX_TERM_LEN
    ensures Find(Chain(history, b), term).None?
  {
    hide TermHash, Bucket, Inserted;
    if history != [] {
      var n := |history| - 1;
      LongIsNeverFound(history[..n], b, term);
      InsertedEntry(Chain(history[..n], b), history[n], term);
    }
  }

  lemma TimesNext(history: seq<Term>, last: Term, term: Term, k: nat)
    requires k <= |history|
    ensures Times((history + [last])[k..], term) == Times(history[k..], term) + if last == term then 1 else 0
    ensures Times([], term) == 0
  {
    assert (history + [last])[k..] == history[k..] + [last];
  }

  lemma KnownNext(history: seq<Term>, last: Term, term: Term)
    requires |term| <= MAX_TERM_LEN
    ensures Known(history + [last], term) ==
      if Alias(last, term) then Some(LexEntry(term, TermHash(last), 1))
      else if last != term then Known(history, term)
      else match Known(history, term)
        case None => Some(LexEntry(term, TermHash(term), 1))
        case Some(e) => Some(e.(frequency := e.frequency + 1))
  {
    hide TermHash, Bucket, Truncated, Times;
    assert (history + [last])[..|history|] == history;
    TimesNext(history, last, term, LastAlias(history, term));
    assert (history + [last])[|history + [last]|..] == [];
  }

  /** A lookup returns exactly what the dictionary knows, after any insertions of terms of any length. */
  lemma {:induction false} LookupExactly(history: seq<Term>, term: Term)
    ensures EntryOf(Chain(history, Bucket(term)), term) == Known(history, term)
  {
    hide Inserted, Bucket, TermHash, Truncated, Known, Alias;
    if |term| > MAX_TERM_LEN {
      LongIsNeverFound(history, Bucket(term), term);
      LongIsUnknown(history, term);
    } else if history == [] {
      NothingKnown(term);
    } else {
      var n := |history| - 1;
      var before, last := history[..n], history[n];
      assert history == before + [last];
      LookupExactly(before, term);
      KnownNext(before, last, term);
      InBucket(last, term);
      if Bucket(last) == Bucket(term) {
        InsertedEntry(Chain(before, Bucket(term)), last, term);
        if |last| > MAX_TERM_LEN {
          LongIsNeverFound(before, Bucket(term), last);
        }
      }
    }
  }

  lemma LongIsUnknown(history: seq<Term>, term: Term)
    requires |term| > MAX_TERM_LEN
    ensures Known(history, term) == None
  {}

  lemma NothingKnown(term: Term)
    ensures Known([], term) == None
  {}

  lemma InBucket(t: Term, term: Term)
    ensures Alias(t, term) <==> |t| > MAX_TERM_LEN && Truncated(t) == term && Bucket(t) == Bucket(term)
    ensures |t| <= MAX_TERM_LEN ==> Truncated(t) == t
  {}

  /** An inserted term is found exactly if it has at most 255 bytes. */
  lemma InsertedIsFound(history: seq<Term>, term: Term)
    requires term in history
    ensures Known(history, term).Some? <==> |term| <= MAX_TERM_LEN
  {
    assert history[0..] == history;
  }

  /** A term of fewer than 255 bytes has no alias: it is found exactly if it was inserted, under its hash, with the
      number of its insertions, whatever else was inserted. */
  lemma {:induction false} NoAlias(history: seq<Term>, term: seq<bv8>)
    requires |term| < MAX_TERM_LEN || forall t :: t in history ==> |t| <= MAX_TERM_LEN
    ensures LastAlias(history, term) == 0
  {
    hide Bucket;
    if history != [] {
      NoAlias(history[..|history| - 1], term);
    }
  }

  lemma LookupCounts(history: seq<Term>, term: Term)
    requires LastAlias(history, term) == 0 && |term| <= MAX_TERM_LEN
    ensures Known(history, term) == if term in history then Some(LexEntry(term, TermHash(term), Times(history, term))) else None
  {
    hide TermHash;
    assert history[0..] == history;
  }

  // ---------- How many terms it counts ----------

  function Longs(history: seq<Term>): nat {
    if history == [] then 0
    else Longs(history[..|history| - 1]) + if |history[|history| - 1]| > MAX_TERM_LEN then 1 else 0
  }

  function FirstPlace(history: seq<Term>, term: Term): (k: nat)
    ensures k <= |history| && (k < |history| <==> term in history)
  {
    if history == [] then 0
    else
      var n := |history| - 1;
      if term in history[..n] then FirstPlace(history[..n], term) else if history[n] == term then n else |history|
  }

  /** A term of at most 255 bytes that no alias preceded. */
  predicate CountedAlone(history: seq<Term>, term: Term) {
    |term| <= MAX_TERM_LEN && LastAlias(history[..FirstPlace(history, term)], term) == 0
  }

  lemma CountedBefore(history: seq<Term>, last: Term, term: Term)
    ensures term in history ==> (CountedAlone(history + [last], term) <==> CountedAlone(history, term))
    ensures term == last && term !in history ==>
      (CountedAlone(history + [last], term) <==> |term| <= MAX_TERM_LEN && LastAlias(history, term) == 0)
  {
    hide Alias;
    var all := history + [last];
    assert all[..|history|] == history;
    if term in history {
      var k := FirstPlace(history, term);
      assert all[..k] == history[..k];
    }
  }

  /** Every insertion of a term over 255 bytes counts, and every other term counts once, unless an alias came first. */
  lemma {:induction false} TotalExactly(history: seq<Term>)
    ensures Total(history) == Longs(history) + |set t | t in history && CountedAlone(history, t)|
  {
    hide Chain, Bucket, CountedAlone, TermHash, Alias;
    if history != [] {
      var n := |history| - 1;
      var before, last := history[..n], history[n];
      assert history == before + [last];
      TotalExactly(before);
      LookupExactly(before, last);
      CountedBefore(before, last, last);
      var all, all' := set t | t in before && CountedAlone(before, t), set t | t in history && CountedAlone(history, t);
      forall t | t in before ensures CountedAlone(history, t) <==> CountedAlone(before, t) {
        CountedBefore(before, last, t);
      }
      KnownIffCounted(before, last);
      assert all' == if last !in before && CountedAlone(history, last) then all + {last} else all;
    }
  }

  lemma KnownIffCounted(history: seq<Term>, term: Term)
    ensures Known(history, term).None? <==> |term| > MAX_TERM_LEN || (term !in history && LastAlias(history, term) == 0)
    ensures EntryOf([], term).None?
  {
    hide TermHash, Alias;
    assert history[0..] == history;
  }

  /** Without terms over 255 bytes total_terms counts the distinct terms. */
  lemma TotalCounts(history: seq<Term>)
    requires forall t :: t in history ==> |t| <= MAX_TERM_LEN
    ensures Total(history) == |set t | t in history|
  {
    hide Alias;
    TotalExactly(history);
    NoLongs(history);
    forall t: Term | t in history ensures CountedAlone(history, t) {
      var part := history[..FirstPlace(history, t)];
      assert forall u :: u in part ==> u in history;
      NoAlias(part, t);
    }
    assert (set t | t in history && CountedAlone(history, t)) == (set t | t in history);
  }

  lemma {:induction false} NoLongs(history: seq<Term>)
    requires forall t :: t in history ==> |t| <= MAX_TERM_LEN
    ensures Longs(history) == 0
  {
    if history != [] {
      NoLongs(history[..|history| - 1]);
    }
  }

  // ---------- Concrete terms ----------

  const COSTARRING: seq<bv8> := [99, 111, 115, 116, 97, 114, 114, 105, 110, 103]
  const LIQUID: seq<bv8> := [108, 105, 113, 117, 105, 100]

  /** The published FNV-1a values of the empty word, of a and of foobar, and a word with hash 0, which becomes 1. */
  lemma PublishedHashes()
    ensures TermHash([]) == 0x811C_9DC5 && TermHash([97]) == 0xE40C_292C && TermHash([102, 111, 111, 98, 97, 114]) == 0xBF9C_F968
    ensures TermHash([0xCC, 0x24, 0x31, 0xC4]) == 1
  {}

  /** Ids need not tell terms apart: costarring and liquid have the same. */
  lemma SameId()
    ensures TermHash(COSTARRING) == TermHash(LIQUID) && COSTARRING != LIQUID
  {}

  function Zs(n: nat): (s: seq<bv8>)
    ensures |s| == n && forall i :: 0 <= i < n ==> s[i] == 122
  {
    if n == 0 then [] else [122] + Zs(n - 1)
  }

  predicate InBucket38985(hash: bv32) {
    hash & 0xFFFF == 38985
  }

  /** From this bucket one more z leads back to it. */
  lemma OneMoreZ(hash: bv32)
    requires InBucket38985(hash)
    ensures InBucket38985(Mix(hash, 122))
  {}

  lemma {:induction false} MoreZs(hash: bv32, n: nat)
    requires InBucket38985(hash)
    ensures InBucket38985(HashFrom(hash, Zs(n)))
    decreases n
  {
    hide InBucket38985, Mix;
    if n > 0 {
      OneMoreZ(hash);
      assert Zs(n)[1..] == Zs(n - 1);
      MoreZs(Mix(hash, 122), n - 1);
    }
  }

  /** The word that starts with gxi and goes on with z. */
  function Gxi(n: nat): Term {
    [103, 120, 105] + Zs(n)
  }

  lemma GxiBucket(n: nat)
    ensures Bucket(Gxi(n)) == 38985
  {
    hide HashFrom;
    GxiHash(n);
    MoreZs(1531942985, n);
  }

  lemma MixGxi()
    ensures Mix(Mix(Mix(FNV_OFFSET_BASIS, 103), 120), 105) == 1531942985
  {}

  lemma GxiHash(n: nat)
    ensures HashFrom(FNV_OFFSET_BASIS, Gxi(n)) == HashFrom(1531942985, Zs(n))
  {
    hide Mix;
    MixGxi();
    var z := Zs(n);
    var g := Mix(FNV_OFFSET_BASIS, 103);
    assert ([105] + z)[1..] == z;
    assert HashFrom(Mix(g, 120), [105] + z) == HashFrom(Mix(Mix(g, 120), 105), z);
    assert ([120, 105] + z)[1..] == [105] + z;
    assert HashFrom(g, [120, 105] + z) == HashFrom(Mix(g, 120), [105] + z);
    assert Gxi(n)[1..] == [120, 105] + z;
  }

  /** One insertion of a word of 256 bytes makes its first 255 bytes known, which were never inserted. */
  lemma AliasIsKnown()
    ensures |Gxi(253)| == 256 && |Gxi(252)| == 255 && Gxi(252) !in [Gxi(253)]
    ensures Known([Gxi(253)], Gxi(252)) == Some(LexEntry(Gxi(252), TermHash(Gxi(253)), 1))
  {
    hide TermHash, HashFrom, Bucket;
    GxiBucket(252);
    GxiBucket(253);
    assert Gxi(253)[..255] == Gxi(252);
    assert Alias(Gxi(253), Gxi(252));
    var history: seq<Term> := [Gxi(253)];
    assert history[1..] == [];
  }

  // ---------- The dictionary ----------

  class Dictionary {
    const buckets: array<seq<LexEntry>>
    var totalTerms: nat
    ghost var history: seq<Term>    // the terms of all insertions

    ghost predicate Valid()
      reads this, buckets
    {
      && buckets.Length == BUCKET_COUNT && totalTerms == Total(history)
      && forall b :: 0 <= b < BUCKET_COUNT ==> buckets[b] == Chain(history, b)
    }

    /** lexicon_init */
    constructor ()
      ensures Valid() && history == [] && fresh(buckets)
    {
      buckets := new seq<LexEntry>[BUCKET_COUNT](_ => []);
      totalTerms := 0;
      history := [];
    }

    static method FindEntry(chain: seq<LexEntry>, term: Term) returns (found: Option<nat>)
      ensures found == Find(chain, term)
    {
      for i := 0 to |chain|
        invariant forall j :: 0 <= j < i ==> chain[j].term != term
      {
        if chain[i].term == term {
          return Some(i);
        }
      }
      return None;
    }

    /** lexicon_insert: the id is that of the entry there is, or the hash of the term. */
    method Insert(term: Term) returns (id: bv32)
      requires Valid()
      modifies this, buckets
      ensures Valid() && history == old(history) + [term] && id != 0
      ensures id == match old(Known(history, term)) case None => TermHash(term) case Some(e) => e.id
      ensures |term| < 255 ==> id == TermHash(term)
    {
      ShortId(history, term);
      hide TermHash, Inserted, Total, Chain, Known;
      var hash := ComputeHash(term);
      var b := BucketOf(hash);
      NextInsertion(history, term);
      LookupExactly(history, term);
      KnownIds(history, term);
      history := history + [term];
      var chain := buckets[b];
      var found := FindEntry(chain, term);
      InsertedIs(chain, term);
      if found.Some? {
        var i := found.value;
        buckets[b] := chain[i := chain[i].(frequency := chain[i].frequency + 1)];
        return chain[i].id;
      }
      buckets[b] := [LexEntry(Truncated(term), hash, 1)] + chain;
      totalTerms := totalTerms + 1;
      return hash;
    }

    /** total_terms counts the distinct terms, as long as none is longer than 255 bytes. */
    lemma CountsTerms()
      requires Valid() && forall t :: t in history ==> |t| <= 255
      ensures totalTerms == |set t | t in history|
    {
      TotalCounts(history);
    }

    /** lexicon_lookup */
    method Lookup(term: Term) returns (found: Option<LexEntry>)
      requires Valid()
      ensures found == Known(history, term)
      ensures term in history ==> (found.Some? <==> |term| <= 255)
      ensures |term| < 255 ==>
        (found == if term in history then Some(LexEntry(term, TermHash(term), multiset(history)[term])) else None)
    {
      hide TermHash, Chain, Known, LastAlias;
      var hash := ComputeHash(term);
      var chain := buckets[BucketOf(hash)];
      var i := FindEntry(chain, term);
      LookupExactly(history, term);
      if term in history {
        InsertedIsFound(history, term);
      }
      if |term| < MAX_TERM_LEN {
        NoAlias(history, term);
        LookupCounts(history, term);
      }
      return if i.Some? then Some(chain[i.value]) else None;
    }
  }

  lemma ShortId(history: seq<Term>, term: Term)
    ensures |term| < 255 && Known(history, term).Some? ==> Known(history, term).value.id == TermHash(term)
  {
    hide TermHash, Known, LastAlias;
    if |term| < 255 {
      NoAlias(history, term);
      LookupCounts(history, term);
    }
  }

  lemma NextInsertion(history: seq<Term>, term: Term)
    ensures (history + [term])[..|history|] == history
    ensures forall b: nat :: Chain(history + [term], b) == if Bucket(term) == b then Inserted(Chain(history, b), term) else Chain(history, b)
    ensures Total(history + [term]) == Total(history) + if Find(Chain(history, Bucket(term)), term).None? then 1 else 0
  {
    assert (history + [term])[..|history|] == history;
  }

  lemma InsertedIs(chain: seq<LexEntry>, term: Term)
    ensures Inserted(chain, term) == match Find(chain, term)
      case Some(i) => chain[i := chain[i].(frequency := chain[i].frequency + 1)]
      case None => [LexEntry(Truncated(term), TermHash(term), 1)] + chain
  {}

  /** The id 0 is never given. */
  lemma KnownIds(history: seq<Term>, term: Term)
    ensures Known(history, term).Some? ==> Known(history, term).value.id != 0
  {
    hide HashFrom, LastAlias;
  }

  // ---------- The tokenizer ----------

  predicate IsAlnum(c: bv8) {
    48 <= c <= 57 || 65 <= c <= 90 || 97 <= c <= 122
  }

  function ToLower(c: bv8): bv8 {
    if 65 <= c <= 90 then c + 32 else c
  }

  function Normal(c: bv8): (n: bv8)
    ensures n != 0 <==> IsAlnum(c)
  {
    if IsAlnum(c) then ToLower(c) else 0
  }

  /** What becomes of a byte: a capital letter its small one, a small letter or digit itself, all else the end of a string. */
  predicate LowerOrNul(c: bv8, n: bv8) {
    if 'A' as int <= c as int <= 'Z' as int then n as int == c as int + 32
    else if 'a' as int <= c as int <= 'z' as int || '0' as int <= c as int <= '9' as int then n == c
    else n == 0
  }

  lemma NormalIs(c: bv8)
    ensures LowerOrNul(c, Normal(c)) && (Normal(c) != 0 <==> IsAlnum(c))
  {}

  function Normalized(s: seq<bv8>): (n: seq<bv8>)
    ensures |n| == |s| && forall i :: 0 <= i < |s| ==> n[i] == Normal(s[i])
  {
    seq(|s|, i requires 0 <= i < |s| => Normal(s[i]))
  }

  /** A run of letters and digits starts at `p`. */
  predicate RunStart(s: seq<bv8>, p: nat) {
    p < |s| && IsAlnum(s[p]) && (p == 0 || !IsAlnum(s[p - 1]))
  }

  /** Where the run at `p` ends. */
  function RunEnd(s: seq<bv8>, p: nat): (q: nat)
    requires p <= |s|
    ensures p <= q <= |s| && (forall k :: p <= k < q ==> IsAlnum(s[k])) && (q < |s| ==> !IsAlnum(s[q]))
    decreases |s| - p
  {
    if p < |s| && IsAlnum(s[p]) then RunEnd(s, p + 1) else p
  }

  function Starts(s: seq<bv8>): seq<nat> {
    if s == [] then []
    else
      var n := |s| - 1;
      Starts(s[..n]) + if RunStart(s, n) then [n] else []
  }

  /** The starts are exactly the positions where runs start, in order. */
  lemma {:induction false} StartsExactly(s: seq<bv8>)
    ensures forall p: nat :: p in Starts(s) <==> RunStart(s, p)
    ensures forall i, j :: 0 <= i < j < |Starts(s)| ==> Starts(s)[i] < Starts(s)[j]
  {
    hide IsAlnum;
    if s != [] {
      var n := |s| - 1;
      StartsExactly(s[..n]);
      var before := Starts(s[..n]);
      assert forall i :: 0 <= i < |before| ==> before[i] in before;
    }
  }

  /** The C string at `p`. */
  function CString(buf: seq<bv8>, p: nat): seq<bv8>
    decreases |buf| - p
  {
    if p < |buf| && buf[p] != 0 then [buf[p]] + CString(buf, p + 1) else []
  }

  /** A token is a maximal run, in lower case. */
  lemma {:induction false} TokenIsRun(s: seq<bv8>, p: nat)
    requires p <= |s|
    ensures CString(Normalized(s) + [0], p) == Normalized(s[p..RunEnd(s, p)])
    decreases |s| - p
  {
    hide Normal, IsAlnum;
    var buf := Normalized(s) + [0];
    if p < |s| && IsAlnum(s[p]) {
      TokenIsRun(s, p + 1);
      var run := s[p + 1..RunEnd(s, p)];
      assert buf[p] == Normal(s[p]);
      assert s[p..RunEnd(s, p)] == [s[p]] + run;
      NormalizedNext(s[p], run);
    }
  }

  lemma NormalizedNext(c: bv8, s: seq<bv8>)
    ensures Normalized([c] + s) == [Normal(c)] + Normalized(s)
  {
    hide Normal;
  }

  lemma {:induction false} StartsPrefix(s: seq<bv8>, i: nat)
    requires i <= |s|
    ensures Starts(s[..i]) <= Starts(s)
    decreases |s| - i
  {
    hide RunStart;
    if i == |s| {
      assert s[..i] == s;
    } else {
      StartsPrefix(s, i + 1);
      assert s[..i + 1][..i] == s[..i];
    }
  }

  lemma StartsNext(s: seq<bv8>, i: nat)
    requires i < |s|
    ensures Starts(s[..i + 1]) == Starts(s[..i]) + if RunStart(s, i) then [i] else []
  {
    hide IsAlnum;
    assert s[..i + 1][..i] == s[..i];
    assert RunStart(s[..i + 1], i) == RunStart(s, i);
  }

  function Copied(text: Term, size: nat): seq<bv8>
    requires size > 0
  {
    if |text| < size - 1 then text else text[..size - 1]
  }

  method Normalize(s: seq<bv8>, buf: array<bv8>)
    requires |s| < buf.Length
    modifies buf
    ensures buf[..|s| + 1] == Normalized(s) + [0]
    ensures forall i :: 0 <= i < |s| ==> LowerOrNul(s[i], buf[i])
    ensures buf[|s| + 1..] == old(buf[|s| + 1..])
  {
    hide Normal;
    for i := 0 to |s|
      invariant forall k :: 0 <= k < i ==> buf[k] == Normal(s[k]) && LowerOrNul(s[k], buf[k])
      invariant forall k :: i <= k < buf.Length ==> buf[k] == old(buf[k])
    {
      NormalIs(s[i]);
      buf[i] := Normal(s[i]);
    }
    buf[|s|] := 0;
  }

  /** lexicon_tokenize: the tokens, as offsets into the buffer, are the first `max` runs of what fits the buffer. */
  method Tokenize(text: Term, buf: array<bv8>, max: int) returns (tokens: seq<nat>)
    modifies buf
    ensures buf.Length == 0 || max <= 0 ==> tokens == [] && buf[..] == old(buf[..])
    ensures buf.Length > 0 && max > 0 ==>
      tokens == Take(Starts(Copied(text, buf.Length)), max)
    ensures buf.Length > 0 && max > 0 ==>
      var s := Copied(text, buf.Length);
      && s == (if |text| < buf.Length then text else text[..buf.Length - 1])
      && buf[..|s| + 1] == Normalized(s) + [0]
      && forall k :: 0 <= k < |tokens| ==> tokens[k] < |s| && CString(buf[..|s| + 1], tokens[k]) == Normalized(s[tokens[k]..RunEnd(s, tokens[k])])
    ensures buf.Length > 0 && max > 0 ==>
      var n := if |text| < buf.Length then |text| else buf.Length - 1;
      && (forall i :: 0 <= i < n ==> LowerOrNul(text[i], buf[i])) && buf[n] == 0
      && FirstStarts(buf[..n], tokens, max)
  {
    hide Normal, IsAlnum, RunStart, Starts, RunEnd, CString, LowerOrNul, FirstStarts;
    tokens := [];
    if buf.Length == 0 || max <= 0 {
      return;
    }
    var s := Copied(text, buf.Length);
    Normalize(s, buf);
    tokens := FindTokens(s, buf, max);
    TokensAreStarts(s, max);
    assert buf[..|s|] == buf[..|s| + 1][..|s|] == Normalized(s);
    forall k | 0 <= k < |tokens| ensures tokens[k] < |s| && CString(buf[..|s| + 1], tokens[k]) == Normalized(s[tokens[k]..RunEnd(s, tokens[k])]) {
      StartsInRange(s, k);
      TokenIsRun(s, tokens[k]);
    }
  }

  /** `tokens` are the places where a byte that is not 0 follows a 0 or nothing, in order, up to `max` of them. */
  ghost predicate FirstStarts(s: seq<bv8>, tokens: seq<nat>, max: nat) {
    && |tokens| <= max && (forall j, k :: 0 <= j < k < |tokens| ==> tokens[j] < tokens[k])
    && (forall k :: 0 <= k < |tokens| ==> StartsAt(s, tokens[k]))
    && (forall p: nat :: StartsAt(s, p) && p !in tokens ==> |tokens| == max && forall k :: 0 <= k < max ==> tokens[k] < p)
  }

  predicate StartsAt(s: seq<bv8>, p: nat) {
    p < |s| && s[p] != 0 && (p == 0 || s[p - 1] == 0)
  }

  lemma TokensAreStarts(s: seq<bv8>, max: nat)
    ensures FirstStarts(Normalized(s), Take(Starts(s), max), max)
  {
    hide Starts, IsAlnum, Normal;
    var tokens, all := Take(Starts(s), max), Starts(s);
    StartsExactly(s);
    forall p: nat ensures StartsAt(Normalized(s), p) <==> p in all {
      StartNormal(s, p);
    }
    forall k | 0 <= k < |tokens| ensures tokens[k] in all {
      assert tokens[k] == all[k];
    }
    forall p: nat | p in all && p !in tokens ensures |tokens| == max && forall k :: 0 <= k < max ==> tokens[k] < p {
      var i :| 0 <= i < |all| && all[i] == p;
      assert i < |tokens| ==> tokens[i] == p;
    }
  }

  lemma StartNormal(s: seq<bv8>, p: nat)
    ensures StartsAt(Normalized(s), p) <==> RunStart(s, p)
  {
    hide IsAlnum, Normal;
  }

  lemma StartsInRange(s: seq<bv8>, k: nat)
    requires k < |Starts(s)|
    ensures Starts(s)[k] < |s|
  {
    StartsExactly(s);
    assert Starts(s)[k] in Starts(s);
  }

  method FindTokens(s: seq<bv8>, buf: array<bv8>, max: nat) returns (tokens: seq<nat>)
    requires |s| < buf.Length && buf[..|s| + 1] == Normalized(s) + [0] && max > 0
    ensures tokens == Take(Starts(s), max)
  {
    hide Normal, IsAlnum, Starts;
    tokens := [];
    var inToken := false;
    NoStarts();
    assert s[..0] == [];
    for i := 0 to |s| + 1
      invariant i <= |s| ==> tokens == Starts(s[..i]) && |tokens| <= max && (inToken <==> i > 0 && IsAlnum(s[i - 1]))
      invariant i == |s| + 1 ==> tokens == Take(Starts(s), max)
    {
      assert buf[i] == (Normalized(s) + [0])[i];
      if i < |s| {
        StartsNext(s, i);
      } else {
        assert s[..i] == s;
      }
      if buf[i] != 0 {
        if !inToken {
          if |tokens| >= max {
            StartsPrefix(s, i + 1);
            return;
          }
          tokens := tokens + [i];
          inToken := true;
        }
      } else {
        inToken := false;
      }
    }
  }

  lemma NoStarts()
    ensures Starts([]) == []
  {}
}
