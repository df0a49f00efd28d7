/** Scan resistance of the buffer pool: the eviction hint of a sequential scan. */
module ScanRun {
  import opened Sequences
  import opened Bytes
  import opened Pages
  import opened PoolState
  import opened BufferPool

  /** The page table of a run in progress: `before`, less one victim, plus the page the run read last. */
  ghost predicate OneDisplaced(before: map<int, int>, now: map<int, int>, victim: int, frame: int, page: int) {
    && page in now && now[page] == frame
    && (forall q :: q in before && q != victim ==> q in now && now[q] == before[q] && q != page)
    && (forall q :: q in now && q != page ==> q in before)
  }

  lemma Displaced(before: map<int, int>, now: map<int, int>, next: map<int, int>, started: bool, victim: int,
                  f: int, page: int, p: int, old': int)
    requires if started then OneDisplaced(before, now, victim, f, page) && old' == page else now == before
    requires next == (now - {old'})[p := f] && p !in now && p !in before
    ensures OneDisplaced(before, next, if started then victim else old', f, p)
  {}

  /** After a first success the page read last is the next victim, so its frame serves again. */
  ghost predicate Running(before: map<int, int>, s: State, hand: int, started: bool, victim: int, page: int) {
    if started then OneDisplaced(before, s.slotOf, victim, hand, page) && s.pins[page] == 0 else s.slotOf == before
  }

  lemma RunStep(before: map<int, int>, s: State, t: State, hand: int, started: bool, victim: int, page: int, p: u32, f: int)
    requires s.Inv() && Running(before, s, hand, started, victim, page)
    requires (p as int) !in s.slotOf && (p as int) !in before && FetchStep(s, t, p, f)
    requires 0 <= hand < |s.frames| && s.frames[hand].Replaceable() ==> f == hand
    ensures f >= 0 ==> f < |s.frames| && OneDisplaced(before, t.slotOf, if started then victim else s.frames[f].pageId, f, p)
    ensures f >= 0 ==> t.pins[p as int] == 1
    ensures f < 0 ==> !started && t.slotOf == before && t.pins == s.pins
  {
    if started {
      ResidentFacts(s, page);
      assert s.frames[hand].Replaceable() && s.frames[hand].pageId as int == page;
    }
    MissFacts(s, t, p, f);
    hide State.Inv, FetchStep;
    if f >= 0 {
      Displaced(before, s.slotOf, t.slotOf, started, victim, f, page, p, s.frames[f].pageId);
    }
  }

  /** One page of the run: fetch, then unpin with the hint. */
  method ReadOne(pool: Pool, p: u32, ghost before: map<int, int>, ghost started: bool, ghost victim: int, ghost page: int)
    returns (f: int, ghost victim': int)
    requires pool.Valid() && pool.state.touched == {} && p != INVALID && (p as int) !in pool.state.slotOf && (p as int) !in before
    requires Running(before, pool.state, pool.hand, started, victim, page)
    modifies pool, pool.frames, pool.wal
    ensures pool.Valid() && pool.state.touched == {} && pool.state.view == old(pool.state).view && pool.state.pins == old(pool.state).pins
    ensures Running(before, pool.state, pool.hand, started || f >= 0, victim', if f >= 0 then p else page)
    ensures started ==> f >= 0 && victim' == victim
  {
    hide State.Inv, Pool.Valid, Running, OneDisplaced;
    ghost var s, hand := pool.state, pool.hand;
    pool.Facts();
    f := pool.Fetch(p);
    ghost var t := pool.state;
    RunStep(before, s, t, hand, started, victim, page, p, f);
    hide FetchStep, Kept;
    if f >= 0 {
      victim' := if started then victim else s.frames[f].pageId;
      pool.Unpin(p, false, SequentialScan);
      assert pool.hand == f;
    } else {
      victim' := victim;
    }
    RunDone(before, pool.state, pool.hand, started, victim', page, p, f);
  }

  lemma RunDone(before: map<int, int>, t: State, hand: int, started: bool, victim: int, page: int, p: u32, f: int)
    requires if f >= 0 then OneDisplaced(before, t.slotOf, victim, hand, p) && t.pins[p as int] == 0 else !started && t.slotOf == before
    ensures Running(before, t, hand, started || f >= 0, victim, if f >= 0 then p else page)
  {}

  /** Reading any number of distinct pages that are not resident displaces at most one page that was. */
  method SequentialRun(pool: Pool, pages: seq<u32>) returns (ghost victim: int)
    requires pool.Valid() && pool.state.touched == {} && NoRepeats(pages)
    requires forall k :: 0 <= k < |pages| ==> pages[k] != INVALID && (pages[k] as int) !in pool.state.slotOf
    modifies pool, pool.frames, pool.wal
    ensures pool.Valid() && pool.state.view == old(pool.state).view && pool.state.pins == old(pool.state).pins
    ensures forall q :: q in old(pool.state).slotOf && q != victim ==>
      q in pool.state.slotOf && pool.state.slotOf[q] == old(pool.state).slotOf[q]
  {
    hide State.Inv, Pool.Valid;
    ghost var before := pool.state.slotOf;
    ghost var started := false;
    ghost var page: int := -1;
    victim := -1;
    for k := 0 to |pages|
      invariant pool.Valid() && pool.state.touched == {}
      invariant pool.state.view == old(pool.state).view && pool.state.pins == old(pool.state).pins
      invariant Running(before, pool.state, pool.hand, started, victim, page)
      invariant started ==> k > 0 && page == pages[k - 1]
    {
      var f;
      f, victim := ReadOne(pool, pages[k], before, started, victim, page);
      if f >= 0 {
        started := true;
        page := pages[k];
      }
    }
  }
}
