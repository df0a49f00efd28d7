/** The clock buffer pool of src/buffer_pool.c over a file of pages and a write-ahead log. */
module BufferPool {
  import opened Bytes
  import opened Pages
  import opened PoolState
  import Wal

  datatype Hint = Normal | SequentialScan

  class Pool {
    const frames: array<Frame>
    const wal: Wal.WalManager
    var hand: nat
    var disk: seq<Page>

    ghost var state: State     // frames, file and log as one value, with the logical view of every page
    ghost var fetches: nat     // calls of Fetch so far
    ghost var peak: nat        // the most pins held at any moment so far

    ghost predicate Valid()
      reads this, frames, wal
    {
      && frames.Length > 0 && hand < frames.Length && wal.Valid()
      && state.frames == frames[..] && state.disk == disk && state.log == wal.records && state.durable == wal.durableRecords
      && state.Inv() && peak >= |state.pins|
    }

    constructor (wal: Wal.WalManager, file: seq<Page>, poolSize: nat)
      requires wal.Valid() && poolSize > 0 && |file| <= INVALID
      requires forall p :: 0 <= p < |file| ==> Justified(p, file[p], wal.records[..wal.durableRecords])
      ensures Valid() && fresh(frames) && frames.Length == |state.frames| == poolSize && this.wal == wal
      ensures state.disk == file && state.pins == multiset{} && state.touched == {} && state.slotOf == map[]
      ensures state.log == wal.records && peak == 0 && fetches == 0
      ensures forall p: int :: p in state.view && state.view[p] == OnDisk(file, p)
    {
      hide Justified, OnDisk, Wal.Numbered, Wal.LogBytes, Wal.FileBytes;
      frames := new Frame[poolSize](_ => Frame(INVALID, 0, false, Blank));
      this.wal := wal;
      hand := 0;
      disk := file;
      fetches, peak := 0, 0;
      new;
      state := State(frames[..], file, imap p: int :: OnDisk(file, p), map[], multiset{}, {}, wal.records, wal.durableRecords);
    }

    lemma Facts()
      requires Valid()
      ensures state.Inv() && |state.frames| == frames.Length && peak >= |state.pins|
    {}

    /** The scan for page `p` that fetch, flush and unpin begin with. */
    method FindResident(p: u32) returns (i: int)
      requires Valid() && p != INVALID
      ensures i < 0 <==> (p as int) !in state.slotOf
      ensures i >= 0 ==> i < frames.Length && frames[i].pageId == p && state.slotOf[p as int] == i
    {
      hide State.Coherent, State.Logged, Wal.WalManager.Valid;
      i := 0;
      while i < frames.Length
        invariant 0 <= i <= frames.Length
        invariant forall k :: 0 <= k < i ==> frames[k].pageId != p
      {
        if frames[i].pageId == p {
          return;
        }
        i := i + 1;
      }
      i := -1;
    }

    /** Writes the dirty page of frame `i` to the file, the log first. */
    method WriteBack(i: nat)
      requires Valid() && i < frames.Length && frames[i].dirty && (frames[i].pageId as int) !in state.touched
      modifies this, frames, wal
      ensures Valid() && 0 <= old(state).frames[i].pageId < |old(state).disk| && state == old(state).WrittenBack(i)
      ensures hand == old(hand) && fetches == old(fetches) && peak == old(peak) && wal.currentLsn == old(wal.currentLsn)
    {
      hide State.Inv, Wal.WalManager.Valid;
      WrittenBackInv(state, i);
      wal.Flush();
      disk := disk[frames[i].pageId as int := frames[i].page];
      frames[i] := frames[i].(dirty := false);
      state := state.WrittenBack(i);
    }

    /** buffer_pool_flush_page */
    method FlushPage(p: u32) returns (result: int)
      requires Valid() && (p as int) !in state.touched
      modifies this, frames, wal
      ensures Valid() && result == if (p as int) in state.slotOf then 0 else -1
      ensures state == Flushed(old(state), p)
      ensures result != 0 ==> frames[..] == old(frames[..]) && disk == old(disk) && forall i :: 0 <= i < frames.Length ==>
        frames[i].pageId == 4294967295 || frames[i].pageId != p
      ensures result == 0 ==> exists f: int :: FlushedFrames(old(frames[..]), frames[..], old(disk), disk, p, f)
      ensures hand == old(hand) && fetches == old(fetches) && peak == old(peak) && wal.currentLsn == old(wal.currentLsn)
    {
      hide State.Inv, Wal.WalManager.Valid, FlushedFrames;
      if p == INVALID {
        NeverResident(state);
        return -1;
      }
      FlushFrames(state, p);
      var i := FindResident(p);
      if i < 0 {
        return -1;
      }
      if frames[i].dirty {
        WriteBack(i);
      }
      return 0;
    }

    /** Frame `i` comes before frame `f` on the way of the hand from `start`. */
    static predicate OnTheWay(start: nat, i: nat, f: nat) {
      if start <= f then start <= i < f else start <= i || i < f
    }

    /** The clock: advances the hand to the first replaceable frame and past it, in at most two rounds. */
    method ClockScan() returns (f: int)
      requires frames.Length > 0 && hand < frames.Length
      modifies `hand
      ensures hand < frames.Length
      ensures f < 0 <==> forall i :: 0 <= i < frames.Length ==> !frames[i].Replaceable()
      ensures f >= 0 ==> f < frames.Length && frames[f].Replaceable() && hand == if f + 1 == frames.Length then 0 else f + 1
      ensures f >= 0 ==> forall i :: 0 <= i < frames.Length && OnTheWay(old(hand), i, f) ==> !frames[i].Replaceable()
      ensures f < 0 ==> hand == old(hand)
      ensures frames[old(hand)].Replaceable() ==> f == old(hand)
    {
      var n := frames.Length;
      ghost var start := hand;
      for attempts := 0 to n * 2
        invariant hand < n
        invariant attempts < n - start ==> hand == start + attempts && forall i :: start <= i < hand ==> !frames[i].Replaceable()
        invariant n - start <= attempts ==> forall i :: start <= i < n ==> !frames[i].Replaceable()
        invariant n - start <= attempts < 2 * n - start ==> hand == attempts - (n - start) && forall i :: 0 <= i < hand ==> !frames[i].Replaceable()
        invariant 2 * n - start <= attempts ==> hand == attempts - (2 * n - start) && forall i :: 0 <= i < n ==> !frames[i].Replaceable()
      {
        var current := hand;
        NextHand(hand, n);
        hand := (hand + 1) % n;
        if frames[current].pageId == INVALID || frames[current].pin == 0 {
          return current;
        }
      }
      return -1;
    }

    lemma NextHand(h: nat, n: nat)
      requires h < n
      ensures (h + 1) % n == if h + 1 == n then 0 else h + 1
    {}

    /** The first replaceable frame on the way of the hand is taken, and the hand stands behind it; without one it is back where it was. */
    static ghost predicate HandMoved(s: State, start: nat, now: nat, f: int) {
      if f < 0 then now == start
      else
        && f < |s.frames| && now == (if f + 1 == |s.frames| then 0 else f + 1)
        && forall i :: 0 <= i < |s.frames| && OnTheWay(start, i, f) ==> !s.frames[i].Replaceable()
    }

    /** find_victim_frame: fails exactly when every frame is occupied and pinned; the frame it finds is clean. */
    method FindVictim() returns (f: int)
      requires Valid() && forall q :: q in state.touched ==> state.pins[q] > 0
      modifies this, frames, wal
      ensures Valid() && (f < 0 <==> old(state).AllPinned())
      ensures f >= 0 ==> f < |old(state).frames| && old(state).frames[f].Replaceable()
      ensures state == if f >= 0 then Evicted(old(state), f) else old(state)
      ensures old(hand) < |old(state).frames| && old(state).frames[old(hand)].Replaceable() ==> f == old(hand)
      ensures HandMoved(old(state), old(hand), hand, f)
      ensures fetches == old(fetches) && peak == old(peak) && wal.currentLsn == old(wal.currentLsn)
    {
      hide State.Inv, Wal.WalManager.Valid;
      EmptyIsClean(state);
      f := ClockScan();
      if f >= 0 && frames[f].pageId != INVALID && frames[f].dirty {
        EvictedIsNotTouched(state, f);
        var _ := FlushPage(frames[f].pageId);
      }
    }

    method Repin(i: nat, n: nat)
      requires Valid() && i < frames.Length && !frames[i].Empty()
      modifies this, frames
      ensures Valid() && state == old(state).Repinned(i, n)
      ensures hand == old(hand) && fetches == old(fetches)
      ensures peak == if |state.pins| > old(peak) then |state.pins| else old(peak)
    {
      hide State.Inv, Wal.WalManager.Valid;
      RepinnedInv(state, i, n);
      frames[i] := frames[i].(pin := n);
      state := state.Repinned(i, n);
      peak := if |state.pins| > peak then |state.pins| else peak;
    }

    /** The replaceable, clean frame `i` takes page `p` from the file. */
    method Install(i: nat, p: u32)
      requires Valid() && i < frames.Length && frames[i].Replaceable() && !frames[i].dirty
      requires p != INVALID && (p as int) !in state.slotOf && (frames[i].pageId as int) !in state.touched
      modifies this, frames
      ensures Valid() && state == old(state).Installed(i, p)
      ensures hand == old(hand) && fetches == old(fetches)
      ensures peak == if |state.pins| > old(peak) then |state.pins| else old(peak)
    {
      hide State.Inv, OnDisk, Wal.WalManager.Valid;
      InstalledInv(state, i, p);
      frames[i] := Frame(p, 1, false, OnDisk(disk, p));
      state := state.Installed(i, p);
      peak := if |state.pins| > peak then |state.pins| else peak;
    }

    /** The miss branch of fetch: a victim's frame takes the page. */
    method FetchFromFile(p: u32) returns (f: int)
      requires Valid() && p != INVALID && (p as int) !in state.slotOf
      requires forall q :: q in state.touched ==> state.pins[q] > 0
      modifies this, frames, wal
      ensures Valid() && FetchStep(old(state), state, p, f)
      ensures old(hand) < |old(state).frames| && old(state).frames[old(hand)].Replaceable() ==> f == old(hand)
      ensures HandMoved(old(state), old(hand), hand, f)
      ensures fetches == old(fetches) && wal.currentLsn == old(wal.currentLsn)
      ensures peak == if |state.pins| > old(peak) then |state.pins| else old(peak)
    {
      hide State.Inv, Wal.WalManager.Valid, Evicted;
      ghost var s := state;
      f := FindVictim();
      if f >= 0 {
        EvictedFacts(s, f);
        Install(f, p);
      }
    }

    /** buffer_pool_fetch_page */
    method Fetch(p: u32) returns (f: int)
      requires Valid() && p != INVALID
      requires forall q :: q in state.touched ==> q == p || state.pins[q] > 0
      modifies this, frames, wal
      ensures Valid() && FetchStep(old(state), state, p, f) && Fetched(old(state), state, p, f)
      ensures FetchedFrames(old(frames[..]), frames[..], old(disk), disk, p, f)
      ensures if (p as int) in old(state).slotOf then hand == old(hand) else HandMoved(old(state), old(hand), hand, f)
      ensures (p as int) !in old(state).slotOf && old(hand) < |old(state).frames| && old(state).frames[old(hand)].Replaceable() ==> f == old(hand)
      ensures fetches == old(fetches) + 1 && wal.currentLsn == old(wal.currentLsn)
      ensures peak == if |state.pins| > old(peak) then |state.pins| else old(peak)
    {
      hide State.Inv, Wal.WalManager.Valid, Fetched, FetchedFrames;
      ghost var s := state;
      fetches := fetches + 1;
      f := FindResident(p);
      if f >= 0 {
        Repin(f, frames[f].pin + 1);
      } else {
        NotResident(state, p);
        f := FetchFromFile(p);
      }
      FetchFacts(s, state, p, f);
      FetchFrames(s, state, p, f);
    }

    method SetDirty(i: nat)
      requires Valid() && i < frames.Length && !frames[i].Empty() && frames[i].pageId < |disk|
      requires (frames[i].pageId as int) in state.touched ==> Justified(frames[i].pageId, frames[i].page, state.log)
      modifies this, frames
      ensures Valid() && state == old(state).MarkedDirty(i)
      ensures hand == old(hand) && fetches == old(fetches) && peak == old(peak)
    {
      hide State.Inv, Wal.WalManager.Valid;
      MarkedDirtyInv(state, i);
      frames[i] := frames[i].(dirty := true);
      state := state.MarkedDirty(i);
    }

    method UnpinFrame(i: nat, isDirty: bool)
      requires Valid() && i < frames.Length && !frames[i].Empty()
      requires isDirty ==> frames[i].pageId < |disk|
      requires isDirty && (frames[i].pageId as int) in state.touched ==> Justified(frames[i].pageId, frames[i].page, state.log)
      modifies this, frames
      ensures Valid() && state == UnpinnedAt(old(state), i, isDirty)
      ensures hand == old(hand) && fetches == old(fetches) && peak == old(peak)
    {
      hide State.Inv, Wal.WalManager.Valid, Justified;
      if frames[i].pin > 0 {
        FewerPins(state, i);
        Repin(i, frames[i].pin - 1);
      }
      if isDirty {
        SetDirty(i);
      }
    }

    /** buffer_pool_unpin_page: a page the caller changed must be unpinned as dirty, once the log justifies it. */
    method Unpin(p: u32, isDirty: bool, hint: Hint)
      requires Valid() && p != INVALID
      requires isDirty && (p as int) in state.slotOf ==> p < |state.disk|
      requires isDirty && (p as int) in state.touched ==> Justified(p, state.view[p as int], state.log)
      modifies this, frames
      ensures Valid() && Unpinned(old(state), state, p, isDirty)
      ensures UnpinnedFrames(old(frames[..]), frames[..], p, isDirty) && disk == old(disk)
      ensures hand == if (p as int) in state.slotOf && state.pins[p as int] == 0 && hint.SequentialScan? then state.slotOf[p as int] else old(hand)
      ensures fetches == old(fetches) && peak == old(peak)
    {
      hide State.Inv, Wal.WalManager.Valid, Justified, UnpinnedAt, UnpinnedFrames;
      ghost var s := state;
      var i := FindResident(p);
      UnpinFacts(s, p, isDirty);
      TableOf(s);
      UnpinFrames(s, p, isDirty);
      if i < 0 {
        return;
      }
      ResidentFacts(s, p);
      UnpinFrame(i, isDirty);
      ResidentFacts(state, p);
      if frames[i].pin == 0 && hint.SequentialScan? {
        hand := i;
      }
    }

    /** The page in a pinned frame. */
    function PageAt(f: int, ghost p: int): (page: Page)
      requires Valid() && state.Holds(f, p)
      reads this, frames, wal
      ensures page == state.view[p]
    {
      ResidentFacts(state, p);
      frames[f].page
    }

    /** Fetch, read, unpin. */
    method Read(p: u32, hint: Hint) returns (page: Page)
      requires Valid() && p != INVALID && |state.pins| < |state.frames| && state.touched == {}
      modifies this, frames, wal
      ensures Valid() && Seen(old(state), state) && page == state.view[p as int]
      ensures fetches == old(fetches) + 1 && wal.currentLsn == old(wal.currentLsn)
      ensures peak == if |old(state).pins| + 1 > old(peak) then |old(state).pins| + 1 else old(peak)
    {
      hide State.Inv, Valid, FetchStep;
      ghost var s := state;
      var f := Fetch(p);
      page := PageAt(f, p);
      ghost var t := state;
      Unpin(p, false, hint);
      SeenFacts(s, t, state, p, f);
    }

    /** A store into a pinned frame. */
    method Modify(f: int, ghost p: u32, page: Page)
      requires Valid() && state.Holds(f, p) && p < |state.disk|
      modifies this, frames
      ensures Valid() && Stored(old(state), state, p, page)
      ensures hand == old(hand) && fetches == old(fetches) && peak == old(peak)
    {
      hide State.Inv, Wal.WalManager.Valid;
      ResidentFacts(state, p);
      ModifiedInv(state, f, page);
      frames[f] := frames[f].(page := page);
      state := state.Modified(f, page);
    }

    /** An allocator's write of zeros straight to the file, at its end. */
    method WriteZeros(p: u32)
      requires Valid() && p == |state.disk| < INVALID
      modifies this
      ensures Valid() && state == old(state).Zeroed(p)
      ensures hand == old(hand) && fetches == old(fetches) && peak == old(peak)
    {
      hide State.Inv, Wal.WalManager.Valid;
      if (p as int) in state.slotOf {
        ResidentFacts(state, p);
      }
      ZeroedInv(state, p);
      state := state.Zeroed(p);
      disk := disk + [Blank];
    }

    /** How the allocators make a page: zeros at the end of the file, then a fetch that fills the frame. */
    method NewPage(p: u32, page: Page)
      requires Valid() && state.touched == {} && |state.pins| < |state.frames|
      requires p == |state.disk| < INVALID && Justified(p, page, state.log)
      modifies this, frames, wal
      ensures Valid() && state.view == old(state).view[p as int := page] && |state.disk| == p + 1
      ensures state.touched == {} && state.pins == old(state).pins && state.log == old(state).log && |state.frames| == |old(state).frames|
      ensures Kept(old(state).slotOf, old(state).pins, state.slotOf, state.pins)
      ensures fetches == old(fetches) + 1 && wal.currentLsn == old(wal.currentLsn)
      ensures peak == if |old(state).pins| + 1 > old(peak) then |old(state).pins| + 1 else old(peak)
    {
      hide State.Inv, Valid, FetchStep, Justified;
      ghost var s := state;
      WriteZeros(p);
      var f := Fetch(p);
      Modify(f, p, page);
      Unpin(p, true, Normal);
      NewPageFacts(s, state, p, page);
    }

    /** wal_append_record on the pool's log. */
    method Log(request: Wal.Request) returns (lsn: u64)
      requires Valid() && wal.currentLsn + 1 < 0x1_0000_0000_0000_0000
      modifies this, wal
      ensures Valid() && lsn == wal.currentLsn == old(wal.currentLsn) + 1
      ensures state == old(state).(log := old(state).log + [Wal.Record(lsn, request)])
      ensures hand == old(hand) && fetches == old(fetches) && peak == old(peak)
    {
      hide State.Inv, Wal.WalManager.Valid;
      ghost var log := state.log + [Wal.Record(wal.currentLsn + 1, request)];
      AppendedInv(state, log);
      lsn := wal.Append(request);
      state := state.(log := log);
    }

    method WriteOut(i: nat)
      requires Valid() && i < frames.Length && frames[i].dirty && state.touched == {} && state.durable == |state.log|
      modifies this
      ensures Valid() && frames[i].pageId < |old(state).disk| && state == old(state).WrittenOut(i)
    {
      hide State.Inv, Wal.WalManager.Valid;
      WrittenOutInv(state, i);
      disk := disk[frames[i].pageId as int := frames[i].page];
      state := state.WrittenOut(i);
    }

    /** A completed write marks its frame clean. */
    method Clean(i: nat)
      requires Valid() && i < frames.Length && !frames[i].Empty() && state.touched == {}
      requires OnDisk(disk, frames[i].pageId) == frames[i].page
      modifies this, frames
      ensures Valid() && state == old(state).Cleaned(i)
    {
      hide State.Inv, Wal.WalManager.Valid, OnDisk;
      CleanedInv(state, i);
      frames[i] := frames[i].(dirty := false);
      state := state.Cleaned(i);
    }

    method CompleteBatch(batch: seq<nat>, ghost n: nat)
      requires Valid() && state.touched == {} && InFile(state, batch) && n <= |state.frames| && WaitingBelow(state, n, batch)
      modifies this, frames
      ensures Valid() && WaitingBelow(state, n, []) && state == old(state).(frames := state.frames) && |state.frames| == |old(state).frames|
    {
      hide State.Inv, Wal.WalManager.Valid, OnDisk;
      for c := 0 to |batch|
        invariant Valid() && InFile(state, batch) && state == old(state).(frames := state.frames) && |state.frames| == |old(state).frames|
        invariant WaitingBelow(state, n, batch[c..])
      {
        Clean(batch[c]);
      }
    }

    method FlushLogIfDirty()
      requires Valid()
      modifies this, wal
      ensures Valid() && state == old(state).(durable := state.durable)
      ensures state.durable == |state.log| || WaitingBelow(state, |state.frames|, [])
    {
      hide State.Coherent, State.Logged, Wal.WalManager.Valid;
      var anyDirty := false;
      for i := 0 to frames.Length
        invariant Valid() && state == old(state)
        invariant anyDirty || WaitingBelow(state, i, [])
      {
        if frames[i].pageId != INVALID && frames[i].dirty {
          anyDirty := true;
          break;
        }
      }
      if anyDirty {
        FlushedLogInv(state);
        wal.Flush();
        state := state.(durable := |state.log|);
      }
    }

    /** buffer_pool_flush_all: afterwards every frame is clean and the file is the logical view. */
    method FlushAll()
      requires Valid() && state.touched == {}
      modifies this, frames, wal
      ensures Valid() && Invisible(old(state), state) && state.pins == old(state).pins && state.slotOf == old(state).slotOf
      ensures forall i :: 0 <= i < |state.frames| ==> !state.frames[i].dirty
      ensures forall p: int :: p in state.view && state.view[p] == OnDisk(disk, p)
    {
      hide State.Inv, Wal.WalManager.Valid, OnDisk;
      FlushLogIfDirty();
      var batch: seq<nat> := [];
      for i := 0 to frames.Length
        invariant Valid() && Invisible(old(state), state) && state.pins == old(state).pins && state.slotOf == old(state).slotOf
        invariant state.durable == |state.log| || WaitingBelow(state, |state.frames|, [])
        invariant InFile(state, batch) && WaitingBelow(state, i, batch) && |batch| < 16
      {
        if frames[i].pageId != INVALID && frames[i].dirty {
          WrittenOutFacts(state, i, batch);
          WriteOut(i);
          batch := batch + [i];
          if |batch| >= 16 {
            CompleteBatch(batch, i + 1);
            batch := [];
          }
        } else {
          EmptyIsClean(state);
        }
      }
      CompleteBatch(batch, frames.Length);
      CleanFile(state);
    }
  }
}
