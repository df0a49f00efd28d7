/** The state of the buffer pool as a value, its invariant, and what each step does to it.
    `view` is the logical content of every page: what its frame holds, or the file if it has none. */
module PoolState {
  import opened Bytes
  import opened Pages
  import Wal

  datatype Frame = Frame(pageId: u32, pin: nat, dirty: bool, page: Page) {
    predicate Empty() { pageId == INVALID }
    predicate Replaceable() { pageId == INVALID || pin == 0 }
  }

  datatype State = State(
    frames: seq<Frame>,
    disk: seq<Page>,
    view: imap<int, Page>,
    slotOf: map<int, int>,    // the frame of each resident page
    pins: multiset<int>,      // one occurrence per pin
    touched: set<int>,        // pages written through a frame, or behind it, and not yet marked dirty
    log: seq<Wal.Record>,
    durable: int)
  {
    /** `slotOf` is the inverse of the frames' page ids: no page sits in two frames. */
    ghost predicate Table() {
      && (forall p :: p in slotOf ==> p != INVALID && 0 <= slotOf[p] < |frames| && frames[slotOf[p]].pageId == p)
      && (forall i :: 0 <= i < |frames| && !frames[i].Empty() ==> frames[i].pageId in slotOf && slotOf[frames[i].pageId] == i)
      && (forall i :: 0 <= i < |frames| && frames[i].Empty() ==> frames[i].pin == 0 && !frames[i].dirty)
    }

    /** The logical content of page `p` agrees with its frame; a clean frame agrees with the file. */
    ghost predicate PageOk(p: int)
      requires Table()
    {
      && p in view
      && (if p in slotOf then
            var f := frames[slotOf[p]];
            && view[p] == f.page && pins[p] == f.pin
            && (if f.dirty || p in touched then 0 <= p < |disk| else view[p] == OnDisk(disk, p))
          else
            view[p] == OnDisk(disk, p) && pins[p] == 0 && p !in touched)
    }

    ghost predicate Coherent()
      requires Table()
    {
      forall p: int :: PageOk(p)
    }

    /** Log before data: what is on disk is justified by durable records, what is in frames by all records. */
    ghost predicate Logged() {
      && 0 <= durable <= |log|
      && (forall p: int :: p in view)
      && (forall p :: 0 <= p < |disk| ==> Justified(p, disk[p], log[..durable]))
      && (forall p :: p in slotOf && p !in touched ==> Justified(p, view[p], log))
    }

    ghost predicate Inv() {
      Table() && Coherent() && Logged() && |disk| <= INVALID
    }

    /** Frame `f` is pinned and holds page `p`. */
    ghost predicate Holds(f: int, p: int) {
      p in slotOf && slotOf[p] == f && pins[p] > 0
    }

    ghost predicate AllPinned() {
      forall i :: 0 <= i < |frames| ==> !frames[i].Replaceable()
    }

    /** The dirty page of frame `i` is written to the file, the whole log first. */
    ghost function WrittenBack(i: int): State
      requires 0 <= i < |frames| && 0 <= frames[i].pageId < |disk|
    {
      this.(disk := disk[frames[i].pageId := frames[i].page],
            frames := frames[i := frames[i].(dirty := false)],
            durable := |log|)
    }

    /** The page of frame `i` is written to the file, and the frame stays marked dirty for now. */
    ghost function WrittenOut(i: int): State
      requires 0 <= i < |frames| && 0 <= frames[i].pageId < |disk|
    {
      this.(disk := disk[frames[i].pageId := frames[i].page])
    }

    ghost function Cleaned(i: int): State
      requires 0 <= i < |frames|
    {
      this.(frames := frames[i := frames[i].(dirty := false)])
    }

    /** Frame `i`, replaceable and clean, now holds page `p`, pinned once. */
    ghost function Installed(i: int, p: u32): State
      requires 0 <= i < |frames|
    {
      this.(frames := frames[i := Frame(p, 1, false, OnDisk(disk, p))],
            slotOf := (slotOf - {frames[i].pageId as int})[p as int := i],
            pins := pins + multiset{p as int})
    }

    /** The pin count of frame `i` becomes `n`. */
    ghost function Repinned(i: int, n: nat): State
      requires 0 <= i < |frames|
    {
      this.(frames := frames[i := frames[i].(pin := n)], pins := pins[frames[i].pageId as int := n])
    }

    ghost function MarkedDirty(i: int): State
      requires 0 <= i < |frames|
    {
      this.(frames := frames[i := frames[i].(dirty := true)], touched := touched - {frames[i].pageId as int})
    }

    /** The caller stores `page` into the pinned frame `i`. */
    ghost function Modified(i: int, page: Page): State
      requires 0 <= i < |frames|
    {
      var p: int := frames[i].pageId;
      this.(frames := frames[i := frames[i].(page := page)], view := view[p := page], touched := touched + {p})
    }

    /** A page of zeros is written at position `p` of the file, behind the pool's back. */
    ghost function Zeroed(p: u32): State
      requires p <= |disk|
    {
      this.(disk := Extended(disk, p),
            view := if (p as int) in slotOf then view else view[p as int := Blank],
            touched := if (p as int) in slotOf then touched + {p as int} else touched)
    }
  }

  function Extended(disk: seq<Page>, p: u32): seq<Page>
    requires p <= |disk|
  {
    if p < |disk| then disk[p as int := Blank] else disk + [Blank]
  }

  lemma DiskJustifiedByAll(s: State)
    requires s.Logged()
    ensures forall p :: 0 <= p < |s.disk| ==> Justified(p, s.disk[p], s.log)
  {
    forall p | 0 <= p < |s.disk|
      ensures Justified(p, s.disk[p], s.log)
    {
      JustifiedMonotone(p, s.disk[p], s.log[..s.durable], s.log);
    }
  }

  lemma PlainJustified(log: seq<Wal.Record>)
    ensures forall p: int :: Justified(p, Row, log) && Justified(p, Blank, log)
  {}

  lemma WrittenBackInv(s: State, i: int)
    requires s.Inv() && 0 <= i < |s.frames| && s.frames[i].dirty && (s.frames[i].pageId as int) !in s.touched
    ensures 0 <= s.frames[i].pageId < |s.disk| && s.WrittenBack(i).Inv()
  {
    hide Justified;
    var p: int := s.frames[i].pageId;
    assert s.PageOk(p);
    var t := s.WrittenBack(i);
    assert t.Table();
    forall q: int ensures t.PageOk(q) { assert s.PageOk(q); }
    DiskJustifiedByAll(s);
    assert s.log[..|s.log|] == s.log;
  }

  lemma FlushedLogInv(s: State)
    requires s.Inv()
    ensures s.(durable := |s.log|).Inv()
  {
    hide Justified;
    var t := s.(durable := |s.log|);
    forall q: int ensures t.PageOk(q) { assert s.PageOk(q); }
    DiskJustifiedByAll(s);
    assert s.log[..|s.log|] == s.log;
  }

  lemma WrittenOutInv(s: State, i: int)
    requires s.Inv() && 0 <= i < |s.frames| && s.frames[i].dirty && s.touched == {} && s.durable == |s.log|
    ensures 0 <= s.frames[i].pageId < |s.disk| && s.WrittenOut(i).Inv()
    ensures forall q: int :: OnDisk(s.WrittenOut(i).disk, q) == if q == s.frames[i].pageId then s.frames[i].page else OnDisk(s.disk, q)
  {
    hide Justified;
    assert s.PageOk(s.frames[i].pageId);
    var t := s.WrittenOut(i);
    forall q: int ensures t.PageOk(q) { assert s.PageOk(q); }
    assert s.log[..s.durable] == s.log;
  }

  lemma CleanedInv(s: State, i: int)
    requires s.Inv() && 0 <= i < |s.frames| && OnDisk(s.disk, s.frames[i].pageId) == s.frames[i].page && !s.frames[i].Empty()
    requires s.touched == {}
    ensures s.Cleaned(i).Inv()
  {
    hide Justified;
    var t := s.Cleaned(i);
    assert t.Table();
    forall q: int ensures t.PageOk(q) { assert s.PageOk(q); }
  }

  /** The pages of the frames in `batch` are in the file. */
  ghost predicate InFile(s: State, batch: seq<nat>) {
    forall c :: 0 <= c < |batch| ==>
      batch[c] < |s.frames| && !s.frames[batch[c]].Empty() && OnDisk(s.disk, s.frames[batch[c]].pageId) == s.frames[batch[c]].page
  }

  /** Every dirty frame below `n` is waiting in `batch`. */
  ghost predicate WaitingBelow(s: State, n: int, batch: seq<nat>)
    requires n <= |s.frames|
  {
    forall k :: 0 <= k < n && s.frames[k].dirty ==> k in batch
  }

  lemma WrittenOutFacts(s: State, i: int, batch: seq<nat>)
    requires s.Inv() && 0 <= i < |s.frames| && s.frames[i].dirty && s.touched == {} && s.durable == |s.log|
    requires InFile(s, batch) && WaitingBelow(s, i, batch)
    ensures 0 <= s.frames[i].pageId < |s.disk| && !s.frames[i].Empty()
    ensures InFile(s.WrittenOut(i), batch + [i]) && WaitingBelow(s.WrittenOut(i), i + 1, batch + [i])
  {
    WrittenOutInv(s, i);
    assert !s.frames[i].Empty();
    hide OnDisk, State.Coherent, State.Logged;
  }

  lemma EmptyIsClean(s: State)
    requires s.Inv()
    ensures forall k :: 0 <= k < |s.frames| && s.frames[k].Empty() ==> !s.frames[k].dirty
  {}

  /** With every frame clean, the file is the logical view. */
  lemma CleanFile(s: State)
    requires s.Inv() && s.touched == {} && forall i :: 0 <= i < |s.frames| ==> !s.frames[i].dirty
    ensures forall p: int :: p in s.view && s.view[p] == OnDisk(s.disk, p)
  {
    hide State.Logged;
    forall p: int ensures p in s.view && s.view[p] == OnDisk(s.disk, p) { assert s.PageOk(p); }
  }

  lemma InstalledTable(s: State, i: int, p: u32)
    requires s.Table() && 0 <= i < |s.frames| && p != INVALID && (p as int) !in s.slotOf
    ensures s.Installed(i, p).Table()
  {}

  lemma InstalledCoherent(s: State, i: int, p: u32)
    requires s.Table() && s.Coherent() && 0 <= i < |s.frames| && s.frames[i].Replaceable() && !s.frames[i].dirty
    requires p != INVALID && (p as int) !in s.slotOf && (s.frames[i].pageId as int) !in s.touched
    requires s.Installed(i, p).Table()
    ensures s.Installed(i, p).Coherent()
  {
    forall q: int ensures s.Installed(i, p).PageOk(q) { assert s.PageOk(q); }
  }

  lemma InstalledLogged(s: State, i: int, p: u32)
    requires s.Logged() && 0 <= i < |s.frames| && s.view[p as int] == OnDisk(s.disk, p)
    ensures s.Installed(i, p).Logged()
  {
    hide Justified;
    DiskJustifiedByAll(s);
    PlainJustified(s.log);
  }

  lemma InstalledInv(s: State, i: int, p: u32)
    requires s.Inv() && 0 <= i < |s.frames| && s.frames[i].Replaceable() && !s.frames[i].dirty
    requires p != INVALID && (p as int) !in s.slotOf && (s.frames[i].pageId as int) !in s.touched
    ensures s.Installed(i, p).Inv()
  {
    assert s.PageOk(p);
    hide Justified, State.Table, State.Coherent, State.Logged;
    InstalledTable(s, i, p);
    InstalledCoherent(s, i, p);
    InstalledLogged(s, i, p);
  }

  lemma RepinnedInv(s: State, i: int, n: nat)
    requires s.Inv() && 0 <= i < |s.frames| && !s.frames[i].Empty()
    ensures s.Repinned(i, n).Inv()
  {
    hide Justified;
    var t := s.Repinned(i, n);
    assert t.Table();
    forall q: int ensures t.PageOk(q) { assert s.PageOk(q); }
  }

  /** A page the caller has written must be justified by the log when it is marked dirty. */
  lemma MarkedDirtyInv(s: State, i: int)
    requires s.Inv() && 0 <= i < |s.frames| && !s.frames[i].Empty() && s.frames[i].pageId < |s.disk|
    requires (s.frames[i].pageId as int) in s.touched ==> Justified(s.frames[i].pageId, s.frames[i].page, s.log)
    ensures s.MarkedDirty(i).Inv()
  {
    hide Justified;
    var t := s.MarkedDirty(i);
    assert t.Table();
    forall q: int ensures t.PageOk(q) { assert s.PageOk(q); }
    assert t.Logged() by { assert s.PageOk(s.frames[i].pageId); }
  }

  lemma ModifiedInv(s: State, i: int, page: Page)
    requires s.Inv() && 0 <= i < |s.frames| && s.frames[i].pin > 0 && s.frames[i].pageId < |s.disk|
    ensures s.Modified(i, page).Inv()
  {
    hide Justified;
    var t := s.Modified(i, page);
    assert t.Table();
    forall q: int ensures t.PageOk(q) { assert s.PageOk(q); }
    assert t.Logged();
  }

  lemma ZeroedInv(s: State, p: u32)
    requires s.Inv() && p <= |s.disk| < INVALID
    requires (p as int) in s.slotOf ==> !s.frames[s.slotOf[p as int]].dirty
    ensures s.Zeroed(p).Inv()
  {
    hide Justified;
    var t := s.Zeroed(p);
    assert t.Table();
    forall q: int ensures t.PageOk(q) { assert s.PageOk(q); }
    PlainJustified(s.log);
    PlainJustified(s.log[..s.durable]);
    assert t.Logged();
  }

  lemma AppendedInv(s: State, log: seq<Wal.Record>)
    requires s.Inv() && s.log <= log
    ensures s.(log := log).Inv()
  {
    var t := s.(log := log);
    hide Justified;
    forall q: int ensures t.PageOk(q) { assert s.PageOk(q); }
    assert log[..s.durable] == s.log[..s.durable];
    forall p | p in t.slotOf && p !in t.touched
      ensures Justified(p, t.view[p], t.log)
    {
      JustifiedMonotone(p, t.view[p], s.log, t.log);
    }
  }

  /** No pinned page moves to another frame, or loses its pin. */
  ghost predicate Kept(slotOf: map<int, int>, pins: multiset<int>, slotOf': map<int, int>, pins': multiset<int>) {
    forall q :: q in slotOf && pins[q] > 0 ==> q in slotOf' && slotOf'[q] == slotOf[q] && pins'[q] > 0
  }

  lemma InstalledKeeps(s: State, i: int, p: u32)
    requires s.Inv() && 0 <= i < |s.frames| && s.frames[i].Replaceable() && (p as int) !in s.slotOf
    ensures var t := s.Installed(i, p); Kept(s.slotOf, s.pins, t.slotOf, t.pins)
  {
    hide State.Logged;
    forall q | q in s.slotOf && s.pins[q] > 0
      ensures q != s.frames[i].pageId && q != p
    {
      assert s.PageOk(q);
    }
  }

  lemma TableOf(s: State)
    requires s.Inv()
    ensures s.Table()
  {}

  lemma NeverResident(s: State)
    requires s.Inv()
    ensures (INVALID as int) !in s.slotOf
  {}

  lemma NotResident(s: State, p: int)
    requires s.Inv() && p !in s.slotOf
    ensures p !in s.touched && s.pins[p] == 0
  {
    hide State.Logged;
    assert s.PageOk(p);
  }

  lemma ResidentFacts(s: State, p: int)
    requires s.Inv() && p in s.slotOf
    ensures 0 <= s.slotOf[p] < |s.frames| && s.frames[s.slotOf[p]].pageId as int == p && p != INVALID
    ensures p in s.view && s.frames[s.slotOf[p]].page == s.view[p] && s.frames[s.slotOf[p]].pin == s.pins[p]
    ensures s.frames[s.slotOf[p]].dirty ==> 0 <= p < |s.disk|
  {
    hide State.Logged;
    assert s.PageOk(p);
  }

  lemma EvictedIsNotTouched(s: State, i: int)
    requires s.Inv() && 0 <= i < |s.frames| && !s.frames[i].Empty() && s.frames[i].pin == 0
    requires forall q :: q in s.touched ==> s.pins[q] > 0
    ensures (s.frames[i].pageId as int) in s.slotOf && s.slotOf[s.frames[i].pageId as int] == i
    ensures (s.frames[i].pageId as int) !in s.touched
    ensures s.frames[i].dirty ==> 0 <= s.frames[i].pageId < |s.disk|
  {
    hide State.Logged;
    assert s.PageOk(s.frames[i].pageId);
  }

  lemma ReplaceableIsNotTouched(s: State, i: int)
    requires s.Inv() && 0 <= i < |s.frames| && s.frames[i].Replaceable()
    requires forall q :: q in s.touched ==> s.pins[q] > 0
    ensures (s.frames[i].pageId as int) !in s.touched
    ensures s.frames[i].dirty ==> !s.frames[i].Empty() && 0 <= s.frames[i].pageId < |s.disk|
  {
    hide State.Logged;
    assert s.PageOk(s.frames[i].pageId);
  }

  /** Frame `i`, if dirty, is written back. */
  ghost function Evicted(s: State, i: int): State
    requires 0 <= i < |s.frames|
  {
    if s.frames[i].dirty && 0 <= s.frames[i].pageId < |s.disk| then s.WrittenBack(i) else s
  }

  lemma EvictedFacts(s: State, i: int)
    requires s.Inv() && 0 <= i < |s.frames| && s.frames[i].Replaceable()
    requires forall q :: q in s.touched ==> s.pins[q] > 0
    ensures var t := Evicted(s, i);
      && |t.frames| == |s.frames| && t.frames[i] == s.frames[i].(dirty := false)
      && t.slotOf == s.slotOf && t.touched == s.touched && t.pins == s.pins
    ensures (s.frames[i].pageId as int) !in s.touched
  {
    ReplaceableIsNotTouched(s, i);
  }

  ghost function Flushed(s: State, p: int): State {
    if p in s.slotOf && 0 <= s.slotOf[p] < |s.frames| then Evicted(s, s.slotOf[p]) else s
  }

  /** What unpinning page `p` does. */
  ghost predicate Unpinned(s: State, t: State, p: int, isDirty: bool) {
    && t.view == s.view && t.disk == s.disk && t.log == s.log && |t.frames| == |s.frames| && t.slotOf == s.slotOf
    && t.pins == s.pins - multiset{p}
    && t.touched == if isDirty then s.touched - {p} else s.touched
  }

  /** The steps of unpinning the page of frame `i`. */
  ghost function UnpinnedAt(s: State, i: int, isDirty: bool): State
    requires 0 <= i < |s.frames|
  {
    var t := if s.frames[i].pin > 0 then s.Repinned(i, s.frames[i].pin - 1) else s;
    if isDirty then t.MarkedDirty(i) else t
  }

  lemma UnpinFacts(s: State, p: int, isDirty: bool)
    requires s.Inv()
    ensures p !in s.slotOf ==> Unpinned(s, s, p, isDirty)
    ensures p in s.slotOf ==> 0 <= s.slotOf[p] < |s.frames| && Unpinned(s, UnpinnedAt(s, s.slotOf[p], isDirty), p, isDirty)
  {
    hide State.Logged;
    assert s.PageOk(p);
  }

  lemma FewerPins(s: State, i: int)
    requires s.Inv() && 0 <= i < |s.frames| && s.frames[i].pin > 0
    ensures |s.Repinned(i, s.frames[i].pin - 1).pins| <= |s.pins|
  {
    hide State.Logged;
    var p: int := s.frames[i].pageId;
    assert s.PageOk(p);
    assert s.Repinned(i, s.frames[i].pin - 1).pins == s.pins - multiset{p};
  }

  /** A fetch of page `p` that ends with frame `f` (negative for NULL), from `s` to `t`. */
  ghost predicate FetchStep(s: State, t: State, p: u32, f: int) {
    if (p as int) in s.slotOf then
      f == s.slotOf[p as int] && 0 <= f < |s.frames| && t == s.Repinned(f, s.frames[f].pin + 1)
    else if s.AllPinned() then
      f < 0 && t == s
    else
      && 0 <= f < |s.frames| && s.frames[f].Replaceable()
      && t == Evicted(s, f).Installed(f, p)
  }

  // ---------- What the operations do to frames and file, written out ----------

  /** A cached page is pinned once more. Otherwise an empty or unpinned frame takes the page as the file has it, or as a
      fresh row page behind the end of the file, and the dirty page it held is written out. Without such a frame nothing
      happens. */
  ghost predicate FetchedFrames(before: seq<Frame>, after: seq<Frame>, file: seq<Page>, file': seq<Page>, p: u32, f: int) {
    if f < 0 then
      && after == before && file' == file
      && forall i :: 0 <= i < |before| ==> before[i].pageId != p && before[i].pageId != 4294967295 && before[i].pin > 0
    else if f < |before| && before[f].pageId == p then
      after == before[f := Frame(p, before[f].pin + 1, before[f].dirty, before[f].page)] && file' == file
    else
      && f < |before| && (forall i :: 0 <= i < |before| ==> before[i].pageId != p)
      && (before[f].pageId == 4294967295 || before[f].pin == 0)
      && after == before[f := Frame(p, 1, false, if p < |file| then file[p] else Row)]
      && |file'| == |file| && forall q :: 0 <= q < |file| ==>
        file'[q] == if before[f].dirty && before[f].pageId == q then before[f].page else file[q]
  }

  lemma FetchFrames(s: State, t: State, p: u32, f: int)
    requires s.Inv() && FetchStep(s, t, p, f) && p != INVALID && forall q :: q in s.touched ==> q == p || s.pins[q] > 0
    ensures FetchedFrames(s.frames, t.frames, s.disk, t.disk, p, f)
  {
    if (p as int) in s.slotOf {
      assert s.frames[f].pageId == p;
    } else {
      assert forall i :: 0 <= i < |s.frames| && s.frames[i].pageId == p ==> !s.frames[i].Empty();
      if f >= 0 {
        NotResident(s, p);
        ReplaceableIsNotTouched(s, f);
        EvictedFacts(s, f);
      }
    }
  }

  /** The frame of the page has one pin less, if it had any, and is dirty if it was or the caller says so. */
  ghost predicate UnpinnedFrames(before: seq<Frame>, after: seq<Frame>, p: u32, isDirty: bool) {
    |after| == |before| && forall i :: 0 <= i < |before| ==>
      after[i] == if before[i].pageId != p then before[i] else
        Frame(p, if before[i].pin == 0 then 0 else before[i].pin - 1, before[i].dirty || isDirty, before[i].page)
  }

  lemma UnpinFrames(s: State, p: u32, isDirty: bool)
    requires s.Table() && p != INVALID
    ensures (p as int) !in s.slotOf ==> UnpinnedFrames(s.frames, s.frames, p, isDirty)
    ensures (p as int) in s.slotOf ==> UnpinnedFrames(s.frames, UnpinnedAt(s, s.slotOf[p as int], isDirty).frames, p, isDirty)
  {
    assert forall i :: 0 <= i < |s.frames| && s.frames[i].pageId == p ==> !s.frames[i].Empty();
  }

  /** The page is cached: if its frame is dirty it is written to its place in the file, and the frame becomes clean. */
  ghost predicate FlushedFrames(before: seq<Frame>, after: seq<Frame>, file: seq<Page>, file': seq<Page>, p: u32, f: int) {
    && 0 <= f < |before| && before[f].pageId == p && after == before[f := Frame(p, before[f].pin, false, before[f].page)]
    && |file'| == |file| && forall q :: 0 <= q < |file| ==> file'[q] == if before[f].dirty && q == p then before[f].page else file[q]
  }

  lemma FlushFrames(s: State, p: u32)
    requires s.Inv() && p != INVALID
    ensures (p as int) in s.slotOf ==>
      FlushedFrames(s.frames, Flushed(s, p).frames, s.disk, Flushed(s, p).disk, p, s.slotOf[p as int])
    ensures (p as int) !in s.slotOf ==> Flushed(s, p) == s && forall i :: 0 <= i < |s.frames| ==> s.frames[i].pageId != p
  {
    if (p as int) in s.slotOf {
      ResidentFacts(s, p);
    } else {
      assert forall i :: 0 <= i < |s.frames| && s.frames[i].pageId == p ==> !s.frames[i].Empty();
    }
  }

  /** The same contents, file size and log. */
  ghost predicate Invisible(s: State, t: State) {
    t.view == s.view && t.touched == s.touched && |t.disk| == |s.disk| && t.log == s.log && |t.frames| == |s.frames|
  }

  /** What fetching page `p` into frame `f` (negative for NULL) does: logical contents do not change, no pinned
      page moves, and it fails exactly when the page is not resident and every frame is pinned. */
  ghost predicate Fetched(s: State, t: State, p: int, f: int) {
    && Invisible(s, t) && Kept(s.slotOf, s.pins, t.slotOf, t.pins)
    && (f < 0 <==> p !in s.slotOf && s.AllPinned())
    && (|s.pins| < |s.frames| ==> f >= 0)
    && (f < 0 ==> t.pins == s.pins && t.slotOf == s.slotOf)
    && (f >= 0 ==> t.Holds(f, p) && t.pins == s.pins + multiset{p})
  }

  lemma FetchFacts(s: State, t: State, p: u32, f: int)
    requires s.Inv() && FetchStep(s, t, p, f)
    ensures Fetched(s, t, p, f)
  {
    assert s.PageOk(p);
    if s.AllPinned() {
      AllPinnedCount(s);
    } else if (p as int) !in s.slotOf {
      InstalledKeeps(s, f, p);
    }
  }

  /** A miss changes the page table in one frame only. */
  lemma MissFacts(s: State, t: State, p: u32, f: int)
    requires s.Inv() && FetchStep(s, t, p, f) && (p as int) !in s.slotOf
    ensures f < 0 ==> t.slotOf == s.slotOf && t.pins == s.pins
    ensures f >= 0 ==> f < |s.frames| && t.slotOf == (s.slotOf - {s.frames[f].pageId as int})[p as int := f]
    ensures f >= 0 ==> t.pins[p as int] == 1
  {
    assert s.PageOk(p);
  }

  /** Frames that are all pinned account for at least as many pins as there are frames. */
  lemma AllPinnedCount(s: State)
    requires s.Inv() && s.AllPinned()
    ensures |s.pins| >= |s.frames|
  {
    hide Justified;
    forall i | 0 <= i < |s.frames|
      ensures s.pins[s.frames[i].pageId as int] > 0
      ensures (s.frames[i].pageId as int) in s.slotOf && s.slotOf[s.frames[i].pageId as int] == i
    {
      assert s.PageOk(s.frames[i].pageId);
    }
    hide State.Inv;
    PinnedFrames(s, s.frames, s.pins);
  }

  lemma {:induction false} PinnedFrames(s: State, frames: seq<Frame>, pins: multiset<int>)
    requires |frames| <= |s.frames| && frames == s.frames[..|frames|]
    requires forall i :: 0 <= i < |frames| ==> pins[frames[i].pageId as int] > 0
    requires forall i :: 0 <= i < |s.frames| ==>
      (s.frames[i].pageId as int) in s.slotOf && s.slotOf[s.frames[i].pageId as int] == i
    ensures |pins| >= |frames|
  {
    if frames != [] {
      var n := |frames| - 1;
      var last: int := frames[n].pageId;
      PinnedFrames(s, frames[..n], pins - multiset{last});
    }
  }

  /** A call that only looked at pages: the same contents, and the same pins on the same frames. */
  ghost predicate Seen(s: State, t: State) {
    Invisible(s, t) && t.pins == s.pins && Kept(s.slotOf, s.pins, t.slotOf, t.pins)
  }

  lemma SeenFacts(s: State, t: State, u: State, p: int, f: int)
    requires Fetched(s, t, p, f) && f >= 0 && Unpinned(t, u, p, false)
    ensures Seen(s, u)
  {
    assert u.pins == s.pins;
  }

  /** A store of `page` through a pinned frame of page `p`. */
  ghost predicate Stored(s: State, t: State, p: int, page: Page) {
    && t.view == s.view[p := page] && t.touched == s.touched + {p}
    && t.disk == s.disk && t.log == s.log && t.pins == s.pins && t.slotOf == s.slotOf && |t.frames| == |s.frames|
  }

  lemma NewPageFacts(s: State, t: State, p: int, page: Page)
    requires t.view == s.view[p := Blank][p := page] || t.view == s.view[p := page]
    requires t.pins == s.pins + multiset{p} - multiset{p}
    requires t.touched <= s.touched + {p} - {p} && s.touched == {}
    ensures t.view == s.view[p := page] && t.pins == s.pins && t.touched == {}
  {}

  lemma HoldsKept(s: State, t: State, f: int, p: int)
    requires Kept(s.slotOf, s.pins, t.slotOf, t.pins) && s.Holds(f, p)
    ensures t.Holds(f, p)
  {}

  lemma SeenNothing(s: State)
    ensures Seen(s, s)
  {}

  lemma SeenTwice(s: State, t: State, u: State)
    requires Seen(s, t) && Seen(t, u)
    ensures Seen(s, u)
  {}

  /** Between operations nothing is pinned and no write is pending; the pool has at least two frames. */
  ghost predicate Quiet(s: State) {
    s.pins == multiset{} && s.touched == {} && |s.frames| >= 2
  }

  /** In a page nobody is changing, everything is justified by the log. */
  lemma ViewJustified(s: State, p: int)
    requires s.Inv() && p !in s.touched
    ensures p in s.view && Justified(p, s.view[p], s.log)
  {
    hide Justified;
    assert s.PageOk(p);
    DiskJustifiedByAll(s);
    PlainJustified(s.log);
  }

  lemma ViewTotal(s: State)
    requires s.Inv()
    ensures forall p: int :: p in s.view
    ensures |s.disk| <= INVALID
  {}
}
