/** The doublewrite protocol as a state machine. A batch of pages is copied to the slots of the
    doublewrite buffer, the slots are made durable, the pages are written to their own places,
    the files are synced, and only then are the slots used again. A crash may come between any
    two steps, also during recovery; a write that was not synced then leaves the old image, the
    new one, or a torn page. */
module Doublewrite {
  import opened Common

  const SYS_TABLESPACE := 0
  const BLOCK_SIZE := 64
  const SLOTS := 2 * BLOCK_SIZE

  datatype PageId = PageId(space: int, no: int)

  /** What a page frame holds: the page id in its header, and its content. The checksum tells a
      torn image; a torn image may show any page id. */
  datatype Image = Whole(id: PageId, content: int) | Torn(id: PageId)

  /** A place on disk: what is durable, and the last write not yet synced. */
  datatype Cell = Cell(durable: Image, pending: Option<Image>)

  type Disk = map<PageId, Cell>

  /** First page numbers of the two blocks, in the system tablespace. */
  datatype Layout = Layout(block1: int, block2: int)

  predicate Apart(l: Layout) {
    l.block1 + BLOCK_SIZE <= l.block2 || l.block2 + BLOCK_SIZE <= l.block1
  }

  predicate IsPageInside(l: Layout, no: int) {
    l.block1 <= no < l.block1 + BLOCK_SIZE || l.block2 <= no < l.block2 + BLOCK_SIZE
  }

  predicate IsSlot(l: Layout, p: PageId) {
    p.space == SYS_TABLESPACE && IsPageInside(l, p.no)
  }

  /** The page that holds slot i: the first 64 slots are in block 1, the others in block 2. */
  function SlotPage(l: Layout, i: int): PageId {
    PageId(SYS_TABLESPACE, if i < BLOCK_SIZE then l.block1 + i else l.block2 + (i - BLOCK_SIZE))
  }

  function SlotIndex(l: Layout, p: PageId): int
    requires IsSlot(l, p)
  {
    if l.block1 <= p.no < l.block1 + BLOCK_SIZE then p.no - l.block1 else BLOCK_SIZE + (p.no - l.block2)
  }

  /** is_page_inside holds of the pages of the slots and of no others. */
  lemma {:induction false} InsideIsSlot(l: Layout, no: int)
    ensures IsPageInside(l, no) <==> exists i :: 0 <= i < SLOTS && SlotPage(l, i) == PageId(SYS_TABLESPACE, no)
  {
    if IsPageInside(l, no) {
      assert SlotPage(l, SlotIndex(l, PageId(SYS_TABLESPACE, no))) == PageId(SYS_TABLESPACE, no);
    }
  }

  lemma {:induction false} SlotOfIndex(l: Layout, i: int)
    requires Apart(l) && 0 <= i < SLOTS
    ensures IsSlot(l, SlotPage(l, i)) && SlotIndex(l, SlotPage(l, i)) == i
  {
  }

  /** What a read of the file returns. */
  function Visible(c: Cell): Image {
    if c.pending.Some? then c.pending.value else c.durable
  }

  /** What a crash may leave. */
  predicate CrashLeaves(c: Cell, after: Image) {
    after == c.durable || (c.pending.Some? && (after == c.pending.value || after.Torn?))
  }

  /** fsync. */
  function Settle(d: Disk): (r: Disk)
    ensures r.Keys == d.Keys
  {
    map p | p in d :: Cell(Visible(d[p]), None)
  }

  function Write(d: Disk, p: PageId, im: Image): (r: Disk)
    ensures r.Keys == d.Keys
  {
    if p in d then d[p := d[p].(pending := Some(im))] else d
  }

  /** A write of copies lo to hi of the batch to their slots. */
  function WriteSlots(l: Layout, d: Disk, batch: seq<Image>, lo: int, hi: int): (r: Disk)
    requires 0 <= lo && hi <= |batch|
    ensures r.Keys == d.Keys
  {
    map p | p in d :: if IsSlot(l, p) && lo <= SlotIndex(l, p) < hi
                      then d[p].(pending := Some(batch[SlotIndex(l, p)])) else d[p]
  }

  function ReadSlots(l: Layout, d: Disk): (buf: seq<Image>)
    requires forall i :: 0 <= i < SLOTS ==> SlotPage(l, i) in d
    ensures |buf| == SLOTS
  {
    seq(SLOTS, i requires 0 <= i < SLOTS => Visible(d[SlotPage(l, i)]))
  }

  // ----- the state machine -----

  datatype Phase =
    | Filling                               // copies are collected in the write buffer
    | Block1Written | Block2Written         // the copies are in the slots, not durable yet
    | InPlace(next: int)                    // the slots are durable; `next` pages were written in place
    | Synced                                // the data files are synced
    | Down                                  // after a crash
    | Recovering(at: int, buf: seq<Image>)  // recover_pages has read the slots and is at slot `at`
    | Fatal                                 // "the page in the doublewrite buffer is corrupt too"

  /** disk, the frames of the buffer pool, the pages that are latched for a write, the write
      buffer up to m_first_free, and the control point. `base` and `posted` are history: the
      contents that were synced last, and the batch that is on its way to its places. */
  datatype State = State(disk: Disk, frames: map<PageId, int>, latched: set<PageId>, batch: seq<Image>,
                         phase: Phase, base: map<PageId, int>, posted: seq<Image>)

  datatype Event =
    | Modify(p: PageId, content: int)       // a thread changes a page in the buffer pool
    | Post(p: PageId)                       // post_to_doublewrite_buf
    | WriteBlock1 | WriteBlock2 | FlushSlots
    | WriteInPlace                          // the next page of the batch is written to its place
    | Complete(p: PageId)                   // such a write is reported complete, the latch is released
    | SyncData | Reuse
    | Crash(after: map<PageId, Image>)
    | BeginRecovery | RecoverSlot | EndRecovery

  predicate Running(ph: Phase) {
    ph.Filling? || ph.Block1Written? || ph.Block2Written? || ph.InPlace? || ph.Synced?
  }

  predicate Enabled(l: Layout, s: State, e: Event) {
    match e
    case Modify(p, _) => Running(s.phase) && p in s.frames && p !in s.latched
    case Post(p) => s.phase == Filling && p in s.frames && p !in s.latched && |s.batch| < SLOTS
    case WriteBlock1 => s.phase == Filling && s.batch != []
    case WriteBlock2 => s.phase == Block1Written && |s.batch| > BLOCK_SIZE
    case FlushSlots => s.phase == Block2Written || (s.phase == Block1Written && |s.batch| <= BLOCK_SIZE)
    case WriteInPlace => s.phase.InPlace? && 0 <= s.phase.next < |s.batch| && s.batch[s.phase.next].id in s.frames
    case Complete(p) => s.phase.InPlace? && p in s.latched && p in Ids(s.batch) &&
                        p !in Ids(s.batch[if 0 <= s.phase.next <= |s.batch| then s.phase.next else 0..])
    case SyncData => s.phase.InPlace? && s.phase.next == |s.batch|
    case Reuse => s.phase == Synced
    case Crash(after) => after.Keys == s.disk.Keys && forall p :: p in after ==> CrashLeaves(s.disk[p], after[p])
    case BeginRecovery => s.phase == Down && forall i :: 0 <= i < SLOTS ==> SlotPage(l, i) in s.disk
    case RecoverSlot => s.phase.Recovering? && 0 <= s.phase.at < |s.phase.buf| == SLOTS
    case EndRecovery => s.phase.Recovering? && s.phase.at == SLOTS
  }

  function Ids(batch: seq<Image>): set<PageId> {
    set im | im in batch :: im.id
  }

  /** One slot of the loop of recover_pages. */
  function Recover(l: Layout, s: State): State
    requires s.phase.Recovering? && 0 <= s.phase.at < |s.phase.buf|
  {
    var im := s.phase.buf[s.phase.at];
    var next := s.(phase := s.phase.(at := s.phase.at + 1));
    if im.id !in s.disk then next                      // dropped tablespace or page out of bounds
    else if IsSlot(l, im.id) then next                 // unwritten doublewrite page
    else if Visible(s.disk[im.id]).Whole? then next
    else if im.Torn? then s.(phase := Fatal)
    else next.(disk := Write(s.disk, im.id, im))
  }

  function Contents(l: Layout, d: Disk): map<PageId, int> {
    map p | p in d && !IsSlot(l, p) :: var im := Visible(d[p]); if im.Whole? then im.content else 0
  }

  function Updated(base: map<PageId, int>, batch: seq<Image>): map<PageId, int> {
    if batch == [] then base
    else var rest := Updated(base, batch[..|batch| - 1]);
         var im := batch[|batch| - 1];
         if im.Whole? then rest[im.id := im.content] else rest
  }

  function Apply(l: Layout, s: State, e: Event): State
    requires Enabled(l, s, e)
  {
    match e
    case Modify(p, c) => s.(frames := s.frames[p := c])
    case Post(p) => s.(batch := s.batch + [Whole(p, s.frames[p])], latched := s.latched + {p})
    case WriteBlock1 =>
      var n := if |s.batch| < BLOCK_SIZE then |s.batch| else BLOCK_SIZE;
      s.(disk := WriteSlots(l, s.disk, s.batch, 0, n), phase := Block1Written)
    case WriteBlock2 =>
      s.(disk := WriteSlots(l, s.disk, s.batch, BLOCK_SIZE, |s.batch|), phase := Block2Written)
    case FlushSlots => s.(disk := Settle(s.disk), phase := InPlace(0), posted := s.batch)
    case WriteInPlace =>
      var p := s.batch[s.phase.next].id;
      s.(disk := Write(s.disk, p, Whole(p, s.frames[p])), phase := InPlace(s.phase.next + 1))
    case Complete(p) => s.(latched := s.latched - {p})
    case SyncData => s.(disk := Settle(s.disk), latched := s.latched - Ids(s.batch), phase := Synced,
                        base := Updated(s.base, s.batch), posted := [])
    case Reuse => s.(batch := [], phase := Filling)
    case Crash(after) =>
      s.(disk := map p | p in s.disk :: Cell(after[p], None), frames := map[], latched := {}, batch := [],
         phase := Down)
    case BeginRecovery => s.(phase := Recovering(0, ReadSlots(l, s.disk)))
    case RecoverSlot => Recover(l, s)
    case EndRecovery =>
      var c := Contents(l, s.disk);
      s.(disk := Settle(s.disk), frames := c, base := c, posted := [], phase := Filling)
  }

  /** A data base that was shut down cleanly: every data page is whole and holds what was synced
      last. The slots may hold anything. */
  ghost predicate Initial(l: Layout, s: State) {
    && Apart(l) && s.phase == Filling && s.batch == [] && s.posted == [] && s.latched == {}
    && s.frames == s.base
    && (forall i :: 0 <= i < SLOTS ==> SlotPage(l, i) in s.disk)
    && (forall p :: p in s.base <==> p in s.disk && !IsSlot(l, p))
    && (forall p :: p in s.base ==> s.disk[p] == Cell(Whole(p, s.base[p]), None))
  }

  /** A run: the states, and the events that lead from each one to the next. */
  ghost predicate IsRun(l: Layout, ss: seq<State>, es: seq<Event>) {
    |ss| == |es| + 1 && Initial(l, ss[0]) && forall i :: 0 <= i < |es| ==> StepAt(l, ss, es, i)
  }

  ghost predicate StepAt(l: Layout, ss: seq<State>, es: seq<Event>, i: nat) {
    i < |es| && i + 1 < |ss| && Enabled(l, ss[i], es[i]) && ss[i + 1] == Apply(l, ss[i], es[i])
  }

  // ----- the invariant -----

  ghost predicate OncePerPage(batch: seq<Image>) {
    forall i, j :: 0 <= i < j < |batch| ==> batch[i].id != batch[j].id
  }

  /** A batch holds at most one whole copy of a data page. */
  ghost predicate BatchOk(batch: seq<Image>, base: map<PageId, int>) {
    |batch| <= SLOTS && OncePerPage(batch) && forall im :: im in batch ==> im.Whole? && im.id in base
  }

  ghost predicate Frozen(s: State, from: int) {
    forall i :: 0 <= i && from <= i < |s.batch| ==>
        var im := s.batch[i]; im.Whole? && im.id in s.frames && im.id in s.latched && s.frames[im.id] == im.content
  }

  /** The copies of the batch in flight are durable in the first slots: every slot of an earlier
      batch comes after them. */
  ghost predicate SlotsHold(l: Layout, d: Disk, batch: seq<Image>) {
    forall i :: 0 <= i < |batch| ==> SlotPage(l, i) in d && d[SlotPage(l, i)] == Cell(batch[i], None)
  }

  /** The first n copies of the batch are in their slots. */
  ghost predicate SlotsShow(l: Layout, d: Disk, batch: seq<Image>, n: int) {
    forall i :: 0 <= i < |batch| && i < n ==> SlotPage(l, i) in d && Visible(d[SlotPage(l, i)]) == batch[i]
  }

  /** While the engine runs, a data page is durable as it was synced last, and a write under way
      brings the copy of the batch in flight. */
  ghost predicate SafePage(s: State, p: PageId)
    requires p in s.base && p in s.disk
  {
    var c := s.disk[p];
    c.durable == Whole(p, s.base[p]) && (c.pending.Some? ==> c.pending.value in s.posted && c.pending.value.id == p)
  }

  /** After a crash it is that image, its copy in the batch in flight, or torn; if torn, slot
      `at` or a later one of that batch has the copy. */
  ghost predicate CrashedPage(s: State, p: PageId, at: int)
    requires p in s.base && p in s.disk
  {
    var c := s.disk[p];
    (c.durable.Torn? || Surviving(s, p, c.durable)) &&
    (c.durable.Torn? || c.pending.Some? ==> p in Ids(s.posted)) &&
    (c.pending.Some? ==> c.pending.value in s.posted && c.pending.value.id == p) &&
    (Visible(c).Torn? ==> exists k :: 0 <= k && at <= k < |s.posted| && s.posted[k].id == p)
  }

  ghost predicate Surviving(s: State, p: PageId, im: Image)
    requires p in s.base
  {
    im == Whole(p, s.base[p]) || (im in s.posted && im.id == p)
  }

  ghost predicate PhaseInv(l: Layout, s: State) {
    match s.phase
    case Filling => s.posted == [] && Frozen(s, 0)
    case Block1Written =>
      s.posted == [] && Frozen(s, 0) && s.batch != [] && SlotsShow(l, s.disk, s.batch, BLOCK_SIZE)
    case Block2Written =>
      s.posted == [] && Frozen(s, 0) && s.batch != [] && SlotsShow(l, s.disk, s.batch, SLOTS)
    case InPlace(next) =>
      0 <= next <= |s.batch| && s.posted == s.batch && Frozen(s, next) && SlotsHold(l, s.disk, s.posted) &&
      forall i :: 0 <= i < next ==> s.batch[i].id in s.disk && s.disk[s.batch[i].id].pending == Some(s.batch[i])
    case Synced => s.posted == []
    case Down => SlotsHold(l, s.disk, s.posted)
    case Recovering(at, buf) =>
      0 <= at <= SLOTS == |buf| && SlotsHold(l, s.disk, s.posted) && |s.posted| <= SLOTS &&
        forall i :: 0 <= i < |s.posted| ==> buf[i] == s.posted[i]
    case Fatal => false
  }

  ghost predicate PagesInv(s: State)
    requires s.base.Keys <= s.disk.Keys
  {
    if Running(s.phase) then
      forall p :: p in s.base ==> SafePage(s, p)
    else
      forall p :: p in s.base ==> CrashedPage(s, p, if s.phase.Recovering? then s.phase.at else 0)
  }

  ghost predicate Inv(l: Layout, s: State) {
    && Apart(l)
    && (forall i :: 0 <= i < SLOTS ==> SlotPage(l, i) in s.disk)
    && (forall p :: p in s.base <==> p in s.disk && !IsSlot(l, p))
    && (if Running(s.phase) then s.frames.Keys == s.base.Keys else s.batch == [])
    && BatchOk(s.batch, s.base) && BatchOk(s.posted, s.base)
    && PhaseInv(l, s) && PagesInv(s)
  }

  lemma {:induction false} InitialInv(l: Layout, s: State)
    requires Initial(l, s)
    ensures Inv(l, s)
  {
  }

  // one lemma for each event
  lemma {:induction false} PostInv(l: Layout, s: State, p: PageId)
    requires Inv(l, s) && Enabled(l, s, Post(p))
    ensures Inv(l, Apply(l, s, Post(p)))
  {
    var s' := Apply(l, s, Post(p));
    forall i | 0 <= i < |s.batch| ensures s.batch[i].id != p {
    }
  }

  lemma {:induction false} ModifyInv(l: Layout, s: State, p: PageId, c: int)
    requires Inv(l, s) && Enabled(l, s, Modify(p, c))
    ensures Inv(l, Apply(l, s, Modify(p, c)))
  {
    var s' := Apply(l, s, Modify(p, c));
    assert s'.frames.Keys == s.frames.Keys;
  }

  lemma {:induction false} WriteSlotsInv(l: Layout, s: State, e: Event)
    requires Inv(l, s) && Enabled(l, s, e) && (e.WriteBlock1? || e.WriteBlock2?)
    ensures Inv(l, Apply(l, s, e))
  {
    var s' := Apply(l, s, e);
    forall i | 0 <= i < SLOTS ensures IsSlot(l, SlotPage(l, i)) && SlotIndex(l, SlotPage(l, i)) == i {
      SlotOfIndex(l, i);
    }
    forall p | p in s.base ensures SafePage(s', p) {
      assert SafePage(s, p) && s'.disk[p] == s.disk[p];
    }
    assert SlotsShow(l, s'.disk, s.batch, if e.WriteBlock1? then BLOCK_SIZE else SLOTS);
  }

  lemma {:induction false} FlushSlotsInv(l: Layout, s: State)
    requires Inv(l, s) && Enabled(l, s, FlushSlots)
    ensures Inv(l, Apply(l, s, FlushSlots))
  {
  }

  lemma {:induction false} WriteInPlaceInv(l: Layout, s: State)
    requires Inv(l, s) && Enabled(l, s, WriteInPlace)
    ensures Inv(l, Apply(l, s, WriteInPlace))
  {
    var im := s.batch[s.phase.next];
    assert im in s.batch;
    assert s.frames[im.id] == im.content;
    SlotsStay(l, s.disk, s.batch, im);
  }

  lemma {:induction false} SlotsStay(l: Layout, d: Disk, batch: seq<Image>, im: Image)
    requires Apart(l) && SlotsHold(l, d, batch) && !IsSlot(l, im.id) && |batch| <= SLOTS
    ensures SlotsHold(l, Write(d, im.id, im), batch)
  {
    forall i | 0 <= i < |batch| ensures SlotPage(l, i) != im.id {
      SlotOfIndex(l, i);
    }
  }

  lemma {:induction false} CompleteInv(l: Layout, s: State, p: PageId)
    requires Inv(l, s) && Enabled(l, s, Complete(p))
    ensures Inv(l, Apply(l, s, Complete(p)))
  {
    forall i | s.phase.next <= i < |s.batch| ensures s.batch[i].id != p {
      assert s.batch[s.phase.next..][i - s.phase.next] == s.batch[i];
    }
  }

  lemma {:induction false} UpdatedAt(base: map<PageId, int>, batch: seq<Image>, p: PageId)
    requires OncePerPage(batch) && (forall im :: im in batch ==> im.Whole? && im.id in base)
    ensures Updated(base, batch).Keys == base.Keys
    ensures p in base && p !in Ids(batch) ==> Updated(base, batch)[p] == base[p]
    ensures forall im :: im in batch && im.id == p ==> Updated(base, batch)[p] == im.content
  {
    if batch != [] {
      var last := batch[|batch| - 1];
      assert batch == batch[..|batch| - 1] + [last];
      UpdatedAt(base, batch[..|batch| - 1], p);
      assert forall im :: im in batch[..|batch| - 1] ==> im in batch;
    }
  }

  lemma {:induction false} SyncDataInv(l: Layout, s: State)
    requires Inv(l, s) && Enabled(l, s, SyncData)
    ensures Inv(l, Apply(l, s, SyncData))
  {
    var s' := Apply(l, s, SyncData);
    forall p ensures p in s'.base <==> p in s.base {
      UpdatedAt(s.base, s.batch, p);
    }
    forall p | p in s.base ensures SafePage(s', p) {
      SyncedPage(l, s, p);
    }
  }

  lemma {:induction false} SyncedPage(l: Layout, s: State, p: PageId)
    requires Inv(l, s) && Enabled(l, s, SyncData) && p in s.base
    ensures var s' := Apply(l, s, SyncData); p in s'.base && p in s'.disk && SafePage(s', p)
  {
    UpdatedAt(s.base, s.batch, p);
    assert SafePage(s, p);
    if p in Ids(s.batch) {
      var im :| im in s.batch && im.id == p;
      var i :| 0 <= i < |s.batch| && s.batch[i] == im;
      assert s.disk[s.batch[i].id].pending == Some(s.batch[i]);
    }
  }

  lemma {:induction false} CrashInv(l: Layout, s: State, after: map<PageId, Image>)
    requires Inv(l, s) && Enabled(l, s, Crash(after))
    ensures Inv(l, Apply(l, s, Crash(after)))
  {
    var s' := Apply(l, s, Crash(after));
    forall p | p in s.base ensures CrashedPage(s', p, 0) {
      CrashPage(l, s, after, p);
    }
  }

  lemma {:induction false} CrashPage(l: Layout, s: State, after: map<PageId, Image>, p: PageId)
    requires Inv(l, s) && Enabled(l, s, Crash(after)) && p in s.base
    ensures CrashedPage(Apply(l, s, Crash(after)), p, 0)
  {
    assert p in after && CrashLeaves(s.disk[p], after[p]);
    assert Running(s.phase) ==> SafePage(s, p);
    if s.disk[p].pending.Some? {
      assert s.disk[p].pending.value.id in Ids(s.posted);
    }
    if p in Ids(s.posted) {
      var im :| im in s.posted && im.id == p;
      var k :| 0 <= k < |s.posted| && s.posted[k] == im;
    }
  }

  lemma {:induction false} BeginRecoveryInv(l: Layout, s: State)
    requires Inv(l, s) && Enabled(l, s, BeginRecovery)
    ensures Inv(l, Apply(l, s, BeginRecovery))
  {
  }

  /** At a torn page the slot at hand is not from an earlier batch, and if it claims that page,
      it is whole. */
  lemma {:induction false} RecoverSlotInv(l: Layout, s: State)
    requires Inv(l, s) && Enabled(l, s, RecoverSlot)
    ensures Inv(l, Apply(l, s, RecoverSlot))
  {
    var im := s.phase.buf[s.phase.at];
    assert im.id in s.base <==> im.id in s.disk && !IsSlot(l, im.id);
    RecoverCases(l, s);
    if im.id !in s.base || Visible(s.disk[im.id]).Whole? {
      Skipped(l, s);
    } else {
      TornPage(l, s, im.id);
      Repaired(l, s, im);
    }
  }

  lemma {:induction false} RecoverCases(l: Layout, s: State)
    requires Enabled(l, s, RecoverSlot)
    ensures var im, next := s.phase.buf[s.phase.at], s.(phase := s.phase.(at := s.phase.at + 1));
            Apply(l, s, RecoverSlot)
            == if im.id !in s.disk || IsSlot(l, im.id) || Visible(s.disk[im.id]).Whole? then next
               else if im.Torn? then s.(phase := Fatal)
               else next.(disk := Write(s.disk, im.id, im))
  {
  }

  lemma {:induction false} Skipped(l: Layout, s: State)
    requires Inv(l, s) && s.phase.Recovering? && s.phase.at < SLOTS
    requires var im := s.phase.buf[s.phase.at]; im.id !in s.base || Visible(s.disk[im.id]).Whole?
    ensures Inv(l, s.(phase := s.phase.(at := s.phase.at + 1)))
  {
    var next := s.(phase := s.phase.(at := s.phase.at + 1));
    forall p | p in s.base ensures CrashedPage(next, p, s.phase.at + 1) {
      assert CrashedPage(s, p, s.phase.at);
    }
  }

  lemma {:induction false} TornPage(l: Layout, s: State, p: PageId)
    requires Inv(l, s) && s.phase.Recovering? && p in s.base && Visible(s.disk[p]).Torn?
    ensures s.phase.at < |s.posted| && s.phase.buf[s.phase.at] == s.posted[s.phase.at] && s.posted[s.phase.at].Whole?
  {
    assert CrashedPage(s, p, s.phase.at);
    assert s.posted[s.phase.at] in s.posted;
  }

  /** A torn page is overwritten by its copy from the batch in flight. */
  lemma {:induction false} Repaired(l: Layout, s: State, im: Image)
    requires Inv(l, s) && s.phase.Recovering? && s.phase.at < |s.posted| && s.posted[s.phase.at] == im
    ensures Inv(l, s.(phase := s.phase.(at := s.phase.at + 1), disk := Write(s.disk, im.id, im)))
  {
    var s' := s.(phase := s.phase.(at := s.phase.at + 1), disk := Write(s.disk, im.id, im));
    SlotsStay(l, s.disk, s.posted, im);
    forall p | p in s.base ensures CrashedPage(s', p, s.phase.at + 1) {
      RepairedPage(s, s.posted, s.phase.at, im, p);
    }
  }

  lemma {:induction false} RepairedPage(s: State, posted: seq<Image>, at: int, im: Image, p: PageId)
    requires p in s.base && p in s.disk && im.id in s.disk && posted == s.posted && OncePerPage(posted)
    requires 0 <= at < |posted| && posted[at] == im && im.Whole? && CrashedPage(s, p, at) && s.phase.Recovering?
    ensures CrashedPage(s.(phase := s.phase.(at := at + 1), disk := Write(s.disk, im.id, im)), p, at + 1)
  {
    var s' := s.(phase := s.phase.(at := at + 1), disk := Write(s.disk, im.id, im));
    assert p != im.id ==> s'.disk[p] == s.disk[p];
    assert im in posted && im.id in Ids(posted);
  }

  lemma {:induction false} EndRecoveryInv(l: Layout, s: State)
    requires Inv(l, s) && Enabled(l, s, EndRecovery)
    ensures Inv(l, Apply(l, s, EndRecovery))
    ensures forall p :: p in s.base ==> Visible(s.disk[p]).Whole? && Surviving(s, p, Visible(s.disk[p]))
  {
    forall p | p in s.base
      ensures Visible(s.disk[p]).Whole? && Visible(s.disk[p]).id == p && Surviving(s, p, Visible(s.disk[p]))
    {
      assert CrashedPage(s, p, s.phase.at);
    }
  }

  lemma {:induction false} StepInv(l: Layout, s: State, e: Event)
    requires Inv(l, s) && Enabled(l, s, e)
    ensures Inv(l, Apply(l, s, e))
  {
    match e
    case Modify(p, c) => ModifyInv(l, s, p, c);
    case Post(p) => PostInv(l, s, p);
    case WriteBlock1 => WriteSlotsInv(l, s, e);
    case WriteBlock2 => WriteSlotsInv(l, s, e);
    case FlushSlots => FlushSlotsInv(l, s);
    case WriteInPlace => WriteInPlaceInv(l, s);
    case Complete(p) => CompleteInv(l, s, p);
    case SyncData => SyncDataInv(l, s);
    case Reuse =>
    case Crash(after) => CrashInv(l, s, after);
    case BeginRecovery => BeginRecoveryInv(l, s);
    case RecoverSlot => RecoverSlotInv(l, s);
    case EndRecovery => EndRecoveryInv(l, s);
  }

  /** Every reachable state satisfies the invariant; in particular the branch for a doublewrite
      copy that is corrupt too is never taken. */
  lemma {:induction false} RunInv(l: Layout, ss: seq<State>, es: seq<Event>, k: nat)
    requires IsRun(l, ss, es) && k <= |es|
    ensures Inv(l, ss[k]) && ss[k].phase != Fatal && ss[k].disk.Keys == ss[0].disk.Keys
  {
    if k == 0 {
      InitialInv(l, ss[0]);
    } else {
      RunInv(l, ss, es, k - 1);
      assert StepAt(l, ss, es, k - 1);
      StepInv(l, ss[k - 1], es[k - 1]);
      StepPages(l, ss[k - 1], es[k - 1]);
    }
  }

  lemma {:induction false} StepPages(l: Layout, s: State, e: Event)
    requires Enabled(l, s, e)
    ensures Apply(l, s, e).disk.Keys == s.disk.Keys
  {
  }

  lemma {:induction false} OneMore(l: Layout, ss: seq<State>, es: seq<Event>, e: Event)
    requires IsRun(l, ss, es) && Enabled(l, ss[|es|], e)
    ensures IsRun(l, ss + [Apply(l, ss[|es|], e)], es + [e])
  {
    var ss', es' := ss + [Apply(l, ss[|es|], e)], es + [e];
    forall i | 0 <= i < |es'| ensures StepAt(l, ss', es', i) {
      assert i < |es| ==> StepAt(l, ss, es, i);
    }
  }

  // ----- crash safety -----

  predicate DuringRecovery(e: Event) {
    e.Crash? || e.BeginRecovery? || e.RecoverSlot?
  }

  /** Neither crashes nor the slots of recovery change what was synced last and what is in
      flight. */
  lemma {:induction false} RecoveryKeeps(l: Layout, ss: seq<State>, es: seq<Event>, i: nat, j: nat)
    requires IsRun(l, ss, es) && i <= j <= |es| && forall k :: i <= k < j ==> DuringRecovery(es[k])
    ensures ss[j].base == ss[i].base && ss[j].posted == ss[i].posted
  {
    if i < j {
      RecoveryKeeps(l, ss, es, i, j - 1);
      assert StepAt(l, ss, es, j - 1);
      assert DuringRecovery(es[j - 1]);
      SameHistory(l, ss[j - 1], es[j - 1]);
    }
  }

  lemma {:induction false} SameHistory(l: Layout, s: State, e: Event)
    requires Enabled(l, s, e) && DuringRecovery(e)
    ensures Apply(l, s, e).base == s.base && Apply(l, s, e).posted == s.posted
  {
  }

  /** Every data page is whole and durable, with the content it has in `base` or in `posted`. */
  ghost predicate Recovered(l: Layout, d: Disk, base: map<PageId, int>, posted: seq<Image>) {
    forall p :: p in d && !IsSlot(l, p) ==>
                  p in base && d[p].pending.None? && d[p].durable.Whole? && d[p].durable.id == p &&
                  (d[p].durable.content == base[p] || d[p].durable in posted)
  }

  /** Crash safety. Take any run up to state i, then a crash and a recovery that may itself be
      cut short by further crashes and ends with event j. After it every data page is whole and
      durable, and holds what was synced last before the crash or the copy from the batch that
      was in flight. */
  lemma {:induction false} CrashSafety(l: Layout, ss: seq<State>, es: seq<Event>, i: nat, j: nat)
    requires IsRun(l, ss, es) && i <= j < |es| && es[j] == EndRecovery && forall k :: i <= k < j ==>
               DuringRecovery(es[k])
    ensures ss[j + 1].disk.Keys == ss[i].disk.Keys && Recovered(l, ss[j + 1].disk, ss[i].base, ss[i].posted)
  {
    RecoveryKeeps(l, ss, es, i, j);
    RunInv(l, ss, es, i);
    RunInv(l, ss, es, j);
    assert StepAt(l, ss, es, j);
    EndRecoveryInv(l, ss[j]);
  }

  /** Page p is in no batch whose writes are still to come or not yet synced. */
  predicate Quiet(s: State, p: PageId) {
    (s.phase.Synced? || p !in Ids(s.batch)) && p !in Ids(s.posted)
  }

  lemma {:induction false} StepQuiet(l: Layout, s: State, e: Event, im: Image)
    requires Holds(l, s, im) && Enabled(l, s, e) && e != Post(im.id)
    ensures Holds(l, Apply(l, s, e), im)
  {
    StepInv(l, s, e);
    if e.SyncData? {
      UpdatedAt(s.base, s.batch, im.id);
    } else if e.EndRecovery? {
      QuietPage(l, s, im.id);
      QuietEnd(l, s, im.id);
    } else {
      QuietElse(l, s, e, im.id);
    }
  }

  lemma {:induction false} QuietEnd(l: Layout, s: State, p: PageId)
    requires Enabled(l, s, EndRecovery) && Quiet(s, p) && p in s.disk && !IsSlot(l, p) && Visible(s.disk[p]).Whole?
    ensures var s' := Apply(l, s, EndRecovery);
            Quiet(s', p) && p in s'.base && s'.base[p] == Visible(s.disk[p]).content
  {
  }

  lemma {:induction false} QuietElse(l: Layout, s: State, e: Event, p: PageId)
    requires Enabled(l, s, e) && Quiet(s, p) && e != Post(p) && !e.SyncData? && !e.EndRecovery?
    ensures Quiet(Apply(l, s, e), p) && Apply(l, s, e).base == s.base
  {
  }

  /** Page image im is the one synced last for its page, and the page is quiet. */
  ghost predicate Holds(l: Layout, s: State, im: Image) {
    Inv(l, s) && Quiet(s, im.id) && im.Whole? && im.id in s.base && s.base[im.id] == im.content
  }

  lemma {:induction false} QuietPage(l: Layout, s: State, p: PageId)
    requires Inv(l, s) && p in s.base && Quiet(s, p)
    ensures s.disk[p] == Cell(Whole(p, s.base[p]), None)
  {
    var at := if s.phase.Recovering? then s.phase.at else 0;
    assert if Running(s.phase) then SafePage(s, p) else CrashedPage(s, p, at);
    assert forall im :: im in s.posted ==> im.id in Ids(s.posted);
  }

  /** A page that was synced with its batch keeps that content, through any number of crashes
      and recoveries, until it is posted again; its place on disk is never even torn. */
  lemma {:induction false} SyncedStays(l: Layout, ss: seq<State>, es: seq<Event>, i: nat, j: nat, im: Image)
    requires IsRun(l, ss, es) && i < j <= |es| && es[i] == SyncData && im in ss[i].batch
    requires forall k :: i < k < j ==> es[k] != Post(im.id)
    ensures im.id in ss[j].disk && ss[j].disk[im.id] == Cell(im, None)
  {
    SyncedHolds(l, ss, es, i, j, im);
    QuietPage(l, ss[j], im.id);
  }

  lemma {:induction false} SyncedHolds(l: Layout, ss: seq<State>, es: seq<Event>, i: nat, j: nat, im: Image)
    requires IsRun(l, ss, es) && i < j <= |es| && es[i] == SyncData && im in ss[i].batch
    requires forall k :: i < k < j ==> es[k] != Post(im.id)
    ensures Holds(l, ss[j], im)
  {
    assert StepAt(l, ss, es, j - 1);
    if j == i + 1 {
      RunInv(l, ss, es, i);
      SyncedNow(l, ss[i], im);
    } else {
      SyncedHolds(l, ss, es, i, j - 1, im);
      StepQuiet(l, ss[j - 1], es[j - 1], im);
    }
  }

  lemma {:induction false} SyncedNow(l: Layout, s: State, im: Image)
    requires Inv(l, s) && Enabled(l, s, SyncData) && im in s.batch
    ensures Holds(l, Apply(l, s, SyncData), im)
  {
    SyncDataInv(l, s);
    UpdatedAt(s.base, s.batch, im.id);
  }

  /** Slots left over from an earlier, longer batch never win: whenever recovery stands in front
      of a torn page, the first slot of all that claims the page belongs to the batch in flight,
      is still to come, and holds its whole copy. */
  lemma {:induction false} NewestCopyFirst(l: Layout, ss: seq<State>, es: seq<Event>, n: nat, p: PageId)
    requires IsRun(l, ss, es) && n <= |es| && ss[n].phase.Recovering?
    requires p in ss[n].disk && !IsSlot(l, p) && Visible(ss[n].disk[p]).Torn?
    ensures var t := ss[n];
            exists k :: 0 <= t.phase.at <= k < |t.posted| <= |t.phase.buf| && IsFirstCopy(t, k, p)
  {
    RunInv(l, ss, es, n);
    TornHasCopy(l, ss[n], p);
  }

  /** Slot k holds the copy of page p from the batch in flight, and no slot before it claims p. */
  ghost predicate IsFirstCopy(t: State, k: int, p: PageId)
    requires t.phase.Recovering? && 0 <= k < |t.posted| <= |t.phase.buf|
  {
    t.phase.buf[k] == t.posted[k] && t.posted[k].Whole? && t.posted[k].id == p &&
    forall j :: 0 <= j < k ==> t.phase.buf[j].id != p
  }

  lemma {:induction false} TornHasCopy(l: Layout, t: State, p: PageId)
    requires Inv(l, t) && t.phase.Recovering? && p in t.base && Visible(t.disk[p]).Torn?
    ensures exists k :: 0 <= t.phase.at <= k < |t.posted| <= |t.phase.buf| && IsFirstCopy(t, k, p)
  {
    assert CrashedPage(t, p, t.phase.at);
    var k :| 0 <= k && t.phase.at <= k < |t.posted| && t.posted[k].id == p;
    assert t.posted[k] in t.posted;
    forall j | 0 <= j < k ensures t.phase.buf[j].id != p {
      assert t.phase.buf[j] == t.posted[j];
    }
    assert IsFirstCopy(t, k, p);
  }
}
