/** What the doublewrite code does to the data files: the writes and flushes that the steps of the
    protocol issue, and what they leave wherever they are cut short. */
module DoublewriteIo {
  import opened Doublewrite
  import opened Common

  // ----- operations on the files -----

  /** A write of images to consecutive pages, an fsync of one tablespace, an fsync of all. */
  datatype Op = WriteRun(from: PageId, images: seq<Image>) | FlushSpace(space: int) | FlushAll

  function Effect(d: Disk, op: Op): (r: Disk)
    ensures r.Keys == d.Keys
  {
    match op
    case WriteRun(from, images) =>
      map p | p in d :: if p.space == from.space && 0 <= p.no - from.no < |images|
                        then d[p].(pending := Some(images[p.no - from.no])) else d[p]
    case FlushSpace(space) => map p | p in d :: if p.space == space then Cell(Visible(d[p]), None) else d[p]
    case FlushAll => Settle(d)
  }

  function Replay(d: Disk, io: seq<Op>): (r: Disk)
    ensures r.Keys == d.Keys
  {
    if io == [] then d else Effect(Replay(d, io[..|io| - 1]), io[|io| - 1])
  }

  /** What a step of the protocol issues. */
  function OpsOf(l: Layout, s: State, e: Event): (ops: seq<Op>)
    requires Enabled(l, s, e)
    ensures |ops| <= 1
  {
    match e
    case WriteBlock1 => [WriteRun(SlotPage(l, 0), s.batch[..if |s.batch| < BLOCK_SIZE then |s.batch| else BLOCK_SIZE])]
    case WriteBlock2 => [WriteRun(SlotPage(l, BLOCK_SIZE), s.batch[BLOCK_SIZE..])]
    case FlushSlots => [FlushSpace(SYS_TABLESPACE)]
    case WriteInPlace =>
      var p := s.batch[s.phase.next].id;
      [WriteRun(p, [Whole(p, s.frames[p])])]
    case SyncData => [FlushAll]
    case RecoverSlot =>
      var im := s.phase.buf[s.phase.at];
      if NeedsCopy(l, s.disk, im) && im.Whole? then [WriteRun(im.id, [im])] else []
    case EndRecovery => [FlushAll]
    case _ => []
  }

  /** The page that a slot claims is a data page, and torn. */
  predicate NeedsCopy(l: Layout, d: Disk, im: Image) {
    im.id in d && !IsSlot(l, im.id) && Visible(d[im.id]).Torn?
  }

  lemma {:induction false} ReplayOne(d: Disk, io: seq<Op>, op: Op)
    ensures Replay(d, io + [op]) == Effect(Replay(d, io), op)
  {
    assert (io + [op])[..|io|] == io;
  }

  lemma {:induction false} OnePageRun(d: Disk, p: PageId, im: Image)
    requires p in d
    ensures Effect(d, WriteRun(p, [im])) == Write(d, p, im)
  {
    forall q | q in d ensures Effect(d, WriteRun(p, [im]))[q] == Write(d, p, im)[q] {
      assert q.space == p.space && q.no - p.no == 0 ==> q == p;
    }
  }

  /** A run over a block writes just its slots. */
  lemma {:induction false} BlockRun(l: Layout, d: Disk, batch: seq<Image>, lo: int, hi: int)
    requires Apart(l) && 0 <= lo <= hi <= |batch| <= SLOTS && if lo == 0 then hi <= BLOCK_SIZE else lo == BLOCK_SIZE
    ensures Effect(d, WriteRun(SlotPage(l, lo), batch[lo..hi])) == WriteSlots(l, d, batch, lo, hi)
  {
  }

  /** With nothing pending outside the system tablespace, its flush makes everything durable. */
  lemma {:induction false} SystemFlush(l: Layout, s: State)
    requires Inv(l, s) && Enabled(l, s, FlushSlots)
    ensures Effect(s.disk, FlushSpace(SYS_TABLESPACE)) == Settle(s.disk)
  {
    forall p | p in s.disk && p.space != SYS_TABLESPACE ensures s.disk[p].pending == None {
      assert SafePage(s, p);
    }
  }

  /** The operations of a step do to the files what the step does to the disk. */
  lemma {:induction false} StepEffect(l: Layout, s: State, e: Event)
    requires Inv(l, s) && Enabled(l, s, e) && !e.Crash?
    ensures Replay(s.disk, OpsOf(l, s, e)) == Apply(l, s, e).disk
  {
    match e
    case WriteBlock1 => BlockEffect(l, s, e, 0, if |s.batch| < BLOCK_SIZE then |s.batch| else BLOCK_SIZE);
    case WriteBlock2 => BlockEffect(l, s, e, BLOCK_SIZE, |s.batch|);
    case FlushSlots =>
      SystemFlush(l, s);
      OneOp(s.disk, FlushSpace(SYS_TABLESPACE));
    case WriteInPlace => PlaceEffect(l, s);
    case SyncData => OneOp(s.disk, FlushAll);
    case RecoverSlot => SlotEffect(l, s);
    case EndRecovery => OneOp(s.disk, FlushAll);
    case _ => NoEffect(l, s, e);
  }

  lemma {:induction false} OneOp(d: Disk, op: Op)
    ensures Replay(d, [op]) == Effect(d, op)
  {
    assert [op] == [] + [op];
    ReplayOne(d, [], op);
  }

  lemma {:induction false} NoEffect(l: Layout, s: State, e: Event)
    requires Enabled(l, s, e) && (e.Modify? || e.Post? || e.Complete? || e.Reuse? || e.BeginRecovery?)
    ensures OpsOf(l, s, e) == [] && Apply(l, s, e).disk == s.disk
  {
  }

  lemma {:induction false} BlockEffect(l: Layout, s: State, e: Event, lo: int, hi: int)
    requires Inv(l, s) && Enabled(l, s, e) && 0 <= lo <= hi <= |s.batch|
    requires if e.WriteBlock1? then lo == 0 && hi == (if |s.batch| < BLOCK_SIZE then |s.batch| else BLOCK_SIZE)
             else e.WriteBlock2? && lo == BLOCK_SIZE && hi == |s.batch|
    ensures Replay(s.disk, OpsOf(l, s, e)) == Apply(l, s, e).disk
  {
    BlockRun(l, s.disk, s.batch, lo, hi);
    assert s.batch[lo..hi] == if lo == 0 then s.batch[..hi] else s.batch[lo..];
    OneOp(s.disk, WriteRun(SlotPage(l, lo), s.batch[lo..hi]));
  }

  lemma {:induction false} PlaceEffect(l: Layout, s: State)
    requires Inv(l, s) && Enabled(l, s, WriteInPlace)
    ensures Replay(s.disk, OpsOf(l, s, WriteInPlace)) == Apply(l, s, WriteInPlace).disk
  {
    var im := s.batch[s.phase.next];
    assert im in s.batch && im.id in s.base;
    OnePageRun(s.disk, im.id, Whole(im.id, s.frames[im.id]));
    OneOp(s.disk, WriteRun(im.id, [Whole(im.id, s.frames[im.id])]));
  }

  lemma {:induction false} SlotEffect(l: Layout, s: State)
    requires Enabled(l, s, RecoverSlot)
    ensures Replay(s.disk, OpsOf(l, s, RecoverSlot)) == Apply(l, s, RecoverSlot).disk
  {
    var im := s.phase.buf[s.phase.at];
    RecoverCases(l, s);
    if NeedsCopy(l, s.disk, im) && im.Whole? {
      OnePageRun(s.disk, im.id, im);
      OneOp(s.disk, WriteRun(im.id, [im]));
    }
  }

  // ----- the operations of a run -----

  function Join(parts: seq<seq<Op>>): seq<Op> {
    if parts == [] then [] else Join(parts[..|parts| - 1]) + parts[|parts| - 1]
  }

  /** What was issued with the events of one process, which started in state `from` of the run. */
  ghost predicate IsIssued(l: Layout, ss: seq<State>, es: seq<Event>, from: nat, issued: seq<seq<Op>>) {
    |ss| == |es| + 1 && from + |issued| == |es| &&
    forall i :: 0 <= i < |issued| ==> IssuedAt(l, ss, es, from, issued, i)
  }

  ghost predicate IssuedAt(l: Layout, ss: seq<State>, es: seq<Event>, from: nat, issued: seq<seq<Op>>, i: nat) {
    i < |issued| && from + i < |es| < |ss| && Enabled(l, ss[from + i], es[from + i]) && !es[from + i].Crash? &&
    issued[i] == OpsOf(l, ss[from + i], es[from + i])
  }

  lemma {:induction false} ReplayConcat(d: Disk, a: seq<Op>, b: seq<Op>)
    requires |b| <= 1
    ensures Replay(d, a + b) == Replay(Replay(d, a), b)
  {
    if b == [] {
      assert a + b == a;
    } else {
      assert b == [] + [b[0]];
      ReplayOne(d, a, b[0]);
      ReplayOne(Replay(d, a), [], b[0]);
    }
  }

  lemma {:induction false} NthEffect(l: Layout, ss: seq<State>, es: seq<Event>, n: nat)
    requires IsRun(l, ss, es) && n < |es| && Enabled(l, ss[n], es[n]) && !es[n].Crash?
    ensures Replay(ss[n].disk, OpsOf(l, ss[n], es[n])) == ss[n + 1].disk
  {
    assert StepAt(l, ss, es, n);
    RunInv(l, ss, es, n);
    StepEffect(l, ss[n], es[n]);
  }

  /** The operations leave the files as the run says, */
  lemma {:induction false} IssuedReplays(l: Layout, ss: seq<State>, es: seq<Event>, from: nat, issued: seq<seq<Op>>,
                                         n: nat)
    requires IsRun(l, ss, es) && IsIssued(l, ss, es, from, issued) && n <= |issued|
    ensures Replay(ss[from].disk, Join(issued[..n])) == ss[from + n].disk
  {
    if n > 0 {
      IssuedReplays(l, ss, es, from, issued, n - 1);
      assert issued[..n][..n - 1] == issued[..n - 1];
      assert IssuedAt(l, ss, es, from, issued, n - 1);
      NthEffect(l, ss, es, from + n - 1);
      ReplayConcat(ss[from].disk, Join(issued[..n - 1]), issued[n - 1]);
    }
  }

  /** and so does any part of them: after k operations, not fewer than the first m events issued,
      the files are as in one of the states since. */
  lemma {:induction false} IssuedCut(l: Layout, ss: seq<State>, es: seq<Event>, from: nat, issued: seq<seq<Op>>,
                                     m: nat, n: nat, k: nat)
    requires IsRun(l, ss, es) && IsIssued(l, ss, es, from, issued) && m <= n <= |issued|
    requires |Join(issued[..m])| <= k <= |Join(issued[..n])|
    ensures IsCutAt(Replay(ss[from].disk, Join(issued[..n])[..k]), ss, from + m)
  {
    var io := Join(issued[..n]);
    if k == |io| {
      IssuedReplays(l, ss, es, from, issued, n);
      assert io[..k] == io;
    } else {
      assert issued[..n][..n - 1] == issued[..n - 1];
      assert IssuedAt(l, ss, es, from, issued, n - 1);
      IssuedCut(l, ss, es, from, issued, m, n - 1, k);
      assert Join(issued[..n - 1])[..k] == io[..k];
    }
  }

  lemma {:induction false} JoinGrows(issued: seq<seq<Op>>, m: nat)
    requires m <= |issued|
    ensures Join(issued[..m]) <= Join(issued)
  {
    if m == |issued| {
      assert issued[..m] == issued;
    } else {
      assert issued[..|issued| - 1][..m] == issued[..m];
      JoinGrows(issued[..|issued| - 1], m);
    }
  }

  /** The files are as in a state of the run, number m0 or later. */
  ghost predicate IsCutAt(d: Disk, ss: seq<State>, m0: nat) {
    exists m :: m0 <= m < |ss| && ss[m].disk == d
  }

  /** What a crash may leave of such files it may leave in a run that ends there, so crash safety
      holds of it. */
  lemma {:induction false} CrashAtCut(l: Layout, ss: seq<State>, es: seq<Event>, d: Disk, m0: nat,
                                      after: map<PageId, Image>)
    requires IsRun(l, ss, es) && IsCutAt(d, ss, m0)
    requires after.Keys == d.Keys && forall p :: p in after ==> CrashLeaves(d[p], after[p])
    ensures exists m :: m0 <= m < |ss| && ss[m].disk == d && EndsInCrash(l, ss, es, m, after)
  {
    var m :| m0 <= m < |ss| && ss[m].disk == d;
    var ss', es' := ss[..m + 1], es[..m];
    forall i | 0 <= i < m ensures StepAt(l, ss', es', i) {
      assert StepAt(l, ss, es, i);
    }
    OneMore(l, ss', es', Crash(after));
    assert EndsInCrash(l, ss, es, m, after);
  }

  /** The run up to state m, and then that crash. */
  ghost predicate EndsInCrash(l: Layout, ss: seq<State>, es: seq<Event>, m: nat, after: map<PageId, Image>) {
    m < |ss| && m <= |es| && Enabled(l, ss[m], Crash(after)) &&
    IsRun(l, ss[..m + 1] + [Apply(l, ss[m], Crash(after))], es[..m] + [Crash(after)])
  }

  // ----- a process -----

  /** The steps of a process: the run of the protocol, in whose state `from` it started on the given
      files, what each event since then issued, and all that together. */
  datatype Run = Run(l: Layout, files: Disk, from: int, ss: seq<State>, es: seq<Event>, issued: seq<seq<Op>>,
                     io: seq<Op>)

  ghost predicate RunOk(r: Run) {
    r.from >= 0 && IsRun(r.l, r.ss, r.es) && IsIssued(r.l, r.ss, r.es, r.from, r.issued) &&
    r.ss[r.from].disk == r.files && r.io == Join(r.issued)
  }

  /** Where it stands. */
  ghost function At(r: Run): State
    requires |r.ss| > 0
  {
    r.ss[|r.ss| - 1]
  }

  /** The process has gone on. */
  ghost predicate GoesOn(r: Run, r': Run) {
    r'.l == r.l && r'.files == r.files && r'.from == r.from && r.ss <= r'.ss && r.es <= r'.es && r.issued <= r'.issued
  }

  /** It has taken one step, which issued the operations and led to state s. */
  ghost predicate Stepped(r: Run, ops: seq<Op>, r': Run, s: State) {
    RunOk(r') && GoesOn(r, r') && r'.ss == r.ss + [s] && r'.io == r.io + ops && |r.ss| > 0 &&
    s.disk == Replay(At(r).disk, ops)
  }

  ghost function Start(l: Layout, ss: seq<State>, es: seq<Event>): Run
    requires IsRun(l, ss, es)
  {
    Run(l, ss[|es|].disk, |es|, ss, es, [], [])
  }

  lemma {:induction false} Step(r: Run, e: Event) returns (r': Run)
    requires RunOk(r) && Enabled(r.l, At(r), e) && !e.Crash?
    ensures Stepped(r, OpsOf(r.l, At(r), e), r', Apply(r.l, At(r), e))
  {
    OneMore(r.l, r.ss, r.es, e);
    NthEffectNow(r.l, r.ss, r.es, e);
    var ops, s' := OpsOf(r.l, At(r), e), Apply(r.l, At(r), e);
    r' := r.(ss := r.ss + [s'], es := r.es + [e], issued := r.issued + [ops], io := r.io + ops);
    assert r'.issued[..|r.issued|] == r.issued;
    forall i | 0 <= i < |r'.issued| ensures IssuedAt(r'.l, r'.ss, r'.es, r'.from, r'.issued, i) {
      assert i < |r.issued| ==> IssuedAt(r.l, r.ss, r.es, r.from, r.issued, i);
    }
  }

  lemma {:induction false} NthEffectNow(l: Layout, ss: seq<State>, es: seq<Event>, e: Event)
    requires IsRun(l, ss, es) && Enabled(l, ss[|es|], e) && !e.Crash?
    ensures Replay(ss[|es|].disk, OpsOf(l, ss[|es|], e)) == Apply(l, ss[|es|], e).disk
  {
    RunInv(l, ss, es, |es|);
    StepEffect(l, ss[|es|], e);
  }

  /** Wherever the work since a run is cut short, the files are as in a state that was reached since. */
  lemma {:induction false} Cuts(r: Run, r': Run)
    requires RunOk(r) && RunOk(r') && GoesOn(r, r')
    ensures r.io <= r'.io && At(r').disk == Replay(r'.files, r'.io)
    ensures forall k :: |r.io| <= k <= |r'.io| ==> IsCutAt(Replay(r'.files, r'.io[..k]), r'.ss, |r.es|)
  {
    RunGrows(r, r');
    forall k | |r.io| <= k <= |r'.io| ensures IsCutAt(Replay(r'.files, r'.io[..k]), r'.ss, |r.es|) {
      CutAt(r, r', k);
    }
  }

  lemma {:induction false} RunGrows(r: Run, r': Run)
    requires RunOk(r) && RunOk(r') && GoesOn(r, r')
    ensures r.io <= r'.io && At(r').disk == Replay(r'.files, r'.io)
  {
    var m, n := |r.issued|, |r'.issued|;
    assert r'.issued[..n] == r'.issued && r'.issued[..m] == r.issued;
    IssuedReplays(r'.l, r'.ss, r'.es, r'.from, r'.issued, n);
    JoinGrows(r'.issued, m);
  }

  lemma {:induction false} CutAt(r: Run, r': Run, k: nat)
    requires RunOk(r) && RunOk(r') && GoesOn(r, r') && |r.io| <= k <= |r'.io|
    ensures IsCutAt(Replay(r'.files, r'.io[..k]), r'.ss, |r.es|)
  {
    var m, n := |r.issued|, |r'.issued|;
    assert r'.issued[..n] == r'.issued && r'.issued[..m] == r.issued;
    IssuedCut(r'.l, r'.ss, r'.es, r'.from, r'.issued, m, n, k);
  }

  // ----- what a batch issues -----

  /** The copies to one block or two, the flush of these, each page to its place, the flush of all. */
  function BatchOps(l: Layout, batch: seq<Image>): seq<Op> {
    BlockOps(l, batch) + [FlushSpace(SYS_TABLESPACE)] + PageOps(batch) + [FlushAll]
  }

  function BlockOps(l: Layout, batch: seq<Image>): seq<Op> {
    if |batch| <= BLOCK_SIZE then [WriteRun(SlotPage(l, 0), batch)]
    else [WriteRun(SlotPage(l, 0), batch[..BLOCK_SIZE]), WriteRun(SlotPage(l, BLOCK_SIZE), batch[BLOCK_SIZE..])]
  }

  lemma {:induction false} BlockOpsAre(l: Layout, batch: seq<Image>, buf: seq<Image>)
    requires batch <= buf && |batch| <= SLOTS
    ensures BlockOps(l, batch) == [WriteRun(SlotPage(l, 0),
                                            buf[..if |batch| < BLOCK_SIZE then |batch| else BLOCK_SIZE])] +
              if |batch| > BLOCK_SIZE then [WriteRun(SlotPage(l, BLOCK_SIZE), buf[BLOCK_SIZE..|batch|])] else []
  {
    if |batch| > BLOCK_SIZE {
      assert batch[..BLOCK_SIZE] == buf[..BLOCK_SIZE] && batch[BLOCK_SIZE..] == buf[BLOCK_SIZE..|batch|];
    } else {
      assert buf[..|batch|] == batch;
    }
  }

  lemma {:induction false} PageOpsNext(batch: seq<Image>, i: nat)
    requires i < |batch|
    ensures PageOps(batch[..i + 1]) == PageOps(batch[..i]) + [WriteRun(batch[i].id, [batch[i]])]
  {
  }

  lemma {:induction false} BatchOpsAre(l: Layout, batch: seq<Image>, io: seq<Op>)
    ensures io + BlockOps(l, batch) + [FlushSpace(SYS_TABLESPACE)] + PageOps(batch) + [FlushAll]
         == io + BatchOps(l, batch)
  {
  }

  function PageOps(batch: seq<Image>): (ops: seq<Op>)
    ensures |ops| == |batch|
  {
    seq(|batch|, i requires 0 <= i < |batch| => WriteRun(batch[i].id, [batch[i]]))
  }

  // ----- the steps, one by one -----

  lemma {:induction false} PostStep(r: Run, p: PageId) returns (r': Run)
    requires RunOk(r) && At(r).phase == Filling && |At(r).batch| < SLOTS && p in At(r).frames && p !in At(r).latched
    ensures var s := At(r);
            Stepped(r, [], r', s.(batch := s.batch + [Whole(p, s.frames[p])], latched := s.latched + {p}))
  {
    r' := Step(r, Post(p));
  }

  lemma {:induction false} Block1Step(r: Run) returns (r': Run)
    requires RunOk(r) && At(r).phase == Filling && At(r).batch != []
    ensures var s := At(r);
            var op := WriteRun(SlotPage(r.l, 0), s.batch[..if |s.batch| < BLOCK_SIZE then |s.batch| else BLOCK_SIZE]);
            Stepped(r, [op], r', s.(disk := Replay(s.disk, [op]), phase := Block1Written))
  {
    r' := Step(r, WriteBlock1);
  }

  lemma {:induction false} Block2Step(r: Run) returns (r': Run)
    requires RunOk(r) && At(r).phase == Block1Written && |At(r).batch| > BLOCK_SIZE
    ensures var s := At(r);
            var op := WriteRun(SlotPage(r.l, BLOCK_SIZE), s.batch[BLOCK_SIZE..]);
            Stepped(r, [op], r', s.(disk := Replay(s.disk, [op]), phase := Block2Written))
  {
    r' := Step(r, WriteBlock2);
  }

  lemma {:induction false} FlushStep(r: Run) returns (r': Run)
    requires RunOk(r)
    requires At(r).phase == Block2Written || (At(r).phase == Block1Written && |At(r).batch| <= BLOCK_SIZE)
    ensures var s := At(r);
            var op := FlushSpace(SYS_TABLESPACE);
            Stepped(r, [op], r', s.(disk := Replay(s.disk, [op]), phase := InPlace(0), posted := s.batch))
  {
    r' := Step(r, FlushSlots);
  }

  /** The frames of the batch are there to be written. */
  lemma {:induction false} PlaceStep(r: Run) returns (r': Run)
    requires RunOk(r) && At(r).phase.InPlace? && 0 <= At(r).phase.next < |At(r).batch|
    ensures var s := At(r);
            var p := s.batch[s.phase.next].id;
            p in s.frames && Whole(p, s.frames[p]) == s.batch[s.phase.next] &&
            var op := WriteRun(p, [Whole(p, s.frames[p])]);
            Stepped(r, [op], r', s.(disk := Replay(s.disk, [op]), phase := InPlace(s.phase.next + 1)))
  {
    BatchFrames(r.l, r.ss, r.es);
    r' := Step(r, WriteInPlace);
  }

  lemma {:induction false} SyncStep(r: Run) returns (r': Run)
    requires RunOk(r) && At(r).phase == InPlace(|At(r).batch|)
    ensures var s := At(r);
            Stepped(r, [FlushAll], r', s.(disk := Replay(s.disk, [FlushAll]), latched := s.latched - Ids(s.batch),
                                          phase := Synced, base := Updated(s.base, s.batch), posted := []))
    ensures At(r').disk == Settle(At(r).disk)
  {
    r' := Step(r, SyncData);
  }

  lemma {:induction false} ReuseStep(r: Run) returns (r': Run)
    requires RunOk(r) && At(r).phase == Synced
    ensures Stepped(r, [], r', At(r).(batch := [], phase := Filling))
  {
    r' := Step(r, Reuse);
  }

  lemma {:induction false} BeginStep(r: Run) returns (r': Run)
    requires RunOk(r) && At(r).phase == Down
    ensures forall i :: 0 <= i < SLOTS ==> SlotPage(r.l, i) in At(r).disk
    ensures Stepped(r, [], r', At(r).(phase := Recovering(0, ReadSlots(r.l, At(r).disk))))
  {
    RunInv(r.l, r.ss, r.es, |r.es|);
    r' := Step(r, BeginRecovery);
  }

  /** The branch for a copy that is corrupt too is never taken. */
  lemma {:induction false} SlotStep(r: Run) returns (r': Run)
    requires RunOk(r) && At(r).phase.Recovering? && 0 <= At(r).phase.at < |At(r).phase.buf| == SLOTS
    ensures var s := At(r);
            var im := s.phase.buf[s.phase.at];
            var ops := if NeedsCopy(r.l, s.disk, im) then [WriteRun(im.id, [im])] else [];
            (NeedsCopy(r.l, s.disk, im) ==> im.Whole?) &&
            Stepped(r, ops, r', s.(disk := Replay(s.disk, ops), phase := Recovering(s.phase.at + 1, s.phase.buf)))
  {
    CopyIsWhole(r.l, r.ss, r.es);
    RecoverCases(r.l, At(r));
    r' := Step(r, RecoverSlot);
  }

  lemma {:induction false} EndStep(r: Run) returns (r': Run)
    requires RunOk(r) && At(r).phase.Recovering? && At(r).phase.at == SLOTS
    ensures |r'.ss| > 0 && Stepped(r, [FlushAll], r', At(r'))
    ensures var s, s' := At(r), At(r');
            s'.phase == Filling && s'.batch == s.batch && s'.frames == Contents(r.l, s.disk) &&
            Recovered(r.l, s'.disk, s.base, s.posted)
  {
    r' := Step(r, EndRecovery);
    AllRecovered(r.l, r.ss, r.es);
  }

  /** A page that is still to be written has not changed since its copy was made. */
  lemma {:induction false} BatchFrames(l: Layout, ss: seq<State>, es: seq<Event>)
    requires IsRun(l, ss, es)
    ensures var t := ss[|es|];
            t.phase.InPlace? && 0 <= t.phase.next < |t.batch| ==>
              var im := t.batch[t.phase.next];
              im.id in t.frames && im == Whole(im.id, t.frames[im.id])
  {
    RunInv(l, ss, es, |es|);
  }

  /** The branch of recover_pages for a copy that is corrupt too is never taken. */
  lemma {:induction false} CopyIsWhole(l: Layout, ss: seq<State>, es: seq<Event>)
    requires IsRun(l, ss, es)
    ensures var t := ss[|es|];
            t.phase.Recovering? && 0 <= t.phase.at < |t.phase.buf| ==>
              var im := t.phase.buf[t.phase.at];
              im.id in t.disk && !IsSlot(l, im.id) && Visible(t.disk[im.id]).Torn? ==> im.Whole?
  {
    RunInv(l, ss, es, |es|);
    var t := ss[|es|];
    if t.phase.Recovering? && 0 <= t.phase.at < |t.phase.buf| {
      var im := t.phase.buf[t.phase.at];
      if im.id in t.disk && !IsSlot(l, im.id) && Visible(t.disk[im.id]).Torn? {
        TornPage(l, t, im.id);
      }
    }
  }

  lemma {:induction false} AllRecovered(l: Layout, ss: seq<State>, es: seq<Event>)
    requires IsRun(l, ss, es) && Enabled(l, ss[|es|], EndRecovery)
    ensures var t, s' := ss[|es|], Apply(l, ss[|es|], EndRecovery);
            Recovered(l, s'.disk, t.base, t.posted) && s'.frames == Contents(l, t.disk) && s'.batch == t.batch &&
            s'.phase == Filling
  {
    RunInv(l, ss, es, |es|);
    EndRecoveryInv(l, ss[|es|]);
  }

  /** Every page of the batch is durable in its own place, and no other data page changed. */
  ghost predicate BatchWritten(l: Layout, batch: seq<Image>, before: Disk, after: Disk) {
    && after.Keys == before.Keys
    && (forall i :: 0 <= i < |batch| ==> batch[i].id in after && after[batch[i].id] == Cell(batch[i], None))
    && forall p :: p in after && !IsSlot(l, p) && p !in Ids(batch) ==> after[p] == before[p]
  }

  /** From the posting of a batch, in state k, to the sync of the data files in the last one. */
  lemma {:induction false} BatchSynced(l: Layout, ss: seq<State>, es: seq<Event>, k: nat)
    requires IsRun(l, ss, es) && k <= |es|
    requires var first, last := ss[k], ss[|es|];
             first.phase == Filling && last.phase == InPlace(|last.batch|) && last.batch == first.batch &&
               last.base == first.base
    ensures BatchWritten(l, ss[k].batch, ss[k].disk, Settle(ss[|es|].disk))
  {
    RunInv(l, ss, es, k);
    RunInv(l, ss, es, |es|);
    var first, last := ss[k], ss[|es|];
    forall i | 0 <= i < |first.batch|
      ensures first.batch[i].id in last.disk && Settle(last.disk)[first.batch[i].id] == Cell(first.batch[i], None)
    {
      SyncedCopy(l, last, first.batch[i]);
    }
    forall p | p in first.disk && !IsSlot(l, p) && p !in Ids(first.batch)
      ensures Settle(last.disk)[p] == first.disk[p]
    {
      QuietPage(l, first, p);
      QuietPage(l, last, p);
    }
  }

  lemma {:induction false} SyncedCopy(l: Layout, last: State, im: Image)
    requires Inv(l, last) && Enabled(l, last, SyncData) && im in last.batch
    ensures im.id in last.disk && Settle(last.disk)[im.id] == Cell(im, None)
  {
    SyncedNow(l, last, im);
    QuietPage(l, Apply(l, last, SyncData), im.id);
  }
}
