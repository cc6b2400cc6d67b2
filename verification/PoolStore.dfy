/** The buffer pool over a disk that is written through the doublewrite buffer: pages are read,
    changed, written and evicted while batches are under way, and the process may crash at any
    point, also during recovery. Together they are a flat store of pages: a read gives what was
    written last, and a crash loses only changes that were not synced. */
module PoolStore {
  import opened Common
  import opened Doublewrite

  /** The protocol with its disk and frames; the pages that are in the pool, and those of them
      that are on the flush list. `store` is history: what was written last to each page. The
      frame of a page that is not in the pool means nothing. */
  datatype Cache = Cache(dw: State, cached: set<PageId>, dirty: set<PageId>, store: map<PageId, int>)

  datatype Step =
    | Change(p: PageId, content: int)   // the holder of the x-latch changes a page in the pool
    | Read(p: PageId)                   // a page is read into the pool
    | Evict(p: PageId)                  // free_block
    | Protocol(e: Event)

  /** What a read of a page gives; that it is not torn is proved. */
  function ReadFrom(d: Disk, p: PageId): int {
    if p in d && Visible(d[p]).Whole? then Visible(d[p]).content else 0
  }

  predicate Can(l: Layout, c: Cache, x: Step) {
    match x
    case Change(p, v) => p in c.cached && Enabled(l, c.dw, Modify(p, v))
    case Read(p) => p !in c.cached && Enabled(l, c.dw, Modify(p, ReadFrom(c.dw.disk, p)))
    case Evict(p) => Running(c.dw.phase) && p in c.cached && p !in c.dw.latched && p !in c.dirty
    case Protocol(e) => Enabled(l, c.dw, e) && !e.Modify? && (e.Post? ==> e.p in c.dirty)
  }

  /** A page leaves the flush list when its write is reported complete, at the latest with the
      sync of its batch. */
  function Take(l: Layout, c: Cache, x: Step): Cache
    requires Can(l, c, x)
  {
    match x
    case Change(p, v) => Cache(Apply(l, c.dw, Modify(p, v)), c.cached, c.dirty + {p}, c.store[p := v])
    case Read(p) => c.(dw := Apply(l, c.dw, Modify(p, ReadFrom(c.dw.disk, p))), cached := c.cached + {p})
    case Evict(p) => c.(cached := c.cached - {p})
    case Protocol(e) =>
      var t := Apply(l, c.dw, e);
      match e {
        case Complete(p) => c.(dw := t, dirty := c.dirty - {p})
        case SyncData => c.(dw := t, dirty := c.dirty - Ids(c.dw.batch) * c.dw.latched)
        case Crash(_) => c.(dw := t, cached := {}, dirty := {})
        case EndRecovery => Cache(t, {}, {}, t.base)
        case _ => c.(dw := t)
      }
  }

  /** An empty pool over a data base that was shut down cleanly. */
  ghost predicate Starts(l: Layout, c: Cache) {
    Initial(l, c.dw) && c.cached == {} && c.dirty == {} && c.store == c.dw.base
  }

  ghost predicate IsCacheRun(l: Layout, cs: seq<Cache>, xs: seq<Step>) {
    |cs| == |xs| + 1 && Starts(l, cs[0]) && forall i :: 0 <= i < |xs| ==> CacheStep(l, cs, xs, i)
  }

  ghost predicate CacheStep(l: Layout, cs: seq<Cache>, xs: seq<Step>, i: nat) {
    i < |xs| && i + 1 < |cs| && Can(l, cs[i], xs[i]) && cs[i + 1] == Take(l, cs[i], xs[i])
  }

  // ----- the invariant -----

  /** A page in the pool has the stored content in its frame, a page that is not modified there
      has it on disk. */
  ghost predicate PageHolds(c: Cache, p: PageId) {
    p in c.store && p in c.dw.frames && p in c.dw.disk &&
    (p in c.cached ==> c.dw.frames[p] == c.store[p]) &&
    (p !in c.dirty ==> Visible(c.dw.disk[p]) == Whole(p, c.store[p]))
  }

  /** A page that is latched for a write has not changed since it was posted. */
  ghost predicate CopyHolds(s: State, i: nat) {
    i < |s.batch| && s.batch[i].Whole? &&
    (s.batch[i].id in s.latched ==> s.batch[i].id in s.frames && s.frames[s.batch[i].id] == s.batch[i].content)
  }

  ghost predicate PoolHolds(c: Cache) {
    c.dw.latched <= c.dirty <= c.cached &&
    (forall p :: p in c.dw.base ==> PageHolds(c, p)) &&
    (forall i :: 0 <= i < |c.dw.batch| ==> CopyHolds(c.dw, i))
  }

  ghost predicate StoreInv(l: Layout, c: Cache) {
    Inv(l, c.dw) && c.store.Keys == c.dw.base.Keys && (if Running(c.dw.phase) then PoolHolds(c) else c.dw.latched == {})
  }

  lemma {:induction false} StartInv(l: Layout, c: Cache)
    requires Starts(l, c)
    ensures StoreInv(l, c)
  {
    InitialInv(l, c.dw);
    forall p | p in c.dw.base ensures PageHolds(c, p) {
    }
  }

  lemma {:induction false} ChangeInv(l: Layout, c: Cache, x: Step)
    requires StoreInv(l, c) && Can(l, c, x) && (x.Change? || x.Read?)
    ensures StoreInv(l, Take(l, c, x))
  {
    var c' := Take(l, c, x);
    ModifyInv(l, c.dw, x.p, c'.dw.frames[x.p]);
    assert x.p in c.dw.base && PageHolds(c, x.p);
    forall p | p in c'.dw.base ensures PageHolds(c', p) {
      assert PageHolds(c, p);
    }
    forall i | 0 <= i < |c'.dw.batch| ensures CopyHolds(c'.dw, i) {
      assert CopyHolds(c.dw, i);
    }
  }

  lemma {:induction false} EvictInv(l: Layout, c: Cache, p: PageId)
    requires StoreInv(l, c) && Can(l, c, Evict(p))
    ensures StoreInv(l, Take(l, c, Evict(p)))
  {
    var c' := Take(l, c, Evict(p));
    forall q | q in c'.dw.base ensures PageHolds(c', q) {
      assert PageHolds(c, q);
    }
  }

  lemma {:induction false} PostedInv(l: Layout, c: Cache, p: PageId)
    requires StoreInv(l, c) && Can(l, c, Protocol(Post(p)))
    ensures StoreInv(l, Take(l, c, Protocol(Post(p))))
  {
    var c' := Take(l, c, Protocol(Post(p)));
    PostInv(l, c.dw, p);
    forall q | q in c'.dw.base ensures PageHolds(c', q) {
      assert PageHolds(c, q);
    }
    forall i | 0 <= i < |c'.dw.batch| ensures CopyHolds(c'.dw, i) {
      if i < |c.dw.batch| {
        assert CopyHolds(c.dw, i) && c.dw.batch[i] in c.dw.batch;
      }
    }
  }

  /** Steps that change no data page, no frame and no latch. */
  lemma {:induction false} QuietInv(l: Layout, c: Cache, e: Event)
    requires StoreInv(l, c) && Can(l, c, Protocol(e))
    requires e.WriteBlock1? || e.WriteBlock2? || e.FlushSlots? || e.Reuse?
    ensures StoreInv(l, Take(l, c, Protocol(e)))
  {
    var c' := Take(l, c, Protocol(e));
    StepInv(l, c.dw, e);
    forall q | q in c'.dw.base ensures PageHolds(c', q) {
      assert PageHolds(c, q);
    }
    forall i | 0 <= i < |c'.dw.batch| ensures CopyHolds(c'.dw, i) {
      assert CopyHolds(c.dw, i);
    }
  }

  /** The page that is written in place is still on the flush list. */
  lemma {:induction false} WrittenInv(l: Layout, c: Cache)
    requires StoreInv(l, c) && Can(l, c, Protocol(WriteInPlace))
    ensures StoreInv(l, Take(l, c, Protocol(WriteInPlace)))
  {
    var c' := Take(l, c, Protocol(WriteInPlace));
    WriteInPlaceInv(l, c.dw);
    assert c.dw.batch[c.dw.phase.next].id in c.dw.latched;
    forall q | q in c'.dw.base ensures PageHolds(c', q) {
      assert PageHolds(c, q);
    }
    forall i | 0 <= i < |c'.dw.batch| ensures CopyHolds(c'.dw, i) {
      assert CopyHolds(c.dw, i);
    }
  }

  /** The copy of a latched page that was written is what the store holds. */
  lemma {:induction false} WrittenCopy(l: Layout, c: Cache, p: PageId)
    requires StoreInv(l, c) && c.dw.phase.InPlace? && p in c.dw.latched && p in Ids(c.dw.batch)
    requires p !in Ids(c.dw.batch[c.dw.phase.next..])
    ensures p in c.dw.disk && p in c.store && Visible(c.dw.disk[p]) == Whole(p, c.store[p])
  {
    var s := c.dw;
    var im :| im in s.batch && im.id == p;
    var i :| 0 <= i < |s.batch| && s.batch[i] == im;
    assert CopyHolds(s, i) && PageHolds(c, p);
    assert s.disk[s.batch[i].id].pending == Some(s.batch[i]);
  }

  lemma {:induction false} CompletedInv(l: Layout, c: Cache, p: PageId)
    requires StoreInv(l, c) && Can(l, c, Protocol(Complete(p)))
    ensures StoreInv(l, Take(l, c, Protocol(Complete(p))))
  {
    var c' := Take(l, c, Protocol(Complete(p)));
    CompleteInv(l, c.dw, p);
    WrittenCopy(l, c, p);
    forall q | q in c'.dw.base ensures PageHolds(c', q) {
      assert PageHolds(c, q);
    }
    forall i | 0 <= i < |c'.dw.batch| ensures CopyHolds(c'.dw, i) {
      assert CopyHolds(c.dw, i);
    }
  }

  lemma {:induction false} SyncInv(l: Layout, c: Cache)
    requires StoreInv(l, c) && Can(l, c, Protocol(SyncData))
    ensures StoreInv(l, Take(l, c, Protocol(SyncData)))
  {
    var s, c' := c.dw, Take(l, c, Protocol(SyncData));
    SyncDataInv(l, s);
    BaseKeys(l, s);
    forall q | q in c'.dw.base ensures PageHolds(c', q) {
      SyncedPageHolds(l, c, q);
    }
    forall i | 0 <= i < |c'.dw.batch| ensures CopyHolds(c'.dw, i) {
      assert CopyHolds(c.dw, i) && s.batch[i] in s.batch;
    }
  }

  lemma {:induction false} SyncedPageHolds(l: Layout, c: Cache, q: PageId)
    requires StoreInv(l, c) && Can(l, c, Protocol(SyncData)) && q in c.dw.base
    ensures PageHolds(Take(l, c, Protocol(SyncData)), q)
  {
    assert PageHolds(c, q);
    if q in c.dw.latched && q in Ids(c.dw.batch) {
      assert c.dw.batch[c.dw.phase.next..] == [];
      WrittenCopy(l, c, q);
    }
  }

  lemma {:induction false} BaseKeys(l: Layout, s: State)
    requires Inv(l, s) && Enabled(l, s, SyncData)
    ensures Apply(l, s, SyncData).base.Keys == s.base.Keys
  {
    forall p ensures p in Updated(s.base, s.batch) <==> p in s.base {
      UpdatedAt(s.base, s.batch, p);
    }
  }

  lemma {:induction false} CrashedInv(l: Layout, c: Cache, e: Event)
    requires StoreInv(l, c) && Can(l, c, Protocol(e)) && DuringRecovery(e)
    ensures StoreInv(l, Take(l, c, Protocol(e))) && Take(l, c, Protocol(e)).store == c.store
  {
    StepInv(l, c.dw, e);
    SameHistory(l, c.dw, e);
  }

  lemma {:induction false} RecoveredInv(l: Layout, c: Cache)
    requires StoreInv(l, c) && Can(l, c, Protocol(EndRecovery))
    ensures StoreInv(l, Take(l, c, Protocol(EndRecovery)))
  {
    var c' := Take(l, c, Protocol(EndRecovery));
    EndRecoveryInv(l, c.dw);
    assert c'.dw.latched == {};
    forall q | q in c'.dw.base ensures PageHolds(c', q) {
      assert SafePage(c'.dw, q);
    }
  }

  lemma {:induction false} TakeInv(l: Layout, c: Cache, x: Step)
    requires StoreInv(l, c) && Can(l, c, x)
    ensures StoreInv(l, Take(l, c, x))
  {
    match x
    case Change(_, _) => ChangeInv(l, c, x);
    case Read(_) => ChangeInv(l, c, x);
    case Evict(p) => EvictInv(l, c, p);
    case Protocol(e) =>
      match e {
        case Post(p) => PostedInv(l, c, p);
        case WriteInPlace => WrittenInv(l, c);
        case Complete(p) => CompletedInv(l, c, p);
        case SyncData => SyncInv(l, c);
        case EndRecovery => RecoveredInv(l, c);
        case _ => if DuringRecovery(e) { CrashedInv(l, c, e); } else { QuietInv(l, c, e); }
      }
  }

  /** Every state of every run satisfies the invariant, */
  lemma {:induction false} CacheRunInv(l: Layout, cs: seq<Cache>, xs: seq<Step>, k: nat)
    requires IsCacheRun(l, cs, xs) && k <= |xs|
    ensures StoreInv(l, cs[k]) && cs[k].store.Keys == cs[0].store.Keys
  {
    if k == 0 {
      StartInv(l, cs[0]);
    } else {
      CacheRunInv(l, cs, xs, k - 1);
      assert CacheStep(l, cs, xs, k - 1);
      TakeInv(l, cs[k - 1], xs[k - 1]);
      SamePages(l, cs[k - 1], xs[k - 1]);
    }
  }

  lemma {:induction false} SamePages(l: Layout, c: Cache, x: Step)
    requires StoreInv(l, c) && Can(l, c, x)
    ensures Take(l, c, x).store.Keys == c.store.Keys
  {
    TakeInv(l, c, x);
    if x.Protocol? {
      StepPages(l, c.dw, x.e);
    }
  }

  /** The pool is a cache of the store: while the engine runs, a page in the pool shows what was
      written last, and a page that is not in the pool is found on disk, whole and so. */
  lemma {:induction false} CacheCoherence(l: Layout, cs: seq<Cache>, xs: seq<Step>, k: nat, p: PageId)
    requires IsCacheRun(l, cs, xs) && k <= |xs| && Running(cs[k].dw.phase) && p in cs[k].store
    ensures var c := cs[k];
            if p in c.cached then p in c.dw.frames && c.dw.frames[p] == c.store[p]
            else p in c.dw.disk && Visible(c.dw.disk[p]) == Whole(p, c.store[p])
  {
    CacheRunInv(l, cs, xs, k);
    assert PageHolds(cs[k], p);
  }

  // ----- what a crash leaves of the store -----

  /** From step i to step j there are only crashes and slots of recovery. */
  ghost predicate OnlyRecovery(xs: seq<Step>, i: nat, j: nat) {
    j <= |xs| && forall k :: i <= k < j ==> xs[k].Protocol? && DuringRecovery(xs[k].e)
  }

  lemma {:induction false} CacheRecoveryKeeps(l: Layout, cs: seq<Cache>, xs: seq<Step>, i: nat, j: nat)
    requires IsCacheRun(l, cs, xs) && i <= j && OnlyRecovery(xs, i, j)
    ensures cs[j].dw.base == cs[i].dw.base && cs[j].dw.posted == cs[i].dw.posted && cs[j].store == cs[i].store
  {
    if i < j {
      CacheRecoveryKeeps(l, cs, xs, i, j - 1);
      CacheRunInv(l, cs, xs, j - 1);
      assert CacheStep(l, cs, xs, j - 1) && DuringRecovery(xs[j - 1].e);
      CrashedInv(l, cs[j - 1], xs[j - 1].e);
      SameHistory(l, cs[j - 1].dw, xs[j - 1].e);
    }
  }

  /** After recovery the store holds for each page what was synced last, or its copy in the batch
      that was in flight. */
  lemma {:induction false} StoreAfterRecovery(l: Layout, cs: seq<Cache>, xs: seq<Step>, i: nat, j: nat, p: PageId)
    requires IsCacheRun(l, cs, xs) && i <= j < |xs| && OnlyRecovery(xs, i, j) && xs[j] == Protocol(EndRecovery)
    requires p in cs[i].store
    ensures p in cs[j + 1].store && p in cs[i].dw.base && Surviving(cs[i].dw, p, Whole(p, cs[j + 1].store[p]))
  {
    CacheRecoveryKeeps(l, cs, xs, i, j);
    CacheRunInv(l, cs, xs, i);
    CacheRunInv(l, cs, xs, j);
    CacheRunInv(l, cs, xs, j + 1);
    assert CacheStep(l, cs, xs, j);
    RecoveredContent(l, cs[j].dw, p);
  }

  lemma {:induction false} RecoveredContent(l: Layout, s: State, p: PageId)
    requires Inv(l, s) && Enabled(l, s, EndRecovery) && p in s.base
    ensures var s' := Apply(l, s, EndRecovery); p in s'.base && Surviving(s, p, Whole(p, s'.base[p]))
  {
    EndRecoveryInv(l, s);
  }

  /** A crash loses no page that was synced: a page that is not modified in the pool and not in
      the batch in flight has the same content in the store after recovery, even if recovery
      itself crashes. A page whose write was reported complete, but whose batch is not synced,
      has that content or the one synced before. */
  lemma {:induction false} SyncedSurvives(l: Layout, cs: seq<Cache>, xs: seq<Step>, i: nat, j: nat, p: PageId)
    requires IsCacheRun(l, cs, xs) && i <= j < |xs| && OnlyRecovery(xs, i, j) && xs[j] == Protocol(EndRecovery)
    requires Running(cs[i].dw.phase) && p in cs[i].store && p !in cs[i].dirty
    ensures p in cs[j + 1].store && p in cs[i].dw.base
    ensures p !in Ids(cs[i].dw.posted) ==> cs[j + 1].store[p] == cs[i].store[p]
    ensures cs[j + 1].store[p] == cs[i].store[p] || cs[j + 1].store[p] == cs[i].dw.base[p]
  {
    StoreAfterRecovery(l, cs, xs, i, j, p);
    CacheRunInv(l, cs, xs, i);
    CleanPage(l, cs[i], p, Whole(p, cs[j + 1].store[p]));
  }

  lemma {:induction false} CleanPage(l: Layout, c: Cache, p: PageId, im: Image)
    requires StoreInv(l, c) && Running(c.dw.phase) && p in c.store && p !in c.dirty
    requires Surviving(c.dw, p, im)
    ensures p !in Ids(c.dw.posted) ==> im == Whole(p, c.store[p])
    ensures im == Whole(p, c.store[p]) || im == Whole(p, c.dw.base[p])
  {
    var s := c.dw;
    assert PageHolds(c, p) && SafePage(s, p);
    if im in s.posted {
      assert im.id in Ids(s.posted);
      var i :| 0 <= i < |s.posted| && s.posted[i] == im;
      assert s.phase.InPlace? && s.batch[i] == im;
      assert i < s.phase.next ==> s.disk[s.batch[i].id].pending == Some(s.batch[i]);
    }
  }

  /** At step n or before, the store held v for page p. */
  ghost predicate Was(cs: seq<Cache>, n: nat, p: PageId, v: int) {
    exists m :: 0 <= m <= n && m < |cs| && p in cs[m].store && cs[m].store[p] == v
  }

  ghost predicate AllWere(cs: seq<Cache>, n: nat, images: seq<Image>) {
    forall im :: im in images && im.Whole? ==> Was(cs, n, im.id, im.content)
  }

  /** What is synced, posted or in flight was in the store. */
  ghost predicate PastInv(cs: seq<Cache>, n: nat, s: State) {
    (forall p :: p in s.base ==> Was(cs, n, p, s.base[p])) && AllWere(cs, n, s.batch) && AllWere(cs, n, s.posted)
  }

  lemma {:induction false} PastStep(l: Layout, cs: seq<Cache>, xs: seq<Step>, n: nat)
    requires IsCacheRun(l, cs, xs) && n < |xs| && PastInv(cs, n, cs[n].dw)
    ensures PastInv(cs, n + 1, cs[n + 1].dw)
  {
    assert CacheStep(l, cs, xs, n);
    CacheRunInv(l, cs, xs, n);
    PastMore(cs, n, cs[n].dw);
    if xs[n].Protocol? && xs[n].e.Post? {
      assert PageHolds(cs[n], xs[n].e.p);
      assert Was(cs, n + 1, xs[n].e.p, cs[n].dw.frames[xs[n].e.p]);
    }
    PastTaken(l, cs, n + 1, cs[n], xs[n]);
  }

  lemma {:induction false} PastTaken(l: Layout, cs: seq<Cache>, n: nat, c: Cache, x: Step)
    requires StoreInv(l, c) && Can(l, c, x) && PastInv(cs, n, c.dw)
    requires x.Protocol? && x.e.Post? ==> Was(cs, n, x.e.p, c.dw.frames[x.e.p])
    ensures PastInv(cs, n, Take(l, c, x).dw)
  {
    var s, s' := c.dw, Take(l, c, x).dw;
    if x.Protocol? && x.e.SyncData? {
      forall p | p in s'.base ensures Was(cs, n, p, s'.base[p]) {
        SyncedWas(l, cs, n, s, p);
      }
    } else if x.Protocol? && x.e.EndRecovery? {
      forall p | p in s'.base ensures Was(cs, n, p, s'.base[p]) {
        RecoveredContent(l, s, p);
      }
    } else {
      HistoryStep(l, c, x);
    }
  }

  lemma {:induction false} HistoryStep(l: Layout, c: Cache, x: Step)
    requires Can(l, c, x) && !(x.Protocol? && (x.e.SyncData? || x.e.EndRecovery?))
    ensures HistoryKept(c.dw, x, Take(l, c, x).dw)
  {
    if x.Protocol? {
      EventHistory(l, c.dw, x.e);
    }
  }

  predicate HistoryKept(s: State, x: Step, s': State) {
    s'.base == s.base && (s'.posted == s.posted || s'.posted == s.batch) &&
    if x.Protocol? && x.e.Post? then x.e.p in s.frames && s'.batch == s.batch + [Whole(x.e.p, s.frames[x.e.p])]
    else s'.batch == s.batch || s'.batch == []
  }

  lemma {:induction false} EventHistory(l: Layout, s: State, e: Event)
    requires Enabled(l, s, e) && !e.SyncData? && !e.EndRecovery?
    ensures HistoryKept(s, Protocol(e), Apply(l, s, e))
  {
  }

  lemma {:induction false} PastMore(cs: seq<Cache>, n: nat, s: State)
    requires PastInv(cs, n, s)
    ensures PastInv(cs, n + 1, s)
  {
  }

  lemma {:induction false} SyncedWas(l: Layout, cs: seq<Cache>, n: nat, s: State, p: PageId)
    requires Inv(l, s) && PastInv(cs, n, s) && p in Updated(s.base, s.batch)
    ensures Was(cs, n, p, Updated(s.base, s.batch)[p])
  {
    UpdatedAt(s.base, s.batch, p);
    if p in Ids(s.batch) {
      var im :| im in s.batch && im.id == p;
    }
  }

  lemma {:induction false} Past(l: Layout, cs: seq<Cache>, xs: seq<Step>, n: nat)
    requires IsCacheRun(l, cs, xs) && n <= |xs|
    ensures PastInv(cs, n, cs[n].dw)
  {
    if n == 0 {
      forall p | p in cs[0].dw.base ensures Was(cs, 0, p, cs[0].dw.base[p]) {
        assert cs[0].store[p] == cs[0].dw.base[p];
      }
    } else {
      Past(l, cs, xs, n - 1);
      PastStep(l, cs, xs, n - 1);
    }
  }

  /** A crash invents nothing: what the store holds for a page after recovery it held before the
      crash at some time. */
  lemma {:induction false} NothingInvented(l: Layout, cs: seq<Cache>, xs: seq<Step>, i: nat, j: nat, p: PageId)
    requires IsCacheRun(l, cs, xs) && i <= j < |xs| && OnlyRecovery(xs, i, j) && xs[j] == Protocol(EndRecovery)
    requires p in cs[i].store
    ensures p in cs[j + 1].store && Was(cs, i, p, cs[j + 1].store[p])
  {
    StoreAfterRecovery(l, cs, xs, i, j, p);
    Past(l, cs, xs, i);
  }

  // ----- the same in terms of the steps taken -----

  /** Whoever gets page p sees content v: in its frame, or by a read. */
  ghost predicate Shows(c: Cache, p: PageId, v: int) {
    if p in c.cached then p in c.dw.frames && c.dw.frames[p] == v
    else p in c.dw.disk && Visible(c.dw.disk[p]) == Whole(p, v)
  }

  predicate Disturbs(x: Step, p: PageId) {
    (x.Change? && x.p == p) || (x.Protocol? && x.e.Crash?)
  }

  /** From step i to step k page p is not changed, and there is no crash. */
  ghost predicate Undisturbed(xs: seq<Step>, i: nat, k: nat, p: PageId) {
    k <= |xs| && forall m :: i <= m < k ==> !Disturbs(xs[m], p)
  }

  lemma {:induction false} UndisturbedStep(l: Layout, c: Cache, x: Step, p: PageId)
    requires StoreInv(l, c) && Can(l, c, x) && Running(c.dw.phase) && !Disturbs(x, p) && p in c.store
    ensures var c' := Take(l, c, x); Running(c'.dw.phase) && p in c'.store && c'.store[p] == c.store[p]
  {
  }

  lemma {:induction false} StoreStays(l: Layout, cs: seq<Cache>, xs: seq<Step>, i: nat, k: nat, p: PageId)
    requires IsCacheRun(l, cs, xs) && i <= k && Undisturbed(xs, i, k, p)
    requires Running(cs[i].dw.phase) && p in cs[i].store
    ensures Running(cs[k].dw.phase) && p in cs[k].store && cs[k].store[p] == cs[i].store[p]
  {
    if i < k {
      StoreStays(l, cs, xs, i, k - 1, p);
      StaysOnce(l, cs, xs, k - 1, p);
    }
  }

  lemma {:induction false} StaysOnce(l: Layout, cs: seq<Cache>, xs: seq<Step>, k: nat, p: PageId)
    requires IsCacheRun(l, cs, xs) && k < |xs| && !Disturbs(xs[k], p) && Running(cs[k].dw.phase) && p in cs[k].store
    ensures Running(cs[k + 1].dw.phase) && p in cs[k + 1].store && cs[k + 1].store[p] == cs[k].store[p]
  {
    CacheRunInv(l, cs, xs, k);
    assert CacheStep(l, cs, xs, k);
    UndisturbedStep(l, cs[k], xs[k], p);
  }

  lemma {:induction false} StoreShows(l: Layout, cs: seq<Cache>, xs: seq<Step>, k: nat, p: PageId)
    requires IsCacheRun(l, cs, xs) && k <= |xs| && Running(cs[k].dw.phase) && p in cs[k].store
    ensures Shows(cs[k], p, cs[k].store[p])
  {
    CacheCoherence(l, cs, xs, k, p);
  }

  /** A page that is not in the pool can be read at any time, and the read gives what the page shows:
      it is never torn. */
  lemma {:induction false} CanBeRead(l: Layout, cs: seq<Cache>, xs: seq<Step>, k: nat, p: PageId)
    requires IsCacheRun(l, cs, xs) && k <= |xs| && Running(cs[k].dw.phase) && p in cs[k].store && p !in cs[k].cached
    ensures Can(l, cs[k], Read(p)) && p in Take(l, cs[k], Read(p)).cached
    ensures forall v :: Shows(cs[k], p, v) ==> Shows(Take(l, cs[k], Read(p)), p, v)
  {
    CacheRunInv(l, cs, xs, k);
    assert PageHolds(cs[k], p);
  }

  /** What was written last is what is seen: after a change of a page, through any evictions, reads
      and batches, until it is changed again or the process crashes. */
  lemma {:induction false} LastChangeShows(l: Layout, cs: seq<Cache>, xs: seq<Step>, i: nat, k: nat, p: PageId, v: int)
    requires IsCacheRun(l, cs, xs) && i < k && Undisturbed(xs, i + 1, k, p) && xs[i] == Change(p, v)
    ensures Running(cs[k].dw.phase) && Shows(cs[k], p, v)
  {
    Changed(l, cs, xs, i, p, v);
    StoreStays(l, cs, xs, i + 1, k, p);
    StoreShows(l, cs, xs, k, p);
  }

  lemma {:induction false} Changed(l: Layout, cs: seq<Cache>, xs: seq<Step>, i: nat, p: PageId, v: int)
    requires IsCacheRun(l, cs, xs) && i < |xs| && xs[i] == Change(p, v)
    ensures Running(cs[i + 1].dw.phase) && p in cs[i + 1].store && cs[i + 1].store[p] == v
  {
    assert CacheStep(l, cs, xs, i);
  }

  lemma {:induction false} RunsAgain(l: Layout, cs: seq<Cache>, xs: seq<Step>, j: nat)
    requires IsCacheRun(l, cs, xs) && j < |xs| && xs[j] == Protocol(EndRecovery)
    ensures Running(cs[j + 1].dw.phase)
  {
    assert CacheStep(l, cs, xs, j);
  }

  /** A page that was never changed is seen as it was found. */
  lemma {:induction false} UnchangedShows(l: Layout, cs: seq<Cache>, xs: seq<Step>, k: nat, p: PageId)
    requires IsCacheRun(l, cs, xs) && Undisturbed(xs, 0, k, p) && p in cs[0].dw.base
    ensures Shows(cs[k], p, cs[0].dw.base[p])
  {
    StoreStays(l, cs, xs, 0, k, p);
    StoreShows(l, cs, xs, k, p);
  }

  /** The page was posted, and its batch is not synced yet. */
  ghost predicate Underway(c: Cache, p: PageId) {
    Running(c.dw.phase) && c.dw.phase != Synced && p in Ids(c.dw.batch) && (p in c.dw.latched || p !in c.dirty)
  }

  /** The page is not modified, and no batch with it is still to be synced. */
  ghost predicate Durable(c: Cache, p: PageId) {
    Running(c.dw.phase) && p !in c.dirty && (c.dw.phase == Synced || p !in Ids(c.dw.batch)) && p !in Ids(c.dw.posted)
  }

  lemma {:induction false} UnderwayStep(l: Layout, c: Cache, x: Step, p: PageId)
    requires StoreInv(l, c) && Can(l, c, x) && !Disturbs(x, p) && Underway(c, p)
    ensures if x == Protocol(SyncData) then Durable(Take(l, c, x), p) else Underway(Take(l, c, x), p)
  {
  }

  lemma {:induction false} DurableStep(l: Layout, c: Cache, x: Step, p: PageId)
    requires StoreInv(l, c) && Can(l, c, x) && !Disturbs(x, p) && Durable(c, p)
    ensures Durable(Take(l, c, x), p)
  {
  }

  lemma {:induction false} OnTheWay(l: Layout, cs: seq<Cache>, xs: seq<Step>, k: nat, p: PageId)
    requires IsCacheRun(l, cs, xs) && k < |xs| && !Disturbs(xs[k], p) && (Underway(cs[k], p) || Durable(cs[k], p))
    ensures Underway(cs[k + 1], p) || Durable(cs[k + 1], p)
    ensures Durable(cs[k], p) || xs[k] == Protocol(SyncData) ==> Durable(cs[k + 1], p)
  {
    CacheRunInv(l, cs, xs, k);
    assert CacheStep(l, cs, xs, k);
    if Durable(cs[k], p) {
      DurableStep(l, cs[k], xs[k], p);
    } else {
      UnderwayStep(l, cs[k], xs[k], p);
    }
  }

  /** From the post of a page to the next sync and beyond. */
  lemma {:induction false} PostedThenSynced(l: Layout, cs: seq<Cache>, xs: seq<Step>, a: nat, b: nat, k: nat, p: PageId)
    requires IsCacheRun(l, cs, xs) && a < b < k && Undisturbed(xs, a, k, p)
    requires xs[a] == Protocol(Post(p)) && xs[b] == Protocol(SyncData)
    ensures Durable(cs[k], p)
  {
    if k == b + 1 {
      PostedUntil(l, cs, xs, a, b, p);
    } else {
      PostedThenSynced(l, cs, xs, a, b, k - 1, p);
    }
    OnTheWay(l, cs, xs, k - 1, p);
  }

  lemma {:induction false} PostedUntil(l: Layout, cs: seq<Cache>, xs: seq<Step>, a: nat, b: nat, p: PageId)
    requires IsCacheRun(l, cs, xs) && a < b && Undisturbed(xs, a, b, p) && xs[a] == Protocol(Post(p))
    ensures Underway(cs[b], p) || Durable(cs[b], p)
  {
    if b == a + 1 {
      assert CacheStep(l, cs, xs, a);
      PostedNow(l, cs[a], p);
    } else {
      PostedUntil(l, cs, xs, a, b - 1, p);
      OnTheWay(l, cs, xs, b - 1, p);
    }
  }

  lemma {:induction false} PostedNow(l: Layout, c: Cache, p: PageId)
    requires Can(l, c, Protocol(Post(p)))
    ensures Underway(Take(l, c, Protocol(Post(p))), p)
  {
    var batch' := Take(l, c, Protocol(Post(p))).dw.batch;
    assert batch'[|batch'| - 1].id == p;
  }

  /** Durability: a change that was posted and synced is seen after any crash and any number of
      recoveries, unless the page was changed again before the crash. */
  lemma {:induction false} SyncedChangeSurvives(l: Layout, cs: seq<Cache>, xs: seq<Step>, i: nat, a: nat, b: nat,
                                                k: nat, j: nat, p: PageId, v: int)
    requires IsCacheRun(l, cs, xs) && i < a < b < k <= j < |xs|
    requires xs[i] == Change(p, v) && Undisturbed(xs, i + 1, k, p)
    requires xs[a] == Protocol(Post(p)) && xs[b] == Protocol(SyncData)
    requires OnlyRecovery(xs, k, j) && xs[j] == Protocol(EndRecovery)
    ensures Shows(cs[j + 1], p, v)
  {
    Changed(l, cs, xs, i, p, v);
    StoreStays(l, cs, xs, i + 1, k, p);
    PostedThenSynced(l, cs, xs, a, b, k, p);
    SyncedSurvives(l, cs, xs, k, j, p);
    RunsAgain(l, cs, xs, j);
    StoreShows(l, cs, xs, j + 1, p);
  }

  /** Content v of page p is the one found at the start, or one of the first n steps wrote it. */
  ghost predicate Written(cs: seq<Cache>, xs: seq<Step>, n: nat, p: PageId, v: int) {
    |cs| > 0 && ((p in cs[0].dw.base && cs[0].dw.base[p] == v) ||
                 exists m :: 0 <= m < n && m < |xs| && xs[m] == Change(p, v))
  }

  lemma {:induction false} StoreStep(l: Layout, c: Cache, x: Step, p: PageId)
    requires Can(l, c, x) && p in c.store && x != Protocol(EndRecovery)
    ensures p in Take(l, c, x).store
    ensures if x.Change? && x.p == p then x == Change(p, Take(l, c, x).store[p])
            else Take(l, c, x).store[p] == c.store[p]
  {
  }

  lemma {:induction false} RecoveredWas(l: Layout, cs: seq<Cache>, xs: seq<Step>, n: nat, p: PageId) returns (m: nat)
    requires IsCacheRun(l, cs, xs) && n < |xs| && xs[n] == Protocol(EndRecovery) && p in cs[n].store
    ensures m <= n && p in cs[m].store && p in cs[n + 1].store && cs[m].store[p] == cs[n + 1].store[p]
  {
    CacheRunInv(l, cs, xs, n);
    assert CacheStep(l, cs, xs, n);
    RecoveredContent(l, cs[n].dw, p);
    Past(l, cs, xs, n);
    assert Was(cs, n, p, cs[n + 1].store[p]);
    m :| 0 <= m <= n && m < |cs| && p in cs[m].store && cs[m].store[p] == cs[n + 1].store[p];
  }

  /** What a step did not write was in the store before. */
  lemma {:induction false} StoreFrom(l: Layout, cs: seq<Cache>, xs: seq<Step>, n: nat, p: PageId) returns (m: nat)
    requires IsCacheRun(l, cs, xs) && n < |xs| && p in cs[n + 1].store && xs[n] != Change(p, cs[n + 1].store[p])
    ensures m <= n && p in cs[m].store && cs[m].store[p] == cs[n + 1].store[p]
  {
    CacheRunInv(l, cs, xs, n);
    CacheRunInv(l, cs, xs, n + 1);
    if xs[n] == Protocol(EndRecovery) {
      m := RecoveredWas(l, cs, xs, n, p);
    } else {
      assert CacheStep(l, cs, xs, n);
      StoreStep(l, cs[n], xs[n], p);
      m := n;
    }
  }

  lemma {:induction false} StoreWritten(l: Layout, cs: seq<Cache>, xs: seq<Step>, n: nat, p: PageId)
    requires IsCacheRun(l, cs, xs) && n <= |xs| && p in cs[n].store
    ensures Written(cs, xs, n, p, cs[n].store[p])
  {
    if n > 0 && xs[n - 1] != Change(p, cs[n].store[p]) {
      var m := StoreFrom(l, cs, xs, n - 1, p);
      StoreWritten(l, cs, xs, m, p);
    }
  }

  /** In particular what is seen after recovery was found at the start or written by a step before
      the crash. */
  lemma {:induction false} SeenWasWritten(l: Layout, cs: seq<Cache>, xs: seq<Step>, k: nat, p: PageId)
    requires IsCacheRun(l, cs, xs) && k <= |xs| && Running(cs[k].dw.phase) && p in cs[0].dw.base
    ensures exists v :: Shows(cs[k], p, v) && Written(cs, xs, k, p, v)
  {
    CacheRunInv(l, cs, xs, k);
    StoreShows(l, cs, xs, k, p);
    StoreWritten(l, cs, xs, k, p);
  }
}
