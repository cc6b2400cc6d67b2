/** DBLWR and the functions of Buf_flush that use it, as code over its fields. What the code does
    to the files is the sequence of writes and flushes that it issues. Every method takes steps of
    the protocol, and the operations it issues are those of its steps, in their order: wherever it
    is cut short, the files are as in a state of the protocol. */
module DoublewriteBuffer {
  import opened Doublewrite
  import opened DoublewriteIo
  import opened Common

  class Dblwr {
    const layout: Layout
    const writeBuf: array<Image>     // m_write_buf
    const bpages: array<PageId>      // m_bpages
    var firstFree: nat               // m_first_free
    var disk: Disk                   // the data files
    var io: seq<Op>                  // what was issued to them since the process started
    var frames: map<PageId, int>     // the frames of the buffer pool
    ghost var run: Run

    ghost predicate Valid()
      reads this, writeBuf, bpages
    {
      && writeBuf.Length == SLOTS && bpages.Length == SLOTS && firstFree <= SLOTS && InRun()
      && Now().frames == frames && Now().batch == writeBuf[..firstFree]
      && forall i :: 0 <= i < firstFree ==> bpages[i] == writeBuf[i].id
    }

    ghost predicate InRun()
      reads this
    {
      RunOk(run) && run.l == layout && run.io == io && Now().disk == disk
    }

    /** m_first_free after a page is posted; it is never the number of slots. */
    ghost function NextFree(n: nat): int {
      if n + 1 < SLOTS then n + 1 else n + 1 - SLOTS
    }

    /** Where the run of the protocol stands. */
    ghost function Now(): State
      reads this
      requires |run.ss| > 0
    {
      At(run)
    }

    /** What came since run r: more steps, and more operations, which have made the files what they
        are. Wherever these are cut short, the files are as in a state that was reached since. */
    ghost predicate Since(r: Run, ops: seq<Op>)
      reads this
    {
      GoesOn(r, run) && ops <= io && disk == Replay(run.files, io) &&
      forall k :: |ops| <= k <= |io| ==> IsCutAt(Replay(run.files, io[..k]), run.ss, |r.es|)
    }

    /** A process that starts on the files another one left. */
    constructor (l: Layout, d: Disk, fs: map<PageId, int>, ghost ss: seq<State>, ghost es: seq<Event>)
      requires IsRun(l, ss, es)
      requires var t := ss[|es|]; t.disk == d && t.frames == fs && t.batch == []
      ensures Valid() && run == Start(l, ss, es) && firstFree == 0 && layout == l && disk == d && io == []
      ensures fresh(writeBuf) && fresh(bpages)
    {
      layout, disk, frames, firstFree, io, run := l, d, fs, 0, [], Start(l, ss, es);
      writeBuf := new Image[SLOTS](_ => Torn(PageId(0, 0)));
      bpages := new PageId[SLOTS](_ => PageId(0, 0));
    }

    /** buffered_writes: when it returns, every posted page is durable in its own place, all
        other data pages are as they were, and the write buffer is empty. The writes and flushes
        are issued in the order of the protocol. */
    method BufferedWrites()
      requires Valid() && Now().phase == Filling
      modifies this`firstFree, this`disk, this`io, this`run
      ensures Valid() && Now().phase == Filling && firstFree == 0 && Since(old(run), old(io))
      ensures io == old(io) + if old(firstFree) == 0 then [] else BatchOps(layout, writeBuf[..old(firstFree)])
      ensures BatchWritten(layout, writeBuf[..old(firstFree)], old(disk), disk)
      ensures Now().latched == old(Now().latched) - Ids(writeBuf[..old(firstFree)])
    {
      if firstFree > 0 {
        WriteBatch();
      }
      Cuts(old(run), run);
    }

    /** A batch that is not empty. */
    method WriteBatch()
      requires Valid() && Now().phase == Filling && firstFree > 0
      modifies this`firstFree, this`disk, this`io, this`run
      ensures Valid() && Now().phase == Filling && firstFree == 0 && GoesOn(old(run), run)
      ensures io == old(io) + BatchOps(layout, writeBuf[..old(firstFree)])
      ensures BatchWritten(layout, writeBuf[..old(firstFree)], old(disk), disk)
      ensures Now().latched == old(Now().latched) - Ids(writeBuf[..old(firstFree)])
    {
      ghost var batch := writeBuf[..firstFree];
      WriteCopies();
      WritePages();
      FinishBatch(|old(run).es|);
      BatchOpsAre(layout, batch, old(io));
    }

    /** The sync of a batch that was in the write buffer, complete, in state k. */
    method FinishBatch(ghost k: nat)
      requires Valid() && Now().phase == InPlace(firstFree) && k <= |run.es|
      requires run.ss[k].phase == Filling && run.ss[k].batch == writeBuf[..firstFree] && run.ss[k].base == Now().base
      modifies this`firstFree, this`disk, this`io, this`run
      ensures Valid() && Now().phase == Filling && firstFree == 0 && GoesOn(old(run), run)
      ensures io == old(io) + [FlushAll]
      ensures BatchWritten(layout, writeBuf[..old(firstFree)], old(run).ss[k].disk, disk)
      ensures Now().latched == old(Now().latched) - Ids(writeBuf[..old(firstFree)])
    {
      BatchSynced(layout, run.ss, run.es, k);
      SyncDatafiles();
      ghost var r := ReuseStep(run);
      Issue([], r);
      firstFree := 0;
    }

    /** What stays as it is while a batch is written. */
    ghost function Unwritten(): (map<PageId, int>, set<PageId>, map<PageId, int>)
      reads this
      requires |run.ss| > 0
    {
      (Now().base, Now().latched, frames)
    }

    /** The copies go to the two blocks, and these are flushed. */
    method WriteCopies()
      requires Valid() && Now().phase == Filling && firstFree > 0
      modifies this`disk, this`io, this`run
      ensures Valid() && GoesOn(old(run), run) && Unwritten() == old(Unwritten()) && Now().phase == InPlace(0)
      ensures io == old(io) + BlockOps(layout, writeBuf[..firstFree]) + [FlushSpace(SYS_TABLESPACE)]
    {
      WriteBlocks();
      ghost var r := FlushStep(run);
      Issue([FlushSpace(SYS_TABLESPACE)], r);
    }

    method WriteBlocks()
      requires Valid() && Now().phase == Filling && firstFree > 0
      modifies this`disk, this`io, this`run
      ensures Valid() && GoesOn(old(run), run) && Unwritten() == old(Unwritten())
      ensures Now().phase == if firstFree > BLOCK_SIZE then Block2Written else Block1Written
      ensures io == old(io) + BlockOps(layout, writeBuf[..firstFree])
    {
      BlockOpsAre(layout, writeBuf[..firstFree], writeBuf[..]);
      WriteFirstBlock();
      if firstFree > BLOCK_SIZE {
        assert writeBuf[..][BLOCK_SIZE..firstFree] == writeBuf[BLOCK_SIZE..firstFree];
        WriteSecondBlock();
      }
    }

    method WriteFirstBlock()
      requires Valid() && Now().phase == Filling && firstFree > 0
      modifies this`disk, this`io, this`run
      ensures Valid() && GoesOn(old(run), run) && Unwritten() == old(Unwritten()) && Now().phase == Block1Written
      ensures io == old(io) + [WriteRun(SlotPage(layout, 0),
                                        writeBuf[..if firstFree < BLOCK_SIZE then firstFree else BLOCK_SIZE])]
    {
      var len := if firstFree < BLOCK_SIZE then firstFree else BLOCK_SIZE;
      assert writeBuf[..firstFree][..len] == writeBuf[..len];
      ghost var r := Block1Step(run);
      Issue([WriteRun(SlotPage(layout, 0), writeBuf[..len])], r);
    }

    method WriteSecondBlock()
      requires Valid() && Now().phase == Block1Written && firstFree > BLOCK_SIZE
      modifies this`disk, this`io, this`run
      ensures Valid() && GoesOn(old(run), run) && Unwritten() == old(Unwritten()) && Now().phase == Block2Written
      ensures io == old(io) + [WriteRun(SlotPage(layout, BLOCK_SIZE), writeBuf[BLOCK_SIZE..firstFree])]
    {
      assert writeBuf[..firstFree][BLOCK_SIZE..] == writeBuf[BLOCK_SIZE..firstFree];
      ghost var r := Block2Step(run);
      Issue([WriteRun(SlotPage(layout, BLOCK_SIZE), writeBuf[BLOCK_SIZE..firstFree])], r);
    }

    /** The pages of the batch are written to their places. */
    method WritePages()
      requires Valid() && Now().phase == InPlace(0)
      modifies this`disk, this`io, this`run
      ensures Valid() && GoesOn(old(run), run) && Unwritten() == old(Unwritten())
      ensures Now().phase == InPlace(firstFree) && io == old(io) + PageOps(writeBuf[..firstFree])
    {
      ghost var batch := writeBuf[..firstFree];
      for i := 0 to firstFree
        invariant Valid() && GoesOn(old(run), run) && Unwritten() == old(Unwritten())
        invariant Now().phase == InPlace(i) && io == old(io) + PageOps(batch[..i])
      {
        WritePage(i);
        PageOpsNext(batch, i);
      }
      assert batch[..firstFree] == batch;
    }

    /** Page i of the batch is written from its frame to its place. */
    method WritePage(i: nat)
      requires Valid() && Now().phase == InPlace(i) && i < firstFree
      modifies this`disk, this`io, this`run
      ensures Valid() && GoesOn(old(run), run) && Unwritten() == old(Unwritten()) && Now().phase == InPlace(i + 1)
      ensures io == old(io) + [WriteRun(writeBuf[i].id, [writeBuf[i]])]
    {
      ghost var r := PlaceStep(run);
      var p := bpages[i];
      assert Now().batch[i].id == p;
      Issue([WriteRun(p, [Whole(p, frames[p])])], r);
    }

    /** sync_datafiles at the end of a batch. */
    method SyncDatafiles()
      requires Valid() && Now().phase == InPlace(firstFree)
      modifies this`disk, this`io, this`run
      ensures Valid() && GoesOn(old(run), run) && Now().phase == Synced && disk == Settle(old(disk))
      ensures io == old(io) + [FlushAll]
      ensures Now().latched == old(Now().latched) - Ids(writeBuf[..firstFree])
    {
      ghost var r := SyncStep(run);
      Issue([FlushAll], r);
    }

    /** post_to_doublewrite_buf: the page is copied to the write buffer; a full buffer is written
        out, before or after. The page is then in the batch or already durable in its place. */
    method PostToDoublewriteBuf(p: PageId)
      requires Valid() && Now().phase == Filling && p in frames && p !in Now().latched
      modifies this`firstFree, this`disk, this`io, this`run, writeBuf, bpages
      ensures Valid() && Now().phase == Filling && Since(old(run), old(io))
      ensures firstFree == NextFree(old(firstFree)) && frames == old(frames)
      ensures old(firstFree) + 1 < SLOTS ==> io == old(io)
      ensures if firstFree == 0 then p in disk && disk[p] == Cell(Whole(p, frames[p]), None)
              else writeBuf[firstFree - 1] == Whole(p, frames[p]) && p in Now().latched
    {
      MakeRoom();
      CopyAndWrite(p);
      Cuts(old(run), run);
    }

    /** A full buffer is written out. */
    method MakeRoom()
      requires Valid() && Now().phase == Filling
      modifies this`firstFree, this`disk, this`io, this`run
      ensures Valid() && Now().phase == Filling && GoesOn(old(run), run) && Now().latched <= old(Now().latched)
      ensures if old(firstFree) < SLOTS then firstFree == old(firstFree) && io == old(io)
              else firstFree == 0
    {
      while firstFree >= SLOTS
        invariant Valid() && Now().phase == Filling && GoesOn(old(run), run) && Now().latched <= old(Now().latched)
        invariant if firstFree == old(firstFree) then io == old(io) else firstFree == 0 && old(firstFree) == SLOTS
        decreases firstFree
      {
        BufferedWrites();
      }
    }

    /** The copy, and a batch that it has made full. */
    method CopyAndWrite(p: PageId)
      requires Valid() && Now().phase == Filling && p in frames && p !in Now().latched && firstFree < SLOTS
      modifies this`firstFree, this`disk, this`io, this`run, writeBuf, bpages
      ensures Valid() && Now().phase == Filling && GoesOn(old(run), run)
      ensures firstFree == NextFree(old(firstFree)) && (firstFree > 0 ==> io == old(io))
      ensures if firstFree == 0 then p in disk && disk[p] == Cell(Whole(p, frames[p]), None)
              else writeBuf[firstFree - 1] == Whole(p, frames[p]) && p in Now().latched
    {
      CopyToWriteBuf(p);
      if firstFree >= SLOTS {
        assert writeBuf[..firstFree][firstFree - 1] == Whole(p, frames[p]);
        WriteBatch();
      }
    }

    method CopyToWriteBuf(p: PageId)
      requires Valid() && Now().phase == Filling && p in frames && p !in Now().latched && firstFree < SLOTS
      modifies this`firstFree, this`disk, this`io, this`run, writeBuf, bpages
      ensures Valid() && Now().phase == Filling && GoesOn(old(run), run) && p in Now().latched
      ensures firstFree == old(firstFree) + 1 && io == old(io)
      ensures writeBuf[..firstFree] == old(writeBuf[..firstFree]) + [Whole(p, frames[p])]
    {
      ghost var r := PostStep(run, p);
      writeBuf[firstFree] := Whole(p, frames[p]);
      bpages[firstFree] := p;
      firstFree := firstFree + 1;
      assert writeBuf[..firstFree] == old(writeBuf[..firstFree]) + [Whole(p, frames[p])];
      Issue([], r);
    }

    /** recover_pages: all data pages become whole; each holds what was synced last or its copy
        in the batch that was in flight. */
    method RecoverPages()
      requires Valid() && Now().phase == Down && firstFree == 0
      modifies this`disk, this`io, this`frames, this`run
      ensures Valid() && Now().phase == Filling && Since(old(run), old(io))
      ensures Recovered(layout, disk, old(Now().base), old(Now().posted))
    {
      ghost var base, posted := Now().base, Now().posted;
      ghost var r := BeginStep(run);
      var buf := ReadSlots(layout, disk);
      Issue([], r);
      for i := 0 to SLOTS
        invariant Valid() && GoesOn(old(run), run) && firstFree == 0
        invariant Now().phase == Recovering(i, buf) && Now().base == base && Now().posted == posted
      {
        RecoverPage(i, buf);
      }
      EndRecover();
      Cuts(old(run), run);
    }

    /** One slot: a torn page is overwritten by the copy. */
    method RecoverPage(i: nat, buf: seq<Image>)
      requires Valid() && i < |buf| == SLOTS && Now().phase == Recovering(i, buf)
      modifies this`disk, this`io, this`run
      ensures Valid() && GoesOn(old(run), run) && Now().phase == Recovering(i + 1, buf)
      ensures Now().base == old(Now().base) && Now().posted == old(Now().posted)
    {
      ghost var r := SlotStep(run);
      var im := buf[i];
      if NeedsCopy(layout, disk, im) {
        assert im.Whole?;  // the branch for a copy that is corrupt too is never taken
        Issue([WriteRun(im.id, [im])], r);
      } else {
        Issue([], r);
      }
    }

    method EndRecover()
      requires Valid() && Now().phase.Recovering? && Now().phase.at == SLOTS && firstFree == 0
      modifies this`disk, this`io, this`frames, this`run
      ensures Valid() && GoesOn(old(run), run) && Now().phase == Filling
      ensures Recovered(layout, disk, old(Now().base), old(Now().posted))
    {
      ghost var r := EndStep(run);
      frames := Contents(layout, disk);
      Issue([FlushAll], r);
    }

    /** Operations are issued to the files, and with them the run takes a step. */
    method Issue(ops: seq<Op>, ghost r: Run)
      requires InRun() && |r.ss| > 0 && Stepped(run, ops, r, At(r))
      modifies this`disk, this`io, this`run
      ensures InRun() && run == r && io == old(io) + ops
    {
      disk := Replay(disk, ops);
      io := io + ops;
      run := r;
    }
  }
}
