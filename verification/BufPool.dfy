/** The buffer pool as a cache of the data files: the states of its blocks, the page hash, the
    free, LRU and flush lists, io-fixes, latches and counters. Each method is what one critical
    section of the pool mutex does. The order within the LRU list and within the flush list is
    the subject of modules Lru and FlushList; here they are sets. */
module BufPool {
  import opened Common

  datatype BlockState = NotUsed | ReadyForUse | FilePage | Memory | RemoveHash

  datatype FlushType = LruFlush | ListFlush

  /** m_io_fix, and how far a write has come: s-latched for it, and handed to the disk. */
  datatype IoFix = NoIo | Read | Write(kind: FlushType, latched: bool, written: bool)

  datatype Latch = Open | Shared(n: int) | Exclusive | ReadLatch

  /** A block. `changed`: the holder of the x-latch has changed the frame, and the change has
      not yet been noted at the release of the latch. */
  datatype Block = Block(state: BlockState, page: int, fixCount: int, io: IoFix, oldest: int, latch: Latch,
                         changed: bool, frame: int)

  type Blocks = map<int, Block>
  type Pages = map<int, int>

  // ----- the kinds of blocks that lists and counters are about -----

  datatype Kind = Free | Cached | Dirty | Reading | Writing(t: FlushType)

  predicate Is(k: Kind, x: Block) {
    match k
    case Free => x.state == NotUsed
    case Cached => x.state == FilePage
    case Dirty => x.state == FilePage && x.oldest > 0
    case Reading => x.state == FilePage && x.io.Read?
    case Writing(t) => x.state == FilePage && x.io.Write? && x.io.kind == t
  }

  function Those(blocks: Blocks, k: Kind): set<int> {
    set b | b in blocks && Is(k, blocks[b])
  }

  // ----- the invariant -----

  /** The latches that are held by threads which have the page buffer-fixed, not by io. */
  function UserLatches(x: Block): int {
    match x.latch
    case Open => 0
    case Shared(n) => if x.io.Write? && x.io.latched then n - 1 else n
    case Exclusive => 1
    case ReadLatch => 0
  }

  /** What holds of a block by itself, given what is on disk. A file page that is neither being
      read, nor changed, nor marked as modified, is the same in its frame and on disk. */
  predicate BlockOk(x: Block, disk: Pages) {
    if x.state != FilePage then
      x.fixCount == 0 && x.io == NoIo && x.oldest == 0 && x.latch == Open && !x.changed
    else
      && x.page in disk && x.oldest >= 0 && 0 <= UserLatches(x) <= x.fixCount && (x.latch.Shared? ==> x.latch.n >= 1)
      && (x.changed ==> x.latch == Exclusive)
      && (x.io.Read? <==> x.latch == ReadLatch)
      && (x.io.Read? ==> x.oldest == 0)
      && (x.io.Write? ==>
          x.oldest > 0 && (x.io.latched ==> x.latch.Shared?) &&
            (x.io.written ==> x.io.latched && x.frame == disk[x.page]))
      && (!x.io.Read? && !x.changed && x.oldest == 0 ==> x.frame == disk[x.page])
  }

  predicate BlocksOk(blocks: Blocks, disk: Pages) {
    forall b {:trigger blocks[b]} :: b in blocks ==> BlockOk(blocks[b], disk)
  }

  /** The page hash is one to one with the file pages. */
  predicate HashOk(blocks: Blocks, hash: map<int, int>) {
    && (forall p {:trigger blocks[hash[p]]} :: p in hash ==>
        hash[p] in blocks && blocks[hash[p]].state == FilePage && blocks[hash[p]].page == p)
    && (forall b {:trigger blocks[b]} :: b in blocks && blocks[b].state == FilePage ==>
        blocks[b].page in hash && hash[blocks[b].page] == b)
  }

  /** The lists hold the blocks of their kind, and the counters count them. */
  predicate AccountsOk(blocks: Blocks, free: seq<int>, lru: set<int>, flush: set<int>, nPendReads: int,
                       nFlushLru: int, nFlushList: int) {
    && Distinct(free) && Elements(free) == Those(blocks, Free) && lru == Those(blocks, Cached) &&
      flush == Those(blocks, Dirty)
    && nPendReads == |Those(blocks, Reading)| && nFlushLru == |Those(blocks, Writing(LruFlush))|
    && nFlushList == |Those(blocks, Writing(ListFlush))|
  }

  /** The pool and the disk together hold the pages of the store: a page in the pool in its
      frame, any other page on disk. */
  predicate StoreOk(blocks: Blocks, hash: map<int, int>, disk: Pages, store: Pages) {
    && store.Keys == disk.Keys
    && (forall p {:trigger store[p]} :: p in disk ==> store[p] == Current(blocks, hash, disk, p))
  }

  function Current(blocks: Blocks, hash: map<int, int>, disk: Pages, p: int): int
    requires p in disk
  {
    if p in hash && hash[p] in blocks && !blocks[hash[p]].io.Read? then blocks[hash[p]].frame else disk[p]
  }

  predicate ContentOk(blocks: Blocks, hash: map<int, int>, disk: Pages, store: Pages) {
    BlocksOk(blocks, disk) && HashOk(blocks, hash) && StoreOk(blocks, hash, disk, store)
  }

  // ----- what the change of one block does to lists and counters -----

  function Adjust(s: set<int>, k: Kind, b: int, y: Block, x: Block): set<int> {
    if Is(k, y) == Is(k, x) then s else if Is(k, x) then s + {b} else s - {b}
  }

  function Delta(k: Kind, y: Block, x: Block): int {
    if Is(k, y) == Is(k, x) then 0 else if Is(k, x) then 1 else -1
  }

  lemma {:induction false} ThoseChanged(blocks: Blocks, b: int, x: Block, k: Kind)
    requires b in blocks
    ensures Those(blocks[b := x], k) == Adjust(Those(blocks, k), k, b, blocks[b], x)
    ensures |Those(blocks[b := x], k)| == |Those(blocks, k)| + Delta(k, blocks[b], x)
  {
    assert b in Those(blocks, k) <==> Is(k, blocks[b]);
    assert Those(blocks[b := x], k) == Adjust(Those(blocks, k), k, b, blocks[b], x);
  }

  lemma {:induction false} Account(blocks: Blocks, free: seq<int>, lru: set<int>, flush: set<int>,
                                   nReads: int, lruWrites: int, listWrites: int, b: int, x: Block, free': seq<int>)
    requires AccountsOk(blocks, free, lru, flush, nReads, lruWrites, listWrites) && b in blocks
    requires Distinct(free') && Elements(free') == Adjust(Elements(free), Free, b, blocks[b], x)
    ensures var y := blocks[b];
            AccountsOk(blocks[b := x], free', Adjust(lru, Cached, b, y, x), Adjust(flush, Dirty, b, y, x),
                       nReads + Delta(Reading, y, x),
                       lruWrites + Delta(Writing(LruFlush), y, x), listWrites + Delta(Writing(ListFlush), y, x))
  {
    ThoseChanged(blocks, b, x, Free);
    ThoseChanged(blocks, b, x, Cached);
    ThoseChanged(blocks, b, x, Dirty);
    ThoseChanged(blocks, b, x, Reading);
    ThoseChanged(blocks, b, x, Writing(LruFlush));
    ThoseChanged(blocks, b, x, Writing(ListFlush));
  }

  lemma {:induction false} FirstFree(blocks: Blocks, free: seq<int>)
    requires Distinct(free) && Elements(free) == Those(blocks, Free) && free != []
    ensures free[0] in blocks && blocks[free[0]].state == NotUsed && free == [free[0]] + free[1..]
    ensures Distinct(free[1..]) && Elements(free[1..]) == Elements(free) - {free[0]}
  {
    assert free[0] in Elements(free);
    assert free[0] in Those(blocks, Free) && Is(Free, blocks[free[0]]);
    assert free == [free[0]] + free[1..];
  }

  lemma {:induction false} AddFree(blocks: Blocks, free: seq<int>, b: int)
    requires Distinct(free) && Elements(free) == Those(blocks, Free) && b in blocks && blocks[b].state != NotUsed
    ensures Distinct([b] + free) && Elements([b] + free) == Elements(free) + {b}
  {
    assert b !in Elements(free);
    assert forall i :: 0 <= i < |free| ==> free[i] in Elements(free);
  }

  // ----- what it does to contents -----

  /** A change of a block that is not a file page. */
  lemma {:induction false} Plain(blocks: Blocks, hash: map<int, int>, disk: Pages, store: Pages, b: int, x: Block)
    requires ContentOk(blocks, hash, disk, store) && b in blocks
    requires blocks[b].state != FilePage && x.state != FilePage && BlockOk(x, disk)
    ensures ContentOk(blocks[b := x], hash, disk, store)
  {
  }

  /** A change of a file page that leaves its content as it is. */
  lemma {:induction false} Same(blocks: Blocks, hash: map<int, int>, disk: Pages, store: Pages, b: int, x: Block)
    requires ContentOk(blocks, hash, disk, store) && b in blocks && blocks[b].state == FilePage && x.state == FilePage
    requires x.page == blocks[b].page && x.frame == blocks[b].frame && x.io.Read? == blocks[b].io.Read? &&
             BlockOk(x, disk)
    ensures ContentOk(blocks[b := x], hash, disk, store)
  {
  }

  /** A read has brought the page from disk. */
  lemma {:induction false} Arrived(blocks: Blocks, hash: map<int, int>, disk: Pages, store: Pages, b: int, x: Block)
    requires ContentOk(blocks, hash, disk, store) && b in blocks && blocks[b].state == FilePage && blocks[b].io.Read?
    requires x.state == FilePage && x.page == blocks[b].page && x.page in disk && x.frame == disk[x.page] &&
             !x.io.Read? && BlockOk(x, disk)
    ensures ContentOk(blocks[b := x], hash, disk, store)
  {
  }

  /** The content of a page in the pool changes, and with it the store. */
  lemma {:induction false} NewContent(blocks: Blocks, hash: map<int, int>, disk: Pages, store: Pages, b: int, x: Block)
    requires ContentOk(blocks, hash, disk, store) && b in blocks && blocks[b].state == FilePage && !blocks[b].io.Read?
    requires x.state == FilePage && x.page == blocks[b].page && !x.io.Read? && BlockOk(x, disk)
    ensures ContentOk(blocks[b := x], hash, disk, store[x.page := x.frame])
  {
  }

  /** The frame of a page is written to disk. No other block holds the page. */
  lemma {:induction false} ToDisk(blocks: Blocks, hash: map<int, int>, disk: Pages, store: Pages, b: int, x: Block)
    requires ContentOk(blocks, hash, disk, store) && b in blocks && blocks[b].state == FilePage && !blocks[b].io.Read?
    requires x.state == FilePage && x.page == blocks[b].page && x.frame == blocks[b].frame && !x.io.Read? &&
             x.page in disk
    requires BlockOk(x, disk[x.page := x.frame])
    ensures ContentOk(blocks[b := x], hash, disk[x.page := x.frame], store)
  {
    forall c | c in blocks && c != b ensures BlockOk(blocks[c], disk[x.page := x.frame]) {
      assert BlockOk(blocks[c], disk);
    }
  }

  /** A block becomes a file page. */
  lemma {:induction false} Bind(blocks: Blocks, hash: map<int, int>, disk: Pages, store: Pages, b: int, x: Block)
    requires ContentOk(blocks, hash, disk, store) && b in blocks && blocks[b].state != FilePage
    requires x.state == FilePage && x.page !in hash && BlockOk(x, disk)
    ensures ContentOk(blocks[b := x], hash[x.page := b], disk, if x.io.Read? then store else store[x.page := x.frame])
  {
  }

  /** A clean file page leaves the pool; the disk has its content. */
  lemma {:induction false} Unbind(blocks: Blocks, hash: map<int, int>, disk: Pages, store: Pages, b: int, x: Block)
    requires ContentOk(blocks, hash, disk, store) && b in blocks && blocks[b].state == FilePage
    requires !blocks[b].io.Read? && !blocks[b].changed && blocks[b].oldest == 0 && x.state != FilePage &&
             BlockOk(x, disk)
    ensures ContentOk(blocks[b := x], hash - {blocks[b].page}, disk, store)
  {
  }

  /** A page in the hash, and a file page: what they say about each other. */
  lemma {:induction false} FilePageFacts(blocks: Blocks, hash: map<int, int>, disk: Pages, store: Pages, b: int)
    requires ContentOk(blocks, hash, disk, store) && b in blocks && blocks[b].state == FilePage
    ensures var x := blocks[b];
            BlockOk(x, disk) && x.page in disk && x.page in store && x.page in hash && hash[x.page] == b &&
            store[x.page] == if x.io.Read? then disk[x.page] else x.frame
  {
  }

  lemma {:induction false} HashFacts(blocks: Blocks, hash: map<int, int>, p: int)
    requires HashOk(blocks, hash) && p in hash
    ensures hash[p] in blocks && blocks[hash[p]].state == FilePage && blocks[hash[p]].page == p
  {
  }

  class Pool {
    var blocks: Blocks
    var hash: map<int, int>    // m_page_hash
    var free: seq<int>         // m_free_list
    var lru: set<int>          // m_LRU_list
    var flush: set<int>        // m_flush_list
    var nPendReads: int
    var nFlushLru: int         // m_n_flush[BUF_FLUSH_LRU]
    var nFlushList: int        // m_n_flush[BUF_FLUSH_LIST]
    var disk: Pages
    ghost var store: Pages     // the flat page store that the pool implements

    ghost predicate Valid()
      reads this
    {
      ContentOk(blocks, hash, disk, store) && Accounted()
    }

    predicate Accounted()
      reads this
    {
      AccountsOk(blocks, free, lru, flush, nPendReads, nFlushLru, nFlushList)
    }

    /** Lists and counters after block b becomes x: nothing changes for them, */
    lemma BookSame(b: int, x: Block)
      requires Accounted() && b in blocks && x.state == blocks[b].state && x.io == blocks[b].io
      requires x.oldest > 0 <==> blocks[b].oldest > 0
      ensures AccountsOk(blocks[b := x], free, lru, flush, nPendReads, nFlushLru, nFlushList)
    {
      Account(blocks, free, lru, flush, nPendReads, nFlushLru, nFlushList, b, x, free);
    }

    /** the free list becomes f, */
    lemma BookFree(b: int, x: Block, f: seq<int>)
      requires Accounted() && b in blocks && x.state != FilePage && blocks[b].state != FilePage
      requires Distinct(f) && Elements(f) == Adjust(Elements(free), Free, b, blocks[b], x)
      ensures AccountsOk(blocks[b := x], f, lru, flush, nPendReads, nFlushLru, nFlushList)
    {
      Account(blocks, free, lru, flush, nPendReads, nFlushLru, nFlushList, b, x, f);
    }

    /** the block becomes a file page, perhaps one that is being read, */
    lemma BookBound(b: int, x: Block)
      requires Accounted() && b in blocks && blocks[b].state != FilePage && blocks[b].state != NotUsed
      requires x.state == FilePage && x.oldest == 0 && !x.io.Write?
      ensures AccountsOk(blocks[b := x], free, lru + {b}, flush, nPendReads + (if x.io.Read? then 1 else 0),
                         nFlushLru, nFlushList)
    {
      Account(blocks, free, lru, flush, nPendReads, nFlushLru, nFlushList, b, x, free);
    }

    /** or leaves the pool, */
    lemma BookUnbound(b: int, x: Block)
      requires Accounted() && b in blocks && x.state != FilePage && x.state != NotUsed
      requires blocks[b].state == FilePage && blocks[b].oldest == 0 && blocks[b].io == NoIo
      ensures AccountsOk(blocks[b := x], free, lru - {b}, flush, nPendReads, nFlushLru, nFlushList)
    {
      Account(blocks, free, lru, flush, nPendReads, nFlushLru, nFlushList, b, x, free);
    }

    /** the page is noted as modified, */
    lemma BookModified(b: int, x: Block)
      requires Accounted() && b in blocks && blocks[b].state == FilePage == x.state && x.io == blocks[b].io
      requires x.oldest > 0 || blocks[b].oldest == 0 == x.oldest
      ensures AccountsOk(blocks[b := x], free, lru, if blocks[b].oldest <= 0 < x.oldest then flush + {b} else flush,
                         nPendReads, nFlushLru, nFlushList)
      ensures x.oldest > 0 ==> b in Those(blocks[b := x], Dirty)
    {
      Account(blocks, free, lru, flush, nPendReads, nFlushLru, nFlushList, b, x, free);
    }

    /** a read is over, */
    lemma BookRead(b: int, x: Block)
      requires Accounted() && b in blocks && blocks[b].state == FilePage == x.state && blocks[b].io.Read? &&
               x.io == NoIo
      requires x.oldest == blocks[b].oldest
      ensures AccountsOk(blocks[b := x], free, lru, flush, nPendReads - 1, nFlushLru, nFlushList)
    {
      Account(blocks, free, lru, flush, nPendReads, nFlushLru, nFlushList, b, x, free);
    }

    /** a write begins, */
    lemma BookWriting(b: int, x: Block)
      requires Accounted() && b in blocks && blocks[b].state == FilePage == x.state && blocks[b].io == NoIo &&
               x.io.Write?
      requires x.oldest == blocks[b].oldest
      ensures AccountsOk(blocks[b := x], free, lru, flush, nPendReads,
                         if x.io.kind == LruFlush then nFlushLru + 1 else nFlushLru,
                         if x.io.kind == LruFlush then nFlushList else nFlushList + 1)
    {
      Account(blocks, free, lru, flush, nPendReads, nFlushLru, nFlushList, b, x, free);
    }

    /** goes on, */
    lemma BookStillWriting(b: int, x: Block)
      requires Accounted() && b in blocks && blocks[b].state == FilePage == x.state && blocks[b].io.Write? &&
               x.io.Write?
      requires x.oldest == blocks[b].oldest && x.io.kind == blocks[b].io.kind
      ensures AccountsOk(blocks[b := x], free, lru, flush, nPendReads, nFlushLru, nFlushList)
    {
      Account(blocks, free, lru, flush, nPendReads, nFlushLru, nFlushList, b, x, free);
    }

    /** or is over. */
    lemma BookWritten(b: int, x: Block)
      requires Accounted() && b in blocks && blocks[b].state == FilePage == x.state && blocks[b].io.Write? &&
               x.io == NoIo
      requires blocks[b].oldest > 0 == x.oldest
      ensures AccountsOk(blocks[b := x], free, lru, flush - {b}, nPendReads,
                         if blocks[b].io.kind == LruFlush then nFlushLru - 1 else nFlushLru,
                         if blocks[b].io.kind == LruFlush then nFlushList else nFlushList - 1)
    {
      Account(blocks, free, lru, flush, nPendReads, nFlushLru, nFlushList, b, x, free);
    }

    /** get_free_only: a block is taken from the free list. */
    method GetFreeOnly() returns (r: Option<int>)
      requires Valid()
      modifies this
      ensures Valid() && store == old(store) && disk == old(disk) && hash == old(hash)
      ensures if old(free) == [] then r == None && blocks == old(blocks) && free == [] else
                r == Some(old(free)[0]) && free == old(free)[1..] && r.value in old(blocks) &&
                blocks == old(blocks)[r.value := old(blocks)[r.value].(state := ReadyForUse)]
    {
      r := None;
      if free != [] {
        var b := free[0];
        FirstFree(blocks, free);
        Plain(blocks, hash, disk, store, b, blocks[b].(state := ReadyForUse));
        BookFree(b, blocks[b].(state := ReadyForUse), free[1..]);
        blocks := blocks[b := blocks[b].(state := ReadyForUse)];
        free := free[1..];
        r := Some(b);
      }
    }

    /** block_alloc: a free block becomes a memory block. */
    method BlockAlloc() returns (r: Option<int>)
      requires Valid()
      modifies this
      ensures Valid() && store == old(store) && hash == old(hash) && disk == old(disk)
      ensures if old(free) == [] then r == None && blocks == old(blocks) else
                r == Some(old(free)[0]) && free == old(free)[1..] && r.value in old(blocks) &&
                blocks == old(blocks)[r.value := old(blocks)[r.value].(state := Memory)]
    {
      r := GetFreeOnly();
      if r.Some? {
        Plain(blocks, hash, disk, store, r.value, blocks[r.value].(state := Memory));
        BookFree(r.value, blocks[r.value].(state := Memory), free);
        blocks := blocks[r.value := blocks[r.value].(state := Memory)];
      }
    }

    /** block_free_non_file_page: the block goes to the head of the free list. */
    method BlockFreeNonFilePage(b: int)
      requires Valid() && b in blocks && (blocks[b].state == Memory || blocks[b].state == ReadyForUse)
      modifies this
      ensures Valid() && store == old(store) && free == [b] + old(free) && hash == old(hash) && disk == old(disk)
      ensures blocks == old(blocks)[b := old(blocks)[b].(state := NotUsed)]
    {
      AddFree(blocks, free, b);
      Plain(blocks, hash, disk, store, b, blocks[b].(state := NotUsed));
      BookFree(b, blocks[b].(state := NotUsed), [b] + free);
      blocks := blocks[b := blocks[b].(state := NotUsed)];
      free := [b] + free;
    }

    /** page_init: the block becomes a file page and enters the page hash. */
    function PageInit(p: int, x: Block): Block {
      Block(FilePage, p, 0, NoIo, 0, Open, false, x.frame)
    }

    function ForRead(p: int, x: Block): Block {
      PageInit(p, x).(latch := ReadLatch, io := Read)
    }

    /** init_for_read: the block is bound to the page, x-latched and io-fixed for a read; if the
        page is in the pool already, or its tablespace is gone, the block is freed again. */
    method InitForRead(b: int, p: int, spaceDeleted: bool) returns (ok: bool)
      requires Valid() && b in blocks && blocks[b].state == ReadyForUse && p in disk
      modifies this
      ensures Valid() && store == old(store) && ok == (p !in old(hash) && !spaceDeleted)
      ensures ok ==>
                p in hash && hash[p] == b &&
                blocks == old(blocks)[b := Block(FilePage, p, 0, Read, 0, ReadLatch, false, old(blocks)[b].frame)]
      ensures !ok ==> hash == old(hash) && blocks == old(blocks)[b := old(blocks)[b].(state := NotUsed)]
      ensures disk == old(disk)
    {
      ok := false;
      if p in hash {
        BlockFreeNonFilePage(b);
      } else if spaceDeleted {
        BlockFreeNonFilePage(b);
      } else {
        BindForRead(b, p);
        ok := true;
      }
    }

    method BindForRead(b: int, p: int)
      requires Valid() && b in blocks && blocks[b].state == ReadyForUse && p in disk && p !in hash
      modifies this
      ensures Valid() && store == old(store) && disk == old(disk) && nPendReads == old(nPendReads) + 1
      ensures blocks == old(blocks)[b := Block(FilePage, p, 0, Read, 0, ReadLatch, false, old(blocks)[b].frame)]
      ensures hash == old(hash)[p := b] && lru == old(lru) + {b} && free == old(free) && flush == old(flush)
    {
      var x := ForRead(p, blocks[b]);
      Bind(blocks, hash, disk, store, b, x);
      BookBound(b, x);
      blocks := blocks[b := x];
      hash := hash[p := b];
      lru := lru + {b};
      nPendReads := nPendReads + 1;
    }

    /** create: a page that is in the pool already is buffer-fixed there and the free block goes
        back; otherwise the free block becomes the page. */
    method Create(b: int, p: int) returns (c: int)
      requires Valid() && b in blocks && blocks[b].state == ReadyForUse && p in disk
      modifies this
      ensures Valid() && p in hash && hash[p] == c && c in blocks
      ensures if p in old(hash) then
                store == old(store) && hash == old(hash) && c in old(blocks) && c != b &&
                blocks == old(blocks)[b := old(blocks)[b].(state := NotUsed)]
                                     [c := old(blocks)[c].(fixCount := old(blocks)[c].fixCount + 1)]
              else
                c == b && store == old(store)[p := old(blocks)[b].frame] && hash == old(hash)[p := b] &&
                blocks == old(blocks)[b := Block(FilePage, p, 1, NoIo, 0, Exclusive, true, old(blocks)[b].frame)]
    {
      if p in hash {
        BlockFreeNonFilePage(b);
        var r := Get(p);
        c := r.value;
        FilePageFacts(blocks, hash, disk, store, c);
      } else {
        CreateNew(b, p);
        c := b;
      }
    }

    /** A new page: the frame, whatever it holds, is its content. It is taken as changed under an
        x-latch of the mini-transaction that creates it. */
    method CreateNew(b: int, p: int)
      requires Valid() && b in blocks && blocks[b].state == ReadyForUse && p in disk && p !in hash
      modifies this
      ensures Valid() && hash == old(hash)[p := b] && store == old(store)[p := old(blocks)[b].frame]
      ensures blocks == old(blocks)[b := Block(FilePage, p, 1, NoIo, 0, Exclusive, true, old(blocks)[b].frame)]
    {
      var x := PageInit(p, blocks[b]).(fixCount := 1, latch := Exclusive, changed := true);
      Bind(blocks, hash, disk, store, b, x);
      BookBound(b, x);
      store := store[p := x.frame];
      blocks := blocks[b := x];
      hash := hash[p := b];
      lru := lru + {b};
    }

    /** get, up to the latch: a page in the pool is buffer-fixed. */
    method Get(p: int) returns (r: Option<int>)
      requires Valid()
      modifies this
      ensures Valid() && store == old(store) && hash == old(hash) && (r == None <==> p !in hash)
      ensures r == None ==> blocks == old(blocks)
      ensures r.Some? ==>
                p in hash && hash[p] == r.value && r.value in old(blocks) && old(blocks)[r.value].page == p &&
                var x := old(blocks)[r.value];
                blocks == old(blocks)[r.value := x.(fixCount := x.fixCount + 1)]
    {
      if p !in hash {
        return None;
      }
      HashFacts(blocks, hash, p);
      Fix(hash[p]);
      r := Some(hash[p]);
    }

    /** buf_fix_count is increased. */
    method Fix(b: int)
      requires Valid() && b in blocks && blocks[b].state == FilePage
      modifies this`blocks
      ensures Valid() && blocks == old(blocks)[b := old(blocks)[b].(fixCount := old(blocks)[b].fixCount + 1)]
    {
      var x := blocks[b].(fixCount := blocks[b].fixCount + 1);
      Same(blocks, hash, disk, store, b, x);
      BookSame(b, x);
      blocks := blocks[b := x];
    }

    function Granted(latch: Latch, exclusive: bool): Latch {
      if exclusive then Exclusive else Shared(if latch.Shared? then latch.n + 1 else 1)
    }

    /** The latch part of get. Whoever gets a latch on a page sees in its frame what the store
        holds for the page. */
    method LatchPage(b: int, exclusive: bool) returns (granted: bool)
      requires Valid() && b in blocks && blocks[b].state == FilePage && blocks[b].fixCount > UserLatches(blocks[b])
      modifies this
      ensures Valid() && store == old(store) && b in blocks && hash == old(hash)
      ensures !granted ==> blocks == old(blocks)
      ensures granted ==>
                var x := old(blocks)[b];
                blocks == old(blocks)[b := x.(latch := if exclusive then Exclusive
                                                       else Shared(if x.latch.Shared? then x.latch.n + 1 else 1))]
      ensures granted <==> (old(blocks)[b].latch == Open || (!exclusive && old(blocks)[b].latch.Shared?))
      ensures granted ==> blocks[b].page in store && blocks[b].frame == store[blocks[b].page]
    {
      var x := blocks[b];
      granted := x.latch == Open || (!exclusive && x.latch.Shared?);
      if granted {
        x := x.(latch := Granted(x.latch, exclusive));
        Same(blocks, hash, disk, store, b, x);
        BookSame(b, x);
        blocks := blocks[b := x];
      }
    }

    /** The holder of the x-latch changes the page. */
    method Modify(b: int, content: int)
      requires Valid() && b in blocks && blocks[b].state == FilePage && blocks[b].latch == Exclusive
      modifies this
      ensures Valid() && b in blocks && store == old(store)[blocks[b].page := content] && hash == old(hash)
      ensures blocks == old(blocks)[b := old(blocks)[b].(frame := content, changed := true)]
    {
      var x := blocks[b].(frame := content, changed := true);
      NewContent(blocks, hash, disk, store, b, x);
      BookSame(b, x);
      store := store[x.page := content];
      blocks := blocks[b := x];
    }

    /** release: the latch, if the caller has one, and the fix are given up. If the
        mini-transaction wrote anything, every block that it has x-latched is noted as modified
        first, whether or not this one has changed. */
    method Release(b: int, latched: bool, wrote: bool, startLsn: int)
      requires Valid() && b in blocks && blocks[b].state == FilePage && startLsn > 0
      requires if latched then UserLatches(blocks[b]) > 0 && (blocks[b].changed ==> wrote)
               else blocks[b].fixCount > UserLatches(blocks[b])
      modifies this
      ensures Valid() && store == old(store) && disk == old(disk) && hash == old(hash) && free == old(free)
      ensures var x := old(blocks)[b];
              var noted := latched && wrote && x.latch == Exclusive;
              blocks == old(blocks)[b := x.(fixCount := x.fixCount - 1,
                                            oldest := if noted && x.oldest == 0 then startLsn else x.oldest,
                                            changed := if noted then false else x.changed,
                                            latch := if !latched then x.latch
                                                     else if x.latch.Shared? && x.latch.n > 1 then Shared(x.latch.n - 1)
                                                     else Open)] &&
              flush == if noted then old(flush) + {b} else old(flush)
    {
      var x := blocks[b];
      var y := Released(x, latched, wrote, startLsn);
      FilePageFacts(blocks, hash, disk, store, b);
      Same(blocks, hash, disk, store, b, y);
      BookModified(b, y);
      if x.oldest == 0 && y.oldest != 0 {
        flush := flush + {b};
      }
      blocks := blocks[b := y];
    }

    function Released(x: Block, latched: bool, wrote: bool, startLsn: int): Block {
      var y := if latched && x.latch == Exclusive && wrote then NoteModification(x, startLsn) else x;
      (if latched then Unlatched(y) else y).(fixCount := x.fixCount - 1)
    }

    function Unlatched(x: Block): Block {
      x.(latch := if x.latch.Shared? && x.latch.n > 1 then Shared(x.latch.n - 1) else Open)
    }

    /** note_modification: a block that was clean is entered in the flush list with the start of
        the mini-transaction. */
    function NoteModification(x: Block, startLsn: int): Block {
      x.(oldest := if x.oldest == 0 then startLsn else x.oldest, changed := false)
    }

    /** ready_for_flush. */
    predicate ReadyForFlush(b: int, kind: FlushType)
      reads this
      requires b in blocks
    {
      blocks[b].oldest != 0 && blocks[b].io == NoIo && (kind == ListFlush || blocks[b].fixCount == 0)
    }

    /** Buf_flush::page: the page is io-fixed for a write. The s-latch is taken at once if the
        page is not buffer-fixed, and otherwise waited for. */
    method FlushPage(b: int, kind: FlushType)
      requires Valid() && b in blocks && blocks[b].state == FilePage && ReadyForFlush(b, kind)
      modifies this
      ensures Valid() && store == old(store) && hash == old(hash) && disk == old(disk) && flush == old(flush)
      ensures free == old(free)
      ensures var x := old(blocks)[b];
              var now := x.fixCount == 0;
              blocks == old(blocks)[b := x.(io := Write(kind, now, false), latch := if now then Shared(1) else x.latch)]
      ensures nFlushLru == old(nFlushLru) + (if kind == LruFlush then 1 else 0) &&
              nFlushList == old(nFlushList) + (if kind == ListFlush then 1 else 0)
    {
      var x := blocks[b];
      x := if x.fixCount == 0 then x.(io := Write(kind, true, false), latch := Shared(1))
        else x.(io := Write(kind, false, false));
      Same(blocks, hash, disk, store, b, x);
      BookWriting(b, x);
      blocks := blocks[b := x];
      if kind == LruFlush {
        nFlushLru := nFlushLru + 1;
      } else {
        nFlushList := nFlushList + 1;
      }
    }

    /** The wait for the s-latch ends. */
    method LatchForWrite(b: int)
      requires Valid() && b in blocks && blocks[b].state == FilePage && blocks[b].io.Write? && !blocks[b].io.latched
      requires blocks[b].latch == Open || blocks[b].latch.Shared?
      modifies this
      ensures Valid() && store == old(store) && hash == old(hash) && disk == old(disk) && flush == old(flush)
      ensures var x := old(blocks)[b];
              blocks == old(blocks)[b := x.(io := Write(x.io.kind, true, x.io.written),
                                            latch := Shared(if x.latch.Shared? then x.latch.n + 1 else 1))]
    {
      var x := blocks[b];
      x := x.(io := Write(x.io.kind, true, x.io.written), latch := Granted(x.latch, false));
      Same(blocks, hash, disk, store, b, x);
      BookStillWriting(b, x);
      blocks := blocks[b := x];
    }

    /** write_block_low: under the s-latch the frame goes to disk. */
    method WriteBlockLow(b: int)
      requires Valid() && b in blocks && blocks[b].state == FilePage && blocks[b].io.Write? && blocks[b].io.latched
      modifies this
      ensures Valid() && store == old(store) && b in blocks && disk == old(disk)[blocks[b].page := blocks[b].frame]
      ensures free == old(free) && hash == old(hash) && flush == old(flush)
      ensures blocks == old(blocks)[b := old(blocks)[b].(io := old(blocks)[b].io.(written := true))]
    {
      var x := blocks[b];
      x := x.(io := x.io.(written := true));
      ToDisk(blocks, hash, disk, store, b, x);
      BookStillWriting(b, x);
      blocks := blocks[b := x];
      disk := disk[x.page := x.frame];
    }

    /** io_complete. After a read the frame holds the page from disk and the x-latch is given
        up; after a write the page leaves the flush list and the s-latch is given up. */
    method IoComplete(b: int)
      requires Valid() && b in blocks && blocks[b].state == FilePage
      requires blocks[b].io.Read? || (blocks[b].io.Write? && blocks[b].io.written)
      modifies this
      ensures Valid() && store == old(store) && b in blocks && blocks[b].io == NoIo && hash == old(hash)
      ensures free == old(free)
      ensures old(blocks)[b].io.Read? ==>
                old(blocks)[b].page in disk &&
                blocks == old(blocks)[b := old(blocks)[b].(io := NoIo, latch := Open,
                                                           frame := disk[old(blocks)[b].page])]
      ensures disk == old(disk)
      ensures old(blocks)[b].io.Write? ==>
                b !in flush && blocks[b].page in disk && blocks[b].frame == disk[blocks[b].page]
      ensures old(blocks)[b].io.Write? ==>
                blocks == old(blocks)[b := Cleaned(old(blocks)[b])] && flush == old(flush) - {b}
    {
      if blocks[b].io.Read? {
        ReadComplete(b);
      } else {
        WriteComplete(b);
      }
    }

    method ReadComplete(b: int)
      requires Valid() && b in blocks && blocks[b].state == FilePage && blocks[b].io.Read?
      modifies this
      ensures Valid() && store == old(store) && b in blocks && hash == old(hash) && nPendReads == old(nPendReads) - 1
      ensures free == old(free) && flush == old(flush)
      ensures disk == old(disk) && old(blocks)[b].page in disk
      ensures blocks == old(blocks)[b := old(blocks)[b].(io := NoIo, latch := Open, frame := disk[old(blocks)[b].page])]
    {
      FilePageFacts(blocks, hash, disk, store, b);
      var x := blocks[b];
      x := x.(io := NoIo, latch := Open, frame := disk[x.page]);
      Arrived(blocks, hash, disk, store, b, x);
      BookRead(b, x);
      nPendReads := nPendReads - 1;
      blocks := blocks[b := x];
    }

    /** The same page with the same fixes, no longer marked as modified, and without the s-latch. */
    function Cleaned(x: Block): Block {
      x.(io := NoIo, oldest := 0, latch := if x.latch.Shared? && x.latch.n > 1 then Shared(x.latch.n - 1) else Open)
    }

    /** write_complete. */
    method WriteComplete(b: int)
      requires Valid() && b in blocks && blocks[b].state == FilePage && blocks[b].io.Write? && blocks[b].io.written
      modifies this
      ensures Valid() && store == old(store) && b in blocks && blocks[b].io == NoIo && hash == old(hash)
      ensures free == old(free)
      ensures b !in flush && blocks[b].page in disk && blocks[b].frame == disk[blocks[b].page]
      ensures var x := old(blocks)[b];
              blocks == old(blocks)[b := x.(io := NoIo, oldest := 0,
                                            latch := if x.latch.Shared? && x.latch.n > 1 then Shared(x.latch.n - 1)
                                                     else Open)]
      ensures flush == old(flush) - {b} && disk == old(disk)
    {
      FilePageFacts(blocks, hash, disk, store, b);
      var x := blocks[b];
      var y := Cleaned(x);
      Same(blocks, hash, disk, store, b, y);
      BookWritten(b, y);
      if x.io.kind == LruFlush {
        nFlushLru := nFlushLru - 1;
      } else {
        nFlushList := nFlushList - 1;
      }
      flush := flush - {b};
      blocks := blocks[b := y];
    }

    predicate Freeable(x: Block) {
      x.io == NoIo && x.fixCount == 0 && x.oldest == 0
    }

    /** free_block: a page that is not fixed, not under io and not modified leaves the LRU list
        and the page hash. Nothing is lost: the disk has its content. */
    method FreeBlock(b: int) returns (freed: bool)
      requires Valid() && b in blocks && blocks[b].state == FilePage
      modifies this
      ensures Valid() && store == old(store) && disk == old(disk)
      ensures var x := old(blocks)[b];
              (freed <==> x.fixCount == 0 && x.io == NoIo && x.oldest == 0) &&
              blocks == (if freed then old(blocks)[b := x.(state := RemoveHash, latch := Open)] else old(blocks)) &&
              hash == if freed then old(hash) - {x.page} else old(hash)
      ensures free == old(free) && flush == old(flush) && lru == if freed then old(lru) - {b} else old(lru)
    {
      var x := blocks[b];
      freed := Freeable(x);
      if freed {
        var y := x.(state := RemoveHash, latch := Open);
        Unbind(blocks, hash, disk, store, b, y);
        BookUnbound(b, y);
        blocks := blocks[b := y];
        hash := hash - {x.page};
        lru := lru - {b};
      }
    }

    /** The end of Blob::blob_free: a block that still holds page p is freed, and that it was freed
        is asserted. */
    method FreeIfAllocated(b: int, p: int) returns (aborted: bool)
      requires Valid() && b in blocks
      modifies this
      ensures Valid() && store == old(store) && disk == old(disk)
      ensures var x := old(blocks)[b];
              var here := x.state == FilePage && x.page == p;
              (aborted <==> here && (x.fixCount > 0 || x.io != NoIo || x.oldest > 0)) &&
              if here && !aborted then
                blocks == old(blocks)[b := x.(state := NotUsed, latch := Open)] && hash == old(hash) - {p} &&
                free == [b] + old(free)
              else blocks == old(blocks) && hash == old(hash) && free == old(free)
    {
      aborted := false;
      if blocks[b].state == FilePage && blocks[b].page == p {
        var freed := FreeBlock(b);
        if freed {
          BlockFreeHashedPage(b);
        }
        aborted := !freed;
      }
    }

    /** blob_free: the mini-transaction, which has written to the page and is the only one to have
        it fixed, commits; in between, the page may be written out; then its block must be
        freed. As the commit marks the block as modified, only a write in between saves the
        assertion. */
    method BlobFree(b: int, startLsn: int, writtenOut: bool) returns (aborted: bool)
      requires Valid() && b in blocks && blocks[b].state == FilePage && startLsn > 0
      requires blocks[b].fixCount == 1 && blocks[b].latch == Exclusive && blocks[b].io == NoIo
      modifies this
      ensures Valid() && store == old(store) && (aborted <==> !writtenOut)
      ensures b in blocks &&
              if aborted then b in flush && blocks[b].page == old(blocks)[b].page && hash == old(hash)
              else blocks[b].state == NotUsed && hash == old(hash) - {old(blocks)[b].page} && free == [b] + old(free)
    {
      var p := blocks[b].page;
      Release(b, true, true, startLsn);
      if writtenOut {
        WriteOut(b);
      }
      aborted := FreeIfAllocated(b, p);
    }

    /** The page is flushed from beginning to end: it is clean, and nothing else changes. */
    method WriteOut(b: int)
      requires Valid() && b in blocks && blocks[b].state == FilePage && blocks[b].oldest > 0
      requires blocks[b].io == NoIo && blocks[b].fixCount == 0 && blocks[b].latch == Open
      modifies this
      ensures Valid() && store == old(store) && hash == old(hash) && free == old(free)
      ensures blocks == old(blocks)[b := old(blocks)[b].(oldest := 0)]
      ensures disk == old(disk)[old(blocks)[b].page := old(blocks)[b].frame]
    {
      FlushPage(b, ListFlush);
      WriteBlockLow(b);
      IoComplete(b);
    }

    /** block_free_hashed_page: the block goes to the free list. */
    method BlockFreeHashedPage(b: int)
      requires Valid() && b in blocks && blocks[b].state == RemoveHash
      modifies this
      ensures Valid() && store == old(store) && free == [b] + old(free) && hash == old(hash) && disk == old(disk)
      ensures blocks == old(blocks)[b := old(blocks)[b].(state := NotUsed)]
    {
      Plain(blocks, hash, disk, store, b, blocks[b].(state := Memory));
      BookFree(b, blocks[b].(state := Memory), free);
      blocks := blocks[b := blocks[b].(state := Memory)];
      BlockFreeNonFilePage(b);
    }

    /** A pool of unused blocks over the data files. */
    constructor (unused: seq<int>, files: Pages)
      requires Distinct(unused)
      ensures Valid() && store == files && disk == files && free == unused && hash == map[]
    {
      blocks := map b | b in Elements(unused) :: Unused();
      hash, lru, flush, nPendReads, nFlushLru, nFlushList, disk, store := map[], {}, {}, 0, 0, 0, files, files;
      free := unused;
      new;
      AllFree(blocks, free);
    }
  }

  function Unused(): Block {
    Block(NotUsed, 0, 0, NoIo, 0, Open, false, 0)
  }

  lemma {:induction false} AllFree(blocks: Blocks, free: seq<int>)
    requires Distinct(free) && blocks == map b | b in Elements(free) :: Unused()
    ensures AccountsOk(blocks, free, {}, {}, 0, 0, 0)
  {
    assert Those(blocks, Reading) == {} && Those(blocks, Writing(LruFlush)) == {} &&
           Those(blocks, Writing(ListFlush)) == {};
  }
}
