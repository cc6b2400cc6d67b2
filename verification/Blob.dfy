/** Externally stored fields: page chains that are written, read and freed one mini-transaction
    at a time (btr/btr0blob.cc). */
module Blob {
  import opened BigRec
  import opened Common
  import BufPool

  const FIL_NULL := 0xFFFF_FFFF
  const UNIV_PAGE_SIZE := 16384
  const FIL_PAGE_DATA := 38
  const BLOB_HDR_SIZE := 8
  const FIL_PAGE_DATA_END := 8
  const PART_MAX := UNIV_PAGE_SIZE - FIL_PAGE_DATA - BLOB_HDR_SIZE - FIL_PAGE_DATA_END

  /** A page of a chain: the bytes of its part, and the number of the next page. */
  datatype BlobPage = BlobPage(part: seq<Byte>, next: int)

  type Pages = map<int, BlobPage>

  /** The reference in the record: first page, offset there, recorded length, and the flags. */
  datatype Ref = Ref(pageNo: int, offset: int, len: int, notOwner: bool, inherited: bool)

  const ZeroRef := Ref(0, 0, 0, false, false)

  /** What is durable after a committed mini-transaction: the pages and the reference. */
  datatype State = State(pages: Pages, ref: Ref)

  /** The chain that starts at page `head` consists of the pages nos, in this order. */
  predicate IsChain(pages: Pages, head: int, nos: seq<int>)
    decreases |nos|
  {
    if nos == [] then head == FIL_NULL
    else
      head == nos[0] && head != FIL_NULL && head in pages && head !in nos[1..] &&
      IsChain(pages, pages[head].next, nos[1..])
  }

  /** The bytes of a chain. */
  function Content(pages: Pages, nos: seq<int>): seq<Byte>
    decreases |nos|
  {
    if nos == [] || nos[0] !in pages then [] else pages[nos[0]].part + Content(pages, nos[1..])
  }

  /** The reference leads to a chain with these bytes, and records their number. */
  predicate Refers(s: State, nos: seq<int>, bytes: seq<Byte>) {
    IsChain(s.pages, s.ref.pageNo, nos) && Content(s.pages, nos) == bytes && s.ref.len == |bytes|
  }

  // ----- reading -----

  function Prefix(s: seq<Byte>, n: int): seq<Byte> {
    if n <= 0 then [] else if n < |s| then s[..n] else s
  }

  /** buf is what was copied so far of the first len bytes of `all`, and `rest` follows. */
  predicate Copying(all: seq<Byte>, len: int, buf: seq<Byte>, rest: seq<Byte>) {
    |buf| <= len && Prefix(all, len) == buf + Prefix(rest, len - |buf|)
  }

  lemma {:induction false} PrefixStep(all: seq<Byte>, len: int, buf: seq<Byte>, a: seq<Byte>, b: seq<Byte>, copied: int)
    requires Copying(all, len, buf, a + b) && copied == if |a| < len - |buf| then |a| else len - |buf|
    ensures Copying(all, len, buf + a[..copied], b)
    ensures copied < |a| || b == [] ==> buf + a[..copied] == Prefix(all, len)
  {
    var n := len - |buf|;
    assert Prefix(a + b, n) == a[..copied] + Prefix(b, n - copied);
  }

  /** copy_blob_prefix: the first len bytes of the chain, or all of it if it has fewer. */
  method CopyBlobPrefix(pages: Pages, head: int, len: nat, ghost nos: seq<int>) returns (buf: seq<Byte>)
    requires IsChain(pages, head, nos) && nos != []
    ensures buf == Prefix(Content(pages, nos), len)
  {
    buf := [];
    var no := head;
    ghost var rest := nos;
    while true
      invariant IsChain(pages, no, rest) && rest != [] && Copying(Content(pages, nos), len, buf, Content(pages, rest))
      decreases |rest|
    {
      var part := pages[no].part;
      var copyLen := if |part| < len - |buf| then |part| else len - |buf|;
      PrefixStep(Content(pages, nos), len, buf, part, Content(pages, rest[1..]), copyLen);
      buf := buf + part[..copyLen];
      no := pages[no].next;
      rest := rest[1..];
      if no == FIL_NULL || copyLen != |part| {
        return;
      }
    }
  }

  /** copy_externally_stored_field_prefix. A read that needs external bytes of a value that is
      being freed gives nothing; otherwise the result is a prefix of the value. */
  method CopyFieldPrefix(s: State, local: seq<Byte>, len: nat, ghost nos: seq<int>) returns (buf: seq<Byte>)
    requires |local| < len ==> s.ref != ZeroRef && (s.ref.len != 0 ==> IsChain(s.pages, s.ref.pageNo, nos) && nos != [])
    ensures if |local| < len && s.ref.len == 0 then buf == [] else buf == Prefix(local + Content(s.pages, nos), len)
  {
    if |local| >= len {
      return local[..len];
    }
    if s.ref.len == 0 {
      return [];
    }
    var more := CopyBlobPrefix(s.pages, s.ref.pageNo, len - |local|, nos);
    buf := local + more;
  }

  /** copy_externally_stored_field: the local part followed by as many bytes of the chain as are
      recorded; just the local part of a value that is being freed. */
  method CopyField(s: State, local: seq<Byte>, ghost nos: seq<int>) returns (buf: seq<Byte>)
    requires s.ref.len >= 0 && (s.ref.len != 0 ==> IsChain(s.pages, s.ref.pageNo, nos) && nos != [])
    ensures buf == local + if s.ref.len == 0 then [] else Prefix(Content(s.pages, nos), s.ref.len)
    ensures forall bytes :: Refers(s, nos, bytes) ==> buf == local + bytes
  {
    buf := local;
    if s.ref.len != 0 {
      var more := CopyBlobPrefix(s.pages, s.ref.pageNo, s.ref.len, nos);
      buf := local + more;
    }
  }

  // ----- writing and freeing -----

  /** The pages after page `no` with a part was put behind page `prev`, or first. */
  function Linked(pages: Pages, prev: int, no: int, part: seq<Byte>): Pages {
    (if prev in pages then pages[prev := pages[prev].(next := no)] else pages)[no := BlobPage(part, FIL_NULL)]
  }

  lemma {:induction false} ChainInPages(pages: Pages, head: int, nos: seq<int>)
    requires IsChain(pages, head, nos)
    ensures forall x :: x in nos ==> x in pages && x != FIL_NULL
    decreases |nos|
  {
    if nos != [] {
      ChainInPages(pages, pages[head].next, nos[1..]);
      assert nos == [nos[0]] + nos[1..];
    }
  }

  /** A chain is not affected by changes of other pages. */
  lemma {:induction false} ChainFrame(pages: Pages, pages': Pages, head: int, nos: seq<int>)
    requires IsChain(pages, head, nos) && forall x :: x in nos ==> x in pages && x in pages' && pages'[x] == pages[x]
    ensures IsChain(pages', head, nos) && Content(pages', nos) == Content(pages, nos)
    decreases |nos|
  {
    if nos != [] {
      ChainFrame(pages, pages', pages[head].next, nos[1..]);
    }
  }

  lemma {:induction false} ChainExtended(pages: Pages, head: int, nos: seq<int>, no: int, part: seq<Byte>)
    requires IsChain(pages, head, nos) && nos != [] && no !in pages && no != FIL_NULL
    ensures var pages' := Linked(pages, nos[|nos| - 1], no, part);
            IsChain(pages', head, nos + [no]) && Content(pages', nos + [no]) == Content(pages, nos) + part
    decreases |nos|
  {
    var prev := nos[|nos| - 1];
    var pages' := Linked(pages, prev, no, part);
    ChainInPages(pages, head, nos);
    var all := nos + [no];
    assert all[1..] == nos[1..] + [no];
    if |nos| == 1 {
      assert nos[1..] == [] && all[1..] == [no] && [no][1..] == [];
      assert Content(pages', [no]) == part + Content(pages', []);
      assert Content(pages, nos) == pages[head].part + Content(pages, []);
    } else {
      assert nos[1..][|nos| - 2] == prev;
      ChainExtended(pages, pages[head].next, nos[1..], no, part);
      assert prev in nos[1..] && head != prev;
    }
  }

  /** A field reference, the pages of the tablespace, and the states in which the successive
      mini-transactions left them. */
  class Column {
    var pages: Pages
    var ref: Ref
    ghost var history: seq<State>

    constructor (p: Pages, r: Ref)
      ensures pages == p && ref == r && history == []
    {
      pages, ref, history := p, r, [];
    }

    function Now(): State
      reads this
    {
      State(pages, ref)
    }

    /** Btree::page_alloc, with `left` pages left to allocate: some page that is not in use, or none
        just if there are none left. */
    method PageAlloc(left: nat) returns (no: int)
      ensures no == FIL_NULL <==> left == 0
      ensures no == FIL_NULL || no !in pages
    {
      if left == 0 {
        return FIL_NULL;
      }
      UnusedNumber(pages.Keys + {FIL_NULL});
      no :| no !in pages.Keys + {FIL_NULL};
    }

    /** store_big_rec_extern_fields, for one field, with `room` pages left to allocate. Each round is
        a mini-transaction and fills one page, the last one perhaps in part. After every one of
        them the reference is owned and records the number of bytes that can be read, and these
        are a prefix of the value; at the end they are the value. The store fails just if the
        pages run out. */
    method Store(data: seq<Byte>, room: nat) returns (ok: bool, ghost nos: seq<int>)
      requires data != [] && ref == ZeroRef && history == [] && FIL_NULL !in pages
      modifies this
      ensures ok <==> PagesFor(|data|) <= room
      ensures |history| == |nos| == if ok then PagesFor(|data|) else room
      ensures forall x :: 0 <= x < |nos| ==> StoredUpTo(history[x], old(pages), nos, x + 1, data)
      ensures ok ==> Refers(Now(), nos, data)
      ensures Now() == if history == [] then old(Now()) else history[|history| - 1]
      ensures Kept(old(pages), pages, nos)
    {
      nos := [];
      ghost var all := pages;
      var left: nat := room;
      var externLen, prev := |data|, FIL_NULL;
      while externLen > 0
        invariant Progress(all, data, externLen, prev, nos) && left + |nos| == room && |nos| <= PagesFor(|data|)
        decreases externLen
      {
        PartNext(data, |nos|);
        var no := PageAlloc(left);
        if no == FIL_NULL {
          return false, nos;
        }
        var storeLen := if externLen > PART_MAX then PART_MAX else externLen;
        StorePart(data, externLen, storeLen, prev, no, nos, all);
        externLen, prev, left, nos := externLen - storeLen, no, left - 1, nos + [no];
      }
      PartsSoFar(all, history, Now(), nos, data);
      assert data[..|data|] == data;
      ok := true;
    }

    /** How far the store has come, from the pages `all`: all but the last externLen bytes are in the
        chain. */
    ghost predicate Progress(all: Pages, data: seq<Byte>, externLen: int, prev: int, nos: seq<int>)
      reads this
    {
      externLen == |data| - End(data, |nos|) && FIL_NULL !in pages && prev == LastOf(nos) &&
      StoredParts(all, history, Now(), nos, data)
    }

    /** The next part of the value is stored. */
    method StorePart(data: seq<Byte>, externLen: int, storeLen: int, prev: int, no: int, ghost nos: seq<int>,
                     ghost all: Pages)
      requires storeLen == (if externLen > PART_MAX then PART_MAX else externLen) && 0 < externLen
      requires Progress(all, data, externLen, prev, nos) && no !in pages && no != FIL_NULL
      modifies this
      ensures Progress(all, data, externLen - storeLen, no, nos + [no])
    {
      ghost var n, was := |nos|, Now();
      var part := data[|data| - externLen..][..storeLen];
      assert part == Part(data, n);
      PartNext(data, n);
      PartsSoFar(all, history, was, nos, data);
      AddPage(prev, no, part, nos, data[..End(data, n)]);
      NextStored(all, was, Now(), nos, no, data);
      MoreParts(all, old(history), was, nos, no, data, Now());
    }

    /** One mini-transaction of the store: a page with the next part is put at the end of the
        chain, and the recorded length grows by that part. */
    method AddPage(prev: int, no: int, part: seq<Byte>, ghost nos: seq<int>, ghost done: seq<Byte>)
      requires no !in pages && no != FIL_NULL && FIL_NULL !in pages
      requires prev == LastOf(nos) && if nos == [] then done == [] && ref == ZeroRef else Refers(Now(), nos, done)
      modifies this
      ensures Refers(Now(), nos + [no], done + part) && history == old(history) + [Now()] && FIL_NULL !in pages
      ensures pages == Linked(old(pages), prev, no, part)
      ensures ref == Ref(if nos == [] then no else old(ref).pageNo, FIL_PAGE_DATA, old(ref).len + |part|, false, false)
    {
      if nos != [] {
        ChainInPages(pages, ref.pageNo, nos);
        assert prev in nos;
      }
      if prev == FIL_NULL {
        StartChain(pages, no, part);
      } else {
        ChainExtended(pages, ref.pageNo, nos, no, part);
      }
      pages := Linked(pages, prev, no, part);
      ref := Ref(if prev == FIL_NULL then no else ref.pageNo, FIL_PAGE_DATA, ref.len + |part|, false, false);
      history := history + [Now()];
    }

    /** free_externally_stored_field: an owned chain is freed page by page, each in a
        mini-transaction of its own. After every one of them the reference leads to exactly the
        pages that are left and records length zero. A field that does not own its chain, or
        has inherited it and is rolled back, is left alone.

        Each round ends in blob_free (BufPool.Pool.BlobFree), which asserts that the block of the
        page can be freed. gone[x] says that in round x the block has been written out or given
        to another page by then; if not, the process stops. So the call returns with the whole
        chain freed if and only if that is so in every round. */
    method Free(rollback: bool, gone: seq<bool>, ghost nos: seq<int>) returns (aborted: bool)
      requires history == [] && (ref != ZeroRef ==> IsChain(pages, ref.pageNo, nos) && |nos| <= |gone|)
      modifies this
      ensures if MayFree(old(ref), rollback)
              then StopsAfter(gone, |nos|, |history|) && pages == old(pages) - Elements(nos[..|history|])
              else history == [] && Now() == old(Now()) && !aborted
      ensures MayFree(old(ref), rollback) ==> (!aborted <==> AllGone(gone, |nos|))
      ensures !aborted && MayFree(old(ref), rollback) ==> pages == old(pages) - Elements(nos) && ref.pageNo == FIL_NULL
      ensures forall x :: 0 <= x < |history| && x < |nos| ==> PartlyFreed(history[x], old(pages), old(ref), nos, x + 1)
      ensures history != [] ==> Now() == history[|history| - 1]
    {
      aborted := false;
      if ref == ZeroRef {
        return;
      }
      assert nos[0..] == nos;
      var round := 0;
      while !aborted
        invariant |history| == round && Freeing(old(pages), old(ref), nos)
        invariant history != [] ==> MayFree(old(ref), rollback)
        invariant if aborted then round > 0 && AllGone(gone, round - 1) && !gone[round - 1] else AllGone(gone, round)
        decreases |nos| - round
      {
        if ref.pageNo == FIL_NULL || ref.notOwner || (rollback && ref.inherited) {
          break;
        }
        FreeRound(old(pages), old(ref), nos);
        aborted, round := !gone[round], round + 1;
      }
      assert |history| == |nos| ==> nos[..|history|] == nos;
    }

    /** How far the freeing has come, from the pages `all` and the reference r. */
    ghost predicate Freeing(all: Pages, r: Ref, nos: seq<int>)
      reads this
    {
      var n := |history|;
      n <= |nos| && pages == all - Elements(nos[..n]) && IsChain(pages, ref.pageNo, nos[n..]) &&
      ref.notOwner == r.notOwner && ref.inherited == r.inherited && ref.offset == r.offset &&
      Now() == (if n == 0 then State(all, r) else history[n - 1]) &&
      forall x :: 0 <= x < n ==> PartlyFreed(history[x], all, r, nos, x + 1)
    }

    /** The mini-transaction of one round: the first page of the chain goes. */
    method FreeRound(ghost all: Pages, ghost r: Ref, ghost nos: seq<int>)
      requires Freeing(all, r, nos) && ref.pageNo != FIL_NULL
      modifies this
      ensures Freeing(all, r, nos) && |history| == |old(history)| + 1
    {
      var no := ref.pageNo;
      FreeStep(all, pages, nos, |history|, no);
      var next := pages[no].next;
      pages := pages - {no};
      ref := ref.(pageNo := next, len := 0);
      history := history + [Now()];
    }
  }

  /** In each of the first n rounds the block could be freed. */
  predicate AllGone(gone: seq<bool>, n: int) {
    n <= |gone| && forall x :: 0 <= x < n ==> gone[x]
  }

  /** Of n rounds, there are m: all, or those up to the first in which the block could not be
      freed. */
  predicate StopsAfter(gone: seq<bool>, n: nat, m: nat) {
    m <= n <= |gone| && AllGone(gone, m - 1) && (m < n ==> m > 0 && !gone[m - 1])
  }

  /** A page that was read into the pool, x-latched and changed. */
  method PageInPool() returns (pool: BufPool.Pool)
    ensures fresh(pool) && pool.Valid() && 0 in pool.blocks
    ensures pool.blocks[0] == BufPool.Block(BufPool.FilePage, 9, 1, BufPool.NoIo, 0, BufPool.Exclusive, true, 2)
  {
    pool := new BufPool.Pool([0], map[9 := 1]);
    assert 9 in pool.disk;
    var r := pool.GetFreeOnly();
    assert ([r.value] + pool.free)[0] == r.value;
    var ok := pool.InitForRead(0, 9, false);
    pool.IoComplete(0);
    r := pool.Get(9);
    ok := pool.LatchPage(0, true);
    pool.Modify(0, 2);
  }

  /** A chain of one page, which is in the pool and which no one writes out after the
      mini-transaction: the process stops. */
  method FreeOnePage() returns (aborted: bool)
    ensures aborted
  {
    var pool := PageInPool();
    var stopped := pool.BlobFree(0, 1, false);
    var column := new Column(map[9 := BlobPage([7], FIL_NULL)], Ref(9, FIL_PAGE_DATA, 1, false, false));
    assert [9][1..] == [];
    var gone := [!stopped];
    assert !gone[0];
    aborted := column.Free(false, gone, [9]);
  }

  /** How many bytes of the value the first n pages take. */
  function End(data: seq<Byte>, n: nat): nat {
    if n * PART_MAX < |data| then n * PART_MAX else |data|
  }

  /** What goes to page number n of the chain: as much as fits there of what is left. */
  function Part(data: seq<Byte>, n: nat): (p: seq<Byte>)
    ensures |p| <= PART_MAX
  {
    data[End(data, n)..End(data, n + 1)]
  }

  function PagesFor(len: nat): nat {
    (len + PART_MAX - 1) / PART_MAX
  }

  /** Every page but the last is full, and the last is not empty. */
  lemma {:induction false} PartSizes(data: seq<Byte>, n: nat)
    requires n < PagesFor(|data|)
    ensures if n + 1 < PagesFor(|data|) then |Part(data, n)| == PART_MAX
            else 0 < |Part(data, n)| <= PART_MAX && End(data, n + 1) == |data|
  {
  }

  lemma {:induction false} PartNext(data: seq<Byte>, n: nat)
    requires End(data, n) < |data|
    ensures data[..End(data, n)] + Part(data, n) == data[..End(data, n + 1)] && n < PagesFor(|data|)
  {
  }

  /** The first n pages hold the parts of the value in their order and nothing else, and no other
      page changed. */
  ghost predicate PartsHold(all: Pages, pages: Pages, nos: seq<int>, n: nat, data: seq<Byte>) {
    n <= |nos| && Kept(all, pages, nos[..n]) &&
    forall x :: 0 <= x < n ==> nos[x] in pages && pages[nos[x]].part == Part(data, x)
  }

  /** The reference is owned, leads to the first n pages, and records how many bytes they hold. */
  ghost predicate StoredUpTo(s: State, all: Pages, nos: seq<int>, n: nat, data: seq<Byte>) {
    0 < n <= |nos| && s.ref == Ref(nos[0], FIL_PAGE_DATA, End(data, n), false, false) &&
    Refers(s, nos[..n], data[..End(data, n)]) && PartsHold(all, s.pages, nos, n, data)
  }

  /** No page of the tablespace changed but those in nos, which are new. */
  ghost predicate Kept(pages: Pages, pages': Pages, nos: seq<int>) {
    (forall p :: p in pages ==> p in pages' && pages'[p] == pages[p]) && forall x :: x in nos ==> x !in pages
  }

  function LastOf(nos: seq<int>): int {
    if nos == [] then FIL_NULL else nos[|nos| - 1]
  }

  /** The states that the mini-transactions left, and the last of them. */
  ghost predicate StoredParts(all: Pages, history: seq<State>, now: State, nos: seq<int>, data: seq<Byte>) {
    |history| == |nos| && now == (if nos == [] then State(all, ZeroRef) else history[|nos| - 1]) &&
    forall x :: 0 <= x < |nos| ==> StoredUpTo(history[x], all, nos, x + 1, data)
  }

  lemma {:induction false} PartsSoFar(all: Pages, history: seq<State>, now: State, nos: seq<int>, data: seq<Byte>)
    requires StoredParts(all, history, now, nos, data)
    ensures if nos == [] then now == State(all, ZeroRef)
            else StoredUpTo(now, all, nos, |nos|, data) && Refers(now, nos, data[..End(data, |nos|)])
  {
    assert nos[..|nos|] == nos;
  }

  lemma {:induction false} MoreParts(all: Pages, history: seq<State>, now: State, nos: seq<int>, no: int,
                                     data: seq<Byte>, now': State)
    requires StoredParts(all, history, now, nos, data) && StoredUpTo(now', all, nos + [no], |nos| + 1, data)
    ensures StoredParts(all, history + [now'], now', nos + [no], data)
  {
    forall x | 0 <= x < |nos| ensures StoredUpTo(history[x], all, nos + [no], x + 1, data) {
      assert StoredUpTo(history[x], all, nos, x + 1, data);
      assert (nos + [no])[..x + 1] == nos[..x + 1];
    }
  }

  lemma {:induction false} NextStored(all: Pages, s: State, s': State, nos: seq<int>, no: int, data: seq<Byte>)
    requires FIL_NULL !in s.pages && no !in s.pages
    requires if nos == [] then s == State(all, ZeroRef) else StoredUpTo(s, all, nos, |nos|, data)
    requires End(data, |nos|) < |data|
    requires s'.pages == Linked(s.pages, LastOf(nos), no, Part(data, |nos|))
    requires s'.ref == Ref(if nos == [] then no else s.ref.pageNo, FIL_PAGE_DATA, s.ref.len + |Part(data, |nos|)|,
                           false, false)
    requires Refers(s', nos + [no], data[..End(data, |nos|)] + Part(data, |nos|))
    ensures StoredUpTo(s', all, nos + [no], |nos| + 1, data)
  {
    PartNext(data, |nos|);
    LinkedParts(all, s.pages, nos, no, data);
    assert (nos + [no])[..|nos| + 1] == nos + [no];
  }

  /** Linking page number n puts its part behind the others. */
  lemma {:induction false} LinkedParts(all: Pages, pages: Pages, nos: seq<int>, no: int, data: seq<Byte>)
    requires PartsHold(all, pages, nos, |nos|, data) && no !in pages && FIL_NULL !in pages
    ensures PartsHold(all, Linked(pages, LastOf(nos), no, Part(data, |nos|)), nos + [no], |nos| + 1, data)
  {
    assert nos[..|nos|] == nos && (nos + [no])[..|nos| + 1] == nos + [no];
  }

  /** The first n pages of the chain are freed; the reference, which was r, leads to the others, and
      is otherwise as it was but for the length. */
  ghost predicate PartlyFreed(s: State, pages: Pages, r: Ref, nos: seq<int>, n: nat) {
    n <= |nos| && s.pages == pages - Elements(nos[..n]) && IsChain(s.pages, s.ref.pageNo, nos[n..]) &&
    s.ref == Ref(if n < |nos| then nos[n] else FIL_NULL, r.offset, 0, r.notOwner, r.inherited)
  }

  predicate MayFree(r: Ref, rollback: bool) {
    r != ZeroRef && r.pageNo != FIL_NULL && !r.notOwner && !(rollback && r.inherited)
  }

  lemma {:induction false} StartChain(pages: Pages, no: int, part: seq<Byte>)
    requires no !in pages && no != FIL_NULL && FIL_NULL !in pages
    ensures IsChain(Linked(pages, FIL_NULL, no, part), no, [no]) &&
            Content(Linked(pages, FIL_NULL, no, part), [no]) == part
  {
    assert [no][1..] == [];
  }

  /** One more page of the chain is freed. */
  lemma {:induction false} FreeStep(all: Pages, pages: Pages, nos: seq<int>, n: nat, no: int)
    requires n <= |nos| && pages == all - Elements(nos[..n]) && IsChain(pages, no, nos[n..]) && no != FIL_NULL
    ensures n < |nos| && no in pages && pages - {no} == all - Elements(nos[..n + 1])
    ensures IsChain(pages - {no}, pages[no].next, nos[n + 1..])
  {
    FreeOne(pages, no, nos[n..]);
    assert nos[n..][1..] == nos[n + 1..];
    assert nos[..n + 1] == nos[..n] + [no];
    assert Elements(nos[..n + 1]) == Elements(nos[..n]) + {no};
  }

  lemma {:induction false} FreeOne(pages: Pages, no: int, nos: seq<int>)
    requires IsChain(pages, no, nos) && nos != []
    ensures IsChain(pages - {no}, pages[no].next, nos[1..])
  {
    ChainInPages(pages, no, nos);
    ChainFrame(pages, pages - {no}, pages[no].next, nos[1..]);
  }

  /** The round trip of a long field: what stays in the record, followed by the stored bytes of
      the part that was moved out, is the value of the field. */
  lemma {:induction false} FieldComesBack(f: Field, no: nat, s: State, nos: seq<int>)
    requires f.data.Some? && |f.data.value| > LOCAL_LEN
    requires var b := MovedPart(f, no); Refers(s, nos, b.buffer[b.offset..b.offset + b.len])
    ensures Shortened(f).data.value[..LOCAL_PREFIX] + Content(s.pages, nos) == f.data.value
    ensures s.ref.len == |f.data.value| - LOCAL_PREFIX
  {
    assert Shortened(f).data.value[..LOCAL_PREFIX] == f.data.value[..LOCAL_PREFIX];
  }
}
