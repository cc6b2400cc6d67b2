/**
 The B-tree as pages linked by page numbers: descent, insert with page splits and root raise,
 delete with page discards (btr/btr0btr.cc, btr/btr0cur.cc). The ghost field `rows` is the shape
 of the tree; every operation keeps the pages in agreement with it.
 */
module Btree {
  import opened BtreePage
  import opened BtreeRows
  import Common

  const FIL_NULL: int := 0xFFFF_FFFF

  datatype Page = Page(level: nat, prev: int, next: int, recs: seq<Rec>)

  /** Search modes of a cursor. */
  datatype Mode = L | LE | G | GE

  predicate Strict(m: Mode) {
    m.L? || m.GE?
  }

  /** The mode used above the leaf level. */
  function PageMode(m: Mode): Mode {
    match m
    case GE => L
    case G => LE
    case _ => m
  }

  /** Where a search leaves the cursor on a page: -1 is infimum, |s| supremum. Modes L and LE
      stop on the last record before the cut, G and GE on the first one after it. */
  predicate CursorAt(s: seq<Rec>, pos: int, k: Key, m: Mode) {
    var c := if m.L? || m.LE? then pos + 1 else pos;
    c >= 0 && IsCut(s, c, k, Strict(m))
  }

  function PrevOf(row: Row, i: nat): int
    requires i < |row|
  {
    if i == 0 then FIL_NULL else row[i - 1].no
  }

  function NextPageOf(row: Row, i: nat): int
    requires i < |row|
  {
    if i + 1 == |row| then FIL_NULL else row[i + 1].no
  }

  /** Node i of a row is stored, with its links to both siblings. */
  predicate PageShown(pages: map<int, Page>, row: Row, level: nat, i: nat)
    requires i < |row|
  {
    row[i].no in pages && row[i].no != FIL_NULL &&
    pages[row[i].no] == Page(level, PrevOf(row, i), NextPageOf(row, i), row[i].recs)
  }

  predicate DistinctPages(row: Row) {
    forall i, j :: 0 <= i < j < |row| ==> row[i].no != row[j].no
  }

  predicate RowShown(pages: map<int, Page>, row: Row, level: nat) {
    DistinctPages(row) && forall i :: 0 <= i < |row| ==> PageShown(pages, row, level, i)
  }

  function Numbers(row: Row): set<int> {
    set i | 0 <= i < |row| :: row[i].no
  }

  predicate RowsShown(pages: map<int, Page>, rows: seq<Row>, low: nat)
    decreases |rows| - low
  {
    low < |rows| ==> RowShown(pages, rows[low], low) && RowsShown(pages, rows, low + 1)
  }

  /** No page of a level from `low` on is outside the rows. */
  predicate NoOtherPage(pages: map<int, Page>, rows: seq<Row>, low: nat) {
    forall p :: p in pages && pages[p].level >= low ==>
      pages[p].level < |rows| && p in Numbers(rows[pages[p].level])
  }

  /** The stored pages of the levels from `low` on are exactly the nodes of the rows. */
  predicate Shown(pages: map<int, Page>, rows: seq<Row>, low: nat) {
    RowsShown(pages, rows, low) && NoOtherPage(pages, rows, low)
  }

  lemma {:induction false} LevelShown(pages: map<int, Page>, rows: seq<Row>, low: nat, m: nat)
    requires RowsShown(pages, rows, low) && low <= m < |rows|
    ensures RowShown(pages, rows[m], m) && RowsShown(pages, rows, m)
    decreases |rows| - low
  {
    if low < m {
      LevelShown(pages, rows, low + 1, m);
    }
  }

  /** Pages below level `low` are the same. */
  predicate SameBelow(a: map<int, Page>, b: map<int, Page>, low: nat) {
    (forall p :: p in a && a[p].level < low ==> p in b && b[p] == a[p]) &&
    (forall p :: p in b && b[p].level < low ==> p in a && b[p] == a[p])
  }

  /** Only pages of one level differ. */
  predicate OnlyLevel(a: map<int, Page>, b: map<int, Page>, level: nat) {
    (forall p :: p in a && a[p].level != level ==> p in b && b[p] == a[p]) &&
    (forall p :: p in b && b[p].level != level ==> p in a && b[p] == a[p])
  }

  /** A page change that touches one level only leaves the other rows shown. */
  lemma {:induction false} OtherRow(a: map<int, Page>, b: map<int, Page>, row: Row, m: nat, level: nat)
    requires RowShown(a, row, m) && m != level
    requires forall p :: p in a && a[p].level != level ==> p in b && b[p] == a[p]
    ensures RowShown(b, row, m)
  {
    forall i | 0 <= i < |row| ensures PageShown(b, row, m, i) {
      assert PageShown(a, row, m, i);
    }
  }

  lemma {:induction false} OtherRows(a: map<int, Page>, rows: seq<Row>, b: map<int, Page>, rows': seq<Row>, low: nat,
                                     level: nat)
    requires RowsShown(a, rows, low) && |rows'| == |rows| && level < low
    requires forall p :: p in a && a[p].level != level ==> p in b && b[p] == a[p]
    requires forall m :: low <= m < |rows| ==> rows'[m] == rows[m]
    ensures RowsShown(b, rows', low)
    decreases |rows| - low
  {
    if low < |rows| {
      OtherRow(a, b, rows[low], low, level);
      OtherRows(a, rows, b, rows', low + 1, level);
    }
  }

  /** A change confined to the lowest level of a tower. */
  lemma {:induction false} ShownAfter(a: map<int, Page>, rows: seq<Row>, b: map<int, Page>, level: nat, row: Row)
    requires level < |rows| && Shown(a, rows, level + 1) && RowShown(b, row, level) && OnlyLevel(a, b, level)
    requires forall p :: p in b && b[p].level == level ==> p in Numbers(row)
    ensures Shown(b, rows[level := row], level)
    ensures SameBelow(a, b, level)
  {
    OtherRows(a, rows, b, rows[level := row], level + 1, level);
  }

  /** The stored page of node i gets the records x. */
  lemma {:induction false} ShowRecs(pages: map<int, Page>, row: Row, level: nat, i: nat, x: seq<Rec>)
    requires RowShown(pages, row, level) && i < |row|
    ensures PageShown(pages, row, level, i)
    ensures RowShown(pages[row[i].no := pages[row[i].no].(recs := x)], row[i := row[i].(recs := x)], level)
    ensures Numbers(row[i := row[i].(recs := x)]) == Numbers(row)
  {
    var no, row' := row[i].no, row[i := row[i].(recs := x)];
    assert PageShown(pages, row, level, i);
    var pages' := pages[no := pages[no].(recs := x)];
    forall j | 0 <= j < |row| ensures row'[j].no == row[j].no {
    }
    forall j | 0 <= j < |row| ensures PageShown(pages', row', level, j) {
      assert PageShown(pages, row, level, j);
    }
    forall p ensures p in Numbers(row') <==> p in Numbers(row) {
      if p in Numbers(row) {
        var j :| 0 <= j < |row| && row[j].no == p;
        assert row'[j].no == p;
      }
      if p in Numbers(row') {
        var j :| 0 <= j < |row| && row'[j].no == p;
        assert row[j].no == p;
      }
    }
  }

  /** page_cur_search: a binary search of one page. */
  method PageSearch(s: seq<Rec>, k: Key, m: Mode) returns (pos: int)
    requires Sorted(s)
    ensures CursorAt(s, pos, k, m)
  {
    var lo, hi := 0, |s|;
    while lo < hi
      invariant 0 <= lo <= hi <= |s|
      invariant lo > 0 ==> Below(s[lo - 1].key, k, Strict(m))
      invariant hi < |s| ==> !Below(s[hi].key, k, Strict(m))
    {
      var mid := (lo + hi) / 2;
      if Below(s[mid].key, k, Strict(m)) {
        lo := mid + 1;
      } else {
        hi := mid;
      }
    }
    CutFromEdge(s, lo, k, Strict(m));
    pos := if m.L? || m.LE? then lo - 1 else lo;
  }

  lemma {:induction false} CutFromEdge(s: seq<Rec>, c: nat, k: Key, strict: bool)
    requires Sorted(s) && c <= |s|
    requires c > 0 ==> Below(s[c - 1].key, k, strict)
    requires c < |s| ==> !Below(s[c].key, k, strict)
    ensures IsCut(s, c, k, strict)
  {
    forall i | 0 <= i < c ensures Below(s[i].key, k, strict) {
      assert i < c - 1 ==> Less(s[i].key, s[c - 1].key);
    }
    forall i | c <= i < |s| ensures !Below(s[i].key, k, strict) {
      assert i > c ==> Less(s[c].key, s[i].key);
    }
  }

  // ----- modify clocks -----

  type Clocks = map<int, int>

  /** The modify clock of the block that holds a page. It outlives the page. */
  function ClockOf(clocks: Clocks, no: int): int {
    if no in clocks then clocks[no] else 0
  }

  /** buf_block_modify_clock_inc. */
  function Bump(clocks: Clocks, no: int): Clocks {
    clocks[no := ClockOf(clocks, no) + 1]
  }

  ghost predicate Advance(clocks: Clocks, clocks': Clocks) {
    forall no :: ClockOf(clocks, no) <= ClockOf(clocks', no)
  }

  predicate HasKey(s: seq<Rec>, k: Key) {
    exists r :: r in s && r.key == k
  }

  /** Page `no` is on the level and has a record with key k. */
  ghost predicate HasRecord(row: Row, no: int, k: Key) {
    exists i :: 0 <= i < |row| && row[i].no == no && HasKey(row[i].recs, k)
  }

  /** While the clock of a page stands still, no record leaves the page. */
  ghost predicate Kept(row: Row, clocks: Clocks, row': Row, clocks': Clocks) {
    forall no, k :: HasRecord(row, no, k) && ClockOf(clocks', no) == ClockOf(clocks, no) ==> HasRecord(row', no, k)
  }

  /** What an operation on a level does to the clocks: they never go back, and on the leaf level
      no record leaves its page unnoticed. */
  ghost predicate Clocked(level: nat, row: Row, clocks: Clocks, row': Row, clocks': Clocks) {
    Advance(clocks, clocks') && (level == 0 ==> Kept(row, clocks, row', clocks'))
  }

  class Tree {
    /** The root page number never changes. */
    const root: int
    var pages: map<int, Page>
    var clocks: Clocks
    ghost var rows: seq<Row>

    /** The levels from `low` up are a search tree and stored as such. */
    ghost predicate TowerAt(low: nat)
      reads this
    {
      Tower(rows, low, root) && Shown(pages, rows, low)
    }

    /** The tree is well formed, and no page is stored that is not part of it. */
    ghost predicate Valid()
      reads this
    {
      TowerAt(0)
    }

    /** The index records in key order. */
    ghost function Records(): seq<Rec>
      requires |rows| > 0
      reads this
    {
      Flat(rows[0])
    }

    /** The loop of search_to_nth_level: from the root down to `level`, following on each page
        the pointer on which a search with the page mode stops. */
    method Descend(level: nat, k: Key, mode: Mode) returns (no: int, ghost i: nat)
      requires TowerAt(level) && (k.At? || mode.LE?)
      ensures OnPath(rows, level, i, k, Strict(mode)) && rows[level][i].no == no
    {
      no := root;
      i := 0;
      RootPage(pages, rows, level, root, k, Strict(mode));
      var height := pages[root].level;
      while height != level
        invariant level <= height < |rows| && OnPath(rows, height, i, k, Strict(mode)) && rows[height][i].no == no
        decreases height
      {
        PathPage(pages, rows, level, root, height, i);
        var pos := PageSearch(pages[no].recs, k, PageMode(mode));
        PathDown(rows, level, root, height, i, pos + 1, k, Strict(mode));
        no := pages[no].recs[pos].child;
        i := Offset(rows[height], i) + pos;
        height := height - 1;
      }
    }

    /** search_to_nth_level: the cursor stops at the cut that a search of the level's flat
        sequence of records gives. Searches that end above the leaf level use mode LE. */
    method SearchToNthLevel(level: nat, k: Key, mode: Mode) returns (no: int, pos: int, ghost i: nat)
      requires TowerAt(level) && (k.At? || mode.LE?)
      requires level > 0 ==> mode.LE?
      ensures OnPath(rows, level, i, k, Strict(mode)) && rows[level][i].no == no
      ensures no in pages && pages[no].level == level && pages[no].recs == rows[level][i].recs
      ensures CursorAt(rows[level][i].recs, pos, k, mode)
      ensures CursorAt(Flat(rows[level]), Offset(rows[level], i) + pos, k, mode)
    {
      no, i := Descend(level, k, mode);
      PathPage(pages, rows, level, root, level, i);
      pos := PageSearch(pages[no].recs, k, mode);
      PathCut(rows, level, root, level, i, if mode.L? || mode.LE? then pos + 1 else pos, k, Strict(mode));
    }

    /** page_get_father_node_ptr: the search for a record of a page finds the node pointer to
        that page, so the test for a corrupt tree never succeeds. */
    method PageGetFather(level: nat, no: int, rec: Rec, ghost i: nat) returns (father: int, pos: nat, ghost f: nat)
      requires level + 1 < |rows| && TowerAt(level + 1) && Linked(rows[level], Flat(rows[level + 1]), level > 0)
      requires i < |rows[level]| && rows[level][i].no == no && rec in rows[level][i].recs
      ensures f < |rows[level + 1]| && rows[level + 1][f].no == father && father in pages
      ensures pages[father].level == level + 1 && pages[father].recs == rows[level + 1][f].recs
      ensures pos < |pages[father].recs| && pages[father].recs[pos].child == no
      ensures Offset(rows[level + 1], f) + pos == i
    {
      var p;
      father, p, f := SearchToNthLevel(level + 1, rec.key, LE);
      FatherFound(rows, level, root, i, rec, f, p);
      pos := p;
    }

    /** Insert on a page that has room (tuple_insert of an optimistic insert). The page may have
        to be reorganized for it, which moves its clock. */
    method InsertOnPage(level: nat, no: int, c: nat, r: Rec, ghost i: nat)
      requires TowerAt(level) && InsertPoint(rows, level, i, c, r) && rows[level][i].no == no
      requires Fits(Insert(rows[level][i].recs, c, r))
      modifies this
      ensures TowerAt(level) && rows == old(rows)[level := rows[level]]
      ensures Inserted(old(Flat(rows[level])), Flat(rows[level]), r)
      ensures SameBelow(old(pages), pages, level)
      ensures Clocked(level, old(rows[level]), old(clocks), rows[level], clocks)
    {
      PathPage(pages, rows, level, root, level, i);
      var recs := Insert(pages[no].recs, c, r);
      InsertKeepsTower(rows, level, root, i, c, r);
      ShowRecs(pages, rows[level], level, i, recs);
      ghost var row := rows[level][i := rows[level][i].(recs := recs)];
      ShownAfter(pages, rows, pages[no := pages[no].(recs := recs)], level, row);
      var reorganized: bool := *;
      InsertClocked(rows[level], level, i, c, r, clocks, no);
      pages := pages[no := pages[no].(recs := recs)];
      clocks := if reorganized then Bump(clocks, no) else clocks;
      rows := rows[level := row];
    }

    /** The links of attach_half_pages: the stored page of node i and the new page become
        neighbours, the new one below (direction down) or above the old one. */
    method LinkHalfPages(level: nat, no: int, newNo: int, down: bool, ghost row: Row, ghost i: nat)
      requires RowShown(pages, row, level) && i < |row| && row[i].no == no
      requires newNo in pages && newNo !in Numbers(row) && newNo != FIL_NULL
      requires pages[newNo].level == level && pages[newNo].recs == []
      modifies this`pages
      ensures RowShown(pages, AttachedRow(row, i, newNo, down), level)
      ensures OnlyLevel(old(pages), pages, level) && pages.Keys == old(pages).Keys
    {
      assert PageShown(pages, row, level, i);
      var lower := if down then newNo else no;
      var upper := if down then no else newNo;
      var prev, next := pages[no].prev, pages[no].next;
      NeighboursStored(pages, row, level, i);
      LinkUpdates(pages, level, no, newNo, down, prev, next);
      pages := SetNext(pages, prev, lower);
      pages := SetPrev(pages, next, upper);
      pages := SetPrev(pages, lower, prev);
      pages := SetNext(pages, lower, upper);
      pages := SetPrev(pages, upper, lower);
      pages := SetNext(pages, upper, next);
      LinkedInShown(old(pages), pages, row, level, if down then i else i + 1, newNo);
    }

    /** Replace the address in the node pointer to page `no` by another page number. */
    method SetFatherChild(level: nat, no: int, child: int, ghost i: nat)
      requires level + 1 < |rows| && TowerAt(level + 1) && Linked(rows[level], Flat(rows[level + 1]), level > 0)
      requires i < |rows[level]| && rows[level][i].no == no && no in pages
      requires pages[no].recs == rows[level][i].recs != []
      modifies this`pages, this`rows
      ensures TowerAt(level + 1) && rows == old(rows)[level + 1 := rows[level + 1]]
      ensures Flat(rows[level + 1]) == old(Flat(rows[level + 1]))[i := old(Flat(rows[level + 1]))[i].(child := child)]
      ensures SameBelow(old(pages), pages, level + 1)
    {
      var father, pos, f := PageGetFather(level, no, pages[no].recs[0], i);
      var recs := pages[father].recs;
      var recs' := recs[pos := recs[pos].(child := child)];
      ghost var row := rows[level + 1][f := rows[level + 1][f].(recs := recs')];
      ChildKeepsTower(rows, level + 1, root, f, pos, child);
      LevelShown(pages, rows, level + 1, level + 1);
      ShowRecs(pages, rows[level + 1], level + 1, f, recs');
      ShownAfter(pages, rows, pages[father := pages[father].(recs := recs')], level + 1, row);
      pages := pages[father := pages[father].(recs := recs')];
      rows := rows[level + 1 := row];
    }

    /** The node pointer of the upper half goes into the level above, right after the one that
        leads to the lower half; this may split pages there. */
    method InsertUpperPointer(level: nat, no: int, first: Rec, newNo: int, down: bool, ghost i: nat)
      requires level + 1 < |rows| && TowerAt(level + 1) && Linked(rows[level], Flat(rows[level + 1]), level > 0)
      requires i < |rows[level]| && rows[level][i].no == no && no in pages
      requires pages[no].recs == rows[level][i].recs != []
      requires Small(first) && first.key.At? && InRange(first.key, Flat(rows[level + 1]), i)
      requires Less(Flat(rows[level + 1])[i].key, first.key)
      modifies this
      decreases |Flat(rows[level + 1])|, 3
      ensures |rows| >= |old(rows)| && rows[..level + 1] == old(rows)[..level + 1] && TowerAt(level + 1)
      ensures Flat(rows[level + 1])
           == SplitPtrs(old(Flat(rows[level + 1])), i, if down then newNo else no,
                        NodePtr(first, if down then no else newNo))
      ensures SameBelow(old(pages), pages, level + 1)
      ensures Advance(old(clocks), clocks)
    {
      ghost var ptrs := Flat(rows[level + 1]);
      if down {
        SetFatherChild(level, no, newNo, i);
      } else {
        PointerStands(rows[level], ptrs, i, level > 0);
      }
      var p := NodePtr(first, if down then no else newNo);
      NewPointerKey(ptrs, i, Flat(rows[level + 1]), p.key);
      InsertOnLevel(level + 1, p);
      SplitPtrsInsert(ptrs, i, if down then newNo else no, p, Flat(rows[level + 1]));
    }

    /** attach_half_pages: the upper half gets its node pointer, and the new page is linked to
        its neighbours. */
    method AttachHalfPages(level: nat, no: int, first: Rec, newNo: int, down: bool, ghost i: nat)
      requires level + 1 < |rows| && TowerAt(level + 1) && Linked(rows[level], Flat(rows[level + 1]), level > 0)
      requires RowShown(pages, rows[level], level) && i < |rows[level]| && rows[level][i].no == no
      requires rows[level][i].recs != []
      requires newNo in pages && newNo !in Numbers(rows[level]) && newNo != FIL_NULL
      requires pages[newNo].level == level && pages[newNo].recs == []
      requires Small(first) && first.key.At? && InRange(first.key, Flat(rows[level + 1]), i)
      requires Less(Flat(rows[level + 1])[i].key, first.key)
      modifies this
      decreases |Flat(rows[level + 1])|, 4
      ensures |rows| >= |old(rows)| && rows[..level + 1] == old(rows)[..level + 1] && TowerAt(level + 1)
      ensures Flat(rows[level + 1])
           == SplitPtrs(old(Flat(rows[level + 1])), i, if down then newNo else no,
                        NodePtr(first, if down then no else newNo))
      ensures RowShown(pages, AttachedRow(rows[level], i, newNo, down), level)
      ensures SameBelow(old(pages), pages, level) && PagesOn(pages, level) == old(PagesOn(pages, level))
      ensures Advance(old(clocks), clocks)
    {
      assert PageShown(pages, rows[level], level, i);
      ghost var row := rows[level];
      InsertUpperPointer(level, no, first, newNo, down, i);
      assert rows[level] == rows[..level + 1][level] == row;
      label Inserted:
      BelowRowShown(old(pages), pages, row, level);
      LinkHalfPages(level, no, newNo, down, row, i);
      OtherRowsShown(old@Inserted(pages), pages, rows, level);
      SameOn(old(pages), old@Inserted(pages), level);
      SameLevels(old@Inserted(pages), pages, level);
    }

    /** page_alloc and page_create: an unused page number and an empty page of the level. */
    method AllocPage(level: nat) returns (no: int)
      modifies this`pages, this`clocks
      ensures no !in old(pages) && no != FIL_NULL
      ensures pages == old(pages)[no := Page(level, FIL_NULL, FIL_NULL, [])] && clocks == Bump(old(clocks), no)
    {
      Common.UnusedNumber(pages.Keys + {FIL_NULL});
      no :| no !in pages.Keys + {FIL_NULL};
      pages := pages[no := Page(level, FIL_NULL, FIL_NULL, [])];
      clocks := Bump(clocks, no);
    }

    /** Steps 2 to 4 of page_split_and_insert: an empty new page is attached below (direction
        down) or above page `no`. */
    method AttachNewPage(level: nat, no: int, first: Rec, down: bool, ghost i: nat) returns (newNo: int)
      requires TowerAt(level) && level + 1 < |rows| && i < |rows[level]| && rows[level][i].no == no
      requires Small(first) && first.key.At? && i < |Flat(rows[level + 1])| &&
               InRange(first.key, Flat(rows[level + 1]), i)
      requires Less(Flat(rows[level + 1])[i].key, first.key)
      modifies this
      decreases |Flat(rows[level + 1])|, 5
      ensures |rows| >= |old(rows)| && rows[..level + 1] == old(rows)[..level + 1] && TowerAt(level + 1)
      ensures Flat(rows[level + 1])
           == SplitPtrs(old(Flat(rows[level + 1])), i, if down then newNo else no,
                        NodePtr(first, if down then no else newNo))
      ensures RowShown(pages, AttachedRow(old(rows[level]), i, newNo, down), level)
      ensures PagesOn(pages, level) == Numbers(AttachedRow(old(rows[level]), i, newNo, down))
      ensures SameBelow(old(pages), pages, level)
      ensures Advance(old(clocks), clocks)
    {
      TowerLevel(rows, level, root, level);
      assert NodeOk(rows[level][i], false);
      newNo := AllocPage(level);
      NewPageShown(old(pages), rows, level, newNo);
      AttachedNumbers(rows[level], i, newNo, down);
      label Alloced:
      AttachHalfPages(level, no, first, newNo, down, i);
      assert rows[level] == rows[..level + 1][level] == old(rows[level]);
      SameBelowTransitive(old(pages), old@Alloced(pages), pages, level);
      BumpAdvances(old(clocks), newNo);
      AdvanceTransitive(old(clocks), old@Alloced(clocks), clocks);
    }

    /** Steps 2 to 5 of page_split_and_insert: page `no` is split, the upper half gets a node
        pointer built from `first`, and the two half pages get their records. The clock of the
        page moves if records leave it. */
    method SplitNode(level: nat, no: int, recs: seq<Rec>, first: Rec, down: bool, loRecs: seq<Rec>, upRecs: seq<Rec>,
                     ghost i: nat)
      returns (lower: int, upper: int)
      requires TowerAt(level) && level + 1 < |rows| && i < |rows[level]| && rows[level][i] == Node(no, recs)
      requires HalvesUnder(loRecs, upRecs, Flat(rows[level + 1]), i, first.key, level > 0)
      requires Small(first) && first.key.At? && Less(Flat(rows[level + 1])[i].key, first.key)
      requires NodeOk(Node(no, loRecs), false) && NodeOk(Node(no, upRecs), false)
      requires Ordered(Flat(rows[level][..i]) + (loRecs + upRecs) + Flat(rows[level][i + 1..]), level > 0)
      modifies this
      decreases |Flat(rows[level + 1])|, 7
      ensures |rows| >= |old(rows)| && rows[..level] == old(rows)[..level] && TowerAt(level) && level + 1 < |rows|
      ensures rows[level] == SplitRow(old(rows[level]), i, Node(lower, loRecs), Node(upper, upRecs))
      ensures Flat(rows[level + 1]) == SplitPtrs(old(Flat(rows[level + 1])), i, lower, NodePtr(first, upper))
      ensures SameBelow(old(pages), pages, level)
      ensures Clocked(level, old(rows[level]), old(clocks), rows[level], clocks)
    {
      lower, upper := SplitPages(level, no, first, down, loRecs, upRecs, i);
      SplitClocked(old(rows[level]), level, i, Node(lower, loRecs), Node(upper, upRecs), no, down, old(clocks), clocks);
      clocks := if AllIn(recs, if down then upRecs else loRecs) then clocks else Bump(clocks, no);
    }

    method SplitPages(level: nat, no: int, first: Rec, down: bool, loRecs: seq<Rec>, upRecs: seq<Rec>, ghost i: nat)
      returns (lower: int, upper: int)
      requires TowerAt(level) && level + 1 < |rows| && i < |rows[level]| && rows[level][i].no == no
      requires HalvesUnder(loRecs, upRecs, Flat(rows[level + 1]), i, first.key, level > 0)
      requires Small(first) && first.key.At? && Less(Flat(rows[level + 1])[i].key, first.key)
      requires NodeOk(Node(no, loRecs), false) && NodeOk(Node(no, upRecs), false)
      requires Ordered(Flat(rows[level][..i]) + (loRecs + upRecs) + Flat(rows[level][i + 1..]), level > 0)
      modifies this
      decreases |Flat(rows[level + 1])|, 6
      ensures |rows| >= |old(rows)| && rows[..level] == old(rows)[..level] && TowerAt(level) && level + 1 < |rows|
      ensures rows[level] == SplitRow(old(rows[level]), i, Node(lower, loRecs), Node(upper, upRecs))
      ensures Flat(rows[level + 1]) == SplitPtrs(old(Flat(rows[level + 1])), i, lower, NodePtr(first, upper))
      ensures SameBelow(old(pages), pages, level)
      ensures Advance(old(clocks), clocks) && no == if down then upper else lower
    {
      var newNo := AttachNewPage(level, no, first, down, i);
      lower := if down then newNo else no;
      upper := if down then no else newNo;
      ghost var row := SplitRow(old(rows[level]), i, Node(lower, loRecs), Node(upper, upRecs));
      FinishSplit(old(rows), old(pages), rows, pages, level, root, i, newNo, down, Node(lower, loRecs),
                  Node(upper, upRecs), first);
      pages := pages[lower := pages[lower].(recs := loRecs)];
      pages := pages[upper := pages[upper].(recs := upRecs)];
      rows := rows[level := row];
    }

    /** page_split_and_insert: after at most two splits the tuple is on its half page. The
        record that PAGE_LAST_INSERT points to is arbitrary. */
    method PageSplitAndInsert(level: nat, no: int, c: nat, r: Rec, ghost i: nat)
      requires TowerAt(level) && level + 1 < |rows| && InsertPoint(rows, level, i, c, r)
      requires rows[level][i].no == no && |rows[level][i].recs| >= 2
      modifies this
      decreases |Flat(rows[level])|, 0
      ensures |rows| >= |old(rows)| && rows[..level] == old(rows)[..level] && TowerAt(level)
      ensures Inserted(old(Flat(rows[level])), Flat(rows[level]), r)
      ensures SameBelow(old(pages), pages, level)
      ensures Clocked(level, old(rows[level]), old(clocks), rows[level], clocks)
    {
      ghost var flat := Flat(rows[level]);
      var last: int := *;
      PathPage(pages, rows, level, root, level, i);
      SplitFactsOnPage(rows, level, root, i, c, r);
      var recs := pages[no].recs;
      var split, down, left := DecideSplit(recs, c, r, false, last);
      var fits := PageInsertFits(recs, c, r, split);
      if fits {
        SplitFitting(level, no, c, r, split, down, i);
      } else {
        var lower, upper := SplitWithout(level, no, c, r, split.i, down, i);
        ghost var i' := if left then i else i + 1;
        var no', c' := if left then lower else upper, if left then c else c - split.i;
        PathPage(pages, rows, level, root, level, i');
        SplitFactsOnPage(rows, level, root, i', c', r);
        var recs' := pages[no'].recs;
        var split', down', left' := DecideSplit(recs', c', r, true, last);
        label Again:
        SplitFitting(level, no', c', r, split', down', i');
        SameBelowTransitive(old(pages), old@Again(pages), pages, level);
        ClockedTransitive(level, old(rows[level]), old(clocks), old@Again(rows[level]), old@Again(clocks),
                          rows[level], clocks);
      }
    }

    /** A split after which the tuple fits on its half page. */
    method SplitFitting(level: nat, no: int, c: nat, r: Rec, split: Position, down: bool, ghost i: nat)
      requires TowerAt(level) && level + 1 < |rows| && InsertPoint(rows, level, i, c, r)
      requires rows[level][i].no == no && |rows[level][i].recs| >= 2
      requires split.Tuple? || (split.User? && split.i < |rows[level][i].recs|)
      requires 1 <= ItemOf(split, c) <= |rows[level][i].recs|
      requires Fits(TupleHalf(Insert(rows[level][i].recs, c, r), c, split))
      modifies this
      decreases |Flat(rows[level + 1])|, 8
      ensures |rows| >= |old(rows)| && rows[..level] == old(rows)[..level] && TowerAt(level) && level + 1 < |rows|
      ensures Inserted(old(Flat(rows[level])), Flat(rows[level]), r)
      ensures SameBelow(old(pages), pages, level)
      ensures Clocked(level, old(rows[level]), old(clocks), rows[level], clocks)
    {
      PathPage(pages, rows, level, root, level, i);
      FittingSplit(rows, level, root, i, c, r, split);
      var s, m := Insert(pages[no].recs, c, r), ItemOf(split, c);
      var lower, upper := SplitNode(level, no, pages[no].recs, s[m], down, s[..m], s[m..], i);
      SplitFlat(old(rows[level]), i, Node(lower, s[..m]), Node(upper, s[m..]));
    }

    /** A split in front of record q whose halves do not take the tuple yet: the cursor moves to
        the tuple's half. */
    method SplitWithout(level: nat, no: int, c: nat, r: Rec, q: nat, down: bool, ghost i: nat)
      returns (lower: int, upper: int)
      requires TowerAt(level) && level + 1 < |rows| && InsertPoint(rows, level, i, c, r)
      requires rows[level][i].no == no && |rows[level][i].recs| >= 2
      requires q < |rows[level][i].recs| && 1 <= ItemOf(User(q), c) <= |rows[level][i].recs|
      requires !Fits(TupleHalf(Insert(rows[level][i].recs, c, r), c, User(q)))
      modifies this
      decreases |Flat(rows[level + 1])|, 8
      ensures |rows| >= |old(rows)| && rows[..level] == old(rows)[..level] && TowerAt(level) && level + 1 < |rows|
      ensures Flat(rows[level]) == old(Flat(rows[level]))
      ensures var left := q >= c;
              var i', c' := if left then i else i + 1, if left then c else c - q;
              c' >= 0 && InsertPoint(rows, level, i', c', r) && |rows[level][i'].recs| >= 2 &&
              rows[level][i'].no == if left then lower else upper
      ensures SameBelow(old(pages), pages, level)
      ensures Clocked(level, old(rows[level]), old(clocks), rows[level], clocks)
    {
      PathPage(pages, rows, level, root, level, i);
      UnfitHalves(rows, level, root, i, c, r, q);
      var recs := pages[no].recs;
      lower, upper := SplitNode(level, no, recs, recs[q], down, recs[..q], recs[q..], i);
      UnfitInsertPoint(old(rows), rows, level, i, c, r, q, lower, upper);
    }

    /** The first part of root_raise_and_insert: the root's records move to a new page, and the
        root becomes a page of the next level with one node pointer, marked as the minimum
        record, to it. */
    method RootRaise(level: nat, ghost c: nat, ghost r: Rec) returns (newNo: int)
      requires TowerAt(level) && level + 1 == |rows| && InsertPoint(rows, level, 0, c, r) && rows[level][0].recs != []
      modifies this
      ensures TowerAt(level) && |rows| == |old(rows)| + 1 && rows[..level] == old(rows)[..level]
      ensures rows[level] == [Node(newNo, old(rows[level][0].recs))]
      ensures InsertPoint(rows, level, 0, c, r) && Flat(rows[level]) == old(Flat(rows[level]))
      ensures SameBelow(old(pages), pages, level)
      ensures Clocked(level, old(rows[level]), old(clocks), rows[level], clocks)
    {
      PathPage(pages, rows, level, root, level, 0);
      newNo := AllocPage(level);
      RaiseKeepsTower(rows, level, root, newNo, c, r);
      RaiseShown(rows, old(pages), level, root, newNo);
      RaiseClocked(rows[level], level, root, newNo, clocks, old(clocks));
      pages := pages[newNo := Page(level, FIL_NULL, FIL_NULL, pages[root].recs)];
      var nodePtr := NodePtr(pages[newNo].recs[0], newNo).(key := Min);
      pages := pages[root := Page(level + 1, FIL_NULL, FIL_NULL, [nodePtr])];
      assert pages == old(pages)[newNo := pages[newNo]][root := pages[root]];
      clocks := Bump(clocks, root);
      rows := RaisedRows(rows, level, root, newNo);
    }

    /** pessimistic_insert: an optimistic insert that finds room ends it; a page with at most one
        record always has room. Whether an insert that would fit is nevertheless refused, to
        leave space for updates or because of garbage on the page, is arbitrary. */
    method PessimisticInsert(level: nat, no: int, c: nat, r: Rec, ghost i: nat)
      requires TowerAt(level) && InsertPoint(rows, level, i, c, r) && rows[level][i].no == no
      modifies this
      decreases |Flat(rows[level])|, 1
      ensures |rows| >= |old(rows)| && rows[..level] == old(rows)[..level] && TowerAt(level)
      ensures Inserted(old(Flat(rows[level])), Flat(rows[level]), r)
      ensures SameBelow(old(pages), pages, level)
      ensures Clocked(level, old(rows[level]), old(clocks), rows[level], clocks)
    {
      PathPage(pages, rows, level, root, level, i);
      var recs := pages[no].recs;
      var refused: bool := *;
      RoomForTwo(rows[level][i], c, r, level == 0 && level + 1 == |rows|);
      if |recs| <= 1 || (Fits(Insert(recs, c, r)) && !refused) {
        InsertOnPage(level, no, c, r, i);
      } else if no == root {
        RootIsTop(pages, rows, level, root, i);
        var newNo := RootRaise(level, c, r);
        label Raised:
        PageSplitAndInsert(level, newNo, c, r, 0);
        SameBelowTransitive(old(pages), old@Raised(pages), pages, level);
        ClockedTransitive(level, old(rows[level]), old(clocks), old@Raised(rows[level]), old@Raised(clocks),
                          rows[level], clocks);
      } else {
        OnlyRootIsTop(rows, level, root, i);
        PageSplitAndInsert(level, no, c, r, i);
      }
    }

    /** insert_on_non_leaf_level, and the entry of a leaf insert: search in mode LE from the root
        and insert at the cursor. */
    method InsertOnLevel(level: nat, r: Rec)
      requires TowerAt(level) && r.key.At? && Small(r)
      requires forall x :: 0 <= x < |Flat(rows[level])| ==> Flat(rows[level])[x].key != r.key
      modifies this
      decreases |Flat(rows[level])|, 2
      ensures |rows| >= |old(rows)| && rows[..level] == old(rows)[..level] && TowerAt(level)
      ensures Inserted(old(Flat(rows[level])), Flat(rows[level]), r)
      ensures SameBelow(old(pages), pages, level)
      ensures Clocked(level, old(rows[level]), old(clocks), rows[level], clocks)
    {
      var no, pos, i := SearchToNthLevel(level, r.key, LE);
      SearchFindsInsertPoint(rows, level, root, i, pos, r);
      PessimisticInsert(level, no, pos + 1, r, i);
    }

    /** Inserting a record with a new key: it gets its place in the key order, the tree stays
        well formed and keeps its root page. */
    method InsertRecord(r: Rec)
      requires Valid() && r.key.At? && Small(r)
      requires forall x :: 0 <= x < |Records()| ==> Records()[x].key != r.key
      modifies this
      ensures Valid() && Inserted(old(Records()), Records(), r)
      ensures Advance(old(clocks), clocks) && Kept(old(rows[0]), old(clocks), rows[0], clocks)
    {
      assert Records() == Flat(rows[0]);
      InsertOnLevel(0, r);
    }

    /** level_list_remove and page_free: the neighbours are linked to each other, and the page
        leaves the tree. */
    method UnlinkAndFree(level: nat, no: int, ghost row: Row, ghost i: nat)
      requires RowShown(pages, row, level) && i < |row| && row[i].no == no
      modifies this`pages, this`clocks
      ensures RowShown(pages, row[..i] + row[i + 1..], level) && clocks == Bump(old(clocks), no)
      ensures OnlyLevel(old(pages), pages, level) && pages.Keys == old(pages).Keys - {no}
    {
      NeighboursStored(pages, row, level, i);
      var prev, next := pages[no].prev, pages[no].next;
      UnlinkUpdates(pages, level, no, prev, next);
      UnlinkedShown(pages, row, level, i);
      pages := SetNext(pages, prev, next);
      pages := SetPrev(pages, next, prev);
      pages := pages - {no};
      clocks := Bump(clocks, no);
    }

    /** node_ptr_delete: the node pointer to page `no` is found through one of its records and
        deleted on the level above. */
    method NodePtrDelete(level: nat, no: int, rec: Rec, ghost i: nat)
      requires level + 1 < |rows| && TowerAt(level + 1) && Linked(rows[level], Flat(rows[level + 1]), level > 0)
      requires i < |rows[level]| && rows[level][i].no == no && rec in rows[level][i].recs && |rows[level]| > 1
      modifies this
      decreases |rows| - level - 1, 2
      ensures level + 1 < |rows| && TowerAt(level + 1) && rows[..level + 1] == old(rows)[..level + 1]
      ensures Flat(rows[level + 1]) == Without(old(Flat(rows[level + 1])), i, true)
      ensures SameBelow(old(pages), pages, level + 1)
      ensures Advance(old(clocks), clocks)
    {
      var father, pos, f := PageGetFather(level, no, rec, i);
      PessimisticDelete(level + 1, father, pos, f);
      PointerGone(old(rows[level + 1]), f, pos, i, rows[level + 1]);
    }

    /** First half of discard_page for a page with a sibling. When the leftmost page of a
        non-leaf level goes, the first record of its right neighbour is marked as the minimum
        record. Then the node pointer to the page is deleted. */
    method DiscardPointer(level: nat, no: int, ghost i: nat)
      requires TowerAt(level) && level + 1 < |rows| && i < |rows[level]| && rows[level][i].no == no
      requires rows[level][i].recs != [] && |rows[level]| > 1 && rows[level][1].recs != []
      modifies this
      decreases |rows| - level - 1, 3
      ensures level + 1 < |rows| && TowerAt(level + 1) && rows[..level + 1] == old(rows)[..level + 1]
      ensures Flat(rows[level + 1]) == Without(old(Flat(rows[level + 1])), i, true)
      ensures RowShown(pages, MarkedRow(old(rows[level]), i, level > 0), level)
      ensures SameBelow(old(pages), pages, level) && PagesOn(pages, level) == Numbers(old(rows[level]))
      ensures Advance(old(clocks), clocks)
    {
      TowerLevel(rows, level, root, level);
      LevelShown(pages, rows, level, level);
      NeighboursStored(pages, rows[level], level, i);
      var page := pages[no];
      assert PageShown(pages, rows[level], level, i) && PageShown(pages, rows[level], level, 1);
      if page.prev == FIL_NULL && page.level > 0 {
        var right := pages[page.next].recs;
        pages := pages[page.next := pages[page.next].(recs := right[0 := right[0].(key := Min)])];
      }
      MarkShown(old(pages), rows, level, i, pages);
      label Marked:
      NodePtrDelete(level, no, page.recs[0], i);
      BelowRowShown(old@Marked(pages), pages, MarkedRow(old(rows[level]), i, level > 0), level);
      SameOn(old@Marked(pages), pages, level);
    }

    /** The rest of discard_page for a page with a sibling: it is taken off the level list and
        freed. */
    method DiscardWithSibling(level: nat, no: int, ghost i: nat)
      requires TowerAt(level) && level + 1 < |rows| && i < |rows[level]| && rows[level][i].no == no
      requires |rows[level][i].recs| == 1 && |rows[level]| > 1
      modifies this
      decreases |rows| - level - 1, 4
      ensures level < |rows| && TowerAt(level) && rows[..level] == old(rows)[..level]
      ensures RecordGone(old(rows[level]), i, 0, level > 0, rows[level])
      ensures SameBelow(old(pages), pages, level)
      ensures Clocked(level, old(rows[level]), old(clocks), rows[level], clocks)
    {
      ghost var row := rows[level];
      DiscardKeepsRow(row, level, i);
      DiscardPointer(level, no, i);
      assert rows[..level] == rows[..level + 1][..level];
      label Deleted:
      UnlinkAndFree(level, no, MarkedRow(row, i, level > 0), i);
      DiscardKeepsTower(old(rows), rows, level, root, i);
      MarkedDiscard(row, i, level > 0);
      DiscardClocked(row, level, i, old(clocks), old@Deleted(clocks));
      DiscardPages(old(pages), rows, old@Deleted(pages), pages, level, row, i, DiscardRow(row, i, level > 0));
      rows := rows[level := DiscardRow(row, i, level > 0)];
    }

    /** discard_only_page_on_level: every page from the leaf up to the root is the only one of
        its level and holds one record; they are freed and the root becomes an empty leaf. */
    method DiscardOnlyPageOnLevel(leaf: int)
      requires TowerAt(0) && |rows[0]| == 1 && rows[0][0].no == leaf && |rows[0][0].recs| == 1 && leaf != root
      modifies this
      ensures rows == [[Node(root, [])]] && TowerAt(0)
      ensures Advance(old(clocks), clocks) && Kept(old(rows[0]), old(clocks), rows[0], clocks)
    {
      var no, pageLevel := leaf, 0;
      assert rows[0] == [rows[0][0]];
      while no != root
        invariant pageLevel < |rows| && rows == old(rows) && TowerAt(pageLevel) && OnlyPage(rows, pageLevel, no)
        invariant forall p :: p in pages ==> pages[p].level >= pageLevel
        invariant Advance(old(clocks), clocks) && (pageLevel == 0 ==> no == leaf)
        invariant pageLevel > 0 ==> ClockOf(clocks, leaf) > ClockOf(old(clocks), leaf)
        decreases |rows| - pageLevel
      {
        OnlyRootIsTop(rows, pageLevel, root, 0);
        assert PageShown(pages, rows[pageLevel], pageLevel, 0);
        var page := pages[no];
        // the assertions that the source makes about every page on the way
        assert |page.recs| == 1 && page.level == pageLevel && page.prev == FIL_NULL && page.next == FIL_NULL;
        var father, pos, f := PageGetFather(pageLevel, no, page.recs[0], 0);
        OnlyPageAbove(rows, pageLevel, root, no);
        label Freeing:
        pages := pages - {no};
        BumpAdvances(clocks, no);
        AdvanceTransitive(old(clocks), clocks, Bump(clocks, no));
        clocks := Bump(clocks, no);
        FreeOnlyPage(old@Freeing(pages), rows, pageLevel, no);
        no := father;
        pageLevel := pageLevel + 1;
      }
      RootIsTop(pages, rows, pageLevel, root, 0);
      assert PageShown(pages, rows[pageLevel], pageLevel, 0);
      EmptyTree(pages, rows, pageLevel, root);
      pages := pages[root := pages[root].(level := 0, recs := [])];
      BumpAdvances(clocks, root);
      AdvanceTransitive(old(clocks), clocks, Bump(clocks, root));
      clocks := Bump(clocks, root);
      rows := [[Node(root, [])]];
    }

    /** The branch of pessimistic_delete for the first record of a non-leaf page with a left
        neighbour: the node pointer to the page is replaced by one with the next record's key. */
    method ReplaceNodePtr(level: nat, no: int, ghost i: nat)
      requires level > 0 && TowerAt(level) && 0 < i < |rows[level]| && rows[level][i].no == no
      requires |rows[level][i].recs| > 1 && level + 1 < |rows|
      modifies this
      decreases |rows| - level - 1, 3
      ensures level + 1 < |rows| && TowerAt(level + 1) && rows[..level + 1] == old(rows)[..level + 1]
      ensures i < |old(Flat(rows[level + 1]))|
      ensures Flat(rows[level + 1]) == old(Flat(rows[level + 1]))[i := NodePtr(old(rows[level][i].recs[1]), no)]
      ensures SameBelow(old(pages), pages, level + 1)
      ensures Advance(old(clocks), clocks)
    {
      PathPage(pages, rows, level, root, level, i);
      ReplaceFacts(rows, level, root, i);
      var recs := pages[no].recs;
      ghost var ptrs := Flat(rows[level + 1]);
      NodePtrDelete(level, no, recs[0], i);
      label Deleted:
      PointerKeyFree(ptrs, i, recs[1].key);
      InsertOnLevel(level + 1, NodePtr(recs[1], no));
      PointerReplaced(ptrs, i, NodePtr(recs[1], no), Flat(rows[level + 1]));
      SameBelowTransitive(old(pages), old@Deleted(pages), pages, level + 1);
      AdvanceTransitive(old(clocks), old@Deleted(clocks), clocks);
    }

    /** Before record j of page `no` goes, the level above is made ready for the page without
        it: only the first record of a non-leaf page with a left neighbour needs this. */
    method AdjustNodePtr(level: nat, no: int, j: nat, ghost i: nat)
      requires TowerAt(level) && i < |rows[level]| && rows[level][i].no == no && j < |rows[level][i].recs|
      requires |rows[level][i].recs| > 1 || (level == 0 && level + 1 == |rows|)
      modifies this
      decreases |rows| - level - 1, 4
      ensures level < |rows| && rows[..level + 1] == old(rows)[..level + 1]
      ensures Tower(rows[level := DeleteRow(old(rows[level]), i, j, level > 0)], level, root)
      ensures Shown(pages, rows, level + 1) && SameBelow(old(pages), pages, level + 1)
      ensures RecordGone(old(rows[level]), i, j, level > 0, DeleteRow(old(rows[level]), i, j, level > 0))
      ensures Advance(old(clocks), clocks)
    {
      PageFacts(pages, rows, level, root, i);
      DeleteKeepsRow(rows[level], level, level + 1 == |rows|, i, j);
      if level > 0 && j == 0 && pages[no].prev != FIL_NULL {
        InnerNotTop(rows, level, root, i);
        ReplaceNodePtr(level, no, i);
      }
      DeleteKeepsTower(old(rows), rows, level, root, i, j);
    }

    /** The branch of pessimistic_delete that keeps the page. */
    method DeleteOnPage(level: nat, no: int, j: nat, ghost i: nat)
      requires TowerAt(level) && i < |rows[level]| && rows[level][i].no == no && j < |rows[level][i].recs|
      requires |rows[level][i].recs| > 1 || (level == 0 && level + 1 == |rows|)
      modifies this
      decreases |rows| - level, 0
      ensures level < |rows| && TowerAt(level) && rows[..level] == old(rows)[..level]
      ensures RecordGone(old(rows[level]), i, j, level > 0, rows[level])
      ensures SameBelow(old(pages), pages, level)
      ensures Clocked(level, old(rows[level]), old(clocks), rows[level], clocks)
    {
      PageFacts(pages, rows, level, root, i);
      var recs := Without(pages[no].recs, j, level > 0 && pages[no].prev == FIL_NULL);
      AdjustNodePtr(level, no, j, i);
      assert rows[..level] == rows[..level + 1][..level] == old(rows)[..level + 1][..level] == old(rows)[..level];
      FinishDeletePages(old(rows), old(pages), rows, pages, level, i, recs);
      DeleteClocked(old(rows[level]), level, i, recs, old(clocks), clocks);
      pages := pages[no := pages[no].(recs := recs)];
      clocks := Bump(clocks, no);
      rows := rows[level := DeleteRow(old(rows[level]), i, j, level > 0)];
    }

    /** discard_page: the page with its only record is discarded. If it is the only page of its
        level, it is a leaf and the whole tree becomes empty. */
    method DiscardPage(level: nat, no: int, ghost i: nat)
      requires TowerAt(level) && i < |rows[level]| && rows[level][i].no == no && |rows[level][i].recs| == 1 &&
               no != root
      requires level > 0 ==> |Flat(rows[level])| > 1
      modifies this
      decreases |rows| - level, 0
      ensures level < |rows| && TowerAt(level) && rows[..level] == old(rows)[..level]
      ensures RecordGone(old(rows[level]), i, 0, level > 0, rows[level])
      ensures SameBelow(old(pages), pages, level)
      ensures Clocked(level, old(rows[level]), old(clocks), rows[level], clocks)
    {
      PageFacts(pages, rows, level, root, i);
      OnlyRootIsTop(rows, level, root, i);
      var page := pages[no];
      if page.prev == FIL_NULL && page.next == FIL_NULL {
        OnlyPageIsLeaf(rows, level, root);
        DiscardOnlyPageOnLevel(no);
      } else {
        DiscardWithSibling(level, no, i);
      }
    }

    /** pessimistic_delete: record j of page `no` is deleted; a page that would become empty is
        discarded, unless it is the root. The record leaves its level and nothing else does; a
        new first record of a non-leaf level is marked as the minimum record. A node pointer
        is deleted only while its level has others. */
    method PessimisticDelete(level: nat, no: int, j: nat, ghost i: nat)
      requires TowerAt(level) && i < |rows[level]| && rows[level][i].no == no && j < |rows[level][i].recs|
      requires level > 0 ==> |Flat(rows[level])| > 1
      modifies this
      decreases |rows| - level, 1
      ensures level < |rows| && TowerAt(level) && rows[..level] == old(rows)[..level]
      ensures RecordGone(old(rows[level]), i, j, level > 0, rows[level])
      ensures SameBelow(old(pages), pages, level)
      ensures Clocked(level, old(rows[level]), old(clocks), rows[level], clocks)
    {
      PageFacts(pages, rows, level, root, i);
      FlatIndex(rows[level], i, j);
      if |pages[no].recs| < 2 && no != root {
        DiscardPage(level, no, i);
      } else {
        if no == root {
          RootKeepsRecord(pages, rows, level, root, i);
        }
        DeleteOnPage(level, no, j, i);
      }
    }

    /** Deleting the record with a given key, found by a search in mode LE: exactly that record
        leaves the key order. */
    method DeleteRecord(k: int) returns (found: bool, ghost at: nat)
      requires Valid()
      modifies this
      ensures Valid()
      ensures found ==>
                at < |old(Records())| && old(Records())[at].key == At(k) &&
                Records() == Without(old(Records()), at, false)
      ensures !found ==> Records() == old(Records()) && !HasKey(Records(), At(k))
      ensures Advance(old(clocks), clocks) && Kept(old(rows[0]), old(clocks), rows[0], clocks)
    {
      var no, pos, i := SearchToNthLevel(0, At(k), LE);
      KeyAtCursor(rows, root, i, pos, At(k));
      found := 0 <= pos && pages[no].recs[pos].key == At(k);
      at := 0;
      if found {
        at := DeleteLeafRecord(no, pos, i);
      }
    }

    /** The record at the cursor leaves the key order. */
    method DeleteLeafRecord(no: int, j: nat, ghost i: nat) returns (ghost at: nat)
      requires Valid() && i < |rows[0]| && rows[0][i].no == no && j < |rows[0][i].recs|
      modifies this
      ensures Valid() && at < |old(Records())| && old(Records())[at] == old(rows[0])[i].recs[j]
      ensures Records() == Without(old(Records()), at, false)
      ensures Advance(old(clocks), clocks) && Kept(old(rows[0]), old(clocks), rows[0], clocks)
    {
      at := Offset(rows[0], i) + j;
      FlatIndex(rows[0], i, j);
      PessimisticDelete(0, no, j, i);
      LeafGone(old(rows[0]), i, j, rows[0]);
    }

    /** The buffer pool evicts the block of a page: only its clock moves. */
    method Evict(no: int)
      requires Valid()
      modifies this`clocks
      ensures Valid() && Advance(old(clocks), clocks) && Kept(rows[0], old(clocks), rows[0], clocks)
    {
      BumpAdvances(clocks, no);
      clocks := Bump(clocks, no);
    }

    /** Btree::create: an empty leaf page as root. */
    constructor (rootNo: int)
      requires rootNo != FIL_NULL
      ensures root == rootNo && Valid() && Records() == []
    {
      root := rootNo;
      pages := map[rootNo := Page(0, FIL_NULL, FIL_NULL, [])];
      clocks := map[];
      rows := [[Node(rootNo, [])]];
      new;
      EmptyTreeShown(root);
    }
  }

  // ----- what the operations do to the clocks -----

  lemma {:induction false} BumpAdvances(clocks: Clocks, no: int)
    ensures Advance(clocks, Bump(clocks, no)) && ClockOf(Bump(clocks, no), no) == ClockOf(clocks, no) + 1
  {
  }

  lemma {:induction false} AdvanceTransitive(a: Clocks, b: Clocks, c: Clocks)
    requires Advance(a, b) && Advance(b, c)
    ensures Advance(a, c)
  {
    forall no ensures ClockOf(a, no) <= ClockOf(c, no) {
      assert ClockOf(a, no) <= ClockOf(b, no);
    }
  }

  /** The rule carries over from single changes to any number of them. */
  lemma {:induction false} KeptTransitive(a: Row, ca: Clocks, b: Row, cb: Clocks, c: Row, cc: Clocks)
    requires Kept(a, ca, b, cb) && Kept(b, cb, c, cc) && Advance(ca, cb) && Advance(cb, cc)
    ensures Kept(a, ca, c, cc) && Advance(ca, cc)
  {
    AdvanceTransitive(ca, cb, cc);
    forall no, k | HasRecord(a, no, k) && ClockOf(cc, no) == ClockOf(ca, no) ensures HasRecord(c, no, k) {
      assert ClockOf(ca, no) <= ClockOf(cb, no) <= ClockOf(cc, no);
    }
  }

  lemma {:induction false} ClockedTransitive(level: nat, a: Row, ca: Clocks, b: Row, cb: Clocks, c: Row, cc: Clocks)
    requires Clocked(level, a, ca, b, cb) && Clocked(level, b, cb, c, cc)
    ensures Clocked(level, a, ca, c, cc)
  {
    AdvanceTransitive(ca, cb, cc);
    if level == 0 {
      KeptTransitive(a, ca, b, cb, c, cc);
    }
  }

  predicate AllIn(s: seq<Rec>, t: seq<Rec>) {
    forall r :: r in s ==> r in t
  }

  /** Every page whose clock stands still is still there with its records. */
  lemma {:induction false} KeptByPages(row: Row, ca: Clocks, row': Row, cb: Clocks)
    requires forall i :: 0 <= i < |row| && ClockOf(cb, row[i].no) == ClockOf(ca, row[i].no) ==> PageIn(row[i], row')
    ensures Kept(row, ca, row', cb)
  {
    forall no, k | HasRecord(row, no, k) && ClockOf(cb, no) == ClockOf(ca, no) ensures HasRecord(row', no, k) {
      var i :| 0 <= i < |row| && row[i].no == no && HasKey(row[i].recs, k);
      assert PageIn(row[i], row');
      var j :| 0 <= j < |row'| && row'[j].no == no && AllIn(row[i].recs, row'[j].recs);
      var r :| r in row[i].recs && r.key == k;
      assert r in row'[j].recs;
    }
  }

  ghost predicate PageIn(n: Node, row: Row) {
    exists j :: 0 <= j < |row| && row[j].no == n.no && AllIn(n.recs, row[j].recs)
  }

  lemma {:induction false} InsertClocked(row: Row, level: nat, i: nat, c: nat, r: Rec, clocks: Clocks, no: int)
    requires i < |row| && c <= |row[i].recs|
    ensures var row' := row[i := row[i].(recs := Insert(row[i].recs, c, r))];
            Clocked(level, row, clocks, row', clocks) && Clocked(level, row, clocks, row', Bump(clocks, no))
  {
    var row' := row[i := row[i].(recs := Insert(row[i].recs, c, r))];
    BumpAdvances(clocks, no);
    forall x | 0 <= x < |row| ensures PageIn(row[x], row') {
      assert row'[x].no == row[x].no && AllIn(row[x].recs, row'[x].recs);
    }
    KeptByPages(row, clocks, row', clocks);
    KeptByPages(row, clocks, row', Bump(clocks, no));
  }

  /** A split moves the clock of the old page if records leave it. */
  lemma {:induction false} SplitClocked(row: Row, level: nat, i: nat, lo: Node, up: Node, no: int, down: bool,
                                        ca: Clocks, cb: Clocks)
    requires i < |row| && row[i].no == no && no == (if down then up.no else lo.no) && Advance(ca, cb)
    ensures var row' := SplitRow(row, i, lo, up);
            Clocked(level, row, ca, row',
                    if AllIn(row[i].recs, if down then up.recs else lo.recs) then cb else Bump(cb, no))
  {
    var row', half := SplitRow(row, i, lo, up), if down then up else lo;
    var cc := if AllIn(row[i].recs, half.recs) then cb else Bump(cb, no);
    BumpAdvances(cb, no);
    AdvanceTransitive(ca, cb, cc);
    forall x | 0 <= x < |row| && ClockOf(cc, row[x].no) == ClockOf(ca, row[x].no) ensures PageIn(row[x], row') {
      if x == i {
        assert ClockOf(ca, no) <= ClockOf(cb, no);
        assert row'[if down then i + 1 else i] == half;
      } else {
        assert row'[if x < i then x else x + 1] == row[x];
      }
    }
    KeptByPages(row, ca, row', cc);
  }

  lemma {:induction false} RaiseClocked(row: Row, level: nat, root: int, n: int, cb: Clocks, ca: Clocks)
    requires |row| == 1 && row[0].no == root && cb == Bump(ca, n)
    ensures Clocked(level, row, ca, [Node(n, row[0].recs)], Bump(cb, root))
  {
    BumpAdvances(ca, n);
    BumpAdvances(cb, root);
    AdvanceTransitive(ca, cb, Bump(cb, root));
    assert ClockOf(ca, root) <= ClockOf(cb, root);
    KeptByPages(row, ca, [Node(n, row[0].recs)], Bump(cb, root));
  }

  lemma {:induction false} DiscardClocked(row: Row, level: nat, i: nat, ca: Clocks, cb: Clocks)
    requires i < |row| && Advance(ca, cb) && forall x :: 0 <= x < |row| ==> row[x].recs != []
    ensures Clocked(level, row, ca, DiscardRow(row, i, level > 0), Bump(cb, row[i].no))
  {
    BumpAdvances(cb, row[i].no);
    AdvanceTransitive(ca, cb, Bump(cb, row[i].no));
    if level == 0 {
      var row', cc := DiscardRow(row, i, false), Bump(cb, row[i].no);
      forall x | 0 <= x < |row| && ClockOf(cc, row[x].no) == ClockOf(ca, row[x].no) ensures PageIn(row[x], row') {
        assert ClockOf(ca, row[x].no) <= ClockOf(cb, row[x].no);
        assert row'[if x < i then x else x - 1] == row[x];
      }
      KeptByPages(row, ca, row', cc);
    }
  }

  lemma {:induction false} DeleteClocked(row: Row, level: nat, i: nat, recs: seq<Rec>, ca: Clocks, cb: Clocks)
    requires i < |row| && Advance(ca, cb)
    ensures Clocked(level, row, ca, row[i := row[i].(recs := recs)], Bump(cb, row[i].no))
  {
    var row', cc := row[i := row[i].(recs := recs)], Bump(cb, row[i].no);
    BumpAdvances(cb, row[i].no);
    AdvanceTransitive(ca, cb, cc);
    forall x | 0 <= x < |row| && ClockOf(cc, row[x].no) == ClockOf(ca, row[x].no) ensures PageIn(row[x], row') {
      assert ClockOf(ca, row[x].no) <= ClockOf(cb, row[x].no);
      assert row'[x] == row[x];
    }
    KeptByPages(row, ca, row', cc);
  }

  /** Of the records of a level, in key order, only record j of page i is gone. */
  predicate RecordGone(row: Row, i: nat, j: nat, inner: bool, row': Row) {
    i < |row| && Offset(row, i) + j < |Flat(row)| && Flat(row') == Without(Flat(row), Offset(row, i) + j, inner)
  }

  lemma {:induction false} LeafGone(row: Row, i: nat, j: nat, row': Row)
    requires RecordGone(row, i, j, false, row')
    ensures Offset(row, i) + j < |Flat(row)| && Flat(row') == Without(Flat(row), Offset(row, i) + j, false)
  {
  }

  lemma {:induction false} PointerGone(row: Row, f: nat, j: nat, i: nat, row': Row)
    requires RecordGone(row, f, j, true, row') && Offset(row, f) + j == i
    ensures i < |Flat(row)| && Flat(row') == Without(Flat(row), i, true)
  {
  }

  /** page_set_next and page_set_prev, skipped when there is no such page. */
  function SetNext(pages: map<int, Page>, p: int, q: int): map<int, Page>
    requires p == FIL_NULL || p in pages
  {
    if p == FIL_NULL then pages else pages[p := pages[p].(next := q)]
  }

  function SetPrev(pages: map<int, Page>, p: int, q: int): map<int, Page>
    requires p == FIL_NULL || p in pages
  {
    if p == FIL_NULL then pages else pages[p := pages[p].(prev := q)]
  }

  /** The links between page no and its neighbours p and q, as far as these exist. */
  predicate Neighbours(pages: map<int, Page>, level: nat, no: int, p: int, q: int) {
    no in pages && no != FIL_NULL && pages[no].level == level && pages[no].prev == p && pages[no].next == q &&
    (p != FIL_NULL ==> p in pages && pages[p].level == level && pages[p].next == no) &&
    (q != FIL_NULL ==> q in pages && pages[q].level == level && pages[q].prev == no)
  }

  /** The link updates of attach_half_pages for a lower half `lo` and an upper half `up`. */
  function LinkBoth(a: map<int, Page>, lo: int, up: int, p: int, q: int): map<int, Page>
    requires lo in a && up in a && (p == FIL_NULL || p in a) && (q == FIL_NULL || q in a)
  {
    SetNext(SetPrev(SetNext(SetPrev(SetPrev(SetNext(a, p, lo), q, up), lo, p), lo, up), up, lo), up, q)
  }

  lemma {:induction false} LinkBothAt(a: map<int, Page>, lo: int, up: int, p: int, q: int, x: int)
    requires lo in a && up in a && (p == FIL_NULL || p in a) && (q == FIL_NULL || q in a) && x in a
    requires lo != FIL_NULL && up != FIL_NULL && lo != up && lo != p && lo != q && up != p && up != q
    requires p == q ==> p == FIL_NULL
    ensures x in LinkBoth(a, lo, up, p, q)
    ensures LinkBoth(a, lo, up, p, q)[x]
         == if x == lo then a[x].(prev := p, next := up)
            else if x == up then a[x].(prev := lo, next := q)
            else if x == p && p != FIL_NULL then a[x].(next := lo)
            else if x == q && q != FIL_NULL then a[x].(prev := up)
            else a[x]
  {
  }

  /** They link the new page in below or above page no. */
  lemma {:induction false} LinkUpdates(a: map<int, Page>, level: nat, no: int, n: int, down: bool, p: int, q: int)
    requires Neighbours(a, level, no, p, q) && n in a && a[n].level == level && a[n].recs == []
    requires n !in {no, p, q, FIL_NULL} && p != no && no != q && (p == q ==> p == FIL_NULL)
    ensures var c := LinkBoth(a, if down then n else no, if down then no else n, p, q);
            (if down then LinkedIn(a, c, level, n, p, no) else LinkedIn(a, c, level, n, no, q)) &&
            OnlyLevel(a, c, level) && c.Keys == a.Keys
  {
    var lo, up := if down then n else no, if down then no else n;
    var c := LinkBoth(a, lo, up, p, q);
    assert c.Keys == a.Keys;
    forall x | x in a
      ensures x in c && c[x].level == a[x].level && (c[x] == a[x] || x in {lo, up, p, q})
      ensures c[x] == if x == n then Page(level, if down then p else no, if down then no else q, [])
                      else if x == no then (if down then a[x].(prev := n) else a[x].(next := n))
                      else if down && x == p && p != FIL_NULL then a[x].(next := n)
                      else if !down && x == q && q != FIL_NULL then a[x].(prev := n)
                      else a[x]
    {
      LinkBothAt(a, lo, up, p, q, x);
    }
  }

  lemma {:induction false} NeighboursStored(pages: map<int, Page>, row: Row, level: nat, i: nat)
    requires RowShown(pages, row, level) && i < |row|
    ensures Neighbours(pages, level, row[i].no, PrevOf(row, i), NextPageOf(row, i))
    ensures PrevOf(row, i) in Numbers(row) + {FIL_NULL} && NextPageOf(row, i) in Numbers(row) + {FIL_NULL}
    ensures row[i].no in Numbers(row) && PrevOf(row, i) != row[i].no && NextPageOf(row, i) != row[i].no
    ensures PrevOf(row, i) == NextPageOf(row, i) ==> PrevOf(row, i) == FIL_NULL
    ensures (PrevOf(row, i) == FIL_NULL <==> i == 0) && (NextPageOf(row, i) == FIL_NULL <==> i + 1 == |row|)
  {
    assert PageShown(pages, row, level, i);
    assert i > 0 ==> PageShown(pages, row, level, i - 1);
    assert i + 1 < |row| ==> PageShown(pages, row, level, i + 1);
  }

  lemma {:induction false} RootPage(pages: map<int, Page>, rows: seq<Row>, low: nat, root: int, k: Key, strict: bool)
    requires Tower(rows, low, root) && RowsShown(pages, rows, low)
    ensures rows[|rows| - 1] != [] && rows[|rows| - 1][0].no == root
    ensures root in pages && pages[root].level == |rows| - 1
    ensures OnPath(rows, |rows| - 1, 0, k, strict)
  {
    TowerLevel(rows, low, root, |rows| - 1);
    LevelShown(pages, rows, low, |rows| - 1);
    assert PageShown(pages, rows[|rows| - 1], |rows| - 1, 0);
  }

  /** Node i of level h is where the descent for k arrives: no pointer before or after the one
      that leads to it may be followed instead. */
  predicate OnPath(rows: seq<Row>, h: nat, i: nat, k: Key, strict: bool)
    requires h < |rows|
  {
    i < |rows[h]| &&
    (h + 1 == |rows| ==> i == 0) &&
    (h + 1 < |rows| ==> IsCut(Flat(rows[h + 1]), i + 1, k, strict))
  }

  lemma {:induction false} PathPage(pages: map<int, Page>, rows: seq<Row>, low: nat, root: int, h: nat, i: nat)
    requires Tower(rows, low, root) && RowsShown(pages, rows, low) && low <= h < |rows| && i < |rows[h]|
    ensures rows[h][i].no in pages
    ensures pages[rows[h][i].no].level == h && pages[rows[h][i].no].recs == rows[h][i].recs
    ensures Sorted(rows[h][i].recs)
  {
    TowerLevel(rows, low, root, h);
    PageSorted(rows[h], i);
    LevelShown(pages, rows, low, h);
    assert PageShown(pages, rows[h], h, i);
  }

  lemma {:induction false} PathCut(rows: seq<Row>, low: nat, root: int, h: nat, i: nat, c: nat, k: Key, strict: bool)
    requires Tower(rows, low, root) && low <= h < |rows| && OnPath(rows, h, i, k, strict)
    requires IsCut(rows[h][i].recs, c, k, strict)
    ensures IsCut(Flat(rows[h]), Offset(rows[h], i) + c, k, strict)
  {
    TowerLevel(rows, low, root, h);
    if h + 1 == |rows| {
      FlatOne(rows[h][0]);
      assert rows[h] == [rows[h][0]] && rows[h][..0] == [];
    } else {
      CutDescends(rows[h], Flat(rows[h + 1]), h > 0, i, c, k, strict);
    }
  }

  lemma {:induction false} PathDown(rows: seq<Row>, low: nat, root: int, h: nat, i: nat, c: nat, k: Key, strict: bool)
    requires Tower(rows, low, root) && low < h < |rows| && OnPath(rows, h, i, k, strict) && (k.At? || !strict)
    requires IsCut(rows[h][i].recs, c, k, strict)
    ensures c > 0
    ensures var x := Offset(rows[h], i) + c - 1;
            OnPath(rows, h - 1, x, k, strict) && rows[h - 1][x].no == rows[h][i].recs[c - 1].child
  {
    DescentPosition(rows, low, root, h, i, c, k, strict);
    PathCut(rows, low, root, h, i, c, k, strict);
    TowerLevel(rows, low, root, h - 1);
    ChildOf(rows[h - 1], rows[h], h - 1 > 0, i, c - 1);
  }

  /** The pointer at index j of page i leads to its own page of the level below. */
  lemma {:induction false} ChildOf(below: Row, above: Row, inner: bool, i: nat, j: nat)
    requires Linked(below, Flat(above), inner) && i < |above| && j < |above[i].recs|
    ensures var x := Offset(above, i) + j; x < |below| && below[x].no == above[i].recs[j].child
  {
    FlatIndex(above, i, j);
    var x := Offset(above, i) + j;
    assert NodeUnder(below[x], Flat(above), x, inner);
  }

  /** Above the leaf level a search never stops before the first record of a page. */
  lemma {:induction false} DescentPosition(rows: seq<Row>, low: nat, root: int, h: nat, i: nat, c: nat, k: Key,
                                           strict: bool)
    requires Tower(rows, low, root) && low < h < |rows| && i < |rows[h]| && (k.At? || !strict)
    requires IsCut(rows[h][i].recs, c, k, strict)
    requires h + 1 == |rows| ==> i == 0
    requires h + 1 < |rows| ==> IsCut(Flat(rows[h + 1]), i + 1, k, strict)
    ensures c > 0
  {
    TowerLevel(rows, low, root, h);
    var n := rows[h][i];
    assert NodeOk(n, false);
    if h + 1 == |rows| {
      FlatIndex(rows[h], 0, 0);
      assert rows[h][..0] == [];
      assert n.recs[0].key == Min;
    } else {
      assert NodeUnder(n, Flat(rows[h + 1]), i, true);
    }
    assert Below(n.recs[0].key, k, strict);
  }

  lemma {:induction false} FatherFound(rows: seq<Row>, level: nat, root: int, i: nat, rec: Rec, f: nat, p: int)
    requires level + 1 < |rows| && Tower(rows, level + 1, root) && Linked(rows[level], Flat(rows[level + 1]), level > 0)
    requires i < |rows[level]| && rec in rows[level][i].recs && f < |rows[level + 1]|
    requires CursorAt(rows[level + 1][f].recs, p, rec.key, LE)
    requires CursorAt(Flat(rows[level + 1]), Offset(rows[level + 1], f) + p, rec.key, LE)
    ensures OnPath(rows, level + 1, f, rec.key, false) ==>
              0 <= p < |rows[level + 1][f].recs| && Offset(rows[level + 1], f) + p == i &&
              rows[level + 1][f].recs[p].child == rows[level][i].no
  {
    TowerLevel(rows, level + 1, root, level + 1);
    var ptrs := Flat(rows[level + 1]);
    PointerIndex(rows[level], ptrs, level > 0, i, rec, Offset(rows[level + 1], f) + p);
    if OnPath(rows, level + 1, f, rec.key, false) {
      FirstPassed(rows, level + 1, root, f, p + 1, rec.key);
      FlatIndex(rows[level + 1], f, p);
    }
  }

  /** A search of the pointers for a record of page i stops on pointer i. */
  lemma {:induction false} PointerIndex(row: Row, ptrs: seq<Rec>, inner: bool, i: nat, rec: Rec, x: int)
    requires Linked(row, ptrs, inner) && Sorted(ptrs) && i < |row| && rec in row[i].recs &&
             CursorAt(ptrs, x, rec.key, LE)
    ensures x == i && ptrs[i].child == row[i].no
  {
    assert NodeUnder(row[i], ptrs, i, inner) && InRange(rec.key, ptrs, i);
    RangeIsCut(ptrs, i, rec.key);
    CutUnique(ptrs, i + 1, x + 1, rec.key, false);
  }

  /** On a non-leaf level the first record of the page on the path is never above the key. */
  lemma {:induction false} FirstPassed(rows: seq<Row>, h: nat, root: int, i: nat, c: nat, k: Key)
    requires 0 < h < |rows| && Tower(rows, h, root) && OnPath(rows, h, i, k, false)
    requires IsCut(rows[h][i].recs, c, k, false)
    ensures c > 0
  {
    TowerLevel(rows, h, root, h);
    var n := rows[h][i];
    assert NodeOk(n, false);
    if h + 1 == |rows| {
      FlatIndex(rows[h], 0, 0);
      assert rows[h][..0] == [];
    } else {
      assert NodeUnder(n, Flat(rows[h + 1]), i, true);
    }
    assert Below(n.recs[0].key, k, false);
  }

  /** The cursor of an insert of r: index c of node i, in the range that the node pointer
      above gives, and the place of the key on the level. */
  predicate InsertPoint(rows: seq<Row>, level: nat, i: nat, c: nat, r: Rec) {
    level < |rows| && i < |rows[level]| && c <= |rows[level][i].recs| &&
    r.key.At? && Small(r) && (level > 0 ==> c > 0) &&
    IsPlace(Flat(rows[level]), Offset(rows[level], i) + c, r.key) &&
    (level + 1 < |rows| ==> i < |Flat(rows[level + 1])| && InRange(r.key, Flat(rows[level + 1]), i))
  }

  /** A search for a new key in mode LE ends at its insert point. */
  lemma {:induction false} SearchFindsInsertPoint(rows: seq<Row>, level: nat, root: int, i: nat, pos: int, r: Rec)
    requires Tower(rows, level, root) && OnPath(rows, level, i, r.key, false)
    requires CursorAt(rows[level][i].recs, pos, r.key, LE)
    requires CursorAt(Flat(rows[level]), Offset(rows[level], i) + pos, r.key, LE)
    requires r.key.At? && Small(r) && forall x :: 0 <= x < |Flat(rows[level])| ==> Flat(rows[level])[x].key != r.key
    ensures InsertPoint(rows, level, i, pos + 1, r)
  {
    CutIsPlace(Flat(rows[level]), Offset(rows[level], i) + pos + 1, r.key);
    if level > 0 {
      FirstPassed(rows, level, root, i, pos + 1, r.key);
    }
    if level + 1 < |rows| {
      TowerLevel(rows, level, root, level);
      var ptrs := Flat(rows[level + 1]);
      assert Below(ptrs[i].key, r.key, false) && (i + 1 < |ptrs| ==> !Below(ptrs[i + 1].key, r.key, false));
    }
  }

  lemma {:induction false} InsertKeepsTower(rows: seq<Row>, level: nat, root: int, i: nat, c: nat, r: Rec)
    requires Tower(rows, level, root) && InsertPoint(rows, level, i, c, r)
    requires Fits(Insert(rows[level][i].recs, c, r))
    ensures var row := rows[level][i := rows[level][i].(recs := Insert(rows[level][i].recs, c, r))];
            Tower(rows[level := row], level, root) && Inserted(Flat(rows[level]), Flat(row), r)
  {
    var row := rows[level];
    var row' := row[i := row[i].(recs := Insert(row[i].recs, c, r))];
    InsertKeepsRow(row, level, level + 1 == |rows|, i, c, r);
    assert Inserted(Flat(row), Flat(row'), r);
    if level + 1 < |rows| {
      InsertUnder(row, Flat(rows[level + 1]), level > 0, i, c, r);
    }
    ReplaceLowest(rows, level, root, row');
  }

  /** A row with a new page at index `at`. */
  function InsertNode(row: Row, at: nat, n: Node): (row': Row)
    requires at <= |row|
    ensures |row'| == |row| + 1
    ensures forall x :: 0 <= x < |row'| ==> row'[x] == if x < at then row[x] else if x == at then n else row[x - 1]
  {
    row[..at] + [n] + row[at..]
  }

  /** A row with an empty new page next to page i. */
  function AttachedRow(row: Row, i: nat, newNo: int, down: bool): Row
    requires i < |row|
  {
    InsertNode(row, if down then i else i + 1, Node(newNo, []))
  }

  function BeforeNo(row: Row, at: nat): int
    requires at <= |row|
  {
    if at == 0 then FIL_NULL else row[at - 1].no
  }

  function AtNo(row: Row, at: nat): int
    requires at <= |row|
  {
    if at == |row| then FIL_NULL else row[at].no
  }

  /** The pages after page n was linked in between its two neighbours. */
  predicate LinkedIn(a: map<int, Page>, b: map<int, Page>, level: nat, n: int, p: int, q: int) {
    (forall x :: x in a && x != n && x != p && x != q ==> x in b && b[x] == a[x]) &&
    (p != FIL_NULL ==> p in a && p in b && b[p] == a[p].(next := n)) &&
    (q != FIL_NULL ==> q in a && q in b && b[q] == a[q].(prev := n)) &&
    n in b && b[n] == Page(level, p, q, [])
  }

  lemma {:induction false} LinkedInShown(a: map<int, Page>, b: map<int, Page>, row: Row, level: nat, at: nat, n: int)
    requires RowShown(a, row, level) && at <= |row| && n !in Numbers(row) && n != FIL_NULL
    requires LinkedIn(a, b, level, n, BeforeNo(row, at), AtNo(row, at))
    ensures RowShown(b, InsertNode(row, at, Node(n, [])), level)
  {
    var row' := InsertNode(row, at, Node(n, []));
    forall x | 0 <= x < |row| ensures row[x].no != n {
      assert row[x].no in Numbers(row);
    }
    forall x | 0 <= x < |row'| ensures PageShown(b, row', level, x) {
      if x != at {
        LinkedInShownAt(a, b, row, level, at, n, x);
      }
    }
  }

  lemma {:induction false} LinkedInShownAt(a: map<int, Page>, b: map<int, Page>, row: Row, level: nat, at: nat,
                                           n: int, x: nat)
    requires RowShown(a, row, level) && at <= |row| && n != FIL_NULL && x <= |row| && x != at
    requires row[if x < at then x else x - 1].no != n
    requires LinkedIn(a, b, level, n, BeforeNo(row, at), AtNo(row, at))
    ensures PageShown(b, InsertNode(row, at, Node(n, [])), level, x)
  {
    var j := if x < at then x else x - 1;
    assert PageShown(a, row, level, j);
    assert j + 1 < at ==> row[j].no != row[at - 1].no;
    assert j + 1 < at && at < |row| ==> row[j].no != row[at].no;
    assert j > at ==> row[j].no != row[at].no && (at > 0 ==> row[j].no != row[at - 1].no);
    assert 0 < at == j ==> row[at - 1].no != row[at].no;
    assert j + 1 == at < |row| ==> row[at - 1].no != row[at].no;
  }

  /** The node pointer built from a record. */
  function NodePtr(r: Rec, child: int): Rec {
    Rec(r.key, child, r.ptrSize, r.ptrSize)
  }

  function PagesOn(pages: map<int, Page>, level: nat): set<int> {
    set p | p in pages && pages[p].level == level
  }

  lemma {:induction false} ChildKeepsTower(rows: seq<Row>, level: nat, root: int, i: nat, j: nat, child: int)
    requires Tower(rows, level, root) && i < |rows[level]| && j < |rows[level][i].recs|
    ensures var row := rows[level];
            var row' := row[i := row[i].(recs := row[i].recs[j := row[i].recs[j].(child := child)])];
            var x := Offset(row, i) + j;
            Tower(rows[level := row'], level, root) &&
            x < |Flat(row)| && Flat(row') == Flat(row)[x := Flat(row)[x].(child := child)]
  {
    var row := rows[level];
    var row' := row[i := row[i].(recs := row[i].recs[j := row[i].recs[j].(child := child)])];
    ChildKeepsRow(row, level, level + 1 == |rows|, i, j, child);
    if level + 1 < |rows| {
      ChildKeepsLink(row, Flat(rows[level + 1]), level > 0, i, j, child);
    }
    ReplaceLowest(rows, level, root, row');
  }

  /** The key of the new pointer is new on its level. */
  lemma {:induction false} PointerStands(row: Row, ptrs: seq<Rec>, i: nat, inner: bool)
    requires Linked(row, ptrs, inner) && i < |row|
    ensures ptrs == ptrs[i := ptrs[i].(child := row[i].no)]
  {
    assert NodeUnder(row[i], ptrs, i, inner);
  }

  lemma {:induction false} NewPointerKey(ptrs: seq<Rec>, i: nat, now: seq<Rec>, k: Key)
    requires Sorted(ptrs) && i < |ptrs| && Less(ptrs[i].key, k) && InRange(k, ptrs, i)
    requires |now| == |ptrs| && forall x :: 0 <= x < |ptrs| ==> now[x].key == ptrs[x].key
    ensures forall x :: 0 <= x < |now| ==> now[x].key != k
  {
    RangeIsCut(ptrs, i, k);
    forall x | 0 <= x < |now| ensures now[x].key != k {
      assert x < i ==> Less(ptrs[x].key, ptrs[i].key);
      assert x > i ==> !Below(ptrs[x].key, k, false);
    }
  }

  lemma {:induction false} BelowRowShown(a: map<int, Page>, b: map<int, Page>, row: Row, level: nat)
    requires RowShown(a, row, level) && SameBelow(a, b, level + 1)
    ensures RowShown(b, row, level)
  {
    forall i | 0 <= i < |row| ensures PageShown(b, row, level, i) {
      assert PageShown(a, row, level, i);
    }
  }

  lemma {:induction false} OtherRowsShown(a: map<int, Page>, b: map<int, Page>, rows: seq<Row>, level: nat)
    requires Shown(a, rows, level + 1) && OnlyLevel(a, b, level)
    ensures Shown(b, rows, level + 1)
  {
    OtherRows(a, rows, b, rows, level + 1, level);
  }

  /** A page with a number not used before disturbs no level. */
  lemma {:induction false} NewPageShown(a: map<int, Page>, rows: seq<Row>, level: nat, no: int)
    requires level < |rows| && Shown(a, rows, level) && no !in a
    ensures var b := a[no := Page(level, FIL_NULL, FIL_NULL, [])];
            Shown(b, rows, level + 1) && RowShown(b, rows[level], level) && SameBelow(a, b, level) &&
            no !in Numbers(rows[level]) && PagesOn(b, level) == Numbers(rows[level]) + {no}
  {
    var b := a[no := Page(level, FIL_NULL, FIL_NULL, [])];
    OtherRows(a, rows, b, rows, level + 1, level);
    forall i | 0 <= i < |rows[level]| ensures PageShown(b, rows[level], level, i) && rows[level][i].no != no {
      assert PageShown(a, rows[level], level, i);
    }
    forall p ensures p in PagesOn(b, level) <==> p in Numbers(rows[level]) + {no} {
      if p in Numbers(rows[level]) {
        var i :| 0 <= i < |rows[level]| && rows[level][i].no == p;
        assert PageShown(a, rows[level], level, i);
      }
    }
  }

  /** What a split decision means for the page's records. */
  lemma {:induction false} SplitFacts(rows: seq<Row>, level: nat, root: int, i: nat, c: nat, r: Rec, split: Position)
    requires Tower(rows, level, root) && level + 1 < |rows| && InsertPoint(rows, level, i, c, r)
    requires split.Tuple? || (split.User? && split.i < |rows[level][i].recs|)
    requires 1 <= ItemOf(split, c) <= |rows[level][i].recs|
    ensures var recs, ptrs := rows[level][i].recs, Flat(rows[level + 1]);
            var s, m := Insert(recs, c, r), ItemOf(split, c);
            IsPlace(recs, c, r.key) && AllSmall(recs) && Fits(recs) && recs != [] &&
            HalvesUnder(s[..m], s[m..], ptrs, i, s[m].key, level > 0) &&
            Less(ptrs[i].key, s[m].key) && s[m].key.At? && Small(s[m]) && InRange(s[m].key, ptrs, i) &&
            Linked(rows[level], ptrs, level > 0) && Tower(rows, level + 1, root)
  {
    TowerLevel(rows, level, root, level);
    var recs, ptrs := rows[level][i].recs, Flat(rows[level + 1]);
    var s, m := Insert(recs, c, r), ItemOf(split, c);
    assert NodeOk(rows[level][i], false) && NodeUnder(rows[level][i], ptrs, i, level > 0);
    PageSorted(rows[level], i);
    PlaceOnPage(rows[level], i, c, r.key);
    InsertOrdered(recs, c, r, recs[0].key.Min?);
    CutHalves(s, m, ptrs, i, level > 0);
  }

  lemma {:induction false} PlaceOnPage(row: Row, i: nat, c: nat, k: Key)
    requires i < |row| && c <= |row[i].recs| && IsPlace(Flat(row), Offset(row, i) + c, k)
    ensures IsPlace(row[i].recs, c, k)
  {
    FlatAt(row, i);
    var o := Offset(row, i);
    forall j | 0 <= j < |row[i].recs|
      ensures if j < c then Less(row[i].recs[j].key, k) else Less(k, row[i].recs[j].key)
    {
      assert Flat(row)[o + j] == row[i].recs[j];
    }
  }

  /** The records are moved between the two half pages. */
  lemma {:induction false} MovedShown(pages: map<int, Page>, row: Row, level: nat, i: nat, newNo: int, down: bool,
                                      lo: Node, up: Node)
    requires i < |row| && RowShown(pages, AttachedRow(row, i, newNo, down), level)
    requires lo.no == if down then newNo else row[i].no
    requires up.no == if down then row[i].no else newNo
    ensures lo.no in pages && up.no in pages && pages[lo.no].level == pages[up.no].level == level
    ensures var a := pages[lo.no := pages[lo.no].(recs := lo.recs)];
            var b := a[up.no := a[up.no].(recs := up.recs)];
            RowShown(b, SplitRow(row, i, lo, up), level) && OnlyLevel(pages, b, level)
    ensures Numbers(SplitRow(row, i, lo, up)) == Numbers(AttachedRow(row, i, newNo, down))
  {
    var row0 := AttachedRow(row, i, newNo, down);
    var row1 := row0[i := row0[i].(recs := lo.recs)];
    assert row0[i].no == lo.no && row0[i + 1].no == up.no;
    ShowRecs(pages, row0, level, i, lo.recs);
    assert PageShown(pages, row0, level, i + 1);
    var a := pages[lo.no := pages[lo.no].(recs := lo.recs)];
    ShowRecs(a, row1, level, i + 1, up.recs);
    assert row1[i + 1 := row1[i + 1].(recs := up.recs)] == SplitRow(row, i, lo, up);
  }

  lemma {:induction false} AttachedNumbers(row: Row, i: nat, newNo: int, down: bool)
    requires i < |row|
    ensures Numbers(AttachedRow(row, i, newNo, down)) == Numbers(row) + {newNo}
  {
    var at := if down then i else i + 1;
    var row' := AttachedRow(row, i, newNo, down);
    forall p ensures p in Numbers(row') <==> p in Numbers(row) + {newNo} {
      if p in Numbers(row) {
        var x :| 0 <= x < |row| && row[x].no == p;
        assert row'[if x < at then x else x + 1].no == p;
      }
      if p == newNo {
        assert row'[at].no == p;
      }
      if p in Numbers(row') {
        var x :| 0 <= x < |row'| && row'[x].no == p;
        assert x != at ==> row[if x < at then x else x - 1].no == p;
      }
    }
  }

  lemma {:induction false} SameBelowTransitive(a: map<int, Page>, b: map<int, Page>, c: map<int, Page>, low: nat)
    requires SameBelow(a, b, low) && SameBelow(b, c, low)
    ensures SameBelow(a, c, low)
  {
  }

  /** A change of pages of one level, none added or dropped. */
  lemma {:induction false} MovedAll(a: map<int, Page>, b: map<int, Page>, rows: seq<Row>, level: nat, row: Row)
    requires level < |rows| && Shown(a, rows, level + 1) && RowShown(b, row, level) && OnlyLevel(a, b, level)
    requires PagesOn(a, level) == Numbers(row) && b.Keys == a.Keys
    ensures Shown(b, rows[level := row], level) && SameBelow(a, b, level)
  {
    forall p | p in b && b[p].level == level ensures p in Numbers(row) {
      assert p in PagesOn(a, level);
    }
    ShownAfter(a, rows, b, level, row);
  }

  /** After the new page was attached, the records are moved; this completes the split. */
  lemma {:induction false} FinishSplit(rows: seq<Row>, pages: map<int, Page>, after: seq<Row>, a: map<int, Page>,
                                       level: nat, root: int, i: nat, newNo: int, down: bool, lo: Node, up: Node,
                                         first: Rec)
    requires Tower(rows, level, root) && level + 1 < |rows| && i < |rows[level]|
    requires lo.no == if down then newNo else rows[level][i].no
    requires up.no == if down then rows[level][i].no else newNo
    requires HalvesUnder(lo.recs, up.recs, Flat(rows[level + 1]), i, first.key, level > 0)
    requires NodeOk(lo, false) && NodeOk(up, false)
    requires Ordered(Flat(rows[level][..i]) + (lo.recs + up.recs) + Flat(rows[level][i + 1..]), level > 0)
    requires |after| >= |rows| && after[..level + 1] == rows[..level + 1]
    requires Tower(after, level + 1, root) && Shown(a, after, level + 1)
    requires Flat(after[level + 1]) == SplitPtrs(Flat(rows[level + 1]), i, lo.no, NodePtr(first, up.no))
    requires RowShown(a, AttachedRow(rows[level], i, newNo, down), level)
    requires PagesOn(a, level) == Numbers(AttachedRow(rows[level], i, newNo, down))
    requires SameBelow(pages, a, level)
    ensures var row := SplitRow(rows[level], i, lo, up);
            Tower(after[level := row], level, root) && after[level := row][..level] == rows[..level] &&
            after[level := row][level + 1] == after[level + 1]
    ensures lo.no in a && up.no in a
    ensures var b := a[lo.no := a[lo.no].(recs := lo.recs)];
            var c := b[up.no := b[up.no].(recs := up.recs)];
            Shown(c, after[level := SplitRow(rows[level], i, lo, up)], level) && SameBelow(pages, c, level)
  {
    var row := rows[level];
    assert after[level] == after[..level + 1][level] == row;
    assert after[..level] == after[..level + 1][..level] && rows[..level] == rows[..level + 1][..level];
    SplitKeepsTower(rows, after, level, root, i, lo, up, NodePtr(first, up.no));
    FinishPages(pages, after, a, level, row, i, newNo, down, lo, up);
  }

  lemma {:induction false} FinishPages(pages: map<int, Page>, after: seq<Row>, a: map<int, Page>,
                                       level: nat, row: Row, i: nat, newNo: int, down: bool, lo: Node, up: Node)
    requires i < |row| && level < |after| && lo.no == (if down then newNo else row[i].no)
    requires up.no == if down then row[i].no else newNo
    requires Shown(a, after, level + 1) && RowShown(a, AttachedRow(row, i, newNo, down), level)
    requires PagesOn(a, level) == Numbers(AttachedRow(row, i, newNo, down)) && SameBelow(pages, a, level)
    ensures lo.no in a && up.no in a
    ensures var b := a[lo.no := a[lo.no].(recs := lo.recs)];
            var c := b[up.no := b[up.no].(recs := up.recs)];
            Shown(c, after[level := SplitRow(row, i, lo, up)], level) && SameBelow(pages, c, level)
  {
    MovedShown(a, row, level, i, newNo, down, lo, up);
    var b := a[lo.no := a[lo.no].(recs := lo.recs)];
    var c := b[up.no := b[up.no].(recs := up.recs)];
    MovedAll(a, c, after, level, SplitRow(row, i, lo, up));
    SameBelowTransitive(pages, a, c, level);
  }

  /** The facts about the cursor's page that a split decision needs; above a page with two
      records there are fewer pages than records. */
  lemma {:induction false} SplitFactsOnPage(rows: seq<Row>, level: nat, root: int, i: nat, c: nat, r: Rec)
    requires Tower(rows, level, root) && level + 1 < |rows| && InsertPoint(rows, level, i, c, r)
    requires |rows[level][i].recs| >= 2
    ensures IsPlace(rows[level][i].recs, c, r.key) && AllSmall(rows[level][i].recs) && Fits(rows[level][i].recs)
    ensures |Flat(rows[level + 1])| < |Flat(rows[level])|
  {
    PlaceOnPage(rows[level], i, c, r.key);
    assert NodeOk(rows[level][i], false);
    forall x | 0 <= x < |rows[level]| ensures rows[level][x].recs != [] {
      assert NodeOk(rows[level][x], false);
    }
    NodesBelowRecords(rows[level]);
  }

  /** The halves of the page with the tuple. */
  lemma {:induction false} FittingHalves(row: Row, inner: bool, i: nat, c: nat, r: Rec, split: Position)
    requires i < |row| && c <= |row[i].recs| && NodeOk(row[i], false) && Ordered(Flat(row), inner)
    requires r.key.At? && Small(r) && (inner ==> c > 0) && IsPlace(Flat(row), Offset(row, i) + c, r.key)
    requires split.Tuple? || (split.User? && split.i < |row[i].recs|)
    requires 1 <= ItemOf(split, c) <= |row[i].recs|
    requires Fits(TupleHalf(Insert(row[i].recs, c, r), c, split))
    ensures var s, m := Insert(row[i].recs, c, r), ItemOf(split, c);
            NodeOk(Node(row[i].no, s[..m]), false) && NodeOk(Node(row[i].no, s[m..]), false) &&
            Ordered(Flat(row[..i]) + (s[..m] + s[m..]) + Flat(row[i + 1..]), inner) &&
            Flat(row[..i]) + (s[..m] + s[m..]) + Flat(row[i + 1..]) == Insert(Flat(row), Offset(row, i) + c, r)
  {
    FittingHalf(row[i].recs, c, r, split);
    FittingOrder(row, inner, i, c, r, ItemOf(split, c));
    HalvesOk(Insert(row[i].recs, c, r), ItemOf(split, c), row[i].no);
  }

  lemma {:induction false} FittingOrder(row: Row, inner: bool, i: nat, c: nat, r: Rec, m: nat)
    requires i < |row| && c <= |row[i].recs| && Ordered(Flat(row), inner) && m <= |row[i].recs|
    requires r.key.At? && (inner ==> c > 0) && IsPlace(Flat(row), Offset(row, i) + c, r.key)
    ensures var s := Insert(row[i].recs, c, r);
            Ordered(Flat(row[..i]) + (s[..m] + s[m..]) + Flat(row[i + 1..]), inner) &&
            Flat(row[..i]) + (s[..m] + s[m..]) + Flat(row[i + 1..]) == Insert(Flat(row), Offset(row, i) + c, r)
  {
    CutItems(row, i, c, r, m);
    InsertOrdered(Flat(row), Offset(row, i) + c, r, inner);
  }

  lemma {:induction false} HalvesOk(s: seq<Rec>, m: nat, no: int)
    requires 1 <= m < |s| && Fits(s[..m]) && Fits(s[m..]) && AllSmall(s[..m]) && AllSmall(s[m..])
    ensures NodeOk(Node(no, s[..m]), false) && NodeOk(Node(no, s[m..]), false)
  {
  }

  lemma {:induction false} CutItems(row: Row, i: nat, c: nat, r: Rec, m: nat)
    requires i < |row| && c <= |row[i].recs| && m <= |row[i].recs|
    ensures var s := Insert(row[i].recs, c, r);
            Offset(row, i) + c <= |Flat(row)| &&
            Flat(row[..i]) + (s[..m] + s[m..]) + Flat(row[i + 1..]) == Insert(Flat(row), Offset(row, i) + c, r)
  {
    var s := Insert(row[i].recs, c, r);
    assert s[..m] + s[m..] == s;
    FlatInsert(row, i, c, r);
  }

  /** All that a split with the tuple needs. */
  lemma {:induction false} FittingSplit(rows: seq<Row>, level: nat, root: int, i: nat, c: nat, r: Rec, split: Position)
    requires Tower(rows, level, root) && level + 1 < |rows| && InsertPoint(rows, level, i, c, r)
    requires split.Tuple? || (split.User? && split.i < |rows[level][i].recs|)
    requires 1 <= ItemOf(split, c) <= |rows[level][i].recs|
    requires Fits(TupleHalf(Insert(rows[level][i].recs, c, r), c, split))
    ensures var row, ptrs := rows[level], Flat(rows[level + 1]);
            var s, m := Insert(row[i].recs, c, r), ItemOf(split, c);
            HalvesUnder(s[..m], s[m..], ptrs, i, s[m].key, level > 0) &&
            Less(ptrs[i].key, s[m].key) && s[m].key.At? && Small(s[m]) &&
            NodeOk(Node(row[i].no, s[..m]), false) && NodeOk(Node(row[i].no, s[m..]), false) &&
            Ordered(Flat(row[..i]) + (s[..m] + s[m..]) + Flat(row[i + 1..]), level > 0) &&
            Inserted(Flat(row), Flat(row[..i]) + (s[..m] + s[m..]) + Flat(row[i + 1..]), r)
  {
    SplitFacts(rows, level, root, i, c, r, split);
    assert NodeOk(rows[level][i], false);
    FittingHalves(rows[level], level > 0, i, c, r, split);
  }

  /** The halves of the page without the tuple. */
  lemma {:induction false} UnfitHalves(rows: seq<Row>, level: nat, root: int, i: nat, c: nat, r: Rec, q: nat)
    requires Tower(rows, level, root) && level + 1 < |rows| && InsertPoint(rows, level, i, c, r)
    requires q < |rows[level][i].recs| && !Fits(TupleHalf(Insert(rows[level][i].recs, c, r), c, User(q)))
    requires 1 <= ItemOf(User(q), c)
    ensures var row := rows[level];
            var recs := row[i].recs;
            q > 0 && NodeOk(Node(row[i].no, recs[..q]), false) && NodeOk(Node(row[i].no, recs[q..]), false) &&
            HalvesUnder(recs[..q], recs[q..], Flat(rows[level + 1]), i, recs[q].key, level > 0) &&
            Less(Flat(rows[level + 1])[i].key, recs[q].key) && recs[q].key.At? && Small(recs[q]) &&
            Ordered(Flat(row[..i]) + (recs[..q] + recs[q..]) + Flat(row[i + 1..]), level > 0) &&
            (q >= c ==> q >= 2) && (q < c ==> |recs| - q >= 2)
  {
    var row := rows[level];
    var recs := row[i].recs;
    assert NodeOk(row[i], false) && NodeUnder(row[i], Flat(rows[level + 1]), i, level > 0);
    UnfitHalf(recs, c, r, q);
    HalvesOk(recs, q, row[i].no);
    PageSorted(row, i);
    CutHalves(recs, q, Flat(rows[level + 1]), i, level > 0);
    CutPage(row, i, q);
  }

  lemma {:induction false} CutPage(row: Row, i: nat, q: nat)
    requires i < |row| && q <= |row[i].recs|
    ensures Flat(row[..i]) + (row[i].recs[..q] + row[i].recs[q..]) + Flat(row[i + 1..]) == Flat(row)
  {
    assert row[i].recs[..q] + row[i].recs[q..] == row[i].recs;
    FlatAt(row, i);
  }

  /** The cursor after a split that did not take the tuple. */
  lemma {:induction false} UnfitInsertPoint(rows: seq<Row>, after: seq<Row>, level: nat, i: nat, c: nat, r: Rec,
                                            q: nat, lower: int, upper: int)
    requires level + 1 < |rows| && InsertPoint(rows, level, i, c, r)
    requires 0 < q < |rows[level][i].recs| && level + 1 < |after|
    requires if q >= c then q >= 2 else |rows[level][i].recs| - q >= 2
    requires var recs := rows[level][i].recs;
             after[level] == SplitRow(rows[level], i, Node(lower, recs[..q]), Node(upper, recs[q..])) &&
             Flat(after[level + 1]) == SplitPtrs(Flat(rows[level + 1]), i, lower, NodePtr(recs[q], upper))
    ensures Flat(after[level]) == Flat(rows[level])
    ensures var i', c' := if q >= c then i else i + 1, if q >= c then c else c - q;
            c' >= 0 && InsertPoint(after, level, i', c', r) && |after[level][i'].recs| >= 2 &&
            after[level][i'].no == if q >= c then lower else upper
  {
    var recs := rows[level][i].recs;
    PlaceOnPage(rows[level], i, c, r.key);
    SplitOffsets(rows[level], i, Node(lower, recs[..q]), Node(upper, recs[q..]));
    SplitSameFlat(rows[level], i, q, lower, upper);
    SplitRange(Flat(rows[level + 1]), i, lower, NodePtr(recs[q], upper), r.key);
    assert if q >= c then Less(r.key, recs[q].key) else Less(recs[q].key, r.key);
  }

  lemma {:induction false} SplitSameFlat(row: Row, i: nat, q: nat, lower: int, upper: int)
    requires i < |row| && q <= |row[i].recs|
    ensures Flat(SplitRow(row, i, Node(lower, row[i].recs[..q]), Node(upper, row[i].recs[q..]))) == Flat(row)
  {
    SplitFlat(row, i, Node(lower, row[i].recs[..q]), Node(upper, row[i].recs[q..]));
    CutPage(row, i, q);
  }

  /** Where the two halves of a page are in the flat order. */
  lemma {:induction false} SplitOffsets(row: Row, i: nat, lo: Node, up: Node)
    requires i < |row|
    ensures var row' := SplitRow(row, i, lo, up);
            Flat(row') == Flat(row[..i]) + (lo.recs + up.recs) + Flat(row[i + 1..]) &&
            row'[i] == lo && row'[i + 1] == up &&
            Offset(row', i) == Offset(row, i) && Offset(row', i + 1) == Offset(row, i) + |lo.recs|
  {
    var row' := SplitRow(row, i, lo, up);
    SplitFlat(row, i, lo, up);
    assert row'[..i] == row[..i];
    FlatConcat(row[..i], [lo]);
    FlatOne(lo);
    assert row'[..i + 1] == row[..i] + [lo];
  }

  lemma {:induction false} SplitRange(ptrs: seq<Rec>, i: nat, lo: int, p: Rec, k: Key)
    requires i < |ptrs| && InRange(k, ptrs, i)
    ensures var after := SplitPtrs(ptrs, i, lo, p);
            |after| == |ptrs| + 1 && (Less(k, p.key) ==> InRange(k, after, i)) &&
              (AtMost(p.key, k) ==> InRange(k, after, i + 1))
  {
    var after := SplitPtrs(ptrs, i, lo, p);
    assert i + 1 < |ptrs| ==> after[i + 2] == ptrs[i + 1];
  }

  lemma {:induction false} RoomForTwo(n: Node, c: nat, r: Rec, mayBeEmpty: bool)
    requires NodeOk(n, mayBeEmpty) && c <= |n.recs| && Small(r)
    ensures |n.recs| <= 1 ==> Fits(Insert(n.recs, c, r))
  {
    if |n.recs| <= 1 {
      TwoRecordsFit(n.recs, c, r);
    }
  }

  /** The root page is on the last row, and a page that is not the root is below it. */
  lemma {:induction false} RootIsTop(pages: map<int, Page>, rows: seq<Row>, level: nat, root: int, i: nat)
    requires Tower(rows, level, root) && RowsShown(pages, rows, level) && i < |rows[level]| && rows[level][i].no == root
    ensures level + 1 == |rows| && i == 0
  {
    RootPage(pages, rows, level, root, Min, false);
    PathPage(pages, rows, level, root, level, i);
  }

  lemma {:induction false} OnlyRootIsTop(rows: seq<Row>, level: nat, root: int, i: nat)
    requires Tower(rows, level, root) && i < |rows[level]| && rows[level][i].no != root
    ensures level + 1 < |rows|
  {
  }

  /** The rows after the root was raised. */
  function RaisedRows(rows: seq<Row>, level: nat, root: int, newNo: int): seq<Row>
    requires level + 1 == |rows| && |rows[level]| == 1 && rows[level][0].recs != []
  {
    var recs := rows[level][0].recs;
    rows[level := [Node(newNo, recs)]] + [[Node(root, [NodePtr(recs[0], newNo).(key := Min)])]]
  }

  lemma {:induction false} RaiseKeepsTower(rows: seq<Row>, level: nat, root: int, n: int, c: nat, r: Rec)
    requires Tower(rows, level, root) && level + 1 == |rows|
    requires InsertPoint(rows, level, 0, c, r) && rows[level][0].recs != []
    ensures var rows' := RaisedRows(rows, level, root, n);
            Tower(rows', level, root) && InsertPoint(rows', level, 0, c, r) && Flat(rows'[level]) == Flat(rows[level])
  {
    var rows' := RaisedRows(rows, level, root, n);
    var recs := rows[level][0].recs;
    var p := NodePtr(recs[0], n).(key := Min);
    assert rows[level] == [rows[level][0]] && rows[level][..0] == [] == rows'[level][..0];
    FlatOne(rows[level][0]);
    FlatOne(Node(n, recs));
    FlatOne(Node(root, [p]));
    assert rows'[level] == [Node(n, recs)] && rows'[level + 1] == [Node(root, [p])];
    assert NodeOk(rows[level][0], level == 0);
    TwoRecordsFit([], 0, p);
    assert Insert([], 0, p) == [p];
    assert NodeUnder(Node(n, recs), [p], 0, level > 0);
    assert RowOk(rows'[level + 1], level + 1, true);
    assert Tower(rows', level + 1, root);
  }

  lemma {:induction false} RaiseShown(rows: seq<Row>, pages: map<int, Page>, level: nat, root: int, n: int)
    requires Tower(rows, level, root) && Shown(pages, rows, level) && level + 1 == |rows|
    requires rows[level][0].recs != [] && n !in pages && n != FIL_NULL
    ensures var recs := rows[level][0].recs;
            var pages' := pages[n := Page(level, FIL_NULL, FIL_NULL, recs)]
                               [root := Page(level + 1, FIL_NULL, FIL_NULL, [NodePtr(recs[0], n).(key := Min)])];
            Shown(pages', RaisedRows(rows, level, root, n), level) && SameBelow(pages, pages', level)
  {
    var recs := rows[level][0].recs;
    var p := NodePtr(recs[0], n).(key := Min);
    var pages' := pages[n := Page(level, FIL_NULL, FIL_NULL, recs)][root := Page(level + 1, FIL_NULL, FIL_NULL, [p])];
    var rows' := RaisedRows(rows, level, root, n);
    assert PageShown(pages, rows[level], level, 0);
    assert rows'[level] == [Node(n, recs)] && rows'[level + 1] == [Node(root, [p])];
    assert PageShown(pages', rows'[level], level, 0) && PageShown(pages', rows'[level + 1], level + 1, 0);
    assert RowsShown(pages', rows', level + 2) && RowsShown(pages', rows', level + 1);
    assert rows'[level][0].no in Numbers(rows'[level]) && rows'[level + 1][0].no in Numbers(rows'[level + 1]);
    forall q | q in pages' && pages'[q].level >= level
      ensures pages'[q].level < |rows'| && q in Numbers(rows'[pages'[q].level])
    {
      assert Numbers(rows[level]) == {root};
    }
  }

  /** level_list_remove changes the two neighbours only. */
  lemma {:induction false} UnlinkUpdates(a: map<int, Page>, level: nat, no: int, p: int, q: int)
    requires Neighbours(a, level, no, p, q) && p != no && no != q && (p == q ==> p == FIL_NULL)
    ensures var b := SetPrev(SetNext(a, p, q), q, p) - {no};
            OnlyLevel(a, b, level) && b.Keys == a.Keys - {no}
    ensures var b := SetPrev(SetNext(a, p, q), q, p) - {no};
            forall x :: x in a && x != no ==> x in b && b[x] == if x == p && p != FIL_NULL then a[x].(next := q)
                                                               else if x == q && q != FIL_NULL then a[x].(prev := p)
                                                               else a[x]
  {
  }

  lemma {:induction false} UnlinkedShown(a: map<int, Page>, row: Row, level: nat, i: nat)
    requires RowShown(a, row, level) && i < |row|
    requires Neighbours(a, level, row[i].no, PrevOf(row, i), NextPageOf(row, i))
    ensures var b := SetPrev(SetNext(a, PrevOf(row, i), NextPageOf(row, i)), NextPageOf(row, i),
                             PrevOf(row, i)) - {row[i].no};
            RowShown(b, row[..i] + row[i + 1..], level)
  {
    var p, q := PrevOf(row, i), NextPageOf(row, i);
    NeighboursStored(a, row, level, i);
    UnlinkUpdates(a, level, row[i].no, p, q);
    var b := SetPrev(SetNext(a, p, q), q, p) - {row[i].no};
    var row' := row[..i] + row[i + 1..];
    forall x | 0 <= x < |row'| ensures PageShown(b, row', level, x) {
      UnlinkedShownAt(a, b, row, level, i, x);
    }
    forall x, y | 0 <= x < y < |row'| ensures row'[x].no != row'[y].no {
      assert row'[x] == row[if x < i then x else x + 1] && row'[y] == row[if y < i then y else y + 1];
    }
  }

  lemma {:induction false} UnlinkedShownAt(a: map<int, Page>, b: map<int, Page>, row: Row, level: nat, i: nat, x: nat)
    requires RowShown(a, row, level) && i < |row| && x < |row| - 1
    requires var p, q := PrevOf(row, i), NextPageOf(row, i);
             forall y :: y in a && y != row[i].no ==> y in b && b[y] == if y == p && p != FIL_NULL then a[y].(next := q)
                                                               else if y == q && q != FIL_NULL then a[y].(prev := p)
                                                               else a[y]
    ensures PageShown(b, row[..i] + row[i + 1..], level, x)
  {
    var row' := row[..i] + row[i + 1..];
    var j := if x < i then x else x + 1;
    assert row'[x] == row[j] && PageShown(a, row, level, j) && row[j].no != row[i].no;
    assert x > 0 ==> row'[x - 1] == row[if x - 1 < i then x - 1 else x];
    assert x + 1 < |row'| ==> row'[x + 1] == row[if x + 1 < i then x + 1 else x + 2];
    assert i > 0 && j != i - 1 ==> row[j].no != row[i - 1].no;
    assert i + 1 < |row| && j != i + 1 ==> row[j].no != row[i + 1].no;
  }

  /** The row after the right neighbour of a leftmost non-leaf page was marked. */
  function MarkedRow(row: Row, i: nat, inner: bool): Row
    requires i < |row| && |row| > 1 && row[1].recs != []
  {
    if inner && i == 0 then row[1 := MarkFirst(row[1])] else row
  }

  lemma {:induction false} MarkShown(a: map<int, Page>, rows: seq<Row>, level: nat, i: nat, b: map<int, Page>)
    requires level < |rows| && Shown(a, rows, level) && i < |rows[level]| && |rows[level]| > 1 &&
             rows[level][1].recs != []
    requires b == if level > 0 && i == 0 && rows[level][1].no in a
                  then a[rows[level][1].no := a[rows[level][1].no].(recs := MarkFirst(rows[level][1]).recs)] else a
    ensures RowShown(b, MarkedRow(rows[level], i, level > 0), level) && Shown(b, rows, level + 1)
    ensures SameBelow(a, b, level) && PagesOn(b, level) == Numbers(rows[level])
    ensures Numbers(MarkedRow(rows[level], i, level > 0)) == Numbers(rows[level])
  {
    var row := rows[level];
    assert PageShown(a, row, level, 1);
    ShowRecs(a, row, level, 1, MarkFirst(row[1]).recs);
    OtherRows(a, rows, b, rows, level + 1, level);
    forall p ensures p in PagesOn(b, level) <==> p in Numbers(row) {
      if p in Numbers(row) {
        var x :| 0 <= x < |row| && row[x].no == p;
        assert PageShown(a, row, level, x);
      }
    }
  }

  lemma {:induction false} MarkedDiscard(row: Row, i: nat, inner: bool)
    requires i < |row| && |row| > 1 && forall x :: 0 <= x < |row| ==> row[x].recs != []
    ensures var m, row' := MarkedRow(row, i, inner), DiscardRow(row, i, inner);
            m[..i] + m[i + 1..] == row' &&
            forall x :: 0 <= x < |row'| ==> row'[x].no == row[if x < i then x else x + 1].no
  {
    var row' := DiscardRow(row, i, inner);
    if inner && i == 0 {
      MarkedDiscardFirst(row);
    } else {
      assert row' == row[..i] + row[i + 1..];
    }
  }

  lemma {:induction false} MarkedDiscardFirst(row: Row)
    requires |row| > 1 && forall x :: 0 <= x < |row| ==> row[x].recs != []
    ensures var m, row' := MarkedRow(row, 0, true), DiscardRow(row, 0, true);
            m[..0] + m[1..] == row' && row' == row[1..][0 := MarkFirst(row[1])]
  {
    var m := row[1 := MarkFirst(row[1])];
    assert row[..0] + row[1..] == row[1..] && m[..0] + m[1..] == m[1..];
  }

  lemma {:induction false} SameOn(a: map<int, Page>, b: map<int, Page>, level: nat)
    requires SameBelow(a, b, level + 1)
    ensures PagesOn(a, level) == PagesOn(b, level)
  {
    assert forall p :: p in PagesOn(a, level) <==> p in PagesOn(b, level);
  }

  lemma {:induction false} SameLevels(a: map<int, Page>, b: map<int, Page>, level: nat)
    requires OnlyLevel(a, b, level) && a.Keys == b.Keys
    ensures PagesOn(a, level) == PagesOn(b, level)
  {
    assert forall p :: p in a.Keys <==> p in b.Keys;
    assert forall p :: p in PagesOn(a, level) <==> p in PagesOn(b, level);
  }

  lemma {:induction false} DiscardKeepsTower(rows: seq<Row>, after: seq<Row>, level: nat, root: int, i: nat)
    requires Tower(rows, level, root) && level + 1 < |rows| && i < |rows[level]| && |rows[level][i].recs| == 1 &&
             |rows[level]| > 1
    requires level + 1 < |after| && Tower(after, level + 1, root)
    requires Flat(after[level + 1]) == Without(Flat(rows[level + 1]), i, true)
    ensures forall x :: 0 <= x < |rows[level]| ==> rows[level][x].recs != []
    ensures Tower(after[level := DiscardRow(rows[level], i, level > 0)], level, root)
  {
    DiscardKeepsRow(rows[level], level, i);
    TowerLevel(rows, level, root, level);
    DiscardUnder(rows[level], Flat(rows[level + 1]), level > 0, i);
    ReplaceLowest(after, level, root, DiscardRow(rows[level], i, level > 0));
  }

  /** What remains after the page was unlinked and freed is the tree without the record. */
  lemma {:induction false} DiscardPages(a: map<int, Page>, after: seq<Row>, c: map<int, Page>, d: map<int, Page>,
                                        level: nat, row: Row, i: nat, row': Row)
    requires SameBelow(a, c, level) && OnlyLevel(c, d, level)
    requires level < |after| && Shown(c, after, level + 1) && RowShown(d, row', level)
    requires i < |row| && d.Keys == c.Keys - {row[i].no} && PagesOn(c, level) == Numbers(row)
    requires |row'| == |row| - 1 && forall x :: 0 <= x < |row'| ==> row'[x].no == row[if x < i then x else x + 1].no
    ensures Shown(d, after[level := row'], level) && SameBelow(a, d, level)
  {
    forall p | p in d && d[p].level == level ensures p in Numbers(row') {
      assert p in PagesOn(c, level);
      var x :| 0 <= x < |row| && row[x].no == p;
      assert row'[if x < i then x else x - 1].no == p;
    }
    ShownAfter(c, after, d, level, row');
  }

  /** Page `no` is alone on its level and holds one record. */
  predicate OnlyPage(rows: seq<Row>, level: nat, no: int) {
    level < |rows| && |rows[level]| == 1 && rows[level][0].no == no && |rows[level][0].recs| == 1
  }

  /** Above a page that is alone on its level there is again a page alone on its level, with
      the one node pointer to it. */
  lemma {:induction false} OnlyPageAbove(rows: seq<Row>, level: nat, root: int, no: int)
    requires OnlyPage(rows, level, no) && level + 1 < |rows| && Tower(rows, level, root)
    ensures |rows[level + 1]| == 1 && OnlyPage(rows, level + 1, rows[level + 1][0].no)
  {
    TowerLevel(rows, level, root, level);
    var row := rows[level + 1];
    forall x | 0 <= x < |row| ensures row[x].recs != [] {
      assert NodeOk(row[x], false);
    }
    NodesBelowRecords(row);
  }

  lemma {:induction false} FreeOnlyPage(a: map<int, Page>, rows: seq<Row>, level: nat, no: int)
    requires OnlyPage(rows, level, no) && Shown(a, rows, level) && forall p :: p in a ==> a[p].level >= level
    ensures var b := a - {no}; Shown(b, rows, level + 1) && forall p :: p in b ==> b[p].level >= level + 1
  {
    var b := a - {no};
    assert PageShown(a, rows[level], level, 0);
    OtherRows(a, rows, b, rows, level + 1, level);
    forall p | p in b ensures b[p].level >= level + 1 {
      assert Numbers(rows[level]) == {no};
    }
  }

  lemma {:induction false} EmptyTreeShown(root: int)
    requires root != FIL_NULL
    ensures var pages, rows := map[root := Page(0, FIL_NULL, FIL_NULL, [])], [[Node(root, [])]];
            Tower(rows, 0, root) && Shown(pages, rows, 0) && Flat(rows[0]) == []
  {
    var pages, rows := map[root := Page(0, FIL_NULL, FIL_NULL, [])], [[Node(root, [])]];
    FlatOne(Node(root, []));
    assert PageShown(pages, rows[0], 0, 0);
    assert RowsShown(pages, rows, 1);
    assert rows[0][0].no in Numbers(rows[0]);
  }

  /** When only the root page is left, emptying it gives the empty tree. */
  lemma {:induction false} EmptyTree(pages: map<int, Page>, rows: seq<Row>, level: nat, root: int)
    requires OnlyPage(rows, level, root) && level + 1 == |rows| && Shown(pages, rows, level)
    requires forall p :: p in pages ==> pages[p].level >= level
    requires root in pages && root != FIL_NULL && pages[root].prev == FIL_NULL && pages[root].next == FIL_NULL
    ensures var b, after := pages[root := pages[root].(level := 0, recs := [])], [[Node(root, [])]];
            Tower(after, 0, root) && Shown(b, after, 0)
  {
    EmptyTreeShown(root);
    assert Numbers(rows[level]) == {root};
    assert forall p :: p in pages.Keys <==> p == root;
    assert pages.Keys == {root};
    assert pages[root := pages[root].(level := 0, recs := [])] == map[root := Page(0, FIL_NULL, FIL_NULL, [])];
  }

  /** A lone page with one record below the root is a leaf, given that a node pointer is never
      deleted as the last one of its level. */
  lemma {:induction false} OnlyPageIsLeaf(rows: seq<Row>, level: nat, root: int)
    requires level < |rows| && |rows[level]| == 1 && |rows[level][0].recs| == 1
    requires level > 0 ==> |Flat(rows[level])| > 1
    ensures level == 0 && |Flat(rows[0])| == 1 && Offset(rows[0], 0) == 0
    ensures Flat([Node(root, [])]) == [] == Without(Flat(rows[0]), 0, false)
  {
    FlatOne(rows[level][0]);
    FlatOne(Node(root, []));
    assert rows[level] == [rows[level][0]] && rows[level][..0] == [];
  }

  /** A node pointer is deleted from the root only while the root has others. */
  lemma {:induction false} RootKeepsRecord(pages: map<int, Page>, rows: seq<Row>, level: nat, root: int, i: nat)
    requires Tower(rows, level, root) && RowsShown(pages, rows, level) && i < |rows[level]| && rows[level][i].no == root
    requires level > 0 ==> |Flat(rows[level])| > 1
    ensures |rows[level][i].recs| > 1 || (level == 0 && level + 1 == |rows|)
  {
    RootIsTop(pages, rows, level, root, i);
    RootRecords(rows, level);
  }

  lemma {:induction false} RootRecords(rows: seq<Row>, level: nat)
    requires level < |rows| && |rows[level]| == 1
    ensures Flat(rows[level]) == rows[level][0].recs
  {
    FlatOne(rows[level][0]);
    assert rows[level] == [rows[level][0]];
  }

  lemma {:induction false} InnerNotTop(rows: seq<Row>, level: nat, root: int, i: nat)
    requires Tower(rows, level, root) && 0 < i < |rows[level]|
    ensures level + 1 < |rows|
  {
  }

  lemma {:induction false} ReplaceFacts(rows: seq<Row>, level: nat, root: int, i: nat)
    requires Tower(rows, level, root) && level + 1 < |rows| && 0 < i < |rows[level]| && |rows[level][i].recs| > 1
    ensures var recs, ptrs := rows[level][i].recs, Flat(rows[level + 1]);
            Tower(rows, level + 1, root) && Linked(rows[level], ptrs, level > 0) && Sorted(ptrs) &&
            InRange(recs[1].key, ptrs, i) && Less(ptrs[i].key, recs[1].key) && recs[1].key.At? && Small(recs[1])
  {
    TowerLevel(rows, level, root, level);
    PageSorted(rows[level], i);
    assert NodeOk(rows[level][i], false) && NodeUnder(rows[level][i], Flat(rows[level + 1]), i, level > 0);
    assert InRange(rows[level][i].recs[0].key, Flat(rows[level + 1]), i) &&
           Less(rows[level][i].recs[0].key, rows[level][i].recs[1].key);
  }

  /** After the node pointer i was deleted, the key that replaces it is free. */
  lemma {:induction false} PointerKeyFree(ptrs: seq<Rec>, i: nat, k: Key)
    requires Sorted(ptrs) && 0 < i < |ptrs| && InRange(k, ptrs, i) && Less(ptrs[i].key, k)
    ensures var t := Without(ptrs, i, true); forall x :: 0 <= x < |t| ==> t[x].key != k
  {
    RangeIsCut(ptrs, i, k);
    WithoutAt(ptrs, i, true, Without(ptrs, i, true));
    var t := Without(ptrs, i, true);
    forall x | 0 <= x < |t| ensures t[x].key != k {
      var y := if x < i then x else x + 1;
      assert t[x] == ptrs[y] && (y < i ==> Less(ptrs[y].key, ptrs[i].key)) && (y > i ==> !Below(ptrs[y].key, k, false));
    }
  }

  lemma {:induction false} PointerReplaced(ptrs: seq<Rec>, i: nat, p: Rec, after: seq<Rec>)
    requires Sorted(ptrs) && 0 < i < |ptrs| && InRange(p.key, ptrs, i) && Less(ptrs[i].key, p.key)
    requires Inserted(Without(ptrs, i, true), after, p)
    ensures after == ptrs[i := p]
  {
    WithoutIs(ptrs, i, true);
    var t := Without(ptrs, i, true);
    var c: nat :| IsPlace(t, c, p.key) && after == Insert(t, c, p);
    ReplacePlace(ptrs, i, p, t);
    PlaceUnique(t, c, i, p.key);
  }

  lemma {:induction false} ReplacePlace(ptrs: seq<Rec>, i: nat, p: Rec, t: seq<Rec>)
    requires Sorted(ptrs) && i < |ptrs| && InRange(p.key, ptrs, i) && Less(ptrs[i].key, p.key)
    requires t == ptrs[..i] + ptrs[i + 1..]
    ensures IsPlace(t, i, p.key) && Insert(t, i, p) == ptrs[i := p]
  {
    forall x | 0 <= x < |t| ensures if x < i then Less(t[x].key, p.key) else Less(p.key, t[x].key) {
      var y := if x < i then x else x + 1;
      assert t[x] == ptrs[y] && (y < i ==> Less(ptrs[y].key, ptrs[i].key));
      assert y > i + 1 ==> Less(ptrs[i + 1].key, ptrs[y].key);
    }
  }

  lemma {:induction false} DeleteKeepsTower(rows: seq<Row>, after: seq<Row>, level: nat, root: int, i: nat, j: nat)
    requires Tower(rows, level, root) && i < |rows[level]| && j < |rows[level][i].recs|
    requires |rows[level][i].recs| > 1 || (level == 0 && level + 1 == |rows|)
    requires RowOk(DeleteRow(rows[level], i, j, level > 0), level, level + 1 == |rows|)
    requires !(level > 0 && j == 0 && i > 0) ==> after == rows
    requires level > 0 && j == 0 && i > 0 ==>
               level + 1 < |after| && level + 1 < |rows| && Tower(after, level + 1, root) &&
                 i < |Flat(rows[level + 1])| &&
               Flat(after[level + 1]) == Flat(rows[level + 1])[i := NodePtr(rows[level][i].recs[1], rows[level][i].no)]
    ensures level < |after| && Tower(after[level := DeleteRow(rows[level], i, j, level > 0)], level, root)
  {
    TowerLevel(rows, level, root, level);
    var row := DeleteRow(rows[level], i, j, level > 0);
    if level > 0 && j == 0 && i > 0 {
      PageSorted(rows[level], i);
      DeleteFirstUnder(rows[level], Flat(rows[level + 1]), i, NodePtr(rows[level][i].recs[1], rows[level][i].no));
    } else if level + 1 < |rows| {
      assert NodeOk(rows[level + 1][0], false);
      DeleteUnder(rows[level], Flat(rows[level + 1]), level > 0, i, j);
    }
    ReplaceLowest(after, level, root, row);
  }

  /** What a page's header says about its place. */
  lemma {:induction false} PageFacts(pages: map<int, Page>, rows: seq<Row>, level: nat, root: int, i: nat)
    requires Tower(rows, level, root) && RowsShown(pages, rows, level) && i < |rows[level]|
    ensures rows[level][i].no in pages && pages[rows[level][i].no].recs == rows[level][i].recs
    ensures pages[rows[level][i].no].prev == FIL_NULL <==> i == 0
    ensures pages[rows[level][i].no].next == FIL_NULL <==> i + 1 == |rows[level]|
  {
    LevelShown(pages, rows, level, level);
    NeighboursStored(pages, rows[level], level, i);
    assert PageShown(pages, rows[level], level, i);
  }

  /** The delete within a page, after the node pointer to the page was adjusted if need be. */
  lemma {:induction false} FinishDeletePages(rows: seq<Row>, a: map<int, Page>, after: seq<Row>, b: map<int, Page>,
                                             level: nat, i: nat, x: seq<Rec>)
    requires Shown(a, rows, level) && level < |rows| && i < |rows[level]| && level < |after|
    requires Shown(b, after, level + 1) && SameBelow(a, b, level + 1)
    ensures var no, row := rows[level][i].no, rows[level][i := rows[level][i].(recs := x)];
            no in b && Shown(b[no := b[no].(recs := x)], after[level := row], level) &&
            SameBelow(a, b[no := b[no].(recs := x)], level)
  {
    var row := rows[level];
    LevelShown(a, rows, level, level);
    BelowRowShown(a, b, row, level);
    OnlyNumbers(a, b, rows, level);
    DeletedPages(a, b, after, level, row, i, x);
  }

  lemma {:induction false} OnlyNumbers(a: map<int, Page>, b: map<int, Page>, rows: seq<Row>, level: nat)
    requires level < |rows| && Shown(a, rows, level) && SameBelow(a, b, level + 1)
    ensures PagesOn(b, level) == Numbers(rows[level])
  {
    forall p ensures p in PagesOn(b, level) <==> p in Numbers(rows[level]) {
      if p in Numbers(rows[level]) {
        var x :| 0 <= x < |rows[level]| && rows[level][x].no == p;
        assert PageShown(a, rows[level], level, x);
      }
    }
  }

  lemma {:induction false} DeletedPages(a: map<int, Page>, b: map<int, Page>, after: seq<Row>, level: nat, row: Row,
                                        i: nat, x: seq<Rec>)
    requires SameBelow(a, b, level) && PagesOn(b, level) == Numbers(row) && i < |row|
    requires level < |after| && Shown(b, after, level + 1) && RowShown(b, row, level)
    ensures row[i].no in b
    ensures var c := b[row[i].no := b[row[i].no].(recs := x)];
            Shown(c, after[level := row[i := row[i].(recs := x)]], level) && SameBelow(a, c, level)
  {
    ShowRecs(b, row, level, i, x);
    var c := b[row[i].no := b[row[i].no].(recs := x)];
    MovedAll(b, c, after, level, row[i := row[i].(recs := x)]);
    SameBelowTransitive(a, b, c, level);
  }

  /** If a key is in a sorted sequence, a search in mode LE stops on it. */
  lemma {:induction false} FoundAtCursor(s: seq<Rec>, x: int, k: Key)
    requires CursorAt(s, x, k, LE) && k.At? && Sorted(s)
    ensures (exists y :: 0 <= y < |s| && s[y].key == k) <==> 0 <= x && s[x].key == k
  {
    forall y | 0 <= y < |s| && s[y].key == k ensures 0 <= x && s[x].key == k {
      assert Below(s[y].key, k, false) && y <= x;
      assert y < x ==> Less(s[y].key, s[x].key) && Below(s[x].key, k, false);
    }
  }

  /** If the cursor of a search in mode LE is not on the key, the key is not in the tree. */
  lemma {:induction false} KeyAtCursor(rows: seq<Row>, root: int, i: nat, pos: int, k: Key)
    requires Tower(rows, 0, root) && k.At? && OnPath(rows, 0, i, k, false) && CursorAt(rows[0][i].recs, pos, k, LE)
    ensures !(0 <= pos && rows[0][i].recs[pos].key == k) ==> !HasKey(Flat(rows[0]), k)
    ensures 0 <= pos ==>
              Offset(rows[0], i) + pos < |Flat(rows[0])| &&
                Flat(rows[0])[Offset(rows[0], i) + pos] == rows[0][i].recs[pos]
  {
    TowerLevel(rows, 0, root, 0);
    if 0 <= pos {
      FlatIndex(rows[0], i, pos);
    }
    PageSorted(rows[0], i);
    FoundAtCursor(rows[0][i].recs, pos, k);
    if HasKey(Flat(rows[0]), k) {
      var b := KeyOnPathPage(rows, root, i, k);
      assert rows[0][i].recs[b].key == k;
    }
  }

  /** A key of the tree is on the page on its path. */
  lemma {:induction false} KeyOnPathPage(rows: seq<Row>, root: int, i: nat, k: Key) returns (b: nat)
    requires Tower(rows, 0, root) && OnPath(rows, 0, i, k, false) && HasKey(Flat(rows[0]), k)
    ensures b < |rows[0][i].recs| && rows[0][i].recs[b].key == k
  {
    var r :| r in Flat(rows[0]) && r.key == k;
    var x :| 0 <= x < |Flat(rows[0])| && Flat(rows[0])[x] == r;
    var a;
    a, b := FlatMember(rows[0], x);
    RecordOnPath(rows, root, a, b);
    PathUnique(rows, k, a, i);
  }

  /** Only one leaf page is on the path of a key, */
  lemma {:induction false} PathUnique(rows: seq<Row>, k: Key, i: nat, j: nat)
    requires rows != [] && OnPath(rows, 0, i, k, false) && OnPath(rows, 0, j, k, false)
    ensures i == j
  {
    if |rows| > 1 {
      CutUnique(Flat(rows[1]), i + 1, j + 1, k, false);
    }
  }

  /** and a record is on the page of its key. */
  lemma {:induction false} RecordOnPath(rows: seq<Row>, root: int, i: nat, x: nat)
    requires Tower(rows, 0, root) && i < |rows[0]| && x < |rows[0][i].recs|
    ensures OnPath(rows, 0, i, rows[0][i].recs[x].key, false)
  {
    if |rows| > 1 {
      TowerLevel(rows, 0, root, 1);
      assert NodeUnder(rows[0][i], Flat(rows[1]), i, false);
      RangeIsCut(Flat(rows[1]), i, rows[0][i].recs[x].key);
    }
  }
}
