/** Persistent cursors: a position is stored, the tree changes in any way, and the position is
    restored, by the modify clock of its page if that stood still, else by a new search. */
module Pcur {
  import opened BtreePage
  import opened BtreeRows
  import opened Btree

  datatype RelPos = On | Before | After | BeforeFirstInTree | AfterLastInTree

  /** A page number, and an index between infimum (-1) and supremum (the number of records). */
  predicate OnPage(row: Row, at: nat, pos: int) {
    at < |row| && -1 <= pos <= |row[at].recs|
  }

  /** How many records, over all leaf pages, a forward move passes over or has passed. */
  function Ahead(row: Row, at: nat, pos: int): int
    requires OnPage(row, at, pos)
  {
    Offset(row, at) + if pos < |row[at].recs| then pos + 1 else pos
  }

  /** What a position on a page with n records is stored as. */
  function RelPosOf(n: nat, pos: int): RelPos {
    if n == 0 then (if pos == 0 then AfterLastInTree else BeforeFirstInTree)
    else if pos == n then After
    else if pos == -1 then Before
    else On
  }

  /** The stored record: the one before supremum, the one after infimum, or the one at pos. */
  function StoredIndex(n: nat, pos: int): int {
    if pos == n then n - 1 else if pos == -1 then 0 else pos
  }

  ghost predicate Stored(row: Row, at: nat, pos: int, r: RelPos, k: Key, block: int) {
    OnPage(row, at, pos) && r == RelPosOf(|row[at].recs|, pos) &&
    (Relative(r) ==> k == row[at].recs[StoredIndex(|row[at].recs|, pos)].key && k.At? && HasRecord(row, block, k))
  }

  /** The position is relative to a record. */
  predicate Relative(r: RelPos) {
    r == On || r == Before || r == After
  }

  /** What is stored stems from an earlier state of the tree: the clock of its page has not gone
      back, and if it stands still the record is still on the page. */
  ghost predicate Traced(row: Row, clocks: Clocks, r: RelPos, k: Key, block: int, clock: int) {
    Relative(r) ==>
      k.At? && clock <= ClockOf(clocks, block) && (clock == ClockOf(clocks, block) ==> HasRecord(row, block, k))
  }

  /** Whatever the tree's operations do in between, that remains so. */
  lemma {:induction false} TracedKept(row: Row, clocks: Clocks, row': Row, clocks': Clocks, r: RelPos, k: Key,
                                      block: int, clock: int)
    requires Traced(row, clocks, r, k, block, clock) && Kept(row, clocks, row', clocks') && Advance(clocks, clocks')
    ensures Traced(row', clocks', r, k, block, clock)
  {
    assert ClockOf(clocks, block) <= ClockOf(clocks', block);
  }

  /** No record with a key above k is among the first n. */
  predicate NoneSkipped(s: seq<Rec>, k: Key, n: int) {
    forall x :: 0 <= x < |s| && x < n ==> AtMost(s[x].key, k)
  }

  predicate AllAtMost(s: seq<Rec>, k: Key) {
    forall x :: 0 <= x < |s| ==> AtMost(s[x].key, k)
  }

  /** The leaf page to which the node pointers lead for key k holds no larger key. */
  ghost predicate PathPageBelow(rows: seq<Row>, k: Key) {
    rows != [] && exists i: nat :: OnPath(rows, 0, i, k, false) && AllAtMost(rows[0][i].recs, k)
  }

  /** The n records end on the leaf page for key k: either with the page, or with the first record
      above k. */
  ghost predicate EndsOnPathPage(rows: seq<Row>, k: Key, n: int) {
    rows != [] && exists i: nat :: OnPath(rows, 0, i, k, false) && EndsOn(rows[0], i, k, n)
  }

  ghost predicate EndsOn(row: Row, i: nat, k: Key, n: int)
    requires i < |row|
  {
    var end := Offset(row, i) + |row[i].recs|;
    n == end || (0 < n <= end && IsCut(Flat(row), n - 1, k, false))
  }

  /** The n records are those on the pages before the leaf page that has key k. */
  ghost predicate StartsPageOf(row: Row, k: Key, n: int) {
    exists i: nat :: i < |row| && HasKey(row[i].recs, k) && n == Offset(row, i)
  }

  /** Where a restored cursor may be, if n records lie before its next one. A position before a
      record is right behind the keys below that one, or at the start of its page. A position
      after a record passes no larger key over if and only if the page for that key has none;
      otherwise it passes over the first of them, or all. */
  ghost predicate Restored(rows: seq<Row>, r: RelPos, k: Key, n: int)
    requires rows != []
  {
    var s := Flat(rows[0]);
    0 <= n <= |s| &&
    match r
    case On => IsCut(s, n, k, false)
    case Before =>
      (forall x :: 0 <= x < n ==> Less(s[x].key, k)) && (IsCut(s, n, k, true) || StartsPageOf(rows[0], k, n))
    case After =>
      (forall x :: n <= x < |s| ==> Less(k, s[x].key)) && (NoneSkipped(s, k, n) <==> PathPageBelow(rows, k)) &&
      EndsOnPathPage(rows, k, n)
    case _ => true
  }

  class Pcursor {
    var no: int            // the page of the cursor
    var pos: int
    ghost var at: nat      // its index among the leaf pages
    var oldStored: bool
    var relPos: RelPos
    var oldKey: Key        // m_old_rec
    var blockWhenStored: int
    var modifyClock: int

    ghost predicate Positioned(tree: Tree)
      reads this, tree
    {
      tree.Valid() && OnPage(tree.rows[0], at, pos) && tree.rows[0][at].no == no
    }

    predicate OnUserRec(tree: Tree)
      reads this, tree
    {
      no in tree.pages && 0 <= pos < |tree.pages[no].recs|
    }

    /** A cursor outside any tree. */
    constructor ()
      ensures !oldStored
    {
      no, pos, at, oldStored, relPos, oldKey, blockWhenStored, modifyClock := 0, 0, 0, false, On, Min, 0, 0;
    }

    /** open_at_index_side: down to the first or the last leaf page. */
    method OpenAtIndexSide(tree: Tree, fromLeft: bool)
      requires tree.Valid()
      modifies this`no, this`pos, this`at
      ensures Positioned(tree) && Ahead(tree.rows[0], at, pos) == if fromLeft then 0 else |tree.Records()|
      ensures if fromLeft then at == 0 && pos == -1 else at + 1 == |tree.rows[0]| && pos == |tree.rows[0][at].recs|
    {
      no, at := tree.root, 0;
      SideTop(tree.pages, tree.rows, tree.root);
      var height := tree.pages[no].level;
      while height > 0
        invariant 0 <= height < |tree.rows| && OnSide(tree.rows[height], at, fromLeft) && tree.rows[height][at].no == no
      {
        SideDown(tree.pages, tree.rows, tree.root, height, at, fromLeft);
        var recs := tree.pages[no].recs;
        no := recs[if fromLeft then 0 else |recs| - 1].child;
        at := if fromLeft then 0 else |tree.rows[height - 1]| - 1;
        height := height - 1;
      }
      LeafFacts(tree.pages, tree.rows, tree.root, at);
      SideAhead(tree.rows[0], at, fromLeft);
      pos := if fromLeft then -1 else |tree.pages[no].recs|;
    }

    /** move_to_next_user_rec: over the rest of the page, and over page links, to the next record
        of the tree, if there is one. */
    method MoveToNextUserRec(tree: Tree) returns (ok: bool)
      requires Positioned(tree)
      modifies this`no, this`pos, this`at, this`oldStored
      ensures Positioned(tree) && !oldStored
      ensures ok <==> old(Ahead(tree.rows[0], at, pos)) < |tree.Records()|
      ensures !ok ==> at + 1 == |tree.rows[0]| && pos == |tree.rows[0][at].recs|
      ensures ok ==> OnUserRec(tree) && Offset(tree.rows[0], at) + pos == old(Ahead(tree.rows[0], at, pos)) &&
                     tree.pages[no].recs[pos] == tree.Records()[old(Ahead(tree.rows[0], at, pos))]
    {
      oldStored := false;
      while true
        invariant Positioned(tree) && !oldStored && Ahead(tree.rows[0], at, pos) == old(Ahead(tree.rows[0], at, pos))
        decreases |tree.rows[0]| - at, pos < |tree.rows[0][at].recs|
      {
        NextFacts(tree.pages, tree.rows, tree.root, at, pos);
        if pos == |tree.pages[no].recs| {
          if tree.pages[no].next == FIL_NULL {
            return false;
          }
          MoveToNextPage(tree);
        } else {
          pos := pos + 1;
          if pos < |tree.pages[no].recs| {
            return true;
          }
        }
      }
    }

    function KeyAt(tree: Tree): Key
      reads this, tree
      requires OnUserRec(tree)
    {
      tree.pages[no].recs[pos].key
    }

    /** move_to_next_on_page. */
    method MoveToNextOnPage(tree: Tree)
      requires Positioned(tree) && pos < |tree.rows[0][at].recs|
      modifies this`pos, this`oldStored
      ensures Positioned(tree) && pos == old(pos) + 1 && !oldStored
    {
      pos := pos + 1;
      oldStored := false;
    }

    /** move_to_next_page: to infimum of the page that the link leads to. */
    method MoveToNextPage(tree: Tree)
      requires Positioned(tree) && at + 1 < |tree.rows[0]| && pos == |tree.rows[0][at].recs|
      modifies this`no, this`pos, this`at
      ensures Positioned(tree) && at == old(at) + 1 && pos == -1
      ensures Ahead(tree.rows[0], at, pos) == old(Ahead(tree.rows[0], at, pos))
    {
      NextFacts(tree.pages, tree.rows, tree.root, at, pos);
      no, at, pos := tree.pages[no].next, at + 1, -1;
    }

    /** What is stored describes the position of the cursor in the tree as it is, clock included. */
    ghost predicate StoredNow(tree: Tree)
      reads this, tree
    {
      StoredAt(tree) && oldStored &&
      (Relative(relPos) ==> blockWhenStored == no && modifyClock == ClockOf(tree.clocks, no))
    }

    /** store_position. On an empty page, which is the only one of its tree, neither record nor
        clock is stored. */
    method StorePosition(tree: Tree)
      requires Positioned(tree)
      modifies this`oldStored, this`relPos, this`oldKey, this`blockWhenStored, this`modifyClock
      ensures StoredNow(tree) && Follows(tree)
      ensures !Relative(relPos) ==>
                oldKey == old(oldKey) && blockWhenStored == old(blockWhenStored) && modifyClock == old(modifyClock)
    {
      LeafFacts(tree.pages, tree.rows, tree.root, at);
      StoreFacts(tree.rows, tree.root, at, pos);
      var recs := tree.pages[no].recs;
      oldStored := true;
      if recs == [] {
        assert tree.pages[no].next == FIL_NULL;
        relPos := if pos == 0 then AfterLastInTree else BeforeFirstInTree;
        return;
      }
      var x := pos;
      relPos := On;
      if pos == |recs| {
        relPos, x := After, pos - 1;
      } else if pos == -1 {
        relPos, x := Before, 0;
      }
      oldKey, blockWhenStored, modifyClock := recs[x].key, no, ClockOf(tree.clocks, no);
    }

    /** What is stored describes the position in the tree. */
    ghost predicate StoredAt(tree: Tree)
      reads this, tree
    {
      Positioned(tree) && Stored(tree.rows[0], at, pos, relPos, oldKey, blockWhenStored)
    }

    /** A position was stored in this tree, in its present state or an earlier one. Every
        operation of the tree keeps this (TracedKept). */
    ghost predicate Follows(tree: Tree)
      reads this, tree
    {
      tree.Valid() && oldStored && Traced(tree.rows[0], tree.clocks, relPos, oldKey, blockWhenStored, modifyClock)
    }

    /** restore_position. The optimistic way is open if the modify clock stands where it stood,
        and may be refused because the page is latched (`busy`). Whatever happened in between:
        a position on a record comes back right behind all keys up to that record's, and true
        is returned just if the record is there; a position before a record comes back right
        behind the smaller keys, or at the start of its page; a position after a record comes back
        in front of larger keys only, and has passed none over if and only if the page for its key
        holds none. After a search the position that was found is what is stored. */
    method RestorePosition(tree: Tree, busy: bool) returns (same: bool)
      requires Follows(tree)
      modifies this
      ensures Positioned(tree) && Follows(tree)
      ensures same <==> old(relPos) == On && HasKey(tree.Records(), old(oldKey))
      ensures Restored(tree.rows, old(relPos), old(oldKey), Ahead(tree.rows[0], at, pos))
      ensures old(relPos) == BeforeFirstInTree ==> Ahead(tree.rows[0], at, pos) == 0
      ensures old(relPos) == AfterLastInTree ==> Ahead(tree.rows[0], at, pos) == |tree.Records()|
      ensures if !Relative(old(relPos)) then
                blockWhenStored == no && relPos == old(relPos) && oldKey == old(oldKey) &&
                  modifyClock == old(modifyClock)
              else if !busy && ClockOf(tree.clocks, old(blockWhenStored)) == old(modifyClock) then
                InPlace(tree, old(blockWhenStored)) && relPos == old(relPos) && oldKey == old(oldKey) &&
                blockWhenStored == old(blockWhenStored) && modifyClock == old(modifyClock)
              else
                Found(tree, old(relPos), old(oldKey)) && StoredNow(tree) && (same ==> oldKey == old(oldKey))
    {
      if !Relative(relPos) {
        OpenAtIndexSide(tree, relPos == BeforeFirstInTree);
        blockWhenStored := no;
        return false;
      }
      if !busy && ClockOf(tree.clocks, blockWhenStored) == modifyClock {
        Optimistic(tree);
        same := relPos == On;
      } else {
        same := Search(tree);
      }
    }

    /** The cursor is on page b where it was when its position was stored. */
    ghost predicate InPlace(tree: Tree, b: int)
      reads this, tree
    {
      Positioned(tree) && no == b &&
      var recs := tree.rows[0][at].recs;
      HasKey(recs, oldKey) && pos == if relPos == Before then -1 else if relPos == After then |recs|
        else KeyIndex(recs, oldKey)
    }

    /** The cursor is where a search for key k stops that restores a position of kind r. */
    ghost predicate Found(tree: Tree, r: RelPos, k: Key)
      reads this, tree
    {
      Positioned(tree) && OnPath(tree.rows, 0, at, k, Strict(SearchMode(r))) &&
      CursorAt(tree.rows[0][at].recs, pos, k, SearchMode(r))
    }

    /** The page is as it was, apart from new records: the cursor is where it was on the page. */
    method Optimistic(tree: Tree)
      requires Follows(tree) && Relative(relPos) && ClockOf(tree.clocks, blockWhenStored) == modifyClock
      modifies this`no, this`pos, this`at
      ensures InPlace(tree, blockWhenStored) && HasKey(tree.Records(), oldKey)
      ensures Restored(tree.rows, relPos, oldKey, Ahead(tree.rows[0], at, pos))
    {
      ghost var i := RecordPage(tree.rows[0], blockWhenStored, oldKey);
      LeafFacts(tree.pages, tree.rows, tree.root, i);
      no, at := blockWhenStored, i;
      var recs := tree.pages[no].recs;
      pos := if relPos == Before then -1 else if relPos == After then |recs| else KeyIndex(recs, oldKey);
      InPlaceRestored(tree.rows, tree.root, i, pos, relPos, oldKey);
    }

    /** The search of restore_position. What it finds is stored, with the clock of its page. */
    method Search(tree: Tree) returns (same: bool)
      requires Follows(tree) && Relative(relPos)
      modifies this
      ensures Follows(tree) && StoredNow(tree) && Found(tree, old(relPos), old(oldKey))
      ensures same <==> old(relPos) == On && HasKey(tree.Records(), old(oldKey))
      ensures same ==> relPos == On && oldKey == old(oldKey)
      ensures Restored(tree.rows, old(relPos), old(oldKey), Ahead(tree.rows[0], at, pos))
    {
      same := SearchOnly(tree);
      if same {
        KeyOnPage(tree.rows, tree.root, at, pos);
        blockWhenStored, modifyClock := no, ClockOf(tree.clocks, no);
      } else {
        StorePosition(tree);
      }
    }

    /** open_with_no_init, with the mode that the stored position asks for. */
    method SearchOnly(tree: Tree) returns (same: bool)
      requires tree.Valid() && Relative(relPos) && oldKey.At?
      modifies this`no, this`pos, this`at
      ensures Found(tree, relPos, oldKey) && (same <==> relPos == On && HasKey(tree.Records(), oldKey))
      ensures same ==> 0 <= pos < |tree.rows[0][at].recs| && tree.rows[0][at].recs[pos].key == oldKey
      ensures Restored(tree.rows, relPos, oldKey, Ahead(tree.rows[0], at, pos))
    {
      no, pos, at := tree.SearchToNthLevel(0, oldKey, SearchMode(relPos));
      FoundRestored(tree.rows, tree.root, at, pos, relPos, oldKey);
      same := relPos == On && 0 <= pos < |tree.pages[no].recs| && tree.pages[no].recs[pos].key == oldKey;
    }

    /** The records up to key k are behind the cursor, all others ahead. */
    ghost predicate Between(tree: Tree, k: Key)
      reads this, tree
    {
      Positioned(tree) && IsCut(tree.Records(), Ahead(tree.rows[0], at, pos), k, false)
    }
  }

  // ----- lemmas -----

  lemma {:induction false} RecordPage(row: Row, no: int, k: Key) returns (i: nat)
    requires HasRecord(row, no, k)
    ensures i < |row| && row[i].no == no && HasKey(row[i].recs, k)
  {
    i :| 0 <= i < |row| && row[i].no == no && HasKey(row[i].recs, k);
  }

  lemma {:induction false} PathPageIs(rows: seq<Row>, k: Key, i: nat)
    requires rows != [] && OnPath(rows, 0, i, k, false)
    ensures PathPageBelow(rows, k) <==> AllAtMost(rows[0][i].recs, k)
  {
    if PathPageBelow(rows, k) {
      var j: nat :| OnPath(rows, 0, j, k, false) && AllAtMost(rows[0][j].recs, k);
      PathUnique(rows, k, i, j);
    }
  }

  predicate OnSide(row: Row, at: nat, fromLeft: bool) {
    at < |row| && at == if fromLeft then 0 else |row| - 1
  }

  lemma {:induction false} SideTop(pages: map<int, Page>, rows: seq<Row>, root: int)
    requires Tower(rows, 0, root) && RowsShown(pages, rows, 0)
    ensures root in pages && pages[root].level == |rows| - 1 && |rows| > 0 && |rows[|rows| - 1]| == 1 &&
            rows[|rows| - 1][0].no == root
  {
    RootPage(pages, rows, 0, root, Min, false);
    TowerLevel(rows, 0, root, |rows| - 1);
  }

  lemma {:induction false} SideDown(pages: map<int, Page>, rows: seq<Row>, root: int, height: nat, at: nat,
                                    fromLeft: bool)
    requires Tower(rows, 0, root) && RowsShown(pages, rows, 0) && 0 < height < |rows| &&
             OnSide(rows[height], at, fromLeft)
    ensures rows[height][at].no in pages && pages[rows[height][at].no].recs != [] && rows[height - 1] != []
    ensures var recs, below := pages[rows[height][at].no].recs, rows[height - 1];
            recs[if fromLeft then 0 else |recs| - 1].child == below[if fromLeft then 0 else |below| - 1].no
  {
    PathPage(pages, rows, 0, root, height, at);
    TowerLevel(rows, 0, root, height);
    TowerLevel(rows, 0, root, height - 1);
    assert NodeOk(rows[height][at], false);
    SidePointer(rows[height], rows[height - 1], height - 1 > 0, at, fromLeft);
  }

  /** The first pointer of a level leads to the first page below, the last one to the last. */
  lemma {:induction false} SidePointer(row: Row, below: Row, inner: bool, at: nat, fromLeft: bool)
    requires OnSide(row, at, fromLeft) && row[at].recs != [] && below != [] && Linked(below, Flat(row), inner)
    ensures var recs := row[at].recs;
            recs[if fromLeft then 0 else |recs| - 1].child == below[if fromLeft then 0 else |below| - 1].no
  {
    var x := if fromLeft then 0 else |row[at].recs| - 1;
    FlatIndex(row, at, x);
    SideAhead(row, at, fromLeft);
    assert NodeUnder(below[Offset(row, at) + x], Flat(row), Offset(row, at) + x, inner);
  }

  lemma {:induction false} SideAhead(row: Row, at: nat, fromLeft: bool)
    requires OnSide(row, at, fromLeft)
    ensures if fromLeft then Offset(row, at) == 0 else Offset(row, at) + |row[at].recs| == |Flat(row)|
  {
    FlatAt(row, at);
    if fromLeft {
      assert row[..0] == [];
    } else {
      assert row[at + 1..] == [];
    }
  }

  lemma {:induction false} KeyOnPage(rows: seq<Row>, root: int, i: nat, x: nat)
    requires Tower(rows, 0, root) && i < |rows[0]| && x < |rows[0][i].recs|
    ensures rows[0][i].recs[x].key.At? && HasRecord(rows[0], rows[0][i].no, rows[0][i].recs[x].key)
  {
    var s := Flat(rows[0]);
    FlatIndex(rows[0], i, x);
    var y := Offset(rows[0], i) + x;
    assert y > 0 ==> Less(s[0].key, s[y].key);
    assert rows[0][i].recs[x] in rows[0][i].recs;
  }

  lemma {:induction false} StoreFacts(rows: seq<Row>, root: int, i: nat, pos: int)
    requires Tower(rows, 0, root) && OnPage(rows[0], i, pos)
    ensures var recs := rows[0][i].recs;
            if recs == [] then !Relative(RelPosOf(0, pos))
            else Stored(rows[0], i, pos, RelPosOf(|recs|, pos), recs[StoredIndex(|recs|, pos)].key, rows[0][i].no)
  {
    if rows[0][i].recs != [] {
      KeyOnPage(rows, root, i, StoredIndex(|rows[0][i].recs|, pos));
    }
  }

  function KeyIndex(recs: seq<Rec>, k: Key): (x: nat)
    requires HasKey(recs, k)
    ensures x < |recs| && recs[x].key == k
  {
    if recs[0].key == k then 0 else 1 + KeyIndex(recs[1..], k)
  }

  /** Records before and after a record of page i, over all pages. */
  lemma {:induction false} AroundRecord(rows: seq<Row>, root: int, i: nat, x: nat)
    requires Tower(rows, 0, root) && i < |rows[0]| && x < |rows[0][i].recs|
    ensures var s, k, y := Flat(rows[0]), rows[0][i].recs[x].key, Offset(rows[0], i) + x;
            y < |s| && s[y].key == k && IsCut(s, y + 1, k, false) && IsCut(s, y, k, true)
  {
    FlatIndex(rows[0], i, x);
    var s, y := Flat(rows[0]), Offset(rows[0], i) + x;
    forall z | 0 <= z < |s| ensures (z < y ==> Less(s[z].key, s[y].key)) && (z > y ==> Less(s[y].key, s[z].key)) {
    }
  }

  lemma {:induction false} InPlaceRestored(rows: seq<Row>, root: int, i: nat, pos: int, r: RelPos, k: Key)
    requires Tower(rows, 0, root) && OnPage(rows[0], i, pos) && HasKey(rows[0][i].recs, k) && Relative(r)
    requires pos == if r == Before then -1 else if r == After then |rows[0][i].recs| else KeyIndex(rows[0][i].recs, k)
    ensures Restored(rows, r, k, Ahead(rows[0], i, pos)) && HasKey(Flat(rows[0]), k)
  {
    var x := KeyIndex(rows[0][i].recs, k);
    AroundRecord(rows, root, i, x);
    FlatAt(rows[0], i);
    assert Flat(rows[0])[Offset(rows[0], i) + x] in Flat(rows[0]);
    if r == Before {
      assert StartsPageOf(rows[0], k, Offset(rows[0], i));
    }
    if r == After {
      RecordOnPath(rows, root, i, x);
      PathPageIs(rows, k, i);
      EndOfPage(rows[0], i, Offset(rows[0], i) + x, k);
      assert EndsOn(rows[0], i, k, Ahead(rows[0], i, pos));
    }
  }

  /** Of the records up to the end of page i, only those of the page can be above a key on it. */
  lemma {:induction false} EndOfPage(row: Row, i: nat, y: nat, k: Key)
    requires i < |row| && Offset(row, i) <= y < |Flat(row)| && IsCut(Flat(row), y + 1, k, false)
    ensures NoneSkipped(Flat(row), k, Offset(row, i) + |row[i].recs|) <==> AllAtMost(row[i].recs, k)
  {
    FlatAt(row, i);
    var s, n := Flat(row), Offset(row, i) + |row[i].recs|;
    if AllAtMost(row[i].recs, k) {
      forall z | 0 <= z < |s| && z < n ensures AtMost(s[z].key, k) {
        if z >= Offset(row, i) {
          assert s[z] == row[i].recs[z - Offset(row, i)];
        } else {
          assert Below(s[z].key, k, false);
        }
      }
    }
    forall z | 0 <= z < |row[i].recs| ensures s[Offset(row, i) + z] == row[i].recs[z] {
    }
  }

  /** The mode of the search that restores a position. */
  function SearchMode(r: RelPos): Mode {
    match r
    case On => LE
    case After => G
    case _ => L
  }

  lemma {:induction false} FoundRestored(rows: seq<Row>, root: int, i: nat, pos: int, r: RelPos, k: Key)
    requires Tower(rows, 0, root) && i < |rows[0]| && Relative(r) && k.At? &&
             OnPath(rows, 0, i, k, Strict(SearchMode(r)))
    requires CursorAt(rows[0][i].recs, pos, k, SearchMode(r))
    requires CursorAt(Flat(rows[0]), Offset(rows[0], i) + pos, k, SearchMode(r))
    ensures OnPage(rows[0], i, pos) && Restored(rows, r, k, Ahead(rows[0], i, pos))
    ensures r == On ==>
              (HasKey(Flat(rows[0]), k) <==> 0 <= pos < |rows[0][i].recs| && rows[0][i].recs[pos].key == k)
  {
    if r == On {
      KeyAtCursor(rows, root, i, pos, k);
      if 0 <= pos {
        assert Flat(rows[0])[Offset(rows[0], i) + pos] in Flat(rows[0]);
      }
    } else if r == After {
      FoundAfter(rows, i, pos, k);
    }
  }

  /** The cursor of a search in mode G is on the first larger record of the page for the key, if
      there is one; a step from there would pass that record over. */
  lemma {:induction false} FoundAfter(rows: seq<Row>, i: nat, pos: int, k: Key)
    requires rows != [] && OnPath(rows, 0, i, k, false) && k.At?
    requires CursorAt(rows[0][i].recs, pos, k, G) && CursorAt(Flat(rows[0]), Offset(rows[0], i) + pos, k, G)
    ensures OnPage(rows[0], i, pos) && Restored(rows, After, k, Ahead(rows[0], i, pos))
    ensures !PathPageBelow(rows, k) ==> Ahead(rows[0], i, pos) == Offset(rows[0], i) + pos + 1
  {
    var s, y := Flat(rows[0]), Offset(rows[0], i) + pos;
    FlatAt(rows[0], i);
    PathPageIs(rows, k, i);
    if pos < |rows[0][i].recs| {
      FlatIndex(rows[0], i, pos);
      assert !AtMost(s[y].key, k);
    }
    assert EndsOn(rows[0], i, k, Ahead(rows[0], i, pos));
  }

  /** The tree with keys 1 and 2 on two leaf pages, and the same after key 1 was deleted and its
      page discarded. */
  function TwoLeaves(): seq<Row> {
    [[Node(4, [Rec(At(1), 0, 10, 10)]), Node(5, [Rec(At(2), 0, 10, 10)])],
     [Node(3, [Rec(Min, 4, 10, 10), Rec(At(2), 5, 10, 10)])]]
  }

  function OneLeaf(): seq<Row> {
    [[Node(5, [Rec(At(2), 0, 10, 10)])], [Node(3, [Rec(Min, 5, 10, 10)])]]
  }

  lemma {:induction false} TwoLeavesTower()
    ensures Tower(TwoLeaves(), 0, 3) && Flat(TwoLeaves()[0]) == [Rec(At(1), 0, 10, 10), Rec(At(2), 0, 10, 10)]
  {
    var rows := TwoLeaves();
    FlatConcat([rows[0][0]], [rows[0][1]]);
    FlatOne(rows[0][0]);
    FlatOne(rows[0][1]);
    FlatOne(rows[1][0]);
    assert rows[0] == [rows[0][0]] + [rows[0][1]] && rows[1] == [rows[1][0]];
    OneFits(rows[0][0].recs[0]);
    OneFits(rows[0][1].recs[0]);
    TwoRecordsFit([rows[1][0].recs[0]], 1, rows[1][0].recs[1]);
    assert Insert([rows[1][0].recs[0]], 1, rows[1][0].recs[1]) == rows[1][0].recs;
    assert Tower(rows, 1, 3);
    assert Linked(rows[0], Flat(rows[1]), false);
  }

  lemma {:induction false} OneLeafTower()
    ensures Tower(OneLeaf(), 0, 3) && Flat(OneLeaf()[0]) == [Rec(At(2), 0, 10, 10)] &&
            OnPath(OneLeaf(), 0, 0, At(1), false)
  {
    var rows := OneLeaf();
    FlatOne(rows[0][0]);
    FlatOne(rows[1][0]);
    assert rows[0] == [rows[0][0]] && rows[1] == [rows[1][0]];
    OneFits(rows[0][0].recs[0]);
    OneFits(rows[1][0].recs[0]);
    assert Tower(rows, 1, 3);
    assert Linked(rows[0], Flat(rows[1]), false);
  }

  lemma {:induction false} OneFits(r: Rec)
    requires Small(r)
    ensures Fits([r]) && AllSmall([r])
  {
    TwoRecordsFit([], 0, r);
    assert Insert([], 0, r) == [r];
  }

  /** A position after the last record of a page, restored by a search, can pass over a record
      that was there all along: the cursor is stored behind key 1 at the end of page 4; key 1 is
      deleted and its page discarded. Wherever the search for keys above 1 ends, no record is
      left ahead, although key 2 is in both trees. */
  lemma {:induction false} AfterMaySkip(i: nat, pos: int)
    requires OnPath(OneLeaf(), 0, i, At(1), false) && CursorAt(OneLeaf()[0][i].recs, pos, At(1), SearchMode(After))
    ensures Tower(TwoLeaves(), 0, 3) && Stored(TwoLeaves()[0], 0, 1, After, At(1), 4)
    ensures Tower(OneLeaf(), 0, 3) && Flat(OneLeaf()[0]) == Without(Flat(TwoLeaves()[0]), 0, false)
    ensures HasKey(Flat(TwoLeaves()[0]), At(2)) && HasKey(Flat(OneLeaf()[0]), At(2))
    ensures OnPage(OneLeaf()[0], i, pos) && Ahead(OneLeaf()[0], i, pos) == |Flat(OneLeaf()[0])|
    ensures !PathPageBelow(OneLeaf(), At(1))
  {
    TwoLeavesTower();
    OneLeafTower();
    PathUnique(OneLeaf(), At(1), i, 0);
    StoredBehindOne();
    KeyTwo();
    assert OneLeaf()[0][..0] == [];
  }

  lemma {:induction false} StoredBehindOne()
    ensures Stored(TwoLeaves()[0], 0, 1, After, At(1), 4)
  {
    TwoLeavesTower();
    KeyOnPage(TwoLeaves(), 3, 0, 0);
  }

  lemma {:induction false} KeyTwo()
    ensures HasKey(Flat(TwoLeaves()[0]), At(2)) && HasKey(Flat(OneLeaf()[0]), At(2))
    ensures Flat(OneLeaf()[0]) == Without(Flat(TwoLeaves()[0]), 0, false) && !PathPageBelow(OneLeaf(), At(1))
  {
    TwoLeavesTower();
    OneLeafTower();
    assert Flat(TwoLeaves()[0])[1] in Flat(TwoLeaves()[0]) && Flat(OneLeaf()[0])[0] in Flat(OneLeaf()[0]);
    PathPageIs(OneLeaf(), At(1), 0);
    assert OneLeaf()[0][0].recs[0].key == At(2);
  }

  /** One step forward from a position on leaf page i. */
  lemma {:induction false} NextFacts(pages: map<int, Page>, rows: seq<Row>, root: int, i: nat, pos: int)
    requires Tower(rows, 0, root) && RowsShown(pages, rows, 0) && OnPage(rows[0], i, pos)
    ensures var no, n := rows[0][i].no, |rows[0][i].recs|;
            no in pages && pages[no].recs == rows[0][i].recs && (pages[no].next == FIL_NULL <==> i + 1 == |rows[0]|) &&
            (i + 1 < |rows[0]| ==>
             pages[no].next == rows[0][i + 1].no && Offset(rows[0], i + 1) == Offset(rows[0], i) + n) &&
            Ahead(rows[0], i, pos) <= |Flat(rows[0])| &&
              (i + 1 == |rows[0]| && pos == n ==> Ahead(rows[0], i, pos) == |Flat(rows[0])|) &&
            (pos + 1 < n ==>
             Ahead(rows[0], i, pos) < |Flat(rows[0])| &&
               Flat(rows[0])[Ahead(rows[0], i, pos)] == rows[0][i].recs[pos + 1])
  {
    LeafFacts(pages, rows, root, i);
    var row := rows[0];
    FlatAt(row, i);
    if pos + 1 < |row[i].recs| {
      FlatIndex(row, i, pos + 1);
    }
    if i + 1 < |row| {
      assert row[..i + 1] == row[..i] + [row[i]];
      FlatConcat(row[..i], [row[i]]);
      FlatOne(row[i]);
    } else {
      assert row[i + 1..] == [];
    }
  }

  /** What the pages say about leaf page i. */
  lemma {:induction false} LeafFacts(pages: map<int, Page>, rows: seq<Row>, root: int, i: nat)
    requires Tower(rows, 0, root) && RowsShown(pages, rows, 0) && i < |rows[0]|
    ensures var no := rows[0][i].no;
            no in pages && pages[no].level == 0 && pages[no].recs == rows[0][i].recs &&
            pages[no].next == NextPageOf(rows[0], i) && (pages[no].next == FIL_NULL <==> i + 1 == |rows[0]|)
    ensures rows[0][i].recs == [] ==> |rows[0]| == 1
    ensures Sorted(Flat(rows[0]))
    ensures forall x :: 0 <= x < |Flat(rows[0])| ==> Flat(rows[0])[x].key.At?
  {
    LevelShown(pages, rows, 0, 0);
    NeighboursStored(pages, rows[0], 0, i);
    assert PageShown(pages, rows[0], 0, i);
    assert NodeOk(rows[0][i], |rows| == 1);
    var s := Flat(rows[0]);
    forall x | 0 <= x < |s| ensures s[x].key.At? {
      assert x > 0 ==> Less(s[0].key, s[x].key);
    }
  }
}
