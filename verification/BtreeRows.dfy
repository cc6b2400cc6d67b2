/**
 The shape of a whole B-tree as rows of nodes: row 0 holds the leaf pages from left to right,
 the last row holds the root alone. This is the tree invariant that the comment at the top of
 btr/btr0btr.cc states in prose, and what each structural change does to it.
 */
module BtreeRows {
  import opened BtreePage

  datatype Node = Node(no: int, recs: seq<Rec>)

  type Row = seq<Node>

  /** The records of a level in order, over all its pages. */
  function Flat(row: Row): seq<Rec> {
    if row == [] then [] else row[0].recs + Flat(row[1..])
  }

  /** Number of records on the pages before page i. */
  function Offset(row: Row, i: nat): nat
    requires i <= |row|
  {
    |Flat(row[..i])|
  }

  lemma {:induction false} FlatConcat(a: Row, b: Row)
    ensures Flat(a + b) == Flat(a) + Flat(b)
  {
    if a == [] {
      assert a + b == b;
    } else {
      assert (a + b)[1..] == a[1..] + b;
      FlatConcat(a[1..], b);
    }
  }

  lemma {:induction false} FlatOne(n: Node)
    ensures Flat([n]) == n.recs
  {
    assert [n][1..] == [];
  }

  /** A level around its page i. */
  lemma {:induction false} FlatAt(row: Row, i: nat)
    requires i < |row|
    ensures Flat(row) == Flat(row[..i]) + row[i].recs + Flat(row[i + 1..])
  {
    FlatConcat(row[..i] + [row[i]], row[i + 1..]);
    FlatConcat(row[..i], [row[i]]);
    FlatOne(row[i]);
    assert row == row[..i] + [row[i]] + row[i + 1..];
  }

  /** A level whose page i was replaced by the pages `mid`. */
  lemma {:induction false} FlatReplace(row: Row, i: nat, mid: Row)
    requires i < |row|
    ensures Flat(row[..i] + mid + row[i + 1..]) == Flat(row[..i]) + Flat(mid) + Flat(row[i + 1..])
  {
    FlatConcat(row[..i] + mid, row[i + 1..]);
    FlatConcat(row[..i], mid);
  }

  /** Every record of a level is on one of its pages. */
  lemma {:induction false} FlatMember(row: Row, x: nat) returns (i: nat, j: nat)
    requires x < |Flat(row)|
    ensures i < |row| && j < |row[i].recs| && Flat(row)[x] == row[i].recs[j] && x == Offset(row, i) + j
  {
    if x < |row[0].recs| {
      i, j := 0, x;
      assert row[..0] == [];
    } else {
      i, j := FlatMember(row[1..], x - |row[0].recs|);
      assert row[..i + 1][1..] == row[1..][..i];
      i := i + 1;
    }
  }

  lemma {:induction false} NodesBelowRecords(row: Row)
    requires forall i :: 0 <= i < |row| ==> row[i].recs != []
    ensures |row| <= |Flat(row)|
    ensures (exists i :: 0 <= i < |row| && |row[i].recs| > 1) ==> |row| < |Flat(row)|
  {
    if row != [] {
      assert forall i :: 0 <= i < |row[1..]| ==> row[1..][i] == row[i + 1];
      if i :| 0 <= i < |row| && |row[i].recs| > 1 {
        assert i > 0 ==> row[i] == row[1..][i - 1];
      }
      NodesBelowRecords(row[1..]);
    }
  }

  // ----- searching -----

  /** Whether a search that looks for k with mode L or GE (strict) or LE or G passes a key. */
  predicate Below(a: Key, k: Key, strict: bool) {
    if strict then Less(a, k) else AtMost(a, k)
  }

  /** A search for k cuts s after its first c records. */
  predicate IsCut(s: seq<Rec>, c: nat, k: Key, strict: bool) {
    c <= |s| &&
    (forall i :: 0 <= i < c ==> Below(s[i].key, k, strict)) &&
    (forall i :: c <= i < |s| ==> !Below(s[i].key, k, strict))
  }

  /** Key k belongs under node pointer i: at least its prefix and below the next one's. */
  predicate InRange(k: Key, ptrs: seq<Rec>, i: nat)
    requires i < |ptrs|
  {
    AtMost(ptrs[i].key, k) && (i + 1 < |ptrs| ==> Less(k, ptrs[i + 1].key))
  }

  /** Node pointer i points to the node, whose records are in the pointer's range; the
      leftmost record of a non-leaf child has the same prefix as the pointer. */
  predicate NodeUnder(n: Node, ptrs: seq<Rec>, i: nat, inner: bool)
    requires i < |ptrs|
  {
    n.no == ptrs[i].child &&
    (forall j :: 0 <= j < |n.recs| ==> InRange(n.recs[j].key, ptrs, i)) &&
    (inner ==> n.recs != [] && n.recs[0].key == ptrs[i].key)
  }

  /** The node pointers of one level against the pages of the level below: exactly one
      pointer for each page, in order. `inner` says that the lower level is not the leaf level. */
  predicate Linked(row: Row, ptrs: seq<Rec>, inner: bool) {
    |row| == |ptrs| && forall i :: 0 <= i < |row| ==> NodeUnder(row[i], ptrs, i, inner)
  }

  predicate AllBelow(s: seq<Rec>, k: Key, strict: bool) {
    forall x :: 0 <= x < |s| ==> Below(s[x].key, k, strict)
  }

  predicate NoneBelow(s: seq<Rec>, k: Key, strict: bool) {
    forall x :: 0 <= x < |s| ==> !Below(s[x].key, k, strict)
  }

  lemma {:induction false} PassedPages(row: Row, ptrs: seq<Rec>, inner: bool, i: nat, k: Key, strict: bool)
    requires Sorted(ptrs) && Linked(row, ptrs, inner) && i < |row| && Below(ptrs[i].key, k, strict)
    ensures AllBelow(Flat(row[..i]), k, strict)
  {
    forall x | 0 <= x < |Flat(row[..i])| ensures Below(Flat(row[..i])[x].key, k, strict) {
      var a, b := FlatMember(row[..i], x);
      assert NodeUnder(row[a], ptrs, a, inner) && InRange(row[a].recs[b].key, ptrs, a);
      assert AtMost(ptrs[a + 1].key, ptrs[i].key);
    }
  }

  lemma {:induction false} LaterPages(row: Row, ptrs: seq<Rec>, inner: bool, i: nat, k: Key, strict: bool)
    requires Linked(row, ptrs, inner) && i <= |row| && NoneBelow(ptrs[i..], k, strict)
    ensures NoneBelow(Flat(row[i..]), k, strict)
  {
    forall x | 0 <= x < |Flat(row[i..])| ensures !Below(Flat(row[i..])[x].key, k, strict) {
      var a, b := FlatMember(row[i..], x);
      assert NodeUnder(row[i + a], ptrs, i + a, inner) && InRange(row[i + a].recs[b].key, ptrs, i + a);
      assert !Below(ptrs[i..][a].key, k, strict);
    }
  }

  /** The step of a descent: pointer i is the last one that the search passes, so the flat cut
      of the level below lies on page i, at the place where a search of that page alone ends. */
  lemma {:induction false} CutDescends(row: Row, ptrs: seq<Rec>, inner: bool, i: nat, c: nat, k: Key, strict: bool)
    requires Sorted(ptrs) && Linked(row, ptrs, inner) && i < |row|
    requires IsCut(ptrs, i + 1, k, strict) && IsCut(row[i].recs, c, k, strict)
    ensures IsCut(Flat(row), Offset(row, i) + c, k, strict)
  {
    PassedPages(row, ptrs, inner, i, k, strict);
    LaterPages(row, ptrs, inner, i + 1, k, strict);
    FlatAt(row, i);
    CutOfParts(Flat(row[..i]), row[i].recs, Flat(row[i + 1..]), c, k, strict);
  }

  lemma {:induction false} CutOfParts(pre: seq<Rec>, mid: seq<Rec>, post: seq<Rec>, c: nat, k: Key, strict: bool)
    requires AllBelow(pre, k, strict) && IsCut(mid, c, k, strict) && NoneBelow(post, k, strict)
    ensures IsCut(pre + mid + post, |pre| + c, k, strict)
  {
  }

  /** In a sorted level there is one cut only. */
  lemma {:induction false} CutUnique(s: seq<Rec>, c: nat, d: nat, k: Key, strict: bool)
    requires IsCut(s, c, k, strict) && IsCut(s, d, k, strict)
    ensures c == d
  {
    assert c < |s| ==> (c < d <==> Below(s[c].key, k, strict));
    assert d < |s| ==> (d < c <==> Below(s[d].key, k, strict));
  }

  /** A key in the range of pointer i is found through pointer i (mode LE). */
  lemma {:induction false} RangeIsCut(ptrs: seq<Rec>, i: nat, k: Key)
    requires Sorted(ptrs) && i < |ptrs| && InRange(k, ptrs, i)
    ensures IsCut(ptrs, i + 1, k, false)
  {
    forall x | 0 <= x < |ptrs| ensures x <= i <==> AtMost(ptrs[x].key, k) {
      if x < i {
        assert Less(ptrs[x].key, ptrs[i].key);
      } else if x > i + 1 {
        assert Less(ptrs[i + 1].key, ptrs[x].key);
      }
    }
  }

  // ----- the invariant -----

  predicate NodeOk(n: Node, mayBeEmpty: bool) {
    Fits(n.recs) && AllSmall(n.recs) && (mayBeEmpty || n.recs != [])
  }

  /** The records of a level strictly ascend over all its pages; on a non-leaf level the first
      one is marked as the minimum record and no other one is. */
  predicate Ordered(s: seq<Rec>, inner: bool) {
    Sorted(s) && (s != [] ==> (s[0].key.Min? <==> inner))
  }

  predicate NodesOk(row: Row, mayBeEmpty: bool) {
    forall i :: 0 <= i < |row| ==> NodeOk(row[i], mayBeEmpty)
  }

  /** A level by itself. Only a root that is a leaf may be empty. */
  predicate RowOk(row: Row, level: nat, top: bool) {
    |row| > 0 && Ordered(Flat(row), level > 0) && NodesOk(row, top && level == 0)
  }

  /** The levels from `low` up to the root form a search tree whose lowest level is `low`. */
  predicate Tower(rows: seq<Row>, low: nat, root: int)
    decreases |rows| - low
  {
    low < |rows| && RowOk(rows[low], low, low + 1 == |rows|) &&
    if low + 1 == |rows| then
      |rows[low]| == 1 && rows[low][0].no == root
    else
      Linked(rows[low], Flat(rows[low + 1]), low > 0) && Tower(rows, low + 1, root)
  }

  /** What a tower says about one of its levels. */
  lemma {:induction false} TowerLevel(rows: seq<Row>, low: nat, root: int, m: nat)
    requires Tower(rows, low, root) && low <= m < |rows|
    ensures Tower(rows, m, root) && RowOk(rows[m], m, m + 1 == |rows|)
    ensures m + 1 == |rows| ==> |rows[m]| == 1 && rows[m][0].no == root
    ensures m + 1 < |rows| ==> Linked(rows[m], Flat(rows[m + 1]), m > 0) && RowOk(rows[m + 1], m + 1, m + 2 == |rows|)
    decreases |rows| - low
  {
    if low < m {
      TowerLevel(rows, low + 1, root, m);
    }
  }

  /** A tower depends on its own levels only. */
  lemma {:induction false} TowerFrame(rows: seq<Row>, rows': seq<Row>, low: nat, root: int)
    requires Tower(rows, low, root) && |rows'| == |rows| && rows'[low..] == rows[low..]
    ensures Tower(rows', low, root)
    decreases |rows| - low
  {
    assert rows'[low] == rows[low..][0] == rows[low];
    if low + 1 < |rows| {
      assert rows'[low + 1..] == rows'[low..][1..] && rows[low + 1..] == rows[low..][1..];
      assert rows'[low + 1] == rows'[low..][1];
      TowerFrame(rows, rows', low + 1, root);
    }
  }

  /** The record on page i at index j is the record number Offset + j of the level. */
  lemma {:induction false} FlatIndex(row: Row, i: nat, j: nat)
    requires i < |row| && j < |row[i].recs|
    ensures Offset(row, i) + j < |Flat(row)| && Flat(row)[Offset(row, i) + j] == row[i].recs[j]
  {
    FlatAt(row, i);
  }

  /** The records of one page are sorted, and lie between those of its neighbours. */
  lemma {:induction false} PageSorted(row: Row, i: nat)
    requires i < |row| && Sorted(Flat(row))
    ensures Sorted(row[i].recs)
  {
    FlatAt(row, i);
    var o := Offset(row, i);
    forall a, b | 0 <= a < b < |row[i].recs| ensures Less(row[i].recs[a].key, row[i].recs[b].key) {
      assert Flat(row)[o + a] == row[i].recs[a] && Flat(row)[o + b] == row[i].recs[b];
    }
  }

  /** A tower keeps its upper part when its lowest row is replaced. */
  lemma {:induction false} ReplaceLowest(rows: seq<Row>, low: nat, root: int, row: Row)
    requires low < |rows| && (low + 1 < |rows| ==> Tower(rows, low + 1, root))
    requires RowOk(row, low, low + 1 == |rows|)
    requires low + 1 < |rows| ==> Linked(row, Flat(rows[low + 1]), low > 0)
    requires low + 1 == |rows| ==> |row| == 1 && row[0].no == root
    ensures Tower(rows[low := row], low, root)
  {
    if low + 1 < |rows| {
      TowerFrame(rows, rows[low := row], low + 1, root);
    }
  }

  // ----- inserting -----

  /** t is s with r put in its place. */
  ghost predicate Inserted(s: seq<Rec>, t: seq<Rec>, r: Rec) {
    exists c :: IsPlace(s, c, r.key) && t == Insert(s, c, r)
  }

  lemma {:induction false} InsertOrdered(s: seq<Rec>, c: nat, r: Rec, inner: bool)
    requires Ordered(s, inner) && IsPlace(s, c, r.key) && r.key.At? && (inner ==> c > 0)
    ensures Ordered(Insert(s, c, r), inner)
  {
    var t := Insert(s, c, r);
    forall a, b | 0 <= a < b < |t| ensures Less(t[a].key, t[b].key) {
      assert t[a] == if a < c then s[a] else if a == c then r else s[a - 1];
      assert t[b] == if b < c then s[b] else if b == c then r else s[b - 1];
    }
  }

  lemma {:induction false} PlaceUnique(s: seq<Rec>, c: nat, d: nat, k: Key)
    requires IsPlace(s, c, k) && IsPlace(s, d, k)
    ensures c == d
  {
    assert c < |s| ==> (c < d <==> Less(s[c].key, k));
    assert d < |s| ==> (d < c <==> Less(s[d].key, k));
  }

  /** A new key that a search cuts at c has its place there. */
  lemma {:induction false} CutIsPlace(s: seq<Rec>, c: nat, k: Key)
    requires IsCut(s, c, k, false) && forall i :: 0 <= i < |s| ==> s[i].key != k
    requires k.At?
    ensures IsPlace(s, c, k)
  {
  }

  /** A level after its page i got the records x. */
  lemma {:induction false} FlatUpdate(row: Row, i: nat, x: seq<Rec>)
    requires i < |row|
    ensures Flat(row[i := row[i].(recs := x)]) == Flat(row[..i]) + x + Flat(row[i + 1..])
  {
    FlatOne(row[i].(recs := x));
    FlatReplace(row, i, [row[i].(recs := x)]);
    assert row[i := row[i].(recs := x)] == row[..i] + [row[i].(recs := x)] + row[i + 1..];
  }

  /** Inserting on page i inserts into the level at the page's offset. */
  lemma {:induction false} FlatInsert(row: Row, i: nat, c: nat, r: Rec)
    requires i < |row| && c <= |row[i].recs|
    ensures Offset(row, i) + c <= |Flat(row)|
    ensures Flat(row[..i]) + Insert(row[i].recs, c, r) + Flat(row[i + 1..])
         == Insert(Flat(row), Offset(row, i) + c, r)
  {
    FlatAt(row, i);
    InsertInMiddle(Flat(row[..i]), row[i].recs, Flat(row[i + 1..]), c, r);
  }

  lemma {:induction false} InsertInMiddle(pre: seq<Rec>, mid: seq<Rec>, post: seq<Rec>, c: nat, r: Rec)
    requires c <= |mid|
    ensures pre + Insert(mid, c, r) + post == Insert(pre + mid + post, |pre| + c, r)
  {
  }

  /** The new key is in the range of page i, so its place on the level is on page i. */
  lemma {:induction false} InsertUnder(row: Row, ptrs: seq<Rec>, inner: bool, i: nat, c: nat, r: Rec)
    requires Linked(row, ptrs, inner) && i < |row| && c <= |row[i].recs|
    requires InRange(r.key, ptrs, i) && (inner ==> c > 0)
    ensures Linked(row[i := row[i].(recs := Insert(row[i].recs, c, r))], ptrs, inner)
  {
    assert NodeUnder(row[i], ptrs, i, inner);
  }

  lemma {:induction false} InsertKeepsRow(row: Row, level: nat, top: bool, i: nat, c: nat, r: Rec)
    requires RowOk(row, level, top) && i < |row| && c <= |row[i].recs|
    requires IsPlace(Flat(row), Offset(row, i) + c, r.key) && r.key.At? && Small(r) && (level > 0 ==> c > 0)
    requires Fits(Insert(row[i].recs, c, r))
    ensures var row' := row[i := row[i].(recs := Insert(row[i].recs, c, r))];
            RowOk(row', level, top) && Flat(row') == Insert(Flat(row), Offset(row, i) + c, r)
  {
    InsertFlat(row, i, c, r);
    InsertOrdered(Flat(row), Offset(row, i) + c, r, level > 0);
    assert NodeOk(row[i], top && level == 0);
    InsertNodeOk(row[i], c, r);
    UpdateNodesOk(row, i, row[i].(recs := Insert(row[i].recs, c, r)), top && level == 0);
  }

  lemma {:induction false} InsertFlat(row: Row, i: nat, c: nat, r: Rec)
    requires i < |row| && c <= |row[i].recs|
    ensures Offset(row, i) + c <= |Flat(row)|
    ensures Flat(row[i := row[i].(recs := Insert(row[i].recs, c, r))]) == Insert(Flat(row), Offset(row, i) + c, r)
  {
    FlatUpdate(row, i, Insert(row[i].recs, c, r));
    FlatInsert(row, i, c, r);
  }

  lemma {:induction false} UpdateNodesOk(row: Row, i: nat, n: Node, mayBeEmpty: bool)
    requires NodesOk(row, mayBeEmpty) && i < |row| && NodeOk(n, mayBeEmpty)
    ensures NodesOk(row[i := n], mayBeEmpty)
  {
  }

  lemma {:induction false} InsertNodeOk(n: Node, c: nat, r: Rec)
    requires c <= |n.recs| && AllSmall(n.recs) && Small(r) && Fits(Insert(n.recs, c, r))
    ensures NodeOk(n.(recs := Insert(n.recs, c, r)), false)
  {
  }

  // ----- splitting -----

  /** Page i is replaced by a lower and an upper half page. */
  function SplitRow(row: Row, i: nat, lo: Node, up: Node): Row
    requires i < |row|
  {
    row[..i] + [lo, up] + row[i + 1..]
  }

  /** The node pointers after the split: the old pointer leads to the lower half, the new one
      comes right after it. */
  function SplitPtrs(ptrs: seq<Rec>, i: nat, lo: int, p: Rec): seq<Rec>
    requires i < |ptrs|
  {
    ptrs[..i] + [ptrs[i].(child := lo), p] + ptrs[i + 1..]
  }

  lemma {:induction false} SplitFlat(row: Row, i: nat, lo: Node, up: Node)
    requires i < |row|
    ensures Flat(SplitRow(row, i, lo, up)) == Flat(row[..i]) + (lo.recs + up.recs) + Flat(row[i + 1..])
  {
    FlatOne(lo);
    FlatOne(up);
    FlatConcat([lo], [up]);
    assert [lo, up] == [lo] + [up];
    FlatReplace(row, i, [lo, up]);
  }

  /** The halves of page i, cut at key p.key, hang under the two pointers. */
  lemma {:induction false} SplitLinked(row: Row, ptrs: seq<Rec>, inner: bool, i: nat, lo: Node, up: Node, p: Rec)
    requires Linked(row, ptrs, inner) && i < |row| && p.child == up.no
    requires lo.recs != [] && up.recs != [] && InRange(p.key, ptrs, i)
    requires forall j :: 0 <= j < |lo.recs| ==> AtMost(ptrs[i].key, lo.recs[j].key) && Less(lo.recs[j].key, p.key)
    requires forall j :: 0 <= j < |up.recs| ==> AtMost(p.key, up.recs[j].key) && InRange(up.recs[j].key, ptrs, i)
    requires inner ==> lo.recs[0].key == ptrs[i].key && up.recs[0].key == p.key
    ensures Linked(SplitRow(row, i, lo, up), SplitPtrs(ptrs, i, lo.no, p), inner)
  {
    var row', ptrs' := SplitRow(row, i, lo, up), SplitPtrs(ptrs, i, lo.no, p);
    forall x | 0 <= x < |row'| ensures NodeUnder(row'[x], ptrs', x, inner) {
      if x < i {
        assert row'[x] == row[x] && ptrs'[x] == ptrs[x] && NodeUnder(row[x], ptrs, x, inner);
        assert ptrs'[x + 1].key == ptrs[x + 1].key;
      } else if x > i + 1 {
        assert row'[x] == row[x - 1] && ptrs'[x] == ptrs[x - 1] && NodeUnder(row[x - 1], ptrs, x - 1, inner);
        assert x < |ptrs| ==> ptrs'[x + 1] == ptrs[x];
      } else {
        assert ptrs'[i + 1] == p && (i + 1 < |ptrs| ==> ptrs'[i + 2] == ptrs[i + 1]);
        assert row'[x] == if x == i then lo else up;
      }
    }
  }

  /** The new pointer is inserted right after the one that leads to the lower half. */
  lemma {:induction false} SplitPtrsInsert(ptrs: seq<Rec>, i: nat, lo: int, p: Rec, after: seq<Rec>)
    requires Sorted(ptrs) && i < |ptrs| && Less(ptrs[i].key, p.key) && InRange(p.key, ptrs, i)
    requires Inserted(ptrs[i := ptrs[i].(child := lo)], after, p)
    ensures after == SplitPtrs(ptrs, i, lo, p)
  {
    var base := ptrs[i := ptrs[i].(child := lo)];
    var c :| IsPlace(base, c, p.key) && after == Insert(base, c, p);
    PlaceUnique(base, c, i + 1, p.key);
  }

  // ----- deleting -----

  /** A level without its record c; the new first record of a non-leaf level gets the
      min-rec mark. */
  function Without(s: seq<Rec>, c: nat, inner: bool): (t: seq<Rec>)
    requires c < |s|
    ensures |t| == |s| - 1
  {
    if c > 0 then [s[0]] + Without(s[1..], c - 1, false)
    else if inner && |s| > 1 then s[1..][0 := s[1].(key := Min)]
    else s[1..]
  }

  /** Without, by slices. */
  lemma {:induction false} WithoutIs(s: seq<Rec>, c: nat, inner: bool)
    requires c < |s|
    ensures var t := s[..c] + s[c + 1..];
            Without(s, c, inner) == if inner && c == 0 && t != [] then t[0 := t[0].(key := Min)] else t
  {
    if c > 0 {
      WithoutIs(s[1..], c - 1, false);
      assert s[1..][c..] == s[c + 1..];
      assert [s[0]] + s[1..][..c - 1] == s[..c];
    }
  }

  /** Its elements. */
  lemma {:induction false} WithoutAt(s: seq<Rec>, c: nat, inner: bool, t: seq<Rec>)
    requires c < |s| && t == Without(s, c, inner)
    ensures forall x {:trigger t[x]} :: 0 <= x < |t| ==>
                          t[x] == if x < c then s[x]
                                  else if inner && c == 0 && x == 0 then s[1].(key := Min)
                                  else s[x + 1]
  {
    WithoutIs(s, c, inner);
  }

  lemma {:induction false} WithoutOrdered(s: seq<Rec>, c: nat, inner: bool)
    requires Ordered(s, inner) && c < |s|
    ensures Ordered(Without(s, c, inner), inner)
  {
    WithoutAt(s, c, inner, Without(s, c, inner));
    var t := Without(s, c, inner);
    forall a, b | 0 <= a < b < |t| ensures Less(t[a].key, t[b].key) {
      assert t[b] == if b < c then s[b] else s[b + 1];
      assert t[a].key.Min? || t[a] == if a < c then s[a] else s[a + 1];
    }
  }

  // ----- changing a node pointer's page number -----

  lemma {:induction false} ChildKeepsRow(row: Row, level: nat, top: bool, i: nat, j: nat, child: int)
    requires RowOk(row, level, top) && i < |row| && j < |row[i].recs|
    ensures var row' := row[i := row[i].(recs := row[i].recs[j := row[i].recs[j].(child := child)])];
            var x := Offset(row, i) + j;
            RowOk(row', level, top) && x < |Flat(row)| && Flat(row') == Flat(row)[x := Flat(row)[x].(child := child)]
  {
    var recs := row[i].recs;
    var recs' := recs[j := recs[j].(child := child)];
    FlatUpdate(row, i, recs');
    FlatAt(row, i);
    FlatIndex(row, i, j);
    var x := Offset(row, i) + j;
    UpdateInMiddle(Flat(row[..i]), recs, Flat(row[i + 1..]), j, recs[j].(child := child));
    assert NodeOk(row[i], top && level == 0);
    SizeOfPart(recs, 0, recs', |recs|);
    assert NodeOk(row[i].(recs := recs'), top && level == 0);
    ChildKeepsOrder(Flat(row), x, child, level > 0);
  }

  lemma {:induction false} UpdateInMiddle(pre: seq<Rec>, mid: seq<Rec>, post: seq<Rec>, j: nat, r: Rec)
    requires j < |mid|
    ensures pre + mid[j := r] + post == (pre + mid + post)[|pre| + j := r]
  {
  }

  lemma {:induction false} ChildKeepsOrder(s: seq<Rec>, x: nat, child: int, inner: bool)
    requires Ordered(s, inner) && x < |s|
    ensures Ordered(s[x := s[x].(child := child)], inner)
  {
  }

  lemma {:induction false} ChildKeepsLink(row: Row, ptrs: seq<Rec>, inner: bool, i: nat, j: nat, child: int)
    requires Linked(row, ptrs, inner) && i < |row| && j < |row[i].recs|
    ensures Linked(row[i := row[i].(recs := row[i].recs[j := row[i].recs[j].(child := child)])], ptrs, inner)
  {
    assert NodeUnder(row[i], ptrs, i, inner);
  }

  // ----- the split as a whole -----

  /** The items of a page cut at index m: the halves lie under the old and the new pointer. */
  lemma {:induction false} SplitKeepsTower(rows: seq<Row>, after: seq<Row>, level: nat, root: int, i: nat,
                                           lo: Node, up: Node, p: Rec)
    requires Tower(rows, level, root) && level + 1 < |rows| && i < |rows[level]|
    requires Tower(after, level + 1, root) && after[level] == rows[level]
    requires Flat(after[level + 1]) == SplitPtrs(Flat(rows[level + 1]), i, lo.no, p) && p.child == up.no
    requires NodeOk(lo, false) && NodeOk(up, false)
    requires HalvesUnder(lo.recs, up.recs, Flat(rows[level + 1]), i, p.key, level > 0)
    requires Ordered(Flat(rows[level][..i]) + (lo.recs + up.recs) + Flat(rows[level][i + 1..]), level > 0)
    ensures var row := SplitRow(rows[level], i, lo, up);
            Tower(after[level := row], level, root) &&
            Flat(row) == Flat(rows[level][..i]) + (lo.recs + up.recs) + Flat(rows[level][i + 1..])
  {
    var row := SplitRow(rows[level], i, lo, up);
    SplitFlat(rows[level], i, lo, up);
    SplitNodesOk(rows[level], i, lo, up);
    SplitLinked(rows[level], Flat(rows[level + 1]), level > 0, i, lo, up, p);
    ReplaceLowest(after, level, root, row);
  }

  lemma {:induction false} SplitNodesOk(row: Row, i: nat, lo: Node, up: Node)
    requires NodesOk(row, false) && i < |row| && NodeOk(lo, false) && NodeOk(up, false)
    ensures NodesOk(SplitRow(row, i, lo, up), false)
  {
    var row' := SplitRow(row, i, lo, up);
    forall x | 0 <= x < |row'| ensures NodeOk(row'[x], false) {
      assert row'[x] == if x < i then row[x] else if x == i then lo else if x == i + 1 then up else row[x - 1];
    }
  }

  /** The records of two half pages around the key k, in the range of pointer i. */
  predicate HalvesUnder(lo: seq<Rec>, up: seq<Rec>, ptrs: seq<Rec>, i: nat, k: Key, inner: bool) {
    i < |ptrs| && lo != [] && up != [] && InRange(k, ptrs, i) &&
    (forall j :: 0 <= j < |lo| ==> AtMost(ptrs[i].key, lo[j].key) && Less(lo[j].key, k)) &&
    (forall j :: 0 <= j < |up| ==> AtMost(k, up[j].key) && InRange(up[j].key, ptrs, i)) &&
    (inner ==> lo[0].key == ptrs[i].key && up[0].key == k)
  }

  /** Cutting a sorted page in front of item m gives halves around that item's key. */
  lemma {:induction false} CutHalves(s: seq<Rec>, m: nat, ptrs: seq<Rec>, i: nat, inner: bool)
    requires Sorted(s) && 1 <= m < |s| && i < |ptrs|
    requires forall j :: 0 <= j < |s| ==> InRange(s[j].key, ptrs, i)
    requires inner ==> s[0].key == ptrs[i].key
    ensures HalvesUnder(s[..m], s[m..], ptrs, i, s[m].key, inner)
    ensures Less(ptrs[i].key, s[m].key) && s[m].key.At?
  {
    assert Less(s[0].key, s[m].key) && InRange(s[0].key, ptrs, i);
  }

  // ----- deleting: rows -----

  /** Deleting record j of page i, when the page stays: on the leftmost page of a non-leaf level
      a new first record gets the min-rec mark. */
  function DeleteRow(row: Row, i: nat, j: nat, inner: bool): Row
    requires i < |row| && j < |row[i].recs|
  {
    row[i := row[i].(recs := Without(row[i].recs, j, inner && i == 0))]
  }

  /** Discarding page i: if it was the leftmost page of a non-leaf level, the first record of
      the page to its right gets the min-rec mark. */
  function DiscardRow(row: Row, i: nat, inner: bool): (t: Row)
    requires i < |row| && (inner ==> forall x :: 0 <= x < |row| ==> row[x].recs != [])
    ensures |t| == |row| - 1
  {
    var t := row[..i] + row[i + 1..];
    if inner && i == 0 && t != [] then t[0 := MarkFirst(t[0])] else t
  }

  function MarkFirst(n: Node): Node
    requires n.recs != []
  {
    n.(recs := n.recs[0 := n.recs[0].(key := Min)])
  }

  lemma {:induction false} WithoutInMiddle(pre: seq<Rec>, mid: seq<Rec>, post: seq<Rec>, j: nat, inner: bool)
    requires j < |mid| && (pre == [] && inner && j == 0 ==> |mid| > 1)
    ensures pre + Without(mid, j, inner && pre == []) + post == Without(pre + mid + post, |pre| + j, inner)
  {
    var s := pre + mid + post;
    WithoutAt(mid, j, inner && pre == [], Without(mid, j, inner && pre == []));
    WithoutAt(s, |pre| + j, inner, Without(s, |pre| + j, inner));
  }

  lemma {:induction false} DeleteFlat(row: Row, i: nat, j: nat, inner: bool)
    requires i < |row| && j < |row[i].recs| && (inner ==> forall x :: 0 <= x < |row| ==> row[x].recs != [])
    requires inner && i == 0 && j == 0 ==> |row[0].recs| > 1
    ensures Offset(row, i) + j < |Flat(row)|
    ensures Flat(DeleteRow(row, i, j, inner)) == Without(Flat(row), Offset(row, i) + j, inner)
  {
    FlatUpdate(row, i, Without(row[i].recs, j, inner && i == 0));
    FlatAt(row, i);
    if i == 0 {
      assert row[..0] == [];
    } else if inner {
      assert row[..i][0] == row[0];
      assert Flat(row[..i]) == row[0].recs + Flat(row[..i][1..]);
    }
    WithoutInMiddle(Flat(row[..i]), row[i].recs, Flat(row[i + 1..]), j, inner);
  }

  lemma {:induction false} MarkFlat(row: Row)
    requires row != [] && row[0].recs != []
    ensures Flat(row) != [] && Flat(row[0 := MarkFirst(row[0])]) == Flat(row)[0 := Flat(row)[0].(key := Min)]
  {
    var row' := row[0 := MarkFirst(row[0])];
    assert row'[1..] == row[1..];
  }

  lemma {:induction false} DiscardFlat(row: Row, i: nat, inner: bool)
    requires i < |row| && |row[i].recs| == 1 && forall x :: 0 <= x < |row| ==> row[x].recs != []
    ensures Offset(row, i) < |Flat(row)|
    ensures Flat(DiscardRow(row, i, inner)) == Without(Flat(row), Offset(row, i), inner)
  {
    var pre, post, at := row[..i], row[i + 1..], Offset(row, i);
    FlatAt(row, i);
    DropOne(Flat(pre), row[i].recs, Flat(post), inner && i == 0);
    if i > 0 {
      FlatConcat(pre, post);
      assert pre[0] == row[0] && Flat(pre) != [];
      WithoutIs(Flat(row), at, inner);
      WithoutIs(Flat(row), at, false);
    } else {
      assert pre == [] && pre + post == post;
      if inner && post != [] {
        MarkFlat(post);
      }
    }
  }

  lemma {:induction false} DropOne(pre: seq<Rec>, one: seq<Rec>, post: seq<Rec>, mark: bool)
    requires |one| == 1 && (mark ==> pre == [])
    ensures Without(pre + one + post, |pre|, mark)
         == if mark && post != [] then post[0 := post[0].(key := Min)] else pre + post
  {
    WithoutAt(pre + one + post, |pre|, mark, Without(pre + one + post, |pre|, mark));
  }

  lemma {:induction false} WithoutNodeOk(n: Node, j: nat, inner: bool)
    requires NodeOk(n, true) && j < |n.recs|
    ensures NodeOk(n.(recs := Without(n.recs, j, inner)), true)
  {
    WithoutAt(n.recs, j, inner, Without(n.recs, j, inner));
    DropFits(n.recs, Without(n.recs, j, inner), j);
  }

  lemma {:induction false} MarkNodeOk(n: Node)
    requires NodeOk(n, false)
    ensures NodeOk(MarkFirst(n), false)
  {
    SizeOfPart(n.recs, 0, MarkFirst(n).recs, |n.recs|);
  }

  /** The level after a delete within page i. */
  lemma {:induction false} DeleteKeepsRow(row: Row, level: nat, top: bool, i: nat, j: nat)
    requires RowOk(row, level, top) && i < |row| && j < |row[i].recs|
    requires |row[i].recs| > 1 || (top && level == 0)
    ensures RowOk(DeleteRow(row, i, j, level > 0), level, top)
    ensures Offset(row, i) + j < |Flat(row)|
    ensures Flat(DeleteRow(row, i, j, level > 0)) == Without(Flat(row), Offset(row, i) + j, level > 0)
  {
    forall x | 0 <= x < |row| ensures NodeOk(row[x], top && level == 0) {
    }
    DeleteFlat(row, i, j, level > 0);
    WithoutOrdered(Flat(row), Offset(row, i) + j, level > 0);
    WithoutNodeOk(row[i], j, level > 0 && i == 0);
  }

  /** The level after page i, with one record, was discarded. */
  lemma {:induction false} DiscardKeepsRow(row: Row, level: nat, i: nat)
    requires RowOk(row, level, false) && i < |row| && |row[i].recs| == 1 && |row| > 1
    ensures forall x :: 0 <= x < |row| ==> row[x].recs != []
    ensures RowOk(DiscardRow(row, i, level > 0), level, false)
    ensures Offset(row, i) < |Flat(row)|
    ensures Flat(DiscardRow(row, i, level > 0)) == Without(Flat(row), Offset(row, i), level > 0)
  {
    forall x | 0 <= x < |row| ensures NodeOk(row[x], false) {
    }
    DiscardFlat(row, i, level > 0);
    WithoutOrdered(Flat(row), Offset(row, i), level > 0);
    var t := DiscardRow(row, i, level > 0);
    if level > 0 && i == 0 {
      MarkNodeOk(row[1]);
    }
    forall x | 0 <= x < |t| ensures NodeOk(t[x], false) {
      assert x > 0 || !(level > 0 && i == 0) ==> t[x] == if x < i then row[x] else row[x + 1];
    }
  }

  // ----- deleting: links -----

  /** A delete that does not touch the first record of a page, or only that of the leftmost
      one, leaves the node pointers as they are. */
  lemma {:induction false} DeleteUnder(row: Row, ptrs: seq<Rec>, inner: bool, i: nat, j: nat)
    requires Linked(row, ptrs, inner) && i < |row| && j < |row[i].recs| && |row[i].recs| > 1
    requires ptrs[0].key.Min? && (inner ==> i == 0 || j > 0)
    ensures Linked(DeleteRow(row, i, j, inner), ptrs, inner)
  {
    assert NodeUnder(row[i], ptrs, i, inner);
    WithoutAt(row[i].recs, j, inner && i == 0, Without(row[i].recs, j, inner && i == 0));
    var n := DeleteRow(row, i, j, inner)[i];
    forall x | 0 <= x < |n.recs| ensures InRange(n.recs[x].key, ptrs, i) {
      assert n.recs[x].key == (if x < j then row[i].recs[x].key else row[i].recs[x + 1].key) || n.recs[x].key.Min?;
      assert InRange(row[i].recs[if x < j then x else x + 1].key, ptrs, i);
    }
  }

  /** A delete of the first record of another page goes with a new prefix in its node pointer. */
  lemma {:induction false} DeleteFirstUnder(row: Row, ptrs: seq<Rec>, i: nat, p: Rec)
    requires Linked(row, ptrs, true) && 0 < i < |row| && |row[i].recs| > 1 && Sorted(row[i].recs)
    requires p.key == row[i].recs[1].key && p.child == row[i].no
    ensures Linked(DeleteRow(row, i, 0, true), ptrs[i := p], true)
  {
    var row', ptrs' := DeleteRow(row, i, 0, true), ptrs[i := p];
    WithoutAt(row[i].recs, 0, false, Without(row[i].recs, 0, false));
    assert NodeUnder(row[i], ptrs, i, true) && InRange(row[i].recs[1].key, ptrs, i);
    forall x | 0 <= x < |row'| ensures NodeUnder(row'[x], ptrs', x, true) {
      assert NodeUnder(row[x], ptrs, x, true);
      if x == i {
        assert row'[i].recs == row[i].recs[1..];
        forall y | 0 <= y < |row'[i].recs| ensures InRange(row'[i].recs[y].key, ptrs', i) {
          assert InRange(row[i].recs[y + 1].key, ptrs, i);
        }
      } else if x + 1 == i {
        forall y | 0 <= y < |row[x].recs| ensures InRange(row[x].recs[y].key, ptrs', x) {
          assert InRange(row[x].recs[y].key, ptrs, x);
        }
      }
    }
  }

  /** A page is discarded together with its node pointer. */
  lemma {:induction false} DiscardUnder(row: Row, ptrs: seq<Rec>, inner: bool, i: nat)
    requires Linked(row, ptrs, inner) && Sorted(ptrs) && i < |row| && |row| > 1
    requires forall x :: 0 <= x < |row| ==> row[x].recs != []
    ensures Linked(DiscardRow(row, i, inner), Without(ptrs, i, true), inner)
  {
    var row', ptrs' := DiscardRow(row, i, inner), Without(ptrs, i, true);
    WithoutAt(ptrs, i, true, Without(ptrs, i, true));
    forall x | 0 <= x < |row'| ensures NodeUnder(row'[x], ptrs', x, inner) {
      var y := if x < i then x else x + 1;
      assert NodeUnder(row[y], ptrs, y, inner);
      assert x + 1 < |ptrs'| ==> ptrs'[x + 1].key == if x + 1 < i then ptrs[x + 1].key else ptrs[x + 2].key;
      assert x + 1 == i && i + 1 < |ptrs| ==> Less(ptrs[i].key, ptrs[i + 1].key);
      assert row'[x].no == row[y].no && ptrs'[x].child == ptrs[y].child;
      assert x > 0 || i > 0 ==> row'[x] == row[y] && ptrs'[x] == ptrs[y];
      forall z | 0 <= z < |row'[x].recs| ensures InRange(row'[x].recs[z].key, ptrs', x) {
        assert InRange(row[y].recs[z].key, ptrs, y);
      }
    }
  }
}
