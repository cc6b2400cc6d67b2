/**
 One index page of the B-tree: its records between infimum and supremum, the space they
 reserve, and the choice of a split point (btr/btr0btr.cc).
 */
module BtreePage {

  /** Free space of a created empty index page: a 16 KiB page minus header, infimum,
      supremum, trailer and the two initial directory slots. */
  const FREE_SPACE: nat := 16247

  /** A record key in comparisons. `Min` is the predefined minimum record: the key of a
      record whose min-rec bit is set compares below everything else. */
  datatype Key = Min | At(value: int)

  predicate Less(a: Key, b: Key) {
    b.At? && (a.Min? || a.value < b.value)
  }

  predicate AtMost(a: Key, b: Key) {
    a == b || Less(a, b)
  }

  /** A leaf record or a node pointer. `size` is its size on the page, `ptrSize` the size of
      a node pointer built from it, `child` the page number in a node pointer. */
  datatype Rec = Rec(key: Key, child: int, size: nat, ptrSize: nat)

  /** Records of at least half of an empty page's free space are stored externally, so
      every record that reaches a page is below that limit. */
  predicate Small(r: Rec) {
    r.size < FREE_SPACE / 2 && r.ptrSize < FREE_SPACE / 2
  }

  predicate AllSmall(s: seq<Rec>) {
    forall i :: 0 <= i < |s| ==> Small(s[i])
  }

  /** Directory space reserved for n records: n * PAGE_DIR_SLOT_SIZE / PAGE_DIR_SLOT_MIN_N_OWNED
      = n * 2 / 4, rounded up. It is written without division; DirSpaceFormula gives the formula. */
  function DirSpace(n: nat): nat {
    if n < 2 then n else 1 + DirSpace(n - 2)
  }

  lemma {:induction false} DirSpaceFormula(n: nat)
    ensures DirSpace(n) == (2 * n + 3) / 4
  {
    if n >= 2 {
      DirSpaceFormula(n - 2);
    }
  }

  /** Cutting a page in two wastes at most one unit of directory space. */
  lemma {:induction false} DirSpaceLoss(m: nat, n: nat)
    ensures DirSpace(m + n) <= DirSpace(m) + DirSpace(n) <= DirSpace(m + n) + 1
  {
    DirSpaceFormula(m);
    DirSpaceFormula(n);
    DirSpaceFormula(m + n);
  }

  /** Data size of the first n records. */
  function SizeUpto(s: seq<Rec>, n: nat): nat
    requires n <= |s|
  {
    if n == 0 then 0 else SizeUpto(s, n - 1) + s[n - 1].size
  }

  function DataSize(s: seq<Rec>): nat {
    SizeUpto(s, |s|)
  }

  predicate Fits(s: seq<Rec>) {
    DataSize(s) + DirSpace(|s|) <= FREE_SPACE
  }

  /** The page's records with r inserted so that it gets index c. */
  function Insert(s: seq<Rec>, c: nat, r: Rec): (t: seq<Rec>)
    requires c <= |s|
    ensures |t| == |s| + 1
  {
    s[..c] + [r] + s[c..]
  }

  lemma {:induction false} SizeOfPart(s: seq<Rec>, lo: nat, t: seq<Rec>, n: nat)
    requires n <= |t| && lo + n <= |s| && forall i :: 0 <= i < n ==> t[i].size == s[lo + i].size
    ensures SizeUpto(t, n) == SizeUpto(s, lo + n) - SizeUpto(s, lo)
  {
    if n > 0 {
      SizeOfPart(s, lo, t, n - 1);
    }
  }

  lemma {:induction false} SizeOfSlice(s: seq<Rec>, lo: nat, hi: nat)
    requires lo <= hi <= |s|
    ensures DataSize(s[lo..hi]) == SizeUpto(s, hi) - SizeUpto(s, lo)
  {
    SizeOfPart(s, lo, s[lo..hi], hi - lo);
  }

  /** s lists the records with r at index c. */
  predicate Items(s: seq<Rec>, recs: seq<Rec>, c: nat, r: Rec) {
    c < |s| == |recs| + 1 && s[c] == r &&
    (forall i :: 0 <= i < c ==> s[i] == recs[i]) &&
    (forall i :: c < i < |s| ==> s[i] == recs[i - 1])
  }

  lemma {:induction false} SizeOfItems(s: seq<Rec>, recs: seq<Rec>, c: nat, r: Rec, m: nat)
    requires Items(s, recs, c, r) && m <= |s|
    ensures SizeUpto(s, m) == if m <= c then SizeUpto(recs, m) else SizeUpto(recs, m - 1) + r.size
  {
    if m > 0 {
      SizeOfItems(s, recs, c, r, m - 1);
    }
  }

  lemma {:induction false} DataSizeInsert(s: seq<Rec>, c: nat, r: Rec)
    requires c <= |s|
    ensures DataSize(Insert(s, c, r)) == DataSize(s) + r.size
  {
    SizeOfItems(Insert(s, c, r), s, c, r, |s| + 1);
  }

  lemma {:induction false} SizeMonotone(s: seq<Rec>, lo: nat, hi: nat)
    requires lo <= hi <= |s|
    ensures SizeUpto(s, lo) <= SizeUpto(s, hi)
  {
    if lo < hi {
      SizeMonotone(s, lo, hi - 1);
    }
  }

  /** A part of a page fits wherever the whole page fits. */
  lemma {:induction false} PartFits(s: seq<Rec>, lo: nat, hi: nat)
    requires lo <= hi <= |s| && Fits(s)
    ensures Fits(s[lo..hi])
  {
    SizeOfSlice(s, lo, hi);
    SizeMonotone(s, hi, |s|);
    DirSpaceLoss(hi - lo, |s| - (hi - lo));
  }

  /** A page without one of its records fits. */
  lemma {:induction false} DropFits(s: seq<Rec>, t: seq<Rec>, j: nat)
    requires j < |s| == |t| + 1 && Fits(s)
    requires forall x :: 0 <= x < |t| ==> t[x].size == s[if x < j then x else x + 1].size
    ensures Fits(t)
  {
    DropSize(s, t, j, |t|);
    DirSpaceLoss(|t|, 1);
  }

  lemma {:induction false} DropSize(s: seq<Rec>, t: seq<Rec>, j: nat, m: nat)
    requires j < |s| == |t| + 1 && m <= |t|
    requires forall x :: 0 <= x < |t| ==> t[x].size == s[if x < j then x else x + 1].size
    ensures SizeUpto(t, m) <= SizeUpto(s, if m <= j then m else m + 1)
    ensures m == j ==> SizeUpto(t, m) <= SizeUpto(s, m + 1)
  {
    if m > 0 {
      DropSize(s, t, j, m - 1);
    }
  }

  /** A page that holds at most one record has room for a second one. */
  lemma {:induction false} TwoRecordsFit(s: seq<Rec>, c: nat, r: Rec)
    requires |s| <= 1 && c <= |s| && AllSmall(s) && Small(r)
    ensures Fits(Insert(s, c, r))
  {
    DataSizeInsert(s, c, r);
    DirSpaceFormula(|s| + 1);
    if |s| == 1 {
      assert SizeUpto(s, 1) == SizeUpto(s, 0) + s[0].size;
    }
  }

  /** Where a page cursor can stand, or `Tuple` for the record about to be inserted, which
      the source denotes by a null record pointer. */
  datatype Position = Infimum | User(i: nat) | Tuple | Supremum

  /** The position after p on a page of n records. */
  function NextOf(p: Position, n: nat): Position
    requires p.Infimum? || (p.User? && p.i < n)
  {
    var i := if p.Infimum? then 0 else p.i + 1;
    if i < n then User(i) else Supremum
  }

  /** The cursor of an insert that will get index c stands on the record before it. */
  function CursorOf(c: nat): Position {
    if c == 0 then Infimum else User(c - 1)
  }

  /** Index of a position in the page's records with the tuple included at index c. */
  function ItemOf(p: Position, c: nat): nat
    requires p.User? || p.Tuple?
  {
    if p.Tuple? then c else if p.i < c then p.i else p.i + 1
  }

  /** Index m cuts the items into two nonempty halves that both fit on a page. */
  predicate GoodSplit(s: seq<Rec>, m: nat) {
    1 <= m < |s| &&
    SizeUpto(s, m) + DirSpace(m) <= FREE_SPACE &&
    DataSize(s) - SizeUpto(s, m) + DirSpace(|s| - m) <= FREE_SPACE
  }

  lemma {:induction false} GoodSplitFits(s: seq<Rec>, m: nat)
    requires m <= |s|
    ensures GoodSplit(s, m) <==> 1 <= m < |s| && Fits(s[..m]) && Fits(s[m..])
  {
    SizeOfSlice(s, 0, m);
    SizeOfSlice(s, m, |s|);
    assert s[0..m] == s[..m] && s[m..|s|] == s[m..];
  }

  function SpaceUpto(s: seq<Rec>, n: nat): nat
    requires n <= |s|
  {
    SizeUpto(s, n) + DirSpace(n)
  }

  /** k is the first number of items whose space reaches half of the total. */
  predicate HalfPoint(s: seq<Rec>, k: nat) {
    1 <= k <= |s| && SpaceUpto(s, k) >= SpaceUpto(s, |s|) / 2 &&
    (k > 1 ==> SpaceUpto(s, k - 1) < SpaceUpto(s, |s|) / 2)
  }

  /** The split is at the half point: behind the item that reaches half of the total space if that
      fits on the lower page and something is left for the upper one, and otherwise before it. */
  ghost predicate HalfSplit(s: seq<Rec>, m: nat) {
    exists k: nat :: HalfPoint(s, k) && m == if k < |s| && SpaceUpto(s, k) <= FREE_SPACE then k else k - 1
  }

  /** The lower half then has half of the total space, give or take the item at the half point and
      its unit of directory space. */
  lemma {:induction false} HalfSplitBalances(s: seq<Rec>, m: nat) returns (k: nat)
    requires m < |s| && HalfSplit(s, m)
    ensures 1 <= k <= |s| && (m == k || m == k - 1)
    ensures var half, size := SpaceUpto(s, |s|) / 2, s[k - 1].size;
            half - size - 1 <= SpaceUpto(s, m) <= half + size + 1
  {
    k :| HalfPoint(s, k) && m == if k < |s| && SpaceUpto(s, k) <= FREE_SPACE then k else k - 1;
    DirFacts(k, |s|);
    assert SpaceUpto(s, 0) == 0;
    var before, size, half := SpaceUpto(s, k - 1), s[k - 1].size, SpaceUpto(s, |s|) / 2;
    assert SpaceUpto(s, k) <= before + size + 1;
  }

  /** The arithmetic behind the split point, in numbers: the first k - 1 items have `a` bytes,
      item k has `size`, all items `data`; the rest is directory space. */
  lemma {:induction false} SplitNumbers(a: nat, size: nat, data: nat, dir1: nat, dir: nat, dirAll: nat, dirRest: nat,
                                        dirRest1: nat, half: nat)
    requires size < FREE_SPACE / 2 && data + dirAll <= FREE_SPACE + FREE_SPACE / 2
    requires dir1 <= dir <= dir1 + 1 && dir + dirRest <= dirAll + 1 && dir1 + dirRest1 <= dirAll + 1
    requires 2 * half <= data + dirAll <= 2 * half + 1
    requires a + size + dir >= half && (a + dir1 < half || a + dir1 == 0)
    ensures a + size + dir <= FREE_SPACE ==> data - a - size + dirRest <= FREE_SPACE
    ensures a + size + dir > FREE_SPACE ==> data - a + dirRest1 <= FREE_SPACE && a + dir1 > 0
    ensures a + dir1 <= FREE_SPACE
  {
  }

  /** The arithmetic behind the split point. */
  lemma {:induction false} SplitArithmetic(s: seq<Rec>, k: nat)
    requires HalfPoint(s, k) && |s| >= 2 && AllSmall(s)
    requires DataSize(s) + DirSpace(|s| - 1) <= FREE_SPACE + FREE_SPACE / 2 - 1
    ensures GoodSplit(s, if k < |s| && SpaceUpto(s, k) <= FREE_SPACE then k else k - 1)
  {
    DirFacts(k, |s|);
    assert SpaceUpto(s, 0) == 0;
    SplitNumbers(SizeUpto(s, k - 1), s[k - 1].size, DataSize(s), DirSpace(k - 1), DirSpace(k), DirSpace(|s|),
                 DirSpace(|s| - k), DirSpace(|s| - k + 1), SpaceUpto(s, |s|) / 2);
  }

  lemma {:induction false} DirFacts(k: nat, n: nat)
    requires 1 <= k <= n
    ensures DirSpace(k - 1) <= DirSpace(k) <= DirSpace(k - 1) + 1 && DirSpace(n) <= DirSpace(n - 1) + 1
    ensures DirSpace(k) + DirSpace(n - k) <= DirSpace(n) + 1 && DirSpace(k - 1) + DirSpace(n - k + 1) <= DirSpace(n) + 1
  {
    DirSpaceLoss(k, n - k);
    DirSpaceLoss(k - 1, n - k + 1);
    DirSpaceLoss(k - 1, 1);
    DirSpaceLoss(n - 1, 1);
  }

  /** The item included after `rec` by the scan: the tuple follows the cursor's record. */
  function NextItem(rec: Position, c: nat, n: nat): (next: Position)
    requires c <= n
    requires rec.Infimum? || rec.Tuple? || (rec.User? && rec.i < n)
    ensures var item := if rec.Infimum? then 0 else ItemOf(rec, c) + 1;
            if item <= n
            then (next.Tuple? || (next.User? && next.i < n)) && ItemOf(next, c) == item
            else next == Supremum
  {
    if rec == CursorOf(c) then Tuple
    else NextOf(if rec == Tuple then CursorOf(c) else rec, n)
  }

  /** The size of an item: of the tuple or of a record on the page. */
  function ItemSize(recs: seq<Rec>, r: Rec, p: Position): nat
    requires p.Tuple? || (p.User? && p.i < |recs|)
  {
    if p == Tuple then r.size else recs[p.i].size
  }

  /** The scan of page_get_split_rec: items are included in the lower half until they reserve
      half of the total space. It stops on an item, never on supremum. */
  method IncludeHalf(recs: seq<Rec>, c: nat, r: Rec, ghost s: seq<Rec>)
    returns (rec: Position, n: nat, inclData: nat)
    requires Items(s, recs, c, r) && DataSize(s) == DataSize(recs) + r.size
    ensures HalfPoint(s, n) && inclData == SizeUpto(s, n)
    ensures (rec.Tuple? || (rec.User? && rec.i < |recs|)) && ItemOf(rec, c) == n - 1
  {
    var totalSpace := DataSize(recs) + r.size + DirSpace(|recs| + 1);
    assert totalSpace == SpaceUpto(s, |s|);
    n, inclData, rec := 0, 0, Infimum;
    while true
      invariant n < |s|
      invariant n == 0 ==> rec == Infimum
      invariant n > 0 ==> (rec.Tuple? || (rec.User? && rec.i < |recs|)) && ItemOf(rec, c) == n - 1
      invariant inclData == SizeUpto(s, n)
      invariant n > 0 ==> SpaceUpto(s, n) < totalSpace / 2
      decreases |s| - n
    {
      rec := NextItem(rec, c, |recs|);
      inclData := inclData + ItemSize(recs, r, rec);
      n := n + 1;
      if inclData + DirSpace(n) >= totalSpace / 2 {
        break;
      }
    }
  }

  /** page_get_split_rec: the first record of the upper half page when the record `r`, to be
      inserted at index c, does not fit on the page. Both halves then fit, and the
      combination "split at the tuple, which is smaller than the whole page" is impossible. */
  method PageGetSplitRec(recs: seq<Rec>, c: nat, r: Rec) returns (split: Position)
    requires |recs| >= 1 && c <= |recs| && AllSmall(recs) && Small(r) && Fits(recs)
    ensures split.Tuple? || (split.User? && split.i < |recs|)
    ensures GoodSplit(Insert(recs, c, r), ItemOf(split, c)) && HalfSplit(Insert(recs, c, r), ItemOf(split, c))
    ensures split.Tuple? ==> c > 0
  {
    ghost var s := Insert(recs, c, r);
    DataSizeInsert(recs, c, r);
    var rec, n, inclData := IncludeHalf(recs, c, r, s);
    SplitArithmetic(s, n);
    if inclData + DirSpace(n) <= FREE_SPACE && NextItem(rec, c, |recs|) != Supremum {
      // the next item is the first on the right half page
      split := NextItem(rec, c, |recs|);
    } else {
      split := rec;
    }
  }

  /** Of the items s, with the tuple at index c, those that end up on the tuple's half page. */
  function TupleHalf(s: seq<Rec>, c: nat, split: Position): seq<Rec>
    requires c < |s| && (split.Tuple? || (split.User? && split.i < |s| - 1))
  {
    if split.User? && split.i >= c then s[..split.i + 1] else s[ItemOf(split, c)..]
  }

  predicate Sorted(s: seq<Rec>) {
    forall i, j :: 0 <= i < j < |s| ==> Less(s[i].key, s[j].key)
  }

  /** Index c is the place of key k: the first c records are below it and the rest above. */
  predicate IsPlace(s: seq<Rec>, c: nat, k: Key) {
    c <= |s| &&
    (forall i :: 0 <= i < c ==> Less(s[i].key, k)) &&
    (forall i :: c <= i < |s| ==> Less(k, s[i].key))
  }

  /** The loop of page_insert_fits: records [start, end) are taken off a total one at a time,
      down to `data` bytes in n records. */
  method RemoveUntilFits(recs: seq<Rec>, start: nat, end: nat, total: nat, totalRecs: nat, ghost data: nat,
                         ghost n: nat)
    returns (fits: bool)
    requires start <= end <= |recs| && totalRecs == n + (end - start)
    requires total == data + SizeUpto(recs, end) - SizeUpto(recs, start)
    ensures fits <==> data + DirSpace(n) <= FREE_SPACE
  {
    var rec, totalData, nRecs := start, total, totalRecs;
    SizeMonotone(recs, start, end);
    DirSpaceLoss(n, end - start);
    fits := totalData + DirSpace(nRecs) <= FREE_SPACE;
    while rec != end && !fits
      invariant start <= rec <= end && nRecs == n + (end - rec)
      invariant totalData == data + SizeUpto(recs, end) - SizeUpto(recs, rec)
      invariant fits <==> totalData + DirSpace(nRecs) <= FREE_SPACE
      invariant fits ==> data + DirSpace(n) <= FREE_SPACE
      decreases end - rec
    {
      rec := rec + 1;
      SizeMonotone(recs, rec, end);
      DirSpaceLoss(n, end - rec);
      totalData := totalData - recs[rec - 1].size;
      nRecs := nRecs - 1;
      fits := totalData + DirSpace(nRecs) <= FREE_SPACE;
    }
  }

  /** page_insert_fits: it removes the other half's records one at a time and answers true as
      soon as the rest fits; that is exactly the question whether the tuple's half fits. */
  method PageInsertFits(recs: seq<Rec>, c: nat, r: Rec, split: Position) returns (fits: bool)
    requires IsPlace(recs, c, r.key)
    requires split.Tuple? || (split.User? && split.i < |recs|)
    ensures fits <==> Fits(TupleHalf(Insert(recs, c, r), c, split))
  {
    var rec, endRec;
    if split.Tuple? {
      rec, endRec := 0, c;
    } else if AtMost(recs[split.i].key, r.key) {
      rec, endRec := 0, split.i;
    } else {
      rec, endRec := split.i, |recs|;
    }
    ghost var half := TupleHalf(Insert(recs, c, r), c, split);
    HalfSpace(Insert(recs, c, r), recs, c, r, split, rec, endRec);
    fits := RemoveUntilFits(recs, rec, endRec, DataSize(recs) + r.size, |recs| + 1, DataSize(half), |half|);
  }

  /** The tuple's half and the records [lo, hi) of the other half make up the whole page. */
  lemma {:induction false} HalfSpace(s: seq<Rec>, recs: seq<Rec>, c: nat, r: Rec, split: Position, lo: nat, hi: nat)
    requires Items(s, recs, c, r) && (split.Tuple? || (split.User? && split.i < |recs|))
    requires split.Tuple? ==> lo == 0 && hi == c
    requires split.User? && split.i < c ==> lo == 0 && hi == split.i
    requires split.User? && split.i >= c ==> lo == split.i && hi == |recs|
    ensures DataSize(recs) + r.size
         == DataSize(TupleHalf(s, c, split)) + SizeUpto(recs, hi) - SizeUpto(recs, lo)
    ensures |recs| + 1 == |TupleHalf(s, c, split)| + (hi - lo)
  {
    var m := ItemOf(split, c);
    SizeOfItems(s, recs, c, r, |s|);
    SizeOfItems(s, recs, c, r, m);
    if split.User? && split.i >= c {
      SizeOfPart(s, 0, s[..m], m);
    } else {
      SizeOfPart(s, m, s[m..], |s| - m);
    }
  }

  lemma {:induction false} TupleFirst(recs: seq<Rec>, c: nat, r: Rec)
    requires c <= |recs|
    ensures TupleHalf(Insert(recs, c, r), c, Tuple) == Insert(recs[c..], 0, r)
  {
    var s, t := Insert(recs, c, r), Insert(recs[c..], 0, r);
    assert s[c..] == [r] + recs[c..];
    assert t == [r] + recs[c..];
  }

  /** A split choice: the upper half page starts with the record `split`, or with the tuple.
      Both halves get at least one record, counting the tuple. */
  predicate SplitChoice(recs: seq<Rec>, c: nat, split: Position, down: bool, left: bool) {
    c <= |recs| && (split.Tuple? || (split.User? && split.i < |recs|)) &&
    1 <= ItemOf(split, c) <= |recs| &&
    (left <==> split.User? && split.i >= c) && (down ==> split.User?)
  }

  /** Where a page is split the first time, as the number of items that stay below. After inserts in
      ascending order the tuple and one record more stay, or the records before the tuple; in
      descending order the tuple is the last to stay, or the record before it goes up, too.
      Otherwise the old records are cut in the middle. */
  predicate SplitPattern(recs: seq<Rec>, c: nat, r: Rec, last: int, m: nat, down: bool) {
    if c > 0 && last == c - 1 then !down && m == if c + 1 < |recs| then c + 2 else c
    else if c < |recs| && last == c then down && m == if c >= 2 then c - 1 else c + 1
    else
      !down &&
      if |recs| > 1 then
        var lower := if m > c then m - 1 else m;
        m != c && 0 <= |recs| - 2 * lower <= 1
      else m == 1
  }

  /** Step 1 of page_split_and_insert. `last` is the record that PAGE_LAST_INSERT points to,
      or -1. The first iteration follows the insert pattern, the second one balances the
      halves so that the tuple fits. When the split is at the tuple, it always fits. */
  method DecideSplit(recs: seq<Rec>, c: nat, r: Rec, again: bool, last: int)
    returns (split: Position, down: bool, left: bool)
    requires |recs| >= 1 && IsPlace(recs, c, r.key) && AllSmall(recs) && Small(r) && Fits(recs)
    ensures SplitChoice(recs, c, split, down, left)
    ensures again || split.Tuple? ==> Fits(TupleHalf(Insert(recs, c, r), c, split))
    ensures if again then HalfSplit(Insert(recs, c, r), ItemOf(split, c)) && !down
            else SplitPattern(recs, c, r, last, ItemOf(split, c), down) && (split.Tuple? ==> ItemOf(split, c) == c)
  {
    down, left := false, false;
    if again {
      split := PageGetSplitRec(recs, c, r);
      GoodSplitFits(Insert(recs, c, r), ItemOf(split, c));
      if split.Tuple? {
        left := Less(r.key, recs[0].key);
      }
    } else if c > 0 && last == c - 1 {
      split := if c + 1 < |recs| then User(c + 1) else Tuple;
    } else if c < |recs| && last == c {
      down := true;
      split := if c >= 2 then User(c - 1) else User(c);
    } else if |recs| > 1 {
      split := User(|recs| / 2);
    } else {
      split := if Less(r.key, recs[0].key) then User(0) else Tuple;
    }
    if split.User? {
      left := Less(r.key, recs[split.i].key);
    }
    if split.Tuple? && !again {
      TwoRecordsFit(recs[c..], 0, r);
      TupleFirst(recs, c, r);
    }
  }

  /** When the tuple's half fits, both halves of the page with the tuple fit. */
  lemma {:induction false} FittingHalf(recs: seq<Rec>, c: nat, r: Rec, split: Position)
    requires c <= |recs| && (split.Tuple? || (split.User? && split.i < |recs|))
    requires AllSmall(recs) && Small(r) && Fits(recs) && Fits(TupleHalf(Insert(recs, c, r), c, split))
    ensures var s, m := Insert(recs, c, r), ItemOf(split, c);
            Fits(s[..m]) && Fits(s[m..]) && AllSmall(s[..m]) && AllSmall(s[m..])
  {
    var s, m := Insert(recs, c, r), ItemOf(split, c);
    InsertSmall(recs, c, r);
    OtherHalf(recs, c, r, split);
    if split.User? && split.i >= c {
      PartFits(recs, split.i, |recs|);
    } else {
      PartFits(recs, 0, m);
    }
    assert forall x :: 0 <= x < |s[m..]| ==> s[m..][x] == s[m + x];
  }

  lemma {:induction false} InsertSmall(recs: seq<Rec>, c: nat, r: Rec)
    requires c <= |recs| && AllSmall(recs) && Small(r)
    ensures AllSmall(Insert(recs, c, r))
  {
    var s := Insert(recs, c, r);
    forall x | 0 <= x < |s| ensures Small(s[x]) {
      assert s[x] == if x < c then recs[x] else if x == c then r else recs[x - 1];
    }
  }

  /** The half without the tuple is a part of the page. */
  lemma {:induction false} OtherHalf(recs: seq<Rec>, c: nat, r: Rec, split: Position)
    requires c <= |recs| && (split.Tuple? || (split.User? && split.i < |recs|))
    ensures var s, m := Insert(recs, c, r), ItemOf(split, c);
            if split.User? && split.i >= c then s[m..] == recs[split.i..|recs|]
            else m <= |recs| && s[..m] == recs[0..m]
  {
    var s, m := Insert(recs, c, r), ItemOf(split, c);
    if split.User? && split.i >= c {
      forall x | 0 <= x < |s| - m ensures s[m..][x] == recs[split.i..|recs|][x] {
        assert s[m + x] == recs[m + x - 1];
      }
    } else {
      forall x | 0 <= x < m ensures s[..m][x] == recs[0..m][x] {
        assert s[x] == recs[x];
      }
    }
  }

  lemma {:induction false} HalfIsInsert(recs: seq<Rec>, c: nat, r: Rec, q: nat)
    requires c <= |recs| && q < |recs|
    ensures TupleHalf(Insert(recs, c, r), c, User(q)) == if q >= c then Insert(recs[..q], c, r)
            else Insert(recs[q..], c - q, r)
  {
  }

  /** When the tuple does not fit on its half, that half has at least two records already. */
  lemma {:induction false} UnfitHalf(recs: seq<Rec>, c: nat, r: Rec, q: nat)
    requires c <= |recs| && q < |recs| && 1 <= ItemOf(User(q), c)
    requires AllSmall(recs) && Small(r) && Fits(recs) && !Fits(TupleHalf(Insert(recs, c, r), c, User(q)))
    ensures q > 0 && (if q >= c then q >= 2 else |recs| - q >= 2)
    ensures Fits(recs[..q]) && Fits(recs[q..]) && AllSmall(recs[..q]) && AllSmall(recs[q..])
  {
    HalfIsInsert(recs, c, r, q);
    var half, at := if q >= c then recs[..q] else recs[q..], if q >= c then c else c - q;
    if |half| <= 1 {
      TwoRecordsFit(half, at, r);
    }
    PartFits(recs, 0, q);
    PartFits(recs, q, |recs|);
    assert recs[0..q] == recs[..q] && recs[q..|recs|] == recs[q..];
  }
}
