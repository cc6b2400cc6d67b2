/** Forward scans with a persistent cursor over one tree that changes while the scan has given up
    its latches. */
module Scan {
  import opened BtreePage
  import opened BtreeRows
  import opened Btree
  import opened Pcur

  // ----- changes of the tree -----

  /** What may happen to a tree: inserts, deletes, and evictions of pages from the pool. */
  datatype Change = InsertRec(r: Rec) | DeleteKey(k: int) | EvictPage(no: int)

  predicate ChangeOk(c: Change) {
    c.InsertRec? ==> c.r.key.At? && Small(c.r)
  }

  predicate ChangesOk(cs: seq<Change>) {
    forall i :: 0 <= i < |cs| ==> ChangeOk(cs[i])
  }

  function Keys(s: seq<Rec>): set<Key> {
    set r | r in s :: r.key
  }

  function KeysAfter(ks: set<Key>, c: Change): set<Key> {
    match c
    case InsertRec(r) => ks + {r.key}
    case DeleteKey(k) => ks - {At(k)}
    case EvictPage(_) => ks
  }

  function KeysAfterAll(ks: set<Key>, cs: seq<Change>): set<Key> {
    if cs == [] then ks else KeysAfter(KeysAfterAll(ks, cs[..|cs| - 1]), cs[|cs| - 1])
  }

  lemma {:induction false} HasKeyIsIn(s: seq<Rec>, k: Key)
    ensures HasKey(s, k) <==> k in Keys(s)
  {
  }

  lemma {:induction false} InsertedKeys(s: seq<Rec>, t: seq<Rec>, r: Rec)
    requires Inserted(s, t, r)
    ensures Keys(t) == Keys(s) + {r.key}
  {
    var c: nat :| IsPlace(s, c, r.key) && t == Insert(s, c, r);
    assert t == s[..c] + [r] + s[c..];
    assert s == s[..c] + s[c..];
    assert forall x :: x in t <==> x in s || x == r;
  }

  lemma {:induction false} WithoutKeys(s: seq<Rec>, at: nat)
    requires Sorted(s) && at < |s|
    ensures Keys(Without(s, at, false)) == Keys(s) - {s[at].key}
  {
    var a, b := s[..at], s[at + 1..];
    WithoutIs(s, at, false);
    assert s == a + [s[at]] + b;
    KeysConcat(a, b);
    KeysConcat(a, [s[at]]);
    KeysConcat(a + [s[at]], b);
    forall r | r in a || r in b ensures r.key != s[at].key {
      var x :| 0 <= x < |s| && x != at && s[x] == r;
    }
    assert Keys([s[at]]) == {s[at].key};
    assert s[at].key !in Keys(a) && s[at].key !in Keys(b);
  }

  lemma {:induction false} KeysConcat(a: seq<Rec>, b: seq<Rec>)
    ensures Keys(a + b) == Keys(a) + Keys(b)
  {
    assert forall r :: r in a + b <==> r in a || r in b;
  }

  /** Is there a record with the key? */
  method Present(tree: Tree, k: Key) returns (found: bool)
    requires tree.Valid() && k.At?
    ensures found <==> HasKey(tree.Records(), k)
  {
    var no, pos, i := tree.SearchToNthLevel(0, k, LE);
    KeyAtCursor(tree.rows, tree.root, i, pos, k);
    found := 0 <= pos && tree.pages[no].recs[pos].key == k;
    if found {
      assert tree.Records()[Offset(tree.rows[0], i) + pos] in tree.Records();
    }
  }

  /** One change. The keys change accordingly, and the modify clocks tell the truth. */
  method ApplyChange(tree: Tree, c: Change)
    requires tree.Valid() && ChangeOk(c)
    modifies tree
    ensures tree.Valid() && Keys(tree.Records()) == KeysAfter(old(Keys(tree.Records())), c)
    ensures Advance(old(tree.clocks), tree.clocks) &&
            Kept(old(tree.rows[0]), old(tree.clocks), tree.rows[0], tree.clocks)
  {
    ghost var s := tree.Records();
    match c
    case InsertRec(r) =>
      var found := Present(tree, r.key);
      HasKeyIsIn(s, r.key);
      if !found {
        NoneHasKey(s, r.key);
        tree.InsertRecord(r);
        InsertedKeys(s, tree.Records(), r);
      }
    case DeleteKey(k) =>
      LeafSorted(tree.rows, tree.root);
      var found, at := tree.DeleteRecord(k);
      HasKeyIsIn(s, At(k));
      if found {
        WithoutKeys(s, at);
      }
    case EvictPage(no) =>
      tree.Evict(no);
  }

  lemma {:induction false} NoneHasKey(s: seq<Rec>, k: Key)
    requires !HasKey(s, k)
    ensures forall x :: 0 <= x < |s| ==> s[x].key != k
  {
    forall x | 0 <= x < |s| ensures s[x].key != k {
      assert s[x] in s;
    }
  }

  lemma {:induction false} LeafSorted(rows: seq<Row>, root: int)
    requires Tower(rows, 0, root)
    ensures Sorted(Flat(rows[0]))
  {
  }

  method ApplyChanges(tree: Tree, cs: seq<Change>)
    requires tree.Valid() && ChangesOk(cs)
    modifies tree
    ensures tree.Valid() && Keys(tree.Records()) == KeysAfterAll(old(Keys(tree.Records())), cs)
    ensures Advance(old(tree.clocks), tree.clocks) &&
            Kept(old(tree.rows[0]), old(tree.clocks), tree.rows[0], tree.clocks)
  {
    var n := 0;
    assert cs[..0] == [];
    while n < |cs|
      invariant 0 <= n <= |cs| && tree.Valid() &&
                Keys(tree.Records()) == KeysAfterAll(old(Keys(tree.Records())), cs[..n])
      invariant Advance(old(tree.clocks), tree.clocks) &&
                Kept(old(tree.rows[0]), old(tree.clocks), tree.rows[0], tree.clocks)
    {
      ghost var row, clocks := tree.rows[0], tree.clocks;
      ApplyChange(tree, cs[n]);
      KeptTransitive(old(tree.rows[0]), old(tree.clocks), row, clocks, tree.rows[0], tree.clocks);
      assert cs[..n + 1][..n] == cs[..n];
      n := n + 1;
    }
    assert cs[..n] == cs;
  }

  // ----- what a scan returns -----

  /** The first key of s above k. */
  ghost predicate IsNextKey(s: seq<Rec>, k: Key, next: Key) {
    exists c :: 0 <= c < |s| && IsCut(s, c, k, false) && s[c].key == next
  }

  /** The last key, or k if there is none. */
  function LastOr(k: Key, keys: seq<Key>): Key {
    if keys == [] then k else keys[|keys| - 1]
  }

  function Last(out: seq<Key>): Key {
    if out == [] then Min else out[|out| - 1]
  }

  /** out is what a scan returns that sees the records recs[0], recs[1], ... at its successive
      steps: each time the first key above the one before. */
  ghost predicate IsScan(recs: seq<seq<Rec>>, out: seq<Key>)
    decreases |out|
  {
    out == [] ||
    (|out| <= |recs| && IsScan(recs, out[..|out| - 1]) && IsNextKey(recs[|out| - 1], Last(out[..|out| - 1]), Last(out)))
  }

  /** Each key comes from the records of its step and is above the one before. */
  ghost predicate Climbs(recs: seq<seq<Rec>>, out: seq<Key>)
    decreases |out|
  {
    out == [] ||
    (|out| <= |recs| && Climbs(recs, out[..|out| - 1]) && HasKey(recs[|out| - 1], Last(out)) &&
     Less(Last(out[..|out| - 1]), Last(out)))
  }

  /** Then the keys strictly increase. */
  lemma {:induction false} ClimbsAscends(recs: seq<seq<Rec>>, out: seq<Key>, i: nat, j: nat)
    requires Climbs(recs, out) && i < j < |out|
    ensures Less(out[i], out[j])
    decreases |out|
  {
    var front := out[..|out| - 1];
    if j < |front| {
      ClimbsAscends(recs, front, i, j);
    } else if i < |front| - 1 {
      ClimbsAscends(recs, front, i, |front| - 1);
    }
  }

  lemma {:induction false} ScanClimbs(recs: seq<seq<Rec>>, out: seq<Key>)
    requires IsScan(recs, out)
    ensures Climbs(recs, out)
    decreases |out|
  {
    if out != [] {
      var s, front := recs[|out| - 1], out[..|out| - 1];
      ScanClimbs(recs, front);
      var c :| 0 <= c < |s| && IsCut(s, c, Last(front), false) && s[c].key == Last(out);
      assert s[c] in s && !Below(s[c].key, Last(front), false);
    }
  }

  /** The records of all steps are in order and have the key. */
  ghost predicate AllHave(recs: seq<seq<Rec>>, k: Key) {
    forall m :: 0 <= m < |recs| ==> HasKey(recs[m], k) && Sorted(recs[m])
  }

  /** No key that is there at all steps is left out. */
  lemma {:induction false} ScanComplete(recs: seq<seq<Rec>>, out: seq<Key>, k: Key)
    requires IsScan(recs, out) && k.At? && AllHave(recs, k)
    ensures k in out || Less(Last(out), k)
    decreases |out|
  {
    if out != [] {
      var front, s := out[..|out| - 1], recs[|out| - 1];
      assert out == front + [Last(out)];
      ScanComplete(recs, front, k);
      if Less(Last(front), k) {
        NextNotAbove(s, Last(front), Last(out), k);
      }
    }
  }

  /** The next key is not above any key that is still to come. */
  lemma {:induction false} NextNotAbove(s: seq<Rec>, last: Key, next: Key, k: Key)
    requires Sorted(s) && IsNextKey(s, last, next) && HasKey(s, k) && Less(last, k)
    ensures next == k || Less(next, k)
  {
    var c :| 0 <= c < |s| && IsCut(s, c, last, false) && s[c].key == next;
    var r :| r in s && r.key == k;
    var x :| 0 <= x < |s| && s[x] == r;
    assert x >= c;
    assert x == c || Less(s[c].key, s[x].key);
  }

  lemma {:induction false} AllBehind(s: seq<Rec>, last: Key, k: Key)
    requires IsCut(s, |s|, last, false) && HasKey(s, k)
    ensures !Less(last, k)
  {
    var r :| r in s && r.key == k;
    var x :| 0 <= x < |s| && s[x] == r;
    assert Below(s[x].key, last, false);
  }

  lemma {:induction false} ScanStep(recs: seq<seq<Rec>>, out: seq<Key>, k: Key)
    requires IsScan(recs, out) && |out| < |recs| && IsNextKey(recs[|out|], Last(out), k)
    ensures IsScan(recs, out + [k])
  {
    assert (out + [k])[..|out|] == out;
  }

  lemma {:induction false} ScanMore(recs: seq<seq<Rec>>, out: seq<Key>, s: seq<Rec>)
    requires IsScan(recs, out)
    ensures IsScan(recs + [s], out)
    decreases |out|
  {
    if out != [] {
      ScanMore(recs, out[..|out| - 1], s);
    }
  }

  // ----- keys that are never deleted -----

  ghost predicate NeverDeleted(rounds: seq<seq<Change>>, k: Key) {
    forall j :: 0 <= j < |rounds| ==> NotDeleted(rounds[j], k)
  }

  ghost predicate NotDeleted(cs: seq<Change>, k: Key) {
    k.At? ==> DeleteKey(k.value) !in cs
  }

  lemma {:induction false} StaysIn(ks: set<Key>, cs: seq<Change>, k: Key)
    requires k in ks && NotDeleted(cs, k) && k.At?
    ensures k in KeysAfterAll(ks, cs)
  {
    if cs != [] {
      var front, last := cs[..|cs| - 1], cs[|cs| - 1];
      assert last in cs && forall c :: c in front ==> c in cs;
      StaysIn(ks, front, k);
    }
  }

  /** The records at the successive steps of a scan: between steps j and j + 1 the changes of
      round j happened. */
  ghost predicate Evolves(recs: seq<seq<Rec>>, rounds: seq<seq<Change>>) {
    recs != [] && |recs| <= |rounds| + 1 && (forall j :: 0 <= j < |recs| ==> Sorted(recs[j])) &&
    forall j :: 0 < j < |recs| ==> Keys(recs[j]) == KeysAfterAll(Keys(recs[j - 1]), rounds[j - 1])
  }

  lemma {:induction false} AlwaysThere(recs: seq<seq<Rec>>, rounds: seq<seq<Change>>, k: Key, m: nat)
    requires Evolves(recs, rounds) && k.At? && HasKey(recs[0], k) && NeverDeleted(rounds, k) && m < |recs|
    ensures HasKey(recs[m], k)
  {
    if m > 0 {
      AlwaysThere(recs, rounds, k, m - 1);
      HasKeyIsIn(recs[m - 1], k);
      HasKeyIsIn(recs[m], k);
      assert NotDeleted(rounds[m - 1], k);
      StaysIn(Keys(recs[m - 1]), rounds[m - 1], k);
    }
  }

  lemma {:induction false} AlwaysHave(recs: seq<seq<Rec>>, rounds: seq<seq<Change>>, k: Key)
    requires Evolves(recs, rounds) && k.At? && HasKey(recs[0], k) && NeverDeleted(rounds, k)
    ensures AllHave(recs, k)
  {
    forall m | 0 <= m < |recs| ensures HasKey(recs[m], k) {
      AlwaysThere(recs, rounds, k, m);
    }
  }

  /** What a scan that returned `out` owes for key k: the key was returned, or it is still ahead
      of a scan that has not come to the end. */
  predicate Answered(out: seq<Key>, done: bool, k: Key) {
    k in out || (!done && Less(Last(out), k))
  }

  // ----- the scan that stores its position on every record -----

  /** The scan of Dict_load::to_string: after each record its position is stored, the changes of
      a round happen, and the position is restored, by the clock or by a search. recs[j] are the
      records at step j. Each key is the first above the one before in the tree of its step; so
      the keys strictly increase, and every key that was in the tree at the start and is never deleted is
      returned, unless the rounds end before its turn. */
  method ScanTree(tree: Tree, rounds: seq<seq<Change>>, busy: seq<bool>)
    returns (out: seq<Key>, done: bool, ghost recs: seq<seq<Rec>>)
    requires tree.Valid() && |busy| == |rounds| && forall j :: 0 <= j < |rounds| ==> ChangesOk(rounds[j])
    modifies tree
    ensures tree.Valid() && Evolves(recs, rounds) && IsScan(recs, out)
    ensures recs[0] == old(tree.Records()) && recs[|recs| - 1] == tree.Records()
    ensures if done then |recs| == |out| + 1 && IsCut(recs[|out|], |recs[|out|]|, Last(out), false)
            else |recs| == |out| == |rounds| + 1
    ensures forall i, j :: 0 <= i < j < |out| ==> Less(out[i], out[j])
    ensures forall k: Key :: k.At? && HasKey(old(tree.Records()), k) && NeverDeleted(rounds, k) ==>
              Answered(out, done, k)
  {
    out, done, recs := ScanLoop(tree, rounds, busy);
    ScanClimbs(recs, out);
    forall i, j | 0 <= i < j < |out| ensures Less(out[i], out[j]) {
      ClimbsAscends(recs, out, i, j);
    }
    forall k: Key | k.At? && HasKey(recs[0], k) && NeverDeleted(rounds, k) ensures Answered(out, done, k) {
      AlwaysHave(recs, rounds, k);
      ScanComplete(recs, out, k);
      if done {
        AllBehind(recs[|out|], Last(out), k);
      }
    }
  }

  /** Its loop. */
  method ScanLoop(tree: Tree, rounds: seq<seq<Change>>, busy: seq<bool>)
    returns (out: seq<Key>, done: bool, ghost recs: seq<seq<Rec>>)
    requires tree.Valid() && |busy| == |rounds| && forall j :: 0 <= j < |rounds| ==> ChangesOk(rounds[j])
    modifies tree
    ensures tree.Valid() && Evolves(recs, rounds) && IsScan(recs, out)
    ensures recs[0] == old(tree.Records()) && recs[|recs| - 1] == tree.Records()
    ensures if done then |recs| == |out| + 1 && IsCut(recs[|out|], |recs[|out|]|, Last(out), false)
            else |recs| == |out| == |rounds| + 1
  {
    var pcur := new Pcursor();
    pcur.OpenAtIndexSide(tree, true);
    LeafSorted(tree.rows, tree.root);
    StartCut(tree.rows, tree.root);
    out, done, recs := [], false, [tree.Records()];
    while true
      invariant fresh(pcur) && pcur.Between(tree, Last(out)) && !done
      invariant InScan(recs, rounds, out, tree.Records()) && recs[0] == old(tree.Records())
      decreases |rounds| - |out|
    {
      ghost var s := tree.Records();
      var ok := NextAndStore(pcur, tree, Last(out));
      if !ok {
        done := true;
        break;
      }
      ScanStep(recs, out, pcur.oldKey);
      var k := pcur.oldKey;
      if |out| == |rounds| {
        out := out + [k];
        break;
      }
      ChangeAndRestore(pcur, tree, rounds[|out|], busy[|out|]);
      LeafSorted(tree.rows, tree.root);
      ScanRound(recs, rounds, out, s, k, tree.Records());
      out := out + [k];
      recs := recs + [tree.Records()];
    }
  }

  /** A scan before a step: s are the records now. */
  ghost predicate InScan(recs: seq<seq<Rec>>, rounds: seq<seq<Change>>, out: seq<Key>, s: seq<Rec>) {
    |out| <= |rounds| && |recs| == |out| + 1 && recs[|out|] == s && Evolves(recs, rounds) && IsScan(recs, out)
  }

  lemma {:induction false} ScanRound(recs: seq<seq<Rec>>, rounds: seq<seq<Change>>, out: seq<Key>, s: seq<Rec>,
                                     k: Key, t: seq<Rec>)
    requires InScan(recs, rounds, out, s) && |out| < |rounds| && IsNextKey(s, Last(out), k)
    requires Sorted(t) && Keys(t) == KeysAfterAll(Keys(s), rounds[|out|])
    ensures InScan(recs + [t], rounds, out + [k], t)
  {
    ScanStep(recs, out, k);
    ScanMore(recs, out + [k], t);
  }

  /** One round up to the commit of its mini-transaction. */
  method NextAndStore(pcur: Pcursor, tree: Tree, ghost k: Key) returns (ok: bool)
    requires pcur.Between(tree, k)
    modifies pcur
    ensures tree.Valid()
    ensures if ok then pcur.Follows(tree) && pcur.relPos == On && IsNextKey(tree.Records(), k, pcur.oldKey)
            else IsCut(tree.Records(), |tree.Records()|, k, false)
  {
    ok := pcur.MoveToNextUserRec(tree);
    if ok {
      LeafFacts(tree.pages, tree.rows, tree.root, pcur.at);
      pcur.StorePosition(tree);
    }
  }

  /** The tree changes, and the position is restored. */
  method ChangeAndRestore(pcur: Pcursor, tree: Tree, cs: seq<Change>, busy: bool)
    requires pcur.Follows(tree) && ChangesOk(cs)
    modifies pcur, tree
    ensures pcur.Positioned(tree) && Keys(tree.Records()) == KeysAfterAll(old(Keys(tree.Records())), cs)
    ensures Restored(tree.rows, old(pcur.relPos), old(pcur.oldKey), Ahead(tree.rows[0], pcur.at, pcur.pos))
    ensures old(pcur.relPos) == AfterLastInTree ==> Ahead(tree.rows[0], pcur.at, pcur.pos) == |tree.Records()|
  {
    ApplyChanges(tree, cs);
    TracedKept(old(tree.rows[0]), old(tree.clocks), tree.rows[0], tree.clocks,
               pcur.relPos, pcur.oldKey, pcur.blockWhenStored, pcur.modifyClock);
    var same := pcur.RestorePosition(tree, busy);
  }

  lemma {:induction false} StartCut(rows: seq<Row>, root: int)
    requires Tower(rows, 0, root)
    ensures IsCut(Flat(rows[0]), 0, Min, false)
  {
    var s := Flat(rows[0]);
    forall x | 0 <= x < |s| ensures s[x].key.At? {
      assert x > 0 ==> Less(s[0].key, s[x].key);
    }
  }

  // ----- the scan that stores its position at the end of every page -----

  /** A stretch of the scan between two switches of pages: the tree that it sees, and the keys
      that it returns. */
  datatype Leg = Leg(rows: seq<Row>, keys: seq<Key>)

  ghost function Recs(leg: Leg): seq<Rec> {
    if leg.rows == [] then [] else Flat(leg.rows[0])
  }

  function KeysOf(s: seq<Rec>): (r: seq<Key>)
    ensures |r| == |s| && forall x :: 0 <= x < |s| ==> r[x] == s[x].key
  {
    seq(|s|, x requires 0 <= x < |s| => s[x].key)
  }

  /** The keys are those of a leaf page from some record to the last. */
  ghost predicate PageRest(rows: seq<Row>, keys: seq<Key>) {
    rows != [] && exists i: nat, c: nat :: OnPage(rows[0], i, c) && keys == KeysOf(rows[0][i].recs[c..])
  }

  /** One switch: from the end of the page left, with key k, to the rest of another page. */
  ghost predicate NextLeg(prev: Leg, leg: Leg) {
    (leg.keys != [] ==> PageRest(leg.rows, leg.keys)) &&
    Switched(leg.rows, Last(prev.keys), leg.keys != [], if leg.keys == [] then Last(prev.keys) else leg.keys[0])
  }

  ghost predicate FirstLeg(root: int, leg: Leg) {
    Tower(leg.rows, 0, root) && leg.rows[0] != [] && leg.keys == KeysOf(leg.rows[0][0].recs)
  }

  /** Leg follows prev, and the changes cs happened between them. A scan of an empty tree is not
      restored behind a record. */
  ghost predicate LegAfter(root: int, cs: seq<Change>, prev: Leg, leg: Leg, first: bool) {
    Tower(leg.rows, 0, root) && Keys(Recs(leg)) == KeysAfterAll(Keys(Recs(prev)), cs) &&
    if prev.keys == [] then first && leg.keys == [] else NextLeg(prev, leg)
  }

  /** The course of a scan: it returns the first page of the tree at the start, and before leg
      j + 1 the changes of round j happen. It ends with a leg that finds nothing. */
  ghost predicate Course(root: int, rounds: seq<seq<Change>>, legs: seq<Leg>) {
    0 < |legs| <= |rounds| + 1 && FirstLeg(root, legs[0]) &&
    forall j :: 0 <= j < |legs| - 1 ==> LegOk(root, rounds, legs, j)
  }

  ghost predicate LegOk(root: int, rounds: seq<seq<Change>>, legs: seq<Leg>, j: int)
    requires 0 <= j < |legs| - 1 && j < |rounds|
  {
    LegAfter(root, rounds[j], legs[j], legs[j + 1], j == 0)
  }

  function Returned(legs: seq<Leg>): seq<Key> {
    if legs == [] then [] else Returned(legs[..|legs| - 1]) + legs[|legs| - 1].keys
  }

  /** The scan has found nothing after a switch. */
  predicate AtItsEnd(legs: seq<Leg>) {
    |legs| > 1 && legs[|legs| - 1].keys == []
  }

  /** The switch passes key x over, which is in the tree and above the key left behind. */
  ghost predicate PassesOver(prev: Leg, leg: Leg, x: Key) {
    HasKey(Recs(leg), x) && Less(Last(prev.keys), x) && (leg.keys != [] ==> Less(x, leg.keys[0]))
  }

  /** A position behind a record is stored and restored between legs j and j + 1. */
  predicate IsSwitch(legs: seq<Leg>, j: int) {
    0 <= j < |legs| - 1 && legs[j].keys != []
  }

  /** The page for the key left behind holds no larger key. */
  ghost predicate Smooth(legs: seq<Leg>, j: int) {
    IsSwitch(legs, j) && PathPageBelow(legs[j + 1].rows, Last(legs[j].keys))
  }

  /** Key x is on the page for the key left behind. */
  ghost predicate OnThatPage(legs: seq<Leg>, j: int, x: Key) {
    IsSwitch(legs, j) && OnPageFor(legs[j + 1].rows, Last(legs[j].keys), x)
  }

  ghost predicate OnPageFor(rows: seq<Row>, k: Key, x: Key) {
    rows != [] && exists i: nat :: OnPath(rows, 0, i, k, false) && HasKey(rows[0][i].recs, x)
  }

  ghost predicate Passed(legs: seq<Leg>, j: int, x: Key) {
    IsSwitch(legs, j) && PassesOver(legs[j], legs[j + 1], x)
  }

  /** The clustered index scan of an index build: within a page it just steps; at the end of a
      page it stores its position after the last record, the changes of a round happen, and it
      restores the position and steps on. The keys strictly increase. A switch passes over no key
      if and only if the page for the key left behind holds no larger one. What a switch passes
      over is never returned, and a key that was there at the start and is never deleted is
      returned in its turn if and only if no switch passes it over. */
  method MergeScan(tree: Tree, rounds: seq<seq<Change>>, busy: seq<bool>)
    returns (out: seq<Key>, done: bool, ghost legs: seq<Leg>)
    requires tree.Valid() && |busy| == |rounds| && forall j :: 0 <= j < |rounds| ==> ChangesOk(rounds[j])
    modifies tree
    ensures tree.Valid() && Course(tree.root, rounds, legs) && out == Returned(legs)
    ensures legs[0].rows == old(tree.rows) && legs[|legs| - 1].rows == tree.rows
    ensures if done then AtItsEnd(legs) else |legs| == |rounds| + 1 && !AtItsEnd(legs)
    ensures forall i, j :: 0 <= i < j < |out| ==> Less(out[i], out[j])
    ensures forall j :: IsSwitch(legs, j) ==> (Smooth(legs, j) <==> !exists x :: Passed(legs, j, x))
    ensures forall j, x :: Passed(legs, j, x) ==> OnThatPage(legs, j, x) && x !in out
    ensures forall k: Key :: k.At? && HasKey(old(tree.Records()), k) && NeverDeleted(rounds, k) ==>
                (Answered(out, done, k) <==> !exists j :: Passed(legs, j, k))
  {
    out, done, legs := MergeLoop(tree, rounds, busy);
    CourseRises(tree.root, rounds, legs);
    RisingAscends(legs);
    CourseSmooth(tree.root, rounds, legs);
    CourseOwes(tree.root, rounds, legs);
  }

  /** Its loop. */
  method MergeLoop(tree: Tree, rounds: seq<seq<Change>>, busy: seq<bool>)
    returns (out: seq<Key>, done: bool, ghost legs: seq<Leg>)
    requires tree.Valid() && |busy| == |rounds| && forall j :: 0 <= j < |rounds| ==> ChangesOk(rounds[j])
    modifies tree
    ensures tree.Valid() && Course(tree.root, rounds, legs) && out == Returned(legs)
    ensures legs[0].rows == old(tree.rows) && legs[|legs| - 1].rows == tree.rows
    ensures if done then AtItsEnd(legs) else |legs| == |rounds| + 1 && !AtItsEnd(legs)
  {
    var pcur := new Pcursor();
    out := FirstPage(pcur, tree);
    done, legs := false, [Leg(tree.rows, out)];
    CourseStart(tree.root, rounds, Leg(tree.rows, out));
    var round := 0;
    while round < |rounds| && !done
      invariant 0 <= round <= |rounds| && fresh(pcur) && tree.Valid()
      invariant InCourse(tree.root, rounds, legs, round, out, done) && Spans(legs, old(tree.rows), tree.rows)
      invariant !done ==> AtLegEnd(pcur, tree, legs[round].keys)
    {
      out, done, legs := NextPage(pcur, tree, rounds, busy, round, out, legs);
      round := round + 1;
    }
  }

  /** One more leg. */
  method NextPage(pcur: Pcursor, tree: Tree, rounds: seq<seq<Change>>, busy: seq<bool>, round: nat, out: seq<Key>,
                  ghost legs: seq<Leg>) returns (out': seq<Key>, done: bool, ghost legs': seq<Leg>)
    requires round < |rounds| == |busy| && ChangesOk(rounds[round]) &&
             InCourse(tree.root, rounds, legs, round, out, false)
    requires legs[round].rows == tree.rows && AtLegEnd(pcur, tree, legs[round].keys)
    modifies pcur, tree
    ensures tree.Valid() && InCourse(tree.root, rounds, legs', round + 1, out', done)
    ensures legs'[0] == legs[0] && legs'[round + 1].rows == tree.rows
    ensures !done ==> AtLegEnd(pcur, tree, legs'[round + 1].keys)
  {
    var keys := SwitchAndRest(pcur, tree, rounds[round], busy[round], legs[round], round == 0);
    CourseMore(tree.root, rounds, legs, round, out, Leg(tree.rows, keys));
    out', done, legs' := out + keys, keys == [], legs + [Leg(tree.rows, keys)];
  }

  ghost predicate InCourse(root: int, rounds: seq<seq<Change>>, legs: seq<Leg>, round: int, out: seq<Key>, done: bool) {
    |legs| == round + 1 && Course(root, rounds, legs) && out == Returned(legs) && done == AtItsEnd(legs)
  }

  /** The first leg sees the one tree, the last leg the other. */
  ghost predicate Spans(legs: seq<Leg>, rows: seq<Row>, rows': seq<Row>) {
    legs != [] && legs[0].rows == rows && legs[|legs| - 1].rows == rows'
  }

  /** The cursor is at the end of the page with the keys of a leg. */
  ghost predicate AtLegEnd(pcur: Pcursor, tree: Tree, keys: seq<Key>)
    reads pcur, tree
  {
    AtEnd(pcur, tree, Last(keys)) && (keys == [] <==> tree.Records() == [])
  }

  /** The scan up to the end of the first page. */
  method FirstPage(pcur: Pcursor, tree: Tree) returns (keys: seq<Key>)
    requires tree.Valid()
    modifies pcur
    ensures tree.Valid() && FirstLeg(tree.root, Leg(tree.rows, keys)) && AtLegEnd(pcur, tree, keys)
  {
    pcur.OpenAtIndexSide(tree, true);
    LeafSorted(tree.rows, tree.root);
    StartCut(tree.rows, tree.root);
    keys := RestOfPage(pcur, tree, Min);
    FlatAt(tree.rows[0], 0);
  }

  /** A switch, and the scan up to the end of the page to which it leads. */
  method SwitchAndRest(pcur: Pcursor, tree: Tree, cs: seq<Change>, busy: bool, ghost prev: Leg, ghost first: bool)
    returns (keys: seq<Key>)
    requires AtLegEnd(pcur, tree, prev.keys) && ChangesOk(cs) && prev.rows == tree.rows && (prev.keys == [] ==> first)
    modifies pcur, tree
    ensures tree.Valid() && LegAfter(tree.root, cs, prev, Leg(tree.rows, keys), first)
    ensures keys != [] ==> AtLegEnd(pcur, tree, keys)
  {
    var ok := SwitchPage(pcur, tree, cs, busy, Last(prev.keys));
    keys := [];
    if ok {
      var next := pcur.KeyAt(tree);
      ghost var at := pcur.pos;
      keys := RestOfPage(pcur, tree, next);
      LegFound(tree.root, cs, prev, tree.rows, pcur.at, at, keys, first);
      keys := [next] + keys;
    }
  }

  /** The rounds of the loop up to the end of the page. */
  method RestOfPage(pcur: Pcursor, tree: Tree, ghost k: Key) returns (keys: seq<Key>)
    requires AtKey(pcur, tree, k)
    modifies pcur
    ensures tree.Valid() && pcur.at == old(pcur.at) && old(pcur.pos) + 1 <= |tree.rows[0][pcur.at].recs|
    ensures keys == KeysOf(tree.rows[0][pcur.at].recs[old(pcur.pos) + 1..])
    ensures AtEnd(pcur, tree, LastOr(k, keys))
  {
    keys := [];
    ghost var recs, last, from := tree.rows[0][pcur.at].recs, k, pcur.pos + 1;
    var ok := true;
    while ok
      invariant if ok then AtKey(pcur, tree, last) else AtEnd(pcur, tree, last)
      invariant pcur.at == old(pcur.at) && last == LastOr(k, keys)
      invariant AreKeys(recs, from, if ok then pcur.pos + 1 else |recs|, keys)
      decreases ok, |recs| - pcur.pos
    {
      ok := StepOnPage(pcur, tree, last);
      if ok {
        AreKeysMore(recs, from, pcur.pos, keys);
        last := pcur.KeyAt(tree);
        keys := keys + [pcur.KeyAt(tree)];
      }
    }
    AllKeys(recs, from, keys);
  }

  /** The cursor is before the first record of its page, or on the record with key k; the records
      up to k are behind it. */
  ghost predicate AtKey(pcur: Pcursor, tree: Tree, k: Key)
    reads pcur, tree
  {
    pcur.Between(tree, k) && pcur.pos < |tree.rows[0][pcur.at].recs| &&
    (if pcur.pos >= 0 then tree.rows[0][pcur.at].recs[pcur.pos].key == k else pcur.at == 0)
  }

  /** The cursor is at the end of a page whose last record has key k, or of an empty tree. */
  ghost predicate AtEnd(pcur: Pcursor, tree: Tree, k: Key)
    reads pcur, tree
  {
    pcur.Positioned(tree) && var recs := tree.rows[0][pcur.at].recs;
    pcur.pos == |recs| && if recs == [] then tree.Records() == [] else recs[|recs| - 1].key == k
  }

  /** move_to_next_on_page. */
  method StepOnPage(pcur: Pcursor, tree: Tree, ghost k: Key) returns (ok: bool)
    requires AtKey(pcur, tree, k)
    modifies pcur
    ensures tree.Valid() &&
            (if ok then pcur.OnUserRec(tree) && AtKey(pcur, tree, pcur.KeyAt(tree)) else AtEnd(pcur, tree, k))
    ensures ok ==> IsNextKey(tree.Records(), k, pcur.KeyAt(tree))
    ensures pcur.at == old(pcur.at) && pcur.pos == old(pcur.pos) + 1
  {
    NextFacts(tree.pages, tree.rows, tree.root, pcur.at, pcur.pos);
    LeafFacts(tree.pages, tree.rows, tree.root, pcur.at);
    pcur.MoveToNextOnPage(tree);
    ok := pcur.OnUserRec(tree);
    if ok {
      AroundRecord(tree.rows, tree.root, pcur.at, pcur.pos);
    }
  }

  /** The end of a page: the position is stored, the tree changes, the position is restored, and
      the scan goes to the next record. */
  method SwitchPage(pcur: Pcursor, tree: Tree, cs: seq<Change>, busy: bool, ghost k: Key) returns (ok: bool)
    requires AtEnd(pcur, tree, k) && ChangesOk(cs)
    modifies pcur, tree
    ensures tree.Valid() && Sorted(tree.Records()) &&
            Keys(tree.Records()) == KeysAfterAll(old(Keys(tree.Records())), cs)
    ensures ok ==> pcur.OnUserRec(tree) && AtKey(pcur, tree, pcur.KeyAt(tree))
    ensures old(tree.Records()) == [] ==> !ok
    ensures old(tree.Records()) != [] ==> Switched(tree.rows, k, ok, if ok then pcur.KeyAt(tree) else k)
  {
    ghost var was := tree.Records();
    StoreAtEnd(pcur, tree, k);
    ChangeAndRestore(pcur, tree, cs, busy);
    LeafSorted(tree.rows, tree.root);
    if was != [] {
      SwitchedAt(tree.rows, k, Ahead(tree.rows[0], pcur.at, pcur.pos));
    }
    ok := NextRecord(pcur, tree);
  }

  /** store_position at the end of a page. */
  method StoreAtEnd(pcur: Pcursor, tree: Tree, ghost k: Key)
    requires AtEnd(pcur, tree, k)
    modifies pcur
    ensures pcur.Follows(tree)
    ensures if tree.Records() == [] then pcur.relPos == AfterLastInTree else pcur.relPos == After && pcur.oldKey == k
  {
    ghost var recs := tree.rows[0][pcur.at].recs;
    FlatAt(tree.rows[0], pcur.at);
    pcur.StorePosition(tree);
  }

  /** move_to_next_user_rec, and the record it finds. */
  method NextRecord(pcur: Pcursor, tree: Tree) returns (ok: bool)
    requires pcur.Positioned(tree)
    modifies pcur
    ensures tree.Valid() && (ok <==> old(Ahead(tree.rows[0], pcur.at, pcur.pos)) < |tree.Records()|)
    ensures ok ==> pcur.OnUserRec(tree) && AtKey(pcur, tree, pcur.KeyAt(tree)) &&
                   pcur.KeyAt(tree) == tree.Records()[old(Ahead(tree.rows[0], pcur.at, pcur.pos))].key
  {
    ok := pcur.MoveToNextUserRec(tree);
    if ok {
      LeafFacts(tree.pages, tree.rows, tree.root, pcur.at);
      AroundRecord(tree.rows, tree.root, pcur.at, pcur.pos);
    }
  }

  /** What comes next after a switch: the first larger key, or nothing if there is none, just if
      the page for key k holds no larger key; otherwise the first of them is passed over, or all. */
  ghost predicate Switched(rows: seq<Row>, k: Key, ok: bool, next: Key) {
    rows != [] &&
    var s := Flat(rows[0]);
    (ok ==> HasKey(s, next) && Less(k, next)) && Resumes(rows, k, ok, next) &&
    if PathPageBelow(rows, k) then (if ok then IsNextKey(s, k, next) else IsCut(s, |s|, k, false))
    else exists x :: HasKey(s, x) && Less(k, x) && (ok ==> Less(x, next))
  }

  /** The next record is the one behind the page for key k, or the second one above k. */
  ghost predicate Resumes(rows: seq<Row>, k: Key, ok: bool, next: Key) {
    exists n: nat :: EndsOnPathPage(rows, k, n) && NextIs(Flat(rows[0]), n, ok, next)
  }

  predicate NextIs(s: seq<Rec>, n: nat, ok: bool, next: Key) {
    n <= |s| && (ok <==> n < |s|) && (ok ==> s[n].key == next)
  }

  lemma {:induction false} SwitchedAt(rows: seq<Row>, k: Key, n: int)
    requires rows != [] && Sorted(Flat(rows[0])) && Restored(rows, After, k, n)
    ensures var s := Flat(rows[0]); 0 <= n <= |s| && Switched(rows, k, n < |s|, if n < |s| then s[n].key else k)
  {
    var s := Flat(rows[0]);
    if n < |s| {
      assert s[n] in s;
    }
    assert NextIs(s, n, n < |s|, if n < |s| then s[n].key else k);
    SwitchFinds(s, k, n, PathPageBelow(rows, k));
  }

  lemma {:induction false} SwitchFinds(s: seq<Rec>, k: Key, n: nat, below: bool)
    requires Sorted(s) && n <= |s| && (forall x :: n <= x < |s| ==> Less(k, s[x].key)) &&
             (NoneSkipped(s, k, n) <==> below)
    ensures below && n < |s| ==> IsNextKey(s, k, s[n].key)
    ensures below && n == |s| ==> IsCut(s, |s|, k, false)
    ensures !below ==> exists x :: HasKey(s, x) && Less(k, x) && (n < |s| ==> Less(x, s[n].key))
  {
    if below {
      assert IsCut(s, n, k, false);
    } else {
      var x :| 0 <= x < |s| && x < n && !AtMost(s[x].key, k);
      assert s[x] in s && HasKey(s, s[x].key) && (n < |s| ==> Less(s[x].key, s[n].key));
    }
  }

  /** The keys of the records from a up to b. */
  predicate AreKeys(recs: seq<Rec>, a: nat, b: nat, keys: seq<Key>) {
    a + |keys| == b <= |recs| && forall x {:trigger keys[x]} :: 0 <= x < |keys| ==> keys[x] == recs[a + x].key
  }

  lemma {:induction false} AreKeysMore(recs: seq<Rec>, a: nat, b: nat, keys: seq<Key>)
    requires AreKeys(recs, a, b, keys) && b < |recs|
    ensures AreKeys(recs, a, b + 1, keys + [recs[b].key])
  {
  }

  lemma {:induction false} AllKeys(recs: seq<Rec>, a: nat, keys: seq<Key>)
    requires AreKeys(recs, a, |recs|, keys)
    ensures keys == KeysOf(recs[a..])
  {
  }

  lemma {:induction false} LegFound(root: int, cs: seq<Change>, prev: Leg, rows: seq<Row>, i: nat, c: nat,
                                    keys: seq<Key>, first: bool)
    requires Tower(rows, 0, root) && i < |rows[0]| && c < |rows[0][i].recs| && keys == KeysOf(rows[0][i].recs[c + 1..])
    requires Keys(Flat(rows[0])) == KeysAfterAll(Keys(Recs(prev)), cs) && prev.keys != []
    requires Switched(rows, Last(prev.keys), true, rows[0][i].recs[c].key)
    ensures LegAfter(root, cs, prev, Leg(rows, [rows[0][i].recs[c].key] + keys), first)
  {
    RestFrom(rows, i, c, keys);
  }

  lemma {:induction false} RestFrom(rows: seq<Row>, i: nat, c: nat, keys: seq<Key>)
    requires rows != [] && i < |rows[0]| && c < |rows[0][i].recs| && keys == KeysOf(rows[0][i].recs[c + 1..])
    ensures PageRest(rows, [rows[0][i].recs[c].key] + keys)
  {
    assert OnPage(rows[0], i, c) && [rows[0][i].recs[c].key] + keys == KeysOf(rows[0][i].recs[c..]);
  }

  // ----- what the course of a scan says about its keys -----

  ghost predicate Ascending(keys: seq<Key>) {
    forall i, j :: 0 <= i < j < |keys| ==> Less(keys[i], keys[j])
  }

  lemma {:induction false} AscendingConcat(a: seq<Key>, b: seq<Key>)
    requires Ascending(a) && Ascending(b) && (a != [] && b != [] ==> Less(Last(a), b[0]))
    ensures Ascending(a + b)
  {
    forall i, j | 0 <= i < j < |a + b| ensures Less((a + b)[i], (a + b)[j]) {
      if i < |a| <= j {
        assert i < |a| - 1 ==> Less(a[i], a[|a| - 1]);
        assert j > |a| ==> Less(b[0], b[j - |a|]);
      }
    }
  }

  predicate Piece(s: seq<Rec>, o: nat, keys: seq<Key>) {
    o + |keys| <= |s| && forall m {:trigger keys[m]} :: 0 <= m < |keys| ==> s[o + m].key == keys[m]
  }

  /** The rest of a page is a piece of the tree's records: it leaves out no key between its first
      and its last. */
  lemma {:induction false} RestIsPiece(rows: seq<Row>, keys: seq<Key>, x: Key)
    requires PageRest(rows, keys) && Sorted(Flat(rows[0]))
    ensures Ascending(keys)
    ensures keys != [] && HasKey(Flat(rows[0]), x) && !Less(x, keys[0]) ==> x in keys || Less(Last(keys), x)
  {
    var i: nat, c: nat :| OnPage(rows[0], i, c) && keys == KeysOf(rows[0][i].recs[c..]);
    PageIsPiece(rows[0], i, c);
    PieceOf(Flat(rows[0]), Offset(rows[0], i) + c, keys, x);
  }

  lemma {:induction false} PageIsPiece(row: Row, i: nat, c: nat)
    requires OnPage(row, i, c)
    ensures Piece(Flat(row), Offset(row, i) + c, KeysOf(row[i].recs[c..]))
  {
    FlatAt(row, i);
    var recs := row[i].recs;
    forall m | 0 <= m < |recs| - c
      ensures Offset(row, i) + c + m < |Flat(row)| && Flat(row)[Offset(row, i) + c + m] == recs[c..][m]
    {
      FlatIndex(row, i, c + m);
    }
  }

  lemma {:induction false} PieceOf(s: seq<Rec>, o: nat, keys: seq<Key>, x: Key)
    requires Sorted(s) && Piece(s, o, keys)
    ensures Ascending(keys)
    ensures keys != [] && HasKey(s, x) && !Less(x, keys[0]) ==> x in keys || Less(Last(keys), x)
  {
    forall m, n | 0 <= m < n < |keys| ensures Less(keys[m], keys[n]) {
      assert s[o + m].key == keys[m] && s[o + n].key == keys[n];
    }
    if keys != [] && HasKey(s, x) && !Less(x, keys[0]) {
      var r :| r in s && r.key == x;
      var y :| 0 <= y < |s| && s[y] == r;
      assert s[o].key == keys[0];
      if y < o + |keys| {
        assert x == keys[y - o];
      } else {
        assert Less(s[o + |keys| - 1].key, s[y].key);
      }
    }
  }

  /** The first page is such a rest, too. */
  lemma {:induction false} FirstLegKeys(root: int, leg: Leg, x: Key)
    requires FirstLeg(root, leg)
    ensures Ascending(leg.keys)
    ensures HasKey(Recs(leg), x) ==> leg.keys != [] && (x in leg.keys || Less(Last(leg.keys), x))
  {
    var row := leg.rows[0];
    assert row[0].recs[0..] == row[0].recs && OnPage(row, 0, 0);
    LeafSorted(leg.rows, root);
    RestIsPiece(leg.rows, leg.keys, x);
    if HasKey(Recs(leg), x) {
      FirstIsFirst(root, leg.rows, x);
    }
  }

  lemma {:induction false} FirstIsFirst(root: int, rows: seq<Row>, x: Key)
    requires Tower(rows, 0, root) && HasKey(Flat(rows[0]), x)
    ensures rows[0] != [] && rows[0][0].recs != [] && !Less(x, rows[0][0].recs[0].key)
  {
    var row := rows[0];
    LeafSorted(rows, root);
    assert NodeOk(row[0], |rows| == 1);
    FlatAt(row, 0);
    var r :| r in Flat(row) && r.key == x;
    var y :| 0 <= y < |Flat(row)| && Flat(row)[y] == r;
    assert row[0].recs != [] ==> Flat(row)[0] == row[0].recs[0];
  }

  /** A course without its last leg. */
  lemma {:induction false} CourseFront(root: int, rounds: seq<seq<Change>>, legs: seq<Leg>)
    requires Course(root, rounds, legs) && |legs| > 1
    ensures Course(root, rounds, legs[..|legs| - 1])
    ensures LegAfter(root, rounds[|legs| - 2], legs[|legs| - 2], legs[|legs| - 1], |legs| == 2)
  {
    var front := legs[..|legs| - 1];
    forall j | 0 <= j < |front| - 1 ensures LegOk(root, rounds, front, j) {
      assert LegOk(root, rounds, legs, j);
    }
    assert LegOk(root, rounds, legs, |legs| - 2);
  }

  lemma {:induction false} CourseStart(root: int, rounds: seq<seq<Change>>, leg: Leg)
    requires FirstLeg(root, leg)
    ensures InCourse(root, rounds, [leg], 0, leg.keys, false)
  {
    assert [leg][..0] == [] && Returned([leg]) == leg.keys;
  }

  lemma {:induction false} CourseMore(root: int, rounds: seq<seq<Change>>, legs: seq<Leg>, round: nat, out: seq<Key>,
                                      leg: Leg)
    requires InCourse(root, rounds, legs, round, out, false) && round < |rounds|
    requires LegAfter(root, rounds[round], legs[round], leg, round == 0)
    ensures InCourse(root, rounds, legs + [leg], round + 1, out + leg.keys, leg.keys == [])
  {
    var legs' := legs + [leg];
    assert legs'[..|legs|] == legs;
    forall j | 0 <= j < |legs| - 1 ensures LegOk(root, rounds, legs', j) {
      LegOkFrame(root, rounds, legs, legs', j);
    }
    assert LegOk(root, rounds, legs', round);
  }

  lemma {:induction false} LegOkFrame(root: int, rounds: seq<seq<Change>>, legs: seq<Leg>, legs': seq<Leg>, j: nat)
    requires j + 1 < |legs| <= |legs'| && j < |rounds| && legs'[j] == legs[j] && legs'[j + 1] == legs[j + 1]
    ensures LegOk(root, rounds, legs, j) <==> LegOk(root, rounds, legs', j)
  {
  }

  /** The last key returned is the last one of the last leg, unless that found nothing. */
  lemma {:induction false} LastReturned(legs: seq<Leg>)
    requires legs != [] && legs[|legs| - 1].keys != []
    ensures Returned(legs) != [] && Last(Returned(legs)) == Last(legs[|legs| - 1].keys)
  {
  }

  /** The keys of a leg that finds something. */
  lemma {:induction false} LegKeys(root: int, prev: Leg, leg: Leg, x: Key)
    requires Tower(leg.rows, 0, root) && NextLeg(prev, leg) && leg.keys != []
    ensures Ascending(leg.keys) && Less(Last(prev.keys), leg.keys[0])
    ensures HasKey(Recs(leg), x) && Less(Last(prev.keys), x) && !PassesOver(prev, leg, x) ==>
              x in leg.keys || Less(Last(leg.keys), x)
  {
    LeafSorted(leg.rows, root);
    RestIsPiece(leg.rows, leg.keys, x);
  }

  /** The keys of each leg are above those of the legs before. */
  ghost predicate Rising(legs: seq<Leg>) {
    legs != [] && Ascending(legs[0].keys) && forall j :: 0 <= j < |legs| - 1 ==> RisesAt(legs, j)
  }

  ghost predicate RisesAt(legs: seq<Leg>, j: int)
    requires 0 <= j < |legs| - 1
  {
    Ascending(legs[j + 1].keys) && (legs[j].keys == [] ==> j == 0) &&
    (legs[j + 1].keys != [] ==> legs[j].keys != [] && Less(Last(legs[j].keys), legs[j + 1].keys[0]))
  }

  lemma {:induction false} CourseRises(root: int, rounds: seq<seq<Change>>, legs: seq<Leg>)
    requires Course(root, rounds, legs)
    ensures Rising(legs)
  {
    FirstLegKeys(root, legs[0], Min);
    forall j | 0 <= j < |legs| - 1 ensures RisesAt(legs, j) {
      assert LegOk(root, rounds, legs, j);
      if legs[j + 1].keys != [] {
        LegKeys(root, legs[j], legs[j + 1], Min);
      }
    }
  }

  lemma {:induction false} RisingFront(legs: seq<Leg>)
    requires Rising(legs) && |legs| > 1
    ensures Rising(legs[..|legs| - 1]) && RisesAt(legs, |legs| - 2)
  {
    var front := legs[..|legs| - 1];
    forall j | 0 <= j < |front| - 1 ensures RisesAt(front, j) {
      assert RisesAt(legs, j);
    }
  }

  lemma {:induction false} RisingAscends(legs: seq<Leg>)
    requires Rising(legs)
    ensures Ascending(Returned(legs))
    decreases |legs|
  {
    var n := |legs| - 1;
    if n == 0 {
      assert Returned(legs) == legs[0].keys;
    } else {
      RisingFront(legs);
      RisingAscends(legs[..n]);
      if legs[n].keys != [] {
        LastReturned(legs[..n]);
        AscendingConcat(Returned(legs[..n]), legs[n].keys);
      }
    }
  }

  lemma {:induction false} CourseSmooth(root: int, rounds: seq<seq<Change>>, legs: seq<Leg>)
    requires Course(root, rounds, legs)
    ensures forall j :: IsSwitch(legs, j) ==> (Smooth(legs, j) <==> !exists x :: Passed(legs, j, x))
  {
    forall j | IsSwitch(legs, j) ensures Smooth(legs, j) <==> !exists x :: Passed(legs, j, x) {
      var prev, leg := legs[j], legs[j + 1];
      assert LegOk(root, rounds, legs, j);
      SmoothIff(root, prev, leg);
      assert forall x :: Passed(legs, j, x) <==> PassesOver(prev, leg, x);
    }
  }

  /** A switch passes over no key just if it is smooth. */
  lemma {:induction false} SmoothIff(root: int, prev: Leg, leg: Leg)
    requires Tower(leg.rows, 0, root) && NextLeg(prev, leg)
    ensures PathPageBelow(leg.rows, Last(prev.keys)) <==> !exists x :: PassesOver(prev, leg, x)
  {
    var s, k := Recs(leg), Last(prev.keys);
    LeafSorted(leg.rows, root);
    if PathPageBelow(leg.rows, k) {
      forall x ensures !PassesOver(prev, leg, x) {
        if HasKey(s, x) && Less(k, x) {
          if leg.keys == [] {
            AllBehind(s, k, x);
          } else {
            NextNotAbove(s, k, leg.keys[0], x);
          }
        }
      }
    } else {
      var x :| HasKey(s, x) && Less(k, x) && (leg.keys != [] ==> Less(x, leg.keys[0]));
      assert PassesOver(prev, leg, x);
    }
  }

  /** What a switch passes over is on the page for the key left behind. */
  lemma {:induction false} PassedOnPage(root: int, prev: Leg, leg: Leg, x: Key)
    requires Tower(leg.rows, 0, root) && NextLeg(prev, leg) && PassesOver(prev, leg, x)
    ensures OnPageFor(leg.rows, Last(prev.keys), x)
  {
    var k, row, s := Last(prev.keys), leg.rows[0], Recs(leg);
    LeafSorted(leg.rows, root);
    var n: nat :| EndsOnPathPage(leg.rows, k, n) &&
                  NextIs(s, n, leg.keys != [], if leg.keys == [] then k else leg.keys[0]);
    var i: nat :| OnPath(leg.rows, 0, i, k, false) && EndsOn(row, i, k, n);
    var y := PassedIndex(s, n, leg.keys != [], if leg.keys == [] then k else leg.keys[0], x);
    PathStarts(leg.rows, root, i, k, y);
    OnThisPage(row, i, y);
  }

  lemma {:induction false} PassedIndex(s: seq<Rec>, n: nat, ok: bool, next: Key, x: Key) returns (y: nat)
    requires Sorted(s) && NextIs(s, n, ok, next) && HasKey(s, x) && (ok ==> Less(x, next))
    ensures y < n && y < |s| && s[y].key == x
  {
    var r :| r in s && r.key == x;
    y :| 0 <= y < |s| && s[y] == r;
  }

  /** A larger key is not on a page before the one for k. */
  lemma {:induction false} PathStarts(rows: seq<Row>, root: int, i: nat, k: Key, y: nat)
    requires Tower(rows, 0, root) && OnPath(rows, 0, i, k, false) && y < |Flat(rows[0])| &&
             Less(k, Flat(rows[0])[y].key)
    ensures y >= Offset(rows[0], i)
  {
    PageSorted(rows[0], i);
    var c := CutOf(rows[0][i].recs, k);
    PathCut(rows, 0, root, 0, i, c, k, false);
  }

  lemma {:induction false} CutOf(s: seq<Rec>, k: Key) returns (c: nat)
    requires Sorted(s)
    ensures IsCut(s, c, k, false)
  {
    if s == [] || Below(s[|s| - 1].key, k, false) {
      c := |s|;
    } else {
      c := CutOf(s[..|s| - 1], k);
    }
  }

  lemma {:induction false} OnThisPage(row: Row, i: nat, y: nat)
    requires i < |row| && Offset(row, i) <= y < Offset(row, i) + |row[i].recs|
    ensures y < |Flat(row)| && HasKey(row[i].recs, Flat(row)[y].key)
  {
    FlatIndex(row, i, y - Offset(row, i));
  }

  /** A key between two legs is not returned, and the scan does not come back to it. */
  lemma {:induction false} PassedBehind(legs: seq<Leg>, j: int, x: Key)
    requires Rising(legs) && IsSwitch(legs, j) && Less(Last(legs[j].keys), x)
    requires legs[j + 1].keys != [] ==> Less(x, legs[j + 1].keys[0])
    ensures x !in Returned(legs)
    ensures AtItsEnd(legs) || Less(x, Last(Returned(legs)))
    decreases |legs|
  {
    var n := |legs| - 1;
    var leg, front := legs[n], legs[..n];
    RisingFront(legs);
    RisingAscends(legs);
    RisingAscends(front);
    if j == n - 1 {
      LastReturned(front);
      NotAbove(Returned(front), x);
    } else {
      PassedBehind(front, j, x);
    }
    if leg.keys != [] {
      LastReturned(legs);
      LaterAreAbove(Returned(front), leg.keys, x);
    }
  }

  /** Ascending keys contain no key above their last one. */
  lemma {:induction false} NotAbove(out: seq<Key>, x: Key)
    requires Ascending(out) && Less(Last(out), x)
    ensures x !in out
  {
    forall i | 0 <= i < |out| ensures out[i] != x {
      assert i < |out| - 1 ==> Less(out[i], out[|out| - 1]);
    }
  }

  lemma {:induction false} LaterAreAbove(out: seq<Key>, keys: seq<Key>, x: Key)
    requires Ascending(out + keys) && keys != []
    requires Less(x, keys[0]) || (out != [] && Less(x, Last(out)))
    ensures x !in keys && Less(x, Last(keys))
  {
    var all := out + keys;
    assert keys[0] == all[|out|] && (out != [] ==> Last(out) == all[|out| - 1]);
    forall i | 0 <= i < |keys| ensures Less(x, keys[i]) {
      assert keys[i] == all[|out| + i];
    }
  }

  /** A key that is there at the start and never deleted is there in every leg. */
  lemma {:induction false} StaysInCourse(root: int, rounds: seq<seq<Change>>, legs: seq<Leg>, k: Key)
    requires Course(root, rounds, legs) && k.At? && HasKey(Recs(legs[0]), k) && NeverDeleted(rounds, k)
    ensures HasKey(Recs(legs[|legs| - 1]), k)
    decreases |legs|
  {
    var n := |legs| - 1;
    if n > 0 {
      CourseFront(root, rounds, legs);
      StaysInCourse(root, rounds, legs[..n], k);
      HasKeyIsIn(Recs(legs[n - 1]), k);
      HasKeyIsIn(Recs(legs[n]), k);
      assert NotDeleted(rounds[n - 1], k);
      StaysIn(Keys(Recs(legs[n - 1])), rounds[n - 1], k);
    }
  }

  /** A key that stays and is not passed over is returned, or is still ahead. */
  lemma {:induction false} NotPassed(root: int, rounds: seq<seq<Change>>, legs: seq<Leg>, k: Key)
    requires Course(root, rounds, legs) && k.At? && HasKey(Recs(legs[0]), k) && NeverDeleted(rounds, k)
    requires forall j :: !Passed(legs, j, k)
    ensures Answered(Returned(legs), AtItsEnd(legs), k)
    decreases |legs|
  {
    var n := |legs| - 1;
    if n == 0 {
      FirstLegKeys(root, legs[0], k);
      assert Returned(legs) == legs[0].keys;
    } else {
      FrontIsCourse(root, rounds, legs);
      NotPassedFront(legs, legs[..n], k);
      NotPassed(root, rounds, legs[..n], k);
      assert !Passed(legs, n - 1, k);
      NotPassedOnce(root, rounds, legs, k);
    }
  }

  lemma {:induction false} FrontIsCourse(root: int, rounds: seq<seq<Change>>, legs: seq<Leg>)
    requires Course(root, rounds, legs) && |legs| > 1
    ensures Course(root, rounds, legs[..|legs| - 1])
  {
    CourseFront(root, rounds, legs);
  }

  lemma {:induction false} NotPassedOnce(root: int, rounds: seq<seq<Change>>, legs: seq<Leg>, k: Key)
    requires Course(root, rounds, legs) && k.At? && HasKey(Recs(legs[0]), k) && NeverDeleted(rounds, k)
    requires |legs| > 1 && !Passed(legs, |legs| - 2, k)
    requires Answered(Returned(legs[..|legs| - 1]), AtItsEnd(legs[..|legs| - 1]), k)
    ensures Answered(Returned(legs), AtItsEnd(legs), k)
  {
    var n := |legs| - 1;
    StaysInCourse(root, rounds, legs, k);
    FirstLegKeys(root, legs[0], k);
    CourseFront(root, rounds, legs);
    ReturnedOrAhead(root, rounds[n - 1], legs[..n], legs[n], n == 1, k);
  }

  lemma {:induction false} NotPassedFront(legs: seq<Leg>, front: seq<Leg>, k: Key)
    requires front <= legs && forall j :: !Passed(legs, j, k)
    ensures forall j :: !Passed(front, j, k)
  {
    forall j ensures !Passed(front, j, k) {
      assert !Passed(legs, j, k);
    }
  }

  /** One more leg, which does not pass the key over. */
  lemma {:induction false} ReturnedOrAhead(root: int, cs: seq<Change>, front: seq<Leg>, leg: Leg, first: bool, k: Key)
    requires front != [] && LegAfter(root, cs, front[|front| - 1], leg, first)
    requires Answered(Returned(front), false, k) && (front[|front| - 1].keys == [] ==> k in Returned(front))
    requires HasKey(Recs(leg), k)
    requires front[|front| - 1].keys != [] ==> !PassesOver(front[|front| - 1], leg, k)
    ensures Answered(Returned(front) + leg.keys, leg.keys == [], k)
  {
    var prev := front[|front| - 1];
    if k !in Returned(front) {
      LastReturned(front);
      if leg.keys != [] {
        LegKeys(root, prev, leg, k);
      }
    }
  }

  /** What a switch passes over is not returned, and what a scan owes is met for just the keys
      that no switch passes over. */
  lemma {:induction false} CourseOwes(root: int, rounds: seq<seq<Change>>, legs: seq<Leg>)
    requires Course(root, rounds, legs)
    ensures forall j, x :: Passed(legs, j, x) ==> OnThatPage(legs, j, x) && x !in Returned(legs)
    ensures forall k: Key :: k.At? && HasKey(Recs(legs[0]), k) && NeverDeleted(rounds, k) ==>
                (Answered(Returned(legs), AtItsEnd(legs), k) <==> !exists j :: Passed(legs, j, k))
  {
    CourseRises(root, rounds, legs);
    forall j, x | Passed(legs, j, x)
      ensures OnThatPage(legs, j, x) && x !in Returned(legs) && !Answered(Returned(legs), AtItsEnd(legs), x)
    {
      assert LegOk(root, rounds, legs, j);
      PassedOnPage(root, legs[j], legs[j + 1], x);
      PassedBehind(legs, j, x);
    }
    forall k: Key | k.At? && HasKey(Recs(legs[0]), k) && NeverDeleted(rounds, k) && !exists j :: Passed(legs, j, k)
      ensures Answered(Returned(legs), AtItsEnd(legs), k)
    {
      NotPassed(root, rounds, legs, k);
    }
  }

  /** Such a scan can miss a key: with keys 1 and 2 on two pages, key 1 is deleted, together with
      its page, while the scan is at the end of that page. Key 2 was there all along. */
  function Missing(): seq<Leg> {
    [Leg(TwoLeaves(), [At(1)]), Leg(OneLeaf(), [])]
  }

  lemma {:induction false} ScanMayMiss()
    ensures Course(3, [[DeleteKey(1)]], Missing()) && AtItsEnd(Missing())
    ensures HasKey(Recs(Missing()[0]), At(2)) && NeverDeleted([[DeleteKey(1)]], At(2))
    ensures At(2) !in Returned(Missing())
  {
    MissingStart();
    MissingLeg();
    KeyTwo();
    NotTwo();
    TwoLegs(3, [DeleteKey(1)], Missing()[0], Missing()[1]);
  }

  lemma {:induction false} NotTwo()
    ensures NeverDeleted([[DeleteKey(1)]], At(2))
  {
    forall j | 0 <= j < |[[DeleteKey(1)]]| ensures NotDeleted([[DeleteKey(1)]][j], At(2)) {
      assert DeleteKey(2) !in [DeleteKey(1)];
    }
  }

  lemma {:induction false} TwoLegs(root: int, cs: seq<Change>, a: Leg, b: Leg)
    requires FirstLeg(root, a) && LegAfter(root, cs, a, b, true)
    ensures Course(root, [cs], [a, b]) && Returned([a, b]) == a.keys + b.keys
  {
    CourseStart(root, [cs], a);
    CourseMore(root, [cs], [a], 0, a.keys, b);
    assert [a] + [b] == [a, b];
  }

  lemma {:induction false} MissingStart()
    ensures FirstLeg(3, Missing()[0])
  {
    TwoLeavesTower();
    assert Missing()[0].keys == KeysOf(TwoLeaves()[0][0].recs);
  }

  lemma {:induction false} MissingLeg()
    ensures LegAfter(3, [DeleteKey(1)], Missing()[0], Missing()[1], true)
  {
    OneLeafTower();
    MissingKeys();
    MissingSwitch();
  }

  lemma {:induction false} MissingKeys()
    ensures Keys(Recs(Missing()[1])) == KeysAfterAll(Keys(Recs(Missing()[0])), [DeleteKey(1)])
  {
    TwoLeavesTower();
    OneLeafTower();
    var ks := Keys(Flat(TwoLeaves()[0]));
    assert Flat(TwoLeaves()[0])[0].key == At(1) && Flat(TwoLeaves()[0])[1].key == At(2);
    assert ks == {At(1), At(2)};
    var cs := [DeleteKey(1)];
    assert cs[..0] == [] && KeysAfterAll(ks, cs[..0]) == ks;
    assert Keys(Flat(OneLeaf()[0])) == {At(2)};
  }

  lemma {:induction false} MissingSwitch()
    ensures NextLeg(Missing()[0], Missing()[1])
  {
    OneLeafTower();
    KeyTwo();
    assert OneLeaf()[0][0].recs == [Rec(At(2), 0, 10, 10)];
    assert EndsOn(OneLeaf()[0], 0, At(1), 1);
    assert NextIs(Flat(OneLeaf()[0]), 1, false, At(1));
  }
}
