/** Moving long fields out of a wide tuple, and back: data/data0data.cc. */
module BigRec {
  import BtreePage
  import opened Common

  const REC_N_EXTRA_BYTES := 6
  const REC_1BYTE_OFFS_LIMIT := 127
  const REF_SIZE := 20              // BTR_EXTERN_FIELD_REF_SIZE
  const LOCAL_PREFIX := 768         // DICT_MAX_INDEX_COL_LEN
  const LOCAL_LEN := REF_SIZE + LOCAL_PREFIX

  newtype Byte = x: int | 0 <= x < 256

  /** A field of a tuple: its bytes, or SQL null with the space that takes; and the mark that it
      is stored externally. */
  datatype Field = Field(data: Option<seq<Byte>>, nullSize: nat, ext: bool)

  /** What the index says about a field: fixed length, BLOB type, maximum column length. */
  datatype FieldDef = FieldDef(fixedLen: nat, blob: bool, colLen: nat)

  datatype IndexDef = IndexDef(clustered: bool, fields: seq<FieldDef>, nUnique: nat)

  /** An element of the big record vector: `len` bytes from `offset` on in the field's old
      buffer. */
  datatype BigField = BigField(no: nat, buffer: seq<Byte>, offset: nat, len: nat)

  function FieldSize(f: Field): nat {
    if f.data.Some? then |f.data.value| else f.nullSize
  }

  function DataSize(s: seq<Field>): nat {
    if s == [] then 0 else DataSize(s[..|s| - 1]) + FieldSize(s[|s| - 1])
  }

  /** rec_get_converted_size. */
  function ConvertedSize(s: seq<Field>, nExt: nat): nat {
    DataSize(s) + REC_N_EXTRA_BYTES + if nExt == 0 && DataSize(s) <= REC_1BYTE_OFFS_LIMIT then |s| else 2 * |s|
  }

  /** page_rec_needs_ext. */
  predicate NeedsExt(size: nat) {
    size >= BtreePage.FREE_SPACE / 2
  }

  /** A field that may be moved out: of variable length, longer than what would stay, and with
      room for the mark of external storage. */
  predicate Eligible(index: IndexDef, s: seq<Field>, i: int) {
    index.nUnique <= i < |s| <= |index.fields| &&
    index.fields[i].fixedLen == 0 && s[i].data.Some? && !s[i].ext && |s[i].data.value| > LOCAL_LEN &&
    (index.fields[i].blob || index.fields[i].colLen >= 256)
  }

  function Savings(f: Field): int {
    FieldSize(f) - LOCAL_LEN
  }

  /** What stays in the tuple: a prefix and a zero reference. */
  function Shortened(f: Field): Field
    requires f.data.Some? && |f.data.value| > LOCAL_LEN
  {
    Field(Some(f.data.value[..LOCAL_PREFIX] + seq(REF_SIZE, i => 0)), f.nullSize, true)
  }

  /** What goes to the vector. */
  function MovedPart(f: Field, no: nat): BigField
    requires f.data.Some? && |f.data.value| > LOCAL_LEN
  {
    BigField(no, f.data.value, LOCAL_PREFIX, |f.data.value| - LOCAL_PREFIX)
  }

  ghost predicate InVector(big: seq<BigField>, i: int) {
    exists x :: 0 <= x < |big| && big[x].no == i
  }

  /** `now` is the tuple `was` with the fields of the vector moved out. */
  ghost predicate Moved(index: IndexDef, was: seq<Field>, now: seq<Field>, big: seq<BigField>) {
    && |now| == |was|
    && (forall x :: 0 <= x < |big| ==>
        Eligible(index, was, big[x].no) && big[x] == MovedPart(was[big[x].no], big[x].no))
    && (forall x, y :: 0 <= x < y < |big| ==> big[x].no != big[y].no)
    && (forall i :: 0 <= i < |was| ==>
        now[i] == if InVector(big, i) && Eligible(index, was, i) then Shortened(was[i]) else was[i])
  }

  /** The tuple with every eligible field moved out. */
  function MoveAll(index: IndexDef, s: seq<Field>): (t: seq<Field>)
    ensures |t| == |s|
  {
    seq(|s|, i requires 0 <= i < |s| => if Eligible(index, s, i) then Shortened(s[i]) else s[i])
  }

  function EligibleSet(index: IndexDef, s: seq<Field>): set<int> {
    set i | 0 <= i < |s| && Eligible(index, s, i)
  }

  /** The search for the field with the biggest savings; the first one of several. */
  method FindLongest(index: IndexDef, s: seq<Field>) returns (best: Option<nat>)
    requires |s| <= |index.fields| && index.nUnique <= |s|
    ensures best == None <==> forall i :: 0 <= i < |s| ==> !Eligible(index, s, i)
    ensures best.Some? ==> Eligible(index, s, best.value) &&
                           (forall i :: 0 <= i < |s| && Eligible(index, s, i) ==>
                            Savings(s[i]) <= Savings(s[best.value])) &&
                           (forall i :: 0 <= i < best.value && Eligible(index, s, i) ==>
                            Savings(s[i]) < Savings(s[best.value]))
  {
    var longest := 0;
    best := None;
    for i := index.nUnique to |s|
      invariant best.Some? ==> best.value < i && Eligible(index, s, best.value)
      invariant longest == (if best.Some? then Savings(s[best.value]) else 0)
      invariant best == None ==> forall j :: 0 <= j < i ==> !Eligible(index, s, j)
      invariant best.Some? ==> forall j :: 0 <= j < i && Eligible(index, s, j) ==>
                  Savings(s[j]) <= longest && (j < best.value ==> Savings(s[j]) < longest)
    {
      var f, d := s[i], index.fields[i];
      if d.fixedLen != 0 || f.data.None? || f.ext || |f.data.value| <= LOCAL_LEN || |f.data.value| <= REF_SIZE * 2 {
        continue;
      }
      var savings := |f.data.value| - LOCAL_LEN;
      if longest >= savings || (!d.blob && d.colLen < 256) {
        continue;
      }
      best, longest := Some(i), savings;
    }
  }

  /** Element x of the vector is the field that saves the most of those not moved before it, the
      first one of several. */
  ghost predicate IsLongest(index: IndexDef, was: seq<Field>, big: seq<BigField>, x: nat) {
    x < |big| && 0 <= big[x].no < |was| &&
    forall i :: 0 <= i < |was| && Eligible(index, was, i) && i !in Nos(big[..x]) ==>
        Savings(was[i]) <= Savings(was[big[x].no]) && (i < big[x].no ==> Savings(was[i]) < Savings(was[big[x].no]))
  }

  /** The fields of the vector were chosen one by one, each time the longest that was left. */
  ghost predicate Greedy(index: IndexDef, was: seq<Field>, big: seq<BigField>) {
    forall x :: 0 <= x < |big| ==> IsLongest(index, was, big, x)
  }

  /** dtuple_convert_big_rec: fields are moved out, each time the longest one that is left, until
      the record is small enough for a page. This fails if and only if it would be too big even with all eligible
      fields moved out; the tuple is then left with all of them shortened. If it succeeds, no way
      of moving out fewer fields would have made the record small enough. */
  method ConvertBigRec(index: IndexDef, entry: array<Field>, nExtBefore: nat)
    returns (big: Option<seq<BigField>>, nExt: nat)
    requires entry.Length <= |index.fields| && index.nUnique <= entry.Length
    modifies entry
    ensures !index.clustered ==> big == None && entry[..] == old(entry[..]) && nExt == nExtBefore
    ensures index.clustered ==> (big == None <==> TooBig(index, old(entry[..]), nExtBefore))
    ensures big.Some? ==>
              Moved(index, old(entry[..]), entry[..], big.value) && nExt == nExtBefore + |big.value| &&
                !NeedsExt(ConvertedSize(entry[..], nExt))
    ensures index.clustered && big == None ==>
              entry[..] == MoveAll(index, old(entry[..])) && nExt == nExtBefore + |EligibleSet(index, old(entry[..]))|
    ensures index.clustered && big == None ==>
              (entry[..] == old(entry[..]) <==> EligibleSet(index, old(entry[..])) == {})
    ensures big.Some? ==> AtLeast(index, old(entry[..]), nExtBefore, |big.value|) &&
                          Greedy(index, old(entry[..]), big.value)
  {
    nExt := nExtBefore;
    if !index.clustered {
      return None, nExt;
    }
    ghost var was := entry[..];
    var vector: seq<BigField> := [];
    NothingMoved(index, was);
    ghost var m := DataSize(was);
    NoneMovedYet(index, was);
    while NeedsExt(ConvertedSize(entry[..], nExt))
      invariant Moved(index, was, entry[..], vector) && nExt == nExtBefore + |vector|
      invariant LongestFirst(index, was, vector, m) && AtLeast(index, was, nExtBefore, |vector|)
      invariant Greedy(index, was, vector)
      decreases |EligibleSet(index, entry[..])|
    {
      var best := FindLongest(index, entry[..]);
      if best == None {
        AllMoved(index, was, entry[..], vector, nExtBefore);
        UnchangedIff(index, was);
        return None, nExt;
      }
      ghost var before := entry[..];
      MoveOne(index, was, before, vector, best.value);
      OneMoreNeeded(index, was, before, vector, nExtBefore, m);
      NextLongest(index, was, before, vector, m, best.value);
      NextGreedy(index, was, before, vector, best.value);
      m := Savings(entry[best.value]);
      FewerEligible(index, before, best.value);
      var f := entry[best.value];
      vector := vector + [MovedPart(f, best.value)];
      entry[best.value] := Shortened(f);
      assert entry[..] == before[best.value := Shortened(f)];
      nExt := nExt + 1;
    }
    EnoughMoved(index, was, entry[..], vector, nExtBefore);
    return Some(vector), nExt;
  }

  /** Even the smallest form of the tuple is too big for a page. */
  predicate TooBig(index: IndexDef, s: seq<Field>, nExt: nat) {
    NeedsExt(ConvertedSize(MoveAll(index, s), nExt + |EligibleSet(index, s)|))
  }

  /** dtuple_convert_back_big_rec: the fields get their old buffers back. */
  method ConvertBackBigRec(entry: array<Field>, big: seq<BigField>, ghost index: IndexDef, ghost was: seq<Field>)
    requires Moved(index, was, entry[..], big)
    modifies entry
    ensures entry[..] == was
  {
    var x := 0;
    while x < |big|
      invariant 0 <= x <= |big| && Moved(index, was, entry[..], big[x..])
    {
      var b := big[x];
      assert b == big[x..][0];
      RestoreOne(index, was, entry[..], big[x..]);
      var f := entry[b.no];
      var localLen := |f.data.value| - REF_SIZE;
      ghost var before := entry[..];
      entry[b.no] := Field(Some(b.buffer[b.offset - localLen..b.offset + b.len]), f.nullSize, false);
      assert entry[..] == before[b.no := entry[b.no]];
      assert big[x..][1..] == big[x + 1..];
      x := x + 1;
    }
    assert big[x..] == [];
    NothingLeft(index, was, entry[..]);
  }

  // ----- the number of fields moved out is the smallest possible -----

  /** With fewer than n fields moved out the record is too big. */
  ghost predicate AtLeast(index: IndexDef, was: seq<Field>, nExt: nat, n: nat) {
    forall now, big :: Moved(index, was, now, big) && |big| < n ==> NeedsExt(ConvertedSize(now, nExt + |big|))
  }

  /** Moving out a field of the vector saves at least m, any other one at most m. */
  ghost predicate LongestFirst(index: IndexDef, was: seq<Field>, big: seq<BigField>, m: int) {
    m >= 0 &&
    forall i :: 0 <= i < |was| && Eligible(index, was, i) ==>
        if i in Nos(big) then Savings(was[i]) >= m else Savings(was[i]) <= m
  }

  function Nos(big: seq<BigField>): set<int> {
    set x | 0 <= x < |big| :: big[x].no
  }

  lemma {:induction false} NosIsVector(big: seq<BigField>, i: int)
    ensures i in Nos(big) <==> InVector(big, i)
  {
  }

  /** What moving out the fields in S saves among the first n fields, and how many these are. */
  function Gain(was: seq<Field>, S: set<int>, n: nat): int
    requires n <= |was|
  {
    if n == 0 then 0 else Gain(was, S, n - 1) + if n - 1 in S then Savings(was[n - 1]) else 0
  }

  function Count(S: set<int>, n: nat): nat {
    if n == 0 then 0 else Count(S, n - 1) + if n - 1 in S then 1 else 0
  }

  lemma {:induction false} CountIsSize(S: set<int>, n: nat)
    requires forall i :: i in S ==> 0 <= i < n
    ensures Count(S, n) == |S|
  {
    if n == 0 {
      assert forall i :: i !in S;
      assert S == {};
    } else {
      var T := S - {n - 1};
      CountIsSize(T, n - 1);
      SameCount(S, T, n - 1);
    }
  }

  lemma {:induction false} SameCount(S: set<int>, T: set<int>, n: nat)
    requires forall i :: 0 <= i < n ==> (i in S <==> i in T)
    ensures Count(S, n) == Count(T, n)
  {
    if n > 0 {
      SameCount(S, T, n - 1);
    }
  }

  lemma {:induction false} VectorSize(big: seq<BigField>)
    requires forall x, y :: 0 <= x < y < |big| ==> big[x].no != big[y].no
    ensures |Nos(big)| == |big|
  {
    if big != [] {
      var front, last := big[..|big| - 1], big[|big| - 1];
      VectorSize(front);
      assert forall x :: 0 <= x < |front| ==> front[x] == big[x];
      assert Nos(big) == Nos(front) + {last.no};
      assert last.no !in Nos(front);
    }
  }

  /** The size of the data is what it was less what was saved. */
  lemma {:induction false} SizeAfter(index: IndexDef, was: seq<Field>, now: seq<Field>, big: seq<BigField>, n: nat)
    requires Moved(index, was, now, big) && n <= |was|
    ensures DataSize(now[..n]) == DataSize(was[..n]) - Gain(was, Nos(big), n)
  {
    if n > 0 {
      SizeAfter(index, was, now, big, n - 1);
      assert now[..n][..n - 1] == now[..n - 1] && was[..n][..n - 1] == was[..n - 1];
      NosIsVector(big, n - 1);
      if n - 1 in Nos(big) {
        var x :| 0 <= x < |big| && big[x].no == n - 1;
        assert Eligible(index, was, big[x].no);
      }
    }
  }

  /** Exchanging fields of a vector with the longest ones for others saves nothing. */
  lemma {:induction false} LongestGain(index: IndexDef, was: seq<Field>, T: set<int>, B: set<int>, m: int, n: nat)
    requires n <= |was|
    requires forall i :: 0 <= i < n && i in T ==> Savings(was[i]) >= m
    requires forall i :: 0 <= i < n && i in B && i !in T ==> Savings(was[i]) <= m
    ensures Gain(was, B, n) - m * Count(B, n) <= Gain(was, T, n) - m * Count(T, n)
  {
    if n > 0 {
      LongestGain(index, was, T, B, m, n - 1);
      var b, t := if n - 1 in B then 1 else 0, if n - 1 in T then 1 else 0;
      assert m * (Count(B, n - 1) + b) == m * Count(B, n - 1) + m * b;
      assert m * (Count(T, n - 1) + t) == m * Count(T, n - 1) + m * t;
    }
  }

  lemma {:induction false} FewerSaveLess(index: IndexDef, was: seq<Field>, now: seq<Field>, big: seq<BigField>, m: int,
                                         now2: seq<Field>, big2: seq<BigField>)
    requires Moved(index, was, now, big) && LongestFirst(index, was, big, m) && Moved(index, was, now2, big2) &&
             |big2| <= |big|
    ensures DataSize(now2) >= DataSize(now)
  {
    NosEligible(index, was, now, big);
    NosEligible(index, was, now2, big2);
    LongestGain(index, was, Nos(big), Nos(big2), m, |was|);
    Products(m, |big2|, |big|);
    SizeAfter(index, was, now, big, |was|);
    SizeAfter(index, was, now2, big2, |was|);
    assert now[..|was|] == now && now2[..|was|] == now2;
  }

  lemma {:induction false} Products(m: int, a: int, b: int)
    requires m >= 0 && a <= b
    ensures m * a <= m * b
  {
  }

  lemma {:induction false} NosEligible(index: IndexDef, was: seq<Field>, now: seq<Field>, big: seq<BigField>)
    requires Moved(index, was, now, big)
    ensures forall i :: i in Nos(big) ==> 0 <= i < |was| && Eligible(index, was, i)
    ensures Count(Nos(big), |was|) == |big|
  {
    forall i | i in Nos(big) ensures 0 <= i < |was| && Eligible(index, was, i) {
      var x :| 0 <= x < |big| && big[x].no == i;
    }
    VectorSize(big);
    CountIsSize(Nos(big), |was|);
  }

  /** While the record is too big with the longest fields moved out, one more must go. */
  lemma {:induction false} OneMoreNeeded(index: IndexDef, was: seq<Field>, now: seq<Field>, big: seq<BigField>,
                                         nExt: nat, m: int)
    requires Moved(index, was, now, big) && LongestFirst(index, was, big, m) &&
             NeedsExt(ConvertedSize(now, nExt + |big|))
    ensures AtLeast(index, was, nExt, |big| + 1)
  {
    forall now2, big2 | Moved(index, was, now2, big2) && |big2| < |big| + 1
      ensures NeedsExt(ConvertedSize(now2, nExt + |big2|))
    {
      FewerSaveLess(index, was, now, big, m, now2, big2);
      if big2 == [] {
        NothingLeft(index, was, now2);
        if big != [] {
          assert Eligible(index, was, big[0].no);
          SizeOfOne(was, big[0].no);
        }
      }
    }
  }

  lemma {:induction false} NoneMovedYet(index: IndexDef, was: seq<Field>)
    ensures LongestFirst(index, was, [], DataSize(was))
  {
    forall i | 0 <= i < |was| ensures FieldSize(was[i]) <= DataSize(was) && i !in Nos([]) {
      SizeOfOne(was, i);
    }
  }

  lemma {:induction false} NextLongest(index: IndexDef, was: seq<Field>, now: seq<Field>, big: seq<BigField>, m: int,
                                       i: nat)
    requires Moved(index, was, now, big) && LongestFirst(index, was, big, m) && Eligible(index, now, i)
    requires forall j :: 0 <= j < |now| && Eligible(index, now, j) ==> Savings(now[j]) <= Savings(now[i])
    ensures LongestFirst(index, was, big + [MovedPart(now[i], i)], Savings(now[i]))
  {
    var big' := big + [MovedPart(now[i], i)];
    StillThere(index, was, now, big, i);
    NosIsVector(big, i);
    forall j | 0 <= j < |was| && Eligible(index, was, j)
      ensures if j in Nos(big') then Savings(was[j]) >= Savings(now[i]) else Savings(was[j]) <= Savings(now[i])
    {
      StillThere(index, was, now, big, j);
      NosIsVector(big, j);
      assert j in Nos(big') <==> j in Nos(big) || j == i by {
        assert big'[|big|].no == i;
        assert forall x :: 0 <= x < |big| ==> big'[x] == big[x];
      }
    }
  }

  /** The field that FindLongest finds is the next one. */
  lemma {:induction false} NextGreedy(index: IndexDef, was: seq<Field>, now: seq<Field>, big: seq<BigField>, b: nat)
    requires Moved(index, was, now, big) && Greedy(index, was, big) && Eligible(index, now, b)
    requires forall j :: 0 <= j < |now| && Eligible(index, now, j) ==>
                 Savings(now[j]) <= Savings(now[b]) && (j < b ==> Savings(now[j]) < Savings(now[b]))
    ensures Greedy(index, was, big + [MovedPart(now[b], b)])
  {
    var big' := big + [MovedPart(now[b], b)];
    StillThere(index, was, now, big, b);
    forall x | 0 <= x < |big'| ensures IsLongest(index, was, big', x) {
      if x < |big| {
        assert IsLongest(index, was, big, x) && big'[..x] == big[..x] && big'[x] == big[x];
      } else {
        assert big'[..x] == big;
        LeftIsLonger(index, was, now, big, b);
      }
    }
  }

  lemma {:induction false} LeftIsLonger(index: IndexDef, was: seq<Field>, now: seq<Field>, big: seq<BigField>, b: nat)
    requires Moved(index, was, now, big) && b < |now| && now[b] == was[b]
    requires forall j :: 0 <= j < |now| && Eligible(index, now, j) ==>
                 Savings(now[j]) <= Savings(now[b]) && (j < b ==> Savings(now[j]) < Savings(now[b]))
    ensures forall i :: 0 <= i < |was| && Eligible(index, was, i) && i !in Nos(big) ==>
                Savings(was[i]) <= Savings(was[b]) && (i < b ==> Savings(was[i]) < Savings(was[b]))
  {
    forall i | 0 <= i < |was| && Eligible(index, was, i) && i !in Nos(big)
      ensures Eligible(index, now, i) && now[i] == was[i]
    {
      StillThere(index, was, now, big, i);
      NosIsVector(big, i);
    }
  }

  /** So the savings of the fields in the vector do not increase, and none that was left saves more. */
  lemma {:induction false} SavingsDescend(index: IndexDef, was: seq<Field>, now: seq<Field>, big: seq<BigField>,
                                          x: nat, i: nat)
    requires Moved(index, was, now, big) && Greedy(index, was, big) && x < |big| && i < |was| && Eligible(index, was, i)
    requires forall y :: 0 <= y < x ==> big[y].no != i
    ensures Savings(was[i]) <= Savings(was[big[x].no])
  {
    assert IsLongest(index, was, big, x);
  }

  // ----- lemmas -----

  lemma {:induction false} NothingMoved(index: IndexDef, was: seq<Field>)
    ensures Moved(index, was, was, [])
  {
  }

  lemma {:induction false} NothingLeft(index: IndexDef, was: seq<Field>, now: seq<Field>)
    requires Moved(index, was, now, [])
    ensures now == was
  {
    forall i | 0 <= i < |was| ensures now[i] == was[i] {
      assert !InVector([], i);
    }
  }

  /** A field that is still eligible has not been moved yet. */
  lemma {:induction false} StillThere(index: IndexDef, was: seq<Field>, now: seq<Field>, big: seq<BigField>, i: nat)
    requires Moved(index, was, now, big) && i < |was|
    ensures Eligible(index, now, i) <==> Eligible(index, was, i) && !InVector(big, i)
    ensures Eligible(index, now, i) ==> now[i] == was[i]
  {
  }

  lemma {:induction false} MoveOne(index: IndexDef, was: seq<Field>, now: seq<Field>, big: seq<BigField>, i: nat)
    requires Moved(index, was, now, big) && Eligible(index, now, i)
    ensures Moved(index, was, now[i := Shortened(now[i])], big + [MovedPart(now[i], i)])
  {
    StillThere(index, was, now, big, i);
    var big' := big + [MovedPart(now[i], i)];
    forall j | 0 <= j < |was| ensures InVector(big', j) <==> InVector(big, j) || j == i {
      if InVector(big, j) {
        var x :| 0 <= x < |big| && big[x].no == j;
        assert big'[x].no == j;
      }
      assert big'[|big|].no == i;
    }
    forall x | 0 <= x < |big| ensures big[x].no != i {
      assert InVector(big, big[x].no);
    }
  }

  lemma {:induction false} FewerEligible(index: IndexDef, s: seq<Field>, i: nat)
    requires Eligible(index, s, i)
    ensures |EligibleSet(index, s[i := Shortened(s[i])])| < |EligibleSet(index, s)|
  {
    var t := s[i := Shortened(s[i])];
    assert EligibleSet(index, t) == EligibleSet(index, s) - {i};
    assert i in EligibleSet(index, s);
  }

  lemma {:induction false} VectorEmpty(index: IndexDef, was: seq<Field>, now: seq<Field>, big: seq<BigField>)
    requires Moved(index, was, now, big)
    ensures big != [] ==> |EligibleSet(index, was)| > 0
  {
    if big != [] {
      assert Eligible(index, was, big[0].no);
      assert big[0].no in EligibleSet(index, was);
    }
  }

  lemma {:induction false} AllMoved(index: IndexDef, was: seq<Field>, now: seq<Field>, big: seq<BigField>, nExt: nat)
    requires Moved(index, was, now, big) && NeedsExt(ConvertedSize(now, nExt + |big|))
    requires forall i :: 0 <= i < |now| ==> !Eligible(index, now, i)
    ensures now == MoveAll(index, was) && TooBig(index, was, nExt) && |big| == |EligibleSet(index, was)|
  {
    forall i | 0 <= i < |was| ensures now[i] == MoveAll(index, was)[i] {
      StillThere(index, was, now, big, i);
    }
    AllInVector(index, was, now, big);
  }

  /** With no field left to move, the vector holds all fields that were eligible. */
  lemma {:induction false} AllInVector(index: IndexDef, was: seq<Field>, now: seq<Field>, big: seq<BigField>)
    requires Moved(index, was, now, big) && forall i :: 0 <= i < |now| ==> !Eligible(index, now, i)
    ensures |big| == |EligibleSet(index, was)|
  {
    NosEligible(index, was, now, big);
    forall i | 0 <= i < |was| ensures i in Nos(big) <==> Eligible(index, was, i) {
      StillThere(index, was, now, big, i);
      NosIsVector(big, i);
    }
    assert forall i :: i in Nos(big) <==> i in EligibleSet(index, was);
    assert Nos(big) == EligibleSet(index, was);
    VectorSize(big);
  }

  /** Shortening all eligible fields changes the tuple if and only if there is one. */
  lemma {:induction false} UnchangedIff(index: IndexDef, s: seq<Field>)
    ensures MoveAll(index, s) == s <==> EligibleSet(index, s) == {}
  {
    var t := MoveAll(index, s);
    if EligibleSet(index, s) == {} {
      forall i | 0 <= i < |s| ensures t[i] == s[i] {
        assert i !in EligibleSet(index, s);
      }
    } else {
      var i :| i in EligibleSet(index, s);
      assert t[i].ext && !s[i].ext;
    }
  }

  /** A row that cannot be stored: twelve columns of 700 bytes, too short to be moved out, and a
      BLOB of 1000 bytes, which is shortened before the conversion fails. */
  function WideRow(): seq<Field> {
    seq(12, _ => Field(Some(Zeros(700)), 0, false)) + [Field(Some(Zeros(1000)), 0, false)]
  }

  function WideIndex(): IndexDef {
    IndexDef(true, seq(12, _ => FieldDef(0, false, 700)) + [FieldDef(0, true, 0)], 1)
  }

  function Zeros(n: nat): (z: seq<Byte>)
    ensures |z| == n
  {
    seq(n, _ => 0)
  }

  lemma {:induction false} SizeOfEqual(s: seq<Field>, size: nat)
    requires forall i :: 0 <= i < |s| ==> FieldSize(s[i]) == size
    ensures DataSize(s) == |s| * size
  {
    if s != [] {
      SizeOfEqual(s[..|s| - 1], size);
      assert |s| * size == (|s| - 1) * size + size;
    }
  }

  /** On this input the conversion fails and does not give the tuple back as it was. */
  lemma {:induction false} FailedConversionShortens()
    ensures TooBig(WideIndex(), WideRow(), 0) && MoveAll(WideIndex(), WideRow()) != WideRow()
    ensures EligibleSet(WideIndex(), WideRow()) == {12}
  {
    var index, s := WideIndex(), WideRow();
    forall i ensures i in EligibleSet(index, s) <==> i == 12 {
      assert 0 <= i < 12 ==> |s[i].data.value| == 700;
    }
    assert EligibleSet(index, s) == {12};
    UnchangedIff(index, s);
    var t := MoveAll(index, s);
    forall i | 0 <= i < 12 ensures FieldSize(t[i]) == 700 {
      assert i !in EligibleSet(index, s);
    }
    SizeOfEqual(t[..12], 700);
    assert DataSize(t) == DataSize(t[..12]) + FieldSize(t[12]);
  }

  lemma {:induction false} SizeMonotone(s: seq<Field>, t: seq<Field>)
    requires |s| == |t| && forall i :: 0 <= i < |s| ==> FieldSize(s[i]) <= FieldSize(t[i])
    ensures DataSize(s) <= DataSize(t)
  {
    if s != [] {
      SizeMonotone(s[..|s| - 1], t[..|t| - 1]);
    }
  }

  lemma {:induction false} SizeOfOne(s: seq<Field>, i: nat)
    requires i < |s|
    ensures FieldSize(s[i]) <= DataSize(s)
  {
    if i < |s| - 1 {
      SizeOfOne(s[..|s| - 1], i);
    }
  }

  /** With more fields moved out the record does not get bigger. */
  lemma {:induction false} EnoughMoved(index: IndexDef, was: seq<Field>, now: seq<Field>, big: seq<BigField>, nExt: nat)
    requires Moved(index, was, now, big) && !NeedsExt(ConvertedSize(now, nExt + |big|))
    ensures !TooBig(index, was, nExt)
  {
    var all := MoveAll(index, was);
    forall i | 0 <= i < |was| ensures FieldSize(all[i]) <= FieldSize(now[i]) {
    }
    SizeMonotone(all, now);
    VectorEmpty(index, was, now, big);
    if big == [] && EligibleSet(index, was) != {} {
      NothingLeft(index, was, now);
      var i :| i in EligibleSet(index, was);
      SizeOfOne(now, i);
    }
  }

  lemma {:induction false} RestoreOne(index: IndexDef, was: seq<Field>, now: seq<Field>, big: seq<BigField>)
    requires Moved(index, was, now, big) && big != []
    ensures var b := big[0];
            b.no < |now| && now[b.no].data.Some? && |now[b.no].data.value| == LOCAL_LEN && b.offset == LOCAL_PREFIX &&
            b.offset + b.len == |b.buffer| &&
            Moved(index, was, now[b.no := Field(Some(b.buffer[0..b.offset + b.len]), now[b.no].nullSize, false)],
                  big[1..])
  {
    var b, rest := big[0], big[1..];
    assert Eligible(index, was, b.no) && InVector(big, b.no);
    assert b.buffer[0..b.offset + b.len] == b.buffer;
    forall j | 0 <= j < |was| ensures InVector(big, j) <==> InVector(rest, j) || j == b.no {
      if InVector(big, j) && j != b.no {
        var x :| 0 <= x < |big| && big[x].no == j;
        assert rest[x - 1].no == j;
      }
      if InVector(rest, j) {
        var x :| 0 <= x < |rest| && rest[x].no == j;
        assert big[x + 1].no == j;
      }
    }
    forall x | 0 <= x < |rest| ensures rest[x] == big[x + 1] && rest[x].no != b.no {
    }
  }
}
