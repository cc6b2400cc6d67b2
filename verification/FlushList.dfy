/** The flush list: the modified blocks, the one modified last first. During recovery blocks
    come in any order, and an ordered set beside the list tells where each belongs. */
module FlushList {
  import opened Common

  /** The fields of a control block that matter here; mod is m_oldest_modification. */
  datatype Control = Control(mod: nat, space: nat, no: nat)

  type Controls = map<nat, Control>

  /** block_cmp: the order of the set. */
  predicate Cmp(a: Control, b: Control) {
    if b.mod > a.mod then false
    else if b.mod < a.mod then true
    else if b.space != a.space then b.space < a.space
    else b.no < a.no
  }

  predicate SamePage(a: Control, b: Control) {
    a.space == b.space && a.no == b.no
  }

  /** It is a strict total order on the control blocks of different pages. */
  lemma {:induction false} CmpTotal(a: Control, b: Control, c: Control)
    ensures !(Cmp(a, b) && Cmp(b, a)) && (Cmp(a, b) && Cmp(b, c) ==> Cmp(a, c))
    ensures !SamePage(a, b) ==> Cmp(a, b) || Cmp(b, a)
    ensures Cmp(a, b) ==> a.mod >= b.mod
  {
  }

  predicate Known(ctl: Controls, list: seq<nat>) {
    forall i :: 0 <= i < |list| ==> list[i] in ctl
  }

  predicate Descending(ctl: Controls, list: seq<nat>)
    requires Known(ctl, list)
  {
    forall i, j :: 0 <= i < j < |list| ==> ctl[list[i]].mod >= ctl[list[j]].mod
  }

  /** The list is in the order of the set. */
  predicate InSetOrder(ctl: Controls, list: seq<nat>)
    requires Known(ctl, list)
  {
    forall i, j :: 0 <= i < j < |list| ==> Cmp(ctl[list[i]], ctl[list[j]])
  }

  predicate OnePagePerBlock(ctl: Controls) {
    forall b, c {:trigger SamePage(ctl[b], ctl[c])} :: b in ctl && c in ctl && b != c ==> !SamePage(ctl[b], ctl[c])
  }

  /** The blocks with a nonzero oldest modification. */
  function Modified(ctl: Controls): set<nat> {
    set b | b in ctl && ctl[b].mod > 0
  }

  /** p comes right before b in the order of the set s. */
  predicate IsPrevious(ctl: Controls, s: set<nat>, b: nat, p: nat)
    requires b in ctl && s <= ctl.Keys
  {
    p in s && Cmp(ctl[p], ctl[b]) && forall q :: q in s && Cmp(ctl[q], ctl[b]) ==> q == p || Cmp(ctl[q], ctl[p])
  }

  /** b belongs at index k of the list. */
  predicate IsPlace(ctl: Controls, list: seq<nat>, b: nat, k: nat)
    requires Known(ctl, list) && b in ctl
  {
    k <= |list| &&
    (forall i :: 0 <= i < k ==> Cmp(ctl[list[i]], ctl[b])) &&
      (forall i :: k <= i < |list| ==> Cmp(ctl[b], ctl[list[i]]))
  }

  /** Without the set, b may stand at index k. */
  predicate MayStand(ctl: Controls, list: seq<nat>, b: nat, k: nat)
    requires Known(ctl, list) && b in ctl
  {
    k <= |list| &&
    (forall i :: 0 <= i < k ==> ctl[list[i]].mod >= ctl[b].mod) &&
      (forall i :: k <= i < |list| ==> ctl[b].mod >= ctl[list[i]].mod)
  }

  function InsertAt(list: seq<nat>, k: nat, b: nat): seq<nat>
    requires k <= |list|
  {
    list[..k] + [b] + list[k..]
  }

  function RemoveAt(list: seq<nat>, k: nat): seq<nat>
    requires k < |list|
  {
    list[..k] + list[k + 1..]
  }

  /** What validate_low checks, and that the list holds exactly the modified blocks, except
      that a block in `but` is not in the list whether modified or not. */
  predicate ListOk(ctl: Controls, list: seq<nat>, recoverySet: Option<set<nat>>, but: set<nat>) {
    && OnePagePerBlock(ctl) && Known(ctl, list) && Distinct(list)
    && Elements(list) == Modified(ctl) - but
    && Descending(ctl, list)
    && (recoverySet.Some? ==> recoverySet.value == Elements(list) && InSetOrder(ctl, list))
  }

  class Flusher {
    var ctl: Controls                    // the control blocks of all file pages in the pool
    var list: seq<nat>                   // m_flush_list
    var recoverySet: Option<set<nat>>    // m_recovery_flush_list

    predicate Valid()
      reads this
    {
      ListOk(ctl, list, recoverySet, {})
    }

    /** init_flush_list, when the pool is created. */
    constructor ()
      ensures Valid() && list == [] && ctl == map[] && recoverySet.Some?
    {
      ctl, list, recoverySet := map[], [], Some({});
    }

    /** A page comes into the pool, or a clean one leaves it. */
    method PageIn(b: nat, space: nat, no: nat)
      requires Valid() && b !in ctl && forall c :: c in ctl ==> !SamePage(ctl[c], Control(0, space, no))
      modifies this`ctl
      ensures Valid() && ctl == old(ctl)[b := Control(0, space, no)]
    {
      ctl := ctl[b := Control(0, space, no)];
    }

    method PageOut(b: nat)
      requires Valid() && b in ctl && ctl[b].mod == 0
      modifies this`ctl
      ensures Valid() && ctl == old(ctl) - {b}
    {
      OnList(ctl, list, recoverySet);
      ctl := ctl - {b};
    }

    /** free_flush_list, when recovery is over. */
    method FreeFlushList()
      requires Valid()
      modifies this`recoverySet
      ensures Valid() && recoverySet == None
    {
      recoverySet := None;
    }

    /** insert_in_flush_rbt: the block before b in the set is the block before b's place in the
        list. The insert always succeeds, since no other block has the same page. */
    method InsertInFlushRbt(b: nat, ghost k: nat) returns (prev: Option<nat>)
      requires recoverySet.Some? && b in ctl && ListOk(ctl, list, recoverySet, {b}) && IsPlace(ctl, list, b, k)
      modifies this`recoverySet
      ensures recoverySet == Some(old(recoverySet.value) + {b})
      ensures prev == if k == 0 then None else Some(list[k - 1])
    {
      var s := recoverySet.value;
      recoverySet := Some(s + {b});
      prev := None;
      if c :| c in s && Cmp(ctl[c], ctl[b]) {
        PreviousInList(ctl, list, s, b, k);
        var p :| IsPrevious(ctl, s, b, p);
        prev := Some(p);
      }
    }

    /** insert_sorted_into_flush_list: with the set, through the block before it there; without
        it, by a linear search. */
    method InsertSortedIntoFlushList(b: nat) returns (ghost k: nat)
      requires ListOk(ctl, list, recoverySet, {b}) && b in ctl && ctl[b].mod > 0
      modifies this`list, this`recoverySet
      ensures Valid() && k <= |old(list)| && list == InsertAt(old(list), k, b) &&
              recoverySet.Some? == old(recoverySet.Some?)
    {
      var prev: Option<nat>;
      if recoverySet.Some? {
        k := FindPlace(ctl, list, recoverySet.value, b);
        InsertedOk(ctl, list, recoverySet, b, k);
        prev := InsertInFlushRbt(b, k);
      } else {
        prev, k := LinearSearch(b);
        InsertedOk(ctl, list, None, b, k);
      }
      LinkAfter(prev, b, k);
    }

    /** The search of insert_sorted_into_flush_list when the set was freed already. */
    method LinearSearch(b: nat) returns (prev: Option<nat>, ghost k: nat)
      requires Known(ctl, list) && b in ctl && Descending(ctl, list)
      ensures k <= |list| && prev == if k == 0 then None else Some(list[k - 1])
      ensures MayStand(ctl, list, b, k) && (k > 0 ==> ctl[list[k - 1]].mod > ctl[b].mod)
    {
      prev := None;
      var i := 0;
      while i < |list| && ctl[list[i]].mod > ctl[b].mod
        invariant 0 <= i <= |list| && prev == if i == 0 then None else Some(list[i - 1])
        invariant forall j :: 0 <= j < i ==> ctl[list[j]].mod > ctl[b].mod
      {
        prev := Some(list[i]);
        i := i + 1;
      }
      k := i;
    }

    /** UT_LIST_INSERT_AFTER, or UT_LIST_ADD_FIRST if there is no block before. */
    method LinkAfter(prev: Option<nat>, b: nat, ghost k: nat)
      requires Distinct(list) && k <= |list| && prev == if k == 0 then None else Some(list[k - 1])
      modifies this`list
      ensures list == InsertAt(old(list), k, b)
    {
      if prev == None {
        list := [b] + list;
      } else {
        IndexUnique(list, k - 1);
        var at := IndexOf(list, prev.value);
        list := InsertAt(list, at + 1, b);
      }
    }

    /** insert_into_flush_list. */
    method InsertIntoFlushList(b: nat) returns (ghost k: nat)
      requires ListOk(ctl, list, recoverySet, {b}) && b in ctl && ctl[b].mod > 0
      requires list != [] ==> ctl[list[0]].mod <= ctl[b].mod
      modifies this`list, this`recoverySet
      ensures Valid() && k <= |old(list)| && list == InsertAt(old(list), k, b) &&
              recoverySet.Some? == old(recoverySet.Some?) && (recoverySet == None ==> k == 0)
    {
      if recoverySet.Some? {
        k := InsertSortedIntoFlushList(b);
        return;
      }
      k := 0;
      InsertedOk(ctl, list, None, b, 0);
      list := [b] + list;
    }

    /** note_modification: a block that was clean becomes dirty with the start of the
        mini-transaction; log sequence numbers only grow. */
    method NoteModification(b: nat, startLsn: nat) returns (ghost k: nat)
      requires Valid() && b in ctl && startLsn > 0 && forall c :: c in ctl ==> ctl[c].mod <= startLsn
      modifies this
      ensures Valid() && b in list &&
              ctl == old(ctl)[b := old(ctl[b]).(mod := if old(ctl[b]).mod == 0 then startLsn else old(ctl[b]).mod)]
      ensures k <= |old(list)| && list == if old(ctl[b]).mod == 0 then InsertAt(old(list), k, b) else old(list)
      ensures old(recoverySet) == None ==> k == 0
    {
      OnList(ctl, list, recoverySet);
      k := 0;
      if ctl[b].mod == 0 {
        ModifiedOk(ctl, list, recoverySet, b, startLsn);
        ctl := ctl[b := ctl[b].(mod := startLsn)];
        k := InsertIntoFlushList(b);
        Inserted(old(list), b, k);
      }
    }

    /** recv_note_modification: the same for a block changed by recovery, in any order. */
    method RecvNoteModification(b: nat, startLsn: nat) returns (ghost k: nat)
      requires Valid() && b in ctl && startLsn > 0
      modifies this
      ensures Valid() && b in list &&
              ctl == old(ctl)[b := old(ctl[b]).(mod := if old(ctl[b]).mod == 0 then startLsn else old(ctl[b]).mod)]
      ensures k <= |old(list)| && list == if old(ctl[b]).mod == 0 then InsertAt(old(list), k, b) else old(list)
    {
      OnList(ctl, list, recoverySet);
      k := 0;
      if ctl[b].mod == 0 {
        ModifiedOk(ctl, list, recoverySet, b, startLsn);
        ctl := ctl[b := ctl[b].(mod := startLsn)];
        k := InsertSortedIntoFlushList(b);
        Inserted(old(list), b, k);
      }
    }

    /** remove: the block is clean and leaves the list. */
    method Remove(b: nat)
      requires Valid() && b in list
      modifies this
      ensures Valid() && list == old(RemoveAt(list, IndexOf(list, b))) && ctl == old(ctl)[b := old(ctl[b]).(mod := 0)]
    {
      RemovedOk(ctl, list, recoverySet, b);
      list := RemoveAt(list, IndexOf(list, b));
      if recoverySet.Some? {
        recoverySet := Some(recoverySet.value - {b});
      }
      ctl := ctl[b := ctl[b].(mod := 0)];
    }

    /** relocate_on_flush_list: control block d takes the place of b, in the list and in the set;
        the block before it is the same one in both. */
    method RelocateOnFlushList(b: nat, d: nat)
      requires Valid() && b in list && d !in ctl
      modifies this
      ensures Valid() && list == old(list[IndexOf(list, b) := d]) && ctl == (old(ctl) - {b})[d := old(ctl[b])]
    {
      ghost var k := IndexOf(list, b);
      RelocatedPlace(ctl, list, recoverySet, b, d);
      RelocatedOk(ctl, list, recoverySet, b, d);
      var prev := if IndexOf(list, b) == 0 then None else Some(list[IndexOf(list, b) - 1]);
      ctl := (ctl - {b})[d := ctl[b]];
      list := RemoveAt(list, IndexOf(list, b));
      if recoverySet.Some? {
        recoverySet := Some(recoverySet.value - {b});
        var prevInSet := InsertInFlushRbt(d, k);
        assert prevInSet == prev;
      }
      LinkAfter(prev, d, k);
      assert list == old(list)[k := d];
    }

    /** get_oldest_modification: the tail of the list has the smallest oldest modification of
        all dirty pages. */
    method GetOldestModification() returns (lsn: nat)
      requires Valid()
      ensures lsn == 0 <==> forall b :: b in ctl ==> ctl[b].mod == 0
      ensures lsn > 0 ==> exists b :: b in ctl && ctl[b].mod == lsn
      ensures forall b :: b in ctl && ctl[b].mod > 0 ==> lsn <= ctl[b].mod
    {
      OnList(ctl, list, recoverySet);
      if list == [] {
        return 0;
      }
      lsn := ctl[list[|list| - 1]].mod;
    }
  }

  // ----- lemmas -----

  /** A block is on the list if and only if it was modified. */
  lemma {:induction false} OnList(ctl: Controls, list: seq<nat>, recoverySet: Option<set<nat>>)
    requires ListOk(ctl, list, recoverySet, {})
    ensures forall b :: b in list <==> b in ctl && ctl[b].mod > 0
    ensures forall i :: 0 <= i < |list| ==> ctl[list[i]].mod > 0
  {
    forall b ensures b in list <==> b in ctl && ctl[b].mod > 0 {
      assert b in list <==> b in Elements(list);
    }
    forall i | 0 <= i < |list| ensures ctl[list[i]].mod > 0 {
      assert list[i] in list;
    }
  }

  lemma {:induction false} FindPlace(ctl: Controls, list: seq<nat>, s: set<nat>, b: nat) returns (k: nat)
    requires b in ctl && ListOk(ctl, list, Some(s), {b})
    ensures IsPlace(ctl, list, b, k)
  {
    k := |list|;
    while k > 0 && !Cmp(ctl[list[k - 1]], ctl[b])
      invariant k <= |list| && forall i :: k <= i < |list| ==> Cmp(ctl[b], ctl[list[i]])
    {
      k := k - 1;
      CmpTotal(ctl[list[k]], ctl[b], ctl[b]);
    }
    forall i | 0 <= i < k ensures Cmp(ctl[list[i]], ctl[b]) {
      CmpTotal(ctl[list[i]], ctl[list[k - 1]], ctl[b]);
    }
  }

  lemma {:induction false} PreviousInList(ctl: Controls, list: seq<nat>, s: set<nat>, b: nat, k: nat)
    requires b in ctl && ListOk(ctl, list, Some(s), {b}) && IsPlace(ctl, list, b, k)
    requires exists c :: c in s && c in ctl && Cmp(ctl[c], ctl[b])
    ensures k > 0 && IsPrevious(ctl, s, b, list[k - 1])
    ensures forall p :: IsPrevious(ctl, s, b, p) ==> p == list[k - 1]
  {
  }

  lemma {:induction false} PlacedInSetOrder(ctl: Controls, list: seq<nat>, b: nat, k: nat)
    requires Known(ctl, list) && b in ctl && InSetOrder(ctl, list) && IsPlace(ctl, list, b, k)
    ensures Known(ctl, InsertAt(list, k, b)) && InSetOrder(ctl, InsertAt(list, k, b)) &&
            Descending(ctl, InsertAt(list, k, b))
  {
  }

  lemma {:induction false} PlacedDescending(ctl: Controls, list: seq<nat>, b: nat, k: nat)
    requires Known(ctl, list) && b in ctl && Descending(ctl, list) && MayStand(ctl, list, b, k)
    ensures Known(ctl, InsertAt(list, k, b)) && Descending(ctl, InsertAt(list, k, b))
  {
  }

  lemma {:induction false} Placed(list: seq<nat>, b: nat, k: nat)
    requires Distinct(list) && b !in list && k <= |list|
    ensures Distinct(InsertAt(list, k, b)) && Elements(InsertAt(list, k, b)) == Elements(list) + {b}
  {
  }

  /** A block put in its place. */
  lemma {:induction false} InsertedOk(ctl: Controls, list: seq<nat>, recoverySet: Option<set<nat>>, b: nat, k: nat)
    requires ListOk(ctl, list, recoverySet, {b}) && b in ctl && ctl[b].mod > 0 && k <= |list|
    requires if recoverySet.Some? then IsPlace(ctl, list, b, k) else MayStand(ctl, list, b, k)
    ensures var t := InsertAt(list, k, b);
            ListOk(ctl, t, if recoverySet.Some? then Some(recoverySet.value + {b}) else None, {}) &&
            (k == 0 ==> t == [b] + list)
  {
    if recoverySet.Some? {
      PlacedInSetOrder(ctl, list, b, k);
    } else {
      PlacedDescending(ctl, list, b, k);
    }
    assert b !in Elements(list);
    Placed(list, b, k);
  }

  lemma {:induction false} RemovedAt(ctl: Controls, list: seq<nat>, b: nat)
    requires Known(ctl, list) && Distinct(list) && b in list && Descending(ctl, list)
    ensures var t := RemoveAt(list, IndexOf(list, b));
            Known(ctl, t) && Descending(ctl, t) && (InSetOrder(ctl, list) ==> InSetOrder(ctl, t))
    ensures var t := RemoveAt(list, IndexOf(list, b));
            Distinct(t) && Elements(t) == Elements(list) - {b} && forall i :: 0 <= i < |t| ==> t[i] != b
  {
    RemovedElements(list, IndexOf(list, b));
    RemovedOrder(ctl, list, IndexOf(list, b));
  }

  lemma {:induction false} RemovedOrder(ctl: Controls, list: seq<nat>, k: nat)
    requires Known(ctl, list) && Descending(ctl, list) && k < |list|
    ensures var t := RemoveAt(list, k);
            Known(ctl, t) && Descending(ctl, t) && (InSetOrder(ctl, list) ==> InSetOrder(ctl, t))
  {
    var t := RemoveAt(list, k);
    forall i | 0 <= i < |t| ensures t[i] == list[if i < k then i else i + 1] {
    }
  }

  lemma {:induction false} RemovedElements(list: seq<nat>, k: nat)
    requires Distinct(list) && k < |list|
    ensures var t := RemoveAt(list, k);
            Distinct(t) && Elements(t) == Elements(list) - {list[k]} && forall i :: 0 <= i < |t| ==> t[i] != list[k]
  {
    var t := RemoveAt(list, k);
    forall i | 0 <= i < |t| ensures t[i] == list[if i < k then i else i + 1] && t[i] != list[k] {
    }
    assert list == list[..k] + [list[k]] + list[k + 1..];
  }

  /** Blocks with the same control data on the list are in the same order. */
  lemma {:induction false} SameControls(ctl: Controls, ctl': Controls, list: seq<nat>)
    requires Known(ctl, list) && Descending(ctl, list)
    requires forall i :: 0 <= i < |list| ==> list[i] in ctl' && ctl'[list[i]] == ctl[list[i]]
    ensures Known(ctl', list) && Descending(ctl', list) && (InSetOrder(ctl, list) ==> InSetOrder(ctl', list))
  {
  }

  lemma {:induction false} NewModification(ctl: Controls, b: nat, m: nat)
    requires OnePagePerBlock(ctl) && b in ctl
    ensures OnePagePerBlock(ctl[b := ctl[b].(mod := m)])
    ensures Modified(ctl[b := ctl[b].(mod := m)]) == if m > 0 then Modified(ctl) + {b} else Modified(ctl) - {b}
  {
    var ctl' := ctl[b := ctl[b].(mod := m)];
    forall x, y | x in ctl' && y in ctl' && x != y ensures !SamePage(ctl'[x], ctl'[y]) {
      assert !SamePage(ctl[x], ctl[y]);
    }
  }

  lemma {:induction false} MovedControl(ctl: Controls, b: nat, d: nat)
    requires OnePagePerBlock(ctl) && b in ctl && d !in ctl
    ensures OnePagePerBlock((ctl - {b})[d := ctl[b]])
    ensures Modified((ctl - {b})[d := ctl[b]]) == Modified(ctl) - {b} + if ctl[b].mod > 0 then {d} else {}
  {
    var ctl' := (ctl - {b})[d := ctl[b]];
    forall x, y | x in ctl' && y in ctl' && x != y ensures !SamePage(ctl'[x], ctl'[y]) {
      assert !SamePage(ctl[if x == d then b else x], ctl[if y == d then b else y]);
    }
  }

  lemma {:induction false} ModifiedOk(ctl: Controls, list: seq<nat>, recoverySet: Option<set<nat>>, b: nat, m: nat)
    requires ListOk(ctl, list, recoverySet, {}) && b in ctl && ctl[b].mod == 0
    ensures ListOk(ctl[b := ctl[b].(mod := m)], list, recoverySet, {b})
  {
    NewModification(ctl, b, m);
    OnList(ctl, list, recoverySet);
    SameControls(ctl, ctl[b := ctl[b].(mod := m)], list);
  }

  lemma {:induction false} RemovedOk(ctl: Controls, list: seq<nat>, recoverySet: Option<set<nat>>, b: nat)
    requires ListOk(ctl, list, recoverySet, {}) && b in list
    ensures ListOk(ctl[b := ctl[b].(mod := 0)], RemoveAt(list, IndexOf(list, b)),
                   if recoverySet.Some? then Some(recoverySet.value - {b}) else None, {})
  {
    var ctl', t := ctl[b := ctl[b].(mod := 0)], RemoveAt(list, IndexOf(list, b));
    RemovedAt(ctl, list, b);
    SameControls(ctl, ctl', t);
    NewModification(ctl, b, 0);
  }

  /** With b gone, the place of d in the list is the one that b had. */
  lemma {:induction false} RelocatedPlace(ctl: Controls, list: seq<nat>, recoverySet: Option<set<nat>>, b: nat, d: nat)
    requires ListOk(ctl, list, recoverySet, {}) && b in list && d !in ctl
    ensures var ctl', k := (ctl - {b})[d := ctl[b]], IndexOf(list, b);
            var t := RemoveAt(list, k);
            ListOk(ctl', t, if recoverySet.Some? then Some(recoverySet.value - {b}) else None, {d}) &&
              InsertAt(t, k, d) == list[k := d] &&
            (k > 0 ==> t[k - 1] == list[k - 1]) && if recoverySet.Some? then IsPlace(ctl', t, d, k)
              else MayStand(ctl', t, d, k)
  {
    var ctl', k := (ctl - {b})[d := ctl[b]], IndexOf(list, b);
    var t := RemoveAt(list, k);
    RemovedAt(ctl, list, b);
    MovedControl(ctl, b, d);
    SameControls(ctl, ctl', t);
    PutBack(list, k, d);
    RelocatedIsPlace(ctl, list, b, k, ctl', d);
  }

  lemma {:induction false} RelocatedOk(ctl: Controls, list: seq<nat>, recoverySet: Option<set<nat>>, b: nat, d: nat)
    requires ListOk(ctl, list, recoverySet, {}) && b in list && d !in ctl
    ensures ListOk((ctl - {b})[d := ctl[b]], list[IndexOf(list, b) := d],
                   if recoverySet.Some? then Some(recoverySet.value - {b} + {d}) else None, {})
  {
    OnList(ctl, list, recoverySet);
    RelocatedPlace(ctl, list, recoverySet, b, d);
    var k := IndexOf(list, b);
    InsertedOk((ctl - {b})[d := ctl[b]], RemoveAt(list, k),
               if recoverySet.Some? then Some(recoverySet.value - {b}) else None, d, k);
  }

  lemma {:induction false} PutBack(list: seq<nat>, k: nat, d: nat)
    requires k < |list|
    ensures InsertAt(RemoveAt(list, k), k, d) == list[k := d]
  {
    var t := RemoveAt(list, k);
    assert t[..k] == list[..k] && t[k..] == list[k + 1..];
  }

  lemma {:induction false} RelocatedIsPlace(ctl: Controls, list: seq<nat>, b: nat, k: nat, ctl': Controls, d: nat)
    requires Known(ctl, list) && Descending(ctl, list) && k < |list| && list[k] == b
    requires Known(ctl', RemoveAt(list, k)) && d in ctl' && ctl'[d] == ctl[b]
    requires var t := RemoveAt(list, k); forall i :: 0 <= i < |t| ==> t[i] in ctl && ctl'[t[i]] == ctl[t[i]]
    ensures InSetOrder(ctl, list) ==> IsPlace(ctl', RemoveAt(list, k), d, k)
    ensures MayStand(ctl', RemoveAt(list, k), d, k)
  {
    var t := RemoveAt(list, k);
    forall i | 0 <= i < |t| ensures t[i] == list[if i < k then i else i + 1] {
    }
  }

  lemma {:induction false} Inserted(list: seq<nat>, b: nat, k: nat)
    requires k <= |list|
    ensures Elements(InsertAt(list, k, b)) == Elements(list) + {b}
  {
  }

  /** There is only one list of given blocks in the order of the set: the flush list is what a
      walk through the set visits. */
  lemma {:induction false} OrderUnique(ctl: Controls, a: seq<nat>, b: seq<nat>)
    requires Known(ctl, a) && Known(ctl, b) && InSetOrder(ctl, a) && InSetOrder(ctl, b) && Elements(a) == Elements(b)
    ensures a == b
  {
    assert forall x :: x in a <==> x in Elements(a);
    assert forall x :: x in b <==> x in Elements(b);
    assert (a != [] ==> a[0] in Elements(b)) && (b != [] ==> b[0] in Elements(a));
    if a != [] && b != [] {
      assert a[0] in Elements(a) && b[0] in Elements(b);
      var i :| 0 <= i < |a| && a[i] == b[0];
      var j :| 0 <= j < |b| && b[j] == a[0];
      CmpTotal(ctl[a[0]], ctl[b[0]], ctl[a[0]]);
      assert a[0] == b[0];
      Rest(ctl, a);
      Rest(ctl, b);
      OrderUnique(ctl, a[1..], b[1..]);
    }
  }

  lemma {:induction false} Rest(ctl: Controls, a: seq<nat>)
    requires Known(ctl, a) && InSetOrder(ctl, a) && a != []
    ensures Known(ctl, a[1..]) && InSetOrder(ctl, a[1..]) && Elements(a[1..]) == Elements(a) - {a[0]}
  {
    forall i, j | 0 <= i < j < |a| ensures a[i] != a[j] {
      CmpTotal(ctl[a[i]], ctl[a[j]], ctl[a[i]]);
    }
    RemovedElements(a, 0);
    assert RemoveAt(a, 0) == a[1..];
  }
}
