/** The LRU list of the buffer pool with its "old" sublist: midpoint insertion, the LRU_old
    pointer, and the tolerance within which its place may differ from the target. */
module Lru {
  import opened Common

  const OLD_RATIO_DIV: nat := 1024
  const OLD_RATIO_MAX: nat := OLD_RATIO_DIV
  const OLD_RATIO_MIN: nat := 51
  const OLD_MIN_LEN: nat := 512
  const OLD_TOLERANCE: nat := 20
  const NON_MIN_LEN: nat := 5

  function Removed(s: seq<nat>, b: nat): seq<nat>
    requires b in s
  {
    s[..IndexOf(s, b)] + s[IndexOf(s, b) + 1..]
  }

  /** The number of old blocks that old_adjust_len aims at. */
  function Target(len: nat, ratio: nat): int {
    var share := Share(len, ratio);
    var most := len - (OLD_TOLERANCE + NON_MIN_LEN);
    if share < most then share else most
  }

  /** In numbers, without rounding: within the share of the ratio, within the length less 25, and as
      near to one of them as a whole number can be. */
  lemma {:induction false} TargetNumbers(len: nat, ratio: nat)
    ensures var t, most := Target(len, ratio), len - (OLD_TOLERANCE + NON_MIN_LEN);
            t * OLD_RATIO_DIV <= len * ratio && t <= most && (t == most || (t + 1) * OLD_RATIO_DIV > len * ratio)
  {
  }

  predicate RatioAllowed(ratio: nat) {
    OLD_RATIO_MIN <= ratio <= OLD_RATIO_MAX
  }

  /** For every allowed ratio and every list that is long enough, any length within the
      tolerance leaves at least NON_MIN_LEN young blocks and at least NON_MIN_LEN old ones. */
  lemma {:induction false} TargetBounds(len: nat, ratio: nat)
    requires len >= OLD_MIN_LEN && RatioAllowed(ratio)
    ensures Target(len, ratio) - OLD_TOLERANCE >= NON_MIN_LEN
    ensures Target(len, ratio) + OLD_TOLERANCE <= len - NON_MIN_LEN
  {
    Products(len, ratio, OLD_MIN_LEN, OLD_RATIO_MIN);
  }

  lemma {:induction false} Products(a: nat, b: nat, c: nat, d: nat)
    requires a >= c && b >= d
    ensures a * b >= c * d
  {
    assert a * b - c * d == (a - c) * b + c * (b - d);
    assert (a - c) * b >= 0 && c * (b - d) >= 0;
  }

  /** The comment above OLD_TOLERANCE asks the number of old blocks to be within the tolerance of
      their share of the list. What the code keeps, the tolerance around its target, implies that
      for all lengths in the band if and only if the share leaves 25 other blocks. */
  lemma {:induction false} ShareKeptIff(len: nat, ratio: nat)
    ensures (forall n: int :: InBand(n, Target(len, ratio)) ==> InBand(n, Share(len, ratio)))
       <==> Share(len, ratio) <= len - (OLD_TOLERANCE + NON_MIN_LEN)
  {
    if Share(len, ratio) > len - (OLD_TOLERANCE + NON_MIN_LEN) {
      assert InBand(Target(len, ratio) - OLD_TOLERANCE, Target(len, ratio));
      assert !InBand(Target(len, ratio) - OLD_TOLERANCE, Share(len, ratio));
    }
  }

  predicate InBand(n: int, aim: int) {
    aim - OLD_TOLERANCE <= n <= aim + OLD_TOLERANCE
  }

  /** The share of the list that the ratio gives to old blocks. */
  function Share(len: nat, ratio: nat): nat {
    len * ratio / OLD_RATIO_DIV
  }

  class Buf_LRU {
    var list: seq<nat>          // m_LRU_list, most recently used first
    var marked: set<nat>        // the blocks whose m_old flag is set
    var lruOld: Option<nat>     // m_LRU_old
    var oldLen: nat             // m_LRU_old_len
    var oldRatio: nat           // m_old_ratio
    var startRatio: nat         // s_old_ratio

    /** The old blocks are exactly the last oldLen ones, and LRU_old points to the first of
        them. */
    predicate OldSuffix()
      reads this
    {
      && Distinct(list) && RatioAllowed(oldRatio)
      && 1 <= oldLen <= |list| && lruOld == Some(list[|list| - oldLen])
      && MarkedFrom(list, marked, oldLen)
    }

    predicate InTolerance()
      reads this
    {
      InBand(oldLen, Target(|list|, oldRatio))
    }

    predicate Valid()
      reads this
    {
      && Distinct(list) && RatioAllowed(oldRatio)
      && if |list| >= OLD_MIN_LEN then OldSuffix() && InTolerance()
         else lruOld == None && oldLen == 0 && forall b :: b in list ==> b !in marked
    }

    constructor (ratio: nat)
      requires RatioAllowed(ratio)
      ensures Valid() && list == [] && oldRatio == ratio
    {
      list, marked, lruOld, oldLen, oldRatio, startRatio := [], {}, None, 0, ratio, ratio;
    }

    /** old_adjust_len: LRU_old moves block by block into the tolerance band and stops at its
        nearer end. It never leaves the list. */
    method OldAdjustLen()
      requires OldSuffix() && |list| >= OLD_MIN_LEN
      modifies this`marked, this`lruOld, this`oldLen
      ensures Valid()
      ensures oldLen == Adjusted(old(oldLen), |list|, oldRatio)
      ensures (oldLen - OLD_TOLERANCE) * OLD_RATIO_DIV <= |list| * oldRatio && oldLen <= |list| - NON_MIN_LEN
      ensures oldLen + 2 * OLD_TOLERANCE + NON_MIN_LEN >= |list| ||
              (oldLen + OLD_TOLERANCE + 1) * OLD_RATIO_DIV > |list| * oldRatio
    {
      TargetNumbers(|list|, oldRatio);
      TargetBounds(|list|, oldRatio);
      var newLen := Target(|list|, oldRatio);
      while oldLen + OLD_TOLERANCE < newLen || oldLen > newLen + OLD_TOLERANCE
        invariant OldSuffix()
        invariant oldLen >= old(oldLen) || oldLen >= newLen + OLD_TOLERANCE
        invariant oldLen <= old(oldLen) || oldLen + OLD_TOLERANCE <= newLen
        decreases if oldLen < newLen then newLen - oldLen else oldLen - newLen
      {
        if oldLen + OLD_TOLERANCE < newLen {
          StepBack();
        } else {
          StepForward();
        }
      }
    }

    /** LRU_old moves to the previous block, which becomes old. */
    method StepBack()
      requires OldSuffix() && oldLen < |list|
      modifies this`marked, this`lruOld, this`oldLen
      ensures OldSuffix() && oldLen == old(oldLen) + 1 && lruOld != old(lruOld)
    {
      IndexUnique(list, |list| - oldLen);
      var prev := list[IndexOf(list, lruOld.value) - 1];
      lruOld := Some(prev);
      oldLen := oldLen + 1;
      marked := marked + {prev};
    }

    /** LRU_old moves to the next block; the block it leaves becomes young. */
    method StepForward()
      requires OldSuffix() && oldLen > 1
      modifies this`marked, this`lruOld, this`oldLen
      ensures OldSuffix() && oldLen == old(oldLen) - 1
    {
      IndexUnique(list, |list| - oldLen);
      var b := lruOld.value;
      lruOld := Some(list[IndexOf(list, b) + 1]);
      oldLen := oldLen - 1;
      marked := marked - {b};
    }

    /** old_init: the list has just become long enough; all its blocks are marked, and LRU_old
        is then moved to its place. */
    method OldInit()
      requires Distinct(list) && RatioAllowed(oldRatio) && |list| == OLD_MIN_LEN
      modifies this`marked, this`lruOld, this`oldLen
      ensures Valid() && oldLen == Target(|list|, oldRatio) + OLD_TOLERANCE
    {
      var i := |list|;
      while i > 0
        invariant 0 <= i <= |list|
        invariant forall j :: i <= j < |list| ==> list[j] in marked
      {
        i := i - 1;
        marked := marked + {list[i]};
      }
      lruOld := Some(list[0]);
      oldLen := |list|;
      TargetBounds(|list|, oldRatio);
      OldAdjustLen();
    }

    /** remove_block. */
    method RemoveBlock(b: nat)
      requires Valid() && b in list
      modifies this`list, this`marked, this`lruOld, this`oldLen
      ensures Valid() && list == old(Removed(list, b)) && b !in list
      ensures |list| >= OLD_MIN_LEN ==>
                oldLen == Adjusted(old(if b in marked && lruOld != Some(b) then oldLen - 1 else oldLen), |list|,
                                   oldRatio)
    {
      if lruOld == Some(b) {
        TargetBounds(|list|, oldRatio);  // the previous block is guaranteed to exist
        StepBack();
      }
      RemovedDistinct(list, b);
      RemovedSuffix(list, b, marked, oldLen);
      list := Removed(list, b);
      if |list| < OLD_MIN_LEN {
        ghost var rest := list;
        for i := 0 to |list|
          invariant list == rest
          invariant forall j :: 0 <= j < i ==> list[j] !in marked
        {
          marked := marked - {list[i]};
        }
        lruOld, oldLen := None, 0;
        return;
      }
      if b in marked {
        oldLen := oldLen - 1;
      }
      OldAdjustLen();
    }

    /** add_block_to_end_low. */
    method AddBlockToEndLow(b: nat)
      requires Valid() && b !in list
      modifies this`list, this`marked, this`lruOld, this`oldLen
      ensures Valid() && list == old(list) + [b]
      ensures |list| > OLD_MIN_LEN ==> oldLen == Adjusted(old(oldLen) + 1, |list|, oldRatio)
      ensures |list| == OLD_MIN_LEN ==> oldLen == Target(|list|, oldRatio) + OLD_TOLERANCE
    {
      list := list + [b];
      if |list| > OLD_MIN_LEN {
        marked := marked + {b};
        oldLen := oldLen + 1;
        OldAdjustLen();
      } else if |list| == OLD_MIN_LEN {
        OldInit();
      } else {
        marked := if lruOld != None then marked + {b} else marked - {b};
      }
    }

    /** add_block_low: an old block is put right behind LRU_old, any other one first. */
    method AddBlockLow(b: nat, asOld: bool)
      requires Valid() && b !in list
      modifies this`list, this`marked, this`lruOld, this`oldLen
      ensures Valid()
      ensures list == if asOld && |old(list)| >= OLD_MIN_LEN
                      then var at := |old(list)| - old(oldLen) + 1; old(list)[..at] + [b] + old(list)[at..]
                      else [b] + old(list)
      ensures !asOld ==> b !in marked
      ensures |list| > OLD_MIN_LEN ==> oldLen == Adjusted(old(oldLen) + if asOld then 1 else 0, |list|, oldRatio)
      ensures |list| == OLD_MIN_LEN ==> oldLen == Target(|list|, oldRatio) + OLD_TOLERANCE
    {
      if !asOld || |list| < OLD_MIN_LEN {
        AddedFirst(list, b, marked, oldLen);
        list := [b] + list;
      } else {
        IndexUnique(list, |list| - oldLen);
        var at := IndexOf(list, lruOld.value) + 1;
        InsertedSuffix(list, b, at, marked, oldLen);
        list := list[..at] + [b] + list[at..];
        oldLen := oldLen + 1;
      }
      if |list| > OLD_MIN_LEN {
        marked := if asOld then marked + {b} else marked - {b};
        OldAdjustLen();
      } else if |list| == OLD_MIN_LEN {
        OldInit();
      } else {
        marked := if lruOld != None then marked + {b} else marked - {b};
      }
      HeadYoung();
    }

    /** The most recently used block is never old. */
    lemma HeadYoung()
      requires Valid() && list != []
      ensures list[0] !in marked
    {
      if |list| >= OLD_MIN_LEN {
        TargetBounds(|list|, oldRatio);
      }
    }

    /** make_block_young: the block becomes the most recently used one, and is not old. */
    method MakeBlockYoung(b: nat)
      requires Valid() && b in list
      modifies this`list, this`marked, this`lruOld, this`oldLen
      ensures Valid() && list == [b] + old(Removed(list, b)) && b !in marked
    {
      RemoveBlock(b);
      AddBlockLow(b, false);
    }

    /** make_block: the block goes to the end of the list, next in line for eviction. */
    method MakeBlock(b: nat)
      requires Valid() && b in list
      modifies this`list, this`marked, this`lruOld, this`oldLen
      ensures Valid() && list == old(Removed(list, b)) + [b] && (b in marked <==> |list| >= OLD_MIN_LEN)
    {
      RemoveBlock(b);
      AddBlockToEndLow(b);
      TailMarked();
    }

    lemma TailMarked()
      requires Valid() && list != []
      ensures list[|list| - 1] in marked <==> |list| >= OLD_MIN_LEN
    {
      assert list[|list| - 1] in list;
    }

    /** old_ratio_update: whatever the percentage, the ratio that is set is an allowed one, the
        invariant is kept, and the percentage that the ratio stands for is returned: the given
        one, brought into 5 to 100. Without `adjust` only the ratio for later lists is set. */
    method OldRatioUpdate(oldPct: nat, adjust: bool) returns (pct: nat)
      requires Valid()
      modifies this`oldRatio, this`startRatio, this`marked, this`lruOld, this`oldLen
      ensures Valid() && pct == Clamp(oldPct, 5, 100)
      ensures if adjust then
                oldRatio == RatioOf(oldPct) && startRatio == old(startRatio) &&
                (oldRatio == old(oldRatio) ==> oldLen == old(oldLen)) &&
                (oldRatio != old(oldRatio) && |list| >= OLD_MIN_LEN ==>
                 oldLen == Adjusted(old(oldLen), |list|, oldRatio))
              else startRatio == RatioOf(oldPct) && unchanged(this`oldRatio, this`marked, this`lruOld, this`oldLen)
    {
      var ratio := oldPct * OLD_RATIO_DIV / 100;
      if ratio < OLD_RATIO_MIN {
        ratio := OLD_RATIO_MIN;
      } else if ratio > OLD_RATIO_MAX {
        ratio := OLD_RATIO_MAX;
      }
      if adjust {
        if ratio != oldRatio {
          oldRatio := ratio;
          if |list| >= OLD_MIN_LEN {
            OldAdjustLen();
          }
        }
      } else {
        startRatio := ratio;
      }
      RatioRoundTrip(oldPct);
      pct := PctOf(ratio);
    }
  }

  function RatioOf(pct: nat): nat {
    Clamp(pct * OLD_RATIO_DIV / 100, OLD_RATIO_MIN, OLD_RATIO_MAX)
  }

  /** ratio * 100 / OLD_RATIO_DIV, rounded to the nearest integer. */
  function PctOf(ratio: nat): nat {
    (ratio * 200 + OLD_RATIO_DIV) / (2 * OLD_RATIO_DIV)
  }

  /** The percentage read back is the one that was set, brought into 5 to 100. */
  lemma {:induction false} RatioRoundTrip(pct: nat)
    ensures RatioAllowed(RatioOf(pct)) && PctOf(RatioOf(pct)) == Clamp(pct, 5, 100)
  {
    var q := pct * OLD_RATIO_DIV / 100;
    assert 100 * q <= pct * OLD_RATIO_DIV < 100 * q + 100;
    if 5 <= pct <= 100 {
      var x := q * 200 + OLD_RATIO_DIV;
      assert 2 * OLD_RATIO_DIV * pct <= x < 2 * OLD_RATIO_DIV * (pct + 1);
    }
  }

  /** The old length after old_adjust_len. */
  function Adjusted(n: int, len: nat, ratio: nat): int {
    Clamp(n, Target(len, ratio) - OLD_TOLERANCE, Target(len, ratio) + OLD_TOLERANCE)
  }

  /** A run of the operations that leaves the band of the comment: with ratio 1024, 552 blocks are
      added as young ones. */
  method LeaveShareBand() returns (lru: Buf_LRU)
    ensures fresh(lru) && lru.Valid() && |lru.list| == 552 && lru.oldRatio == OLD_RATIO_MAX && lru.oldLen == 507
    ensures !InBand(lru.oldLen, Share(|lru.list|, lru.oldRatio))
  {
    lru := new Buf_LRU(OLD_RATIO_MAX);
    for b := 0 to 552
      invariant fresh(lru) && lru.Valid() && |lru.list| == b && lru.oldRatio == OLD_RATIO_MAX
      invariant forall x :: x in lru.list ==> x < b
      invariant b >= OLD_MIN_LEN ==> lru.oldLen == 507
    {
      FullRatio(b + 1);
      lru.AddBlockLow(b, false);
    }
    FullRatio(552);
  }

  /** With the largest ratio the target is 25 blocks short of the list. */
  lemma {:induction false} FullRatio(len: nat)
    ensures Share(len, OLD_RATIO_MAX) == len && Target(len, OLD_RATIO_MAX) == len - 25
    ensures 512 <= len <= 552 ==> Adjusted(507, len, OLD_RATIO_MAX) == 507
  {
  }

  function Clamp(x: int, lo: int, hi: int): int {
    if x < lo then lo else if x > hi then hi else x
  }

  predicate MarkedFrom(s: seq<nat>, marked: set<nat>, n: nat) {
    forall i :: 0 <= i < |s| ==> (s[i] in marked <==> |s| - n <= i)
  }

  lemma {:induction false} AddedFirst(s: seq<nat>, b: nat, marked: set<nat>, n: nat)
    requires Distinct(s) && b !in s
    ensures Distinct([b] + s)
    ensures n <= |s| && MarkedFrom(s, marked, n) ==> MarkedFrom([b] + s, marked - {b}, n)
  {
    var t := [b] + s;
    forall x | 0 < x < |t| ensures t[x] == s[x - 1] && t[x] != b {
    }
  }

  lemma {:induction false} InsertedSuffix(s: seq<nat>, b: nat, at: nat, marked: set<nat>, n: nat)
    requires Distinct(s) && b !in s && 0 < n <= |s| && at == |s| - n + 1 && MarkedFrom(s, marked, n)
    ensures var t := s[..at] + [b] + s[at..];
            Distinct(t) && MarkedFrom(t, marked + {b}, n + 1) && t[|t| - (n + 1)] == s[|s| - n]
  {
    var t := s[..at] + [b] + s[at..];
    forall x | 0 <= x < |t| ensures t[x] == if x < at then s[x] else if x == at then b else s[x - 1] {
    }
  }

  /** Removing a block other than the first old one leaves a suffix of old blocks that starts
      with the same block. */
  lemma {:induction false} RemovedSuffix(s: seq<nat>, b: nat, marked: set<nat>, n: nat)
    requires Distinct(s) && b in s && n <= |s| && MarkedFrom(s, marked, n) && (n > 0 ==> s[|s| - n] != b)
    ensures var t, m := Removed(s, b), if b in marked then n - 1 else n;
            MarkedFrom(t, marked, m) && (n > 0 ==> 0 < m <= |t| && t[|t| - m] == s[|s| - n])
  {
    var i, t := IndexOf(s, b), Removed(s, b);
    forall x | 0 <= x < |t| ensures t[x] == s[if x < i then x else x + 1] {
    }
  }

  lemma {:induction false} RemovedDistinct(s: seq<nat>, b: nat)
    requires Distinct(s) && b in s
    ensures Distinct(Removed(s, b)) && b !in Removed(s, b)
    ensures forall x :: x in Removed(s, b) ==> x in s
  {
    var i, t := IndexOf(s, b), Removed(s, b);
    forall x | 0 <= x < |t| ensures t[x] == s[if x < i then x else x + 1] {
    }
  }
}
