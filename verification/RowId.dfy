/** Row ids: a counter in memory, of which only every 256th value is logged, and the rule by which
    it is set again after a crash (dict/dict0store.cc, dict/dict0load.cc). */
module RowId {

  const FIRST_ID := 10         // DICT_HDR_FIRST_ID
  const WRITE_MARGIN := 256    // DICT_HDR_ROW_ID_WRITE_MARGIN

  /** The log: the counter in the dictionary header is set, or a row with an id is inserted. */
  datatype LogRec = Header(id: int) | Insert(id: int)

  /** ut_uint64_align_up. */
  function AlignUp(n: int, m: int): int
    requires m > 0
  {
    (n + m - 1) / m * m
  }

  /** The header that a replay of the log gives. */
  function HeaderOf(log: seq<LogRec>): int {
    if log == [] then FIRST_ID
    else if log[|log| - 1].Header? then log[|log| - 1].id
    else HeaderOf(log[..|log| - 1])
  }

  /** The counter at startup, in load_system_tables. */
  function StartId(log: seq<LogRec>): int {
    AlignUp(HeaderOf(log), WRITE_MARGIN) + WRITE_MARGIN
  }

  lemma {:induction false} AlignUpBounds(n: int)
    ensures n <= AlignUp(n, WRITE_MARGIN) < n + WRITE_MARGIN && AlignUp(n, WRITE_MARGIN) % WRITE_MARGIN == 0
    ensures n % WRITE_MARGIN == 0 ==> AlignUp(n, WRITE_MARGIN) == n
  {
  }

  /** Between two logged values the counter stays below the next restart value. */
  lemma {:induction false} NextBelow(header: int, id: int)
    requires header <= id <= AlignUp(header, WRITE_MARGIN) + WRITE_MARGIN && id % WRITE_MARGIN != 0
    ensures id + 1 <= AlignUp(header, WRITE_MARGIN) + WRITE_MARGIN
  {
    AlignUpBounds(header);
  }

  /** Logs that the system writes: an id is inserted only below what a restart would begin with,
      and headers grow by whole margins. */
  ghost predicate Lawful(log: seq<LogRec>) {
    log != [] ==>
      var before, last := log[..|log| - 1], log[|log| - 1];
      Lawful(before) &&
      if last.Header? then last.id % WRITE_MARGIN == 0 && last.id >= HeaderOf(before)
      else last.id < StartId(before)
  }

  /** Whatever prefix of the log survives a crash: it is lawful itself, and the counter restarts
      above every id in it, however many records came after the last logged counter. */
  lemma {:induction false} RestartAbove(log: seq<LogRec>, k: nat, x: nat)
    requires Lawful(log) && x < k <= |log|
    ensures Lawful(log[..k]) && HeaderOf(log[..k]) <= HeaderOf(log)
    ensures log[x].Insert? ==> log[x].id < StartId(log[..k])
  {
    var before := log[..|log| - 1];
    if k == |log| {
      assert log[..k] == log;
      if x < |log| - 1 {
        RestartAbove(before, |log| - 1, x);
        assert before[..|log| - 1] == before;
        StartMonotone(HeaderOf(before), HeaderOf(log));
      }
    } else {
      assert log[..k] == before[..k];
      RestartAbove(before, k, x);
    }
  }

  lemma {:induction false} StartMonotone(a: int, b: int)
    requires a <= b
    ensures AlignUp(a, WRITE_MARGIN) <= AlignUp(b, WRITE_MARGIN)
  {
  }

  lemma {:induction false} PrefixLawful(log: seq<LogRec>, k: nat)
    requires Lawful(log) && k <= |log|
    ensures Lawful(log[..k])
  {
    if k < |log| {
      PrefixLawful(log[..|log| - 1], k);
      assert log[..k] == log[..|log| - 1][..k];
    } else {
      assert log[..k] == log;
    }
  }

  lemma {:induction false} Append(log: seq<LogRec>, r: LogRec)
    requires Lawful(log) && if r.Header? then r.id % WRITE_MARGIN == 0 && r.id >= HeaderOf(log) else r.id < StartId(log)
    ensures Lawful(log + [r]) && HeaderOf(log + [r]) == if r.Header? then r.id else HeaderOf(log)
  {
    assert (log + [r])[..|log|] == log;
  }

  class Store {
    var rowId: int                // m_row_id
    var log: seq<LogRec>          // the log written so far, from the creation of the header on
    ghost var issued: set<int>    // ids given out since the last start

    /** The counter is at most one margin above the logged one, and reaches that limit only
        where it is logged again. */
    ghost predicate Valid()
      reads this
    {
      && Lawful(log) && HeaderOf(log) <= rowId <= StartId(log)
      && (forall x :: 0 <= x < |log| && log[x].Insert? ==> log[x].id < rowId)
      && (forall id :: id in issued ==> id < rowId)
    }

    /** bootstrap_system_tables and the first start. */
    constructor ()
      ensures Valid() && log == [] && issued == {} && rowId == 512
    {
      log, rowId, issued := [], AlignUp(FIRST_ID, WRITE_MARGIN) + WRITE_MARGIN, {};
    }

    /** hdr_flush_row_id. */
    method HdrFlushRowId()
      requires Valid() && rowId % WRITE_MARGIN == 0
      modifies this`log
      ensures Valid() && log == old(log) + [Header(rowId)] && HeaderOf(log) == rowId
    {
      Append(log, Header(rowId));
      AlignUpBounds(rowId);
      log := log + [Header(rowId)];
    }

    /** sys_get_new_row_id: an id above every id that the log holds and every id given out since
        the start; so no id of a row that survived a crash is ever given out again. */
    method SysGetNewRowId() returns (id: int)
      requires Valid()
      modifies this
      ensures Valid() && id == old(rowId) && rowId == id + 1 && id !in old(issued) && issued == old(issued) + {id}
      ensures forall x :: 0 <= x < |old(log)| && old(log)[x].Insert? ==> old(log)[x].id < id
      ensures log == if id % WRITE_MARGIN == 0 then old(log) + [Header(id)] else old(log)
    {
      id := rowId;
      if id % WRITE_MARGIN == 0 {
        HdrFlushRowId();
        AlignUpBounds(id);
      } else {
        NextBelow(HeaderOf(log), id);
      }
      rowId := rowId + 1;
      issued := issued + {id};
    }

    /** A row with an id that was given out is inserted. */
    method InsertRow(id: int)
      requires Valid() && id in issued
      modifies this`log
      ensures Valid() && log == old(log) + [Insert(id)]
    {
      Append(log, Insert(id));
      log := log + [Insert(id)];
    }

    /** A crash that keeps some prefix of the log, and load_system_tables at the next start. */
    method CrashAndRestart(kept: nat)
      requires Valid() && kept <= |log|
      modifies this
      ensures Valid() && log == old(log)[..kept] && issued == {} && rowId == StartId(log)
    {
      PrefixLawful(log, kept);
      forall x | 0 <= x < kept && log[x].Insert? ensures log[x].id < StartId(log[..kept]) {
        RestartAbove(log, kept, x);
      }
      log := log[..kept];
      AlignUpBounds(HeaderOf(log));
      rowId := AlignUp(HeaderOf(log), WRITE_MARGIN) + WRITE_MARGIN;
      issued := {};
    }
  }
}
