/** Building the internal form of an index from its definition: dict/dict0dict.cc. */
module DictIndex {
  import opened Common

  const DATA_N_SYS_COLS := 3

  /** A field: a column of the table, and the length of the indexed prefix, or 0 for all of it. */
  datatype Field = Field(col: nat, prefixLen: nat)

  /** An index with the number of its first fields that identify an entry. */
  datatype Index = Index(unique: bool, fields: seq<Field>, nUniq: nat)

  /** A table has its own columns first, then DB_ROW_ID, DB_TRX_ID and DB_ROLL_PTR. */
  datatype Table = Table(nCols: nat)

  predicate TableOk(table: Table) {
    table.nCols >= DATA_N_SYS_COLS
  }

  function SysCol(table: Table, n: nat): nat
    requires TableOk(table) && n < DATA_N_SYS_COLS
  {
    table.nCols - DATA_N_SYS_COLS + n
  }

  predicate FieldsOf(table: Table, fields: seq<Field>) {
    forall i :: 0 <= i < |fields| ==> fields[i].col < table.nCols
  }

  /** The whole column is among the fields. */
  predicate Indexed(fields: seq<Field>, col: nat) {
    Field(col, 0) in fields
  }

  /** Mark the columns that are contained as a whole. */
  method MarkIndexed(table: Table, fields: seq<Field>) returns (indexed: seq<bool>)
    requires FieldsOf(table, fields)
    ensures |indexed| == table.nCols && forall c :: 0 <= c < table.nCols ==> (indexed[c] <==> Indexed(fields, c))
  {
    indexed := seq(table.nCols, _ => false);
    for i := 0 to |fields|
      invariant |indexed| == table.nCols
      invariant forall c :: 0 <= c < table.nCols ==> (indexed[c] <==> Indexed(fields[..i], c))
    {
      assert fields[..i + 1] == fields[..i] + [fields[i]];
      if fields[i].prefixLen == 0 {
        indexed := indexed[fields[i].col := true];
      }
    }
    assert fields[..|fields|] == fields;
  }

  lemma {:induction false} StillIndexed(fields: seq<Field>, more: seq<Field>, c: nat)
    requires fields <= more && Indexed(fields, c)
    ensures Indexed(more, c)
  {
    var i :| 0 <= i < |fields| && fields[i] == Field(c, 0);
    assert more[i] == fields[i];
  }

  /** build_cluster_index: the definition's fields, the row id if they are not unique, the other
      two system columns, and every column that is not there as a whole yet, in ascending order. */
  method BuildClusterIndex(table: Table, def: Index) returns (r: Index)
    requires TableOk(table) && FieldsOf(table, def.fields)
    ensures FieldsOf(table, r.fields) && r.unique == def.unique
    ensures |r.fields| <= |def.fields| + table.nCols
    ensures def.fields <= r.fields && r.nUniq == |def.fields| + (if def.unique then 0 else 1) &&
            r.nUniq + 2 <= |r.fields|
    ensures !def.unique ==> r.fields[r.nUniq - 1] == Field(SysCol(table, 0), 0)
    ensures r.fields[r.nUniq] == Field(SysCol(table, 1), 0) && r.fields[r.nUniq + 1] == Field(SysCol(table, 2), 0)
    ensures forall c :: 0 <= c < table.nCols && c != SysCol(table, 0) ==> Indexed(r.fields, c)
    ensures forall i :: r.nUniq + 2 <= i < |r.fields| ==>
              !Indexed(r.fields[..i], r.fields[i].col) && r.fields[i].prefixLen == 0 &&
              r.fields[i].col < table.nCols - DATA_N_SYS_COLS
    ensures forall i, j :: r.nUniq + 2 <= i < j < |r.fields| ==> r.fields[i].col < r.fields[j].col
  {
    var fields := def.fields;
    var nUniq := |fields|;
    if !def.unique {
      nUniq := |fields| + 1;
      fields := fields + [Field(SysCol(table, 0), 0)];
    }
    fields := fields + [Field(SysCol(table, 1), 0), Field(SysCol(table, 2), 0)];
    var indexed := MarkIndexed(table, fields);
    ghost var base := fields;
    for c := 0 to table.nCols - DATA_N_SYS_COLS
      invariant base <= fields && |fields| <= |base| + c && FieldsOf(table, fields)
      invariant forall x :: 0 <= x < c ==> Indexed(fields, x)
      invariant forall i :: |base| <= i < |fields| ==>
                              fields[i].col < c && fields[i].prefixLen == 0 && !Indexed(base, fields[i].col) &&
                              forall j :: |base| <= j < i ==> fields[j].col < fields[i].col
    {
      ghost var before := fields;
      if indexed[c] {
        StillIndexed(base, fields, c);
      } else {
        fields := fields + [Field(c, 0)];
        assert fields[|before|] == Field(c, 0);
      }
      forall x | 0 <= x < c ensures Indexed(fields, x) {
        StillIndexed(before, fields, x);
      }
    }
    forall c | 0 <= c < table.nCols && c != SysCol(table, 0) ensures Indexed(fields, c) {
      if c >= table.nCols - DATA_N_SYS_COLS {
        assert base[nUniq] == Field(SysCol(table, 1), 0) && base[nUniq + 1] == Field(SysCol(table, 2), 0);
        StillIndexed(base, fields, c);
      }
    }
    forall i | |base| <= i < |fields| ensures !Indexed(fields[..i], fields[i].col) {
      assert fields[..i] == base + fields[|base|..i];
    }
    r := Index(def.unique, fields, nUniq);
  }

  /** Of the fields in `key`, those whose columns are not in `fields` as a whole, in their order. */
  function Missing(fields: seq<Field>, key: seq<Field>): (m: seq<Field>)
    ensures |m| <= |key|
  {
    if key == [] then []
    else
      var last := key[|key| - 1];
      Missing(fields, key[..|key| - 1]) + if Indexed(fields, last.col) then [] else [last]
  }

  lemma {:induction false} MissingIs(fields: seq<Field>, key: seq<Field>)
    ensures forall f :: f in Missing(fields, key) <==> f in key && !Indexed(fields, f.col)
  {
    if key != [] {
      MissingIs(fields, key[..|key| - 1]);
      assert key == key[..|key| - 1] + [key[|key| - 1]];
    }
  }

  /** build_secondary_index: the definition's fields, and the unique fields of the clustered index
      whose columns are not there as a whole, in the order of that index. */
  method BuildSecondaryIndex(table: Table, clust: Index, def: Index) returns (r: Index)
    requires FieldsOf(table, def.fields) && FieldsOf(table, clust.fields) && clust.nUniq <= |clust.fields|
    ensures FieldsOf(table, r.fields) && r.unique == def.unique && |r.fields| <= |def.fields| + 1 + clust.nUniq
    ensures r.fields == def.fields + Missing(def.fields, clust.fields[..clust.nUniq])
    ensures r.nUniq == if def.unique then |def.fields| else |r.fields|
    ensures HoldsKey(r, clust)
  {
    var fields := def.fields;
    var indexed := MarkIndexed(table, fields);
    ghost var key := clust.fields[..clust.nUniq];
    for j := 0 to clust.nUniq
      invariant fields == def.fields + Missing(def.fields, key[..j])
    {
      var f := clust.fields[j];
      MissingNext(def.fields, key, j);
      if !indexed[f.col] {
        fields := fields + [f];
      }
    }
    assert key[..clust.nUniq] == key;
    r := Index(def.unique, fields, if def.unique then |def.fields| else |fields|);
    BuiltHolds(table, def.fields, clust, r);
  }

  lemma {:induction false} MissingNext(fields: seq<Field>, key: seq<Field>, j: nat)
    requires j < |key|
    ensures Missing(fields, key[..j + 1])
         == Missing(fields, key[..j]) + if Indexed(fields, key[j].col) then [] else [key[j]]
  {
    assert key[..j + 1][..j] == key[..j];
  }

  lemma {:induction false} BuiltHolds(table: Table, fields: seq<Field>, clust: Index, r: Index)
    requires FieldsOf(table, fields) && FieldsOf(table, clust.fields) && clust.nUniq <= |clust.fields|
    requires r.fields == fields + Missing(fields, clust.fields[..clust.nUniq])
    ensures FieldsOf(table, r.fields) && HoldsKey(r, clust) && |r.fields| <= |fields| + clust.nUniq
  {
    var key := clust.fields[..clust.nUniq];
    MissingHolds(table, fields, key);
    forall j | 0 <= j < clust.nUniq ensures HasUsable(r.fields, clust.fields[j]) {
      assert key[j] == clust.fields[j];
    }
  }

  /** With the missing fields, all of the key can be read off. */
  lemma {:induction false} MissingHolds(table: Table, fields: seq<Field>, key: seq<Field>)
    requires FieldsOf(table, fields) && FieldsOf(table, key)
    ensures FieldsOf(table, fields + Missing(fields, key))
    ensures forall x :: 0 <= x < |key| ==> HasUsable(fields + Missing(fields, key), key[x])
  {
    var all := fields + Missing(fields, key);
    MissingIs(fields, key);
    forall i | 0 <= i < |all| ensures all[i].col < table.nCols {
      if i >= |fields| {
        assert Missing(fields, key)[i - |fields|] in key;
      }
    }
    forall x | 0 <= x < |key| ensures HasUsable(all, key[x]) {
      var f := if Indexed(fields, key[x].col) then Field(key[x].col, 0) else key[x];
      assert f in all;
      var i :| 0 <= i < |all| && all[i] == f;
      assert Usable(all[i], key[x]);
    }
  }

  /** The value of field f can be used for `want`: it holds as much of the same column. */
  predicate Usable(f: Field, want: Field) {
    f.col == want.col && (f.prefixLen == 0 || (f.prefixLen >= want.prefixLen && want.prefixLen != 0))
  }

  ghost predicate HasUsable(fields: seq<Field>, want: Field) {
    exists i :: 0 <= i < |fields| && Usable(fields[i], want)
  }

  /** Each unique field of the clustered index has a usable position in the index. */
  ghost predicate HoldsKey(index: Index, clust: Index) {
    clust.nUniq <= |clust.fields| &&
    forall j :: 0 <= j < clust.nUniq ==> HasUsable(index.fields, clust.fields[j])
  }

  /** get_nth_field_pos: the first usable position. In an index that was built against the
      clustered index, the lookup of a unique field never fails. */
  method GetNthFieldPos(index: Index, clust: Index, n: nat) returns (pos: Option<nat>)
    requires n < |clust.fields|
    ensures pos.Some? ==> pos.value < |index.fields| && Usable(index.fields[pos.value], clust.fields[n]) &&
                          forall i :: 0 <= i < pos.value ==> !Usable(index.fields[i], clust.fields[n])
    ensures pos.None? ==> forall i :: 0 <= i < |index.fields| ==> !Usable(index.fields[i], clust.fields[n])
    ensures HoldsKey(index, clust) && n < clust.nUniq ==> pos.Some?
  {
    for i := 0 to |index.fields|
      invariant forall j :: 0 <= j < i ==> !Usable(index.fields[j], clust.fields[n])
    {
      if index.fields[i].col == clust.fields[n].col &&
         (index.fields[i].prefixLen == 0 ||
          (index.fields[i].prefixLen >= clust.fields[n].prefixLen && clust.fields[n].prefixLen != 0)) {
        return Some(i);
      }
    }
    return None;
  }

  // ----- what entries determine -----

  /** A row: the bytes of its columns. */
  type Row = seq<seq<int>>

  function Entry(row: Row, f: Field): seq<int>
    requires f.col < |row|
  {
    if f.prefixLen == 0 || f.prefixLen >= |row[f.col]| then row[f.col] else row[f.col][..f.prefixLen]
  }

  ghost predicate SameEntries(a: Row, b: Row, fields: seq<Field>)
    requires forall i :: 0 <= i < |fields| ==> fields[i].col < |a| && fields[i].col < |b|
  {
    forall i :: 0 <= i < |fields| ==> Entry(a, fields[i]) == Entry(b, fields[i])
  }

  /** A usable field determines the wanted one. */
  lemma {:induction false} UsableDetermines(a: Row, b: Row, f: Field, want: Field)
    requires Usable(f, want) && f.col < |a| && f.col < |b| && Entry(a, f) == Entry(b, f)
    ensures Entry(a, want) == Entry(b, want)
  {
    var x, y, p, q := a[f.col], b[f.col], f.prefixLen, want.prefixLen;
    if p != 0 && (p < |x| || p < |y|) {
      assert |x| >= p && |y| >= p ==> x[..q] == x[..p][..q] && y[..q] == y[..p][..q];
    }
  }

  /** Two rows with the same entry in a secondary index have the same clustered key. */
  lemma {:induction false} SecondaryDeterminesKey(table: Table, index: Index, clust: Index, a: Row, b: Row)
    requires FieldsOf(table, index.fields) && FieldsOf(table, clust.fields) && HoldsKey(index, clust)
    requires |a| == table.nCols && |b| == table.nCols && SameEntries(a, b, index.fields)
    ensures SameEntries(a, b, clust.fields[..clust.nUniq])
  {
    forall j | 0 <= j < clust.nUniq ensures Entry(a, clust.fields[j]) == Entry(b, clust.fields[j]) {
      var i :| 0 <= i < |index.fields| && Usable(index.fields[i], clust.fields[j]);
      UsableDetermines(a, b, index.fields[i], clust.fields[j]);
    }
  }

  /** Two rows with the same entry in the clustered index agree in each column that the index
      holds as a whole. */
  lemma {:induction false} ClusteredDeterminesRow(table: Table, clust: Index, a: Row, b: Row, c: nat)
    requires FieldsOf(table, clust.fields) && |a| == table.nCols && |b| == table.nCols &&
             SameEntries(a, b, clust.fields)
    requires c < table.nCols && Indexed(clust.fields, c)
    ensures a[c] == b[c]
  {
    var i :| 0 <= i < |clust.fields| && clust.fields[i] == Field(c, 0);
    assert Entry(a, clust.fields[i]) == Entry(b, clust.fields[i]);
  }
}
