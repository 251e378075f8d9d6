/**
 * The institution table of the pipeline: the sector filter of the loader,
 * the shared left-join stage (admissions, graduation rates, enrollment and
 * demographics, Pell grants), the two derived label columns, the removal of
 * zero-rate artifacts, the output column projection, and the stage-by-stage
 * driver that chains them and reports how many rows the post-filter dropped.
 */
module Institutions {
  import opened Wrappers
  import opened Seqs
  import opened Decimal
  import opened Frames

  // ---------------------------------------------------------------------
  // Loader: keep the 4-year sectors 1, 2 and 3
  // ---------------------------------------------------------------------

  predicate FourYearSector(r: Row) {
    Get(r, "SECTOR") == Num(1.0) || Get(r, "SECTOR") == Num(2.0) || Get(r, "SECTOR") == Num(3.0)
  }

  /** `df[df["SECTOR"].isin([1, 2, 3])]`: every surviving row is in sector 1, 2 or 3, and every such row survives. */
  function LoadInstitutions(hd: Table): (t: Table)
    requires "SECTOR" in hd.columns
    ensures t.columns == hd.columns
    ensures |t.rows| <= |hd.rows|
    ensures forall r :: r in t.rows ==> r in hd.rows && Get(r, "SECTOR") in {Num(1.0), Num(2.0), Num(3.0)}
    ensures forall r :: r in hd.rows && Get(r, "SECTOR") in {Num(1.0), Num(2.0), Num(3.0)} ==> r in t.rows
  {
    FilterRows(hd, FourYearSector)
  }

  /** The loaded rows are the 4-year rows of the source, untouched and in their original order. */
  lemma LoadKeepsOrder(hd: Table)
    requires "SECTOR" in hd.columns
    ensures StrictlyIncreasing(KeptIndices(hd.rows, FourYearSector))
    ensures forall i :: 0 <= i < |hd.rows| ==> (FourYearSector(hd.rows[i]) <==> i in KeptIndices(hd.rows, FourYearSector))
    ensures |LoadInstitutions(hd).rows| == |KeptIndices(hd.rows, FourYearSector)|
    ensures forall m :: 0 <= m < |LoadInstitutions(hd).rows| ==>
      LoadInstitutions(hd).rows[m] == hd.rows[KeptIndices(hd.rows, FourYearSector)[m]]
  {
    FilterByIndices(hd.rows, FourYearSector);
  }

  // ---------------------------------------------------------------------
  // The shared join stage
  // ---------------------------------------------------------------------

  /** One instance of the join stage: the key column and the (source, output) names of the value columns. */
  datatype JoinSpec = JoinSpec(key: string, renames: seq<(string, string)>)

  const Admissions := JoinSpec("UNITID", [("DVADM01", "admission_rate")])

  const GraduationRates := JoinSpec("UNITID", [("BAGR150", "grad_rate_6yr")])

  const EnrollmentDemographics := JoinSpec("UNITID", [
    ("ENRTOT", "enrollment_total"), ("EFUG", "enrollment_ug"),
    ("PCTENRW", "pct_women"), ("PCTENRWH", "pct_white"),
    ("PCTENRBK", "pct_black"), ("PCTENRHS", "pct_hispanic"),
    ("PCTENRAS", "pct_asian"), ("PCTENRAN", "pct_aian"),
    ("PCTENRNH", "pct_nhpi"), ("PCTENR2M", "pct_two_or_more"),
    ("PCTENRUN", "pct_unknown"), ("PCTENRNR", "pct_nonresident")])

  const Pell := JoinSpec("UNITID", [("UPGRNTP", "pct_pell")])

  /** A row with every listed column coerced to a number or missing. */
  function CoerceRow(row: Row, cols: seq<string>): Row {
    map c | c in row :: if c in cols then Coerce(row[c]) else row[c]
  }

  /** The frame with every column in `cols` coerced, every other cell as it was. */
  function Coerced(t: Table, cols: seq<string>): (r: Table)
    ensures r.columns == t.columns && |r.rows| == |t.rows|
    ensures forall i, c :: 0 <= i < |t.rows| ==>
      Get(r.rows[i], c) == if c in cols then Coerce(Get(t.rows[i], c)) else Get(t.rows[i], c)
  {
    Table(t.columns, MapSeq(t.rows, (row: Row) => CoerceRow(row, cols)))
  }

  /** `df[c] = pd.to_numeric(df[c], errors="coerce")` */
  function CoerceColumn(t: Table, c: string): Table {
    AssignColumn(t, c, (row: Row) => Coerce(Get(row, c)))
  }

  /** Coercing one more present column of an already coerced frame. */
  lemma CoerceStep(t: Table, done: seq<string>, c: string)
    requires WellFormed(t) && c in t.columns
    ensures CoerceColumn(Coerced(t, done), c) == Coerced(t, done + [c])
  {
    var before := Coerced(t, done);
    var lhs := CoerceColumn(before, c);
    var rhs := Coerced(t, done + [c]);
    forall i | 0 <= i < |t.rows| ensures lhs.rows[i] == rhs.rows[i] {
      var row := t.rows[i];
      assert row in t.rows;
      assert before.rows[i] == CoerceRow(row, done);
      assert lhs.rows[i] == before.rows[i][c := Coerce(Get(before.rows[i], c))];
      assert rhs.rows[i] == CoerceRow(row, done + [c]);
      CoerceRowStep(row, done, c);
    }
  }

  /** Coercing no column changes nothing. */
  lemma CoercedNone(t: Table)
    ensures Coerced(t, []) == t
  {
    var r := Coerced(t, []);
    forall i | 0 <= i < |t.rows| ensures r.rows[i] == t.rows[i] {
      assert r.rows[i] == CoerceRow(t.rows[i], []);
      CoerceRowNone(t.rows[i]);
    }
  }

  lemma CoerceRowNone(row: Row)
    ensures CoerceRow(row, []) == row
  {
    var r := CoerceRow(row, []);
    assert r.Keys == row.Keys;
    forall k | k in r ensures r[k] == row[k] {
    }
  }

  /** Coercing one more column of a row that has it. */
  lemma CoerceRowStep(row: Row, done: seq<string>, c: string)
    requires c in row
    ensures CoerceRow(row, done)[c := Coerce(Get(CoerceRow(row, done), c))] == CoerceRow(row, done + [c])
  {
    var lhs := CoerceRow(row, done)[c := Coerce(Get(CoerceRow(row, done), c))];
    var rhs := CoerceRow(row, done + [c]);
    CoerceIdempotent(row[c]);
    assert lhs.Keys == rhs.Keys;
    forall k | k in lhs ensures lhs[k] == rhs[k] {
    }
  }

  lemma CoercePrefix(t: Table, cols: seq<string>, k: nat)
    requires WellFormed(t) && k < |cols| && cols[k] in t.columns
    ensures CoerceColumn(Coerced(t, cols[..k]), cols[k]) == Coerced(t, cols[..k + 1])
  {
    CoerceStep(t, cols[..k], cols[k]);
    assert cols[..k + 1] == cols[..k] + [cols[k]];
  }

  /**
   * `for col in cols: ef[col] = pd.to_numeric(ef[col], errors="coerce")`:
   * afterwards every listed column is coerced and nothing else has changed.
   */
  method CoerceColumns(t: Table, cols: seq<string>) returns (r: Table)
    requires WellFormed(t)
    requires forall m :: 0 <= m < |cols| ==> cols[m] in t.columns
    ensures r == Coerced(t, cols)
  {
    r := t;
    CoercedNone(t);
    for k := 0 to |cols|
      invariant r == Coerced(t, cols[..k])
    {
      CoercePrefix(t, cols, k);
      r := CoerceColumn(r, cols[k]);
    }
    assert cols[..|cols|] == cols;
  }

  /**
   * One join stage: project the auxiliary frame to the key and the value
   * columns, rename them, coerce the values, and left-merge onto `base`.
   * Against an auxiliary frame whose keys are unique the base rows come out
   * exactly, one each and in order, each extended with the coerced values of
   * its matching row, or with missing values when no key matches.
   */
  method Join(base: Table, aux: Table, spec: JoinSpec) returns (r: Table)
    requires Distinct([spec.key] + Targets(spec.renames))
    requires spec.key in base.columns && Provides(aux, spec)
    requires forall c :: c in Targets(spec.renames) ==> c !in base.columns
    ensures r.columns == base.columns + Targets(spec.renames)
    ensures |r.rows| >= |base.rows|
    ensures DrawnFrom(r, base, Targets(spec.renames)) && NumericIn(r, Targets(spec.renames))
    ensures UniqueKeys(aux.rows, spec.key) ==> |r.rows| == |base.rows|
    ensures UniqueKeys(aux.rows, spec.key) ==>
      forall i, c :: 0 <= i < |base.rows| && c !in Targets(spec.renames) ==> Get(r.rows[i], c) == Get(base.rows[i], c)
    ensures UniqueKeys(aux.rows, spec.key) ==>
      forall i, j, m ::
        (0 <= i < |base.rows| && 0 <= j < |aux.rows| && 0 <= m < |spec.renames| &&
         Get(aux.rows[j], spec.key) == Get(base.rows[i], spec.key)) ==>
        Get(r.rows[i], spec.renames[m].1) == Coerce(Get(aux.rows[j], spec.renames[m].0))
    ensures UniqueKeys(aux.rows, spec.key) ==>
      forall i, m :: 0 <= i < |base.rows| && 0 <= m < |spec.renames| && NoMatch(aux.rows, spec.key, Get(base.rows[i], spec.key)) ==>
        Get(r.rows[i], spec.renames[m].1) == Missing
  {
    var key, targets := spec.key, Targets(spec.renames);
    var projected := SelectRenamed(aux, key, spec.renames);
    var values := CoerceColumns(projected, targets);
    AddedTargets(values, key, spec.renames);
    r := LeftMerge(base, values, key);
    PreparedCells(aux, spec, values);
    JoinedTable(base, aux, spec, values, r);
    if UniqueKeys(aux.rows, key) {
      JoinedUnique(base, aux, spec, values, r);
    }
  }

  /** The joined frame, whatever the keys. */
  lemma JoinedTable(base: Table, aux: Table, spec: JoinSpec, values: Table, r: Table)
    requires |values.rows| == |aux.rows|
    requires forall j, m :: 0 <= j < |aux.rows| && 0 <= m < |spec.renames| ==>
      Get(values.rows[j], spec.renames[m].1) == Coerce(Get(aux.rows[j], spec.renames[m].0))
    requires r.rows == MergeRows(base.rows, values.rows, spec.key, Targets(spec.renames))
    ensures |r.rows| >= |base.rows|
    ensures DrawnFrom(r, base, Targets(spec.renames)) && NumericIn(r, Targets(spec.renames))
  {
    JoinedProvenance(base, aux, spec, values);
  }

  /** The joined frame against an auxiliary frame with unique keys. */
  lemma JoinedUnique(base: Table, aux: Table, spec: JoinSpec, values: Table, r: Table)
    requires |values.rows| == |aux.rows|
    requires forall j :: 0 <= j < |aux.rows| ==> Get(values.rows[j], spec.key) == Get(aux.rows[j], spec.key)
    requires forall j, m :: 0 <= j < |aux.rows| && 0 <= m < |spec.renames| ==>
      Get(values.rows[j], spec.renames[m].1) == Coerce(Get(aux.rows[j], spec.renames[m].0))
    requires UniqueKeys(aux.rows, spec.key)
    requires r.rows == MergeRows(base.rows, values.rows, spec.key, Targets(spec.renames))
    ensures |r.rows| == |base.rows|
    ensures forall i, c :: 0 <= i < |base.rows| && c !in Targets(spec.renames) ==> Get(r.rows[i], c) == Get(base.rows[i], c)
    ensures forall i, j, m ::
        (0 <= i < |base.rows| && 0 <= j < |aux.rows| && 0 <= m < |spec.renames| &&
         Get(aux.rows[j], spec.key) == Get(base.rows[i], spec.key)) ==>
        Get(r.rows[i], spec.renames[m].1) == Coerce(Get(aux.rows[j], spec.renames[m].0))
    ensures forall i, m :: 0 <= i < |base.rows| && 0 <= m < |spec.renames| && NoMatch(aux.rows, spec.key, Get(base.rows[i], spec.key)) ==>
        Get(r.rows[i], spec.renames[m].1) == Missing
  {
    JoinedRows(base, aux, spec, values);
  }

  /** Whatever the keys: base columns come from a base row, output columns hold numbers or missing. */
  lemma JoinedProvenance(base: Table, aux: Table, spec: JoinSpec, values: Table)
    requires |values.rows| == |aux.rows|
    requires forall j, m :: 0 <= j < |aux.rows| && 0 <= m < |spec.renames| ==>
      Get(values.rows[j], spec.renames[m].1) == Coerce(Get(aux.rows[j], spec.renames[m].0))
    ensures forall row, c :: row in MergeRows(base.rows, values.rows, spec.key, Targets(spec.renames)) && c !in Targets(spec.renames) ==>
      Get(row, c) in Column(base.rows, c)
    ensures forall row, c :: row in MergeRows(base.rows, values.rows, spec.key, Targets(spec.renames)) && c in Targets(spec.renames) ==>
      Get(row, c).Missing? || Get(row, c).Num?
  {
    MergeRowsProvenance(base.rows, values.rows, spec.key, Targets(spec.renames));
    PreparedNumeric(aux, spec, values);
  }

  /** All joined rows against an auxiliary frame with unique keys. */
  lemma JoinedRows(base: Table, aux: Table, spec: JoinSpec, values: Table)
    requires |values.rows| == |aux.rows|
    requires forall j :: 0 <= j < |aux.rows| ==> Get(values.rows[j], spec.key) == Get(aux.rows[j], spec.key)
    requires forall j, m :: 0 <= j < |aux.rows| && 0 <= m < |spec.renames| ==>
      Get(values.rows[j], spec.renames[m].1) == Coerce(Get(aux.rows[j], spec.renames[m].0))
    requires UniqueKeys(aux.rows, spec.key)
    ensures |MergeRows(base.rows, values.rows, spec.key, Targets(spec.renames))| == |base.rows|
    ensures forall i, c :: 0 <= i < |base.rows| && c !in Targets(spec.renames) ==>
      Get(MergeRows(base.rows, values.rows, spec.key, Targets(spec.renames))[i], c) == Get(base.rows[i], c)
    ensures forall i, j, m ::
        (0 <= i < |base.rows| && 0 <= j < |aux.rows| && 0 <= m < |spec.renames| &&
         Get(aux.rows[j], spec.key) == Get(base.rows[i], spec.key)) ==>
        Get(MergeRows(base.rows, values.rows, spec.key, Targets(spec.renames))[i], spec.renames[m].1) ==
        Coerce(Get(aux.rows[j], spec.renames[m].0))
    ensures forall i, m :: 0 <= i < |base.rows| && 0 <= m < |spec.renames| && NoMatch(aux.rows, spec.key, Get(base.rows[i], spec.key)) ==>
      Get(MergeRows(base.rows, values.rows, spec.key, Targets(spec.renames))[i], spec.renames[m].1) == Missing
  {
    var rows := MergeRows(base.rows, values.rows, spec.key, Targets(spec.renames));
    assert UniqueKeys(values.rows, spec.key);
    LeftMergeUnique(base.rows, values.rows, spec.key, Targets(spec.renames));
    forall i | 0 <= i < |base.rows|
      ensures forall c :: c !in Targets(spec.renames) ==> Get(rows[i], c) == Get(base.rows[i], c)
      ensures forall j, m ::
           (0 <= j < |aux.rows| && 0 <= m < |spec.renames| && Get(aux.rows[j], spec.key) == Get(base.rows[i], spec.key)) ==>
           Get(rows[i], spec.renames[m].1) == Coerce(Get(aux.rows[j], spec.renames[m].0))
      ensures NoMatch(aux.rows, spec.key, Get(base.rows[i], spec.key)) ==>
           forall m :: 0 <= m < |spec.renames| ==> Get(rows[i], spec.renames[m].1) == Missing
    {
      JoinedRow(base, aux, spec, values, i);
    }
  }

  /** Outside the `added` columns, every cell of `t` is a value the same column takes in `src`. */
  ghost predicate DrawnFrom(t: Table, src: Table, added: seq<string>) {
    forall row, c :: row in t.rows && c !in added ==> Get(row, c) in Column(src.rows, c)
  }

  /** In the listed columns every cell of `t` is a number or missing. */
  ghost predicate NumericIn(t: Table, cols: seq<string>) {
    forall row, c :: row in t.rows && c in cols ==> Get(row, c).Missing? || Get(row, c).Num?
  }

  /** Two stages of joins compose: the added columns accumulate. */
  lemma DrawnFromChain(src: Table, a: Table, b: Table, acc: seq<string>, added: seq<string>)
    requires DrawnFrom(a, src, acc) && NumericIn(a, acc)
    requires DrawnFrom(b, a, added) && NumericIn(b, added)
    ensures DrawnFrom(b, src, acc + added) && NumericIn(b, acc + added)
  {
    forall row, c | row in b.rows && c !in added
      ensures Get(row, c) in Column(src.rows, c) || c in acc
      ensures c in acc ==> Get(row, c).Missing? || Get(row, c).Num?
    {
      var prev :| prev in a.rows && Get(prev, c) == Get(row, c);
    }
  }

  /** A frame is drawn from itself, with nothing added. */
  lemma DrawnFromSelf(t: Table)
    ensures DrawnFrom(t, t, []) && NumericIn(t, [])
  {
    forall row, c | row in t.rows ensures Get(row, c) in Column(t.rows, c) {
    }
  }

  /** The auxiliary frame has the key and every source column the stage reads. */
  predicate Provides(aux: Table, spec: JoinSpec) {
    spec.key in aux.columns && forall m :: 0 <= m < |spec.renames| ==> spec.renames[m].0 in aux.columns
  }

  /** Every value the prepared frame holds in an output column is a number or missing. */
  lemma PreparedNumeric(aux: Table, spec: JoinSpec, values: Table)
    requires |values.rows| == |aux.rows|
    requires forall j, m :: 0 <= j < |aux.rows| && 0 <= m < |spec.renames| ==>
      Get(values.rows[j], spec.renames[m].1) == Coerce(Get(aux.rows[j], spec.renames[m].0))
    ensures forall c, v :: c in Targets(spec.renames) && v in Column(values.rows, c) ==> v.Missing? || v.Num?
  {
    forall c, v | c in Targets(spec.renames) && v in Column(values.rows, c) ensures v.Missing? || v.Num? {
      var row :| row in values.rows && Get(row, c) == v;
      var j :| 0 <= j < |values.rows| && values.rows[j] == row;
      var m :| 0 <= m < |spec.renames| && Targets(spec.renames)[m] == c;
      assert Get(values.rows[j], spec.renames[m].1) == Coerce(Get(aux.rows[j], spec.renames[m].0));
    }
  }

  /** The key is none of the output names. */
  lemma KeyNotTarget(key: string, renames: seq<(string, string)>)
    requires Distinct([key] + Targets(renames))
    ensures key !in Targets(renames)
  {
    var ks := [key] + Targets(renames);
    forall m | 0 <= m < |Targets(renames)| ensures Targets(renames)[m] != key {
      assert ks[0] != ks[m + 1];
    }
  }

  /** The prepared auxiliary frame contributes exactly the renamed value columns. */
  lemma AddedTargets(values: Table, key: string, renames: seq<(string, string)>)
    requires Distinct([key] + Targets(renames))
    requires values.columns == [key] + Targets(renames)
    ensures AddedColumns(values, key) == Targets(renames)
  {
    KeyNotTarget(key, renames);
    FilterNone([key], c => c != key);
    FilterAll(Targets(renames), c => c != key);
    FilterAppend([key], Targets(renames), c => c != key);
  }

  /** The cells of the prepared auxiliary frame: the key as read, the values coerced. */
  lemma PreparedCells(aux: Table, spec: JoinSpec, values: Table)
    requires Distinct([spec.key] + Targets(spec.renames))
    requires values == Coerced(SelectRenamed(aux, spec.key, spec.renames), Targets(spec.renames))
    ensures |values.rows| == |aux.rows|
    ensures forall j :: 0 <= j < |aux.rows| ==> Get(values.rows[j], spec.key) == Get(aux.rows[j], spec.key)
    ensures forall j, m :: 0 <= j < |aux.rows| && 0 <= m < |spec.renames| ==>
      Get(values.rows[j], spec.renames[m].1) == Coerce(Get(aux.rows[j], spec.renames[m].0))
  {
    PreparedKeys(aux, spec, values);
    PreparedValues(aux, spec, values);
  }

  lemma PreparedKeys(aux: Table, spec: JoinSpec, values: Table)
    requires Distinct([spec.key] + Targets(spec.renames))
    requires values == Coerced(SelectRenamed(aux, spec.key, spec.renames), Targets(spec.renames))
    ensures |values.rows| == |aux.rows|
    ensures forall j :: 0 <= j < |aux.rows| ==> Get(values.rows[j], spec.key) == Get(aux.rows[j], spec.key)
  {
    KeyNotTarget(spec.key, spec.renames);
  }

  lemma PreparedValues(aux: Table, spec: JoinSpec, values: Table)
    requires Distinct([spec.key] + Targets(spec.renames))
    requires values == Coerced(SelectRenamed(aux, spec.key, spec.renames), Targets(spec.renames))
    ensures |values.rows| == |aux.rows|
    ensures forall j, m :: 0 <= j < |aux.rows| && 0 <= m < |spec.renames| ==>
      Get(values.rows[j], spec.renames[m].1) == Coerce(Get(aux.rows[j], spec.renames[m].0))
  {
    var targets := Targets(spec.renames);
    var selected := SelectRenamed(aux, spec.key, spec.renames);
    forall j, m | 0 <= j < |aux.rows| && 0 <= m < |spec.renames|
      ensures Get(values.rows[j], spec.renames[m].1) == Coerce(Get(aux.rows[j], spec.renames[m].0))
    {
      assert spec.renames[m].1 == targets[m];
      assert Get(selected.rows[j], spec.renames[m].1) == Get(aux.rows[j], spec.renames[m].0);
    }
  }

  /** Joined row `i` against an auxiliary frame with unique keys. */
  lemma JoinedRow(base: Table, aux: Table, spec: JoinSpec, values: Table, i: nat)
    requires |values.rows| == |aux.rows|
    requires forall j :: 0 <= j < |aux.rows| ==> Get(values.rows[j], spec.key) == Get(aux.rows[j], spec.key)
    requires forall j, m :: 0 <= j < |aux.rows| && 0 <= m < |spec.renames| ==>
      Get(values.rows[j], spec.renames[m].1) == Coerce(Get(aux.rows[j], spec.renames[m].0))
    requires UniqueKeys(aux.rows, spec.key)
    requires i < |base.rows|
    ensures |MergeRows(base.rows, values.rows, spec.key, Targets(spec.renames))| == |base.rows|
    ensures var row := MergeRows(base.rows, values.rows, spec.key, Targets(spec.renames))[i];
      && (forall c :: c !in Targets(spec.renames) ==> Get(row, c) == Get(base.rows[i], c))
      && (forall j, m ::
           (0 <= j < |aux.rows| && 0 <= m < |spec.renames| && Get(aux.rows[j], spec.key) == Get(base.rows[i], spec.key)) ==>
           Get(row, spec.renames[m].1) == Coerce(Get(aux.rows[j], spec.renames[m].0)))
      && (NoMatch(aux.rows, spec.key, Get(base.rows[i], spec.key)) ==>
           forall m :: 0 <= m < |spec.renames| ==> Get(row, spec.renames[m].1) == Missing)
  {
    JoinedRowKept(base, aux, spec, values, i);
    JoinedRowMatched(base, aux, spec, values, i);
    JoinedRowUnmatched(base, aux, spec, values, i);
  }

  lemma JoinedRowKept(base: Table, aux: Table, spec: JoinSpec, values: Table, i: nat)
    requires |values.rows| == |aux.rows|
    requires forall j :: 0 <= j < |aux.rows| ==> Get(values.rows[j], spec.key) == Get(aux.rows[j], spec.key)
    requires forall j, m :: 0 <= j < |aux.rows| && 0 <= m < |spec.renames| ==>
      Get(values.rows[j], spec.renames[m].1) == Coerce(Get(aux.rows[j], spec.renames[m].0))
    requires UniqueKeys(aux.rows, spec.key)
    requires i < |base.rows|
    ensures |MergeRows(base.rows, values.rows, spec.key, Targets(spec.renames))| == |base.rows|
    ensures forall c :: c !in Targets(spec.renames) ==>
      Get(MergeRows(base.rows, values.rows, spec.key, Targets(spec.renames))[i], c) == Get(base.rows[i], c)
  {
    var key, targets := spec.key, Targets(spec.renames);
    assert UniqueKeys(values.rows, key);
    LeftMergeUnique(base.rows, values.rows, key, targets);
    if !NoMatch(values.rows, key, Get(base.rows[i], key)) {
      var j :| 0 <= j < |values.rows| && Get(values.rows[j], key) == Get(base.rows[i], key);
    }
  }

  lemma JoinedRowMatched(base: Table, aux: Table, spec: JoinSpec, values: Table, i: nat)
    requires |values.rows| == |aux.rows|
    requires forall j :: 0 <= j < |aux.rows| ==> Get(values.rows[j], spec.key) == Get(aux.rows[j], spec.key)
    requires forall j, m :: 0 <= j < |aux.rows| && 0 <= m < |spec.renames| ==>
      Get(values.rows[j], spec.renames[m].1) == Coerce(Get(aux.rows[j], spec.renames[m].0))
    requires UniqueKeys(aux.rows, spec.key)
    requires i < |base.rows|
    ensures |MergeRows(base.rows, values.rows, spec.key, Targets(spec.renames))| == |base.rows|
    ensures forall j, m ::
      (0 <= j < |aux.rows| && 0 <= m < |spec.renames| && Get(aux.rows[j], spec.key) == Get(base.rows[i], spec.key)) ==>
      Get(MergeRows(base.rows, values.rows, spec.key, Targets(spec.renames))[i], spec.renames[m].1) ==
      Coerce(Get(aux.rows[j], spec.renames[m].0))
  {
    var key, targets := spec.key, Targets(spec.renames);
    assert UniqueKeys(values.rows, key);
    LeftMergeUnique(base.rows, values.rows, key, targets);
    forall j, m | 0 <= j < |aux.rows| && 0 <= m < |spec.renames| && Get(aux.rows[j], key) == Get(base.rows[i], key)
      ensures Get(MergeRows(base.rows, values.rows, key, targets)[i], spec.renames[m].1) == Coerce(Get(aux.rows[j], spec.renames[m].0))
    {
      assert Get(values.rows[j], key) == Get(base.rows[i], key);
      assert spec.renames[m].1 == targets[m];
    }
  }

  lemma JoinedRowUnmatched(base: Table, aux: Table, spec: JoinSpec, values: Table, i: nat)
    requires |values.rows| == |aux.rows|
    requires forall j :: 0 <= j < |aux.rows| ==> Get(values.rows[j], spec.key) == Get(aux.rows[j], spec.key)
    requires forall j, m :: 0 <= j < |aux.rows| && 0 <= m < |spec.renames| ==>
      Get(values.rows[j], spec.renames[m].1) == Coerce(Get(aux.rows[j], spec.renames[m].0))
    requires UniqueKeys(aux.rows, spec.key)
    requires i < |base.rows|
    ensures |MergeRows(base.rows, values.rows, spec.key, Targets(spec.renames))| == |base.rows|
    ensures NoMatch(aux.rows, spec.key, Get(base.rows[i], spec.key)) ==>
      forall m :: 0 <= m < |spec.renames| ==>
        Get(MergeRows(base.rows, values.rows, spec.key, Targets(spec.renames))[i], spec.renames[m].1) == Missing
  {
    var key, targets := spec.key, Targets(spec.renames);
    assert UniqueKeys(values.rows, key);
    LeftMergeUnique(base.rows, values.rows, key, targets);
    if NoMatch(aux.rows, key, Get(base.rows[i], key)) {
      assert NoMatch(values.rows, key, Get(base.rows[i], key));
      forall m | 0 <= m < |spec.renames| ensures spec.renames[m].1 in targets {
        assert spec.renames[m].1 == targets[m];
      }
    }
  }

  // ---------------------------------------------------------------------
  // Labels
  // ---------------------------------------------------------------------

  /** `sector_map` applied to a SECTOR cell; a code outside it maps to missing. */
  function SectorLabel(c: Cell): Cell {
    if c == Num(1.0) then Text("Public")
    else if c == Num(2.0) then Text("Private nonprofit")
    else if c == Num(3.0) then Text("Private for-profit")
    else Missing
  }

  /** Each of the three codes has its own label; no other code has one. */
  lemma SectorLabelCases(c: Cell)
    ensures SectorLabel(c) == Text("Public") <==> c == Num(1.0)
    ensures SectorLabel(c) == Text("Private nonprofit") <==> c == Num(2.0)
    ensures SectorLabel(c) == Text("Private for-profit") <==> c == Num(3.0)
    ensures SectorLabel(c) == Missing <==> c !in {Num(1.0), Num(2.0), Num(3.0)}
  {
  }

  /** Python's `int()` on a float: truncation toward zero. */
  function Trunc(x: real): (n: int)
    ensures x >= 0.0 ==> n as real <= x < n as real + 1.0
    ensures x < 0.0 ==> n as real - 1.0 < x <= n as real
  {
    if x >= 0.0 then x.Floor else -((-x).Floor)
  }

  /** A LOCALE cell that `int()` accepts: missing (tested first), a number, or an integer token. */
  predicate LocaleReadable(c: Cell) {
    c.Text? ==> IsIntLiteral(c.s)
  }

  /** The urbanicity named by the tens digit of a locale code, taken with floor division. */
  function TensGroup(code: int): (g: string)
    ensures g in {"City", "Suburb", "Town", "Rural", "Unknown"}
  {
    var tens := code / 10;
    if tens == 1 then "City"
    else if tens == 2 then "Suburb"
    else if tens == 3 then "Town"
    else if tens == 4 then "Rural"
    else "Unknown"
  }

  /** `locale_group`: missing codes are unknown, the others are grouped by their tens digit. */
  function LocaleGroup(c: Cell): (g: string)
    requires LocaleReadable(c)
    ensures g in {"City", "Suburb", "Town", "Rural", "Unknown"}
    ensures c.Missing? ==> g == "Unknown"
  {
    match c
    case Missing => "Unknown"
    case Num(x) => TensGroup(Trunc(x))
    case Text(s) => TensGroup(IntLiteralValue(s))
  }

  /** On numeric codes the groups are the half-open decades 10, 20, 30 and 40; everything else is unknown. */
  lemma LocaleGroupOfNumber(x: real)
    ensures LocaleGroup(Num(x)) == "City" <==> 10.0 <= x < 20.0
    ensures LocaleGroup(Num(x)) == "Suburb" <==> 20.0 <= x < 30.0
    ensures LocaleGroup(Num(x)) == "Town" <==> 30.0 <= x < 40.0
    ensures LocaleGroup(Num(x)) == "Rural" <==> 40.0 <= x < 50.0
    ensures LocaleGroup(Num(x)) == "Unknown" <==> x < 10.0 || 50.0 <= x
  {
    var n := Trunc(x);
    if x >= 0.0 {
      assert 10 <= n < 20 <==> 10.0 <= x < 20.0;
      assert 20 <= n < 30 <==> 20.0 <= x < 30.0;
      assert 30 <= n < 40 <==> 30.0 <= x < 40.0;
      assert 40 <= n < 50 <==> 40.0 <= x < 50.0;
    } else {
      assert n <= 0;
    }
  }

  /** A code token reads like the integer it writes. */
  lemma LocaleGroupOfText(n: int)
    ensures LocaleGroup(Text(IntToString(n))) == LocaleGroup(Num(n as real))
  {
    IntRoundTrip(n);
    assert Trunc(n as real) == n;
  }

  /**
   * `add_labels`: a copy of the frame with `sector_label` and `locale_group`
   * assigned, every other cell unchanged.
   */
  method AddLabels(t: Table) returns (r: Table)
    requires "SECTOR" in t.columns && "LOCALE" in t.columns
    requires forall i :: 0 <= i < |t.rows| ==> LocaleReadable(Get(t.rows[i], "LOCALE"))
    ensures forall c :: c in r.columns <==> c in t.columns || c == "sector_label" || c == "locale_group"
    ensures |r.rows| == |t.rows|
    ensures forall i, c :: 0 <= i < |t.rows| && c != "sector_label" && c != "locale_group" ==>
      Get(r.rows[i], c) == Get(t.rows[i], c)
    ensures forall i :: 0 <= i < |t.rows| ==> Get(r.rows[i], "sector_label") == SectorLabel(Get(t.rows[i], "SECTOR"))
    ensures forall i :: 0 <= i < |t.rows| ==> Get(r.rows[i], "locale_group") == Text(LocaleGroup(Get(t.rows[i], "LOCALE")))
  {
    r := t;
    r := AssignColumn(r, "sector_label", (row: Row) => SectorLabel(Get(row, "SECTOR")));
    r := AssignColumn(r, "locale_group",
      (row: Row) requires LocaleReadable(Get(row, "LOCALE")) => Text(LocaleGroup(Get(row, "LOCALE"))));
  }

  /** A cell of a row as `add_labels` leaves it. */
  function LabelledCell(row: Row, c: string): Cell
    requires LocaleReadable(Get(row, "LOCALE"))
  {
    if c == "sector_label" then SectorLabel(Get(row, "SECTOR"))
    else if c == "locale_group" then Text(LocaleGroup(Get(row, "LOCALE")))
    else Get(row, c)
  }

  /** Every cell of a labelled row is `LabelledCell` of the joined row. */
  lemma LabelledCells(t4: Table, t5: Table)
    requires forall i :: 0 <= i < |t4.rows| ==> LocaleReadable(Get(t4.rows[i], "LOCALE"))
    requires |t5.rows| == |t4.rows|
    requires forall i, c :: 0 <= i < |t4.rows| && c != "sector_label" && c != "locale_group" ==>
      Get(t5.rows[i], c) == Get(t4.rows[i], c)
    requires forall i :: 0 <= i < |t4.rows| ==> Get(t5.rows[i], "sector_label") == SectorLabel(Get(t4.rows[i], "SECTOR"))
    requires forall i :: 0 <= i < |t4.rows| ==> Get(t5.rows[i], "locale_group") == Text(LocaleGroup(Get(t4.rows[i], "LOCALE")))
    ensures LabelledFrom(t5, t4)
  {
  }

  /** Every cell of `t5` is `LabelledCell` of the row at the same position of `t4`. */
  ghost predicate LabelledFrom(t5: Table, t4: Table) {
    && (forall i :: 0 <= i < |t4.rows| ==> LocaleReadable(Get(t4.rows[i], "LOCALE")))
    && |t5.rows| == |t4.rows|
    && forall i, c :: 0 <= i < |t4.rows| ==> Get(t5.rows[i], c) == LabelledCell(t4.rows[i], c)
  }

  /** Labelling leaves the two rates, so the post-filter tests the same on both frames. */
  lemma LabelsKeepRates(t4: Table, t5: Table)
    requires LabelledFrom(t5, t4)
    ensures forall i :: 0 <= i < |t4.rows| ==> Plausible(t5.rows[i]) == Plausible(t4.rows[i])
  {
    forall i | 0 <= i < |t4.rows|
      ensures Plausible(t5.rows[i]) == Plausible(t4.rows[i])
    {
      assert Get(t5.rows[i], "admission_rate") == LabelledCell(t4.rows[i], "admission_rate");
      assert Get(t5.rows[i], "grad_rate_6yr") == LabelledCell(t4.rows[i], "grad_rate_6yr");
    }
  }

  // ---------------------------------------------------------------------
  // Post-filter and output columns
  // ---------------------------------------------------------------------

  /** A row whose admission or graduation rate is exactly zero, taken as a data-entry artifact. */
  predicate ZeroArtifact(r: Row) {
    Get(r, "admission_rate") == Num(0.0) || Get(r, "grad_rate_6yr") == Num(0.0)
  }

  predicate Plausible(r: Row) {
    !ZeroArtifact(r)
  }

  /** `df[~((df["admission_rate"] == 0) | (df["grad_rate_6yr"] == 0))]` */
  function PostFilter(t: Table): (r: Table)
    ensures r.columns == t.columns
    ensures forall row :: row in r.rows ==> row in t.rows && Get(row, "admission_rate") != Num(0.0) && Get(row, "grad_rate_6yr") != Num(0.0)
  {
    FilterRows(t, Plausible)
  }

  /**
   * The post-filter keeps every row whose two rates are not exactly zero,
   * missing rates included, in order; the rows it drops are exactly the
   * artifact rows.
   */
  lemma PostFilterSpec(t: Table)
    ensures forall row :: row in t.rows && Get(row, "admission_rate") != Num(0.0) && Get(row, "grad_rate_6yr") != Num(0.0) ==>
      row in PostFilter(t).rows
    ensures forall i :: 0 <= i < |t.rows| ==> (!ZeroArtifact(t.rows[i]) <==> i in KeptIndices(t.rows, Plausible))
    ensures StrictlyIncreasing(KeptIndices(t.rows, Plausible))
    ensures |PostFilter(t).rows| == |KeptIndices(t.rows, Plausible)|
    ensures forall m :: 0 <= m < |PostFilter(t).rows| ==> PostFilter(t).rows[m] == t.rows[KeptIndices(t.rows, Plausible)[m]]
    ensures |t.rows| - |PostFilter(t).rows| == |Filter(t.rows, ZeroArtifact)|
  {
    FilterByIndices(t.rows, Plausible);
    FilterPartition(t.rows, Plausible, ZeroArtifact);
  }

  /** The columns written to institutions.csv, in order. */
  const InstitutionColumns := [
    "UNITID", "INSTNM", "CITY", "STABBR", "SECTOR", "sector_label",
    "LOCALE", "locale_group", "C18BASIC", "INSTSIZE", "CONTROL", "HBCU",
    "LONGITUD", "LATITUDE", "COUNTYCD",
    "admission_rate", "grad_rate_6yr",
    "enrollment_total", "enrollment_ug",
    "pct_women", "pct_white", "pct_black", "pct_hispanic",
    "pct_asian", "pct_aian", "pct_nhpi", "pct_two_or_more",
    "pct_unknown", "pct_nonresident", "pct_pell"]

  /** The output names of the four join stages. */
  const JoinedColumns := [
    "admission_rate", "grad_rate_6yr",
    "enrollment_total", "enrollment_ug",
    "pct_women", "pct_white", "pct_black", "pct_hispanic",
    "pct_asian", "pct_aian", "pct_nhpi", "pct_two_or_more",
    "pct_unknown", "pct_nonresident", "pct_pell"]

  /** The columns the pipeline itself adds to the directory frame. */
  const DerivedColumns := JoinedColumns + ["sector_label", "locale_group"]

  /** An output column is written when the directory file has it or the pipeline derives it. */
  function Written(hd: Table): string -> bool {
    c => c in hd.columns || c in DerivedColumns
  }

  /** Every join stage's auxiliary file holds one row per UNITID. */
  predicate UniqueUnitIds(adm: Table, gr: Table, ef: Table, sfa: Table) {
    UniqueKeys(adm.rows, "UNITID") && UniqueKeys(gr.rows, "UNITID") &&
    UniqueKeys(ef.rows, "UNITID") && UniqueKeys(sfa.rows, "UNITID")
  }

  /**
   * `main`, institutions half: load, join the four auxiliary files, label,
   * drop the zero-rate artifacts (counting them), and project to the output
   * columns. The output lists the wanted columns the frame has, in the
   * wanted order; every row is a 4-year institution with a sector label and a
   * locale group, no rate exactly zero, and numeric or missing joined values.
   */
  method BuildInstitutions(hd: Table, adm: Table, gr: Table, ef: Table, sfa: Table)
    returns (institutions: Table, dropped: nat, ghost joined: Table)
    requires "UNITID" in hd.columns && "SECTOR" in hd.columns && "LOCALE" in hd.columns
    requires Provides(adm, Admissions) && Provides(gr, GraduationRates)
    requires Provides(ef, EnrollmentDemographics) && Provides(sfa, Pell)
    requires forall c :: c in JoinedColumns ==> c !in hd.columns
    requires forall row :: row in hd.rows && FourYearSector(row) ==> LocaleReadable(Get(row, "LOCALE"))
    ensures institutions.columns == Filter(InstitutionColumns, Written(hd))
    ensures forall c :: c in institutions.columns <==> c in InstitutionColumns && (c in hd.columns || c in DerivedColumns)
    ensures |institutions.rows| + dropped >= |LoadInstitutions(hd).rows|
    ensures UniqueUnitIds(adm, gr, ef, sfa) ==> |institutions.rows| + dropped == |LoadInstitutions(hd).rows|
    ensures forall row :: row in institutions.rows ==> Get(row, "SECTOR") in {Num(1.0), Num(2.0), Num(3.0)}
    ensures forall row :: row in institutions.rows ==>
      Get(row, "sector_label") in {Text("Public"), Text("Private nonprofit"), Text("Private for-profit")}
    ensures forall row :: row in institutions.rows ==>
      Get(row, "locale_group") in {Text("City"), Text("Suburb"), Text("Town"), Text("Rural"), Text("Unknown")}
    ensures forall row :: row in institutions.rows ==>
      Get(row, "admission_rate") != Num(0.0) && Get(row, "grad_rate_6yr") != Num(0.0)
    ensures forall row, c :: row in institutions.rows && c in JoinedColumns ==> Get(row, c).Missing? || Get(row, c).Num?
    ensures forall row, c :: row in institutions.rows && c in institutions.columns && c !in DerivedColumns ==>
      Get(row, c) in Column(LoadInstitutions(hd).rows, c)
    ensures joined.columns == LoadInstitutions(hd).columns + JoinedColumns
    ensures |joined.rows| >= |LoadInstitutions(hd).rows| && dropped == |joined.rows| - |institutions.rows|
    ensures UniqueUnitIds(adm, gr, ef, sfa) ==> |joined.rows| == |LoadInstitutions(hd).rows|
    ensures UniqueUnitIds(adm, gr, ef, sfa) ==> forall i :: 0 <= i < |joined.rows| ==>
      JoinedRowOf(joined.rows[i], LoadInstitutions(hd).rows[i], adm, gr, ef, sfa)
    ensures PublishedFrom(institutions, joined)
  {
    var loaded := LoadInstitutions(hd);
    var t4 := JoinAll(loaded, adm, gr, ef, sfa);
    EnrichedReadable(hd, loaded, t4);
    institutions, dropped := Publish(hd, loaded, t4);
    joined := t4;
  }

  /**
   * The second half of the institutions build: label the joined frame, drop
   * the zero-rate artifacts (counting them), and project to the output
   * columns. Every row kept is a labelled row of the joined frame.
   */
  method Publish(hd: Table, loaded: Table, t4: Table) returns (institutions: Table, dropped: nat)
    requires "SECTOR" in t4.columns && "LOCALE" in t4.columns
    requires forall c :: c in t4.columns <==> c in hd.columns || c in JoinedColumns
    requires DrawnFrom(t4, loaded, JoinedColumns) && NumericIn(t4, JoinedColumns)
    requires forall i :: 0 <= i < |t4.rows| ==> LocaleReadable(Get(t4.rows[i], "LOCALE"))
    requires forall i :: 0 <= i < |t4.rows| ==> FourYearSector(t4.rows[i])
    ensures institutions.columns == Filter(InstitutionColumns, Written(hd))
    ensures forall c :: c in institutions.columns <==> c in InstitutionColumns && (c in hd.columns || c in DerivedColumns)
    ensures |institutions.rows| + dropped == |t4.rows|
    ensures forall row :: row in institutions.rows ==> Get(row, "SECTOR") in {Num(1.0), Num(2.0), Num(3.0)}
    ensures forall row :: row in institutions.rows ==>
      Get(row, "sector_label") in {Text("Public"), Text("Private nonprofit"), Text("Private for-profit")}
    ensures forall row :: row in institutions.rows ==>
      Get(row, "locale_group") in {Text("City"), Text("Suburb"), Text("Town"), Text("Rural"), Text("Unknown")}
    ensures forall row :: row in institutions.rows ==>
      Get(row, "admission_rate") != Num(0.0) && Get(row, "grad_rate_6yr") != Num(0.0)
    ensures forall row, c :: row in institutions.rows && c in JoinedColumns ==> Get(row, c).Missing? || Get(row, c).Num?
    ensures forall row, c :: row in institutions.rows && c in institutions.columns && c !in DerivedColumns ==>
      Get(row, c) in Column(loaded.rows, c)
    ensures PublishedFrom(institutions, t4)
  {
    var t5 := AddLabels(t4);
    LabelledRows(loaded, t4, t5);
    OutputColumns(hd, t5);
    var before := |t5.rows|;
    var t6 := PostFilter(t5);
    dropped := before - |t6.rows|;
    institutions := ProjectPresent(t6, InstitutionColumns);
    WantedNames();
    ProjectedRows(loaded, t6, institutions, InstitutionColumns);
    KeptProjection(t5, InstitutionColumns, institutions);
    LabelledCells(t4, t5);
    PublishedRows(t4, t5, institutions);
  }

  /** Every labelled row keeps the guarantees the output promises. */
  lemma LabelledRows(loaded: Table, t4: Table, t5: Table)
    requires DrawnFrom(t4, loaded, JoinedColumns) && NumericIn(t4, JoinedColumns)
    requires forall k :: 0 <= k < |t4.rows| ==> FourYearSector(t4.rows[k])
    requires "SECTOR" in t4.columns && "LOCALE" in t4.columns
    requires forall k :: 0 <= k < |t4.rows| ==> LocaleReadable(Get(t4.rows[k], "LOCALE"))
    requires |t5.rows| == |t4.rows|
    requires forall i, c :: 0 <= i < |t4.rows| && c != "sector_label" && c != "locale_group" ==>
      Get(t5.rows[i], c) == Get(t4.rows[i], c)
    requires forall i :: 0 <= i < |t4.rows| ==> Get(t5.rows[i], "sector_label") == SectorLabel(Get(t4.rows[i], "SECTOR"))
    requires forall i :: 0 <= i < |t4.rows| ==> Get(t5.rows[i], "locale_group") == Text(LocaleGroup(Get(t4.rows[i], "LOCALE")))
    ensures forall row :: row in t5.rows ==> InstitutionRow(row, loaded)
  {
    forall row | row in t5.rows ensures InstitutionRow(row, loaded) {
      var i :| 0 <= i < |t5.rows| && t5.rows[i] == row;
      LabelledRow(loaded, t4, t5, i);
    }
  }

  /**
   * `out` lists, in order, the rows of `t` the post-filter keeps, each
   * labelled and projected to the columns of `out`: output row m is the
   * labelled row at the m-th kept position.
   */
  ghost predicate PublishedFrom(out: Table, t: Table) {
    && (forall i :: 0 <= i < |t.rows| ==> LocaleReadable(Get(t.rows[i], "LOCALE")))
    && |out.rows| == |KeptIndices(t.rows, Plausible)|
    && forall m, c :: 0 <= m < |out.rows| ==>
      Get(out.rows[m], c) == if c in out.columns then LabelledCell(t.rows[KeptIndices(t.rows, Plausible)[m]], c) else Missing
  }

  /**
   * Output row m is the labelled joined row at the m-th position the
   * post-filter keeps, projected to the output columns.
   */
  lemma PublishedRows(t4: Table, t5: Table, out: Table)
    requires LabelledFrom(t5, t4)
    requires ProjectsKept(out, Filter(t5.rows, Plausible))
    ensures PublishedFrom(out, t4)
  {
    var ks := KeptIndices(t4.rows, Plausible);
    LabelledKeepSame(t4, t5);
    FilteredAt(t5.rows, Plausible, ks);
    KeptLabelled(t4, t5, out, ks, Filter(t5.rows, Plausible));
  }

  /** The rows `Filter` keeps sit at the listed positions `ks`. */
  lemma FilteredAt(rows: seq<Row>, p: Row -> bool, ks: seq<nat>)
    requires ks == KeptIndices(rows, p)
    ensures |Filter(rows, p)| == |ks|
    ensures forall m :: 0 <= m < |ks| ==> Filter(rows, p)[m] == rows[ks[m]]
  {
    FilterAtIndices(rows, p);
  }

  /** The post-filter keeps the same positions of the joined and the labelled frame. */
  lemma LabelledKeepSame(t4: Table, t5: Table)
    requires LabelledFrom(t5, t4)
    ensures KeptIndices(t5.rows, Plausible) == KeptIndices(t4.rows, Plausible)
  {
    LabelsKeepRates(t4, t5);
    KeptIndicesCongruent(t5.rows, Plausible, t4.rows, Plausible);
  }

  /** Output row m is the m-th row the post-filter keeps, projected to the output columns. */
  lemma KeptProjection(t: Table, wanted: seq<string>, out: Table)
    requires out == ProjectPresent(PostFilter(t), wanted)
    ensures ProjectsKept(out, Filter(t.rows, Plausible))
  {
    var kept := Filter(t.rows, Plausible);
    assert PostFilter(t).rows == kept;
    forall m, c | 0 <= m < |out.rows|
      ensures Get(out.rows[m], c) == if c in out.columns then Get(kept[m], c) else Missing
    {
      assert c in out.columns <==> c in wanted && c in PostFilter(t).columns;
    }
  }

  /** Output row m is row m of `kept`, projected to the columns of `out`. */
  ghost predicate ProjectsKept(out: Table, kept: seq<Row>) {
    && |out.rows| == |kept|
    && forall m, c :: 0 <= m < |out.rows| ==>
      Get(out.rows[m], c) == if c in out.columns then Get(kept[m], c) else Missing
  }

  /** Output rows that project the kept labelled rows read as `LabelledCell` of their joined rows. */
  lemma KeptLabelled(t4: Table, t5: Table, out: Table, ks: seq<nat>, kept: seq<Row>)
    requires LabelledFrom(t5, t4)
    requires ks == KeptIndices(t4.rows, Plausible) && |kept| == |ks| && ProjectsKept(out, kept)
    requires forall m :: 0 <= m < |ks| ==> kept[m] == t5.rows[ks[m]]
    ensures PublishedFrom(out, t4)
  {
    forall m, c | 0 <= m < |out.rows|
      ensures Get(out.rows[m], c) == if c in out.columns then LabelledCell(t4.rows[ks[m]], c) else Missing
    {
      var k := ks[m];
      if c in out.columns {
        assert Get(out.rows[m], c) == Get(kept[m], c);
        assert Get(t5.rows[k], c) == LabelledCell(t4.rows[k], c);
      }
    }
  }

  /**
   * The four join stages of `main`, in order. Every cell outside the joined
   * columns is one the loaded frame has in that column, every joined cell is
   * numeric or missing, and with one row per UNITID in each auxiliary file
   * row i is loaded row i with the four stages' values of its UNITID.
   */
  method JoinAll(loaded: Table, adm: Table, gr: Table, ef: Table, sfa: Table) returns (r: Table)
    requires "UNITID" in loaded.columns
    requires Provides(adm, Admissions) && Provides(gr, GraduationRates)
    requires Provides(ef, EnrollmentDemographics) && Provides(sfa, Pell)
    requires forall c :: c in JoinedColumns ==> c !in loaded.columns
    ensures r.columns == loaded.columns + JoinedColumns
    ensures DrawnFrom(r, loaded, JoinedColumns) && NumericIn(r, JoinedColumns)
    ensures |r.rows| >= |loaded.rows|
    ensures UniqueUnitIds(adm, gr, ef, sfa) ==> |r.rows| == |loaded.rows|
    ensures UniqueUnitIds(adm, gr, ef, sfa) ==>
      forall i :: 0 <= i < |loaded.rows| ==> JoinedRowOf(r.rows[i], loaded.rows[i], adm, gr, ef, sfa)
  {
    StageNames();
    r := JoinChain(loaded, adm, gr, ef, sfa, JoinedColumns);
  }

  /** The four stages over any fifteen distinct output names cut as main's are. */
  method JoinChain(loaded: Table, adm: Table, gr: Table, ef: Table, sfa: Table, names: seq<string>) returns (r: Table)
    requires |names| == 15 && Distinct(names) && "UNITID" !in names
    requires Targets(Admissions.renames) == names[0..1] && Targets(GraduationRates.renames) == names[1..2]
    requires Targets(EnrollmentDemographics.renames) == names[2..14] && Targets(Pell.renames) == names[14..15]
    requires Distinct([Admissions.key] + Targets(Admissions.renames))
    requires Distinct([GraduationRates.key] + Targets(GraduationRates.renames))
    requires Distinct([EnrollmentDemographics.key] + Targets(EnrollmentDemographics.renames))
    requires Distinct([Pell.key] + Targets(Pell.renames))
    requires "UNITID" in loaded.columns
    requires Provides(adm, Admissions) && Provides(gr, GraduationRates)
    requires Provides(ef, EnrollmentDemographics) && Provides(sfa, Pell)
    requires forall c :: c in names ==> c !in loaded.columns
    ensures r.columns == loaded.columns + names
    ensures DrawnFrom(r, loaded, names) && NumericIn(r, names)
    ensures |r.rows| >= |loaded.rows|
    ensures UniqueUnitIds(adm, gr, ef, sfa) ==> |r.rows| == |loaded.rows|
    ensures UniqueUnitIds(adm, gr, ef, sfa) ==>
      forall i, c :: 0 <= i < |loaded.rows| && c !in names ==> Get(r.rows[i], c) == Get(loaded.rows[i], c)
    ensures UniqueUnitIds(adm, gr, ef, sfa) ==> forall i :: 0 <= i < |loaded.rows| ==>
      && StageValues(r.rows[i], loaded.rows[i], adm, Admissions) && StageValues(r.rows[i], loaded.rows[i], gr, GraduationRates)
      && StageValues(r.rows[i], loaded.rows[i], ef, EnrollmentDemographics) && StageValues(r.rows[i], loaded.rows[i], sfa, Pell)
  {
    DrawnFromSelf(loaded);
    assert loaded.columns + names[..0] == loaded.columns;
    var r1 := JoinStage(loaded, loaded, adm, Admissions, names, 0, 1);
    var r2 := JoinStage(loaded, r1, gr, GraduationRates, names, 1, 2);
    var r3 := JoinStage(loaded, r2, ef, EnrollmentDemographics, names, 2, 14);
    r := JoinStage(loaded, r3, sfa, Pell, names, 14, 15);
    assert names[..15] == names;
    if UniqueUnitIds(adm, gr, ef, sfa) {
      ChainRows(names, loaded, r1, r2, r3, r, adm, gr, ef, sfa);
    }
  }

  /**
   * One join stage in the chain, the output names of the stages so far being
   * the first `k` joined columns and this stage's the next ones up to `m`.
   * With unique keys, row i is base row i with this stage's values added.
   */
  method JoinStage(loaded: Table, base: Table, aux: Table, spec: JoinSpec, names: seq<string>, k: nat, m: nat) returns (r: Table)
    requires k <= m <= |names| && Targets(spec.renames) == names[k..m]
    requires Distinct([spec.key] + Targets(spec.renames)) && Distinct(names)
    requires spec.key in loaded.columns && Provides(aux, spec)
    requires forall c :: c in names ==> c !in loaded.columns
    requires base.columns == loaded.columns + names[..k]
    requires DrawnFrom(base, loaded, names[..k]) && NumericIn(base, names[..k])
    ensures r.columns == loaded.columns + names[..m]
    ensures DrawnFrom(r, loaded, names[..m]) && NumericIn(r, names[..m])
    ensures |r.rows| >= |base.rows|
    ensures UniqueKeys(aux.rows, spec.key) ==> |r.rows| == |base.rows|
    ensures UniqueKeys(aux.rows, spec.key) ==>
      forall i, c :: 0 <= i < |base.rows| && c !in names[k..m] ==> Get(r.rows[i], c) == Get(base.rows[i], c)
    ensures UniqueKeys(aux.rows, spec.key) ==>
      forall i :: 0 <= i < |base.rows| ==> StageValues(r.rows[i], base.rows[i], aux, spec)
  {
    StageFresh(loaded.columns, names, k, m);
    r := Join(base, aux, spec);
    DrawnFromChain(loaded, base, r, names[..k], names[k..m]);
    PrefixSplit(names, k, m);
    if UniqueKeys(aux.rows, spec.key) {
      forall i | 0 <= i < |base.rows|
        ensures StageValues(r.rows[i], base.rows[i], aux, spec)
      {
      }
    }
  }

  /**
   * `row`, joined from `b` against `aux`, holds the coerced value columns of
   * the auxiliary row whose key is b's, or missing values when no key is.
   */
  ghost predicate StageValues(row: Row, b: Row, aux: Table, spec: JoinSpec) {
    && (forall j, m :: 0 <= j < |aux.rows| && 0 <= m < |spec.renames| && Get(aux.rows[j], spec.key) == Get(b, spec.key) ==>
          Get(row, spec.renames[m].1) == Coerce(Get(aux.rows[j], spec.renames[m].0)))
    && (NoMatch(aux.rows, spec.key, Get(b, spec.key)) ==>
          forall m :: 0 <= m < |spec.renames| ==> Get(row, spec.renames[m].1) == Missing)
  }

  /** The four stages' result for the loaded row `b`: b's cells, then each stage's values of b's UNITID. */
  ghost predicate JoinedRowOf(row: Row, b: Row, adm: Table, gr: Table, ef: Table, sfa: Table) {
    && (forall c :: c !in JoinedColumns ==> Get(row, c) == Get(b, c))
    && StageValues(row, b, adm, Admissions) && StageValues(row, b, gr, GraduationRates)
    && StageValues(row, b, ef, EnrollmentDemographics) && StageValues(row, b, sfa, Pell)
  }

  /** `JoinedRowOf` fixes every cell: two rows joined from the same loaded row read the same. */
  lemma JoinedRowDetermined(r1: Row, r2: Row, b: Row, adm: Table, gr: Table, ef: Table, sfa: Table)
    requires JoinedRowOf(r1, b, adm, gr, ef, sfa) && JoinedRowOf(r2, b, adm, gr, ef, sfa)
    ensures forall c :: Get(r1, c) == Get(r2, c)
  {
    StageNames();
    StagesDetermined(JoinedColumns, r1, r2, b, adm, gr, ef, sfa);
  }

  lemma StagesDetermined(names: seq<string>, r1: Row, r2: Row, b: Row, adm: Table, gr: Table, ef: Table, sfa: Table)
    requires |names| == 15
    requires Targets(Admissions.renames) == names[0..1] && Targets(GraduationRates.renames) == names[1..2]
    requires Targets(EnrollmentDemographics.renames) == names[2..14] && Targets(Pell.renames) == names[14..15]
    requires forall c :: c !in names ==> Get(r1, c) == Get(b, c) && Get(r2, c) == Get(b, c)
    requires StageValues(r1, b, adm, Admissions) && StageValues(r1, b, gr, GraduationRates)
    requires StageValues(r1, b, ef, EnrollmentDemographics) && StageValues(r1, b, sfa, Pell)
    requires StageValues(r2, b, adm, Admissions) && StageValues(r2, b, gr, GraduationRates)
    requires StageValues(r2, b, ef, EnrollmentDemographics) && StageValues(r2, b, sfa, Pell)
    ensures forall c :: Get(r1, c) == Get(r2, c)
  {
    forall c | c in names
      ensures Get(r1, c) == Get(r2, c)
    {
      SliceCover(names, c);
      if c in names[0..1] {
        StageDetermined(r1, r2, b, adm, Admissions, c);
      } else if c in names[1..2] {
        StageDetermined(r1, r2, b, gr, GraduationRates, c);
      } else if c in names[2..14] {
        StageDetermined(r1, r2, b, ef, EnrollmentDemographics, c);
      } else {
        StageDetermined(r1, r2, b, sfa, Pell, c);
      }
    }
  }

  /** A target cell of a stage is fixed: the matched row's coerced value, or missing. */
  lemma StageDetermined(r1: Row, r2: Row, b: Row, aux: Table, spec: JoinSpec, c: string)
    requires StageValues(r1, b, aux, spec) && StageValues(r2, b, aux, spec)
    requires c in Targets(spec.renames)
    ensures Get(r1, c) == Get(r2, c)
  {
    var m :| 0 <= m < |spec.renames| && Targets(spec.renames)[m] == c;
    if !NoMatch(aux.rows, spec.key, Get(b, spec.key)) {
      var j :| 0 <= j < |aux.rows| && Get(aux.rows[j], spec.key) == Get(b, spec.key);
    }
  }

  /** Every name of fifteen lies in one of the four stage slices. */
  lemma SliceCover(names: seq<string>, c: string)
    requires |names| == 15 && c in names
    ensures c in names[0..1] || c in names[1..2] || c in names[2..14] || c in names[14..15]
  {
    var n :| 0 <= n < 15 && names[n] == c;
    if n == 0 {
      assert names[0..1][0] == c;
    } else if n == 1 {
      assert names[1..2][0] == c;
    } else if n < 14 {
      assert names[2..14][n - 2] == c;
    } else {
      assert names[14..15][0] == c;
    }
  }

  /** The stages' per-row facts, row by row. */
  lemma ChainRows(names: seq<string>, t0: Table, t1: Table, t2: Table, t3: Table, t4: Table,
                  adm: Table, gr: Table, ef: Table, sfa: Table)
    requires |names| == 15 && Distinct(names) && "UNITID" !in names
    requires Targets(Admissions.renames) == names[0..1] && Targets(GraduationRates.renames) == names[1..2]
    requires Targets(EnrollmentDemographics.renames) == names[2..14] && Targets(Pell.renames) == names[14..15]
    requires |t1.rows| == |t0.rows| && |t2.rows| == |t1.rows| && |t3.rows| == |t2.rows| && |t4.rows| == |t3.rows|
    requires forall i, c :: 0 <= i < |t0.rows| && c !in names[0..1] ==> Get(t1.rows[i], c) == Get(t0.rows[i], c)
    requires forall i, c :: 0 <= i < |t1.rows| && c !in names[1..2] ==> Get(t2.rows[i], c) == Get(t1.rows[i], c)
    requires forall i, c :: 0 <= i < |t2.rows| && c !in names[2..14] ==> Get(t3.rows[i], c) == Get(t2.rows[i], c)
    requires forall i, c :: 0 <= i < |t3.rows| && c !in names[14..15] ==> Get(t4.rows[i], c) == Get(t3.rows[i], c)
    requires forall i :: 0 <= i < |t0.rows| ==> StageValues(t1.rows[i], t0.rows[i], adm, Admissions)
    requires forall i :: 0 <= i < |t1.rows| ==> StageValues(t2.rows[i], t1.rows[i], gr, GraduationRates)
    requires forall i :: 0 <= i < |t2.rows| ==> StageValues(t3.rows[i], t2.rows[i], ef, EnrollmentDemographics)
    requires forall i :: 0 <= i < |t3.rows| ==> StageValues(t4.rows[i], t3.rows[i], sfa, Pell)
    ensures forall i, c :: 0 <= i < |t0.rows| && c !in names ==> Get(t4.rows[i], c) == Get(t0.rows[i], c)
    ensures forall i :: 0 <= i < |t0.rows| ==>
      && StageValues(t4.rows[i], t0.rows[i], adm, Admissions) && StageValues(t4.rows[i], t0.rows[i], gr, GraduationRates)
      && StageValues(t4.rows[i], t0.rows[i], ef, EnrollmentDemographics) && StageValues(t4.rows[i], t0.rows[i], sfa, Pell)
  {
    forall i | 0 <= i < |t0.rows|
      ensures forall c :: c !in names ==> Get(t4.rows[i], c) == Get(t0.rows[i], c)
      ensures && StageValues(t4.rows[i], t0.rows[i], adm, Admissions) && StageValues(t4.rows[i], t0.rows[i], gr, GraduationRates)
        && StageValues(t4.rows[i], t0.rows[i], ef, EnrollmentDemographics) && StageValues(t4.rows[i], t0.rows[i], sfa, Pell)
    {
      ChainRow(names, t0.rows[i], t1.rows[i], t2.rows[i], t3.rows[i], t4.rows[i], adm, gr, ef, sfa);
    }
  }

  /**
   * A loaded row carried through the four stages, `b0` to `b4`, each stage
   * adding the names `names[k..m]` of its slice, keeps the other cells of
   * `b0` and holds each stage's values of b0's key.
   */
  lemma ChainRow(names: seq<string>, b0: Row, b1: Row, b2: Row, b3: Row, b4: Row, adm: Table, gr: Table, ef: Table, sfa: Table)
    requires |names| == 15 && Distinct(names) && "UNITID" !in names
    requires Targets(Admissions.renames) == names[0..1] && Targets(GraduationRates.renames) == names[1..2]
    requires Targets(EnrollmentDemographics.renames) == names[2..14] && Targets(Pell.renames) == names[14..15]
    requires forall c :: c !in names[0..1] ==> Get(b1, c) == Get(b0, c)
    requires forall c :: c !in names[1..2] ==> Get(b2, c) == Get(b1, c)
    requires forall c :: c !in names[2..14] ==> Get(b3, c) == Get(b2, c)
    requires forall c :: c !in names[14..15] ==> Get(b4, c) == Get(b3, c)
    requires StageValues(b1, b0, adm, Admissions) && StageValues(b2, b1, gr, GraduationRates)
    requires StageValues(b3, b2, ef, EnrollmentDemographics) && StageValues(b4, b3, sfa, Pell)
    ensures forall c :: c !in names ==> Get(b4, c) == Get(b0, c)
    ensures StageValues(b4, b0, adm, Admissions) && StageValues(b4, b0, gr, GraduationRates)
    ensures StageValues(b4, b0, ef, EnrollmentDemographics) && StageValues(b4, b0, sfa, Pell)
  {
    SliceWithin(names, 0, 1);
    SliceWithin(names, 1, 2);
    SliceWithin(names, 2, 14);
    SliceWithin(names, 14, 15);
    SlicesApart(names, 0, 1, 1, 2);
    SlicesApart(names, 0, 1, 2, 14);
    SlicesApart(names, 0, 1, 14, 15);
    SlicesApart(names, 1, 2, 2, 14);
    SlicesApart(names, 1, 2, 14, 15);
    SlicesApart(names, 2, 14, 14, 15);
    StageTransfer(b1, b4, b0, b0, adm, Admissions);
    StageTransfer(b2, b4, b1, b0, gr, GraduationRates);
    StageTransfer(b3, b4, b2, b0, ef, EnrollmentDemographics);
    StageTransfer(b4, b4, b3, b0, sfa, Pell);
  }

  /** A stage's values stay when the row keeps its target cells and the base keeps its key. */
  lemma StageTransfer(row: Row, row': Row, b: Row, b': Row, aux: Table, spec: JoinSpec)
    requires StageValues(row, b, aux, spec)
    requires Get(b', spec.key) == Get(b, spec.key)
    requires forall c :: c in Targets(spec.renames) ==> Get(row', c) == Get(row, c)
    ensures StageValues(row', b', aux, spec)
  {
    assert forall m :: 0 <= m < |spec.renames| ==> Targets(spec.renames)[m] == spec.renames[m].1;
  }

  lemma SliceWithin(s: seq<string>, k: nat, m: nat)
    requires k <= m <= |s|
    ensures forall c :: c in s[k..m] ==> c in s
  {
  }

  /** Slices of a list of distinct names that do not overlap share no name. */
  lemma SlicesApart(s: seq<string>, a: nat, b: nat, c: nat, d: nat)
    requires Distinct(s) && a <= b <= c <= d <= |s|
    ensures forall x :: x in s[a..b] ==> x !in s[c..d]
  {
    forall x | x in s[a..b]
      ensures x !in s[c..d]
    {
      var n :| a <= n < b && s[n] == x;
      forall n' | c <= n' < d
        ensures s[n'] != x
      {
      }
    }
  }

  /** What the pipeline guarantees of a labelled row: the output ensures, before projection. */
  ghost predicate InstitutionRow(row: Row, loaded: Table) {
    && Get(row, "SECTOR") in {Num(1.0), Num(2.0), Num(3.0)}
    && Get(row, "sector_label") in {Text("Public"), Text("Private nonprofit"), Text("Private for-profit")}
    && Get(row, "locale_group") in {Text("City"), Text("Suburb"), Text("Town"), Text("Rural"), Text("Unknown")}
    && (forall c :: c in JoinedColumns ==> Get(row, c).Missing? || Get(row, c).Num?)
    && (forall c :: c !in DerivedColumns ==> Get(row, c) in Column(loaded.rows, c))
  }

  lemma LabelledRow(loaded: Table, t4: Table, t5: Table, i: nat)
    requires DrawnFrom(t4, loaded, JoinedColumns) && NumericIn(t4, JoinedColumns)
    requires forall k :: 0 <= k < |t4.rows| ==> FourYearSector(t4.rows[k])
    requires "SECTOR" in t4.columns && "LOCALE" in t4.columns
    requires forall k :: 0 <= k < |t4.rows| ==> LocaleReadable(Get(t4.rows[k], "LOCALE"))
    requires |t5.rows| == |t4.rows| && i < |t4.rows|
    requires forall c :: c != "sector_label" && c != "locale_group" ==> Get(t5.rows[i], c) == Get(t4.rows[i], c)
    requires Get(t5.rows[i], "sector_label") == SectorLabel(Get(t4.rows[i], "SECTOR"))
    requires Get(t5.rows[i], "locale_group") == Text(LocaleGroup(Get(t4.rows[i], "LOCALE")))
    ensures InstitutionRow(t5.rows[i], loaded)
  {
    var b := t4.rows[i];
    assert b in t4.rows;
    DirectoryNames();
  }

  /** Output columns: the wanted names the directory file or the pipeline supplies. */
  lemma OutputColumns(hd: Table, t5: Table)
    requires forall c :: c in t5.columns <==> c in hd.columns || c in DerivedColumns
    ensures Filter(InstitutionColumns, HasColumn(t5)) == Filter(InstitutionColumns, Written(hd))
  {
    FilterCongruent(InstitutionColumns, HasColumn(t5), Written(hd));
  }

  /** Projection keeps the guarantees on the columns it keeps; the others read as missing. */
  lemma ProjectedRows(loaded: Table, t6: Table, out: Table, wanted: seq<string>)
    requires forall row :: row in t6.rows ==> InstitutionRow(row, loaded) && Plausible(row)
    requires "SECTOR" in t6.columns && "sector_label" in t6.columns && "locale_group" in t6.columns
    requires "SECTOR" in wanted && "sector_label" in wanted && "locale_group" in wanted
    requires out == ProjectPresent(t6, wanted)
    ensures forall row :: row in out.rows ==> Get(row, "SECTOR") in {Num(1.0), Num(2.0), Num(3.0)}
    ensures forall row :: row in out.rows ==>
      Get(row, "sector_label") in {Text("Public"), Text("Private nonprofit"), Text("Private for-profit")}
    ensures forall row :: row in out.rows ==>
      Get(row, "locale_group") in {Text("City"), Text("Suburb"), Text("Town"), Text("Rural"), Text("Unknown")}
    ensures forall row :: row in out.rows ==>
      Get(row, "admission_rate") != Num(0.0) && Get(row, "grad_rate_6yr") != Num(0.0)
    ensures forall row, c :: row in out.rows && c in JoinedColumns ==> Get(row, c).Missing? || Get(row, c).Num?
    ensures forall row, c :: row in out.rows && c in out.columns && c !in DerivedColumns ==>
      Get(row, c) in Column(loaded.rows, c)
  {
    forall row | row in out.rows ensures OutputRow(row, loaded, out.columns) {
      var i :| 0 <= i < |out.rows| && out.rows[i] == row;
      assert t6.rows[i] in t6.rows;
      ProjectedRow(loaded, t6, out, wanted, i);
    }
  }

  /** The guarantees of an output row, the columns it has being `cols`. */
  ghost predicate OutputRow(row: Row, loaded: Table, cols: seq<string>) {
    && Get(row, "SECTOR") in {Num(1.0), Num(2.0), Num(3.0)}
    && Get(row, "sector_label") in {Text("Public"), Text("Private nonprofit"), Text("Private for-profit")}
    && Get(row, "locale_group") in {Text("City"), Text("Suburb"), Text("Town"), Text("Rural"), Text("Unknown")}
    && Get(row, "admission_rate") != Num(0.0) && Get(row, "grad_rate_6yr") != Num(0.0)
    && (forall c :: c in JoinedColumns ==> Get(row, c).Missing? || Get(row, c).Num?)
    && (forall c :: c in cols && c !in DerivedColumns ==> Get(row, c) in Column(loaded.rows, c))
  }

  lemma ProjectedRow(loaded: Table, t6: Table, out: Table, wanted: seq<string>, i: nat)
    requires i < |t6.rows| && InstitutionRow(t6.rows[i], loaded) && Plausible(t6.rows[i])
    requires "SECTOR" in t6.columns && "sector_label" in t6.columns && "locale_group" in t6.columns
    requires "SECTOR" in wanted && "sector_label" in wanted && "locale_group" in wanted
    requires out == ProjectPresent(t6, wanted)
    ensures OutputRow(out.rows[i], loaded, out.columns)
  {
    var keep := (c: string) => c in wanted && c in t6.columns;
    assert forall c :: Get(out.rows[i], c) == if keep(c) then Get(t6.rows[i], c) else Missing;
    assert forall c :: c in out.columns ==> keep(c);
    KeptLabels(t6.rows[i], out.rows[i], keep, loaded);
    KeptValues(t6.rows[i], out.rows[i], keep, loaded, out.columns);
  }

  /** The label and rate cells of a projected row. */
  lemma KeptLabels(src: Row, row: Row, keep: string -> bool, loaded: Table)
    requires InstitutionRow(src, loaded) && Plausible(src)
    requires keep("SECTOR") && keep("sector_label") && keep("locale_group")
    requires forall c :: Get(row, c) == if keep(c) then Get(src, c) else Missing
    ensures Get(row, "SECTOR") in {Num(1.0), Num(2.0), Num(3.0)}
    ensures Get(row, "sector_label") in {Text("Public"), Text("Private nonprofit"), Text("Private for-profit")}
    ensures Get(row, "locale_group") in {Text("City"), Text("Suburb"), Text("Town"), Text("Rural"), Text("Unknown")}
    ensures Get(row, "admission_rate") != Num(0.0) && Get(row, "grad_rate_6yr") != Num(0.0)
  {
  }

  /** The joined and the directory cells of a projected row. */
  lemma KeptValues(src: Row, row: Row, keep: string -> bool, loaded: Table, cols: seq<string>)
    requires InstitutionRow(src, loaded)
    requires forall c :: c in cols ==> keep(c)
    requires forall c :: Get(row, c) == if keep(c) then Get(src, c) else Missing
    ensures forall c :: c in JoinedColumns ==> Get(row, c).Missing? || Get(row, c).Num?
    ensures forall c :: c in cols && c !in DerivedColumns ==> Get(row, c) in Column(loaded.rows, c)
  {
  }

  /** The output names of the four stages, and the key apart from them. */
  lemma StageNames()
    ensures Targets(Admissions.renames) == ["admission_rate"]
    ensures Targets(GraduationRates.renames) == ["grad_rate_6yr"]
    ensures Targets(EnrollmentDemographics.renames) == JoinedColumns[2..14]
    ensures Targets(Pell.renames) == ["pct_pell"]
    ensures Distinct(JoinedColumns) && "UNITID" !in JoinedColumns
    ensures Distinct([Admissions.key] + Targets(Admissions.renames))
    ensures Distinct([GraduationRates.key] + Targets(GraduationRates.renames))
    ensures Distinct([EnrollmentDemographics.key] + Targets(EnrollmentDemographics.renames))
    ensures Distinct([Pell.key] + Targets(Pell.renames))
  {
    SingleNames();
    EnrollmentNames();
    JoinedDistinct();
    StageKeysApart();
  }

  lemma JoinedDistinct()
    ensures Distinct(JoinedColumns) && "UNITID" !in JoinedColumns
  {
  }

  lemma StageKeysApart()
    ensures Distinct([Admissions.key] + Targets(Admissions.renames))
    ensures Distinct([GraduationRates.key] + Targets(GraduationRates.renames))
    ensures Distinct([EnrollmentDemographics.key] + Targets(EnrollmentDemographics.renames))
    ensures Distinct([Pell.key] + Targets(Pell.renames))
  {
    SingleNames();
    EnrollmentApart();
  }

  lemma EnrollmentApart()
    ensures Distinct([EnrollmentDemographics.key] + Targets(EnrollmentDemographics.renames))
  {
    EnrollmentNames();
    JoinedDistinct();
    SliceDistinct(JoinedColumns, 2, 14);
    KeyApart(JoinedColumns[2..14]);
  }

  lemma SliceDistinct(s: seq<string>, k: nat, m: nat)
    requires Distinct(s) && k <= m <= |s|
    ensures Distinct(s[k..m])
  {
    forall a, b | 0 <= a < b < m - k ensures s[k..m][a] != s[k..m][b] {
      assert s[k..m][a] == s[k + a] && s[k..m][b] == s[k + b];
    }
  }

  /** A stage's output names, `all[k..m]`, are new to the frame it joins onto. */
  lemma StageFresh(hdColumns: seq<string>, all: seq<string>, k: nat, m: nat)
    requires Distinct(all) && k <= m <= |all|
    requires forall c :: c in all ==> c !in hdColumns
    ensures forall c :: c in all[k..m] ==> c !in hdColumns + all[..k]
  {
    forall c | c in all[k..m] ensures c !in hdColumns + all[..k] {
      var n :| k <= n < m && all[n] == c;
      forall n' | 0 <= n' < k ensures all[n'] != c {
      }
    }
  }

  /** The names before `m` are those before `k` and those from `k` to `m`. */
  lemma PrefixSplit(all: seq<string>, k: nat, m: nat)
    requires k <= m <= |all|
    ensures all[..k] + all[k..m] == all[..m]
  {
  }

  lemma WantedNames()
    ensures "SECTOR" in InstitutionColumns && "sector_label" in InstitutionColumns
    ensures "locale_group" in InstitutionColumns
  {
    assert InstitutionColumns[4] == "SECTOR" && InstitutionColumns[5] == "sector_label";
    assert InstitutionColumns[7] == "locale_group";
  }

  lemma SingleNames()
    ensures Targets(Admissions.renames) == ["admission_rate"]
    ensures Targets(GraduationRates.renames) == ["grad_rate_6yr"]
    ensures Targets(Pell.renames) == ["pct_pell"]
  {
  }

  lemma KeyApart(names: seq<string>)
    requires Distinct(names) && "UNITID" !in names
    ensures Distinct(["UNITID"] + names)
  {
    var ks := ["UNITID"] + names;
    forall a, b | 0 <= a < b < |ks| ensures ks[a] != ks[b] {
      if a > 0 {
        assert ks[a] == names[a - 1] && ks[b] == names[b - 1];
      }
    }
  }

  lemma EnrollmentNames()
    ensures Targets(EnrollmentDemographics.renames) == JoinedColumns[2..14]
  {
    var t := Targets(EnrollmentDemographics.renames);
    forall m | 0 <= m < 12 ensures t[m] == JoinedColumns[m + 2] {
      assert t[m] == EnrollmentDemographics.renames[m].1;
    }
  }

  /** Every LOCALE cell of the enriched frame comes from a 4-year row, so `int()` reads it. */
  lemma EnrichedReadable(hd: Table, loaded: Table, t: Table)
    requires "SECTOR" in hd.columns && loaded == LoadInstitutions(hd)
    requires forall row :: row in hd.rows && FourYearSector(row) ==> LocaleReadable(Get(row, "LOCALE"))
    requires DrawnFrom(t, loaded, JoinedColumns)
    ensures forall i :: 0 <= i < |t.rows| ==> LocaleReadable(Get(t.rows[i], "LOCALE"))
    ensures forall i :: 0 <= i < |t.rows| ==> FourYearSector(t.rows[i])
  {
    DirectoryNames();
    forall i | 0 <= i < |t.rows|
      ensures LocaleReadable(Get(t.rows[i], "LOCALE")) && FourYearSector(t.rows[i])
    {
      assert t.rows[i] in t.rows;
      EnrichedRow(hd, loaded, t, t.rows[i]);
    }
  }

  lemma EnrichedRow(hd: Table, loaded: Table, t: Table, row: Row)
    requires "SECTOR" in hd.columns && loaded == LoadInstitutions(hd)
    requires forall row :: row in hd.rows && FourYearSector(row) ==> LocaleReadable(Get(row, "LOCALE"))
    requires DrawnFrom(t, loaded, JoinedColumns) && row in t.rows
    requires "LOCALE" !in JoinedColumns && "SECTOR" !in JoinedColumns
    ensures LocaleReadable(Get(row, "LOCALE")) && FourYearSector(row)
  {
    assert Get(row, "LOCALE") in Column(loaded.rows, "LOCALE");
    assert Get(row, "SECTOR") in Column(loaded.rows, "SECTOR");
    var r0 :| r0 in loaded.rows && Get(r0, "LOCALE") == Get(row, "LOCALE");
    var r1 :| r1 in loaded.rows && Get(r1, "SECTOR") == Get(row, "SECTOR");
  }

  /** The directory columns the labels read are not among the joined ones. */
  lemma DirectoryNames()
    ensures "LOCALE" !in JoinedColumns && "SECTOR" !in JoinedColumns
    ensures "sector_label" !in JoinedColumns && "locale_group" !in JoinedColumns
  {
    DirectoryName("LOCALE");
    DirectoryName("SECTOR");
    DirectoryName("sector_label");
    DirectoryName("locale_group");
  }

  lemma DirectoryName(name: string)
    requires name == "LOCALE" || name == "SECTOR" || name == "sector_label" || name == "locale_group"
    ensures name !in JoinedColumns
  {
  }
}
