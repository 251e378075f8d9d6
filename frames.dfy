/**
 * A model of the pandas data frames the pipeline passes from stage to stage:
 * an ordered list of column names and a sequence of rows, each row mapping
 * column names to cells. The frame operations the pipeline uses are defined
 * once here: numeric coercion, column assignment, boolean-mask filtering,
 * column projection with renaming, and the left merge on a key column.
 */
module Frames {
  import opened Wrappers
  import opened Seqs
  import opened Decimal

  /** A cell: missing (NaN, an empty field), a number, or a text token. */
  datatype Cell = Missing | Num(x: real) | Text(s: string)

  type Row = map<string, Cell>

  datatype Table = Table(columns: seq<string>, rows: seq<Row>)

  /** The cell of `r` in column `c`; a row without that column reads as missing. */
  function Get(r: Row, c: string): Cell {
    if c in r then r[c] else Missing
  }

  predicate Distinct<T(==)>(s: seq<T>) {
    forall a, b :: 0 <= a < b < |s| ==> s[a] != s[b]
  }

  /** A rectangular frame: distinct column names, and every row holds exactly those columns. */
  ghost predicate WellFormed(t: Table) {
    Distinct(t.columns) && forall r :: r in t.rows ==> r.Keys == set c | c in t.columns
  }

  // ---------------------------------------------------------------------
  // Numeric coercion: pd.to_numeric(column, errors="coerce")
  // ---------------------------------------------------------------------

  predicate IsPoint(c: char) {
    c == '.'
  }

  /** The value of `b` when it is an optionally fractional run of digits. */
  function UnsignedValue(b: string): Option<real> {
    match FirstWhere(b, IsPoint)
    case None =>
      if |b| > 0 && AllDigits(b) then Some(DigitsValue(b) as real) else None
    case Some(d) =>
      var ip, fp := b[..d], b[d + 1..];
      if |ip| + |fp| > 0 && AllDigits(ip) && AllDigits(fp)
      then Some(PointValue(ip, fp))
      else None
  }

  /** The number written `ip.fp`: the integer part plus the fraction over its scale. */
  function PointValue(ip: string, fp: string): real
    requires AllDigits(ip) && AllDigits(fp)
  {
    DigitsValue(ip) as real + DigitsValue(fp) as real / Pow10(|fp|) as real
  }

  /** The number a decimal token denotes: an optional sign, digits, an optional fraction. */
  function ParseNumber(s: string): Option<real> {
    if |s| > 0 && s[0] == '-' then
      match UnsignedValue(s[1..])
      case Some(v) => Some(-v)
      case None => None
    else if |s| > 0 && s[0] == '+' then UnsignedValue(s[1..])
    else UnsignedValue(s)
  }

  /** Integers written the usual way parse back to themselves. */
  lemma ParseIntegerText(n: int)
    ensures ParseNumber(IntToString(n)) == Some(n as real)
  {
    var m: nat := if n < 0 then -n else n;
    var d := NatToDigits(m);
    DigitsRoundTrip(m);
    assert FirstWhere(d, IsPoint) == None by {
      assert forall j :: 0 <= j < |d| ==> IsDigit(d[j]);
    }
    if n < 0 {
      assert IntToString(n)[1..] == d;
    }
  }

  /**
   * Coercing one cell never fails: a number stays, a token that reads as a
   * number becomes that number, and anything else becomes missing.
   */
  function Coerce(c: Cell): (r: Cell)
    ensures r.Missing? || r.Num?
    ensures c.Num? ==> r == c
    ensures c.Missing? ==> r == Missing
    ensures c.Text? ==> (r.Num? <==> ParseNumber(c.s).Some?)
    ensures c.Text? && ParseNumber(c.s).Some? ==> r == Num(ParseNumber(c.s).value)
  {
    match c
    case Missing => Missing
    case Num(_) => c
    case Text(s) =>
      match ParseNumber(s)
      case Some(v) => Num(v)
      case None => Missing
  }

  /** Coercing twice is coercing once. */
  lemma CoerceIdempotent(c: Cell)
    ensures Coerce(Coerce(c)) == Coerce(c)
  {
  }

  /** A token written as an integer coerces to that integer. */
  lemma CoerceIntegerText(n: int)
    ensures Coerce(Text(IntToString(n))) == Num(n as real)
  {
    ParseIntegerText(n);
  }

  /**
   * A token written as digits, a point and digits (either run may be empty,
   * not both) coerces to the integer part plus the fraction over its scale.
   */
  lemma CoerceFractionText(ip: string, fp: string)
    requires AllDigits(ip) && AllDigits(fp) && |ip| + |fp| > 0
    ensures Coerce(Text(ip + "." + fp)) == Num(PointValue(ip, fp))
  {
    var s := ip + "." + fp;
    var v := PointValue(ip, fp);
    PointAfterDigits(ip, fp);
    assert s[..|ip|] == ip && s[|ip| + 1..] == fp;
    assert UnsignedValue(s) == Some(v);
    assert s[0] != '-' && s[0] != '+' by {
      if |ip| == 0 { assert s[0] == '.'; } else { assert s[0] == ip[0]; }
    }
    UnsignedParse(s);
  }

  /** A token without a sign parses as its unsigned value. */
  lemma UnsignedParse(s: string)
    requires |s| > 0 && s[0] != '-' && s[0] != '+'
    ensures ParseNumber(s) == UnsignedValue(s)
  {
  }

  /** The first point of `ip + "." + fp` is the one after the digits. */
  lemma PointAfterDigits(ip: string, fp: string)
    requires AllDigits(ip)
    ensures FirstWhere(ip + "." + fp, IsPoint) == Some(|ip|)
  {
    var s := ip + "." + fp;
    assert IsPoint(s[|ip|]);
    assert forall j :: 0 <= j < |ip| ==> s[j] == ip[j] && !IsPoint(s[j]);
  }

  /** A rate written as a decimal fraction keeps its value. */
  lemma CoerceRateText()
    ensures Coerce(Text("0.85")) == Num(0.85)
  {
    assert DigitsValue("0") == 0 by { assert "0"[..0] == ""; }
    assert DigitsValue("85") == 85 by { assert "85"[..1] == "8" && "8"[..0] == ""; }
    assert Pow10(|"85"|) == 100;
    assert PointValue("0", "85") == 0.85;
    CoerceFractionText("0", "85");
    assert "0" + "." + "85" == "0.85";
  }

  // ---------------------------------------------------------------------
  // Column assignment, masks and projections
  // ---------------------------------------------------------------------

  /**
   * `df[name] = values`: an existing column is overwritten in place, a new
   * one is appended at the end; no other cell changes.
   */
  function AssignColumn(t: Table, name: string, f: Row --> Cell): (r: Table)
    requires forall i :: 0 <= i < |t.rows| ==> f.requires(t.rows[i])
    ensures r.columns == if name in t.columns then t.columns else t.columns + [name]
    ensures |r.rows| == |t.rows|
    ensures forall i, c :: 0 <= i < |t.rows| ==>
      Get(r.rows[i], c) == if c == name then f(t.rows[i]) else Get(t.rows[i], c)
  {
    Table(if name in t.columns then t.columns else t.columns + [name],
          MapSeq(t.rows, (row: Row) requires f.requires(row) => row[name := f(row)]))
  }

  /** `df[mask]`: the rows satisfying `p`, in their order, all columns kept. */
  function FilterRows(t: Table, p: Row -> bool): (r: Table)
    ensures r.columns == t.columns
    ensures forall row :: row in r.rows <==> row in t.rows && p(row)
  {
    Table(t.columns, Filter(t.rows, p))
  }

  /** The test `c in df.columns`, as a function value. */
  function HasColumn(t: Table): string -> bool {
    c => c in t.columns
  }

  /** The values column `c` takes in `rows`. */
  function Column(rows: seq<Row>, c: string): set<Cell> {
    set r | r in rows :: Get(r, c)
  }

  /** A row cut down to the columns listed in `cols`. */
  function Restrict(row: Row, cols: seq<string>): (r: Row)
    ensures forall c :: Get(r, c) == if c in cols then Get(row, c) else Missing
  {
    map c | c in cols && c in row :: row[c]
  }

  /**
   * `df[[c for c in wanted if c in df.columns]]`: the wanted columns that the
   * frame has, in the order of `wanted`, silently skipping the others.
   */
  function ProjectPresent(t: Table, wanted: seq<string>): (r: Table)
    ensures r.columns == Filter(wanted, HasColumn(t))
    ensures forall c :: c in r.columns <==> c in wanted && c in t.columns
    ensures |r.rows| == |t.rows|
    ensures forall i, c :: 0 <= i < |t.rows| ==>
      Get(r.rows[i], c) == if c in wanted && c in t.columns then Get(t.rows[i], c) else Missing
  {
    var cols := Filter(wanted, HasColumn(t));
    Table(cols, MapSeq(t.rows, (row: Row) => Restrict(row, cols)))
  }

  /** The output names of a rename list. */
  function Targets(renames: seq<(string, string)>): (r: seq<string>)
    ensures |r| == |renames| && forall m :: 0 <= m < |renames| ==> r[m] == renames[m].1
  {
    MapSeq(renames, (p: (string, string)) => p.1)
  }

  /** The renamed value columns of one row: each target holds its source's cell. */
  function RenamedCells(row: Row, renames: seq<(string, string)>): (r: Row)
    requires Distinct(Targets(renames))
    ensures r.Keys == set m | 0 <= m < |renames| :: renames[m].1
    ensures forall m :: 0 <= m < |renames| ==> r[renames[m].1] == Get(row, renames[m].0)
  {
    if renames == [] then map[]
    else
      var init := renames[..|renames| - 1];
      TargetsInit(renames);
      TargetSetInit(renames, init);
      RenamedCells(row, init)[renames[|renames| - 1].1 := Get(row, renames[|renames| - 1].0)]
  }

  lemma TargetSetInit(renames: seq<(string, string)>, init: seq<(string, string)>)
    requires renames != [] && init == renames[..|renames| - 1]
    ensures (set m | 0 <= m < |renames| :: renames[m].1)
      == (set m | 0 <= m < |init| :: init[m].1) + {renames[|renames| - 1].1}
  {
    forall m | 0 <= m < |init| ensures init[m] == renames[m] {
    }
  }

  lemma TargetsInit(renames: seq<(string, string)>)
    requires renames != [] && Distinct(Targets(renames))
    ensures Distinct(Targets(renames[..|renames| - 1]))
  {
    var init := renames[..|renames| - 1];
    forall a, b | 0 <= a < b < |init| ensures Targets(init)[a] != Targets(init)[b] {
      assert Targets(init)[a] == Targets(renames)[a] && Targets(init)[b] == Targets(renames)[b];
    }
  }

  /** The key and the targets of distinct names: the targets are distinct and none is the key. */
  lemma KeyAndTargets(key: string, renames: seq<(string, string)>)
    requires Distinct([key] + Targets(renames))
    ensures Distinct(Targets(renames))
    ensures forall m :: 0 <= m < |renames| ==> renames[m].1 != key
  {
    var ks := [key] + Targets(renames);
    assert forall a :: 0 <= a < |Targets(renames)| ==> Targets(renames)[a] == ks[a + 1];
    forall m | 0 <= m < |renames| ensures renames[m].1 != key {
      assert ks[0] != ks[m + 1];
    }
  }

  /** One row of the selection: its key cell and each source cell under its target name. */
  function SelectedRow(row: Row, key: string, renames: seq<(string, string)>): (r: Row)
    requires Distinct([key] + Targets(renames))
    ensures r.Keys == set c | c in [key] + Targets(renames)
    ensures Get(r, key) == Get(row, key)
    ensures forall m :: 0 <= m < |renames| ==> Get(r, renames[m].1) == Get(row, renames[m].0)
  {
    KeyAndTargets(key, renames);
    var r := RenamedCells(row, renames)[key := Get(row, key)];
    SelectedKeys(r, key, renames);
    r
  }

  lemma SelectedKeys(r: Row, key: string, renames: seq<(string, string)>)
    requires r.Keys == {key} + set m | 0 <= m < |renames| :: renames[m].1
    ensures r.Keys == set c | c in [key] + Targets(renames)
  {
    forall c ensures c in r.Keys <==> c in [key] + Targets(renames) {
      if c in [key] + Targets(renames) && c != key {
        var m :| 0 <= m < |renames| && Targets(renames)[m] == c;
      }
    }
  }

  /**
   * `aux[[key] + sources].rename(columns=dict(renames))`: the key column
   * followed by each source column under its new name.
   */
  function SelectRenamed(t: Table, key: string, renames: seq<(string, string)>): (r: Table)
    requires Distinct([key] + Targets(renames))
    ensures r.columns == [key] + Targets(renames)
    ensures WellFormed(r)
    ensures |r.rows| == |t.rows|
    ensures forall i :: 0 <= i < |t.rows| ==> Get(r.rows[i], key) == Get(t.rows[i], key)
    ensures forall i, m :: 0 <= i < |t.rows| && 0 <= m < |renames| ==>
      Get(r.rows[i], renames[m].1) == Get(t.rows[i], renames[m].0)
  {
    var rows := MapSeq(t.rows, (row: Row) => SelectedRow(row, key, renames));
    SelectedRowsKeys(t.rows, key, renames, rows);
    Table([key] + Targets(renames), rows)
  }

  lemma SelectedRowsKeys(src: seq<Row>, key: string, renames: seq<(string, string)>, rows: seq<Row>)
    requires Distinct([key] + Targets(renames))
    requires |rows| == |src| && forall i :: 0 <= i < |src| ==> rows[i] == SelectedRow(src[i], key, renames)
    ensures forall r :: r in rows ==> r.Keys == set c | c in [key] + Targets(renames)
  {
    forall r | r in rows ensures r.Keys == set c | c in [key] + Targets(renames) {
      var i :| 0 <= i < |rows| && rows[i] == r;
      assert r == SelectedRow(src[i], key, renames);
    }
  }

  // ---------------------------------------------------------------------
  // Left merge: df.merge(right, on=key, how="left")
  // ---------------------------------------------------------------------

  /** The rows of `rows` whose key column holds `k`, in their order. */
  function Matches(rows: seq<Row>, key: string, k: Cell): (r: seq<Row>)
    ensures forall m :: m in r <==> m in rows && Get(m, key) == k
  {
    Filter(rows, (m: Row) => Get(m, key) == k)
  }

  /** Base row `b` extended with the cells of `cols` taken from `m`, or missing when there is no `m`. */
  function Extend(b: Row, cols: seq<string>, m: Option<Row>): (r: Row)
    ensures forall c :: Get(r, c) == if c in cols then (if m.Some? then Get(m.value, c) else Missing) else Get(b, c)
  {
    b + map c | c in cols :: if m.Some? then Get(m.value, c) else Missing
  }

  /** The output rows one base row produces: one per match, or one padded with missing cells. */
  function MergeRow(b: Row, right: seq<Row>, key: string, cols: seq<string>): (r: seq<Row>)
    ensures |r| >= 1
  {
    var ms := Matches(right, key, Get(b, key));
    if ms == [] then [Extend(b, cols, None)] else MapSeq(ms, (m: Row) => Extend(b, cols, Some(m)))
  }

  /** The merged rows for the base rows, base order first, then the order of the matches. */
  function MergeRows(base: seq<Row>, right: seq<Row>, key: string, cols: seq<string>): (r: seq<Row>)
    ensures |r| >= |base|
  {
    if base == [] then []
    else MergeRows(base[..|base| - 1], right, key, cols) + MergeRow(base[|base| - 1], right, key, cols)
  }

  /** The columns the right frame contributes: all but the key. */
  function AddedColumns(right: Table, key: string): seq<string> {
    Filter(right.columns, c => c != key)
  }

  /**
   * The left merge. Every base row appears, in order; a base row with no
   * match gets missing cells in the added columns, one with several matches
   * is repeated once per match (pandas' fan-out).
   */
  function LeftMerge(base: Table, right: Table, key: string): (r: Table)
    ensures r.columns == base.columns + AddedColumns(right, key)
    ensures |r.rows| >= |base.rows|
  {
    Table(base.columns + AddedColumns(right, key),
          MergeRows(base.rows, right.rows, key, AddedColumns(right, key)))
  }

  /** No two rows share a key cell. */
  predicate UniqueKeys(rows: seq<Row>, key: string) {
    forall a, b :: 0 <= a < b < |rows| ==> Get(rows[a], key) != Get(rows[b], key)
  }

  /** No row of `rows` has key cell `k`. */
  predicate NoMatch(rows: seq<Row>, key: string, k: Cell) {
    forall j :: 0 <= j < |rows| ==> Get(rows[j], key) != k
  }

  /** A key cell no row holds has no match. */
  lemma NoMatchEmpty(rows: seq<Row>, key: string, k: Cell)
    requires NoMatch(rows, key, k)
    ensures Matches(rows, key, k) == []
  {
    FilterNone(rows, (m: Row) => Get(m, key) == k);
  }

  /** With unique keys the row holding a key cell is its only match. */
  lemma UniqueMatchOne(rows: seq<Row>, key: string, j: nat)
    requires UniqueKeys(rows, key) && j < |rows|
    ensures Matches(rows, key, Get(rows[j], key)) == [rows[j]]
  {
    var k := Get(rows[j], key);
    var p := (m: Row) => Get(m, key) == k;
    forall i | 0 <= i < |rows| && i != j ensures !p(rows[i]) {
      if i < j {
        assert Get(rows[i], key) != Get(rows[j], key);
      } else {
        assert Get(rows[j], key) != Get(rows[i], key);
      }
    }
    FilterSingle(rows, p, j);
  }

  /** With unique keys a key cell has at most one match: the row that holds it. */
  lemma UniqueMatch(rows: seq<Row>, key: string, k: Cell)
    requires UniqueKeys(rows, key)
    ensures NoMatch(rows, key, k) ==> Matches(rows, key, k) == []
    ensures forall j :: 0 <= j < |rows| && Get(rows[j], key) == k ==> Matches(rows, key, k) == [rows[j]]
  {
    if NoMatch(rows, key, k) {
      NoMatchEmpty(rows, key, k);
    }
    forall j | 0 <= j < |rows| && Get(rows[j], key) == k
      ensures Matches(rows, key, k) == [rows[j]]
    {
      UniqueMatchOne(rows, key, j);
    }
  }

  /** Against unique keys a base row yields exactly one output row. */
  lemma MergeRowSingle(b: Row, right: seq<Row>, key: string, cols: seq<string>)
    requires UniqueKeys(right, key)
    ensures |MergeRow(b, right, key, cols)| == 1
  {
    UniqueMatch(right, key, Get(b, key));
    if !NoMatch(right, key, Get(b, key)) {
      var j :| 0 <= j < |right| && Get(right[j], key) == Get(b, key);
      assert Matches(right, key, Get(b, key)) == [right[j]];
    }
  }

  /** That one row is the base row extended from its match, or padded with missing cells. */
  lemma MergeRowUnique(b: Row, right: seq<Row>, key: string, cols: seq<string>)
    requires UniqueKeys(right, key)
    ensures |MergeRow(b, right, key, cols)| == 1
    ensures forall j :: 0 <= j < |right| && Get(right[j], key) == Get(b, key) ==>
      MergeRow(b, right, key, cols)[0] == Extend(b, cols, Some(right[j]))
    ensures NoMatch(right, key, Get(b, key)) ==> MergeRow(b, right, key, cols)[0] == Extend(b, cols, None)
  {
    UniqueMatch(right, key, Get(b, key));
    if !NoMatch(right, key, Get(b, key)) {
      var j :| 0 <= j < |right| && Get(right[j], key) == Get(b, key);
      assert Matches(right, key, Get(b, key)) == [right[j]];
    }
  }

  /** Against unique keys output row `i` is the one row base row `i` yields. */
  lemma MergeRowsUnique(base: seq<Row>, right: seq<Row>, key: string, cols: seq<string>)
    requires UniqueKeys(right, key)
    ensures |MergeRows(base, right, key, cols)| == |base|
    ensures forall i :: 0 <= i < |base| ==> MergeRows(base, right, key, cols)[i] == MergeRow(base[i], right, key, cols)[0]
  {
    MergeRowsLength(base, right, key, cols);
    forall i | 0 <= i < |base| ensures MergeRows(base, right, key, cols)[i] == MergeRow(base[i], right, key, cols)[0] {
      MergeRowsAt(base, right, key, cols, i);
    }
  }

  lemma {:induction false} MergeRowsLength(base: seq<Row>, right: seq<Row>, key: string, cols: seq<string>)
    requires UniqueKeys(right, key)
    ensures |MergeRows(base, right, key, cols)| == |base|
  {
    if base != [] {
      MergeRowsLength(base[..|base| - 1], right, key, cols);
      MergeRowSingle(base[|base| - 1], right, key, cols);
    }
  }

  lemma {:induction false} MergeRowsAt(base: seq<Row>, right: seq<Row>, key: string, cols: seq<string>, i: nat)
    requires UniqueKeys(right, key) && i < |base|
    ensures |MergeRows(base, right, key, cols)| == |base|
    ensures MergeRows(base, right, key, cols)[i] == MergeRow(base[i], right, key, cols)[0]
  {
    var init := base[..|base| - 1];
    var last := base[|base| - 1];
    MergeRowsLength(init, right, key, cols);
    MergeRowSingle(last, right, key, cols);
    var a := MergeRows(init, right, key, cols);
    var m := MergeRow(last, right, key, cols);
    assert MergeRows(base, right, key, cols) == a + m;
    ConcatAt(a, m, i);
    if i < |init| {
      MergeRowsAt(init, right, key, cols, i);
      assert base[i] == init[i];
    } else {
      assert i == |base| - 1;
    }
  }

  /**
   * A left merge against a frame with unique keys keeps the base rows
   * exactly, in order, one output row each: each is extended with the
   * matching row's cells, or with missing cells when no key matches.
   */
  lemma LeftMergeUnique(base: seq<Row>, right: seq<Row>, key: string, cols: seq<string>)
    requires UniqueKeys(right, key)
    ensures |MergeRows(base, right, key, cols)| == |base|
    ensures forall i, j :: 0 <= i < |base| && 0 <= j < |right| && Get(right[j], key) == Get(base[i], key) ==>
      MergeRows(base, right, key, cols)[i] == Extend(base[i], cols, Some(right[j]))
    ensures forall i :: 0 <= i < |base| && NoMatch(right, key, Get(base[i], key)) ==>
      MergeRows(base, right, key, cols)[i] == Extend(base[i], cols, None)
  {
    MergeRowsUnique(base, right, key, cols);
    forall i | 0 <= i < |base| {
      MergeRowUnique(base[i], right, key, cols);
    }
  }

  /**
   * Whatever the keys, a merged row takes its base columns from the base row
   * it extends, and its added columns from a matching right row or missing.
   */
  lemma MergeRowProvenance(b: Row, right: seq<Row>, key: string, cols: seq<string>)
    ensures forall row, c :: row in MergeRow(b, right, key, cols) && c !in cols ==> Get(row, c) == Get(b, c)
    ensures forall row, c :: row in MergeRow(b, right, key, cols) && c in cols ==>
      Get(row, c) == Missing || Get(row, c) in Column(right, c)
  {
    var ms := Matches(right, key, Get(b, key));
    if ms != [] {
      var f := (m: Row) => Extend(b, cols, Some(m));
      forall row, c | row in MergeRow(b, right, key, cols) && c in cols
        ensures Get(row, c) in Column(right, c)
      {
        var k :| 0 <= k < |ms| && MapSeq(ms, f)[k] == row;
        assert ms[k] in right;
      }
    }
  }

  lemma {:induction false} MergeRowsProvenance(base: seq<Row>, right: seq<Row>, key: string, cols: seq<string>)
    ensures forall row, c :: row in MergeRows(base, right, key, cols) && c !in cols ==> Get(row, c) in Column(base, c)
    ensures forall row, c :: row in MergeRows(base, right, key, cols) && c in cols ==>
      Get(row, c) == Missing || Get(row, c) in Column(right, c)
  {
    if base != [] {
      var init, last := base[..|base| - 1], base[|base| - 1];
      MergeRowsProvenance(init, right, key, cols);
      MergeRowProvenance(last, right, key, cols);
      assert base == init + [last];
      forall row, c | row in MergeRows(base, right, key, cols) && c !in cols
        ensures Get(row, c) in Column(base, c)
      {
        if row in MergeRows(init, right, key, cols) {
          var r0 :| r0 in init && Get(r0, c) == Get(row, c);
          assert r0 in base;
        } else {
          assert last in base;
        }
      }
    }
  }
}
