/**
 * The program table of the pipeline: bachelor's-degree completions, the
 * all-programs total removed, counts coerced to numbers, rows without a
 * count dropped, each program reduced to its two-character CIP family,
 * summed per (UNITID, family), and labelled from the CIP family table.
 */
module Programs {
  import opened Wrappers
  import opened Seqs
  import opened Frames

  /** The CIP family names, by two-character family code. */
  const CipFamilies: map<string, string> := map[
    "01" := "Agriculture", "03" := "Natural Resources", "04" := "Architecture",
    "05" := "Area/Ethnic Studies", "09" := "Communication", "10" := "Communications Tech",
    "11" := "Computer Science", "12" := "Personal/Culinary", "13" := "Education",
    "14" := "Engineering", "15" := "Engineering Tech", "16" := "Foreign Languages",
    "19" := "Family/Consumer Sciences", "22" := "Legal Professions",
    "23" := "English", "24" := "Liberal Arts", "25" := "Library Science",
    "26" := "Biological Sciences", "27" := "Mathematics", "29" := "Military Tech",
    "30" := "Interdisciplinary", "31" := "Parks/Recreation",
    "38" := "Philosophy/Religion", "39" := "Theology",
    "40" := "Physical Sciences", "41" := "Science Tech",
    "42" := "Psychology", "43" := "Homeland Security",
    "44" := "Public Administration", "45" := "Social Sciences",
    "46" := "Construction Trades", "47" := "Mechanic/Repair",
    "48" := "Precision Production", "49" := "Transportation",
    "50" := "Visual/Performing Arts", "51" := "Health Professions",
    "52" := "Business", "54" := "History"]

  // ---------------------------------------------------------------------
  // Row stages
  // ---------------------------------------------------------------------

  /** `comp["AWLEVEL"] == 5`: a bachelor's-degree award. */
  predicate Bachelors(r: Row) {
    Get(r, "AWLEVEL") == Num(5.0)
  }

  /** `comp["CIPCODE"] != "99"`: the whole code is compared, so "9901" passes; a missing code passes too. */
  predicate NotAllPrograms(r: Row) {
    Get(r, "CIPCODE") != Text("99")
  }

  /** `dropna(subset=["CTOTALT"])` */
  predicate HasCount(r: Row) {
    Get(r, "CTOTALT") != Missing
  }

  /** `s[:2]`: the first two characters, or the whole string when it is shorter. */
  function Prefix2(s: string): (p: string)
    ensures |p| <= 2 && p <= s
    ensures |s| >= 2 ==> |p| == 2
    ensures |s| < 2 ==> p == s
  {
    if |s| < 2 then s else s[..2]
  }

  /** `.str[:2]` on a CIPCODE cell: a text code gives its prefix, anything else is missing. */
  function FamilyOf(c: Cell): (f: Cell)
    ensures f.Missing? || (f.Text? && |f.s| <= 2)
    ensures f.Text? <==> c.Text?
    ensures c.Text? ==> f == Text(Prefix2(c.s))
  {
    if c.Text? then Text(Prefix2(c.s)) else Missing
  }

  // ---------------------------------------------------------------------
  // What a completions row contributes to the group sums
  // ---------------------------------------------------------------------

  /** One count towards the total of one (UNITID, family) group. */
  datatype Contribution = Contribution(unitid: Cell, family: string, count: real)

  function KeyOf(c: Contribution): (Cell, string) {
    (c.unitid, c.family)
  }

  /**
   * The contribution of a raw completions row: a bachelor's row whose code is
   * not "99" and whose count is numeric counts towards its UNITID and CIP
   * family, unless either group key is missing (groupby drops those).
   */
  function Contributed(r: Row): (e: Option<Contribution>)
    ensures e.Some? <==>
      Bachelors(r) && NotAllPrograms(r) && Coerce(Get(r, "CTOTALT")).Num? &&
      Get(r, "UNITID") != Missing && Get(r, "CIPCODE").Text?
    ensures e.Some? ==>
      && e.value.unitid == Get(r, "UNITID") && |e.value.family| <= 2
      && e.value.family == Prefix2(Get(r, "CIPCODE").s) && Coerce(Get(r, "CTOTALT")) == Num(e.value.count)
  {
    var count := Coerce(Get(r, "CTOTALT"));
    if Bachelors(r) && NotAllPrograms(r) && count.Num? && Get(r, "UNITID") != Missing && Get(r, "CIPCODE").Text?
    then Some(Contribution(Get(r, "UNITID"), Prefix2(Get(r, "CIPCODE").s), count.x))
    else None
  }

  /** What groupby reads from a prepared row: its two key cells and its count. */
  function Grouped(r: Row): Option<Contribution> {
    var family := Get(r, "cip_family");
    if Get(r, "UNITID") != Missing && family.Text? && Get(r, "CTOTALT").Num?
    then Some(Contribution(Get(r, "UNITID"), family.s, Get(r, "CTOTALT").x))
    else None
  }

  // ---------------------------------------------------------------------
  // groupby(["UNITID", "cip_family"])["CTOTALT"].sum()
  // ---------------------------------------------------------------------

  datatype Group = Group(unitid: Cell, family: string, total: real)

  function GroupKey(g: Group): (Cell, string) {
    (g.unitid, g.family)
  }

  /** Add one contribution: to its group when there is one, else as a new group at the end. */
  function AddTo(gs: seq<Group>, c: Contribution): (r: seq<Group>)
    ensures |r| >= 1
  {
    if gs == [] then [Group(c.unitid, c.family, c.count)]
    else if GroupKey(gs[0]) == KeyOf(c) then [gs[0].(total := gs[0].total + c.count)] + gs[1..]
    else [gs[0]] + AddTo(gs[1..], c)
  }

  /** The group sums of the contributions, groups in order of first appearance. */
  function GroupSum(cs: seq<Contribution>): seq<Group> {
    if cs == [] then [] else AddTo(GroupSum(cs[..|cs| - 1]), cs[|cs| - 1])
  }

  function GroupKeys(gs: seq<Group>): set<(Cell, string)> {
    set g | g in gs :: GroupKey(g)
  }

  function ContributionKeys(cs: seq<Contribution>): set<(Cell, string)> {
    set c | c in cs :: KeyOf(c)
  }

  predicate DistinctKeys(gs: seq<Group>) {
    forall a, b :: 0 <= a < b < |gs| ==> GroupKey(gs[a]) != GroupKey(gs[b])
  }

  /** The sum of the counts that go to key `k`. */
  function SumFor(cs: seq<Contribution>, k: (Cell, string)): real {
    if cs == [] then 0.0
    else SumFor(cs[..|cs| - 1], k) + (if KeyOf(cs[|cs| - 1]) == k then cs[|cs| - 1].count else 0.0)
  }

  /** The sum of all counts. */
  function CountTotal(cs: seq<Contribution>): real {
    if cs == [] then 0.0 else CountTotal(cs[..|cs| - 1]) + cs[|cs| - 1].count
  }

  /** The sum of the totals of the groups with key `k`. */
  function TotalFor(gs: seq<Group>, k: (Cell, string)): real {
    if gs == [] then 0.0
    else (if GroupKey(gs[0]) == k then gs[0].total else 0.0) + TotalFor(gs[1..], k)
  }

  /** The sum of all group totals. */
  function GroupsTotal(gs: seq<Group>): real {
    if gs == [] then 0.0 else gs[0].total + GroupsTotal(gs[1..])
  }

  lemma GroupKeysCons(g: Group, rest: seq<Group>)
    ensures GroupKeys([g] + rest) == {GroupKey(g)} + GroupKeys(rest)
  {
    var gs := [g] + rest;
    forall x | x in gs ensures x == g || x in rest {
    }
    forall x | x in rest ensures x in gs {
    }
  }

  lemma {:induction false} AddToKeys(gs: seq<Group>, c: Contribution)
    ensures GroupKeys(AddTo(gs, c)) == GroupKeys(gs) + {KeyOf(c)}
  {
    if gs == [] {
      assert AddTo(gs, c) == [Group(c.unitid, c.family, c.count)] + [];
      GroupKeysCons(Group(c.unitid, c.family, c.count), []);
    } else {
      var rest := gs[1..];
      assert gs == [gs[0]] + rest;
      GroupKeysCons(gs[0], rest);
      if GroupKey(gs[0]) != KeyOf(c) {
        AddToKeys(rest, c);
        GroupKeysCons(gs[0], AddTo(rest, c));
      } else {
        var g := gs[0].(total := gs[0].total + c.count);
        GroupKeysCons(g, rest);
      }
    }
  }

  lemma {:induction false} AddToDistinct(gs: seq<Group>, c: Contribution)
    requires DistinctKeys(gs)
    ensures DistinctKeys(AddTo(gs, c))
  {
    if gs != [] && GroupKey(gs[0]) != KeyOf(c) {
      var rest := gs[1..];
      assert DistinctKeys(rest) by {
        forall a, b | 0 <= a < b < |rest| ensures GroupKey(rest[a]) != GroupKey(rest[b]) {
          assert rest[a] == gs[a + 1] && rest[b] == gs[b + 1];
        }
      }
      AddToDistinct(rest, c);
      AddToKeys(rest, c);
      var r := AddTo(gs, c);
      forall b | 0 < b < |r| ensures GroupKey(r[0]) != GroupKey(r[b]) {
        assert r[b] in AddTo(rest, c);
        assert GroupKey(r[b]) in GroupKeys(rest) + {KeyOf(c)};
        forall a | 0 <= a < |rest| ensures GroupKey(rest[a]) != GroupKey(gs[0]) {
          assert rest[a] == gs[a + 1];
        }
      }
    }
  }

  lemma {:induction false} AddToTotals(gs: seq<Group>, c: Contribution, k: (Cell, string))
    ensures TotalFor(AddTo(gs, c), k) == TotalFor(gs, k) + (if KeyOf(c) == k then c.count else 0.0)
    ensures GroupsTotal(AddTo(gs, c)) == GroupsTotal(gs) + c.count
  {
    if gs == [] {
      assert AddTo(gs, c)[1..] == [];
    } else if GroupKey(gs[0]) == KeyOf(c) {
      assert AddTo(gs, c)[1..] == gs[1..];
    } else {
      AddToTotals(gs[1..], c, k);
      assert AddTo(gs, c)[1..] == AddTo(gs[1..], c);
    }
  }

  /** In groups with distinct keys, the total for a group's key is that group's total. */
  lemma {:induction false} TotalForDistinct(gs: seq<Group>, i: nat)
    requires DistinctKeys(gs) && i < |gs|
    ensures TotalFor(gs, GroupKey(gs[i])) == gs[i].total
  {
    var rest := gs[1..];
    assert DistinctKeys(rest) by {
      forall a, b | 0 <= a < b < |rest| ensures GroupKey(rest[a]) != GroupKey(rest[b]) {
        assert rest[a] == gs[a + 1] && rest[b] == gs[b + 1];
      }
    }
    if i == 0 {
      TotalForAbsent(rest, GroupKey(gs[0]));
    } else {
      assert rest[i - 1] == gs[i];
      TotalForDistinct(rest, i - 1);
    }
  }

  lemma {:induction false} TotalForAbsent(gs: seq<Group>, k: (Cell, string))
    requires forall a :: 0 <= a < |gs| ==> GroupKey(gs[a]) != k
    ensures TotalFor(gs, k) == 0.0
  {
    if gs != [] {
      TotalForAbsent(gs[1..], k);
    }
  }

  /**
   * The group sums: one group per distinct key, each holding the sum of the
   * counts with its key, and all counts accounted for.
   */
  lemma {:induction false} GroupSumSpec(cs: seq<Contribution>)
    ensures DistinctKeys(GroupSum(cs))
    ensures GroupKeys(GroupSum(cs)) == ContributionKeys(cs)
    ensures forall k :: TotalFor(GroupSum(cs), k) == SumFor(cs, k)
    ensures GroupsTotal(GroupSum(cs)) == CountTotal(cs)
  {
    if cs != [] {
      var init, last := cs[..|cs| - 1], cs[|cs| - 1];
      GroupSumSpec(init);
      AddToDistinct(GroupSum(init), last);
      AddToKeys(GroupSum(init), last);
      assert cs == init + [last];
      assert ContributionKeys(cs) == ContributionKeys(init) + {KeyOf(last)};
      forall k ensures TotalFor(GroupSum(cs), k) == SumFor(cs, k) {
        AddToTotals(GroupSum(init), last, k);
      }
      AddToTotals(GroupSum(init), last, KeyOf(last));
    }
  }

  /** A key's sum is never negative when no count is. */
  lemma {:induction false} SumForNonNegative(cs: seq<Contribution>, k: (Cell, string))
    requires forall i :: 0 <= i < |cs| ==> cs[i].count >= 0.0
    ensures SumFor(cs, k) >= 0.0
  {
    if cs != [] {
      SumForNonNegative(cs[..|cs| - 1], k);
    }
  }

  // ---------------------------------------------------------------------
  // Labels and the program rows
  // ---------------------------------------------------------------------

  /** `map(CIP_FAMILIES).fillna("Other")` on one family code. */
  function CipLabel(family: string): (l: string)
    ensures family in CipFamilies ==> l == CipFamilies[family]
    ensures family !in CipFamilies ==> l == "Other"
  {
    if family in CipFamilies then CipFamilies[family] else "Other"
  }

  /** A row of programs.csv. */
  datatype Program = Program(unitid: Cell, family: string, totalAwards: real, cipLabel: string)

  function Labelled(g: Group): Program {
    Program(g.unitid, g.family, g.total, CipLabel(g.family))
  }

  /** `reset_index().rename(...)` followed by the label column. */
  function Aggregate(cs: seq<Contribution>): seq<Program> {
    MapSeq(GroupSum(cs), Labelled)
  }

  function ProgramsTotal(ps: seq<Program>): real {
    if ps == [] then 0.0 else ps[0].totalAwards + ProgramsTotal(ps[1..])
  }

  lemma {:induction false} ProgramsTotalOfGroups(gs: seq<Group>)
    ensures ProgramsTotal(MapSeq(gs, Labelled)) == GroupsTotal(gs)
  {
    if gs != [] {
      ProgramsTotalOfGroups(gs[1..]);
      assert MapSeq(gs, Labelled)[1..] == MapSeq(gs[1..], Labelled);
    }
  }

  /**
   * The aggregated program rows: exactly one per distinct (UNITID, family)
   * among the contributions, each with the sum of that key's counts and its
   * family's label or "Other"; the grand total of the counts is preserved.
   */
  lemma AggregateSpec(cs: seq<Contribution>)
    ensures forall a, b :: 0 <= a < b < |Aggregate(cs)| ==>
      (Aggregate(cs)[a].unitid, Aggregate(cs)[a].family) != (Aggregate(cs)[b].unitid, Aggregate(cs)[b].family)
    ensures ProgramKeys(Aggregate(cs)) == ContributionKeys(cs)
    ensures forall p :: p in Aggregate(cs) ==> p.totalAwards == SumFor(cs, (p.unitid, p.family))
    ensures forall p :: p in Aggregate(cs) ==> p.cipLabel == if p.family in CipFamilies then CipFamilies[p.family] else "Other"
    ensures ProgramsTotal(Aggregate(cs)) == CountTotal(cs)
  {
    GroupSumSpec(cs);
    ProgramsTotalOfGroups(GroupSum(cs));
    AggregateTotals(cs);
    AggregateKeys(cs);
  }

  lemma AggregateTotals(cs: seq<Contribution>)
    requires DistinctKeys(GroupSum(cs))
    requires forall k :: TotalFor(GroupSum(cs), k) == SumFor(cs, k)
    ensures forall p :: p in Aggregate(cs) ==> p.totalAwards == SumFor(cs, (p.unitid, p.family))
  {
    var gs := GroupSum(cs);
    var ps := Aggregate(cs);
    forall p | p in ps ensures p.totalAwards == SumFor(cs, (p.unitid, p.family)) {
      var i :| 0 <= i < |ps| && ps[i] == p;
      TotalForDistinct(gs, i);
    }
  }

  lemma AggregateKeys(cs: seq<Contribution>)
    requires GroupKeys(GroupSum(cs)) == ContributionKeys(cs)
    ensures ProgramKeys(Aggregate(cs)) == ContributionKeys(cs)
  {
    var gs := GroupSum(cs);
    var ps := Aggregate(cs);
    forall k | k in GroupKeys(gs) ensures k in ProgramKeys(ps) {
      var g :| g in gs && GroupKey(g) == k;
      var i :| 0 <= i < |gs| && gs[i] == g;
      assert ps[i] in ps;
    }
    forall k | k in ProgramKeys(ps) ensures k in GroupKeys(gs) {
      var p :| p in ps && (p.unitid, p.family) == k;
      var i :| 0 <= i < |ps| && ps[i] == p;
      assert gs[i] in gs;
    }
  }

  /** The (UNITID, family) pairs of the program rows. */
  function ProgramKeys(ps: seq<Program>): set<(Cell, string)> {
    set p | p in ps :: (p.unitid, p.family)
  }

  /** The (UNITID, family) pairs the completions rows contribute to. */
  function RowKeys(rows: seq<Row>): set<(Cell, string)> {
    set r | r in rows && Contributed(r).Some? :: KeyOf(Contributed(r).value)
  }

  /**
   * In terms of the completions rows: a (UNITID, family) pair has a program
   * row exactly when some row contributes to it, and every family is at most
   * two characters long.
   */
  lemma ProgramsOfRows(completions: Table)
    ensures ProgramKeys(Aggregate(Collect(completions.rows, Contributed))) == RowKeys(completions.rows)
    ensures forall p :: p in Aggregate(Collect(completions.rows, Contributed)) ==> |p.family| <= 2
  {
    var cs := Collect(completions.rows, Contributed);
    CollectMembers(completions.rows, Contributed);
    AggregateSpec(cs);
    forall k | k in ContributionKeys(cs) ensures k in RowKeys(completions.rows) {
      var c :| c in cs && KeyOf(c) == k;
      var r :| r in completions.rows && Contributed(r) == Some(c);
    }
    forall p | p in Aggregate(cs) ensures |p.family| <= 2 {
      assert (p.unitid, p.family) in ProgramKeys(Aggregate(cs));
      var c :| c in cs && KeyOf(c) == (p.unitid, p.family);
      var r :| r in completions.rows && Contributed(r) == Some(c);
    }
  }

  /** With no negative count, no program total is negative. */
  lemma AggregateNonNegative(cs: seq<Contribution>)
    requires forall i :: 0 <= i < |cs| ==> cs[i].count >= 0.0
    ensures forall p :: p in Aggregate(cs) ==> p.totalAwards >= 0.0
  {
    AggregateSpec(cs);
    forall p | p in Aggregate(cs) ensures p.totalAwards >= 0.0 {
      SumForNonNegative(cs, (p.unitid, p.family));
    }
  }

  // ---------------------------------------------------------------------
  // build_programs
  // ---------------------------------------------------------------------

  /**
   * `build_programs`: the completions frame is narrowed stage by stage, and
   * the program rows are the labelled group sums of what its rows
   * contribute. Every row the stages drop contributes nothing, so the result
   * is determined by the contributions of the raw rows, in order.
   */
  method BuildPrograms(completions: Table) returns (programs: seq<Program>)
    requires "UNITID" in completions.columns && "AWLEVEL" in completions.columns
    requires "CIPCODE" in completions.columns && "CTOTALT" in completions.columns
    ensures programs == Aggregate(Collect(completions.rows, Contributed))
  {
    var comp := FilterRows(completions, Bachelors);
    CollectFilter(completions.rows, Bachelors, Contributed);
    ghost var c1 := comp;
    comp := FilterRows(comp, NotAllPrograms);
    CollectFilter(c1.rows, NotAllPrograms, Contributed);
    ghost var c2 := comp;
    comp := AssignColumn(comp, "CTOTALT", (row: Row) => Coerce(Get(row, "CTOTALT")));
    CoercedCounts(c2, comp);
    ghost var c3 := comp;
    comp := FilterRows(comp, HasCount);
    CollectFilter(c3.rows, HasCount, Contributed);
    ghost var c4 := comp;
    comp := AssignColumn(comp, "cip_family", (row: Row) => FamilyOf(Get(row, "CIPCODE")));
    Families(c1, c2, c3, c4, comp);
    programs := Aggregate(Collect(comp.rows, Grouped));
  }

  /** Coercing the counts changes no contribution. */
  lemma CoercedCounts(before: Table, after: Table)
    requires |after.rows| == |before.rows|
    requires forall i, c :: 0 <= i < |before.rows| ==>
      Get(after.rows[i], c) == if c == "CTOTALT" then Coerce(Get(before.rows[i], "CTOTALT")) else Get(before.rows[i], c)
    ensures Collect(after.rows, Contributed) == Collect(before.rows, Contributed)
  {
    forall i | 0 <= i < |before.rows| ensures Contributed(after.rows[i]) == Contributed(before.rows[i]) {
      CoerceIdempotent(Get(before.rows[i], "CTOTALT"));
    }
    CollectPointwise(after.rows, before.rows, Contributed, Contributed);
  }

  /** After the filters, what groupby reads from a row is what the raw row contributes. */
  lemma Families(c1: Table, c2: Table, c3: Table, c4: Table, c5: Table)
    requires forall row :: row in c1.rows ==> Bachelors(row)
    requires forall row :: row in c2.rows ==> row in c1.rows && NotAllPrograms(row)
    requires |c3.rows| == |c2.rows|
    requires forall i, c :: 0 <= i < |c2.rows| ==>
      Get(c3.rows[i], c) == if c == "CTOTALT" then Coerce(Get(c2.rows[i], "CTOTALT")) else Get(c2.rows[i], c)
    requires forall row :: row in c4.rows ==> row in c3.rows && HasCount(row)
    requires |c5.rows| == |c4.rows|
    requires forall i, c :: 0 <= i < |c4.rows| ==>
      Get(c5.rows[i], c) == if c == "cip_family" then FamilyOf(Get(c4.rows[i], "CIPCODE")) else Get(c4.rows[i], c)
    ensures Collect(c5.rows, Grouped) == Collect(c4.rows, Contributed)
  {
    forall i | 0 <= i < |c4.rows| ensures Grouped(c5.rows[i]) == Contributed(c4.rows[i]) {
      var row := c4.rows[i];
      assert row in c4.rows;
      var j :| 0 <= j < |c3.rows| && c3.rows[j] == row;
      var orig := c2.rows[j];
      assert orig in c2.rows;
      CoerceIdempotent(Get(orig, "CTOTALT"));
    }
    CollectPointwise(c5.rows, c4.rows, Grouped, Contributed);
  }

  /**
   * The code "9901" is not the excluded "99": its row counts, in family "99",
   * which the family table does not name. A row whose code is exactly "99"
   * contributes nothing.
   */
  lemma NinetyNineOnlyWhole()
    ensures Contributed(map["UNITID" := Num(100.0), "AWLEVEL" := Num(5.0), "CIPCODE" := Text("9901"), "CTOTALT" := Num(3.0)])
      == Some(Contribution(Num(100.0), "99", 3.0))
    ensures CipLabel("99") == "Other"
    ensures Contributed(map["UNITID" := Num(100.0), "AWLEVEL" := Num(5.0), "CIPCODE" := Text("99"), "CTOTALT" := Num(3.0)]) == None
  {
    assert Prefix2("9901") == "99";
  }
}
