/** The per-institution summaries of 03_fairness.py (lines 133-138 and
    153-159): `groupby("INSTNM").agg(...)` with one mean per listed column,
    the first present share of women and the number of programmes, then
    `dropna()` and `program_count >= 5`. */
module Schools {
  import opened Cells
  import opened Columns
  import opened Frames

  // ---------------------------------------------------------------------
  // `Series.mean()` on exact reals

  /** The sum of the finite values; missing cells are skipped. */
  function Sum(cs: seq<Cell>): real {
    if cs == [] then 0.0
    else (if cs[0].Num? then cs[0].x else 0.0) + Sum(cs[1..])
  }

  /** The number of finite values. */
  function Count(cs: seq<Cell>): nat {
    if cs == [] then 0
    else (if cs[0].Num? then 1 else 0) + Count(cs[1..])
  }

  /** No finite value is counted exactly when there is none. */
  lemma {:induction false} CountZero(cs: seq<Cell>)
    ensures Count(cs) == 0 <==> forall c | c in cs :: !c.Num?
  {
    if cs != [] {
      CountZero(cs[1..]);
      assert forall c | c in cs[1..] :: c in cs;
      assert forall c | c in cs :: c == cs[0] || c in cs[1..];
    }
  }

  /** Values between `lo` and `hi` sum to between `Count * lo` and
      `Count * hi`. */
  lemma {:induction false} SumWithin(cs: seq<Cell>, lo: real, hi: real)
    requires forall c | c in cs && c.Num? :: lo <= c.x <= hi
    ensures Count(cs) as real * lo <= Sum(cs) <= Count(cs) as real * hi
  {
    if cs != [] {
      SumWithin(cs[1..], lo, hi);
    }
  }

  /** pandas `mean()` with `skipna=True`: missing cells are skipped; an
      infinity of one sign wins, both signs give NaN; with nothing left the
      mean is NaN. Text never reaches it (the averaged columns are
      numeric). */
  function Mean(cs: seq<Cell>): (m: Cell)
    ensures m.Missing? <==> (PosInf in cs && NegInf in cs) || forall c | c in cs :: c.Missing? || c.Text?
    ensures m.PosInf? <==> PosInf in cs && NegInf !in cs
    ensures m.NegInf? <==> NegInf in cs && PosInf !in cs
  {
    CountZero(cs);
    if PosInf in cs && NegInf in cs then Missing
    else if PosInf in cs then PosInf
    else if NegInf in cs then NegInf
    else if Count(cs) == 0 then Missing
    else Num(Sum(cs) / Count(cs) as real)
  }

  /** A finite mean lies between any bounds of the values it averages. */
  lemma MeanWithin(cs: seq<Cell>, lo: real, hi: real)
    requires forall c | c in cs && c.Num? :: lo <= c.x <= hi
    ensures Mean(cs).Num? ==> lo <= Mean(cs).x <= hi
  {
    if Mean(cs).Num? {
      SumWithin(cs, lo, hi);
      DivWithin(Sum(cs), Count(cs) as real, lo, hi);
    }
  }

  lemma DivWithin(s: real, n: real, lo: real, hi: real)
    requires n > 0.0 && n * lo <= s <= n * hi
    ensures lo <= s / n <= hi
  {
    assert s / n - lo == (s - n * lo) / n;
    assert hi - s / n == (n * hi - s) / n;
  }

  /** pandas `first()`: the first cell that is not missing, or NaN when all
      are. */
  function FirstPresent(cs: seq<Cell>): (r: Cell)
    ensures r.Missing? <==> forall c | c in cs :: c.Missing?
    ensures !r.Missing? ==> exists i | 0 <= i < |cs| :: cs[i] == r && forall j | 0 <= j < i :: cs[j].Missing?
  {
    if cs == [] then Missing
    else if !cs[0].Missing? then cs[0]
    else
      var r := FirstPresent(cs[1..]);
      assert forall c | c in cs :: c == cs[0] || c in cs[1..];
      assert !r.Missing? ==> exists i | 0 <= i < |cs[1..]| :: cs[1..][i] == r && forall j | 0 <= j < i :: cs[1..][j].Missing?;
      assert forall i | 0 <= i < |cs| - 1 :: cs[1..][i] == cs[i + 1];
      r
  }

  // ---------------------------------------------------------------------
  // The summary

  /** One row of `df_school_summary`: the institution, the mean of each
      averaged column over its programmes, its share of women and its
      number of programmes. */
  datatype SchoolStat = SchoolStat(name: Cell, means: seq<Cell>, women: Cell, count: nat)

  /** The table can be grouped by institution and averaged over
      `meanCols`. */
  ghost predicate Groupable(t: Table, meanCols: seq<Col>) {
    && WellFormed(t) && INSTNM in t.columns && UGDS_WOMEN in t.columns
    && forall c | c in meanCols :: c in t.columns
  }

  /** The aggregates of the programmes of institution `v`. */
  function School(t: Table, meanCols: seq<Col>, v: Cell): SchoolStat
    requires Groupable(t, meanCols)
  {
    var g := Group(t.rows, INSTNM, v);
    SchoolStat(v, seq(|meanCols|, j requires 0 <= j < |meanCols| => Mean(KeyColumn(g, meanCols[j]))),
               FirstPresent(KeyColumn(g, UGDS_WOMEN)), |g|)
  }

  /** `groupby("INSTNM").agg(...)`: one entry per present name, in order of
      first appearance; rows without a name belong to no group. */
  function Schools(t: Table, meanCols: seq<Col>): (s: seq<SchoolStat>)
    requires Groupable(t, meanCols)
    ensures |s| == |GroupKeys(t.rows, INSTNM)|
  {
    var keys := GroupKeys(t.rows, INSTNM);
    seq(|keys|, i requires 0 <= i < |keys| => School(t, meanCols, keys[i]))
  }

  /** `dropna()` on the summary: no mean and no share of women is NaN (the
      count never is). */
  predicate AllPresent(s: SchoolStat) {
    !s.women.Missing? && forall m | m in s.means :: !m.Missing?
  }

  /** `program_count >= 5` */
  predicate ManyPrograms(s: SchoolStat) {
    s.count >= 5
  }

  /** Lines 133-138 (averaging the ROI) and lines 153-159 (the ROI and the
      earnings). */
  function SchoolSummary(t: Table, meanCols: seq<Col>): seq<SchoolStat>
    requires Groupable(t, meanCols)
  {
    Keep(Keep(Schools(t, meanCols), AllPresent), ManyPrograms)
  }

  predicate DistinctNames(s: seq<SchoolStat>) {
    forall i, j | 0 <= i < j < |s| :: s[i].name != s[j].name
  }

  /** The programmes of a group are exactly the rows with its name, and a
      group of a present name is never empty. */
  lemma GroupMembers(rows: seq<Row>, v: Cell)
    requires HasKey(rows, INSTNM) && v in GroupKeys(rows, INSTNM)
    ensures forall x :: x in Group(rows, INSTNM, v) <==> x in rows && x[INSTNM] == v
    ensures |Group(rows, INSTNM, v)| >= 1
  {
    GroupKeysExact(rows, INSTNM);
    KeepMembers(rows, KeyIs(INSTNM, v));
    var f := Find(rows, INSTNM, v);
    assert rows[f] in Group(rows, INSTNM, v);
  }

  /** Every present name has exactly one entry and nothing else has one;
      each entry counts the rows of its name, at least one. */
  lemma SchoolsExact(t: Table, meanCols: seq<Col>)
    requires Groupable(t, meanCols)
    ensures var s := Schools(t, meanCols);
      && DistinctNames(s)
      && (forall v :: (exists i | 0 <= i < |s| :: s[i].name == v)
                        <==> v != Missing && Find(t.rows, INSTNM, v) < |t.rows|)
      && forall i | 0 <= i < |s| ::
           var g := Group(t.rows, INSTNM, s[i].name);
           && s[i].count == |g| >= 1
           && forall x :: x in g <==> x in t.rows && x[INSTNM] == s[i].name
  {
    var keys := GroupKeys(t.rows, INSTNM);
    var s := Schools(t, meanCols);
    GroupKeysExact(t.rows, INSTNM);
    forall v ensures (exists i | 0 <= i < |s| :: s[i].name == v)
                     <==> v != Missing && Find(t.rows, INSTNM, v) < |t.rows| {
      if v in keys {
        var i :| 0 <= i < |keys| && keys[i] == v;
        assert s[i].name == v;
      }
      if exists i | 0 <= i < |s| :: s[i].name == v {
        var i :| 0 <= i < |s| && s[i].name == v;
        assert keys[i] in keys;
      }
    }
    forall i | 0 <= i < |s|
      ensures var g := Group(t.rows, INSTNM, s[i].name);
        && s[i].count == |g| >= 1
        && forall x :: x in g <==> x in t.rows && x[INSTNM] == s[i].name
    {
      assert keys[i] in keys;
      GroupMembers(t.rows, keys[i]);
    }
  }

  /** A mask keeps distinct names distinct. */
  lemma {:induction false} KeepDistinct(s: seq<SchoolStat>, p: SchoolStat -> bool)
    requires DistinctNames(s)
    ensures DistinctNames(Keep(s, p))
  {
    if s != [] {
      var tl := s[1..];
      KeepDistinct(tl, p);
      var k := Keep(tl, p);
      KeepMembers(tl, p);
      if p(s[0]) {
        assert forall y | y in k :: y in tl;
        assert forall y | y in tl :: y.name != s[0].name by {
          forall y | y in tl ensures y.name != s[0].name {
            var j :| 0 <= j < |tl| && tl[j] == y;
            assert s[j + 1] == y;
          }
        }
        var r := [s[0]] + k;
        forall a, b | 0 <= a < b < |r| ensures r[a].name != r[b].name {
          assert r[b] == k[b - 1];
          if a > 0 {
            assert r[a] == k[a - 1];
          } else {
            assert r[b] in k;
          }
        }
      }
    }
  }

  /** The summary keeps exactly the entries with every aggregate present
      and at least five programmes, one per institution. */
  lemma SchoolSummaryExact(t: Table, meanCols: seq<Col>)
    requires Groupable(t, meanCols)
    ensures forall s :: s in SchoolSummary(t, meanCols) <==>
              s in Schools(t, meanCols) && AllPresent(s) && s.count >= 5
    ensures DistinctNames(SchoolSummary(t, meanCols))
  {
    var all := Schools(t, meanCols);
    var present := Keep(all, AllPresent);
    KeepMembers(all, AllPresent);
    KeepMembers(present, ManyPrograms);
    SchoolsExact(t, meanCols);
    KeepDistinct(all, AllPresent);
    KeepDistinct(present, ManyPrograms);
  }

  /** Every institution of the extended summary (ROI and earnings) is in
      the ROI-only summary, with the same mean ROI, share of women and
      count: averaging one more column can only drop institutions. */
  lemma ExtendedWithinBasic(t: Table)
    requires Groupable(t, [ROI_EARNINGS_TO_DEBT, EARN_MDN_5YR])
    ensures Groupable(t, [ROI_EARNINGS_TO_DEBT])
    ensures forall s | s in SchoolSummary(t, [ROI_EARNINGS_TO_DEBT, EARN_MDN_5YR]) ::
              SchoolStat(s.name, s.means[..1], s.women, s.count) in SchoolSummary(t, [ROI_EARNINGS_TO_DEBT])
  {
    var ext := Schools(t, [ROI_EARNINGS_TO_DEBT, EARN_MDN_5YR]);
    var basic := Schools(t, [ROI_EARNINGS_TO_DEBT]);
    SchoolSummaryExact(t, [ROI_EARNINGS_TO_DEBT, EARN_MDN_5YR]);
    SchoolSummaryExact(t, [ROI_EARNINGS_TO_DEBT]);
    forall s | s in SchoolSummary(t, [ROI_EARNINGS_TO_DEBT, EARN_MDN_5YR])
      ensures SchoolStat(s.name, s.means[..1], s.women, s.count) in SchoolSummary(t, [ROI_EARNINGS_TO_DEBT])
    {
      var i :| 0 <= i < |ext| && ext[i] == s;
      assert basic[i] == SchoolStat(s.name, s.means[..1], s.women, s.count);
      assert s.means[0] in s.means;
    }
  }

  /** The first present cell of a column is that of the first row where
      the column is present. */
  lemma FirstPresentRow(g: seq<Row>, c: Col)
    requires HasKey(g, c)
    ensures !FirstPresent(KeyColumn(g, c)).Missing? ==>
              exists i | 0 <= i < |g| :: g[i][c] == FirstPresent(KeyColumn(g, c))
                                         && forall j | 0 <= j < i :: g[j][c].Missing?
  {
    var ws := KeyColumn(g, c);
    var w := FirstPresent(ws);
    if !w.Missing? {
      var i :| 0 <= i < |ws| && ws[i] == w && forall j | 0 <= j < i :: ws[j].Missing?;
      assert g[i][c] == w;
      assert forall j | 0 <= j < i :: g[j][c] == ws[j];
    }
  }

  /** Each summarised institution's share of women is that of its first
      programme row where the share is present. */
  lemma SummaryWomenFirst(t: Table, meanCols: seq<Col>)
    requires Groupable(t, meanCols)
    ensures forall s | s in SchoolSummary(t, meanCols) ::
              var g := Group(t.rows, INSTNM, s.name);
              HasKey(g, UGDS_WOMEN) &&
              exists i | 0 <= i < |g| :: g[i][UGDS_WOMEN] == s.women && forall j | 0 <= j < i :: g[j][UGDS_WOMEN].Missing?
  {
    var all := Schools(t, meanCols);
    SchoolSummaryExact(t, meanCols);
    forall s | s in SchoolSummary(t, meanCols)
      ensures var g := Group(t.rows, INSTNM, s.name);
        HasKey(g, UGDS_WOMEN) &&
        exists i | 0 <= i < |g| :: g[i][UGDS_WOMEN] == s.women && forall j | 0 <= j < i :: g[j][UGDS_WOMEN].Missing?
    {
      var k :| 0 <= k < |all| && all[k] == s;
      var g := Group(t.rows, INSTNM, s.name);
      assert s.women == FirstPresent(KeyColumn(g, UGDS_WOMEN));
      FirstPresentRow(g, UGDS_WOMEN);
    }
  }

  /** The mean of a column over rows whose finite values lie in `[lo, hi]`
      lies there too. */
  lemma GroupMeanWithin(g: seq<Row>, c: Col, lo: real, hi: real)
    requires HasKey(g, c)
    requires forall x: Row | x in g && x[c].Num? :: lo <= x[c].x <= hi
    ensures Mean(KeyColumn(g, c)).Num? ==> lo <= Mean(KeyColumn(g, c)).x <= hi
  {
    var cs := KeyColumn(g, c);
    forall v | v in cs && v.Num? ensures lo <= v.x <= hi {
      var j :| 0 <= j < |cs| && cs[j] == v;
      assert g[j] in g;
    }
    MeanWithin(cs, lo, hi);
  }

  /** When every finite value of an averaged column lies in `[lo, hi]`,
      so does every finite mean of that column in the summary. */
  lemma SummaryMeansWithin(t: Table, meanCols: seq<Col>, k: nat, lo: real, hi: real)
    requires Groupable(t, meanCols) && k < |meanCols|
    requires forall x: Row | x in t.rows && x[meanCols[k]].Num? :: lo <= x[meanCols[k]].x <= hi
    ensures forall s | s in SchoolSummary(t, meanCols) ::
              |s.means| == |meanCols| && (s.means[k].Num? ==> lo <= s.means[k].x <= hi)
  {
    var all := Schools(t, meanCols);
    var c := meanCols[k];
    SchoolSummaryExact(t, meanCols);
    forall s | s in SchoolSummary(t, meanCols)
      ensures |s.means| == |meanCols| && (s.means[k].Num? ==> lo <= s.means[k].x <= hi)
    {
      var i :| 0 <= i < |all| && all[i] == s;
      var g := Group(t.rows, INSTNM, s.name);
      assert s.means[k] == Mean(KeyColumn(g, c));
      GroupMeanWithin(g, c, lo, hi);
    }
  }
}
