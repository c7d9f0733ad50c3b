/** 02_analysis.py: the processed field-of-study table is renamed and
    relabelled, stripped of redundant columns, reduced to features without
    strong multicollinearity plus six descriptive columns, scored by
    earnings over debt, and summarised per major field; the seven fields
    with the highest and the seven with the lowest median score are kept. */
module Analysis {
  import opened Cells
  import opened Columns
  import opened Schema
  import opened Frames
  import opened Preprocess
  import opened Multicollinearity
  import opened Ranking

  // ---------------------------------------------------------------------
  // Renaming and relabelling (lines 32-43)

  /** `rename(columns=RenameMap)` keeps distinct names distinct as long as
      none of the new names is already taken. */
  lemma RenameKeepsDistinct(cols: seq<Col>)
    requires NoDup(cols) && RenameTargetsAbsent(cols)
    ensures NoDup(RenamedColumns(RenameMap, cols))
  {
    var r := RenamedColumns(RenameMap, cols);
    forall i, j | 0 <= i < j < |r| ensures r[i] != r[j] {
      assert cols[i] in cols && cols[j] in cols;
    }
  }

  /** A column is present after renaming exactly when it was present
      under its old name. */
  lemma {:induction false} RenamedMembers(cols: seq<Col>, c: Col)
    ensures c in RenamedColumns(RenameMap, cols) <==> exists d | d in cols :: NewName(RenameMap, d) == c
  {
    var r := RenamedColumns(RenameMap, cols);
    if c in r {
      var k :| 0 <= k < |r| && r[k] == c;
      assert cols[k] in cols;
    }
    if exists d | d in cols :: NewName(RenameMap, d) == c {
      var d :| d in cols && NewName(RenameMap, d) == c;
      var k :| 0 <= k < |cols| && cols[k] == d;
      assert r[k] == c;
    }
  }

  /** The four renames and nothing else: each old name disappears, each
      new name appears exactly when its old name was there, and every
      other column is present afterwards exactly when it was before. */
  lemma RenameExact(t: Table)
    requires WellFormed(t) && RenameTargetsAbsent(t.columns)
    ensures NoDup(RenamedColumns(RenameMap, t.columns))
    ensures var r := Rename(t, RenameMap).columns;
      && CIPDESC !in r && CONTROL !in r && INSTNM !in r && IPEDSCOUNT2 !in r
      && (DEG_DEPT in r <==> CIPDESC in t.columns)
      && (PUBL_OR_PRIV in r <==> CONTROL in t.columns)
      && (UNI_NAME in r <==> INSTNM in t.columns)
      && (CLASS_SIZE in r <==> IPEDSCOUNT2 in t.columns)
      && forall c | c !in RenameMap && c !in RenameMap.Values :: c in r <==> c in t.columns
  {
    RenameKeepsDistinct(t.columns);
    RenamedNames(t.columns);
    RenamedOthers(t.columns);
  }

  lemma RenamedNames(cols: seq<Col>)
    requires RenameTargetsAbsent(cols)
    ensures var r := RenamedColumns(RenameMap, cols);
      && CIPDESC !in r && CONTROL !in r && INSTNM !in r && IPEDSCOUNT2 !in r
      && (DEG_DEPT in r <==> CIPDESC in cols)
      && (PUBL_OR_PRIV in r <==> CONTROL in cols)
      && (UNI_NAME in r <==> INSTNM in cols)
      && (CLASS_SIZE in r <==> IPEDSCOUNT2 in cols)
  {
    RenamedMembers(cols, CIPDESC);
    RenamedMembers(cols, CONTROL);
    RenamedMembers(cols, INSTNM);
    RenamedMembers(cols, IPEDSCOUNT2);
    RenamedMembers(cols, DEG_DEPT);
    RenamedMembers(cols, PUBL_OR_PRIV);
    RenamedMembers(cols, UNI_NAME);
    RenamedMembers(cols, CLASS_SIZE);
  }

  lemma RenamedOthers(cols: seq<Col>)
    ensures forall c | c !in RenameMap && c !in RenameMap.Values ::
              c in RenamedColumns(RenameMap, cols) <==> c in cols
  {
    forall c | c !in RenameMap && c !in RenameMap.Values
      ensures c in RenamedColumns(RenameMap, cols) <==> c in cols {
      RenamedMembers(cols, c);
    }
  }

  const NONPROFIT_RAW := "Private, nonprofit"
  const NONPROFIT := "Private non-profit"
  const FORPROFIT_RAW := "Private, for-profit"
  const FORPROFIT := "Private for-profit"

  /** `replace({...})` on one institution-type cell. */
  function ControlLabel(c: Cell): Cell {
    if c == Text(NONPROFIT_RAW) then Text(NONPROFIT)
    else if c == Text(FORPROFIT_RAW) then Text(FORPROFIT)
    else c
  }

  /** Only the two comma-spelled private types change, and relabelling
      twice is relabelling once. */
  lemma ControlLabelExact(c: Cell)
    ensures ControlLabel(c) != c <==> c == Text(NONPROFIT_RAW) || c == Text(FORPROFIT_RAW)
    ensures ControlLabel(ControlLabel(c)) == ControlLabel(c)
  {
  }

  /** `df["PUBL_OR_PRIV"] = df["PUBL_OR_PRIV"].replace({...})` */
  function Relabel(t: Table): (r: Table)
    requires WellFormed(t) && PUBL_OR_PRIV in t.columns
    ensures WellFormed(r) && r.columns == t.columns && |r.rows| == |t.rows|
  {
    WithColumn(t, PUBL_OR_PRIV, seq(|t.rows|, i requires 0 <= i < |t.rows| =>
      ControlLabel(t.rows[i][PUBL_OR_PRIV])))
  }

  /** Relabelling touches only the institution-type column, and there only
      the two comma-spelled values. */
  lemma RelabelExact(t: Table)
    requires WellFormed(t) && PUBL_OR_PRIV in t.columns
    ensures forall i, c | 0 <= i < |t.rows| && c in t.columns && c != PUBL_OR_PRIV ::
              Relabel(t).rows[i][c] == t.rows[i][c]
    ensures forall i | 0 <= i < |t.rows| ::
              var (before, after) := (t.rows[i][PUBL_OR_PRIV], Relabel(t).rows[i][PUBL_OR_PRIV]);
              (after != before <==> before == Text(NONPROFIT_RAW) || before == Text(FORPROFIT_RAW))
  {
    var vs := seq(|t.rows|, i requires 0 <= i < |t.rows| => ControlLabel(t.rows[i][PUBL_OR_PRIV]));
    WithColumnRows(t, PUBL_OR_PRIV, vs);
    forall i | 0 <= i < |t.rows| {
      ControlLabelExact(t.rows[i][PUBL_OR_PRIV]);
    }
  }

  /** Lines 32-68: rename, relabel, drop the redundant columns (absent ones
      are skipped). Relabelling reads `PUBL_OR_PRIV`, so an input without
      `CONTROL` raises a KeyError. */
  function CleanFields(t: Table): (r: Result<Table, KeyError>)
    requires WellFormed(t) && RenameTargetsAbsent(t.columns)
    ensures r.Ok? ==> WellFormed(r.value) && |r.value.rows| == |t.rows|
  {
    RenameKeepsDistinct(t.columns);
    var named := Rename(t, RenameMap);
    if PUBL_OR_PRIV !in named.columns then Err(KeyError([PUBL_OR_PRIV]))
    else Ok(DropColumns(Relabel(named), RedundantColumns))
  }

  /** The clean-up fails exactly when `CONTROL` is missing; otherwise the
      result has none of the redundant columns and, in the input's order,
      the renamed versions of all the others. */
  lemma CleanFieldsExact(t: Table)
    requires WellFormed(t) && RenameTargetsAbsent(t.columns)
    ensures CleanFields(t).Err? <==> CONTROL !in t.columns
    ensures CleanFields(t).Ok? ==>
              var r := CleanFields(t).value;
              && SubseqOf(r.columns, RenamedColumns(RenameMap, t.columns))
              && forall c :: c in r.columns <==> c in RenamedColumns(RenameMap, t.columns) && c !in RedundantColumns
  {
    RenameExact(t);
  }

  // ---------------------------------------------------------------------
  // The feature frame and the reduced frame (lines 78-117)

  /** `field_of_study[features].dropna()`: the seven features, rows with a
      missing feature removed; a missing feature column is a KeyError. */
  function VifInput(t: Table): (r: Result<Table, KeyError>)
    requires WellFormed(t)
    ensures r.Err? <==> exists c :: c in Features && c !in t.columns
    ensures r.Ok? ==> && WellFormed(r.value) && r.value.columns == Features
                      && |r.value.rows| <= |t.rows|
                      && forall x | x in r.value.rows :: Complete(x, Features)
  {
    FeatureListsShape();
    match Project(t, Features)
    case Err(e) => Err(e)
    case Ok(x) =>
      DropNaMembers(x, Features);
      Ok(DropNa(x, Features))
  }

  /** `field_of_study[remaining_features + [descriptors]]` */
  function ReducedFrame(t: Table, remaining: seq<Col>): (r: Result<Table, KeyError>)
    requires WellFormed(t) && NoDup(remaining)
    requires forall c | c in remaining :: c in Features
    ensures r.Err? <==> exists c :: c in remaining + Descriptors && c !in t.columns
    ensures r.Ok? ==> && WellFormed(r.value) && r.value.columns == remaining + Descriptors
                      && |r.value.rows| == |t.rows|
  {
    FeatureListsShape();
    NoDupJoin(remaining, Descriptors);
    Project(t, remaining + Descriptors)
  }

  /** Dividing a text cell raises a TypeError. */
  datatype ScoreError = NoScoreInput(absent: seq<Col>) | TextInScore(row: nat)

  function FirstText(t: Table): (i: nat)
    requires WellFormed(t) && EARN_MDN_5YR in t.columns && DEBT_ALL_STGP_ANY_MDN in t.columns
    ensures i <= |t.rows|
    ensures forall j | 0 <= j < i :: IsNumeric(t.rows[j][EARN_MDN_5YR]) && IsNumeric(t.rows[j][DEBT_ALL_STGP_ANY_MDN])
    ensures i < |t.rows| ==> !(IsNumeric(t.rows[i][EARN_MDN_5YR]) && IsNumeric(t.rows[i][DEBT_ALL_STGP_ANY_MDN]))
  {
    var s := seq(|t.rows|, j requires 0 <= j < |t.rows| =>
      IsNumeric(t.rows[j][EARN_MDN_5YR]) && IsNumeric(t.rows[j][DEBT_ALL_STGP_ANY_MDN]));
    assert forall j | 0 <= j < |t.rows| :: s[j] == (IsNumeric(t.rows[j][EARN_MDN_5YR]) && IsNumeric(t.rows[j][DEBT_ALL_STGP_ANY_MDN]));
    IndexOf(s, false)
  }

  /** `df["ROI_Numeric_Score"] = df["EARN_MDN_5YR"] / df["DEBT_ALL_STGP_ANY_MDN"]`:
      a KeyError when the multicollinearity check dropped either input. */
  function AddScore(t: Table): (r: Result<Table, ScoreError>)
    requires WellFormed(t)
  {
    var absent := Absent(t, [EARN_MDN_5YR, DEBT_ALL_STGP_ANY_MDN]);
    if absent != [] then Err(NoScoreInput(absent))
    else
      var bad := FirstText(t);
      if bad < |t.rows| then Err(TextInScore(bad))
      else Ok(WithColumn(t, ROI_Numeric_Score, seq(|t.rows|, i requires 0 <= i < |t.rows| =>
        Div(t.rows[i][EARN_MDN_5YR], t.rows[i][DEBT_ALL_STGP_ANY_MDN]))))
  }

  /** The score fails exactly when an input column is missing or holds
      text; otherwise each row gains the IEEE quotient of its earnings
      over its debt and keeps every other cell. */
  lemma AddScoreExact(t: Table)
    requires WellFormed(t)
    ensures AddScore(t).Err? <==>
              || EARN_MDN_5YR !in t.columns || DEBT_ALL_STGP_ANY_MDN !in t.columns
              || exists i | 0 <= i < |t.rows| :: t.rows[i][EARN_MDN_5YR].Text? || t.rows[i][DEBT_ALL_STGP_ANY_MDN].Text?
    ensures AddScore(t).Ok? ==>
              var r := AddScore(t).value;
              && WellFormed(r) && |r.rows| == |t.rows|
              && r.columns == (if ROI_Numeric_Score in t.columns then t.columns else t.columns + [ROI_Numeric_Score])
              && forall i | 0 <= i < |t.rows| ::
                   && IsNumeric(t.rows[i][EARN_MDN_5YR]) && IsNumeric(t.rows[i][DEBT_ALL_STGP_ANY_MDN])
                   && r.rows[i] == t.rows[i][ROI_Numeric_Score := Div(t.rows[i][EARN_MDN_5YR], t.rows[i][DEBT_ALL_STGP_ANY_MDN])]
  {
    var absent := Absent(t, [EARN_MDN_5YR, DEBT_ALL_STGP_ANY_MDN]);
    if absent == [] {
      var bad := FirstText(t);
      if bad == |t.rows| {
        var vs := seq(|t.rows|, i requires 0 <= i < |t.rows| =>
          Div(t.rows[i][EARN_MDN_5YR], t.rows[i][DEBT_ALL_STGP_ANY_MDN]));
        WithColumnRows(t, ROI_Numeric_Score, vs);
      }
    } else {
      assert absent[0] in absent;
    }
  }

  // ---------------------------------------------------------------------
  // Excluding "other" (lines 143-145)

  /** Python's `str.isspace` characters: ASCII tab to carriage return, the
      four ASCII separators, space, and the Unicode white space. */
  predicate IsSpace(ch: char) {
    var n := ch as int;
    || n == 0x20 || 0x09 <= n <= 0x0D || 0x1C <= n <= 0x1F || n == 0x85 || n == 0xA0
    || n == 0x1680 || 0x2000 <= n <= 0x200A || n == 0x2028 || n == 0x2029
    || n == 0x202F || n == 0x205F || n == 0x3000
  }

  /** The number of white-space characters `s` starts with. */
  function Leading(s: string): (n: nat)
    ensures n <= |s|
    ensures forall k | 0 <= k < n :: IsSpace(s[k])
    ensures n == |s| || !IsSpace(s[n])
  {
    if s != [] && IsSpace(s[0]) then
      var m := Leading(s[1..]);
      assert forall k | 1 <= k <= m :: s[k] == s[1..][k - 1];
      1 + m
    else 0
  }

  /** The number of white-space characters `s` ends with. */
  function Trailing(s: string): (n: nat)
    ensures n <= |s|
    ensures forall k | |s| - n <= k < |s| :: IsSpace(s[k])
    ensures n == |s| || !IsSpace(s[|s| - n - 1])
  {
    if s != [] && IsSpace(s[|s| - 1]) then
      var m := Trailing(s[..|s| - 1]);
      assert forall k | |s| - 1 - m <= k < |s| - 1 :: s[k] == s[..|s| - 1][k];
      1 + m
    else 0
  }

  /** `str.strip()`: `lstrip()` then `rstrip()`. */
  function Strip(s: string): (r: string)
    ensures r == [] || (!IsSpace(r[0]) && !IsSpace(r[|r| - 1]))
  {
    var a := s[Leading(s)..];
    a[..|a| - Trailing(a)]
  }

  /** `r` is the slice of `s` after its first `i` characters, and every
      character of `s` outside that slice is white space. */
  ghost predicate SpacedSlice(s: string, r: string, i: nat) {
    && i + |r| <= |s| && r == s[i..i + |r|]
    && (forall k | 0 <= k < i :: IsSpace(s[k]))
    && (forall k | i + |r| <= k < |s| :: IsSpace(s[k]))
  }

  /** Stripping removes white space from both ends and nothing else: the
      result is the slice of `s` after its leading white space, and
      (by `Strip`'s own contract) it neither starts nor ends with any. */
  lemma StripExact(s: string)
    ensures SpacedSlice(s, Strip(s), Leading(s))
  {
    SliceOfSuffix(s, s[Leading(s)..], Strip(s), Leading(s));
  }

  /** A prefix `r` of the suffix `a` of `s` from `i` is a spaced slice when
      both cut-off parts are white space. */
  lemma SliceOfSuffix(s: string, a: string, r: string, i: nat)
    requires i <= |s| && a == s[i..] && |r| <= |a| && r == a[..|r|]
    requires forall k | 0 <= k < i :: IsSpace(s[k])
    requires forall k | |r| <= k < |a| :: IsSpace(a[k])
    ensures SpacedSlice(s, r, i)
  {
    forall k | i + |r| <= k < |s| ensures IsSpace(s[k]) {
      assert s[k] == a[k - i];
    }
  }

  /** `str.lower()` on ASCII letters. */
  function LowerChar(ch: char): char {
    if 'A' <= ch <= 'Z' then (ch as int + 32) as char else ch
  }

  function Lower(s: string): (r: string)
    ensures |r| == |s|
  {
    seq(|s|, i requires 0 <= i < |s| => LowerChar(s[i]))
  }

  /** `MAJOR_FIELD.str.strip().str.lower() == "other"`; a missing or
      non-text cell gives NaN, which differs from "other". */
  predicate IsOther(c: Cell) {
    c.Text? && Lower(Strip(c.s)) == "other"
  }

  /** The default label is "other". */
  lemma OtherIsOther()
    ensures IsOther(Text(OTHER))
  {
    StripUnspaced(OTHER);
    var l := Lower(OTHER);
    assert l[0] == 'o' && l[1] == 't' && l[2] == 'h' && l[3] == 'e' && l[4] == 'r';
  }

  /** Spacing and case do not matter. */
  lemma SpacedCapitalsAreOther()
    ensures IsOther(Text(" OTHER\t"))
  {
    var s := " OTHER\t";
    assert Leading(s[1..]) == 0;
    assert Leading(s) == 1;
    var a := s[1..];
    assert Trailing(a[..|a| - 1]) == 0;
    assert Trailing(a) == 1;
    assert Strip(s) == "OTHER";
    var l := Lower("OTHER");
    assert l[0] == 'o' && l[1] == 't' && l[2] == 'h' && l[3] == 'e' && l[4] == 'r';
  }

  /** A string without white space at either end is its own strip. */
  lemma StripUnspaced(s: string)
    requires s != [] && !IsSpace(s[0]) && !IsSpace(s[|s| - 1])
    ensures Strip(s) == s
  {
    assert Leading(s) == 0 && Trailing(s) == 0;
  }

  /** The exclusion removes exactly the rows that 01_preprocess.py
      labelled "Other": every other major-field label survives it. */
  lemma OtherMeansDefault(prefix: Cell)
    ensures IsOther(MajorFieldOf(prefix)) <==> MajorFieldOf(prefix) == Text(OTHER)
  {
    var m := MajorFieldOf(prefix);
    MajorFieldExact(prefix);
    if m == Text(OTHER) {
      OtherIsOther();
    } else {
      LabelsNotOther(m.s);
    }
  }

  /** No major-field label but "Other" is "other" after stripping and
      lower-casing: each has no surrounding white space, and its length
      is not five. */
  lemma LabelsNotOther(field: string)
    requires field in MajorMap.Values
    ensures Lower(Strip(field)) != "other"
  {
    assert field[0] != ' ' && field[|field| - 1] != ' ' && |field| != 5;
    StripUnspaced(field);
  }

  function NotOther(r: Row): bool {
    !(MAJOR_FIELD in r && IsOther(r[MAJOR_FIELD]))
  }

  // ---------------------------------------------------------------------
  // Per-major summary and the top and bottom seven (lines 147-155)

  /** The score cells of a group, for the median. */
  function Scores(g: seq<Row>): (vs: seq<Cell>)
    requires HasKey(g, ROI_Numeric_Score)
    ensures |vs| == |g|
  {
    KeyColumn(g, ROI_Numeric_Score)
  }

  /** One output row of `groupby("MAJOR_FIELD").agg(ROI=median, n=size)`;
      the median is an oracle over the group's score cells. */
  function Summary(rows: seq<Row>, v: Cell, median: seq<Cell> -> Cell): MajorStat
    requires HasKey(rows, MAJOR_FIELD) && HasKey(rows, ROI_Numeric_Score)
  {
    var g := Group(rows, MAJOR_FIELD, v);
    MajorStat(v, median(Scores(g)), |g|)
  }

  /** The per-major summary: one entry per distinct non-missing field. */
  function Aggregate(rows: seq<Row>, median: seq<Cell> -> Cell): (stats: seq<MajorStat>)
    requires HasKey(rows, MAJOR_FIELD) && HasKey(rows, ROI_Numeric_Score)
    ensures |stats| == |GroupKeys(rows, MAJOR_FIELD)|
  {
    var keys := GroupKeys(rows, MAJOR_FIELD);
    seq(|keys|, i requires 0 <= i < |keys| => Summary(rows, keys[i], median))
  }

  /** Every field that some row has appears exactly once, nothing else
      appears, and each entry counts the rows of its field (at least one)
      and takes the median of their scores. */
  lemma AggregateExact(rows: seq<Row>, median: seq<Cell> -> Cell)
    requires HasKey(rows, MAJOR_FIELD) && HasKey(rows, ROI_Numeric_Score)
    ensures var stats := Aggregate(rows, median);
      && DistinctFields(stats)
      && (forall v :: (exists i | 0 <= i < |stats| :: stats[i].field == v)
                        <==> v != Missing && Find(rows, MAJOR_FIELD, v) < |rows|)
      && forall i | 0 <= i < |stats| ::
           var g := Group(rows, MAJOR_FIELD, stats[i].field);
           && stats[i].n == |g| >= 1
           && (forall x :: x in g <==> x in rows && x[MAJOR_FIELD] == stats[i].field)
           && stats[i].roi == median(Scores(g))
  {
    var keys := GroupKeys(rows, MAJOR_FIELD);
    var stats := Aggregate(rows, median);
    GroupKeysExact(rows, MAJOR_FIELD);
    forall v ensures (exists i | 0 <= i < |stats| :: stats[i].field == v)
                     <==> v != Missing && Find(rows, MAJOR_FIELD, v) < |rows| {
      if v in keys {
        var i :| 0 <= i < |keys| && keys[i] == v;
        assert stats[i].field == v;
      }
    }
    forall i | 0 <= i < |stats| ensures |Group(rows, MAJOR_FIELD, stats[i].field)| >= 1
    ensures forall x :: x in Group(rows, MAJOR_FIELD, stats[i].field) <==> x in rows && x[MAJOR_FIELD] == stats[i].field {
      var v := keys[i];
      assert v in keys;
      KeepMembers(rows, KeyIs(MAJOR_FIELD, v));
      var f := Find(rows, MAJOR_FIELD, v);
      assert rows[f] in Group(rows, MAJOR_FIELD, v);
    }
  }

  predicate LargeGroup(m: MajorStat) {
    m.n >= 20
  }

  const TopCount := 7

  /** The rows that enter the summary: not "other", with a score. */
  function ScoredRows(t: Table): (rows: seq<Row>)
    requires WellFormed(t) && MAJOR_FIELD in t.columns && ROI_Numeric_Score in t.columns
    ensures HasKey(rows, MAJOR_FIELD) && HasKey(rows, ROI_Numeric_Score)
  {
    DropNa(Where(t, NotOther), [ROI_Numeric_Score]).rows
  }

  /** `agg[agg["n"] >= 20]` */
  function MajorStats(t: Table, median: seq<Cell> -> Cell): seq<MajorStat>
    requires WellFormed(t) && MAJOR_FIELD in t.columns && ROI_Numeric_Score in t.columns
  {
    Keep(Aggregate(ScoredRows(t), median), LargeGroup)
  }

  /** The scored rows are exactly the rows of `t` whose field is not
      "other" and whose score is present, in their order and each as often
      as it occurs, so a field's group counts its rows of `t`. */
  lemma ScoredRowsExact(t: Table)
    requires WellFormed(t) && MAJOR_FIELD in t.columns && ROI_Numeric_Score in t.columns
    ensures forall x: Row :: x in ScoredRows(t) <==>
              x in t.rows && !IsOther(x[MAJOR_FIELD]) && !x[ROI_Numeric_Score].Missing?
    ensures forall x: Row :: multiset(ScoredRows(t))[x] ==
              if x in t.rows && !IsOther(x[MAJOR_FIELD]) && !x[ROI_Numeric_Score].Missing?
              then multiset(t.rows)[x] else 0
    ensures SubseqOf(ScoredRows(t), t.rows)
  {
    var w := Where(t, NotOther);
    KeepExact(t.rows, NotOther);
    DropNaExact(w, [ROI_Numeric_Score]);
    SubseqTrans(ScoredRows(t), w.rows, t.rows);
    forall x: Row ensures multiset(ScoredRows(t))[x] ==
              if x in t.rows && !IsOther(x[MAJOR_FIELD]) && !x[ROI_Numeric_Score].Missing?
              then multiset(t.rows)[x] else 0
    {
      ScoredCount(x, t.rows, w.rows, ScoredRows(t));
    }
  }

  /** One row's count through the two filters. */
  lemma ScoredCount(x: Row, s: seq<Row>, w: seq<Row>, d: seq<Row>)
    requires forall r | r in s :: MAJOR_FIELD in r && ROI_Numeric_Score in r
    requires multiset(w)[x] == if NotOther(x) then multiset(s)[x] else 0
    requires multiset(d)[x] == if Complete(x, [ROI_Numeric_Score]) then multiset(w)[x] else 0
    ensures multiset(d)[x] ==
              if x in s && !IsOther(x[MAJOR_FIELD]) && !x[ROI_Numeric_Score].Missing?
              then multiset(s)[x] else 0
  {
    if x !in s {
      assert multiset(s)[x] == 0;
    } else {
      assert ROI_Numeric_Score in [ROI_Numeric_Score];
    }
  }

  /** The summary keeps the large groups of distinct fields, none of them
      "other" or missing, each counting at least twenty scored rows. */
  lemma MajorStatsExact(t: Table, median: seq<Cell> -> Cell)
    requires WellFormed(t) && MAJOR_FIELD in t.columns && ROI_Numeric_Score in t.columns
    ensures DistinctFields(MajorStats(t, median))
    ensures forall m | m in MajorStats(t, median) ::
              && m.n >= 20 && m.field != Missing && !IsOther(m.field)
              && m.n == |Group(ScoredRows(t), MAJOR_FIELD, m.field)|
  {
    var rows := ScoredRows(t);
    var all := Aggregate(rows, median);
    var kept := MajorStats(t, median);
    AggregateExact(rows, median);
    KeepMembers(all, LargeGroup);
    forall m | m in kept ensures m.field != Missing && !IsOther(m.field) {
      var i :| 0 <= i < |all| && all[i] == m;
      var f := Find(rows, MAJOR_FIELD, m.field);
      ScoredNotOther(t, rows[f]);
    }
    DistinctKept(all);
  }

  lemma ScoredNotOther(t: Table, x: Row)
    requires WellFormed(t) && MAJOR_FIELD in t.columns && ROI_Numeric_Score in t.columns
    requires x in ScoredRows(t)
    ensures MAJOR_FIELD in x && !IsOther(x[MAJOR_FIELD])
  {
    ScoredRowsExact(t);
  }

  lemma {:induction false} DistinctKept(s: seq<MajorStat>)
    requires DistinctFields(s)
    ensures DistinctFields(Keep(s, LargeGroup))
  {
    if s != [] {
      var tl := s[1..];
      assert DistinctFields(tl) by {
        forall i, j | 0 <= i < j < |tl| ensures tl[i].field != tl[j].field {
          assert tl[i] == s[i + 1] && tl[j] == s[j + 1];
        }
      }
      DistinctKept(tl);
      var k := Keep(tl, LargeGroup);
      if LargeGroup(s[0]) {
        forall y | y in k ensures y.field != s[0].field {
          var j :| 0 <= j < |tl| && tl[j] == y;
          assert y == s[j + 1];
        }
        ConsDistinct(s[0], k);
      }
    }
  }

  /** `agg.nlargest(7, "ROI")` and `agg.nsmallest(7, "ROI")` */
  datatype TopBottom = TopBottom(top: seq<MajorStat>, bottom: seq<MajorStat>)

  function TopAndBottom(t: Table, median: seq<Cell> -> Cell): TopBottom
    requires WellFormed(t) && MAJOR_FIELD in t.columns && ROI_Numeric_Score in t.columns
  {
    var stats := MajorStats(t, median);
    TopBottom(TakeBest(stats, TopCount, true), TakeBest(stats, TopCount, false))
  }

  /** Each list holds at most seven distinct large, non-"other" fields
      with a ranked median, best first, and no field left out of a list
      has a better median than one in it. */
  lemma TopAndBottomSound(t: Table, median: seq<Cell> -> Cell, largest: bool)
    requires WellFormed(t) && MAJOR_FIELD in t.columns && ROI_Numeric_Score in t.columns
    ensures var stats := MajorStats(t, median);
      var sel := if largest then TopAndBottom(t, median).top else TopAndBottom(t, median).bottom;
      && |sel| <= TopCount
      && DistinctFields(sel)
      && (forall m | m in sel :: m in stats && m.n >= 20 && !IsOther(m.field) && Ranked(m.roi))
      && (forall i, j | 0 <= i < j < |sel| :: !Beats(sel[j].roi, sel[i].roi, largest))
      && (forall y, m | y in stats && Ranked(y.roi) && y !in sel && m in sel :: !Beats(y.roi, m.roi, largest))
  {
    var stats := MajorStats(t, median);
    MajorStatsExact(t, median);
    TakeBestDrawn(stats, TopCount, largest);
    TakeBestDistinct(stats, TopCount, largest);
    TakeBestOrdered(stats, TopCount, largest);
    TakeBestMaximal(stats, TopCount, largest);
  }

  // ---------------------------------------------------------------------
  // The whole script

  datatype AnalysisError =
    | MissingColumns(absent: seq<Col>)
    | NoFeatures
    | TextInput(row: nat)

  /** 02_analysis.py from the processed table to the two lists, with the
      variance-inflation factors and the medians as oracles and the
      threshold 10. When it gets that far, each list holds at most seven
      distinct fields, each with at least twenty programmes and none of
      them "other". */
  function Analyze(fos: Table, vif: (Table, nat) -> Vif, median: seq<Cell> -> Cell): (r: Result<TopBottom, AnalysisError>)
    requires WellFormed(fos) && RenameTargetsAbsent(fos.columns)
    ensures r.Ok? ==>
              && |r.value.top| <= TopCount && |r.value.bottom| <= TopCount
              && DistinctFields(r.value.top) && DistinctFields(r.value.bottom)
              && (forall m | m in r.value.top :: m.n >= 20 && !IsOther(m.field))
              && (forall m | m in r.value.bottom :: m.n >= 20 && !IsOther(m.field))
  {
    match CleanFields(fos)
    case Err(e) => Err(MissingColumns(e.absent))
    case Ok(clean) =>
      match VifInput(clean)
      case Err(e) => Err(MissingColumns(e.absent))
      case Ok(x) =>
        match Reduce(x, vif, 10.0)
        case Err(_) => Err(NoFeatures)
        case Ok(kept) =>
          ReduceKeepsRows(x, vif, 10.0);
          match ReducedFrame(clean, kept.columns)
          case Err(e) => Err(MissingColumns(e.absent))
          case Ok(reduced) =>
            match AddScore(reduced)
            case Err(NoScoreInput(absent)) => Err(MissingColumns(absent))
            case Err(TextInScore(i)) => Err(TextInput(i))
            case Ok(scored) =>
              FeatureListsShape();
              AddScoreExact(reduced);
              TopAndBottomSound(scored, median, true);
              TopAndBottomSound(scored, median, false);
              Ok(TopAndBottom(scored, median))
  }
}
