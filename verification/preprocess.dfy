/** Field-of-study preprocessing (Scripts/01_preprocess.py): select the
    twelve columns the analysis uses, coerce the six numeric ones, derive the
    four ROI ratios, keep the rows fit for analysis and add the categorical
    labels. */
module Preprocess {
  import opened Cells
  import opened Columns
  import opened Schema
  import opened Frames
  import opened DataFrames

  /** The columns every step reads are present and the nine columns the
      script adds are not (yet). */
  ghost predicate FosShape(t: Table) {
    WellFormed(t) && InputsPresent(t.columns) && RatiosAbsent(t.columns) && LabelsAbsent(t.columns)
  }

  lemma ColumnListsDistinct()
    ensures NoDup(FosColumns) && NoDup(NumericColumns)
  {
  }

  // ---------------------------------------------------------------------
  // Column selection and numeric coercion (lines 37-66)

  /** `df_raw[columns_to_keep]`. */
  function SelectFos(raw: Table): (r: Result<Table, KeyError>)
    requires WellFormed(raw)
    ensures r.Err? <==> exists c :: c in FosColumns && c !in raw.columns
    ensures r.Ok? ==> && WellFormed(r.value) && r.value.columns == FosColumns
                      && |r.value.rows| == |raw.rows|
                      && forall i, c | 0 <= i < |raw.rows| && c in FosColumns
                           :: r.value.rows[i][c] == raw.rows[i][c]
  {
    ColumnListsDistinct();
    Project(raw, FosColumns)
  }

  lemma SelectedShape(t: Table)
    requires WellFormed(t) && t.columns == FosColumns
    ensures FosShape(t)
  {
    FosColumnsShape();
  }

  /** `pd.to_numeric(cell, errors='coerce')` with the library's number
      grammar abstracted as `parse`: numbers and missing cells pass through,
      text is parsed, and text that does not parse becomes missing. */
  function ToNumeric(c: Cell, parse: string -> Option<real>): (r: Cell)
    ensures IsNumeric(r)
    ensures c.Text? ==> (r.Missing? <==> parse(c.s).None?)
    ensures c.Text? && parse(c.s).Some? ==> r == Num(parse(c.s).value)
    ensures !c.Text? ==> r == c
  {
    match c
    case Text(s) => (match parse(s) case Some(v) => Num(v) case None => Missing)
    case _ => c
  }

  function ToNumericColumn(t: Table, col: Col, parse: string -> Option<real>): (vs: seq<Cell>)
    requires WellFormed(t) && col in t.columns
    ensures |vs| == |t.rows|
  {
    seq(|t.rows|, i requires 0 <= i < |t.rows| => ToNumeric(t.rows[i][col], parse))
  }

  /** The table after the loop body has run for every column of `cols`,
      in order. */
  function CoerceColumns(t: Table, cols: seq<Col>, parse: string -> Option<real>): (r: Table)
    requires WellFormed(t) && forall c | c in cols :: c in t.columns
    ensures WellFormed(r) && r.columns == t.columns && |r.rows| == |t.rows|
    decreases |cols|
  {
    if cols == [] then t
    else
      var before := CoerceColumns(t, cols[..|cols| - 1], parse);
      var col := cols[|cols| - 1];
      WithColumn(before, col, ToNumericColumn(before, col, parse))
  }

  /** The coercion loop turns every cell of the listed columns into a
      number or Missing (text that does not parse is Missing, never an
      error) and leaves every other column untouched. */
  lemma {:induction false} CoerceColumnsExact(t: Table, cols: seq<Col>, parse: string -> Option<real>)
    requires WellFormed(t) && forall c | c in cols :: c in t.columns
    ensures var r := CoerceColumns(t, cols, parse);
      forall i, c | 0 <= i < |t.rows| && c in t.columns ::
        r.rows[i][c] == if c in cols then ToNumeric(t.rows[i][c], parse) else t.rows[i][c]
    decreases |cols|
  {
    if cols != [] {
      var init := cols[..|cols| - 1];
      var col := cols[|cols| - 1];
      CoerceColumnsExact(t, init, parse);
      var before := CoerceColumns(t, init, parse);
      var vals := ToNumericColumn(before, col, parse);
      var r := WithColumn(before, col, vals);
      assert r == CoerceColumns(t, cols, parse);
      forall i, c | 0 <= i < |t.rows| && c in t.columns
        ensures r.rows[i][c] == if c in cols then ToNumeric(t.rows[i][c], parse) else t.rows[i][c]
      {
        assert cols == init + [col];
        assert c in cols <==> c in init || c == col;
        WithColumnRow(before, col, vals, i);
      }
    }
  }

  /** One cell of the coerced table. */
  lemma CoercedCell(t: Table, cols: seq<Col>, parse: string -> Option<real>, i: nat, c: Col)
    requires WellFormed(t) && (forall c | c in cols :: c in t.columns) && i < |t.rows| && c in t.columns
    ensures CoerceColumns(t, cols, parse).rows[i][c] == if c in cols then ToNumeric(t.rows[i][c], parse) else t.rows[i][c]
  {
    CoerceColumnsExact(t, cols, parse);
  }

  /** Every cell of column `c` holds a number or Missing. */
  ghost predicate NumericCol(t: Table, c: Col) {
    && WellFormed(t) && c in t.columns
    && forall r | r in t.rows :: IsNumeric(r[c])
  }

  lemma CoercedIsNumeric(t: Table, cols: seq<Col>, parse: string -> Option<real>, c: Col)
    requires WellFormed(t) && (forall c | c in cols :: c in t.columns) && c in cols
    ensures NumericCol(CoerceColumns(t, cols, parse), c)
  {
    var r := CoerceColumns(t, cols, parse);
    CoerceColumnsExact(t, cols, parse);
    forall x | x in r.rows ensures IsNumeric(x[c]) {
      var i :| 0 <= i < |r.rows| && r.rows[i] == x;
      assert x[c] == ToNumeric(t.rows[i][c], parse);
    }
  }

  // ---------------------------------------------------------------------
  // ROI metrics (lines 81-86)

  /** The four ratios added to one row. `PAYBACK_YEARS` repeats the
      formula of `DEBT_TO_INCOME_RATIO`. */
  function RoiRow(r: Row): Row
    requires EARN_MDN_5YR in r && DEBT_ALL_STGP_ANY_MDN in r && DEBT_ALL_STGP_ANY_MDN10YRPAY in r
    requires IsNumeric(r[EARN_MDN_5YR]) && IsNumeric(r[DEBT_ALL_STGP_ANY_MDN]) && IsNumeric(r[DEBT_ALL_STGP_ANY_MDN10YRPAY])
  {
    var monthly := Div(r[EARN_MDN_5YR], Num(12.0));
    r[ROI_EARNINGS_TO_DEBT := Div(r[EARN_MDN_5YR], r[DEBT_ALL_STGP_ANY_MDN])]
     [DEBT_TO_INCOME_RATIO := Div(r[DEBT_ALL_STGP_ANY_MDN], r[EARN_MDN_5YR])]
     [PAYBACK_YEARS := Div(r[DEBT_ALL_STGP_ANY_MDN], r[EARN_MDN_5YR])]
     [MONTHLY_PAYMENT_PCT := Scale(Div(r[DEBT_ALL_STGP_ANY_MDN10YRPAY], monthly), 100.0)]
  }

  ghost predicate RoiInputs(t: Table) {
    NumericCol(t, EARN_MDN_5YR) && NumericCol(t, DEBT_ALL_STGP_ANY_MDN) && NumericCol(t, DEBT_ALL_STGP_ANY_MDN10YRPAY)
  }

  function Ratios(t: Table, num: Col, den: Col): (vs: seq<Cell>)
    requires NumericCol(t, num) && NumericCol(t, den)
    ensures |vs| == |t.rows|
  {
    seq(|t.rows|, i requires 0 <= i < |t.rows| =>
      assert t.rows[i] in t.rows; Div(t.rows[i][num], t.rows[i][den]))
  }

  function PaymentPct(t: Table): (vs: seq<Cell>)
    requires NumericCol(t, EARN_MDN_5YR) && NumericCol(t, DEBT_ALL_STGP_ANY_MDN10YRPAY)
    ensures |vs| == |t.rows|
  {
    seq(|t.rows|, i requires 0 <= i < |t.rows| =>
      assert t.rows[i] in t.rows;
      Scale(Div(t.rows[i][DEBT_ALL_STGP_ANY_MDN10YRPAY], Div(t.rows[i][EARN_MDN_5YR], Num(12.0))), 100.0))
  }

  /** The frame after the four column assignments of lines 82-86; each
      right-hand side reads only columns that none of them overwrites. */
  function AddRoiMetrics(t: Table): (r: Table)
    requires RoiInputs(t)
    ensures WellFormed(r) && |r.rows| == |t.rows|
  {
    var t1 := WithColumn(t, ROI_EARNINGS_TO_DEBT, Ratios(t, EARN_MDN_5YR, DEBT_ALL_STGP_ANY_MDN));
    var t2 := WithColumn(t1, DEBT_TO_INCOME_RATIO, Ratios(t, DEBT_ALL_STGP_ANY_MDN, EARN_MDN_5YR));
    var t3 := WithColumn(t2, PAYBACK_YEARS, Ratios(t, DEBT_ALL_STGP_ANY_MDN, EARN_MDN_5YR));
    WithColumn(t3, MONTHLY_PAYMENT_PCT, PaymentPct(t))
  }

  /** Each row gets its own four ratios: no value depends on another row. */
  lemma AddRoiMetricsRows(t: Table)
    requires RoiInputs(t)
    ensures forall i | 0 <= i < |t.rows| :: t.rows[i] in t.rows && AddRoiMetrics(t).rows[i] == RoiRow(t.rows[i])
  {
    forall i | 0 <= i < |t.rows| ensures t.rows[i] in t.rows && AddRoiMetrics(t).rows[i] == RoiRow(t.rows[i]) {
      assert t.rows[i] in t.rows;
    }
  }

  /** For finite non-zero earnings and debt the earnings-to-debt and
      debt-to-income ratios are exact reciprocals, and the payback years
      always equal the debt-to-income ratio. */
  lemma RoiReciprocal(r: Row, e: real, d: real)
    requires EARN_MDN_5YR in r && DEBT_ALL_STGP_ANY_MDN in r && DEBT_ALL_STGP_ANY_MDN10YRPAY in r && IsNumeric(r[DEBT_ALL_STGP_ANY_MDN10YRPAY])
    requires r[EARN_MDN_5YR] == Num(e) && r[DEBT_ALL_STGP_ANY_MDN] == Num(d) && e != 0.0 && d != 0.0
    ensures RoiRow(r)[ROI_EARNINGS_TO_DEBT] == Num(e / d) && RoiRow(r)[DEBT_TO_INCOME_RATIO] == Num(d / e)
    ensures RoiRow(r)[ROI_EARNINGS_TO_DEBT].x * RoiRow(r)[DEBT_TO_INCOME_RATIO].x == 1.0
  {
    assert (e / d) * (d / e) == 1.0;
  }

  lemma PaybackIsDebtToIncome(r: Row)
    requires EARN_MDN_5YR in r && DEBT_ALL_STGP_ANY_MDN in r && DEBT_ALL_STGP_ANY_MDN10YRPAY in r
    requires IsNumeric(r[EARN_MDN_5YR]) && IsNumeric(r[DEBT_ALL_STGP_ANY_MDN]) && IsNumeric(r[DEBT_ALL_STGP_ANY_MDN10YRPAY])
    ensures RoiRow(r)[PAYBACK_YEARS] == RoiRow(r)[DEBT_TO_INCOME_RATIO]
  {
  }

  /** A missing input makes every ratio built from it missing; for finite
      inputs the ROI is missing only for 0/0. A zero debt with positive
      earnings gives an infinite ROI, which `dropna` does not remove. */
  lemma RoiPresence(r: Row)
    requires EARN_MDN_5YR in r && DEBT_ALL_STGP_ANY_MDN in r && DEBT_ALL_STGP_ANY_MDN10YRPAY in r
    requires IsNumeric(r[EARN_MDN_5YR]) && IsNumeric(r[DEBT_ALL_STGP_ANY_MDN]) && IsNumeric(r[DEBT_ALL_STGP_ANY_MDN10YRPAY])
    ensures (r[EARN_MDN_5YR].Missing? || r[DEBT_ALL_STGP_ANY_MDN].Missing?) ==>
              RoiRow(r)[ROI_EARNINGS_TO_DEBT].Missing? && RoiRow(r)[DEBT_TO_INCOME_RATIO].Missing? && RoiRow(r)[PAYBACK_YEARS].Missing?
    ensures (r[EARN_MDN_5YR].Missing? || r[DEBT_ALL_STGP_ANY_MDN10YRPAY].Missing?) ==> RoiRow(r)[MONTHLY_PAYMENT_PCT].Missing?
    ensures r[EARN_MDN_5YR].Num? && r[DEBT_ALL_STGP_ANY_MDN].Num? ==>
              (RoiRow(r)[ROI_EARNINGS_TO_DEBT].Missing? <==> r[EARN_MDN_5YR].x == 0.0 && r[DEBT_ALL_STGP_ANY_MDN].x == 0.0)
    ensures r[DEBT_ALL_STGP_ANY_MDN] == Num(0.0) && r[EARN_MDN_5YR].Num? && r[EARN_MDN_5YR].x > 0.0 ==>
              RoiRow(r)[ROI_EARNINGS_TO_DEBT] == PosInf && RoiRow(r)[DEBT_TO_INCOME_RATIO] == Num(0.0)
  {
  }

  /** The monthly payment share is payment * 1200 / earnings. */
  lemma PaymentPctFormula(r: Row, e: real, p: real)
    requires EARN_MDN_5YR in r && DEBT_ALL_STGP_ANY_MDN in r && DEBT_ALL_STGP_ANY_MDN10YRPAY in r && IsNumeric(r[DEBT_ALL_STGP_ANY_MDN])
    requires r[EARN_MDN_5YR] == Num(e) && r[DEBT_ALL_STGP_ANY_MDN10YRPAY] == Num(p) && e != 0.0
    ensures RoiRow(r)[MONTHLY_PAYMENT_PCT] == Num(p * 1200.0 / e)
  {
    assert e / 12.0 != 0.0;
    calc {
      (p / (e / 12.0)) * 100.0;
    ==  { assert p / (e / 12.0) == p * 12.0 / e; }
      (p * 12.0 / e) * 100.0;
    ==
      p * 1200.0 / e;
    }
  }

  // ---------------------------------------------------------------------
  // Row filter (lines 98-100)

  /** `dropna(subset=['ROI_EARNINGS_TO_DEBT'])`: an infinite ROI stays. */
  predicate HasRoi(r: Row) {
    ROI_EARNINGS_TO_DEBT in r && !r[ROI_EARNINGS_TO_DEBT].Missing?
  }

  /** `IPEDSCOUNT2 >= 10`: a missing count fails. */
  predicate LargeEnough(r: Row) {
    IPEDSCOUNT2 in r && IsNumeric(r[IPEDSCOUNT2]) && AtLeast(r[IPEDSCOUNT2], 10.0)
  }

  /** `EARN_MDN_5YR.between(10000, 500000)`, both ends included. */
  predicate EarningsInRange(r: Row) {
    EARN_MDN_5YR in r && IsNumeric(r[EARN_MDN_5YR]) && Between(r[EARN_MDN_5YR], 10000.0, 500000.0)
  }

  predicate Admissible(r: Row) {
    HasRoi(r) && LargeEnough(r) && EarningsInRange(r)
  }

  function FilterRows(t: Table): (r: Table)
    requires WellFormed(t)
    ensures WellFormed(r) && r.columns == t.columns
  {
    Where(Where(Where(t, HasRoi), LargeEnough), EarningsInRange)
  }

  function AdmissibleAfterRoi(r: Row): bool {
    HasRoi(r) && LargeEnough(r)
  }

  /** The three filters keep exactly the admissible rows, in their order;
      running them again changes nothing, and so does running them in
      another order. */
  lemma FilterRowsExact(t: Table)
    requires WellFormed(t)
    ensures FilterRows(t).rows == Keep(t.rows, Admissible)
    ensures forall r :: r in FilterRows(t).rows <==> r in t.rows && Admissible(r)
    ensures SubseqOf(FilterRows(t).rows, t.rows)
    ensures FilterRows(FilterRows(t)) == FilterRows(t)
    ensures Where(Where(Where(t, EarningsInRange), LargeEnough), HasRoi) == FilterRows(t)
  {
    KeepBoth(t.rows, HasRoi, LargeEnough, AdmissibleAfterRoi);
    KeepBoth(t.rows, AdmissibleAfterRoi, EarningsInRange, Admissible);
    KeepMembers(t.rows, Admissible);
    KeepIdempotent(t.rows, Admissible);
    var both := (r: Row) => EarningsInRange(r) && LargeEnough(r);
    KeepBoth(t.rows, EarningsInRange, LargeEnough, both);
    KeepBoth(t.rows, both, HasRoi, Admissible);
    var once := FilterRows(t);
    KeepBoth(once.rows, HasRoi, LargeEnough, AdmissibleAfterRoi);
    KeepBoth(once.rows, AdmissibleAfterRoi, EarningsInRange, Admissible);
  }

  // ---------------------------------------------------------------------
  // Credential names (lines 110-120)

  const CredentialMap: map<int, string> := map[
    1 := "Undergraduate Certificate",
    2 := "Associate Degree",
    3 := "Bachelor Degree",
    4 := "Post-baccalaureate Certificate",
    5 := "Master Degree",
    6 := "Doctoral Degree",
    7 := "First Professional Degree",
    8 := "Graduate Certificate"
  ]

  /** `CREDLEV.map(credential_map)`: a numeric code equal to a key gets
      its name; anything else, text included, becomes missing. */
  function CredentialName(c: Cell): Cell {
    if c.Num? && IsWhole(c.x) && c.x.Floor in CredentialMap then Text(CredentialMap[c.x.Floor]) else Missing
  }

  /** Exactly the codes 1..8 are named, each with its own name. */
  lemma CredentialNameExact(c: Cell)
    ensures CredentialName(c).Text? <==> c.Num? && c.x in {1.0, 2.0, 3.0, 4.0, 5.0, 6.0, 7.0, 8.0}
    ensures CredentialName(c).Missing? <==> !CredentialName(c).Text?
    ensures forall a, b | a in CredentialMap && b in CredentialMap && a != b :: CredentialMap[a] != CredentialMap[b]
  {
    assert CredentialMap.Keys == {1, 2, 3, 4, 5, 6, 7, 8};
    if c.Num? && c.x in {1.0, 2.0, 3.0, 4.0, 5.0, 6.0, 7.0, 8.0} {
      assert IsWhole(c.x);
    }
  }

  // ---------------------------------------------------------------------
  // Major fields (lines 122-139)

  function DigitChar(d: int): char
    requires 0 <= d < 10
  {
    "0123456789"[d]
  }

  /** Decimal digits of `n`, without leading zeros. */
  function Digits(n: nat): (s: string)
    ensures |s| >= 1
    decreases n
  {
    if n < 10 then [DigitChar(n)] else Digits(n / 10) + [DigitChar(n % 10)]
  }

  /** `str(cell)` as pandas renders a CIPCODE cell, up to and including the
      decimal point of a fractional number (all a two-character prefix can
      see): a whole number is written as an integer column writes it. */
  function CodeText(c: Cell): string {
    match c
    case Missing => "nan"
    case PosInf => "inf"
    case NegInf => "-inf"
    case Text(s) => s
    case Num(x) =>
      (if x < 0.0 then "-" else "")
      + Digits(if x < 0.0 then -Trunc(x) else Trunc(x))
      + (if IsWhole(x) then "" else ".")
  }

  /** Python's `s[:2]`. */
  function Take2(s: string): (p: string)
    ensures |p| <= 2
  {
    if |s| <= 2 then s else s[..2]
  }

  /** `df['CIPCODE'].astype(str).str[:2]` as written: the first two
      characters of the unpadded decimal code. */
  function CipPrefixAsWritten(c: Cell): string {
    Take2(CodeText(c))
  }

  /** The two-digit CIP family of a code: CIP codes are four digits with
      leading zeros, so the family of the integer 402 (CIP 04.02) is "04".
      Cells that are not codes from 0 to 9999 fall back to the as-written
      rule. The labelling step below keeps the as-written rule; this is the
      rule it evidently intends. */
  function CipFamily(c: Cell): (p: string)
    ensures c.Num? && IsWhole(c.x) && 0.0 <= c.x < 10000.0 ==>
              |p| == 2 && p == [DigitChar(c.x.Floor / 1000), DigitChar(c.x.Floor / 100 % 10)]
  {
    if c.Num? && IsWhole(c.x) && 0.0 <= c.x < 10000.0 then
      var n := c.x.Floor;
      [DigitChar(n / 1000), DigitChar(n / 100 % 10)]
    else
      CipPrefixAsWritten(c)
  }

  const MajorMap: map<string, string> := map[
    "11" := "Computer Science",
    "14" := "Engineering",
    "15" := "Engineering Technology",
    "26" := "Biological Sciences",
    "27" := "Mathematics",
    "40" := "Physical Sciences",
    "52" := "Business",
    "51" := "Health Professions",
    "42" := "Psychology",
    "45" := "Social Sciences",
    "23" := "English Language",
    "24" := "Liberal Arts & Humanities",
    "50" := "Visual & Performing Arts",
    "13" := "Education"
  ]

  const OTHER := "Other"

  /** `CIP_2DIGIT.map(major_map).fillna('Other')`. */
  function MajorFieldOf(prefix: Cell): Cell {
    if prefix.Text? && prefix.s in MajorMap then Text(MajorMap[prefix.s]) else Text(OTHER)
  }

  /** The label is never missing; it is "Other" exactly when the prefix is
      not one of the fourteen listed families. */
  lemma MajorFieldExact(prefix: Cell)
    ensures MajorFieldOf(prefix).Text?
    ensures MajorFieldOf(prefix) == Text(OTHER) <==> !(prefix.Text? && prefix.s in MajorMap)
  {
    if prefix.Text? && prefix.s in MajorMap {
      assert MajorMap[prefix.s] != OTHER;
    }
  }

  lemma DigitsOfTwoDigits(n: nat)
    requires 10 <= n < 100
    ensures Digits(n) == [DigitChar(n / 10), DigitChar(n % 10)]
  {
  }

  /** For every four-digit code (1000 to 9999) the corrected family and
      the as-written prefix agree. */
  lemma {:induction false} CipFamilyAgreesOnFourDigits(c: Cell)
    requires c.Num? && IsWhole(c.x) && 1000.0 <= c.x < 10000.0
    ensures CipFamily(c) == CipPrefixAsWritten(c)
  {
    var n := c.x.Floor;
    assert Trunc(c.x) == n;
    assert Digits(n) == Digits(n / 10) + [DigitChar(n % 10)];
    assert Digits(n / 10) == Digits(n / 100) + [DigitChar(n / 10 % 10)];
    DigitsOfTwoDigits(n / 100);
    assert n / 100 / 10 == n / 1000;
    var text := CodeText(c);
    assert text == Digits(n / 100) + [DigitChar(n / 10 % 10)] + [DigitChar(n % 10)];
  }

  /** As written, a code of CIP family 04 read as the integer 402 gets the
      prefix "40" and the label of family 40, and so does every row of the
      labelling step with that code; its family is "04". */
  lemma CipPrefixFinding()
    ensures CipPrefixAsWritten(Num(402.0)) == "40"
    ensures MajorFieldOf(Text(CipPrefixAsWritten(Num(402.0)))) == Text("Physical Sciences")
    ensures forall r: Row | CREDLEV in r && CIPCODE in r && ROI_EARNINGS_TO_DEBT in r && MONTHLY_PAYMENT_PCT in r
                            && r[CIPCODE] == Num(402.0) ::
              LabelRow(r)[MAJOR_FIELD] == Text("Physical Sciences")
    ensures CipFamily(Num(402.0)) == "04"
    ensures MajorFieldOf(Text(CipFamily(Num(402.0)))) == Text(OTHER)
  {
    forall r: Row | CREDLEV in r && CIPCODE in r && ROI_EARNINGS_TO_DEBT in r && MONTHLY_PAYMENT_PCT in r
                    && r[CIPCODE] == Num(402.0)
      ensures LabelRow(r)[MAJOR_FIELD] == MajorFieldOf(Text(CipPrefixAsWritten(Num(402.0))))
    {
      LabelRowMajor(r);
    }
    assert IsWhole(402.0);
    assert Trunc(402.0) == 402;
    assert Digits(402) == Digits(40) + [DigitChar(2)];
    assert Digits(40) == "40";
    assert "04" !in MajorMap;
  }

  // ---------------------------------------------------------------------
  // Binning with `pd.cut(..., right=False)` (lines 141-147)

  /** Finite edges of half-open bins; the last bin is unbounded above. */
  predicate Increasing(edges: seq<real>) {
    forall i, j | 0 <= i < j < |edges| :: edges[i] < edges[j]
  }

  /** `x` lies in bin `i`: `[edges[i], edges[i + 1])`, or `[edges[i], inf)`
      for the last. */
  predicate InBin(edges: seq<real>, i: nat, x: real) {
    i < |edges| && edges[i] <= x && (i + 1 == |edges| || x < edges[i + 1])
  }

  /** The bin holding `x`, searched from the top. */
  function BinOf(edges: seq<real>, x: real): (b: Option<nat>)
    ensures b.Some? ==> b.value < |edges|
  {
    if edges == [] then None
    else if x >= edges[|edges| - 1] then Some(|edges| - 1)
    else BinOf(edges[..|edges| - 1], x)
  }

  /** The bins are disjoint and cover every value from the lowest edge up:
      a value gets bin `i` exactly when it lies in it, and no bin only
      below the lowest edge. */
  lemma {:induction false} BinOfExact(edges: seq<real>, x: real)
    requires Increasing(edges)
    ensures forall i: nat :: BinOf(edges, x) == Some(i) <==> InBin(edges, i, x)
    ensures BinOf(edges, x).None? <==> (edges == [] || x < edges[0])
    decreases |edges|
  {
    if edges != [] {
      var n := |edges|;
      var init := edges[..n - 1];
      if x < edges[n - 1] {
        BinOfExact(init, x);
        forall i: nat ensures BinOf(edges, x) == Some(i) <==> InBin(edges, i, x) {
          if i < n - 1 {
            assert edges[i] == init[i];
            assert InBin(edges, i, x) <==> InBin(init, i, x);
          }
        }
      }
    }
  }

  /** `pd.cut(cell, bins=edges + [inf], labels=labels, right=False)`:
      missing, negative-infinite, below-range and +inf values get no bin. */
  function Cut(edges: seq<real>, labels: seq<string>, c: Cell): Cell
    requires |labels| == |edges|
  {
    if !c.Num? then Missing
    else match BinOf(edges, c.x)
      case Some(i) => Text(labels[i])
      case None => Missing
  }

  const RoiEdges: seq<real> := [0.0, 1.0, 1.5, 2.5, 4.0]
  const RoiLabels: seq<string> := ["Poor (<1)", "Low (1-1.5)", "Average (1.5-2.5)", "Good (2.5-4)", "Excellent (>4)"]
  const AffordEdges: seq<real> := [0.0, 8.0, 12.0, 20.0]
  const AffordLabels: seq<string> := ["Very Affordable (<8%)", "Affordable (8-12%)", "Moderate (12-20%)", "Expensive (>20%)"]

  function RoiCategory(c: Cell): Cell {
    Cut(RoiEdges, RoiLabels, c)
  }

  function Affordability(c: Cell): Cell {
    Cut(AffordEdges, AffordLabels, c)
  }

  /** Every finite non-negative value gets exactly the label of the one bin
      holding it; negative, infinite and missing values get none. */
  lemma CategoriesExact(c: Cell)
    ensures forall i | 0 <= i < |RoiLabels| ::
              RoiCategory(c) == Text(RoiLabels[i]) <==> c.Num? && InBin(RoiEdges, i, c.x)
    ensures forall i | 0 <= i < |AffordLabels| ::
              Affordability(c) == Text(AffordLabels[i]) <==> c.Num? && InBin(AffordEdges, i, c.x)
    ensures RoiCategory(c).Missing? <==> !c.Num? || c.x < 0.0
    ensures Affordability(c).Missing? <==> !c.Num? || c.x < 0.0
  {
    assert Increasing(RoiEdges) && Increasing(AffordEdges);
    assert NoDup(RoiLabels) && NoDup(AffordLabels);
    if c.Num? {
      BinOfExact(RoiEdges, c.x);
      BinOfExact(AffordEdges, c.x);
    }
  }

  /** A value on an edge goes to the upper bin. */
  lemma BoundariesGoUp()
    ensures RoiCategory(Num(1.0)) == Text("Low (1-1.5)")
    ensures RoiCategory(Num(4.0)) == Text("Excellent (>4)")
    ensures Affordability(Num(8.0)) == Text("Affordable (8-12%)")
    ensures Affordability(Num(20.0)) == Text("Expensive (>20%)")
    ensures RoiCategory(PosInf) == Missing && RoiCategory(Num(-0.5)) == Missing
  {
    CategoriesExact(Num(1.0));
    CategoriesExact(Num(4.0));
    CategoriesExact(Num(8.0));
    CategoriesExact(Num(20.0));
    CategoriesExact(Num(-0.5));
    assert InBin(RoiEdges, 1, 1.0) && InBin(RoiEdges, 4, 4.0);
    assert InBin(AffordEdges, 1, 8.0) && InBin(AffordEdges, 3, 20.0);
  }

  // ---------------------------------------------------------------------
  // Labels (lines 108-147)

  ghost predicate LabelInputs(t: Table) {
    && NumericCol(t, ROI_EARNINGS_TO_DEBT) && NumericCol(t, MONTHLY_PAYMENT_PCT)
    && CREDLEV in t.columns && CIPCODE in t.columns
  }

  function Labels(t: Table, f: Row -> Cell, col: Col): (vs: seq<Cell>)
    requires WellFormed(t) && col in t.columns
    ensures |vs| == |t.rows|
  {
    seq(|t.rows|, i requires 0 <= i < |t.rows| => assert t.rows[i] in t.rows; f(t.rows[i]))
  }

  function CredentialOfRow(r: Row): Cell {
    if CREDLEV in r then CredentialName(r[CREDLEV]) else Missing
  }

  function FamilyOfRow(r: Row): Cell {
    if CIPCODE in r then Text(CipPrefixAsWritten(r[CIPCODE])) else Missing
  }

  function MajorOfRow(r: Row): Cell {
    if CIP_2DIGIT in r then MajorFieldOf(r[CIP_2DIGIT]) else Missing
  }

  function RoiCategoryOfRow(r: Row): Cell {
    if ROI_EARNINGS_TO_DEBT in r then RoiCategory(r[ROI_EARNINGS_TO_DEBT]) else Missing
  }

  function AffordabilityOfRow(r: Row): Cell {
    if MONTHLY_PAYMENT_PCT in r then Affordability(r[MONTHLY_PAYMENT_PCT]) else Missing
  }

  /** The five labels added to one row. */
  function LabelRow(r: Row): Row
    requires CREDLEV in r && CIPCODE in r && ROI_EARNINGS_TO_DEBT in r && MONTHLY_PAYMENT_PCT in r
  {
    var family := Text(CipPrefixAsWritten(r[CIPCODE]));
    r[CREDENTIAL_LEVEL_NAME := CredentialName(r[CREDLEV])]
     [CIP_2DIGIT := family]
     [MAJOR_FIELD := MajorFieldOf(family)]
     [ROI_CATEGORY := RoiCategory(r[ROI_EARNINGS_TO_DEBT])]
     [AFFORDABILITY := Affordability(r[MONTHLY_PAYMENT_PCT])]
  }

  lemma LabelRowMajor(r: Row)
    requires CREDLEV in r && CIPCODE in r && ROI_EARNINGS_TO_DEBT in r && MONTHLY_PAYMENT_PCT in r
    ensures LabelRow(r)[MAJOR_FIELD] == MajorFieldOf(Text(CipPrefixAsWritten(r[CIPCODE])))
  {
  }

  /** The frame after the five label assignments; MAJOR_FIELD is read from
      the CIP_2DIGIT column just written. */
  function AddLabels(t: Table): (r: Table)
    requires LabelInputs(t)
    ensures WellFormed(r) && |r.rows| == |t.rows|
  {
    var t1 := WithColumn(t, CREDENTIAL_LEVEL_NAME, Labels(t, CredentialOfRow, CREDLEV));
    var t2 := WithColumn(t1, CIP_2DIGIT, Labels(t1, FamilyOfRow, CIPCODE));
    var t3 := WithColumn(t2, MAJOR_FIELD, Labels(t2, MajorOfRow, CIP_2DIGIT));
    var t4 := WithColumn(t3, ROI_CATEGORY, Labels(t3, RoiCategoryOfRow, ROI_EARNINGS_TO_DEBT));
    WithColumn(t4, AFFORDABILITY, Labels(t4, AffordabilityOfRow, MONTHLY_PAYMENT_PCT))
  }

  lemma AddLabelsRows(t: Table)
    requires LabelInputs(t)
    ensures forall i | 0 <= i < |t.rows| :: t.rows[i] in t.rows && AddLabels(t).rows[i] == LabelRow(t.rows[i])
  {
    forall i | 0 <= i < |t.rows| ensures t.rows[i] in t.rows && AddLabels(t).rows[i] == LabelRow(t.rows[i]) {
      AddLabelsRow(t, i);
    }
  }

  lemma AddLabelsRow(t: Table, i: nat)
    requires LabelInputs(t) && i < |t.rows|
    ensures t.rows[i] in t.rows && AddLabels(t).rows[i] == LabelRow(t.rows[i])
  {
    var t1 := WithColumn(t, CREDENTIAL_LEVEL_NAME, Labels(t, CredentialOfRow, CREDLEV));
    var t2 := WithColumn(t1, CIP_2DIGIT, Labels(t1, FamilyOfRow, CIPCODE));
    var t3 := WithColumn(t2, MAJOR_FIELD, Labels(t2, MajorOfRow, CIP_2DIGIT));
    var t4 := WithColumn(t3, ROI_CATEGORY, Labels(t3, RoiCategoryOfRow, ROI_EARNINGS_TO_DEBT));
    assert t.rows[i] in t.rows;
    LabelStep(t, CREDENTIAL_LEVEL_NAME, CredentialOfRow, CREDLEV, i);
    LabelStep(t1, CIP_2DIGIT, FamilyOfRow, CIPCODE, i);
    LabelStep(t2, MAJOR_FIELD, MajorOfRow, CIP_2DIGIT, i);
    LabelStep(t3, ROI_CATEGORY, RoiCategoryOfRow, ROI_EARNINGS_TO_DEBT, i);
    LabelStep(t4, AFFORDABILITY, AffordabilityOfRow, MONTHLY_PAYMENT_PCT, i);
    LabelRowSteps(t.rows[i]);
  }

  /** One label assignment, seen from row `i`. */
  lemma LabelStep(t: Table, name: Col, f: Row -> Cell, src: Col, i: nat)
    requires WellFormed(t) && src in t.columns && i < |t.rows|
    ensures WithColumn(t, name, Labels(t, f, src)).rows[i] == t.rows[i][name := f(t.rows[i])]
  {
    WithColumnRow(t, name, Labels(t, f, src), i);
  }

  /** The five assignments in order, each reading the row as the previous
      ones left it, give `LabelRow`. */
  lemma LabelRowSteps(r: Row)
    requires CREDLEV in r && CIPCODE in r && ROI_EARNINGS_TO_DEBT in r && MONTHLY_PAYMENT_PCT in r
    ensures var r1 := r[CREDENTIAL_LEVEL_NAME := CredentialOfRow(r)];
      var r2 := r1[CIP_2DIGIT := FamilyOfRow(r1)];
      var r3 := r2[MAJOR_FIELD := MajorOfRow(r2)];
      var r4 := r3[ROI_CATEGORY := RoiCategoryOfRow(r3)];
      r4[AFFORDABILITY := AffordabilityOfRow(r4)] == LabelRow(r)
  {
  }

  // ---------------------------------------------------------------------
  // The whole script (lines 37-147)

  /** What the ratio step needs and leaves for the labelling step. */
  ghost predicate RatioReady(t: Table) {
    && RoiInputs(t) && RatiosAbsent(t.columns) && LabelsAbsent(t.columns)
    && CREDLEV in t.columns && CIPCODE in t.columns
  }

  lemma CoerceReady(sel: Table, parse: string -> Option<real>)
    requires FosShape(sel)
    ensures var t := CoerceColumns(sel, NumericColumns, parse);
      t.columns == sel.columns && RatioReady(t)
  {
    CoercedIsNumeric(sel, NumericColumns, parse, EARN_MDN_5YR);
    CoercedIsNumeric(sel, NumericColumns, parse, DEBT_ALL_STGP_ANY_MDN);
    CoercedIsNumeric(sel, NumericColumns, parse, DEBT_ALL_STGP_ANY_MDN10YRPAY);
  }

  /** The four ratios are appended on the right, in assignment order. */
  lemma RoiMetricsColumns(t: Table)
    requires RoiInputs(t) && RatiosAbsent(t.columns)
    ensures AddRoiMetrics(t).columns
            == t.columns + [ROI_EARNINGS_TO_DEBT] + [DEBT_TO_INCOME_RATIO] + [PAYBACK_YEARS] + [MONTHLY_PAYMENT_PCT]
  {
  }

  lemma RoiMetricsNumeric(t: Table)
    requires RoiInputs(t) && RatiosAbsent(t.columns)
    ensures NumericCol(AddRoiMetrics(t), ROI_EARNINGS_TO_DEBT) && NumericCol(AddRoiMetrics(t), MONTHLY_PAYMENT_PCT)
  {
    AddRoiMetricsRows(t);
    RoiMetricsColumns(t);
    var r := AddRoiMetrics(t);
    forall x | x in r.rows ensures IsNumeric(x[ROI_EARNINGS_TO_DEBT]) && IsNumeric(x[MONTHLY_PAYMENT_PCT]) {
      var i :| 0 <= i < |r.rows| && r.rows[i] == x;
      assert x == RoiRow(t.rows[i]);
    }
  }

  lemma RoiMetricsShape(t: Table)
    requires RatioReady(t)
    ensures LabelInputs(AddRoiMetrics(t)) && LabelsAbsent(AddRoiMetrics(t).columns)
    ensures AddRoiMetrics(t).columns
            == t.columns + [ROI_EARNINGS_TO_DEBT] + [DEBT_TO_INCOME_RATIO] + [PAYBACK_YEARS] + [MONTHLY_PAYMENT_PCT]
  {
    RoiMetricsColumns(t);
    RoiMetricsNumeric(t);
    RatioNamesAreNotLabels(t.columns);
  }

  lemma RatioNamesAreNotLabels(cols: seq<Col>)
    requires LabelsAbsent(cols) && CREDLEV in cols && CIPCODE in cols
    ensures var all := cols + [ROI_EARNINGS_TO_DEBT] + [DEBT_TO_INCOME_RATIO] + [PAYBACK_YEARS] + [MONTHLY_PAYMENT_PCT];
      LabelsAbsent(all) && CREDLEV in all && CIPCODE in all
  {
  }

  lemma FilterKeepsNumeric(t: Table, c: Col)
    requires NumericCol(t, c)
    ensures NumericCol(FilterRows(t), c)
  {
    FilterRowsExact(t);
  }

  /** The five labels are appended on the right, in assignment order. */
  lemma AddLabelsColumns(t: Table)
    requires LabelInputs(t) && LabelsAbsent(t.columns)
    ensures AddLabels(t).columns
            == t.columns + [CREDENTIAL_LEVEL_NAME] + [CIP_2DIGIT] + [MAJOR_FIELD] + [ROI_CATEGORY] + [AFFORDABILITY]
  {
  }

  /** The frame with its ratios, before the filter. */
  function WithRatios(sel: Table, parse: string -> Option<real>): (t: Table)
    requires FosShape(sel)
    ensures LabelInputs(t) && LabelsAbsent(t.columns)
    ensures t.columns == sel.columns + [ROI_EARNINGS_TO_DEBT] + [DEBT_TO_INCOME_RATIO] + [PAYBACK_YEARS] + [MONTHLY_PAYMENT_PCT]
  {
    var coerced := CoerceColumns(sel, NumericColumns, parse);
    CoerceReady(sel, parse);
    RoiMetricsShape(coerced);
    AddRoiMetrics(coerced)
  }

  /** The rows that reach the labelling step: the admissible rows of the
      frame with its ratios, in their original order. */
  function KeptRows(sel: Table, parse: string -> Option<real>): (k: Table)
    requires FosShape(sel)
    ensures LabelInputs(k) && LabelsAbsent(k.columns)
    ensures k.columns == WithRatios(sel, parse).columns
  {
    var roi := WithRatios(sel, parse);
    FilterKeepsNumeric(roi, ROI_EARNINGS_TO_DEBT);
    FilterKeepsNumeric(roi, MONTHLY_PAYMENT_PCT);
    FilterRows(roi)
  }

  /** The script's pipeline after the column selection: coerce, add the
      ratios, filter, label. */
  function ProcessFos(sel: Table, parse: string -> Option<real>): (r: Table)
    requires FosShape(sel)
    ensures WellFormed(r)
  {
    AddLabels(KeptRows(sel, parse))
  }

  /** The processed frame has the selected columns followed by the nine
      added ones; from the twelve selected columns that is
      `ProcessedColumns()`. */
  lemma ProcessFosColumns(sel: Table, parse: string -> Option<real>)
    requires FosShape(sel)
    ensures ProcessFos(sel, parse).columns
            == sel.columns + [ROI_EARNINGS_TO_DEBT] + [DEBT_TO_INCOME_RATIO] + [PAYBACK_YEARS] + [MONTHLY_PAYMENT_PCT]
               + [CREDENTIAL_LEVEL_NAME] + [CIP_2DIGIT] + [MAJOR_FIELD] + [ROI_CATEGORY] + [AFFORDABILITY]
    ensures sel.columns == FosColumns ==> ProcessFos(sel, parse).columns == ProcessedColumns()
  {
    AddLabelsColumns(KeptRows(sel, parse));
  }

  /** Every processed row is a kept row carrying the five labels computed
      from its own cells, in the same order; the kept rows are exactly the
      admissible rows with their ratios, in order, and never more than the
      input has. */
  lemma ProcessFosExact(sel: Table, parse: string -> Option<real>)
    requires FosShape(sel)
    ensures var kept := KeptRows(sel, parse).rows;
      && |ProcessFos(sel, parse).rows| == |kept| <= |sel.rows|
      && SubseqOf(kept, WithRatios(sel, parse).rows)
      && (forall x :: x in kept <==> x in WithRatios(sel, parse).rows && Admissible(x))
      && forall i | 0 <= i < |kept| :: kept[i] in kept && ProcessFos(sel, parse).rows[i] == LabelRow(kept[i])
  {
    var roi := WithRatios(sel, parse);
    FilterRowsExact(roi);
    AddLabelsRows(KeptRows(sel, parse));
  }

  lemma LabelRowAdmissible(k: Row)
    requires CREDLEV in k && CIPCODE in k && ROI_EARNINGS_TO_DEBT in k && MONTHLY_PAYMENT_PCT in k
    requires Admissible(k)
    ensures Admissible(LabelRow(k)) && MAJOR_FIELD in LabelRow(k) && LabelRow(k)[MAJOR_FIELD].Text?
    ensures ReadsUnpaddedPrefix(LabelRow(k))
  {
    MajorFieldExact(Text(CipPrefixAsWritten(k[CIPCODE])));
  }

  /** The row's family and major field are those of the first two
      characters of its code written without padding (line 122). */
  predicate ReadsUnpaddedPrefix(x: Row) {
    && CIPCODE in x && CIP_2DIGIT in x && MAJOR_FIELD in x
    && x[CIP_2DIGIT] == Text(Take2(CodeText(x[CIPCODE])))
    && x[MAJOR_FIELD] == MajorFieldOf(Text(Take2(CodeText(x[CIPCODE]))))
  }

  /** The labels do not touch the columns the filter reads, so labelling
      admissible rows leaves them admissible, and every row gets a major
      field. */
  lemma LabelsKeepAdmissible(k: Table)
    requires LabelInputs(k) && forall x | x in k.rows :: Admissible(x)
    ensures forall x: Row | x in AddLabels(k).rows ::
              Admissible(x) && MAJOR_FIELD in x && x[MAJOR_FIELD].Text? && ReadsUnpaddedPrefix(x)
  {
    var r := AddLabels(k);
    forall x: Row | x in r.rows ensures Admissible(x) && MAJOR_FIELD in x && x[MAJOR_FIELD].Text? && ReadsUnpaddedPrefix(x) {
      var i :| 0 <= i < |r.rows| && r.rows[i] == x;
      AddLabelsRow(k, i);
      LabelRowAdmissible(k.rows[i]);
    }
  }

  /** Every processed row passes the filter and carries a major field,
      the one its unpadded code prefix names. */
  lemma ProcessedRowsAdmissible(sel: Table, parse: string -> Option<real>)
    requires FosShape(sel)
    ensures forall x: Row | x in ProcessFos(sel, parse).rows ::
              Admissible(x) && MAJOR_FIELD in x && x[MAJOR_FIELD].Text? && ReadsUnpaddedPrefix(x)
  {
    FilterRowsExact(WithRatios(sel, parse));
    LabelsKeepAdmissible(KeptRows(sel, parse));
  }

  /** A worked row: earnings 40000 against debt 20000 is an ROI of 2
      ("Average"), half a year's earnings in debt, and a 200 monthly
      payment is 6% of monthly earnings ("Very Affordable"). */
  lemma WorkedRow(r: Row)
    requires EARN_MDN_5YR in r && DEBT_ALL_STGP_ANY_MDN in r && DEBT_ALL_STGP_ANY_MDN10YRPAY in r && IPEDSCOUNT2 in r && CREDLEV in r && CIPCODE in r
    requires r[EARN_MDN_5YR] == Num(40000.0) && r[DEBT_ALL_STGP_ANY_MDN] == Num(20000.0) && r[DEBT_ALL_STGP_ANY_MDN10YRPAY] == Num(200.0)
    requires r[IPEDSCOUNT2] == Num(15.0)
    ensures RoiRow(r)[ROI_EARNINGS_TO_DEBT] == Num(2.0) && RoiRow(r)[PAYBACK_YEARS] == Num(0.5)
    ensures RoiRow(r)[MONTHLY_PAYMENT_PCT] == Num(6.0)
    ensures Admissible(RoiRow(r))
    ensures LabelRow(RoiRow(r))[ROI_CATEGORY] == Text("Average (1.5-2.5)")
    ensures LabelRow(RoiRow(r))[AFFORDABILITY] == Text("Very Affordable (<8%)")
  {
    var q := RoiRow(r);
    assert q[ROI_EARNINGS_TO_DEBT] == Div(Num(40000.0), Num(20000.0)) == Num(2.0);
    assert q[PAYBACK_YEARS] == Div(Num(20000.0), Num(40000.0)) == Num(0.5);
    PaymentPctFormula(r, 40000.0, 200.0);
    assert Admissible(q);
    CategoriesExact(Num(2.0));
    CategoriesExact(Num(6.0));
    assert InBin(RoiEdges, 2, 2.0) && InBin(AffordEdges, 0, 6.0);
  }

  /** Part 4 of the script: the `to_numeric` loop over the six numeric
      columns, each written back into its own column. */
  method CoerceInPlace(df: DataFrame, parse: string -> Option<real>)
    requires df.Valid() && forall c | c in NumericColumns :: c in df.columns
    modifies df
    ensures df.Valid() && df.Value() == CoerceColumns(old(df.Value()), NumericColumns, parse)
  {
    ghost var start := df.Value();
    for k := 0 to |NumericColumns|
      invariant df.Valid() && df.Value() == CoerceColumns(start, NumericColumns[..k], parse)
    {
      var col := NumericColumns[k];
      df.Assign(col, ToNumericColumn(df.Value(), col, parse));
      assert NumericColumns[..k + 1][..k] == NumericColumns[..k];
    }
    assert NumericColumns[..|NumericColumns|] == NumericColumns;
  }

  /** Part 5: the four ratio columns, each computed from input columns none
      of the assignments overwrites. */
  method AddRoiMetricsInPlace(df: DataFrame)
    requires df.Valid() && RoiInputs(df.Value())
    modifies df
    ensures df.Valid() && df.Value() == AddRoiMetrics(old(df.Value()))
  {
    var t := df.Value();
    df.Assign(ROI_EARNINGS_TO_DEBT, Ratios(t, EARN_MDN_5YR, DEBT_ALL_STGP_ANY_MDN));
    df.Assign(DEBT_TO_INCOME_RATIO, Ratios(t, DEBT_ALL_STGP_ANY_MDN, EARN_MDN_5YR));
    df.Assign(PAYBACK_YEARS, Ratios(t, DEBT_ALL_STGP_ANY_MDN, EARN_MDN_5YR));
    df.Assign(MONTHLY_PAYMENT_PCT, PaymentPct(t));
  }

  /** Part 7: the five label columns; the major field is read from the
      family column just written. */
  method AddLabelsInPlace(df: DataFrame)
    requires df.Valid() && LabelInputs(df.Value())
    modifies df
    ensures df.Valid() && df.Value() == AddLabels(old(df.Value()))
  {
    df.Assign(CREDENTIAL_LEVEL_NAME, Labels(df.Value(), CredentialOfRow, CREDLEV));
    df.Assign(CIP_2DIGIT, Labels(df.Value(), FamilyOfRow, CIPCODE));
    df.Assign(MAJOR_FIELD, Labels(df.Value(), MajorOfRow, CIP_2DIGIT));
    df.Assign(ROI_CATEGORY, Labels(df.Value(), RoiCategoryOfRow, ROI_EARNINGS_TO_DEBT));
    df.Assign(AFFORDABILITY, Labels(df.Value(), AffordabilityOfRow, MONTHLY_PAYMENT_PCT));
  }

  /** 01_preprocess.py from the loaded frame to `df_final`: a `KeyError`
      when a selected column is missing, otherwise the frame built by the
      coercion loop and the column assignments, in place on copies. */
  method Preprocess(raw: Table, parse: string -> Option<real>) returns (r: Result<Table, KeyError>)
    requires WellFormed(raw)
    ensures r.Err? <==> exists c :: c in FosColumns && c !in raw.columns
    ensures r.Err? ==> r.error.absent == Absent(raw, FosColumns)
    ensures r.Ok? ==> && SelectFos(raw).Ok? && FosShape(SelectFos(raw).value)
                      && r.value == ProcessFos(SelectFos(raw).value, parse)
  {
    var selected := SelectFos(raw);
    if selected.Err? {
      return Err(selected.error);
    }
    var sel := selected.value;
    SelectedShape(sel);
    var df := new DataFrame(sel);
    CoerceInPlace(df, parse);
    CoerceReady(sel, parse);
    AddRoiMetricsInPlace(df);
    assert df.Value() == WithRatios(sel, parse);
    var fin := new DataFrame(FilterRows(df.Value()));
    AddLabelsInPlace(fin);
    return Ok(fin.Value());
  }
}
