/** The column lists the scripts work with, and what a column list must
    hold for each of their steps. */
module Schema {
  import opened Columns
  import opened Frames

  /** The columns kept for the ROI analysis, in this order. */
  const FosColumns: seq<Col> :=
    [EARN_MDN_5YR, DEBT_ALL_STGP_ANY_MDN, DEBT_ALL_STGP_EVAL_MDN, DEBT_ALL_STGP_ANY_MDN10YRPAY, DEBT_ALL_STGP_EVAL_MDN10YRPAY, INSTNM, CIPCODE, CIPDESC, CREDLEV, CREDDESC, CONTROL, IPEDSCOUNT2]

  const NumericColumns: seq<Col> := [EARN_MDN_5YR, DEBT_ALL_STGP_ANY_MDN, DEBT_ALL_STGP_EVAL_MDN, DEBT_ALL_STGP_ANY_MDN10YRPAY, DEBT_ALL_STGP_EVAL_MDN10YRPAY, IPEDSCOUNT2]

  /** The columns of the processed field-of-study table: the selected
      ones, then the four ratios, then the five labels, in the order the
      script assigns them. */
  function ProcessedColumns(): seq<Col> {
    FosColumns + [ROI_EARNINGS_TO_DEBT] + [DEBT_TO_INCOME_RATIO] + [PAYBACK_YEARS] + [MONTHLY_PAYMENT_PCT]
    + [CREDENTIAL_LEVEL_NAME] + [CIP_2DIGIT] + [MAJOR_FIELD] + [ROI_CATEGORY] + [AFFORDABILITY]
  }

  predicate InputsPresent(cols: seq<Col>) {
    && EARN_MDN_5YR in cols && DEBT_ALL_STGP_ANY_MDN in cols
    && DEBT_ALL_STGP_EVAL_MDN in cols && DEBT_ALL_STGP_ANY_MDN10YRPAY in cols
    && DEBT_ALL_STGP_EVAL_MDN10YRPAY in cols && IPEDSCOUNT2 in cols
    && CREDLEV in cols && CIPCODE in cols
  }

  predicate RatiosAbsent(cols: seq<Col>) {
    && ROI_EARNINGS_TO_DEBT !in cols && DEBT_TO_INCOME_RATIO !in cols
    && PAYBACK_YEARS !in cols && MONTHLY_PAYMENT_PCT !in cols
  }

  predicate LabelsAbsent(cols: seq<Col>) {
    && CREDENTIAL_LEVEL_NAME !in cols && CIP_2DIGIT !in cols && MAJOR_FIELD !in cols
    && ROI_CATEGORY !in cols && AFFORDABILITY !in cols
  }

  /** The twelve selected columns hold every input the script reads and
      none of the nine columns it adds. */
  lemma FosColumnsShape()
    ensures InputsPresent(FosColumns) && RatiosAbsent(FosColumns) && LabelsAbsent(FosColumns)
  {
    FosInputsPresent();
    FosRatiosAbsent();
    FosLabelsAbsent();
  }

  lemma FosInputsPresent()
    ensures InputsPresent(FosColumns)
  {
  }

  lemma FosRatiosAbsent()
    ensures RatiosAbsent(FosColumns)
  {
  }

  lemma FosLabelsAbsent()
    ensures LabelsAbsent(FosColumns)
  {
  }

  // ---------------------------------------------------------------------
  // 02_analysis.py

  /** The four renamed columns and their new names. */
  const RenameMap: map<Col, Col> :=
    map[CIPDESC := DEG_DEPT, CONTROL := PUBL_OR_PRIV, INSTNM := UNI_NAME, IPEDSCOUNT2 := CLASS_SIZE]

  /** None of the new names is already taken. */
  predicate RenameTargetsAbsent(cols: seq<Col>) {
    DEG_DEPT !in cols && PUBL_OR_PRIV !in cols && UNI_NAME !in cols && CLASS_SIZE !in cols
  }

  /** The columns dropped as redundant (absent ones are skipped). */
  const RedundantColumns: seq<Col> :=
    [DEBT_ALL_STGP_EVAL_MDN, DEBT_ALL_STGP_ANY_MDN10YRPAY, DEBT_ALL_STGP_EVAL_MDN10YRPAY, CIPCODE, CREDLEV, CIP_2DIGIT, AFFORDABILITY, CREDDESC]

  /** The candidate features of the multicollinearity check, in order. */
  const Features: seq<Col> :=
    [EARN_MDN_5YR, DEBT_ALL_STGP_ANY_MDN, CLASS_SIZE, ROI_EARNINGS_TO_DEBT, DEBT_TO_INCOME_RATIO, MONTHLY_PAYMENT_PCT, PAYBACK_YEARS]

  /** The descriptive columns kept beside the remaining features. */
  const Descriptors: seq<Col> :=
    [DEG_DEPT, UNI_NAME, PUBL_OR_PRIV, CREDENTIAL_LEVEL_NAME, MAJOR_FIELD, ROI_CATEGORY]

  /** Both lists have distinct names, no descriptor is a feature, and the
      major field is among the descriptors. */
  lemma FeatureListsShape()
    ensures NoDup(Features) && NoDup(Descriptors)
    ensures forall c | c in Descriptors :: c !in Features
    ensures MAJOR_FIELD in Descriptors
  {
    FeaturesDistinct();
    DescriptorsDistinct();
  }

  lemma FeaturesDistinct()
    ensures NoDup(Features)
  {
  }

  lemma DescriptorsDistinct()
    ensures NoDup(Descriptors)
  {
  }
}
