/** Column labels. The scripts address columns by fixed names; each name
    they use is a constructor here, spelled as in the scripts, and any other
    column of a loaded CSV file is `Named` with its header text. */
module Columns {

  datatype Col =
    // Field-of-study file, as selected by 01_preprocess.py
    | EARN_MDN_5YR
    | DEBT_ALL_STGP_ANY_MDN
    | DEBT_ALL_STGP_EVAL_MDN
    | DEBT_ALL_STGP_ANY_MDN10YRPAY
    | DEBT_ALL_STGP_EVAL_MDN10YRPAY
    | INSTNM
    | CIPCODE
    | CIPDESC
    | CREDLEV
    | CREDDESC
    | CONTROL
    | IPEDSCOUNT2
    // Derived by 01_preprocess.py
    | ROI_EARNINGS_TO_DEBT
    | DEBT_TO_INCOME_RATIO
    | PAYBACK_YEARS
    | MONTHLY_PAYMENT_PCT
    | CREDENTIAL_LEVEL_NAME
    | CIP_2DIGIT
    | MAJOR_FIELD
    | ROI_CATEGORY
    | AFFORDABILITY
    // Renamed or derived by 02_analysis.py
    | DEG_DEPT
    | PUBL_OR_PRIV
    | UNI_NAME
    | CLASS_SIZE
    | ROI_Numeric_Score
    // Institution file and join key, used by 03_fairness.py
    | OPEID6
    | TUITIONFEE_IN
    | UGDS_WOMEN
    // Any other column of a loaded file
    | Named(header: string)
}
