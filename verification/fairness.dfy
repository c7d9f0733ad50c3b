/** The joins and row filters of 03_fairness.py: the institution-name to
    OPEID6 map, the merge that gives every programme its institution id,
    the cleaned institution table with one row per id, the merge that adds
    tuition and the share of women, and the subsets the plots draw. */
module Fairness {
  import opened Cells
  import opened Columns
  import opened Schema
  import opened Frames
  import opened DataFrames
  import opened Preprocess

  /** The processed field-of-study table as the script loads it: it names
      the institution and holds none of the columns the merges add. */
  predicate JoinReady(cols: seq<Col>) {
    && INSTNM in cols
    && OPEID6 !in cols && TUITIONFEE_IN !in cols && UGDS_WOMEN !in cols
  }

  ghost predicate FosReady(fos: Table) {
    WellFormed(fos) && JoinReady(fos.columns)
  }

  /** The columns 01_preprocess.py writes are ready for the merges and
      include every column the plots read. */
  lemma ProcessedIsReady()
    ensures JoinReady(ProcessedColumns())
    ensures ROI_EARNINGS_TO_DEBT in ProcessedColumns() && EARN_MDN_5YR in ProcessedColumns()
    ensures CONTROL in ProcessedColumns()
  {
    AddedNotProcessed(OPEID6);
    AddedNotProcessed(TUITIONFEE_IN);
    AddedNotProcessed(UGDS_WOMEN);
  }

  lemma AddedNotProcessed(c: Col)
    requires c == OPEID6 || c == TUITIONFEE_IN || c == UGDS_WOMEN
    ensures c !in ProcessedColumns()
  {
  }

  // ---------------------------------------------------------------------
  // The name-to-id map (lines 43-44)

  const IdColumns: seq<Col> := [INSTNM, OPEID6]

  /** `read_csv(usecols=["INSTNM", "OPEID6"])`, then
      `drop_duplicates(subset=["INSTNM"])` keeping the first row of each
      name, then `dropna()` over both columns. */
  function IdMap(rawFos: Table): (r: Result<Table, KeyError>)
    requires WellFormed(rawFos)
    ensures r.Err? <==> INSTNM !in rawFos.columns || OPEID6 !in rawFos.columns
    ensures r.Ok? ==> IdTable(r.value)
  {
    assert NoDup(IdColumns);
    match Project(rawFos, IdColumns)
    case Err(e) => Err(e)
    case Ok(p) =>
      var d := DropDuplicates(p, INSTNM);
      Ok(DropNa(d, d.columns))
  }

  ghost predicate IdTable(ids: Table) {
    WellFormed(ids) && ids.columns == IdColumns
  }

  ghost predicate IdSource(rawFos: Table) {
    WellFormed(rawFos) && INSTNM in rawFos.columns && OPEID6 in rawFos.columns
  }

  /** The OPEID6 a name stands for: that of the FIRST row with the name.
      Missing when the name is missing, when no row has it, or when its
      first row has no OPEID6 -- later rows of the name are never read. */
  function IdOf(rawFos: Table, name: Cell): Cell
    requires IdSource(rawFos)
  {
    var f := Find(rawFos.rows, INSTNM, name);
    if name == Missing || f == |rawFos.rows| then Missing else rawFos.rows[f][OPEID6]
  }

  /** The map holds no missing cell and at most one row per name, and it
      finds a name exactly when `IdOf` gives it an id, which is then the
      id it holds. */
  lemma IdMapExact(rawFos: Table, name: Cell)
    requires IdSource(rawFos)
    ensures var m := IdMap(rawFos).value;
      && HasKey(m.rows, INSTNM) && HasKey(m.rows, OPEID6) && UniqueKey(m.rows, INSTNM)
      && (forall x: Row | x in m.rows :: !x[INSTNM].Missing? && !x[OPEID6].Missing?)
      && var f := Find(m.rows, INSTNM, name);
         && (f < |m.rows| <==> !IdOf(rawFos, name).Missing?)
         && (f < |m.rows| ==> m.rows[f][OPEID6] == IdOf(rawFos, name))
  {
    IdMapUnique(rawFos);
    IdMapPresent(rawFos);
    IdMapFinds(rawFos, name);
    IdMapLookup(rawFos, name);
  }

  lemma IdMapPresent(rawFos: Table)
    requires IdSource(rawFos)
    ensures var m := IdMap(rawFos).value;
      && HasKey(m.rows, INSTNM) && HasKey(m.rows, OPEID6)
      && forall x: Row | x in m.rows :: !x[INSTNM].Missing? && !x[OPEID6].Missing?
  {
    IdMapMembers(rawFos);
  }

  /** A name with an id is in the map. */
  lemma IdMapFinds(rawFos: Table, name: Cell)
    requires IdSource(rawFos)
    ensures var m := IdMap(rawFos).value;
      !IdOf(rawFos, name).Missing? ==> Find(m.rows, INSTNM, name) < |m.rows|
  {
    if !IdOf(rawFos, name).Missing? {
      assert NoDup(IdColumns);
      var p := Project(rawFos, IdColumns).value;
      var m := IdMap(rawFos).value;
      IdMapMembers(rawFos);
      FindSameKeys(p.rows, rawFos.rows, INSTNM, name);
      var fp := Find(p.rows, INSTNM, name);
      FirstIsKept(p.rows, fp);
      assert p.rows[fp][OPEID6] == rawFos.rows[fp][OPEID6];
      assert p.rows[fp] in m.rows;
    }
  }

  /** A name the map finds has its first row's id. */
  lemma IdMapLookup(rawFos: Table, name: Cell)
    requires IdSource(rawFos)
    ensures var m := IdMap(rawFos).value;
      var f := Find(m.rows, INSTNM, name);
      f < |m.rows| ==> m.rows[f][OPEID6] == IdOf(rawFos, name)
  {
    var m := IdMap(rawFos).value;
    IdMapUnique(rawFos);
    var f := Find(m.rows, INSTNM, name);
    if f < |m.rows| {
      var x := m.rows[f];
      IdMapRowKept(rawFos, x);
      KeptFirstId(rawFos, x);
    }
  }

  lemma IdMapRowKept(rawFos: Table, x: Row)
    requires IdSource(rawFos) && x in IdMap(rawFos).value.rows
    ensures x in IdRows(rawFos)
  {
    IdMapMembers(rawFos);
  }

  /** The rows of the two id columns after `drop_duplicates`, before
      `dropna`. */
  function IdRows(rawFos: Table): (d: seq<Row>)
    requires IdSource(rawFos)
    ensures HasKey(d, INSTNM) && HasKey(d, OPEID6)
  {
    assert NoDup(IdColumns);
    DropDuplicates(Project(rawFos, IdColumns).value, INSTNM).rows
  }

  /** A row kept by the de-duplication carries the id of the first row of
      its name. */
  lemma KeptFirstId(rawFos: Table, x: Row)
    requires IdSource(rawFos) && x in IdRows(rawFos)
    ensures var f := Find(rawFos.rows, INSTNM, x[INSTNM]);
      f < |rawFos.rows| && x[OPEID6] == rawFos.rows[f][OPEID6]
  {
    assert NoDup(IdColumns);
    var p := Project(rawFos, IdColumns).value;
    KeptIsFirst(p.rows, x);
    FindSameKeys(p.rows, rawFos.rows, INSTNM, x[INSTNM]);
  }

  /** The map's rows are the de-duplicated rows with both cells present. */
  lemma IdMapMembers(rawFos: Table)
    requires IdSource(rawFos)
    ensures forall x: Row :: x in IdMap(rawFos).value.rows <==>
              x in IdRows(rawFos) && !x[INSTNM].Missing? && !x[OPEID6].Missing?
  {
    assert NoDup(IdColumns);
    var p := Project(rawFos, IdColumns).value;
    var d := DropDuplicates(p, INSTNM);
    DropNaBoth(d);
  }

  /** `dropna()` over the two id columns keeps the rows with both present. */
  lemma DropNaBoth(d: Table)
    requires IdTable(d)
    ensures forall x: Row :: x in DropNa(d, d.columns).rows <==>
              x in d.rows && !x[INSTNM].Missing? && !x[OPEID6].Missing?
  {
    DropNaMembers(d, d.columns);
    forall x: Row ensures x in DropNa(d, d.columns).rows <==>
                          x in d.rows && !x[INSTNM].Missing? && !x[OPEID6].Missing?
    {
      if x in d.rows {
        CompletePair(x, INSTNM, OPEID6);
      }
    }
  }

  lemma CompletePair(r: Row, a: Col, b: Col)
    ensures Complete(r, [a, b]) <==> a in r && b in r && !r[a].Missing? && !r[b].Missing?
  {
    assert a in [a, b] && b in [a, b];
  }

  lemma IdMapUnique(rawFos: Table)
    requires IdSource(rawFos)
    ensures var m := IdMap(rawFos).value;
      HasKey(m.rows, INSTNM) && UniqueKey(m.rows, INSTNM)
  {
    assert NoDup(IdColumns);
    var p := Project(rawFos, IdColumns).value;
    var d := DropDuplicates(p, INSTNM);
    DedupUnique(p.rows, INSTNM, {});
    KeepUniqueKey(d.rows, CompleteOn(d.columns), INSTNM);
  }

  /** The first row of a name survives de-duplication. */
  lemma FirstIsKept(rows: seq<Row>, i: nat)
    requires HasKey(rows, INSTNM) && i < |rows| && Find(rows, INSTNM, rows[i][INSTNM]) == i
    ensures rows[i] in DedupFrom(rows, INSTNM, {})
  {
    DedupKeepsEveryKey(rows, INSTNM, {});
  }

  /** De-duplication keeps only first rows. */
  lemma KeptIsFirst(rows: seq<Row>, x: Row)
    requires HasKey(rows, INSTNM) && x in DedupFrom(rows, INSTNM, {})
    ensures INSTNM in x && Find(rows, INSTNM, x[INSTNM]) < |rows|
    ensures x == rows[Find(rows, INSTNM, x[INSTNM])]
  {
    DedupKeepsFirst(rows, INSTNM, {});
  }

  // ---------------------------------------------------------------------
  // Programmes with their institution id (lines 46-48)

  lemma OthersOfIds()
    ensures Others(IdColumns, INSTNM) == [OPEID6]
  {
    assert Keep(IdColumns[1..], NotListed([INSTNM])) == [OPEID6] + Keep(IdColumns[2..], NotListed([INSTNM]));
  }

  /** `fos.merge(ids, on="INSTNM", how="left")` */
  function WithIds(fos: Table, ids: Table): (r: Table)
    requires FosReady(fos) && IdTable(ids)
    ensures WellFormed(r) && r.columns == fos.columns + [OPEID6]
  {
    OthersOfIds();
    LeftMerge(fos, ids, INSTNM)
  }

  /** A frame the institution columns can join on the id. */
  ghost predicate InstJoinable(e: Table) {
    && WellFormed(e) && OPEID6 in e.columns
    && TUITIONFEE_IN !in e.columns && UGDS_WOMEN !in e.columns
  }

  /** The merge on the name, `dropna(subset=["OPEID6"])` and
      `astype(int)`, as values. */
  function Enhanced(fos: Table, ids: Table): (r: Result<Table, CastError>)
    requires FosReady(fos) && IdTable(ids)
    ensures r.Ok? ==> InstJoinable(r.value) && r.value.columns == fos.columns + [OPEID6]
  {
    CastInt(DropNa(WithIds(fos, ids), [OPEID6]), OPEID6)
  }

  /** Lines 46-48 in place: the merged frame loses its rows without an id and
      has its id column cast to integers; a cast that raises ends the
      script. */
  method EnhanceWithIds(fos: Table, ids: Table) returns (r: Result<Table, CastError>)
    requires FosReady(fos) && IdTable(ids)
    ensures r == Enhanced(fos, ids)
  {
    var df := new DataFrame(WithIds(fos, ids));
    df.DropNaInPlace([OPEID6]);
    var err := df.CastIntInPlace(OPEID6);
    if err.Some? {
      return Err(err.value);
    }
    return Ok(df.Value());
  }

  /** The left merge against the map keeps every programme row once and in
      order, adding the id its name stands for, or Missing. */
  lemma MergeIdsExact(fos: Table, rawFos: Table)
    requires FosReady(fos) && IdSource(rawFos)
    ensures var merged := WithIds(fos, IdMap(rawFos).value);
      && |merged.rows| == |fos.rows|
      && forall i | 0 <= i < |fos.rows| ::
           merged.rows[i] == fos.rows[i][OPEID6 := IdOf(rawFos, fos.rows[i][INSTNM])]
  {
    var m := IdMap(rawFos).value;
    IdMapUnique(rawFos);
    MergeUnique(fos.rows, m.rows, INSTNM, m.columns);
    forall i | 0 <= i < |fos.rows|
      ensures MergedRow(fos.rows[i], m.rows, INSTNM, m.columns)
              == fos.rows[i][OPEID6 := IdOf(rawFos, fos.rows[i][INSTNM])]
    {
      MergedIdRow(fos.rows[i], rawFos);
    }
  }

  /** A row of a two-column table holds exactly those two cells. */
  lemma PairRow(t: Table, i: nat, a: Col, b: Col)
    requires WellFormed(t) && t.columns == [a, b] && i < |t.rows|
    ensures a in t.rows[i] && b in t.rows[i] && forall k | k in t.rows[i] :: k == a || k == b
  {
  }

  /** One programme row after the merge on the name. */
  lemma MergedIdRow(l: Row, rawFos: Table)
    requires IdSource(rawFos) && INSTNM in l
    ensures var m := IdMap(rawFos).value;
      HasKey(m.rows, INSTNM) &&
      MergedRow(l, m.rows, INSTNM, m.columns) == l[OPEID6 := IdOf(rawFos, l[INSTNM])]
  {
    var m := IdMap(rawFos).value;
    IdMapUnique(rawFos);
    IdMapFinds(rawFos, l[INSTNM]);
    IdMapLookup(rawFos, l[INSTNM]);
    var f := Find(m.rows, INSTNM, l[INSTNM]);
    if f < |m.rows| {
      PairRow(m, f, INSTNM, OPEID6);
      JoinedPair(l, m.rows[f], INSTNM, OPEID6);
    } else {
      UnmatchedPair(l, INSTNM, OPEID6);
    }
  }

  /** Lines 47-48: the cast raises exactly when the id looked up for some
      programme is neither missing nor a finite number. */
  lemma EnhancedErr(fos: Table, rawFos: Table)
    requires FosReady(fos) && IdSource(rawFos)
    ensures Enhanced(fos, IdMap(rawFos).value).Err? <==>
              exists i | 0 <= i < |fos.rows| ::
                var id := IdOf(rawFos, fos.rows[i][INSTNM]); !id.Missing? && !id.Num?
  {
    var merged := WithIds(fos, IdMap(rawFos).value);
    MergeIdsExact(fos, rawFos);
    CastCompleteErr(merged, OPEID6);
    if exists i | 0 <= i < |merged.rows| :: !merged.rows[i][OPEID6].Missing? && !merged.rows[i][OPEID6].Num? {
      var i :| 0 <= i < |merged.rows| && !merged.rows[i][OPEID6].Missing? && !merged.rows[i][OPEID6].Num?;
      assert merged.rows[i][OPEID6] == IdOf(rawFos, fos.rows[i][INSTNM]);
    }
    if exists i | 0 <= i < |fos.rows| :: var id := IdOf(rawFos, fos.rows[i][INSTNM]); !id.Missing? && !id.Num? {
      var i :| 0 <= i < |fos.rows| && var id := IdOf(rawFos, fos.rows[i][INSTNM]); !id.Missing? && !id.Num?;
      assert merged.rows[i][OPEID6] == IdOf(rawFos, fos.rows[i][INSTNM]);
    }
  }

  /** So the cast never raises when the file's ids are all numbers or
      missing. */
  lemma EnhancedTotal(fos: Table, rawFos: Table)
    requires FosReady(fos) && IdSource(rawFos)
    requires forall r: Row | r in rawFos.rows :: r[OPEID6].Num? || r[OPEID6].Missing?
    ensures Enhanced(fos, IdMap(rawFos).value).Ok?
  {
    EnhancedErr(fos, rawFos);
    forall i | 0 <= i < |fos.rows|
      ensures var id := IdOf(rawFos, fos.rows[i][INSTNM]); id.Missing? || id.Num?
    {
      IdOfKind(rawFos, fos.rows[i][INSTNM]);
    }
  }

  /** The id a name stands for is one of the file's ids, or Missing. */
  lemma IdOfKind(rawFos: Table, name: Cell)
    requires IdSource(rawFos)
    ensures var id := IdOf(rawFos, name);
      id.Missing? || exists r: Row | r in rawFos.rows :: id == r[OPEID6]
  {
    var f := Find(rawFos.rows, INSTNM, name);
    if name != Missing && f < |rawFos.rows| {
      assert rawFos.rows[f] in rawFos.rows;
    }
  }

  /** Whether a programme row's institution name stands for an id. */
  function NamedWithId(rawFos: Table): Row -> bool
    requires IdSource(rawFos)
  {
    r => INSTNM in r && IdOf(rawFos, r[INSTNM]) != Missing
  }

  /** After lines 47-48 the programmes left are exactly those whose name
      stands for a numeric id, each with that id cut to an integer; they
      keep their order and occur once each: row `k` comes from the `k`-th
      programme whose name stands for an id. */
  lemma EnhancedMembers(fos: Table, rawFos: Table)
    requires FosReady(fos) && IdSource(rawFos)
    ensures var e := Enhanced(fos, IdMap(rawFos).value);
      e.Ok? ==> forall x: Row :: x in e.value.rows <==>
                  exists i | 0 <= i < |fos.rows| ::
                    var id := IdOf(rawFos, fos.rows[i][INSTNM]);
                    id.Num? && x == fos.rows[i][OPEID6 := Num(Trunc(id.x) as real)]
    ensures var e := Enhanced(fos, IdMap(rawFos).value);
      var ix := Positions(fos.rows, NamedWithId(rawFos));
      e.Ok? ==> && |e.value.rows| == |ix|
                && forall k | 0 <= k < |ix| ::
                     var id := IdOf(rawFos, fos.rows[ix[k]][INSTNM]);
                     id.Num? && e.value.rows[k] == fos.rows[ix[k]][OPEID6 := Num(Trunc(id.x) as real)]
  {
    var merged := WithIds(fos, IdMap(rawFos).value);
    MergeIdsExact(fos, rawFos);
    EnhancedAt(fos, rawFos);
    CastCompleteMembers(merged, OPEID6);
    forall i | 0 <= i < |fos.rows| && IdOf(rawFos, fos.rows[i][INSTNM]).Num?
      ensures var id := IdOf(rawFos, fos.rows[i][INSTNM]);
        merged.rows[i][OPEID6 := Num(Trunc(merged.rows[i][OPEID6].x) as real)]
          == fos.rows[i][OPEID6 := Num(Trunc(id.x) as real)]
    {
      var id := IdOf(rawFos, fos.rows[i][INSTNM]);
      UpdateTwice(fos.rows[i], OPEID6, id, Num(Trunc(id.x) as real));
    }
  }

  lemma EnhancedAt(fos: Table, rawFos: Table)
    requires FosReady(fos) && IdSource(rawFos)
    ensures var e := Enhanced(fos, IdMap(rawFos).value);
      var ix := Positions(fos.rows, NamedWithId(rawFos));
      e.Ok? ==> && |e.value.rows| == |ix|
                && forall k | 0 <= k < |ix| ::
                     var id := IdOf(rawFos, fos.rows[ix[k]][INSTNM]);
                     id.Num? && e.value.rows[k] == fos.rows[ix[k]][OPEID6 := Num(Trunc(id.x) as real)]
  {
    var merged := WithIds(fos, IdMap(rawFos).value);
    var e := Enhanced(fos, IdMap(rawFos).value);
    MergeIdsExact(fos, rawFos);
    CastCompleteAt(merged, OPEID6);
    if e.Ok? {
      CastOfMerged(fos, rawFos, merged.rows, e.value.rows);
    }
  }

  /** The cast of the merged rows with an id, read back on the programme
      rows they come from. */
  lemma CastOfMerged(fos: Table, rawFos: Table, merged: seq<Row>, out: seq<Row>)
    requires FosReady(fos) && IdSource(rawFos) && |merged| == |fos.rows|
    requires forall i | 0 <= i < |fos.rows| ::
               merged[i] == fos.rows[i][OPEID6 := IdOf(rawFos, fos.rows[i][INSTNM])]
    requires var ix := Positions(merged, CompleteOn([OPEID6]));
      && |out| == |ix|
      && forall k | 0 <= k < |ix| ::
           merged[ix[k]][OPEID6].Num? && out[k] == merged[ix[k]][OPEID6 := Num(Trunc(merged[ix[k]][OPEID6].x) as real)]
    ensures var ix := Positions(fos.rows, NamedWithId(rawFos));
      && |out| == |ix|
      && forall k | 0 <= k < |ix| ::
           var id := IdOf(rawFos, fos.rows[ix[k]][INSTNM]);
           id.Num? && out[k] == fos.rows[ix[k]][OPEID6 := Num(Trunc(id.x) as real)]
  {
    IdMaskAgrees(fos, rawFos, merged);
    var ix := Positions(fos.rows, NamedWithId(rawFos));
    forall k | 0 <= k < |ix|
      ensures var id := IdOf(rawFos, fos.rows[ix[k]][INSTNM]);
        id.Num? && out[k] == fos.rows[ix[k]][OPEID6 := Num(Trunc(id.x) as real)]
    {
      var id := IdOf(rawFos, fos.rows[ix[k]][INSTNM]);
      assert merged[ix[k]][OPEID6] == id;
      UpdateTwice(fos.rows[ix[k]], OPEID6, id, Num(Trunc(id.x) as real));
    }
  }

  /** A merged row has an id exactly when its programme's name stands for
      one, so both masks keep the same positions. */
  lemma IdMaskAgrees(fos: Table, rawFos: Table, merged: seq<Row>)
    requires FosReady(fos) && IdSource(rawFos) && |merged| == |fos.rows|
    requires forall i | 0 <= i < |fos.rows| ::
               merged[i] == fos.rows[i][OPEID6 := IdOf(rawFos, fos.rows[i][INSTNM])]
    ensures Positions(merged, CompleteOn([OPEID6])) == Positions(fos.rows, NamedWithId(rawFos))
  {
    forall i | 0 <= i < |fos.rows|
      ensures CompleteOn([OPEID6])(merged[i]) == NamedWithId(rawFos)(fos.rows[i])
    {
      assert merged[i][OPEID6] == IdOf(rawFos, fos.rows[i][INSTNM]);
    }
    PositionsAgree(merged, CompleteOn([OPEID6]), fos.rows, NamedWithId(rawFos));
  }

  /** Every id left is a whole number. */
  lemma EnhancedWhole(fos: Table, ids: Table)
    requires FosReady(fos) && IdTable(ids)
    ensures var e := Enhanced(fos, ids);
      e.Ok? ==> forall x: Row | x in e.value.rows :: x[OPEID6].Num? && IsWhole(x[OPEID6].x)
  {
    CastIntWhole(DropNa(WithIds(fos, ids), [OPEID6]), OPEID6);
  }

  lemma UpdateTwice(r: Row, c: Col, a: Cell, b: Cell)
    ensures r[c := a][c := b] == r[c := b]
  {
  }

  // ---------------------------------------------------------------------
  // The institution table (lines 52-58)

  const InstColumns: seq<Col> := [OPEID6, TUITIONFEE_IN, UGDS_WOMEN]

  ghost predicate InstTable(t: Table) {
    WellFormed(t) && t.columns == InstColumns
  }

  datatype FairnessError =
    | MissingColumns(absent: seq<Col>)
    | NotAnInteger(cell: Cell)

  /** Lines 52-57 as values: the three columns, tuition and the women share
      coerced to numbers, the rows with an id, the id cast to an integer. */
  function InstitutionIds(raw: Table, parse: string -> Option<real>): (r: Result<Table, FairnessError>)
    requires WellFormed(raw)
    ensures r.Ok? ==> InstTable(r.value)
  {
    assert NoDup(InstColumns);
    match Project(raw, InstColumns)
    case Err(e) => Err(MissingColumns(e.absent))
    case Ok(p) =>
      var coerced := CoerceColumns(p, [TUITIONFEE_IN, UGDS_WOMEN], parse);
      match CastInt(DropNa(coerced, [OPEID6]), OPEID6)
      case Err(e) => Err(NotAnInteger(e.cell))
      case Ok(c) => Ok(c)
  }

  /** Line 58: one row per id, the first. */
  function Institutions(raw: Table, parse: string -> Option<real>): (r: Result<Table, FairnessError>)
    requires WellFormed(raw)
    ensures r.Ok? ==> InstTable(r.value)
  {
    match InstitutionIds(raw, parse)
    case Err(e) => Err(e)
    case Ok(c) => Ok(DropDuplicates(c, OPEID6))
  }

  /** The row the cleaning makes of a raw institution row with an id. */
  function InstRow(r: Row, parse: string -> Option<real>): Row
    requires OPEID6 in r && r[OPEID6].Num? && TUITIONFEE_IN in r && UGDS_WOMEN in r
  {
    map[OPEID6 := Num(Trunc(r[OPEID6].x) as real),
        TUITIONFEE_IN := ToNumeric(r[TUITIONFEE_IN], parse),
        UGDS_WOMEN := ToNumeric(r[UGDS_WOMEN], parse)]
  }

  /** Before the cast, every coerced row keeps its raw id, and the cast of
      a numeric id gives the cleaned row. */
  lemma InstCoerced(raw: Table, parse: string -> Option<real>)
    requires WellFormed(raw) && Project(raw, InstColumns).Ok?
    ensures var coerced := CoerceColumns(Project(raw, InstColumns).value, [TUITIONFEE_IN, UGDS_WOMEN], parse);
      && |coerced.rows| == |raw.rows|
      && forall i | 0 <= i < |raw.rows| ::
           && coerced.rows[i][OPEID6] == raw.rows[i][OPEID6]
           && (raw.rows[i][OPEID6].Num? ==>
                 coerced.rows[i][OPEID6 := Num(Trunc(coerced.rows[i][OPEID6].x) as real)] == InstRow(raw.rows[i], parse))
  {
    var p := Project(raw, InstColumns).value;
    var coerced := CoerceColumns(p, [TUITIONFEE_IN, UGDS_WOMEN], parse);
    forall i | 0 <= i < |raw.rows|
      ensures coerced.rows[i][OPEID6] == raw.rows[i][OPEID6]
      ensures raw.rows[i][OPEID6].Num? ==>
                coerced.rows[i][OPEID6 := Num(Trunc(coerced.rows[i][OPEID6].x) as real)] == InstRow(raw.rows[i], parse)
    {
      TripleRow(coerced, i, OPEID6, TUITIONFEE_IN, UGDS_WOMEN);
      CoercedRow(p, parse, i);
      if raw.rows[i][OPEID6].Num? {
        InstRowOf(raw.rows[i], coerced.rows[i], parse);
      }
    }
  }

  /** The coercion of lines 54-55 leaves the id of each row alone and coerces
      its two other cells. */
  lemma CoercedRow(p: Table, parse: string -> Option<real>, i: nat)
    requires WellFormed(p) && p.columns == InstColumns && i < |p.rows|
    ensures var c := CoerceColumns(p, [TUITIONFEE_IN, UGDS_WOMEN], parse).rows[i];
      && c[OPEID6] == p.rows[i][OPEID6]
      && c[TUITIONFEE_IN] == ToNumeric(p.rows[i][TUITIONFEE_IN], parse)
      && c[UGDS_WOMEN] == ToNumeric(p.rows[i][UGDS_WOMEN], parse)
  {
    CoercedCell(p, [TUITIONFEE_IN, UGDS_WOMEN], parse, i, OPEID6);
    CoercedCell(p, [TUITIONFEE_IN, UGDS_WOMEN], parse, i, TUITIONFEE_IN);
    CoercedCell(p, [TUITIONFEE_IN, UGDS_WOMEN], parse, i, UGDS_WOMEN);
  }

  /** A coerced row with a numeric id is the cleaned row once the id is cut
      to an integer. */
  lemma InstRowOf(r: Row, c: Row, parse: string -> Option<real>)
    requires OPEID6 in r && r[OPEID6].Num? && TUITIONFEE_IN in r && UGDS_WOMEN in r
    requires OPEID6 in c && TUITIONFEE_IN in c && UGDS_WOMEN in c
    requires forall k | k in c :: k == OPEID6 || k == TUITIONFEE_IN || k == UGDS_WOMEN
    requires c[OPEID6] == r[OPEID6]
    requires c[TUITIONFEE_IN] == ToNumeric(r[TUITIONFEE_IN], parse)
    requires c[UGDS_WOMEN] == ToNumeric(r[UGDS_WOMEN], parse)
    ensures c[OPEID6 := Num(Trunc(c[OPEID6].x) as real)] == InstRow(r, parse)
  {
    assert c.Keys == {OPEID6, TUITIONFEE_IN, UGDS_WOMEN};
  }

  /** The cleaning of lines 52-57 fails exactly on a missing column or on an
      id that is neither missing nor a finite number. */
  lemma InstitutionIdsErr(raw: Table, parse: string -> Option<real>)
    requires WellFormed(raw)
    ensures InstitutionIds(raw, parse).Err? <==>
              || (exists c :: c in InstColumns && c !in raw.columns)
              || exists i | 0 <= i < |raw.rows| :: !raw.rows[i][OPEID6].Missing? && !raw.rows[i][OPEID6].Num?
  {
    assert NoDup(InstColumns);
    var pr := Project(raw, InstColumns);
    if pr.Ok? {
      var coerced := CoerceColumns(pr.value, [TUITIONFEE_IN, UGDS_WOMEN], parse);
      InstCoerced(raw, parse);
      CastCompleteErr(coerced, OPEID6);
      BadIdsAgree(coerced.rows, raw.rows);
    }
  }

  /** Two row lists with the same ids have a bad id in the same places. */
  lemma BadIdsAgree(a: seq<Row>, b: seq<Row>)
    requires |a| == |b| && forall i | 0 <= i < |a| :: OPEID6 in a[i] && OPEID6 in b[i] && a[i][OPEID6] == b[i][OPEID6]
    ensures (exists i | 0 <= i < |a| :: !a[i][OPEID6].Missing? && !a[i][OPEID6].Num?)
        <==> (exists i | 0 <= i < |b| :: !b[i][OPEID6].Missing? && !b[i][OPEID6].Num?)
  {
    if exists i | 0 <= i < |a| :: !a[i][OPEID6].Missing? && !a[i][OPEID6].Num? {
      var i :| 0 <= i < |a| && !a[i][OPEID6].Missing? && !a[i][OPEID6].Num?;
      assert !b[i][OPEID6].Missing? && !b[i][OPEID6].Num?;
    }
    if exists i | 0 <= i < |b| :: !b[i][OPEID6].Missing? && !b[i][OPEID6].Num? {
      var i :| 0 <= i < |b| && !b[i][OPEID6].Missing? && !b[i][OPEID6].Num?;
      assert !a[i][OPEID6].Missing? && !a[i][OPEID6].Num?;
    }
  }

  /** When it succeeds, its rows are exactly the raw rows with a numeric
      id, cleaned: an integer id and numeric tuition and women share. They
      keep the raw order and occur once each: row `k` comes from the `k`-th
      raw row with an id. */
  lemma InstitutionIdsMembers(raw: Table, parse: string -> Option<real>)
    requires WellFormed(raw)
    ensures var r := InstitutionIds(raw, parse);
      r.Ok? ==> forall x: Row :: x in r.value.rows <==>
                  exists i | 0 <= i < |raw.rows| ::
                    raw.rows[i][OPEID6].Num? && x == InstRow(raw.rows[i], parse)
    ensures var r := InstitutionIds(raw, parse);
      var ix := Positions(raw.rows, CompleteOn([OPEID6]));
      r.Ok? ==> && |r.value.rows| == |ix|
                && forall k | 0 <= k < |ix| ::
                     raw.rows[ix[k]][OPEID6].Num? && r.value.rows[k] == InstRow(raw.rows[ix[k]], parse)
  {
    assert NoDup(InstColumns);
    var pr := Project(raw, InstColumns);
    if pr.Ok? {
      var coerced := CoerceColumns(pr.value, [TUITIONFEE_IN, UGDS_WOMEN], parse);
      InstCoerced(raw, parse);
      CastCompleteMembers(coerced, OPEID6);
      var r := InstitutionIds(raw, parse);
      if r.Ok? {
        CastOfCoerced(raw.rows, coerced.rows, r.value.rows, parse);
      }
    }
  }

  /** The cast of the coerced rows with an id, read back on the raw rows
      they come from. */
  lemma CastOfCoerced(raw: seq<Row>, coerced: seq<Row>, out: seq<Row>, parse: string -> Option<real>)
    requires |coerced| == |raw|
    requires forall i | 0 <= i < |raw| ::
               && OPEID6 in raw[i] && TUITIONFEE_IN in raw[i] && UGDS_WOMEN in raw[i] && OPEID6 in coerced[i]
               && coerced[i][OPEID6] == raw[i][OPEID6]
               && (raw[i][OPEID6].Num? ==>
                     coerced[i][OPEID6 := Num(Trunc(coerced[i][OPEID6].x) as real)] == InstRow(raw[i], parse))
    requires var ix := Positions(coerced, CompleteOn([OPEID6]));
      && |out| == |ix|
      && forall k | 0 <= k < |ix| ::
           coerced[ix[k]][OPEID6].Num? && out[k] == coerced[ix[k]][OPEID6 := Num(Trunc(coerced[ix[k]][OPEID6].x) as real)]
    ensures var ix := Positions(raw, CompleteOn([OPEID6]));
      && |out| == |ix|
      && forall k | 0 <= k < |ix| :: raw[ix[k]][OPEID6].Num? && out[k] == InstRow(raw[ix[k]], parse)
  {
    forall i | 0 <= i < |raw| ensures CompleteOn([OPEID6])(coerced[i]) == CompleteOn([OPEID6])(raw[i]) {
      assert coerced[i][OPEID6] == raw[i][OPEID6];
    }
    PositionsAgree(coerced, CompleteOn([OPEID6]), raw, CompleteOn([OPEID6]));
  }

  /** After line 58 every id occurs once; each row is the first row of its
      id in the cleaned table and the first row of every id is kept, in
      the cleaned table's order. */
  lemma InstitutionsExact(raw: Table, parse: string -> Option<real>)
    requires WellFormed(raw)
    ensures Institutions(raw, parse).Ok? <==> InstitutionIds(raw, parse).Ok?
    ensures Institutions(raw, parse).Ok? ==>
      var c := InstitutionIds(raw, parse).value;
      var u := Institutions(raw, parse).value;
      && HasKey(u.rows, OPEID6) && UniqueKey(u.rows, OPEID6)
      && SubseqOf(u.rows, c.rows)
      && (forall x | x in u.rows :: x == c.rows[Find(c.rows, OPEID6, x[OPEID6])])
      && (forall i | 0 <= i < |c.rows| && Find(c.rows, OPEID6, c.rows[i][OPEID6]) == i :: c.rows[i] in u.rows)
  {
    if InstitutionIds(raw, parse).Ok? {
      var c := InstitutionIds(raw, parse).value;
      DedupUnique(c.rows, OPEID6, {});
      DedupSubseq(c.rows, OPEID6, {});
      DedupKeepsFirst(c.rows, OPEID6, {});
      DedupKeepsEveryKey(c.rows, OPEID6, {});
    }
  }

  /** Lines 52-58 in place on a copy of the three columns. */
  method CleanInstitutions(raw: Table, parse: string -> Option<real>) returns (r: Result<Table, FairnessError>)
    requires WellFormed(raw)
    ensures r == Institutions(raw, parse)
  {
    assert NoDup(InstColumns);
    var pr := Project(raw, InstColumns);
    if pr.Err? {
      return Err(MissingColumns(pr.error.absent));
    }
    var p := pr.value;
    var df := new DataFrame(p);
    df.Assign(TUITIONFEE_IN, ToNumericColumn(df.Value(), TUITIONFEE_IN, parse));
    assert df.Value() == CoerceColumns(p, [TUITIONFEE_IN], parse) by {
      assert [TUITIONFEE_IN][..0] == [];
    }
    df.Assign(UGDS_WOMEN, ToNumericColumn(df.Value(), UGDS_WOMEN, parse));
    assert df.Value() == CoerceColumns(p, [TUITIONFEE_IN, UGDS_WOMEN], parse) by {
      assert [TUITIONFEE_IN, UGDS_WOMEN][..1] == [TUITIONFEE_IN];
    }
    df.DropNaInPlace([OPEID6]);
    var err := df.CastIntInPlace(OPEID6);
    if err.Some? {
      return Err(NotAnInteger(err.value.cell));
    }
    df.DropDuplicatesInPlace(OPEID6);
    return Ok(df.Value());
  }

  // ---------------------------------------------------------------------
  // The merged table (line 63)

  lemma OthersOfInst()
    ensures Others(InstColumns, OPEID6) == [TUITIONFEE_IN, UGDS_WOMEN]
  {
    assert Keep(InstColumns[2..], NotListed([OPEID6])) == [UGDS_WOMEN] + Keep(InstColumns[3..], NotListed([OPEID6]));
  }

  /** The cell `c` of the institution row with id `id`; Missing when no
      row has that id. */
  function InstCell(inst: Table, id: Cell, c: Col): Cell
    requires WellFormed(inst) && OPEID6 in inst.columns && c in inst.columns
  {
    var f := Find(inst.rows, OPEID6, id);
    if f < |inst.rows| then inst.rows[f][c] else Missing
  }

  /** `df_enhanced.merge(df_inst, on="OPEID6", how="left")` */
  function WithInstitutions(e: Table, inst: Table): (m: Table)
    requires InstJoinable(e) && InstTable(inst)
    ensures WellFormed(m) && m.columns == e.columns + [TUITIONFEE_IN, UGDS_WOMEN]
  {
    InstMergeReady(e.columns);
    LeftMerge(e, inst, OPEID6)
  }

  lemma InstMergeReady(cols: seq<Col>)
    requires TUITIONFEE_IN !in cols && UGDS_WOMEN !in cols
    ensures OPEID6 in InstColumns
    ensures forall c | c in InstColumns && c != OPEID6 :: c !in cols
    ensures Others(InstColumns, OPEID6) == [TUITIONFEE_IN, UGDS_WOMEN]
  {
    OthersOfInst();
  }

  /** Against an institution table with one row per id, the merge on the
      id keeps every programme row once and in order with all its cells,
      and adds the tuition and women share of the institution row of its
      id, both Missing when there is none. */
  lemma MergeInstitutionsExact(e: Table, inst: Table)
    requires InstJoinable(e) && InstTable(inst)
    requires HasKey(inst.rows, OPEID6) && UniqueKey(inst.rows, OPEID6)
    ensures var m := WithInstitutions(e, inst);
      && |m.rows| == |e.rows|
      && forall i | 0 <= i < |e.rows| ::
           var id := e.rows[i][OPEID6];
           m.rows[i] == e.rows[i][TUITIONFEE_IN := InstCell(inst, id, TUITIONFEE_IN)]
                                 [UGDS_WOMEN := InstCell(inst, id, UGDS_WOMEN)]
  {
    OthersOfInst();
    MergeUnique(e.rows, inst.rows, OPEID6, inst.columns);
    forall i | 0 <= i < |e.rows|
      ensures var id := e.rows[i][OPEID6];
        MergedRow(e.rows[i], inst.rows, OPEID6, inst.columns)
          == e.rows[i][TUITIONFEE_IN := InstCell(inst, id, TUITIONFEE_IN)][UGDS_WOMEN := InstCell(inst, id, UGDS_WOMEN)]
    {
      MergedInstRow(e.rows[i], inst);
    }
  }

  /** A row of a three-column table holds exactly those three cells. */
  lemma TripleRow(t: Table, i: nat, a: Col, b: Col, c: Col)
    requires WellFormed(t) && t.columns == [a, b, c] && i < |t.rows|
    ensures a in t.rows[i] && b in t.rows[i] && c in t.rows[i]
    ensures forall k | k in t.rows[i] :: k == a || k == b || k == c
  {
  }

  /** One programme row after the merge on the id. */
  lemma MergedInstRow(l: Row, inst: Table)
    requires InstTable(inst) && OPEID6 in l
    ensures var id := l[OPEID6];
      && HasKey(inst.rows, OPEID6)
      && MergedRow(l, inst.rows, OPEID6, inst.columns)
           == l[TUITIONFEE_IN := InstCell(inst, id, TUITIONFEE_IN)][UGDS_WOMEN := InstCell(inst, id, UGDS_WOMEN)]
  {
    var f := Find(inst.rows, OPEID6, l[OPEID6]);
    if f < |inst.rows| {
      TripleRow(inst, f, OPEID6, TUITIONFEE_IN, UGDS_WOMEN);
      JoinedTriple(l, inst.rows[f], OPEID6, TUITIONFEE_IN, UGDS_WOMEN);
    } else {
      UnmatchedTriple(l, OPEID6, TUITIONFEE_IN, UGDS_WOMEN);
    }
  }

  /** Lines 41-63 as values: the map, the programmes with their ids, the
      institutions, and the merge of the last two on the id. */
  function Merged(fos: Table, rawFos: Table, rawInst: Table, parse: string -> Option<real>): (r: Result<Table, FairnessError>)
    requires FosReady(fos) && WellFormed(rawFos) && WellFormed(rawInst)
    ensures r.Ok? ==> WellFormed(r.value) && r.value.columns == fos.columns + [OPEID6] + [TUITIONFEE_IN, UGDS_WOMEN]
  {
    match IdMap(rawFos)
    case Err(e) => Err(MissingColumns(e.absent))
    case Ok(ids) =>
      match Enhanced(fos, ids)
      case Err(e) => Err(NotAnInteger(e.cell))
      case Ok(enhanced) =>
        match Institutions(rawInst, parse)
        case Err(e) => Err(e)
        case Ok(inst) => Ok(WithInstitutions(enhanced, inst))
  }

  /** 03_fairness.py up to `df_merged`, the in-place steps on their own
      frames. */
  method MergeScorecard(fos: Table, rawFos: Table, rawInst: Table, parse: string -> Option<real>)
    returns (r: Result<Table, FairnessError>)
    requires FosReady(fos) && WellFormed(rawFos) && WellFormed(rawInst)
    ensures r == Merged(fos, rawFos, rawInst, parse)
  {
    var ids := IdMap(rawFos);
    if ids.Err? {
      r := Err(MissingColumns(ids.error.absent));
    } else {
      var enhanced := EnhanceWithIds(fos, ids.value);
      if enhanced.Err? {
        r := Err(NotAnInteger(enhanced.error.cell));
      } else {
        var inst := CleanInstitutions(rawInst, parse);
        if inst.Err? {
          r := Err(inst.error);
        } else {
          r := Ok(WithInstitutions(enhanced.value, inst.value));
        }
      }
    }
  }

  // ---------------------------------------------------------------------
  // The merged tuition and women share are numeric

  /** Every cleaned institution row has a numeric tuition and women share:
      the coercion of lines 54-55 leaves no text in them. */
  lemma InstitutionsNumeric(raw: Table, parse: string -> Option<real>)
    requires WellFormed(raw) && Institutions(raw, parse).Ok?
    ensures NumericCol(Institutions(raw, parse).value, TUITIONFEE_IN)
    ensures NumericCol(Institutions(raw, parse).value, UGDS_WOMEN)
  {
    var c := InstitutionIds(raw, parse).value;
    var u := Institutions(raw, parse).value;
    InstitutionsExact(raw, parse);
    InstitutionIdsMembers(raw, parse);
    SubseqMembers(u.rows, c.rows);
    forall x | x in u.rows ensures IsNumeric(x[TUITIONFEE_IN]) && IsNumeric(x[UGDS_WOMEN]) {
      var i :| 0 <= i < |raw.rows| && raw.rows[i][OPEID6].Num? && x == InstRow(raw.rows[i], parse);
    }
  }

  /** The looked-up cells of a numeric institution table are numeric. */
  lemma InstCellNumeric(inst: Table, id: Cell)
    requires InstTable(inst) && NumericCol(inst, TUITIONFEE_IN) && NumericCol(inst, UGDS_WOMEN)
    ensures IsNumeric(InstCell(inst, id, TUITIONFEE_IN)) && IsNumeric(InstCell(inst, id, UGDS_WOMEN))
  {
    var f := Find(inst.rows, OPEID6, id);
    if f < |inst.rows| {
      assert inst.rows[f] in inst.rows;
    }
  }

  /** In the merged table the tuition and the women share are numbers,
      infinities or missing, never text, so the comparison `> 0` of the
      plots is defined on every row. */
  lemma MergedNumeric(fos: Table, rawFos: Table, rawInst: Table, parse: string -> Option<real>)
    requires FosReady(fos) && WellFormed(rawFos) && WellFormed(rawInst)
    requires Merged(fos, rawFos, rawInst, parse).Ok?
    ensures NumericCol(Merged(fos, rawFos, rawInst, parse).value, TUITIONFEE_IN)
    ensures NumericCol(Merged(fos, rawFos, rawInst, parse).value, UGDS_WOMEN)
  {
    var e := Enhanced(fos, IdMap(rawFos).value).value;
    var inst := Institutions(rawInst, parse).value;
    InstitutionsNumeric(rawInst, parse);
    InstitutionsExact(rawInst, parse);
    JoinedNumeric(e, inst);
  }

  /** Joining a numeric institution table with one row per id adds
      numeric columns. */
  lemma JoinedNumeric(e: Table, inst: Table)
    requires InstJoinable(e) && InstTable(inst)
    requires HasKey(inst.rows, OPEID6) && UniqueKey(inst.rows, OPEID6)
    requires NumericCol(inst, TUITIONFEE_IN) && NumericCol(inst, UGDS_WOMEN)
    ensures NumericCol(WithInstitutions(e, inst), TUITIONFEE_IN)
    ensures NumericCol(WithInstitutions(e, inst), UGDS_WOMEN)
  {
    MergeInstitutionsExact(e, inst);
    var m := WithInstitutions(e, inst);
    forall i | 0 <= i < |m.rows| ensures IsNumeric(m.rows[i][TUITIONFEE_IN]) && IsNumeric(m.rows[i][UGDS_WOMEN]) {
      InstCellNumeric(inst, e.rows[i][OPEID6]);
    }
    NumericByIndex(m, TUITIONFEE_IN);
    NumericByIndex(m, UGDS_WOMEN);
  }

  lemma NumericByIndex(t: Table, c: Col)
    requires WellFormed(t) && c in t.columns
    requires forall i | 0 <= i < |t.rows| :: IsNumeric(t.rows[i][c])
    ensures NumericCol(t, c)
  {
    forall x | x in t.rows ensures IsNumeric(x[c]) {
      var i :| 0 <= i < |t.rows| && t.rows[i] == x;
    }
  }

  // ---------------------------------------------------------------------
  // The plotted subsets (lines 75-76, 80, 95-96, 100, 115)

  /** pandas `TUITIONFEE_IN > 0`: NaN compares false, +inf is above zero. */
  predicate PositiveTuition(r: Row) {
    && TUITIONFEE_IN in r
    && match r[TUITIONFEE_IN]
       case Num(x) => x > 0.0
       case PosInf => true
       case _ => false
  }

  /** The rows of a tuition scatter plot against `y`: both present, and the
      tuition above zero. */
  function TuitionPlotRows(t: Table, y: Col): (p: Table)
    requires WellFormed(t)
    ensures WellFormed(p) && p.columns == t.columns
  {
    Where(DropNa(t, [TUITIONFEE_IN, y]), PositiveTuition)
  }

  /** A row is plotted exactly when it has `y` and a tuition that is +inf or
      a positive number; the plotted rows keep their order. */
  lemma TuitionPlotExact(t: Table, y: Col)
    requires WellFormed(t)
    ensures forall x: Row :: x in TuitionPlotRows(t, y).rows <==>
              && x in t.rows && y in x && !x[y].Missing? && TUITIONFEE_IN in x
              && (x[TUITIONFEE_IN].PosInf? || (x[TUITIONFEE_IN].Num? && x[TUITIONFEE_IN].x > 0.0))
    ensures forall x: Row :: multiset(TuitionPlotRows(t, y).rows)[x] ==
              if && y in x && !x[y].Missing? && TUITIONFEE_IN in x
                 && (x[TUITIONFEE_IN].PosInf? || (x[TUITIONFEE_IN].Num? && x[TUITIONFEE_IN].x > 0.0))
              then multiset(t.rows)[x] else 0
    ensures SubseqOf(TuitionPlotRows(t, y).rows, t.rows)
  {
    var d := DropNa(t, [TUITIONFEE_IN, y]);
    DropNaExact(t, [TUITIONFEE_IN, y]);
    PositiveTuitionRows(d);
    forall x: Row ensures x in TuitionPlotRows(t, y).rows <==>
              && x in t.rows && y in x && !x[y].Missing? && TUITIONFEE_IN in x
              && (x[TUITIONFEE_IN].PosInf? || (x[TUITIONFEE_IN].Num? && x[TUITIONFEE_IN].x > 0.0))
    {
      CompletePair(x, TUITIONFEE_IN, y);
    }
    forall x: Row ensures multiset(TuitionPlotRows(t, y).rows)[x] ==
              if && y in x && !x[y].Missing? && TUITIONFEE_IN in x
                 && (x[TUITIONFEE_IN].PosInf? || (x[TUITIONFEE_IN].Num? && x[TUITIONFEE_IN].x > 0.0))
              then multiset(t.rows)[x] else 0
    {
      CompletePair(x, TUITIONFEE_IN, y);
    }
    SubseqTrans(TuitionPlotRows(t, y).rows, d.rows, t.rows);
  }

  lemma PositiveTuitionRows(d: Table)
    requires WellFormed(d)
    ensures forall x: Row :: x in Where(d, PositiveTuition).rows <==>
              && x in d.rows && TUITIONFEE_IN in x
              && (x[TUITIONFEE_IN].PosInf? || (x[TUITIONFEE_IN].Num? && x[TUITIONFEE_IN].x > 0.0))
    ensures forall x: Row :: multiset(Where(d, PositiveTuition).rows)[x] ==
              if PositiveTuition(x) then multiset(d.rows)[x] else 0
    ensures SubseqOf(Where(d, PositiveTuition).rows, d.rows)
  {
    KeepExact(d.rows, PositiveTuition);
  }

  /** `min(5000, len(plot_data))`: the size of the drawn sample. */
  function SampleSize(n: nat): (k: nat)
    ensures k <= n && k <= 5000
    ensures k == n || k == 5000
  {
    if n < 5000 then n else 5000
  }

  /** The rows of the earnings box plot. */
  function BoxPlotRows(t: Table): (p: Table)
    requires WellFormed(t)
    ensures WellFormed(p) && p.columns == t.columns
  {
    DropNa(t, [CONTROL, EARN_MDN_5YR])
  }

  /** A row is in the box plot exactly when it has an institution type and
      median earnings; the rows keep their order and each is drawn as often
      as it occurs. */
  lemma BoxPlotExact(t: Table)
    requires WellFormed(t)
    ensures forall x: Row :: x in BoxPlotRows(t).rows <==>
              x in t.rows && CONTROL in x && EARN_MDN_5YR in x && !x[CONTROL].Missing? && !x[EARN_MDN_5YR].Missing?
    ensures forall x: Row :: multiset(BoxPlotRows(t).rows)[x] ==
              if CONTROL in x && EARN_MDN_5YR in x && !x[CONTROL].Missing? && !x[EARN_MDN_5YR].Missing?
              then multiset(t.rows)[x] else 0
    ensures SubseqOf(BoxPlotRows(t).rows, t.rows)
  {
    DropNaExact(t, [CONTROL, EARN_MDN_5YR]);
    forall x: Row ensures multiset(BoxPlotRows(t).rows)[x] ==
              if CONTROL in x && EARN_MDN_5YR in x && !x[CONTROL].Missing? && !x[EARN_MDN_5YR].Missing?
              then multiset(t.rows)[x] else 0
    {
      CompletePair(x, CONTROL, EARN_MDN_5YR);
    }
  }
}
