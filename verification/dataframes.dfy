/** The frames the scripts change in place -- column assignment
    `df[name] = ...`, `dropna(..., inplace=True)`,
    `drop_duplicates(..., inplace=True)` and `astype(int)` written back into
    its column -- as an object whose methods update its columns and rows. */
module DataFrames {
  import opened Cells
  import opened Columns
  import opened Frames

  class DataFrame {
    var columns: seq<Col>
    var rows: seq<Row>

    /** The table the object currently holds. */
    function Value(): Table
      reads this
    {
      Table(columns, rows)
    }

    ghost predicate Valid()
      reads this
    {
      WellFormed(Value())
    }

    /** `t.copy()` */
    constructor (t: Table)
      requires WellFormed(t)
      ensures Valid() && Value() == t
    {
      columns := t.columns;
      rows := t.rows;
    }

    /** `df[name] = values`: overwrites the column where it stands or
        appends it on the right; every other column is unchanged. */
    method Assign(name: Col, values: seq<Cell>)
      requires Valid() && |values| == |rows|
      modifies this
      ensures Valid() && Value() == WithColumn(old(Value()), name, values)
      ensures forall i, c | 0 <= i < |rows| && c in old(columns) && c != name :: rows[i][c] == old(rows)[i][c]
    {
      var t := WithColumn(Value(), name, values);
      columns, rows := t.columns, t.rows;
    }

    /** `df.dropna(subset=subset, inplace=True)` */
    method DropNaInPlace(subset: seq<Col>)
      requires Valid()
      modifies this
      ensures Valid() && Value() == DropNa(old(Value()), subset)
      ensures columns == old(columns) && SubseqOf(rows, old(rows))
      ensures forall r :: r in rows <==> r in old(rows) && Complete(r, subset)
      ensures forall r :: multiset(rows)[r] == if Complete(r, subset) then multiset(old(rows))[r] else 0
    {
      DropNaExact(Value(), subset);
      rows := DropNa(Value(), subset).rows;
    }

    /** `df.drop_duplicates(subset=[key], keep='first', inplace=True)` */
    method DropDuplicatesInPlace(key: Col)
      requires Valid() && key in columns
      modifies this
      ensures Valid() && Value() == DropDuplicates(old(Value()), key)
      ensures columns == old(columns) && SubseqOf(rows, old(rows))
      ensures HasKey(rows, key) && UniqueKey(rows, key)
    {
      DedupUnique(rows, key, {});
      DedupSubseq(rows, key, {});
      var t := DropDuplicates(Value(), key);
      rows := t.rows;
    }

    /** `df[col] = df[col].astype(int)`: when some cell is not a finite
        number the cast raises and the frame is left as it was. */
    method CastIntInPlace(col: Col) returns (err: Option<CastError>)
      requires Valid() && col in columns
      modifies this
      ensures Valid() && columns == old(columns)
      ensures err.None? <==> CastInt(old(Value()), col).Ok?
      ensures err.None? ==> Value() == CastInt(old(Value()), col).value
      ensures err.Some? ==> Value() == old(Value()) && err.value == CastInt(old(Value()), col).error
    {
      var r := CastInt(Value(), col);
      if r.Ok? {
        rows := r.value.rows;
        err := None;
      } else {
        err := Some(r.error);
      }
    }
  }
}
