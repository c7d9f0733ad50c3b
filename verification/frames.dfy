/** Tables as the scripts use pandas DataFrames: an ordered list of distinct
    column names and a sequence of rows, each row mapping every column name
    to its cell. The row-order-preserving operations pandas offers -- column
    selection, column assignment, boolean-mask filtering, `dropna`,
    `drop_duplicates`, column drops and renames, left merges and group keys --
    are values here; the in-place variants are in module DataFrames. */
module Frames {
  import opened Cells
  import opened Columns

  type Row = map<Col, Cell>

  datatype Table = Table(columns: seq<Col>, rows: seq<Row>)

  /** pandas' `KeyError`, naming the requested columns the frame lacks. */
  datatype KeyError = KeyError(absent: seq<Col>)

  predicate NoDup<T(==)>(s: seq<T>) {
    forall i, j | 0 <= i < j < |s| :: s[i] != s[j]
  }

  function ColumnSet(cs: seq<Col>): set<Col> {
    set c | c in cs
  }

  /** Column names are distinct and every row has exactly those columns. */
  ghost predicate WellFormed(t: Table) {
    && NoDup(t.columns)
    && (forall r, c {:trigger c in r, r in t.rows} | r in t.rows :: c in r <==> c in t.columns)
    && (forall i, c {:trigger c in t.rows[i]} | 0 <= i < |t.rows| :: c in t.rows[i] <==> c in t.columns)
  }

  /** The row-by-row half of `WellFormed` follows from the membership half. */
  lemma WellFormedByMembership(t: Table)
    requires NoDup(t.columns)
    requires forall r, c {:trigger c in r, r in t.rows} | r in t.rows :: c in r <==> c in t.columns
    ensures WellFormed(t)
  {
    forall i, c | 0 <= i < |t.rows| ensures c in t.rows[i] <==> c in t.columns {
      assert t.rows[i] in t.rows;
    }
  }

  /** Every row has a cell under `key`. */
  predicate HasKey(rows: seq<Row>, key: Col) {
    forall r | r in rows :: key in r
  }

  function Column(t: Table, c: Col): (vs: seq<Cell>)
    requires WellFormed(t) && c in t.columns
    ensures |vs| == |t.rows|
  {
    seq(|t.rows|, i requires 0 <= i < |t.rows| => t.rows[i][c])
  }

  // ---------------------------------------------------------------------
  // Order-preserving subsequences and filters

  /** `a` can be obtained from `b` by deleting elements. */
  predicate SubseqOf<T(==)>(a: seq<T>, b: seq<T>)
    decreases |b|
  {
    if a == [] then true
    else if b == [] then false
    else if a[0] == b[0] then SubseqOf(a[1..], b[1..])
    else SubseqOf(a, b[1..])
  }

  lemma {:induction false} SubseqRefl<T>(s: seq<T>)
    ensures SubseqOf(s, s)
  {
    if s != [] {
      SubseqRefl(s[1..]);
    }
  }

  lemma {:induction false} SubseqMembers<T>(a: seq<T>, b: seq<T>)
    requires SubseqOf(a, b)
    ensures |a| <= |b|
    ensures forall x | x in a :: x in b
    decreases |b|
  {
    if a != [] && b != [] {
      assert a == [a[0]] + a[1..] && b == [b[0]] + b[1..];
      if a[0] == b[0] {
        SubseqMembers(a[1..], b[1..]);
      } else {
        SubseqMembers(a, b[1..]);
      }
    }
  }

  lemma {:induction false} SubseqDropHead<T>(a: seq<T>, b: seq<T>)
    requires a != [] && SubseqOf(a, b)
    ensures SubseqOf(a[1..], b)
    decreases |b|, 0
  {
    if a[0] == b[0] {
      SubseqSkip(a[1..], b[1..], b[0]);
    } else {
      SubseqDropHead(a, b[1..]);
      SubseqSkip(a[1..], b[1..], b[0]);
    }
  }

  /** Prepending an element to the larger sequence keeps a subsequence. */
  lemma {:induction false} SubseqSkip<T>(a: seq<T>, b: seq<T>, x: T)
    requires SubseqOf(a, b)
    ensures SubseqOf(a, [x] + b)
    decreases |b|, 1
  {
    if a != [] {
      if a[0] == x {
        assert ([x] + b)[1..] == b;
        SubseqDropHead(a, b);
      } else {
        assert ([x] + b)[1..] == b;
      }
    }
  }

  lemma {:induction false} SubseqTrans<T>(a: seq<T>, b: seq<T>, c: seq<T>)
    requires SubseqOf(a, b) && SubseqOf(b, c)
    ensures SubseqOf(a, c)
    decreases |c|
  {
    if a == [] {
    } else if c == [] {
    } else if b[0] == c[0] {
      if a[0] == b[0] {
        SubseqTrans(a[1..], b[1..], c[1..]);
      } else {
        SubseqTrans(a, b[1..], c[1..]);
      }
    } else {
      SubseqTrans(a, b, c[1..]);
      if a[0] == c[0] {
        SubseqDropHead(a, c[1..]);
      }
    }
  }

  /** Deleting the element at index `k` leaves a subsequence. */
  lemma {:induction false} SubseqRemoveAt<T>(s: seq<T>, k: nat)
    requires k < |s|
    ensures SubseqOf(s[..k] + s[k + 1..], s)
  {
    if k == 0 {
      assert s[..0] + s[1..] == s[1..];
      SubseqRefl(s[1..]);
      SubseqSkip(s[1..], s[1..], s[0]);
      assert [s[0]] + s[1..] == s;
    } else {
      var rest := s[1..][..k - 1] + s[1..][k..];
      SubseqRemoveAt(s[1..], k - 1);
      assert s[..k] + s[k + 1..] == [s[0]] + rest;
      assert ([s[0]] + rest)[1..] == rest;
    }
  }

  /** The elements of `s` satisfying `p`, in order: a boolean mask. */
  function Keep<T>(s: seq<T>, p: T -> bool): (kept: seq<T>)
    ensures |kept| <= |s|
    ensures forall x | x in kept :: x in s && p(x)
  {
    if s == [] then []
    else (if p(s[0]) then [s[0]] else []) + Keep(s[1..], p)
  }

  /** A mask keeps exactly the elements that satisfy it, in their order. */
  lemma {:induction false} KeepMembers<T>(s: seq<T>, p: T -> bool)
    ensures forall x :: x in Keep(s, p) <==> x in s && p(x)
    ensures SubseqOf(Keep(s, p), s)
  {
    if s != [] {
      KeepMembers(s[1..], p);
      var k := Keep(s, p);
      if p(s[0]) {
        assert k == [s[0]] + Keep(s[1..], p);
        assert k[1..] == Keep(s[1..], p);
      } else {
        assert k == Keep(s[1..], p);
      }
    }
  }

  /** A mask keeps each element that satisfies it as often as it occurs,
      and no other. */
  lemma {:induction false} KeepCount<T>(s: seq<T>, p: T -> bool)
    ensures forall x :: multiset(Keep(s, p))[x] == if p(x) then multiset(s)[x] else 0
  {
    if s != [] {
      KeepCount(s[1..], p);
      assert s == [s[0]] + s[1..];
      assert multiset(s) == multiset([s[0]]) + multiset(s[1..]);
      if p(s[0]) {
        assert Keep(s, p) == [s[0]] + Keep(s[1..], p);
      } else {
        assert Keep(s, p) == Keep(s[1..], p);
      }
    }
  }

  /** A mask keeps exactly the elements that satisfy it, in their order,
      each as often as it occurs. */
  lemma KeepExact<T>(s: seq<T>, p: T -> bool)
    ensures forall x :: x in Keep(s, p) <==> x in s && p(x)
    ensures forall x :: multiset(Keep(s, p))[x] == if p(x) then multiset(s)[x] else 0
    ensures SubseqOf(Keep(s, p), s)
  {
    KeepMembers(s, p);
    KeepCount(s, p);
  }

  /** The positions from `lo` on of the elements of `s` that satisfy `p`. */
  function PositionsFrom<T>(s: seq<T>, p: T -> bool, lo: nat): (ix: seq<nat>)
    requires lo <= |s|
    ensures forall k | 0 <= k < |ix| :: lo <= ix[k] < |s|
    decreases |s| - lo
  {
    if lo == |s| then [] else (if p(s[lo]) then [lo] else []) + PositionsFrom(s, p, lo + 1)
  }

  /** The positions of the elements of `s` that satisfy `p`. */
  function Positions<T>(s: seq<T>, p: T -> bool): (ix: seq<nat>)
    ensures forall k | 0 <= k < |ix| :: ix[k] < |s|
  {
    PositionsFrom(s, p, 0)
  }

  /** The positions are ascending and name exactly the elements that
      satisfy the mask. */
  lemma PositionsExact<T>(s: seq<T>, p: T -> bool)
    ensures var ix := Positions(s, p);
      && (forall k, l | 0 <= k < l < |ix| :: ix[k] < ix[l])
      && forall i | 0 <= i < |s| :: i in ix <==> p(s[i])
  {
    PositionsFromExact(s, p, 0);
  }

  lemma PositionsFromExact<T>(s: seq<T>, p: T -> bool, lo: nat)
    requires lo <= |s|
    ensures var ix := PositionsFrom(s, p, lo);
      && (forall k, l | 0 <= k < l < |ix| :: ix[k] < ix[l])
      && forall i | lo <= i < |s| :: i in ix <==> p(s[i])
  {
    PositionsFromAscending(s, p, lo);
    PositionsFromMembers(s, p, lo);
  }

  lemma {:induction false} PositionsFromAscending<T>(s: seq<T>, p: T -> bool, lo: nat)
    requires lo <= |s|
    ensures var ix := PositionsFrom(s, p, lo);
      forall k, l | 0 <= k < l < |ix| :: ix[k] < ix[l]
    decreases |s| - lo
  {
    if lo < |s| && p(s[lo]) {
      PositionsFromAscending(s, p, lo + 1);
      var rest := PositionsFrom(s, p, lo + 1);
      var ix := PositionsFrom(s, p, lo);
      assert ix == [lo] + rest;
      forall k, l | 0 <= k < l < |ix| ensures ix[k] < ix[l] {
        assert ix[l] == rest[l - 1] && lo < rest[l - 1];
        if k > 0 {
          assert ix[k] == rest[k - 1];
        }
      }
    } else if lo < |s| {
      PositionsFromAscending(s, p, lo + 1);
      assert PositionsFrom(s, p, lo) == PositionsFrom(s, p, lo + 1);
    }
  }

  lemma {:induction false} PositionsFromMembers<T>(s: seq<T>, p: T -> bool, lo: nat)
    requires lo <= |s|
    ensures var ix := PositionsFrom(s, p, lo);
      forall i | lo <= i < |s| :: i in ix <==> p(s[i])
    decreases |s| - lo
  {
    if lo < |s| {
      PositionsFromMembers(s, p, lo + 1);
      var rest := PositionsFrom(s, p, lo + 1);
      var ix := PositionsFrom(s, p, lo);
      assert lo !in rest;
      assert ix == (if p(s[lo]) then [lo] else []) + rest;
    }
  }

  /** Element `k` of what a mask keeps is element `Positions(s, p)[k]` of
      `s`: the positions say which elements are kept, and in which order. */
  lemma KeepAt<T>(s: seq<T>, p: T -> bool)
    ensures |Keep(s, p)| == |Positions(s, p)|
    ensures forall k | 0 <= k < |Keep(s, p)| :: Keep(s, p)[k] == s[Positions(s, p)[k]]
  {
    KeepAtFrom(s, p, 0);
    assert s[0..] == s;
  }

  lemma {:induction false} KeepAtFrom<T>(s: seq<T>, p: T -> bool, lo: nat)
    requires lo <= |s|
    ensures |Keep(s[lo..], p)| == |PositionsFrom(s, p, lo)|
    ensures forall k | 0 <= k < |Keep(s[lo..], p)| :: Keep(s[lo..], p)[k] == s[PositionsFrom(s, p, lo)[k]]
    decreases |s| - lo
  {
    if lo < |s| {
      KeepAtFrom(s, p, lo + 1);
      var tl := Keep(s[lo + 1..], p);
      var ix := PositionsFrom(s, p, lo + 1);
      assert s[lo..][0] == s[lo] && s[lo..][1..] == s[lo + 1..];
      if p(s[lo]) {
        assert Keep(s[lo..], p) == [s[lo]] + tl;
        assert PositionsFrom(s, p, lo) == [lo] + ix;
      } else {
        assert Keep(s[lo..], p) == tl;
        assert PositionsFrom(s, p, lo) == ix;
      }
    }
  }

  /** Two sequences of the same length whose masks agree position by
      position have the same positions. */
  lemma PositionsAgree<T, U>(a: seq<T>, p: T -> bool, b: seq<U>, q: U -> bool)
    requires |a| == |b| && forall i | 0 <= i < |a| :: p(a[i]) == q(b[i])
    ensures Positions(a, p) == Positions(b, q)
  {
    PositionsAgreeFrom(a, p, b, q, 0);
  }

  lemma {:induction false} PositionsAgreeFrom<T, U>(a: seq<T>, p: T -> bool, b: seq<U>, q: U -> bool, lo: nat)
    requires |a| == |b| && lo <= |a| && forall i | 0 <= i < |a| :: p(a[i]) == q(b[i])
    ensures PositionsFrom(a, p, lo) == PositionsFrom(b, q, lo)
    decreases |a| - lo
  {
    if lo < |a| {
      PositionsAgreeFrom(a, p, b, q, lo + 1);
    }
  }

  /** Applying the same mask twice is applying it once. */
  lemma {:induction false} KeepIdempotent<T>(s: seq<T>, p: T -> bool)
    ensures Keep(Keep(s, p), p) == Keep(s, p)
  {
    if s != [] {
      KeepIdempotent(s[1..], p);
      var k := Keep(s, p);
      if p(s[0]) {
        assert k == [s[0]] + Keep(s[1..], p);
        assert k[0] == s[0] && k[1..] == Keep(s[1..], p);
      } else {
        assert k == Keep(s[1..], p);
      }
    }
  }

  /** Two masks in a row are one mask with their conjunction. */
  lemma {:induction false} KeepBoth<T>(s: seq<T>, p: T -> bool, q: T -> bool, pq: T -> bool)
    requires forall x :: pq(x) == (p(x) && q(x))
    ensures Keep(Keep(s, p), q) == Keep(s, pq)
  {
    if s != [] {
      KeepBoth(s[1..], p, q, pq);
      var k := Keep(s, p);
      if p(s[0]) {
        assert k == [s[0]] + Keep(s[1..], p);
        assert k[0] == s[0] && k[1..] == Keep(s[1..], p);
      } else {
        assert k == Keep(s[1..], p);
      }
      assert Keep(s, pq) == (if pq(s[0]) then [s[0]] else []) + Keep(s[1..], pq);
    }
  }

  lemma {:induction false} KeepNoDup<T>(s: seq<T>, p: T -> bool)
    requires NoDup(s)
    ensures NoDup(Keep(s, p))
  {
    if s != [] {
      assert NoDup(s[1..]) by {
        forall i, j | 0 <= i < j < |s[1..]| ensures s[1..][i] != s[1..][j] {
          assert s[1..][i] == s[i + 1] && s[1..][j] == s[j + 1];
        }
      }
      KeepNoDup(s[1..], p);
      var k := Keep(s, p);
      if p(s[0]) {
        assert k == [s[0]] + Keep(s[1..], p);
        assert s[0] !in s[1..];
        forall i, j | 0 <= i < j < |k| ensures k[i] != k[j] {
          if i == 0 {
            assert k[j] in Keep(s[1..], p);
          } else {
            assert k[i] == Keep(s[1..], p)[i - 1] && k[j] == Keep(s[1..], p)[j - 1];
          }
        }
      }
    }
  }

  // ---------------------------------------------------------------------
  // Column selection: `df[cols]`

  function Restrict(r: Row, cols: seq<Col>): Row {
    map c | c in r && c in cols :: r[c]
  }

  /** `df[cols]` once every listed column is known to exist. */
  function Select(t: Table, cols: seq<Col>): (s: Table)
    requires WellFormed(t) && NoDup(cols)
    requires forall c | c in cols :: c in t.columns
    ensures WellFormed(s) && s.columns == cols && |s.rows| == |t.rows|
    ensures forall i, c | 0 <= i < |t.rows| && c in cols :: s.rows[i][c] == t.rows[i][c]
  {
    var s := Table(cols, seq(|t.rows|, i requires 0 <= i < |t.rows| => Restrict(t.rows[i], cols)));
    assert forall r | r in s.rows :: r.Keys == ColumnSet(cols) by {
      forall r | r in s.rows ensures r.Keys == ColumnSet(cols) {
        var i :| 0 <= i < |s.rows| && s.rows[i] == r;
        assert t.rows[i] in t.rows;
      }
    }
    s
  }

  function Absent(t: Table, cols: seq<Col>): (r: seq<Col>)
    ensures forall c :: c in r <==> c in cols && c !in t.columns
  {
    if cols == [] then []
    else (if cols[0] in t.columns then [] else [cols[0]]) + Absent(t, cols[1..])
  }

  /** `df[cols]`: exactly the listed columns in the listed order, every row
      kept with its values; any listed column the frame lacks is a KeyError. */
  function Project(t: Table, cols: seq<Col>): (r: Result<Table, KeyError>)
    requires WellFormed(t) && NoDup(cols)
    ensures r.Err? <==> exists c :: c in cols && c !in t.columns
    ensures r.Err? ==> forall c :: c in r.error.absent <==> c in cols && c !in t.columns
    ensures r.Ok? ==> && WellFormed(r.value) && r.value.columns == cols
                      && |r.value.rows| == |t.rows|
                      && forall i, c | 0 <= i < |t.rows| && c in cols :: r.value.rows[i][c] == t.rows[i][c]
  {
    var absent := Absent(t, cols);
    if absent != [] then
      assert absent[0] in absent;
      Err(KeyError(absent))
    else
      Ok(Select(t, cols))
  }

  // ---------------------------------------------------------------------
  // Column assignment: `df[name] = values`

  /** `df[name] = values`: an existing column is overwritten where it
      stands, a new one is appended on the right. */
  function WithColumn(t: Table, name: Col, values: seq<Cell>): (r: Table)
    requires WellFormed(t) && |values| == |t.rows|
    ensures WellFormed(r) && |r.rows| == |t.rows|
    ensures r.columns == if name in t.columns then t.columns else t.columns + [name]
  {
    var cols := if name in t.columns then t.columns else t.columns + [name];
    var r := Table(cols, seq(|t.rows|, i requires 0 <= i < |t.rows| => t.rows[i][name := values[i]]));
    assert ColumnSet(cols) == ColumnSet(t.columns) + {name};
    assert forall x | x in r.rows :: x.Keys == ColumnSet(cols) by {
      forall x | x in r.rows ensures x.Keys == ColumnSet(cols) {
        var i :| 0 <= i < |r.rows| && r.rows[i] == x;
        assert t.rows[i] in t.rows;
      }
    }
    r
  }

  // ---------------------------------------------------------------------
  // Row filters: `df[mask]`, `dropna`

  /** Row by row, an assignment is a map update: the named column takes the
      new values and every other column keeps its cells. */
  lemma WithColumnRows(t: Table, name: Col, values: seq<Cell>)
    requires WellFormed(t) && |values| == |t.rows|
    ensures forall i | 0 <= i < |t.rows| :: WithColumn(t, name, values).rows[i] == t.rows[i][name := values[i]]
    ensures forall i | 0 <= i < |t.rows| :: WithColumn(t, name, values).rows[i][name] == values[i]
    ensures forall i, c | 0 <= i < |t.rows| && c in t.columns && c != name ::
              WithColumn(t, name, values).rows[i][c] == t.rows[i][c]
  {
  }

  lemma WithColumnRow(t: Table, name: Col, values: seq<Cell>, i: nat)
    requires WellFormed(t) && |values| == |t.rows| && i < |t.rows|
    ensures WithColumn(t, name, values).rows[i] == t.rows[i][name := values[i]]
  {
  }

  function Where(t: Table, p: Row -> bool): (r: Table)
    requires WellFormed(t)
    ensures WellFormed(r) && r.columns == t.columns
  {
    var r := Table(t.columns, Keep(t.rows, p));
    WellFormedByMembership(r);
    r
  }

  /** No cell of `subset` is missing. */
  predicate Complete(r: Row, subset: seq<Col>) {
    forall c | c in subset :: c in r && !r[c].Missing?
  }

  function CompleteOn(subset: seq<Col>): Row -> bool {
    r => Complete(r, subset)
  }

  /** `df.dropna(subset=...)`; plain `dropna()` is `subset = df.columns`.
      Only NaN counts as missing: an infinite cell survives. */
  function DropNa(t: Table, subset: seq<Col>): (r: Table)
    requires WellFormed(t)
    ensures WellFormed(r) && r.columns == t.columns
  {
    Where(t, CompleteOn(subset))
  }

  /** `dropna` keeps exactly the complete rows, in their order. */
  lemma DropNaMembers(t: Table, subset: seq<Col>)
    requires WellFormed(t)
    ensures forall r :: r in DropNa(t, subset).rows <==> r in t.rows && Complete(r, subset)
    ensures SubseqOf(DropNa(t, subset).rows, t.rows)
  {
    var p := CompleteOn(subset);
    assert DropNa(t, subset).rows == Keep(t.rows, p);
    KeepMembers(t.rows, p);
    assert forall r :: p(r) == Complete(r, subset);
  }

  /** `dropna` keeps exactly the complete rows, each as often as it occurs,
      in their order. */
  lemma DropNaExact(t: Table, subset: seq<Col>)
    requires WellFormed(t)
    ensures forall r :: r in DropNa(t, subset).rows <==> r in t.rows && Complete(r, subset)
    ensures forall r :: multiset(DropNa(t, subset).rows)[r] == if Complete(r, subset) then multiset(t.rows)[r] else 0
    ensures SubseqOf(DropNa(t, subset).rows, t.rows)
  {
    var p := CompleteOn(subset);
    assert DropNa(t, subset).rows == Keep(t.rows, p);
    DropNaMembers(t, subset);
    KeepCount(t.rows, p);
    assert forall r :: p(r) == Complete(r, subset);
  }

  // ---------------------------------------------------------------------
  // Keys: first occurrences, `drop_duplicates(subset=[key])`

  /** Index of the first row whose `key` cell is `v`; `|rows|` if none. */
  function Find(rows: seq<Row>, key: Col, v: Cell): (i: nat)
    requires HasKey(rows, key)
    ensures i <= |rows|
    ensures i < |rows| ==> rows[i][key] == v
    ensures forall j | 0 <= j < i :: rows[j][key] != v
  {
    if rows == [] then 0
    else if rows[0][key] == v then 0
    else 1 + Find(rows[1..], key, v)
  }

  predicate UniqueKey(rows: seq<Row>, key: Col)
    requires HasKey(rows, key)
  {
    forall i, j | 0 <= i < j < |rows| :: rows[i][key] != rows[j][key]
  }

  /** Keep-first de-duplication on `key`, skipping keys already in `seen`. */
  function DedupFrom(rows: seq<Row>, key: Col, seen: set<Cell>): (r: seq<Row>)
    requires HasKey(rows, key)
    ensures |r| <= |rows|
    ensures forall x | x in r :: x in rows
  {
    if rows == [] then []
    else if rows[0][key] in seen then DedupFrom(rows[1..], key, seen)
    else [rows[0]] + DedupFrom(rows[1..], key, seen + {rows[0][key]})
  }

  /** The keys de-duplication keeps are unique and none was seen before. */
  lemma {:induction false} DedupUnique(rows: seq<Row>, key: Col, seen: set<Cell>)
    requires HasKey(rows, key)
    ensures HasKey(DedupFrom(rows, key, seen), key)
    ensures UniqueKey(DedupFrom(rows, key, seen), key)
    ensures forall x | x in DedupFrom(rows, key, seen) :: x[key] !in seen
  {
    var d := DedupFrom(rows, key, seen);
    if rows != [] && rows[0][key] !in seen {
      var h := rows[0];
      var d' := DedupFrom(rows[1..], key, seen + {h[key]});
      DedupUnique(rows[1..], key, seen + {h[key]});
      assert d == [h] + d';
      forall i, j | 0 <= i < j < |d| ensures d[i][key] != d[j][key] {
        if i == 0 {
          assert d[j] in d';
        } else {
          assert d[i] == d'[i - 1] && d[j] == d'[j - 1];
        }
      }
      forall x | x in d ensures x[key] !in seen {
        if x != h {
          assert x in d';
        }
      }
    } else if rows != [] {
      DedupUnique(rows[1..], key, seen);
    }
  }

  lemma {:induction false} DedupSubseq(rows: seq<Row>, key: Col, seen: set<Cell>)
    requires HasKey(rows, key)
    ensures SubseqOf(DedupFrom(rows, key, seen), rows)
  {
    if rows != [] {
      var h := rows[0];
      var tl := rows[1..];
      if h[key] in seen {
        DedupSubseq(tl, key, seen);
        SubseqSkip(DedupFrom(tl, key, seen), tl, h);
        assert [h] + tl == rows;
      } else {
        var d := DedupFrom(rows, key, seen);
        DedupSubseq(tl, key, seen + {h[key]});
        assert d == [h] + DedupFrom(tl, key, seen + {h[key]});
        assert d[0] == rows[0] && d[1..] == DedupFrom(tl, key, seen + {h[key]});
      }
    }
  }

  /** Past a first row with another key, `Find` searches the rest. */
  lemma FindSkip(rows: seq<Row>, key: Col, v: Cell)
    requires HasKey(rows, key) && rows != [] && rows[0][key] != v
    ensures Find(rows, key, v) == 1 + Find(rows[1..], key, v)
  {
  }

  /** Every row de-duplication keeps is the first row of its key. */
  lemma {:induction false} DedupKeepsFirst(rows: seq<Row>, key: Col, seen: set<Cell>)
    requires HasKey(rows, key)
    ensures forall x | x in DedupFrom(rows, key, seen) :: x == rows[Find(rows, key, x[key])]
  {
    if rows != [] {
      var h := rows[0];
      var tl := rows[1..];
      var seen' := if h[key] in seen then seen else seen + {h[key]};
      var rest := DedupFrom(tl, key, seen');
      DedupKeepsFirst(tl, key, seen');
      DedupUnique(tl, key, seen');
      forall x | x in rest ensures x == rows[Find(rows, key, x[key])] {
        assert x[key] != h[key];
        FindSkip(rows, key, x[key]);
      }
      if h[key] !in seen {
        assert DedupFrom(rows, key, seen) == [h] + rest;
      }
    }
  }

  /** The first row of every key not seen before is kept. */
  lemma {:induction false} DedupKeepsEveryKey(rows: seq<Row>, key: Col, seen: set<Cell>)
    requires HasKey(rows, key)
    ensures forall i | 0 <= i < |rows| && Find(rows, key, rows[i][key]) == i && rows[i][key] !in seen
      :: rows[i] in DedupFrom(rows, key, seen)
  {
    var d := DedupFrom(rows, key, seen);
    if rows != [] {
      var h := rows[0];
      var tl := rows[1..];
      var seen' := if h[key] in seen then seen else seen + {h[key]};
      DedupKeepsEveryKey(tl, key, seen');
      assert d == if h[key] in seen then DedupFrom(tl, key, seen') else [h] + DedupFrom(tl, key, seen');
      forall i | 0 <= i < |rows| && Find(rows, key, rows[i][key]) == i && rows[i][key] !in seen
        ensures rows[i] in d
      {
        if i > 0 {
          assert rows[i] == tl[i - 1];
          assert Find(tl, key, tl[i - 1][key]) == i - 1;
        }
      }
    }
  }

  /** `df.drop_duplicates(subset=[key], keep='first')`. A missing key is a
      key like any other: the first row without one is kept. */
  function DropDuplicates(t: Table, key: Col): (r: Table)
    requires WellFormed(t) && key in t.columns
    ensures WellFormed(r) && r.columns == t.columns
  {
    var r := Table(t.columns, DedupFrom(t.rows, key, {}));
    WellFormedByMembership(r);
    r
  }

  // ---------------------------------------------------------------------
  // Column drops and renames

  function NotListed(names: seq<Col>): Col -> bool {
    c => c !in names
  }

  /** `df.drop(columns=names, errors="ignore")`: listed columns that exist
      are removed, absent ones are skipped, the rest keep their order. */
  function DropColumns(t: Table, names: seq<Col>): (r: Table)
    requires WellFormed(t)
    ensures WellFormed(r) && |r.rows| == |t.rows|
    ensures forall c :: c in r.columns <==> c in t.columns && c !in names
    ensures SubseqOf(r.columns, t.columns)
    ensures forall i, c | 0 <= i < |t.rows| && c in r.columns :: r.rows[i][c] == t.rows[i][c]
  {
    var kept := Keep(t.columns, NotListed(names));
    KeepNoDup(t.columns, NotListed(names));
    KeepMembers(t.columns, NotListed(names));
    Select(t, kept)
  }

  /** Position of `x` in `s`; `|s|` if absent. */
  function IndexOf<T(==)>(s: seq<T>, x: T): (i: nat)
    ensures i <= |s|
    ensures i < |s| <==> x in s
    ensures i < |s| ==> s[i] == x
    ensures forall j | 0 <= j < i :: s[j] != x
  {
    if s == [] then 0
    else if s[0] == x then 0
    else 1 + IndexOf(s[1..], x)
  }

  function NewName(renames: map<Col, Col>, c: Col): Col {
    if c in renames then renames[c] else c
  }

  function RenamedColumns(renames: map<Col, Col>, cols: seq<Col>): (r: seq<Col>)
    ensures |r| == |cols|
  {
    seq(|cols|, i requires 0 <= i < |cols| => NewName(renames, cols[i]))
  }

  /** `df.rename(columns=renames)`: each column keeps its position and its
      cells under its new name; names not listed stay as they are. */
  function Rename(t: Table, renames: map<Col, Col>): (r: Table)
    requires WellFormed(t) && NoDup(RenamedColumns(renames, t.columns))
    ensures WellFormed(r) && |r.rows| == |t.rows|
    ensures r.columns == RenamedColumns(renames, t.columns)
    ensures forall i, k | 0 <= i < |t.rows| && 0 <= k < |t.columns|
              :: r.rows[i][r.columns[k]] == t.rows[i][t.columns[k]]
  {
    var cols := RenamedColumns(renames, t.columns);
    var rows := RenamedRows(t.rows, t.columns, cols);
    var r := Table(cols, rows);
    assert forall x | x in rows :: forall d :: d in x <==> d in cols by {
      forall x | x in rows ensures forall d :: d in x <==> d in cols {
        var i :| 0 <= i < |rows| && rows[i] == x;
      }
    }
    WellFormedByMembership(r);
    r
  }

  /** Every row under the new names: the cell of `cols[k]` is the old
      cell of `from[k]`. */
  function RenamedRows(rows: seq<Row>, from: seq<Col>, cols: seq<Col>): (r: seq<Row>)
    requires |cols| == |from| && NoDup(cols)
    requires forall i, k | 0 <= i < |rows| && 0 <= k < |from| :: from[k] in rows[i]
    ensures |r| == |rows|
    ensures forall i, d | 0 <= i < |r| :: d in r[i] <==> d in cols
    ensures forall i, k | 0 <= i < |rows| && 0 <= k < |cols| ::
              cols[k] in r[i] && r[i][cols[k]] == rows[i][from[k]]
  {
    var r := seq(|rows|, i requires 0 <= i < |rows| => RenamedRow(rows[i], cols, from));
    assert forall i, k | 0 <= i < |rows| && 0 <= k < |cols| ::
             cols[k] in r[i] && r[i][cols[k]] == rows[i][from[k]] by {
      forall i, k | 0 <= i < |rows| && 0 <= k < |cols|
        ensures cols[k] in r[i] && r[i][cols[k]] == rows[i][from[k]] {
        RenamedRowAt(rows[i], cols, from, k);
      }
    }
    r
  }

  /** One row under the new names: the cell of `cols[k]` is the old row's
      cell of `from[k]`. */
  function RenamedRow(r: Row, cols: seq<Col>, from: seq<Col>): (x: Row)
    requires |cols| == |from| && forall k | 0 <= k < |from| :: from[k] in r
    ensures forall d :: d in x <==> d in cols
  {
    map d | d in cols :: r[from[IndexOf(cols, d)]]
  }

  lemma RenamedRowAt(r: Row, cols: seq<Col>, from: seq<Col>, k: nat)
    requires |cols| == |from| && (forall j | 0 <= j < |from| :: from[j] in r) && NoDup(cols) && k < |cols|
    ensures RenamedRow(r, cols, from)[cols[k]] == r[from[k]]
  {
    assert IndexOf(cols, cols[k]) == k;
  }

  // ---------------------------------------------------------------------
  // Left merge: `pd.merge(left, right, on=key, how='left')`

  function KeyIs(key: Col, v: Cell): Row -> bool {
    r => key in r && r[key] == v
  }

  /** A left row joined with a matching right row (the key is the left's). */
  function Joined(l: Row, m: Row, key: Col): Row {
    l + (m - {key})
  }

  /** A left row with no match: every right-only column is missing. */
  function Unmatched(l: Row, rightCols: seq<Col>, key: Col): Row {
    l + map c | c in rightCols && c != key :: Missing
  }

  /** The rows a left merge makes of one left row: one per matching right
      row, in right order, or one with missing right columns. */
  function MergeOne(l: Row, right: seq<Row>, key: Col, rightCols: seq<Col>): seq<Row>
    requires key in l
  {
    var ms := Keep(right, KeyIs(key, l[key]));
    if ms == [] then [Unmatched(l, rightCols, key)]
    else seq(|ms|, k requires 0 <= k < |ms| => Joined(l, ms[k], key))
  }

  /** pandas' left merge, row by row. */
  function MergeRows(left: seq<Row>, right: seq<Row>, key: Col, rightCols: seq<Col>): seq<Row>
    requires HasKey(left, key)
  {
    if left == [] then []
    else
      assert left[0] in left;
      MergeOne(left[0], right, key, rightCols) + MergeRows(left[1..], right, key, rightCols)
  }

  lemma JoinedKeys(l: Row, m: Row, key: Col)
    ensures Joined(l, m, key).Keys == l.Keys + (m.Keys - {key})
  {
  }

  lemma UnmatchedKeys(l: Row, rightCols: seq<Col>, key: Col)
    ensures Unmatched(l, rightCols, key).Keys == l.Keys + (ColumnSet(rightCols) - {key})
  {
    var u := Unmatched(l, rightCols, key);
    forall c ensures c in u.Keys <==> c in l.Keys + (ColumnSet(rightCols) - {key}) {
    }
  }

  lemma MergeOneKeys(l: Row, right: seq<Row>, key: Col, rightCols: seq<Col>)
    requires key in l
    requires forall x | x in right :: x.Keys == ColumnSet(rightCols)
    ensures forall x | x in MergeOne(l, right, key, rightCols)
              :: x.Keys == l.Keys + (ColumnSet(rightCols) - {key})
  {
    var ms := Keep(right, KeyIs(key, l[key]));
    var one := MergeOne(l, right, key, rightCols);
    if ms == [] {
      UnmatchedKeys(l, rightCols, key);
    } else {
      forall x | x in one ensures x.Keys == l.Keys + (ColumnSet(rightCols) - {key}) {
        var k :| 0 <= k < |ms| && x == Joined(l, ms[k], key);
        assert ms[k] in ms;
        KeepMembers(right, KeyIs(key, l[key]));
        JoinedKeys(l, ms[k], key);
      }
    }
  }

  lemma {:induction false} MergeRowsKeys(left: seq<Row>, right: seq<Row>, key: Col,
                                         rightCols: seq<Col>, lk: set<Col>)
    requires HasKey(left, key)
    requires forall x | x in left :: x.Keys == lk
    requires forall x | x in right :: x.Keys == ColumnSet(rightCols)
    ensures forall x | x in MergeRows(left, right, key, rightCols)
              :: x.Keys == lk + (ColumnSet(rightCols) - {key})
  {
    if left != [] {
      assert left[0] in left;
      MergeRowsKeys(left[1..], right, key, rightCols, lk);
      MergeOneKeys(left[0], right, key, rightCols);
    }
  }

  function Others(cols: seq<Col>, key: Col): seq<Col> {
    Keep(cols, NotListed([key]))
  }

  lemma NoDupJoin(a: seq<Col>, b: seq<Col>)
    requires NoDup(a) && NoDup(b)
    requires forall c | c in b :: c !in a
    ensures NoDup(a + b)
  {
    forall i, j | 0 <= i < j < |a + b| ensures (a + b)[i] != (a + b)[j] {
      if i < |a| && j >= |a| {
        assert (a + b)[j] in b;
      }
    }
  }

  /** `pd.merge(left, right, on=key, how='left')`: left columns, then the
      right's columns other than the key. */
  function LeftMerge(left: Table, right: Table, key: Col): (m: Table)
    requires WellFormed(left) && WellFormed(right)
    requires key in left.columns && key in right.columns
    requires forall c | c in right.columns && c != key :: c !in left.columns
    ensures WellFormed(m)
    ensures m.columns == left.columns + Others(right.columns, key)
  {
    var others := Others(right.columns, key);
    KeepMembers(right.columns, NotListed([key]));
    KeepNoDup(right.columns, NotListed([key]));
    NoDupJoin(left.columns, others);
    MergeRowsKeys(left.rows, right.rows, key, right.columns, ColumnSet(left.columns));
    assert ColumnSet(left.columns + others) == ColumnSet(left.columns) + (ColumnSet(right.columns) - {key});
    Table(left.columns + others, MergeRows(left.rows, right.rows, key, right.columns))
  }

  /** Against right rows with a unique key, a key matches at most the row
      `Find` locates. */
  lemma {:induction false} MatchUnique(right: seq<Row>, key: Col, v: Cell)
    requires HasKey(right, key) && UniqueKey(right, key)
    ensures var f := Find(right, key, v);
      Keep(right, KeyIs(key, v)) == if f < |right| then [right[f]] else []
  {
    if right != [] {
      var tl := right[1..];
      UniqueTail(right, key);
      MatchUnique(tl, key, v);
      if right[0][key] == v {
        NoMatchInTail(right, key);
        assert Keep(tl, KeyIs(key, v)) == [];
      }
    }
  }

  lemma UniqueTail(rows: seq<Row>, key: Col)
    requires rows != [] && HasKey(rows, key) && UniqueKey(rows, key)
    ensures HasKey(rows[1..], key) && UniqueKey(rows[1..], key)
  {
    var tl := rows[1..];
    forall i, j | 0 <= i < j < |tl| ensures tl[i][key] != tl[j][key] {
      assert tl[i] == rows[i + 1] && tl[j] == rows[j + 1];
    }
  }

  /** A mask keeps keys unique. */
  lemma {:induction false} KeepUniqueKey(rows: seq<Row>, p: Row -> bool, key: Col)
    requires HasKey(rows, key) && UniqueKey(rows, key)
    ensures HasKey(Keep(rows, p), key) && UniqueKey(Keep(rows, p), key)
  {
    if rows != [] {
      var tl := rows[1..];
      UniqueTail(rows, key);
      KeepUniqueKey(tl, p, key);
      var k := Keep(rows, p);
      var kt := Keep(tl, p);
      if p(rows[0]) {
        assert k == [rows[0]] + kt;
        forall i, j | 0 <= i < j < |k| ensures k[i][key] != k[j][key] {
          assert k[j] == kt[j - 1];
          if i == 0 {
            assert kt[j - 1] in tl;
            var n :| 0 <= n < |tl| && tl[n] == kt[j - 1];
            assert rows[n + 1] == k[j];
          } else {
            assert k[i] == kt[i - 1];
          }
        }
      }
    }
  }

  /** `Find` reads nothing but the key column. */
  lemma FindSameKeys(a: seq<Row>, b: seq<Row>, key: Col, v: Cell)
    requires HasKey(a, key) && HasKey(b, key) && |a| == |b|
    requires forall i | 0 <= i < |a| :: a[i][key] == b[i][key]
    ensures Find(a, key, v) == Find(b, key, v)
  {
    var i, j := Find(a, key, v), Find(b, key, v);
    assert i < |a| ==> b[i][key] == v;
    assert j < |b| ==> a[j][key] == v;
  }

  /** With unique keys no later row shares the first row's key. */
  lemma NoMatchInTail(rows: seq<Row>, key: Col)
    requires rows != [] && HasKey(rows, key) && UniqueKey(rows, key)
    ensures Find(rows[1..], key, rows[0][key]) == |rows| - 1
  {
  }

  /** The row a left merge makes of `l` when the right side has a unique
      key: joined with its match, or with missing right-only cells. */
  function MergedRow(l: Row, right: seq<Row>, key: Col, rightCols: seq<Col>): Row
    requires key in l && HasKey(right, key)
  {
    var f := Find(right, key, l[key]);
    if f < |right| then Joined(l, right[f], key) else Unmatched(l, rightCols, key)
  }

  /** A left merge against a right side with a unique key keeps every left
      row exactly once and in order, extended by its match or by missing
      cells. */
  /** Against a unique right key the first left row yields exactly one
      merged row. */
  lemma MergeRowsHead(left: seq<Row>, right: seq<Row>, key: Col, rightCols: seq<Col>)
    requires left != [] && HasKey(left, key) && HasKey(right, key) && UniqueKey(right, key)
    ensures key in left[0]
    ensures MergeRows(left, right, key, rightCols)
            == [MergedRow(left[0], right, key, rightCols)] + MergeRows(left[1..], right, key, rightCols)
  {
    assert left[0] in left;
    MatchUnique(right, key, left[0][key]);
    var f := Find(right, key, left[0][key]);
    if f < |right| {
      assert MergeOne(left[0], right, key, rightCols) == [Joined(left[0], right[f], key)];
    }
  }

  lemma {:induction false} MergeUnique(left: seq<Row>, right: seq<Row>, key: Col, rightCols: seq<Col>)
    requires HasKey(left, key) && HasKey(right, key) && UniqueKey(right, key)
    ensures var m := MergeRows(left, right, key, rightCols);
      && |m| == |left|
      && forall i | 0 <= i < |left| :: left[i] in left && m[i] == MergedRow(left[i], right, key, rightCols)
  {
    if left != [] {
      var rest := MergeRows(left[1..], right, key, rightCols);
      MergeUnique(left[1..], right, key, rightCols);
      MergeRowsHead(left, right, key, rightCols);
      var m := [MergedRow(left[0], right, key, rightCols)] + rest;
      forall i | 0 <= i < |left| ensures left[i] in left && m[i] == MergedRow(left[i], right, key, rightCols) {
        if i > 0 {
          assert left[i] == left[1..][i - 1] && m[i] == rest[i - 1];
        }
      }
    }
  }

  // ---------------------------------------------------------------------
  // Group keys: `groupby(key)` with the default `dropna=True`

  function KeyColumn(rows: seq<Row>, key: Col): (ks: seq<Cell>)
    requires HasKey(rows, key)
    ensures |ks| == |rows|
  {
    seq(|rows|, i requires 0 <= i < |rows| => rows[i][key])
  }

  /** The distinct non-missing keys, in order of first appearance. */
  function GroupKeys(rows: seq<Row>, key: Col): seq<Cell>
    requires HasKey(rows, key)
  {
    DedupUnique(rows, key, {Missing});
    KeyColumn(DedupFrom(rows, key, {Missing}), key)
  }

  /** Every present key value appears exactly once among the group keys,
      and nothing else does. */
  lemma GroupKeysExact(rows: seq<Row>, key: Col)
    requires HasKey(rows, key)
    ensures NoDup(GroupKeys(rows, key))
    ensures forall v :: v in GroupKeys(rows, key) <==> v != Missing && Find(rows, key, v) < |rows|
  {
    GroupKeysDistinct(rows, key);
    GroupKeysSound(rows, key);
    GroupKeysComplete(rows, key);
  }

  lemma GroupKeysDistinct(rows: seq<Row>, key: Col)
    requires HasKey(rows, key)
    ensures NoDup(GroupKeys(rows, key))
  {
    var d := DedupFrom(rows, key, {Missing});
    var ks := GroupKeys(rows, key);
    DedupUnique(rows, key, {Missing});
    forall i, j | 0 <= i < j < |ks| ensures ks[i] != ks[j] {
      assert ks[i] == d[i][key] && ks[j] == d[j][key];
    }
  }

  lemma GroupKeysSound(rows: seq<Row>, key: Col)
    requires HasKey(rows, key)
    ensures forall v | v in GroupKeys(rows, key) :: v != Missing && Find(rows, key, v) < |rows|
  {
    var d := DedupFrom(rows, key, {Missing});
    var ks := GroupKeys(rows, key);
    DedupUnique(rows, key, {Missing});
    DedupKeepsFirst(rows, key, {Missing});
    forall v | v in ks ensures v != Missing && Find(rows, key, v) < |rows| {
      var i :| 0 <= i < |ks| && ks[i] == v;
      assert d[i] in d;
    }
  }

  lemma GroupKeysComplete(rows: seq<Row>, key: Col)
    requires HasKey(rows, key)
    ensures forall v | v != Missing && Find(rows, key, v) < |rows| :: v in GroupKeys(rows, key)
  {
    var d := DedupFrom(rows, key, {Missing});
    var ks := GroupKeys(rows, key);
    DedupKeepsEveryKey(rows, key, {Missing});
    forall v | v != Missing && Find(rows, key, v) < |rows| ensures v in ks {
      var f := Find(rows, key, v);
      assert Find(rows, key, rows[f][key]) == f;
      var j :| 0 <= j < |d| && d[j] == rows[f];
      assert ks[j] == v;
    }
  }

  function Group(rows: seq<Row>, key: Col, v: Cell): seq<Row> {
    Keep(rows, KeyIs(key, v))
  }

  // ---------------------------------------------------------------------
  // `astype(int)`

  /** `astype(int)` refuses a cell that is not a finite number. */
  datatype CastError = NotFiniteNumber(cell: Cell)

  function FirstNonFinite(cells: seq<Cell>): (i: nat)
    ensures i <= |cells|
    ensures i < |cells| ==> !cells[i].Num?
    ensures forall j | 0 <= j < i :: cells[j].Num?
  {
    if cells == [] then 0
    else if !cells[0].Num? then 0
    else 1 + FirstNonFinite(cells[1..])
  }

  /** `df[col] = df[col].astype(int)`: every cell truncated toward zero, or
      an error when some cell is missing, infinite or text. */
  function CastInt(t: Table, col: Col): (r: Result<Table, CastError>)
    requires WellFormed(t) && col in t.columns
    ensures r.Err? <==> exists i :: 0 <= i < |t.rows| && !t.rows[i][col].Num?
    ensures r.Ok? ==> && WellFormed(r.value) && r.value.columns == t.columns
                      && |r.value.rows| == |t.rows|
                      && forall i | 0 <= i < |t.rows| ::
                           r.value.rows[i] == t.rows[i][col := Num(Trunc(t.rows[i][col].x) as real)]
  {
    var cells := Column(t, col);
    var bad := FirstNonFinite(cells);
    assert forall i | 0 <= i < |t.rows| :: cells[i] == t.rows[i][col];
    if bad < |cells| then
      Err(NotFiniteNumber(cells[bad]))
    else
      Ok(WithColumn(t, col, seq(|cells|, i requires 0 <= i < |cells| => Num(Trunc(cells[i].x) as real))))
  }

  /** `dropna(subset=[col])` then `astype(int)` on that column: the cast
      raises exactly when some cell of the column is neither missing nor a
      finite number. */
  lemma CastCompleteErr(t: Table, col: Col)
    requires WellFormed(t) && col in t.columns
    ensures CastInt(DropNa(t, [col]), col).Err? <==>
              exists i | 0 <= i < |t.rows| :: !t.rows[i][col].Missing? && !t.rows[i][col].Num?
  {
    var kept := DropNa(t, [col]);
    DropNaMembers(t, [col]);
    if CastInt(kept, col).Err? {
      var k :| 0 <= k < |kept.rows| && !kept.rows[k][col].Num?;
      assert kept.rows[k] in t.rows;
    }
    if exists i | 0 <= i < |t.rows| :: !t.rows[i][col].Missing? && !t.rows[i][col].Num? {
      var i :| 0 <= i < |t.rows| && !t.rows[i][col].Missing? && !t.rows[i][col].Num?;
      assert t.rows[i] in kept.rows;
    }
  }

  /** When the cast succeeds, the rows left are exactly the rows whose
      cell is a number, that number cut to an integer, in their order and
      once each: row `k` comes from the `k`-th row with a present cell. */
  lemma CastCompleteMembers(t: Table, col: Col)
    requires WellFormed(t) && col in t.columns
    ensures var c := CastInt(DropNa(t, [col]), col);
      c.Ok? ==> forall x: Row :: x in c.value.rows <==>
                  exists i | 0 <= i < |t.rows| ::
                    t.rows[i][col].Num? && x == t.rows[i][col := Num(Trunc(t.rows[i][col].x) as real)]
    ensures var c := CastInt(DropNa(t, [col]), col);
      var ix := Positions(t.rows, CompleteOn([col]));
      c.Ok? ==> && |c.value.rows| == |ix|
                && forall k | 0 <= k < |ix| ::
                     t.rows[ix[k]][col].Num? && c.value.rows[k] == t.rows[ix[k]][col := Num(Trunc(t.rows[ix[k]][col].x) as real)]
  {
    var c := CastInt(DropNa(t, [col]), col);
    CastCompleteAt(t, col);
    if c.Ok? {
      forall x: Row | x in c.value.rows
        ensures exists i | 0 <= i < |t.rows| ::
                  t.rows[i][col].Num? && x == t.rows[i][col := Num(Trunc(t.rows[i][col].x) as real)]
      {
        CastCompleteFrom(t, col, x);
      }
      forall i | 0 <= i < |t.rows| && t.rows[i][col].Num?
        ensures t.rows[i][col := Num(Trunc(t.rows[i][col].x) as real)] in c.value.rows
      {
        CastCompleteKeeps(t, col, i);
      }
    }
  }

  lemma CastCompleteAt(t: Table, col: Col)
    requires WellFormed(t) && col in t.columns
    ensures var c := CastInt(DropNa(t, [col]), col);
      var ix := Positions(t.rows, CompleteOn([col]));
      c.Ok? ==> && |c.value.rows| == |ix|
                && forall k | 0 <= k < |ix| ::
                     t.rows[ix[k]][col].Num? && c.value.rows[k] == t.rows[ix[k]][col := Num(Trunc(t.rows[ix[k]][col].x) as real)]
  {
    var kept := DropNa(t, [col]);
    assert kept.rows == Keep(t.rows, CompleteOn([col]));
    KeepAt(t.rows, CompleteOn([col]));
  }

  lemma CastCompleteFrom(t: Table, col: Col, x: Row)
    requires WellFormed(t) && col in t.columns
    requires CastInt(DropNa(t, [col]), col).Ok? && x in CastInt(DropNa(t, [col]), col).value.rows
    ensures exists i | 0 <= i < |t.rows| ::
              t.rows[i][col].Num? && x == t.rows[i][col := Num(Trunc(t.rows[i][col].x) as real)]
  {
    var kept := DropNa(t, [col]);
    var c := CastInt(kept, col);
    DropNaMembers(t, [col]);
    var k :| 0 <= k < |c.value.rows| && c.value.rows[k] == x;
    assert kept.rows[k] in t.rows;
    var i :| 0 <= i < |t.rows| && t.rows[i] == kept.rows[k];
  }

  lemma CastCompleteKeeps(t: Table, col: Col, i: nat)
    requires WellFormed(t) && col in t.columns && i < |t.rows| && t.rows[i][col].Num?
    requires CastInt(DropNa(t, [col]), col).Ok?
    ensures t.rows[i][col := Num(Trunc(t.rows[i][col].x) as real)] in CastInt(DropNa(t, [col]), col).value.rows
  {
    var kept := DropNa(t, [col]);
    var c := CastInt(kept, col);
    DropNaMembers(t, [col]);
    assert t.rows[i] in kept.rows;
    var k :| 0 <= k < |kept.rows| && kept.rows[k] == t.rows[i];
    assert c.value.rows[k] == t.rows[i][col := Num(Trunc(t.rows[i][col].x) as real)];
  }

  /** After the cast every cell of the column is a whole number. */
  lemma CastIntWhole(t: Table, col: Col)
    requires WellFormed(t) && col in t.columns
    ensures var c := CastInt(t, col);
      c.Ok? ==> forall x: Row | x in c.value.rows :: x[col].Num? && IsWhole(x[col].x)
  {
    var c := CastInt(t, col);
    if c.Ok? {
      forall x: Row | x in c.value.rows ensures x[col].Num? && IsWhole(x[col].x) {
        var k :| 0 <= k < |c.value.rows| && c.value.rows[k] == x;
      }
    }
  }

  /** A match that brings one column besides the key adds that column. */
  lemma JoinedPair(l: Row, x: Row, key: Col, c: Col)
    requires key in x && c in x && key != c
    requires forall k | k in x :: k == key || k == c
    ensures Joined(l, x, key) == l[c := x[c]]
  {
    assert x.Keys == {key, c};
    assert x - {key} == map[c := x[c]];
  }

  /** Without a match that column is missing. */
  lemma UnmatchedPair(l: Row, key: Col, c: Col)
    requires key != c
    ensures Unmatched(l, [key, c], key) == l[c := Missing]
  {
    var extra := map k | k in [key, c] && k != key :: Missing;
    assert extra.Keys == {c};
    assert extra == map[c := Missing];
  }

  /** A match that brings two columns besides the key adds both. */
  lemma JoinedTriple(l: Row, x: Row, key: Col, a: Col, b: Col)
    requires key in x && a in x && b in x
    requires forall k | k in x :: k == key || k == a || k == b
    requires key != a && key != b && a != b
    ensures Joined(l, x, key) == l[a := x[a]][b := x[b]]
  {
    assert x.Keys == {key, a, b};
    assert x - {key} == map[a := x[a], b := x[b]];
  }

  /** Without a match both are missing. */
  lemma UnmatchedTriple(l: Row, key: Col, a: Col, b: Col)
    requires key != a && key != b && a != b
    ensures Unmatched(l, [key, a, b], key) == l[a := Missing][b := Missing]
  {
    var extra := map k | k in [key, a, b] && k != key :: Missing;
    assert extra.Keys == {a, b};
    assert extra == map[a := Missing, b := Missing];
  }
}
