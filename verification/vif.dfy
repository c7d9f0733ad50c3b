/** The multicollinearity reduction of 02_analysis.py (`reduce_vif`):
    while the largest variance-inflation factor of the remaining features
    exceeds a threshold, drop the leftmost feature holding it and recompute.
    The factors themselves come from a regression library and are an
    oracle here: `vif(t, i)` is the factor of the i-th column of `t`. */
module Multicollinearity {
  import opened Cells
  import opened Columns
  import opened Frames

  /** A variance-inflation factor: finite, or infinite for a feature that
      the others determine exactly. */
  datatype Vif = Finite(v: real) | Infinite

  /** The order of factors, infinity above every finite one. */
  predicate VifLe(a: Vif, b: Vif) {
    b.Infinite? || (a.Finite? && a.v <= b.v)
  }

  /** `max_vif > thresh` */
  predicate Exceeds(f: Vif, thresh: real) {
    f.Infinite? || f.v > thresh
  }

  /** The factors of one pass, one per remaining feature, in column order. */
  function Factors(t: Table, vif: (Table, nat) -> Vif): (fs: seq<Vif>)
    ensures |fs| == |t.columns|
    ensures forall i | 0 <= i < |fs| :: fs[i] == vif(t, i)
  {
    seq(|t.columns|, i requires 0 <= i < |t.columns| => vif(t, i))
  }

  /** Python's `max` over a non-empty list. */
  function MaxOf(fs: seq<Vif>): (m: Vif)
    requires fs != []
    ensures m in fs
    ensures forall f | f in fs :: VifLe(f, m)
  {
    if |fs| == 1 then fs[0]
    else
      var rest := MaxOf(fs[1..]);
      assert forall f | f in fs :: f == fs[0] || f in fs[1..];
      if VifLe(fs[0], rest) then rest else fs[0]
  }

  /** The decision of one pass: the position `vif.index(max_vif)` of the
      feature to drop, or None when no factor exceeds the threshold. */
  function DropChoice(fs: seq<Vif>, thresh: real): (k: Option<nat>)
    requires fs != []
  {
    var m := MaxOf(fs);
    if Exceeds(m, thresh) then Some(IndexOf(fs, m)) else None
  }

  /** A pass drops a feature exactly when some factor exceeds the
      threshold, and then the leftmost one whose factor is the largest:
      every factor is at most its factor and every factor before it is
      strictly smaller. */
  lemma DropChoiceExact(fs: seq<Vif>, thresh: real)
    requires fs != []
    ensures DropChoice(fs, thresh).Some? <==> exists i | 0 <= i < |fs| :: Exceeds(fs[i], thresh)
    ensures DropChoice(fs, thresh).Some? ==>
              var k := DropChoice(fs, thresh).value;
              && k < |fs| && Exceeds(fs[k], thresh)
              && (forall j | 0 <= j < |fs| :: VifLe(fs[j], fs[k]))
              && (forall j | 0 <= j < k :: !VifLe(fs[k], fs[j]))
  {
    var m := MaxOf(fs);
    if exists i | 0 <= i < |fs| :: Exceeds(fs[i], thresh) {
      var i :| 0 <= i < |fs| && Exceeds(fs[i], thresh);
      assert fs[i] in fs;
      assert VifLe(fs[i], m);
    }
    var k := IndexOf(fs, m);
    forall j | 0 <= j < k ensures !VifLe(fs[k], fs[j]) {
      assert fs[j] in fs;
    }
  }

  /** `X.drop(columns=[X.columns[k]])` */
  function DropAt(t: Table, k: nat): (r: Table)
    requires WellFormed(t) && k < |t.columns|
    ensures WellFormed(r) && |r.rows| == |t.rows|
  {
    DropColumns(t, [t.columns[k]])
  }

  /** Dropping the k-th feature removes exactly that column: the others
      keep their order and every row keeps its other cells. */
  lemma DropAtExact(t: Table, k: nat)
    requires WellFormed(t) && k < |t.columns|
    ensures DropAt(t, k).columns == t.columns[..k] + t.columns[k + 1..]
    ensures forall i, c | 0 <= i < |t.rows| && c in DropAt(t, k).columns
              :: DropAt(t, k).rows[i][c] == t.rows[i][c]
  {
    KeepAllBut(t.columns, k);
  }

  lemma {:induction false} KeepAllBut(s: seq<Col>, k: nat)
    requires NoDup(s) && k < |s|
    ensures Keep(s, NotListed([s[k]])) == s[..k] + s[k + 1..]
  {
    var p := NotListed([s[k]]);
    if k == 0 {
      assert forall c | c in s[1..] :: c != s[0];
      KeepAll(s[1..], p);
    } else {
      assert NoDup(s[1..]) by {
        forall i, j | 0 <= i < j < |s[1..]| ensures s[1..][i] != s[1..][j] {
          assert s[1..][i] == s[i + 1] && s[1..][j] == s[j + 1];
        }
      }
      KeepAllBut(s[1..], k - 1);
      assert s[1..][k - 1] == s[k];
      assert s[..k] + s[k + 1..] == [s[0]] + (s[1..][..k - 1] + s[1..][k..]);
    }
  }

  lemma {:induction false} KeepAll<T>(s: seq<T>, p: T -> bool)
    requires forall x | x in s :: p(x)
    ensures Keep(s, p) == s
  {
    if s != [] {
      assert s[0] in s;
      KeepAll(s[1..], p);
      assert [s[0]] + s[1..] == s;
    }
  }

  /** `max(vif)` of an empty feature list raises. */
  datatype ReduceError = NoFeaturesLeft

  /** What `reduce_vif` returns: one pass after another until a pass drops
      nothing. */
  function Reduce(t: Table, vif: (Table, nat) -> Vif, thresh: real): (r: Result<Table, ReduceError>)
    requires WellFormed(t)
    ensures r.Ok? ==> WellFormed(r.value)
    decreases |t.columns|
  {
    if t.columns == [] then Err(NoFeaturesLeft)
    else
      match DropChoice(Factors(t, vif), thresh)
      case None => Ok(t)
      case Some(k) =>
        DropAtExact(t, k);
        Reduce(DropAt(t, k), vif, thresh)
  }

  /** On return every factor of the final pass is within the threshold,
      and at least one feature is left. */
  lemma {:induction false} ReduceBound(t: Table, vif: (Table, nat) -> Vif, thresh: real)
    requires WellFormed(t)
    ensures Reduce(t, vif, thresh).Ok? ==>
              var x := Reduce(t, vif, thresh).value;
              && x.columns != []
              && forall i | 0 <= i < |x.columns| :: !Exceeds(vif(x, i), thresh)
    decreases |t.columns|
  {
    if t.columns != [] {
      var fs := Factors(t, vif);
      DropChoiceExact(fs, thresh);
      match DropChoice(fs, thresh)
      case None =>
      case Some(k) =>
        DropAtExact(t, k);
        ReduceBound(DropAt(t, k), vif, thresh);
    }
  }

  /** The loop only removes columns: the result's features are the input's
      in their original relative order, the rows are the same rows, and
      every remaining cell is the input's. */
  lemma {:induction false} ReduceKeepsRows(t: Table, vif: (Table, nat) -> Vif, thresh: real)
    requires WellFormed(t)
    ensures Reduce(t, vif, thresh).Ok? ==>
              var x := Reduce(t, vif, thresh).value;
              && SubseqOf(x.columns, t.columns)
              && |x.rows| == |t.rows|
              && (forall c | c in x.columns :: c in t.columns)
              && forall i, c | 0 <= i < |t.rows| && c in x.columns :: x.rows[i][c] == t.rows[i][c]
    decreases |t.columns|
  {
    if t.columns != [] {
      match DropChoice(Factors(t, vif), thresh)
      case None =>
        SubseqRefl(t.columns);
      case Some(k) =>
        var d := DropAt(t, k);
        DropAtExact(t, k);
        ReduceKeepsRows(d, vif, thresh);
        SubseqRemoveAt(t.columns, k);
        if Reduce(t, vif, thresh).Ok? {
          var x := Reduce(t, vif, thresh).value;
          SubseqTrans(x.columns, d.columns, t.columns);
          SubseqMembers(x.columns, d.columns);
        }
    }
  }

  /** `reduce_vif(X, thresh)`: the `dropped` flag loop, one factor list per
      pass, dropping one feature per pass that finds a factor above the
      threshold. Every dropping pass removes a column, so the loop ends. */
  method ReduceVif(x0: Table, vif: (Table, nat) -> Vif, thresh: real) returns (r: Result<Table, ReduceError>)
    requires WellFormed(x0)
    ensures r == Reduce(x0, vif, thresh)
  {
    var x := x0;
    var dropped := true;
    while dropped
      invariant WellFormed(x)
      invariant Reduce(x0, vif, thresh) == if dropped then Reduce(x, vif, thresh) else Ok(x)
      decreases |x.columns|, dropped
    {
      dropped := false;
      var factors := Factors(x, vif);
      if factors == [] {
        return Err(NoFeaturesLeft);
      }
      var maxVif := MaxOf(factors);
      if Exceeds(maxVif, thresh) {
        var maxloc := IndexOf(factors, maxVif);
        DropAtExact(x, maxloc);
        x := DropAt(x, maxloc);
        dropped := true;
      }
    }
    return Ok(x);
  }
}
