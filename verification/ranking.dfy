/** `nlargest(k, col)` and `nsmallest(k, col)` with pandas' defaults: rows
    whose value is NaN are never selected, the result is ordered best
    first, and among equal values the earlier row comes first
    (`keep='first'`). */
module Ranking {
  import opened Cells

  /** One row of the per-major summary `agg`: the major field, the median
      ROI score of its programs and their number. */
  datatype MajorStat = MajorStat(field: Cell, roi: Cell, n: nat)

  /** The values a ranking compares: numbers and infinities. */
  predicate Ranked(c: Cell) {
    c.Num? || c.PosInf? || c.NegInf?
  }

  /** `<` on ranked values (false whenever either is not ranked). */
  predicate Less(a: Cell, b: Cell) {
    if a.NegInf? then b.Num? || b.PosInf?
    else if a.Num? then b.PosInf? || (b.Num? && a.x < b.x)
    else false
  }

  /** `a` comes strictly before `b`: larger for `nlargest`, smaller for
      `nsmallest`. */
  predicate Beats(a: Cell, b: Cell, largest: bool) {
    if largest then Less(b, a) else Less(a, b)
  }

  /** Ranked values are totally ordered: of two different values one
      beats the other, and never both. */
  lemma BeatsTotal(a: Cell, b: Cell, largest: bool)
    requires Ranked(a) && Ranked(b)
    ensures a == b ==> !Beats(a, b, largest)
    ensures a != b ==> Beats(a, b, largest) != Beats(b, a, largest)
  {
  }

  /** The position of the first ranked element that no element beats, or
      `|s|` when no element is ranked. */
  function Best(s: seq<MajorStat>, largest: bool): (i: nat)
    ensures i <= |s|
  {
    if s == [] then 0
    else
      var b := 1 + Best(s[1..], largest);
      if !Ranked(s[0].roi) then b
      else if b < |s| && Beats(s[b].roi, s[0].roi, largest) then b
      else 0
  }

  /** `Best` finds a ranked element whenever there is one; that element is
      beaten by none and beats every ranked element before it, so ties go
      to the earliest. */
  lemma {:induction false} BestExact(s: seq<MajorStat>, largest: bool)
    ensures var i := Best(s, largest);
      && (i < |s| <==> exists j | 0 <= j < |s| :: Ranked(s[j].roi))
      && (i < |s| ==> Ranked(s[i].roi))
      && (forall j | 0 <= j < |s| && Ranked(s[j].roi) :: !Beats(s[j].roi, s[i].roi, largest))
      && (forall j | 0 <= j < i && j < |s| && Ranked(s[j].roi) :: Beats(s[i].roi, s[j].roi, largest))
  {
    if s != [] {
      var tl := s[1..];
      assert forall j | 1 <= j < |s| :: s[j] == tl[j - 1];
      BestExact(tl, largest);
      var b := 1 + Best(tl, largest);
      if b < |s| {
        assert s[b] == tl[b - 1];
        if Ranked(s[0].roi) {
          BeatsTotal(s[b].roi, s[0].roi, largest);
        }
      }
    }
  }

  function RemoveAt(s: seq<MajorStat>, i: nat): (r: seq<MajorStat>)
    requires i < |s|
    ensures |r| == |s| - 1
  {
    s[..i] + s[i + 1..]
  }

  /** `nlargest(k)` (`largest`) or `nsmallest(k)`: the best ranked
      element, then the best of the rest, `k` times or until no ranked
      element is left. */
  function TakeBest(s: seq<MajorStat>, k: nat, largest: bool): seq<MajorStat>
    decreases k
  {
    var i := Best(s, largest);
    if k == 0 || i == |s| then []
    else [s[i]] + TakeBest(RemoveAt(s, i), k - 1, largest)
  }

  /** Removing one position keeps every other element. */
  lemma RemoveAtMembers(s: seq<MajorStat>, i: nat)
    requires i < |s|
    ensures forall y | y in s && y != s[i] :: y in RemoveAt(s, i)
    ensures forall y | y in RemoveAt(s, i) :: y in s
  {
    var r := RemoveAt(s, i);
    forall y | y in s && y != s[i] ensures y in r {
      var j :| 0 <= j < |s| && s[j] == y;
      if j < i {
        assert r[j] == y;
      } else {
        assert r[j - 1] == y;
      }
    }
  }

  /** One step of the selection: a ranked element that no ranked element
      of `s` beats, then a selection from the rest. Without a ranked
      element the selection is empty. */
  lemma TakeBestStep(s: seq<MajorStat>, k: nat, largest: bool)
    requires k > 0
    ensures var i := Best(s, largest);
      && (i == |s| ==> TakeBest(s, k, largest) == [] && forall y | y in s :: !Ranked(y.roi))
      && (i < |s| ==> && Ranked(s[i].roi)
                      && TakeBest(s, k, largest) == [s[i]] + TakeBest(RemoveAt(s, i), k - 1, largest)
                      && forall y | y in s && Ranked(y.roi) :: !Beats(y.roi, s[i].roi, largest))
  {
    var i := Best(s, largest);
    BestExact(s, largest);
    forall y | y in s ensures Ranked(y.roi) ==> i < |s| && !Beats(y.roi, s[i].roi, largest) {
      var j :| 0 <= j < |s| && s[j] == y;
    }
  }

  /** No two entries are about the same major field. */
  predicate DistinctFields(s: seq<MajorStat>) {
    forall i, j | 0 <= i < j < |s| :: s[i].field != s[j].field
  }

  /** The selection holds at most `k` ranked entries, each taken from `s`. */
  lemma {:induction false} TakeBestDrawn(s: seq<MajorStat>, k: nat, largest: bool)
    ensures var r := TakeBest(s, k, largest);
      && |r| <= k
      && forall x | x in r :: x in s && Ranked(x.roi)
    decreases k
  {
    var i := Best(s, largest);
    if k > 0 && i < |s| {
      TakeBestStep(s, k, largest);
      TakeBestDrawn(RemoveAt(s, i), k - 1, largest);
      RemoveAtMembers(s, i);
    }
  }

  /** The selection never holds the same field twice when `s` does not. */
  lemma {:induction false} TakeBestDistinct(s: seq<MajorStat>, k: nat, largest: bool)
    requires DistinctFields(s)
    ensures DistinctFields(TakeBest(s, k, largest))
    decreases k
  {
    var i := Best(s, largest);
    if k > 0 && i < |s| {
      TakeBestStep(s, k, largest);
      var s' := RemoveAt(s, i);
      var r' := TakeBest(s', k - 1, largest);
      RemoveAtDistinct(s, i);
      TakeBestDistinct(s', k - 1, largest);
      TakeBestDrawn(s', k - 1, largest);
      RemoveAtOthers(s, i);
      ConsDistinct(s[i], r');
    }
  }

  lemma RemoveAtIndex(s: seq<MajorStat>, i: nat, j: nat)
    requires i < |s| && j < |s| - 1
    ensures RemoveAt(s, i)[j] == if j < i then s[j] else s[j + 1]
  {
  }

  lemma ConsDistinct(x: MajorStat, r: seq<MajorStat>)
    requires DistinctFields(r) && forall y | y in r :: y.field != x.field
    ensures DistinctFields([x] + r)
  {
    var xr := [x] + r;
    forall p, q | 0 <= p < q < |xr| ensures xr[p].field != xr[q].field {
      assert xr[q] == r[q - 1];
      if p > 0 {
        assert xr[p] == r[p - 1];
      }
    }
  }

  /** With distinct fields, the removed entry's field is gone. */
  lemma RemoveAtOthers(s: seq<MajorStat>, i: nat)
    requires i < |s| && DistinctFields(s)
    ensures forall y | y in RemoveAt(s, i) :: y.field != s[i].field
  {
    var r := RemoveAt(s, i);
    forall y | y in r ensures y.field != s[i].field {
      var j :| 0 <= j < |r| && r[j] == y;
      RemoveAtIndex(s, i, j);
    }
  }

  lemma RemoveAtDistinct(s: seq<MajorStat>, i: nat)
    requires i < |s| && DistinctFields(s)
    ensures DistinctFields(RemoveAt(s, i))
  {
    var r := RemoveAt(s, i);
    forall p, q | 0 <= p < q < |r| ensures r[p].field != r[q].field {
      RemoveAtIndex(s, i, p);
      RemoveAtIndex(s, i, q);
    }
  }

  /** The selection is ordered best first. */
  lemma {:induction false} TakeBestOrdered(s: seq<MajorStat>, k: nat, largest: bool)
    ensures var r := TakeBest(s, k, largest);
      forall i, j | 0 <= i < j < |r| :: !Beats(r[j].roi, r[i].roi, largest)
    decreases k
  {
    var i := Best(s, largest);
    if k > 0 && i < |s| {
      TakeBestStep(s, k, largest);
      var s' := RemoveAt(s, i);
      TakeBestOrdered(s', k - 1, largest);
      var r' := TakeBest(s', k - 1, largest);
      var r := TakeBest(s, k, largest);
      TakeBestDrawn(s', k - 1, largest);
      RemoveAtMembers(s, i);
      forall p, q | 0 <= p < q < |r| ensures !Beats(r[q].roi, r[p].roi, largest) {
        assert r[q] == r'[q - 1];
        if p > 0 {
          assert r[p] == r'[p - 1];
        } else {
          assert r[q] in r';
        }
      }
    }
  }

  /** No ranked element left out beats a selected one, and fewer than `k`
      are selected only when every ranked element was. */
  lemma {:induction false} TakeBestMaximal(s: seq<MajorStat>, k: nat, largest: bool)
    ensures var r := TakeBest(s, k, largest);
      forall y, x | y in s && Ranked(y.roi) && y !in r && x in r :: !Beats(y.roi, x.roi, largest)
    ensures var r := TakeBest(s, k, largest);
      |r| < k ==> forall y | y in s && Ranked(y.roi) :: y in r
    decreases k
  {
    var i := Best(s, largest);
    if k > 0 {
      TakeBestStep(s, k, largest);
      if i < |s| {
        var s' := RemoveAt(s, i);
        TakeBestMaximal(s', k - 1, largest);
        RemoveAtMembers(s, i);
      }
    }
  }
}
