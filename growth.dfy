/**
 * The merge of the two growth series in `loadStatsCharts`: the chart labels are the
 * dates of both series, each once, in string order, and each series is read off at
 * every label, 0 where it has no point for that date.
 */
module Growth {
  import opened JsText

  /** One `{ date, total }` element of a series. */
  datatype GrowthPoint = GrowthPoint(date: string, total: int)

  /** The labels and the two data rows of the charts. */
  datatype Chart = Chart(labels: seq<string>, happnData: seq<int>, leadsData: seq<int>)

  ghost predicate StrictlyAscending(ls: seq<string>) {
    forall i, j :: 0 <= i < j < |ls| ==> LexLess(ls[i], ls[j])
  }

  function DatesOf(ps: seq<GrowthPoint>): (r: seq<string>)
    ensures |r| == |ps| && forall i :: 0 <= i < |ps| ==> r[i] == ps[i].date
  {
    seq(|ps|, i requires 0 <= i < |ps| => ps[i].date)
  }

  /** Adds `x` to an ascending label list unless it is present already. */
  function InsertLabel(x: string, ls: seq<string>): (r: seq<string>)
    ensures forall y :: y in r <==> y == x || y in ls
  {
    if ls == [] then [x]
    else if x == ls[0] then ls
    else if LexLess(x, ls[0]) then [x] + ls
    else [ls[0]] + InsertLabel(x, ls[1..])
  }

  lemma {:induction false} InsertLabelAscending(x: string, ls: seq<string>)
    requires StrictlyAscending(ls)
    ensures StrictlyAscending(InsertLabel(x, ls))
    decreases |ls|
  {
    if ls != [] && x != ls[0] {
      if LexLess(x, ls[0]) {
        forall k | 0 < k < |ls| ensures LexLess(x, ls[k]) {
          LexLessTransitive(x, ls[0], ls[k]);
        }
      } else {
        LexLessTotal(x, ls[0]);
        InsertLabelAscending(x, ls[1..]);
        var rest := InsertLabel(x, ls[1..]);
        forall k | 0 <= k < |rest| ensures LexLess(ls[0], rest[k]) {
          assert rest[k] in rest;
          if rest[k] != x {
            var m :| 0 <= m < |ls[1..]| && ls[1..][m] == rest[k];
            assert ls[m + 1] == rest[k];
          }
        }
      }
    }
  }

  /** `Set` insertion of each date, then `sort()`. */
  function AddLabels(ds: seq<string>, ls: seq<string>): (r: seq<string>)
    ensures forall y :: y in r <==> y in ds || y in ls
    decreases |ds|
  {
    if ds == [] then ls else AddLabels(ds[1..], InsertLabel(ds[0], ls))
  }

  lemma {:induction false} AddLabelsAscending(ds: seq<string>, ls: seq<string>)
    requires StrictlyAscending(ls)
    ensures StrictlyAscending(AddLabels(ds, ls))
    decreases |ds|
  {
    if ds != [] {
      InsertLabelAscending(ds[0], ls);
      AddLabelsAscending(ds[1..], InsertLabel(ds[0], ls));
    }
  }

  /** A list in strictly ascending order is fixed by its elements, so the labels are
      the one sorted duplicate-free listing of the dates, however they are computed. */
  lemma {:induction false} AscendingUnique(a: seq<string>, b: seq<string>)
    requires StrictlyAscending(a) && StrictlyAscending(b)
    requires forall y :: y in a <==> y in b
    ensures a == b
    decreases |a|
  {
    if a != [] {
      assert a[0] in b;
    }
    if b != [] {
      assert b[0] in a;
    }
    if a != [] && b != [] {
      var ka :| 0 <= ka < |b| && b[ka] == a[0];
      var kb :| 0 <= kb < |a| && a[kb] == b[0];
      if a[0] != b[0] {
        assert LexLess(b[0], a[0]) && LexLess(a[0], b[0]);
        LexLessAsymmetric(a[0], b[0]);
      }
      forall y ensures y in a[1..] <==> y in b[1..] {
        if y in a[1..] {
          var i :| 0 <= i < |a| - 1 && a[1..][i] == y;
          assert LexLess(a[0], a[i + 1]);
          LexLessIrreflexive(y);
          assert y in b;
          var j :| 0 <= j < |b| && b[j] == y;
          assert b[1..][j - 1] == y;
        }
        if y in b[1..] {
          var i :| 0 <= i < |b| - 1 && b[1..][i] == y;
          assert LexLess(b[0], b[i + 1]);
          LexLessIrreflexive(y);
          assert y in a;
          var j :| 0 <= j < |a| && a[j] == y;
          assert a[1..][j - 1] == y;
        }
      }
      AscendingUnique(a[1..], b[1..]);
      assert a == [a[0]] + a[1..] && b == [b[0]] + b[1..];
    }
  }

  /** `series.find(g => g.date === date)`, its `total`, or 0 when there is none. */
  function FindTotal(ps: seq<GrowthPoint>, date: string): (r: int)
    ensures (forall p :: p in ps ==> p.date != date) ==> r == 0
    ensures forall k ::
      (0 <= k < |ps| && ps[k].date == date && forall j :: 0 <= j < k ==> ps[j].date != date)
      ==> r == ps[k].total
  {
    if ps == [] then 0
    else if ps[0].date == date then ps[0].total
    else FindTotal(ps[1..], date)
  }

  /** `labels.map(date => ...)` for one series. */
  function Series(labels: seq<string>, ps: seq<GrowthPoint>): (r: seq<int>)
    ensures |r| == |labels|
  {
    seq(|labels|, i requires 0 <= i < |labels| => FindTotal(ps, labels[i]))
  }

  function MergeGrowth(happn: seq<GrowthPoint>, leads: seq<GrowthPoint>): Chart {
    var labels := AddLabels(DatesOf(happn) + DatesOf(leads), []);
    Chart(labels, Series(labels, happn), Series(labels, leads))
  }

  /** The merged chart: its labels are exactly the dates of either series (no other
      day is filled in), ascending and without repeats; both rows have a value per
      label, the series' own total where it has the date and 0 where it has not. */
  lemma MergeGrowthSound(happn: seq<GrowthPoint>, leads: seq<GrowthPoint>)
    ensures var c := MergeGrowth(happn, leads);
      && StrictlyAscending(c.labels)
      && (forall d :: d in c.labels <==> d in DatesOf(happn) || d in DatesOf(leads))
      && |c.happnData| == |c.labels| && |c.leadsData| == |c.labels|
      && (forall i :: 0 <= i < |c.labels| && c.labels[i] !in DatesOf(happn) ==> c.happnData[i] == 0)
      && (forall i :: 0 <= i < |c.labels| && c.labels[i] !in DatesOf(leads) ==> c.leadsData[i] == 0)
      && (forall i :: 0 <= i < |c.labels| ==> c.happnData[i] == FindTotal(happn, c.labels[i]))
      && (forall i :: 0 <= i < |c.labels| ==> c.leadsData[i] == FindTotal(leads, c.labels[i]))
  {
    var c := MergeGrowth(happn, leads);
    AddLabelsAscending(DatesOf(happn) + DatesOf(leads), []);
    forall d ensures d in DatesOf(happn) + DatesOf(leads) <==> d in DatesOf(happn) || d in DatesOf(leads) {
    }
    forall i | 0 <= i < |c.labels| && c.labels[i] !in DatesOf(happn) ensures c.happnData[i] == 0 {
      forall p | p in happn ensures p.date != c.labels[i] {
        var k :| 0 <= k < |happn| && happn[k] == p;
        assert DatesOf(happn)[k] == p.date;
      }
    }
    forall i | 0 <= i < |c.labels| && c.labels[i] !in DatesOf(leads) ensures c.leadsData[i] == 0 {
      forall p | p in leads ensures p.date != c.labels[i] {
        var k :| 0 <= k < |leads| && leads[k] == p;
        assert DatesOf(leads)[k] == p.date;
      }
    }
  }
}
